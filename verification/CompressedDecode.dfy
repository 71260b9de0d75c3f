/** The immediates of compressed instructions as src/decode.c extracts them, bit by bit, against the
    field layouts of chapter 16 of the RISC-V Unprivileged ISA. */
module CompressedDecode {

  type Half = bv16
  type Word = bv32

  // ---------------------------------------------------------------- layouts of the standard

  // imm[5] = inst[12], imm[4:0] = inst[6:2], sign-extended
  function CiImm(i: Half): Word {
    var w := i as bv32;
    var u := (((w >> 12) & 1) << 5) | (((w >> 6) & 1) << 4) | (((w >> 5) & 1) << 3) | (((w >> 4) & 1) << 2) |
             (((w >> 3) & 1) << 1) | (((w >> 2) & 1) << 0);
    if (w >> 12) & 1 == 1 then 0xffff_ffc0 | u else u
  }

  // nzuimm[5:4|9:6|2|3] = inst[12:5]
  function Addi4spnImm(i: Half): Word {
    var w := i as bv32;
    (((w >> 12) & 1) << 5) | (((w >> 11) & 1) << 4) | (((w >> 10) & 1) << 9) | (((w >> 9) & 1) << 8) |
    (((w >> 8) & 1) << 7) | (((w >> 7) & 1) << 6) | (((w >> 6) & 1) << 2) | (((w >> 5) & 1) << 3)
  }

  // nzimm[9] = inst[12], nzimm[4|6|8:7|5] = inst[6:2], sign-extended
  function Addi16spImm(i: Half): Word {
    var w := i as bv32;
    var u := (((w >> 12) & 1) << 9) | (((w >> 6) & 1) << 4) | (((w >> 5) & 1) << 6) | (((w >> 4) & 1) << 8) |
             (((w >> 3) & 1) << 7) | (((w >> 2) & 1) << 5);
    if (w >> 12) & 1 == 1 then 0xffff_fc00 | u else u
  }

  // nzimm[17] = inst[12], nzimm[16:12] = inst[6:2], sign-extended
  function LuiImm(i: Half): Word {
    var w := i as bv32;
    var u := (((w >> 12) & 1) << 17) | (((w >> 6) & 1) << 16) | (((w >> 5) & 1) << 15) | (((w >> 4) & 1) << 14) |
             (((w >> 3) & 1) << 13) | (((w >> 2) & 1) << 12);
    if (w >> 12) & 1 == 1 then 0xfffc_0000 | u else u
  }

  // imm[11|4|9:8|10|6|7|3:1|5] = inst[12:2], sign-extended
  function CjImm(i: Half): Word {
    var w := i as bv32;
    var u := (((w >> 12) & 1) << 11) | (((w >> 11) & 1) << 4) | (((w >> 10) & 1) << 9) | (((w >> 9) & 1) << 8) |
             (((w >> 8) & 1) << 10) | (((w >> 7) & 1) << 6) |
             (((w >> 6) & 1) << 7) | (((w >> 5) & 1) << 3) | (((w >> 4) & 1) << 2) | (((w >> 3) & 1) << 1) |
             (((w >> 2) & 1) << 5);
    if (w >> 12) & 1 == 1 then 0xffff_f000 | u else u
  }

  // imm[8|4:3] = inst[12:10], imm[7:6|2:1|5] = inst[6:2], sign-extended
  function CbImm(i: Half): Word {
    var w := i as bv32;
    var u := (((w >> 12) & 1) << 8) | (((w >> 11) & 1) << 4) | (((w >> 10) & 1) << 3) | (((w >> 6) & 1) << 7) |
             (((w >> 5) & 1) << 6) | (((w >> 4) & 1) << 2) | (((w >> 3) & 1) << 1) | (((w >> 2) & 1) << 5);
    if (w >> 12) & 1 == 1 then 0xffff_fe00 | u else u
  }

  // ---------------------------------------------------------------- the decoder's expressions

  function SignExtendH(t: Half): Word {
    if t & 0x8000 != 0 then 0xffff_0000 | (t as bv32) else t as bv32
  }

  // c_decode_citype_imm
  function DecodeCi(i: Half): (imm: Word)
    ensures imm == CiImm(i)
  {
    var t := (((i & 0x1000) >> 7) | ((i & 0x7c) >> 2)) as bv32;
    if t & 0x20 != 0 then 0xffff_ffc0 | t else t
  }

  // c_decode_caddi4spn_nzuimm
  function DecodeAddi4spn(i: Half): (imm: Word)
    ensures imm == Addi4spnImm(i)
  {
    (((i & 0x1800) >> 7) | ((i & 0x780) >> 1) | ((i & 0x40) >> 4) | ((i & 0x20) >> 2)) as bv32
  }

  // c_decode_caddi16sp_nzimm
  function DecodeAddi16sp(i: Half): (imm: Word)
    ensures imm == Addi16spImm(i)
  {
    var w := i as bv32;
    var t := ((w & 0x1000) >> 3) | ((w & 0x40) >> 2) | ((w & 0x20) << 1) | ((w & 0x18) << 4) | ((w & 0x4) << 3);
    if t & 0x200 != 0 then 0xffff_fc00 | t else t
  }

  // c_decode_clui_nzimm
  function DecodeLui(i: Half): (imm: Word)
    ensures imm == LuiImm(i)
  {
    var w := i as bv32;
    var t := ((w & 0x1000) << 5) | ((w & 0x7c) << 10);
    if t & 0x2_0000 != 0 then 0xfffc_0000 | t else t
  }

  // The immediates of C.LWSP, C.SWSP, C.LW and C.SW.
  function LwspImm(i: Half): Word {
    var w := i as bv32;
    (((w >> 12) & 1) << 5) | (((w >> 4) & 7) << 2) | (((w >> 2) & 3) << 6)
  }

  function SwspImm(i: Half): Word {
    var w := i as bv32;
    (((w >> 9) & 0xf) << 2) | (((w >> 7) & 3) << 6)
  }

  function LwImm(i: Half): Word {
    var w := i as bv32;
    (((w >> 10) & 7) << 3) | (((w >> 6) & 1) << 2) | (((w >> 5) & 1) << 6)
  }

  // op_clwsp
  function DecodeLwsp(i: Half): (imm: Word)
    ensures imm == LwspImm(i)
  {
    (((i & 0x70) >> 2) | ((i & 0x0c) << 4) | ((i & 0x1000) >> 7)) as bv32
  }

  // op_cswsp
  function DecodeSwsp(i: Half): (imm: Word)
    ensures imm == SwspImm(i)
  {
    (((i & 0x1e00) >> 7) | ((i & 0x180) >> 1)) as bv32
  }

  // op_clw and op_csw
  function DecodeLw(i: Half): (imm: Word)
    ensures imm == LwImm(i)
  {
    (((i & 0x40) >> 4) | ((i & 0x1c00) >> 7) | ((i & 0x20) << 1)) as bv32
  }

  // ---------------------------------------------------------------- the sign-extension loops

  // c_decode_caddi_imm: the sign bit is or-ed into eleven places.
  method DecodeCaddi(i: Half) returns (imm: Word)
    ensures imm == CiImm(i)
  {
    var mask := (0x1000 & i) << 3;
    var t, k: Half := 0, 0;
    while k <= 10
      invariant k <= 11 && t == (if mask == 0 then 0 else !(0xffff >> k))
      decreases 11 - k
    {
      t := t | (mask >> k);
      k := k + 1;
    }
    CaddiExtended(i);
    imm := SignExtendH(t | ((i & 0x7c) >> 2));
  }

  lemma CaddiExtended(i: Half)
    ensures SignExtendH((if (0x1000 & i) << 3 == 0 then 0 else 0xffe0) | ((i & 0x7c) >> 2)) == CiImm(i)
  {
  }

  // The fields of a CJ immediate, before sign extension.
  function RawCj(i: Half): Half {
    ((i & 0x38) >> 2) | ((i & 0x800) >> 7) | ((i & 4) << 3) | ((i & 0x80) >> 1) | ((i & 0x40) << 1) |
    ((i & 0x600) >> 1) | ((i & 0x100) << 2) | ((i & 0x1000) >> 1)
  }

  // The loop of c_decode_cjtype_imm: the places above the sign bit become copies of it.
  method CjLoop(raw: Half) returns (t: Half)
    ensures t == raw | (if 0x0800 & raw == 0 then 0 else 0xf000)
  {
    t := raw;
    var k: Half := 1;
    while k <= 4
      invariant 1 <= k <= 5 && t == raw | (if 0x0800 & raw == 0 then 0 else (0x0800 << k) - 0x1000)
      decreases 5 - k
    {
      t := t | ((0x0800 & t) << k);
      k := k + 1;
    }
  }

  // The loop of c_decode_cbtype_imm, likewise.
  method CbLoop(raw: Half) returns (t: Half)
    ensures t == raw | (if 0x0100 & raw == 0 then 0 else 0xfe00)
  {
    t := raw;
    var k: Half := 1;
    while k <= 8
      invariant 1 <= k <= 9 && t == raw | (if 0x0100 & raw == 0 then 0 else (0x0100 << k) - 0x0200)
      decreases 9 - k
    {
      t := t | ((0x0100 & t) << k);
      k := k + 1;
    }
  }

  lemma CjExtended(i: Half)
    ensures SignExtendH(RawCj(i) | (if 0x0800 & RawCj(i) == 0 then 0 else 0xf000)) == CjImm(i)
  {
  }

  // c_decode_cjtype_imm: the sign bit is or-ed upwards into four places.
  method DecodeCj(i: Half) returns (imm: Word)
    ensures imm == CjImm(i)
  {
    var t := CjLoop(RawCj(i));
    CjExtended(i);
    imm := SignExtendH(t);
  }

  // The fields of a CB immediate, before sign extension.
  function RawCb(i: Half): Half {
    ((i & 0x18) >> 2) | ((i & 0xc00) >> 7) | ((i & 4) << 3) | ((i & 0x60) << 1) | ((i & 0x1000) >> 4)
  }

  lemma CbExtended(i: Half)
    ensures SignExtendH(RawCb(i) | (if 0x0100 & RawCb(i) == 0 then 0 else 0xfe00)) == CbImm(i)
  {
  }

  // c_decode_cbtype_imm, and the sign_extend_h of its callers: the sign bit is or-ed upwards into eight places.
  method DecodeCb(i: Half) returns (imm: Word)
    ensures imm == CbImm(i)
  {
    var t := CbLoop(RawCb(i));
    CbExtended(i);
    imm := SignExtendH(t);
  }

  // A second sign extension changes nothing.
  lemma CjAgain(i: Half)
    ensures SignExtendH((CjImm(i) & 0xffff) as Half) == CjImm(i)
  {
  }

  // The ranges that the handlers of C.ADDI and C.ADDI4SPN rely on.
  lemma ImmRanges(i: Half)
    ensures (CiImm(i) < 32 || CiImm(i) >= 0xffff_ffe0) && Addi4spnImm(i) < 1024
  {
  }

  /** C.SRAI reads the whole rs1 field, and still names the register of its three-bit field. */
  lemma SraiRegister(i: Half)
    requires (i & 0x0c00) >> 10 == 1
    ensures (i & 0x0f80) >> 7 == ((i & 0x0380) >> 7) | 8
  {
  }
}
