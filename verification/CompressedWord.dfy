/** Whole compressed words: the RVC half of rv_decode in src/decode.c, against the instruction
    listings of chapter 16 of the RISC-V Unprivileged ISA (RV32C, with F and without D). */
module CompressedWord {
  import opened Words
  import opened BlockIr
  import opened Compressed
  import Bits16 = CompressedDecode

  type Half = bv16

  // ---------------------------------------------------------------- the listings of the standard

  // A word stands for a 32-bit instruction, is a hint, is reserved (or custom, or needs the D
  // extension), or belongs to the F extension.
  datatype Meaning = Stands(i: Insn) | Hint | Reserved | Float

  const BLANK := Insn(NOP, 0, 0, 0, 0, 0, 0, 0, [])

  const BREAK := BLANK.(opcode := EBREAK)

  function ImmForm(op: ImmOp, rd: Reg, rs1: Reg, imm: Word): Insn {
    BLANK.(opcode := OPIMM(op), rd := rd, rs1 := rs1, imm := imm)
  }

  function RegForm(op: RegOp, rd: Reg, rs1: Reg, rs2: Reg): Insn {
    BLANK.(opcode := OP(op), rd := rd, rs1 := rs1, rs2 := rs2)
  }

  function LoadForm(rd: Reg, rs1: Reg, imm: Word): Insn {
    BLANK.(opcode := LOAD(Lw), rd := rd, rs1 := rs1, imm := imm)
  }

  function StoreForm(rs1: Reg, rs2: Reg, imm: Word): Insn {
    BLANK.(opcode := STORE(Sw), rs1 := rs1, rs2 := rs2, imm := imm)
  }

  function BranchForm(cond: Cond, rs1: Reg, imm: Word): Insn {
    BLANK.(opcode := BRANCH(cond), rs1 := rs1, imm := imm)
  }

  function JalForm(rd: Reg, imm: Word): Insn {
    BLANK.(opcode := JAL, rd := rd, imm := imm)
  }

  function JalrForm(rd: Reg, rs1: Reg): Insn {
    BLANK.(opcode := JALR, rd := rd, rs1 := rs1)
  }

  function Num(b: bv32): (n: Word) {
    b as int
  }

  function RegNo(b: Half): (r: Reg)
    requires b < 32
  {
    b as int
  }

  // Register fields: inst[11:7], inst[6:2], and the three-bit ones for x8 to x15.
  function High5(w: Half): Reg {
    RegNo((w >> 7) & 0x1f)
  }

  function Low5Bits(w: Half): Reg {
    RegNo((w >> 2) & 0x1f)
  }

  function High3(w: Half): Reg {
    RegNo(8 + ((w >> 7) & 7))
  }

  function Low3(w: Half): Reg {
    RegNo(8 + ((w >> 2) & 7))
  }

  function Bit12(w: Half): bool {
    (w >> 12) & 1 == 1
  }

  function Shamt(w: Half): Word {
    Num(((w >> 2) & 0x1f) as bv32)
  }

  function Addi4spn(w: Half): Meaning {
    var imm := Num(Bits16.Addi4spnImm(w));
    if imm == 0 then Reserved else Stands(ImmForm(Addi, Low3(w), SP, imm))
  }

  function LoadWord(w: Half): Meaning {
    Stands(LoadForm(Low3(w), High3(w), Num(Bits16.LwImm(w))))
  }

  function StoreWord(w: Half): Meaning {
    Stands(StoreForm(High3(w), Low3(w), Num(Bits16.LwImm(w))))
  }

  function AddImm(w: Half): Meaning {
    if High5(w) == 0 then Hint else Stands(ImmForm(Addi, High5(w), High5(w), Num(Bits16.CiImm(w))))
  }

  function LoadImm(w: Half): Meaning {
    if High5(w) == 0 then Hint else Stands(ImmForm(Addi, High5(w), 0, Num(Bits16.CiImm(w))))
  }

  function UpperImm(w: Half): Meaning {
    UpperForm(High5(w), Num(Bits16.Addi16spImm(w)), Num(Bits16.LuiImm(w)))
  }

  // The two instructions by rd, with the immediate that each would have.
  function UpperForm(rd: Reg, sp: Word, upper: Word): Meaning {
    if rd == 2 then
      if sp == 0 then Reserved else Stands(ImmForm(Addi, SP, SP, sp))
    else if upper == 0 then Reserved
    else if rd == 0 then Hint
    else Stands(BLANK.(opcode := LUI, rd := rd, imm := upper))
  }

  function MiscAlu(w: Half): Meaning {
    var r := High3(w);
    match (w >> 10) & 3
    case 0 => if Bit12(w) then Reserved else Stands(ImmForm(Srli, r, r, Shamt(w)))
    case 1 => if Bit12(w) then Reserved else Stands(ImmForm(Srai, r, r, Shamt(w)))
    case 2 => Stands(ImmForm(Andi, r, r, Num(Bits16.CiImm(w))))
    case _ => if Bit12(w) then Reserved else Stands(RegForm(Arith((w >> 5) & 3), r, r, Low3(w)))
  }

  function Arith(funct2: Half): RegOp {
    match funct2
    case 0 => Sub
    case 1 => Xor
    case 2 => Or
    case _ => And
  }

  function JumpTo(link: Reg, w: Half): Meaning {
    Stands(JalForm(link, Num(Bits16.CjImm(w))))
  }

  function BranchTo(cond: Cond, w: Half): Meaning {
    Stands(BranchForm(cond, High3(w), Num(Bits16.CbImm(w))))
  }

  function ShiftLeft(w: Half): Meaning {
    if Bit12(w) then Reserved
    else if High5(w) == 0 then Hint
    else Stands(ImmForm(Slli, High5(w), High5(w), Shamt(w)))
  }

  function LoadSp(w: Half): Meaning {
    if High5(w) == 0 then Reserved else Stands(LoadForm(High5(w), SP, Num(Bits16.LwspImm(w))))
  }

  function StoreSp(w: Half): Meaning {
    Stands(StoreForm(SP, Low5Bits(w), Num(Bits16.SwspImm(w))))
  }

  function RegMove(w: Half): Meaning {
    var r, r2 := High5(w), Low5Bits(w);
    if r2 == 0 then
      if r != 0 then Stands(JalrForm(if Bit12(w) then RA else 0, r))
      else if Bit12(w) then Stands(BREAK)
      else Reserved
    else if r == 0 then Hint
    else Stands(RegForm(Add, r, if Bit12(w) then r else 0, r2))
  }

  // The three quadrants, by funct3.
  function Quadrant0(funct3: Half, w: Half): Meaning {
    match funct3
    case 0 => Addi4spn(w)
    case 2 => LoadWord(w)
    case 6 => StoreWord(w)
    case 3 => Float
    case 7 => Float
    case _ => Reserved
  }

  function Quadrant1(funct3: Half, w: Half): Meaning {
    match funct3
    case 0 => AddImm(w)
    case 1 => JumpTo(RA, w)
    case 2 => LoadImm(w)
    case 3 => UpperImm(w)
    case 4 => MiscAlu(w)
    case 5 => JumpTo(0, w)
    case 6 => BranchTo(Eq, w)
    case _ => BranchTo(Ne, w)
  }

  function Quadrant2(funct3: Half, w: Half): Meaning {
    match funct3
    case 0 => ShiftLeft(w)
    case 2 => LoadSp(w)
    case 4 => RegMove(w)
    case 6 => StoreSp(w)
    case 3 => Float
    case 7 => Float
    case _ => Reserved
  }

  function Listing(w: Half): Meaning
    requires w & 3 != 3
  {
    var funct3 := (w >> 13) & 7;
    match w & 3
    case 0 => Quadrant0(funct3, w)
    case 1 => Quadrant1(funct3, w)
    case _ => Quadrant2(funct3, w)
  }

  // ---------------------------------------------------------------- what a decoded word must do

  // Aborted: a failed assertion of the decoder. Floating: decoded for the F extension.
  datatype Decoded = Accepted(ir: Insn) | Refused | Aborted | Floating

  // The two instructions do the same, apart from the PC step and the link value; an indirect jump,
  // when its target is even.
  ghost predicate Same(i: Insn, j: Insn) {
    forall strict: bool, s: State :: X(s, 0) == 0 && (j.opcode.JALR? ==> X(s, j.rs1) % 2 == 0) ==>
      SameBut(Effect(strict, i, s), Effect(strict, j, s), s.pc)
  }

  ghost predicate Idle(i: Insn) {
    forall strict: bool, s: State :: X(s, 0) == 0 ==> Effect(strict, i, s) == Continue(s)
  }

  // A hint is a no-op, except that c.li x0 writes a non-zero immediate to x0.
  ghost predicate Kept(m: Meaning, r: Decoded) {
    match m
    case Stands(j) => r.Accepted? && Same(r.ir, j)
    case Hint => r.Accepted? && (Idle(r.ir) <==> !(r.ir.opcode.C_LI? && r.ir.imm != 0))
    case Reserved => !r.Floating?
    case Float => r.Floating?
  }

  lemma Expanded(i: Insn, j: Insn)
    requires Legal(i) && Expand(i) == j
    ensures Same(i, j)
  {
    forall strict: bool, s: State | X(s, 0) == 0
      ensures SameBut(Effect(strict, i, s), Effect(strict, j, s), s.pc)
    {
      ExpansionAgrees(strict, i, s);
    }
  }

  lemma NopIdle(i: Insn)
    requires i.opcode == C_NOP
    ensures Idle(i)
  {
  }

  lemma ShrZero(a: Word)
    ensures Low5(0) == 0 && Shr(a, 0) == a
  {
  }

  lemma SetSame(s: State, r: Reg)
    ensures Set(s, r, X(s, r)) == s
  {
    assert s.x[r := s.x[r]] == s.x;
  }

  // A shift by zero, which the decoder turns into a no-op.
  lemma NopShift(i: Insn, r: Reg)
    requires i.opcode == C_NOP
    ensures Same(i, ImmForm(Srli, r, r, 0))
  {
    forall strict: bool, s: State
      ensures Effect(strict, i, s) == Effect(strict, ImmForm(Srli, r, r, 0), s)
    {
      ZeroShift(strict, r, s);
    }
  }

  lemma ZeroShift(strict: bool, r: Reg, s: State)
    ensures Effect(strict, ImmForm(Srli, r, r, 0), s) == Continue(s)
  {
    var j := ImmForm(Srli, r, r, 0);
    ShrZero(X(s, r));
    assert Value(j, s.x, s.pc) == X(s, r);
    SetSame(s, r);
  }

  /** The handlers of the indirect jumps keep the low bit of the target, which JALR clears. */
  lemma IndirectExactly(strict: bool, i: Insn, s: State)
    requires i.opcode == C_JR || i.opcode == C_JALR
    ensures var j := JalrForm(if i.opcode == C_JR then 0 else RA, i.rs1);
            SameBut(Effect(strict, i, s), Effect(strict, j, s), s.pc) <==> X(s, i.rs1) % 2 == 0
  {
    var t := X(s, i.rs1);
    PlusZero(t);
    OddTarget(s.pc, t);
    assert s.x[RA := Plus(s.pc, 4)] == s.x[RA := Plus(s.pc, 2)][RA := Plus(s.pc, 4)];
  }

  lemma PlusZero(a: Word)
    ensures Plus(a, 0) == a
  {
  }

  lemma OddTarget(pc: Word, t: Word)
    ensures (t == Even(t) <==> t % 2 == 0) && !(t == Plus(pc, 2) && Even(t) == Plus(pc, 4))
  {
  }

  lemma IndirectSame(i: Insn)
    requires i.opcode == C_JR || i.opcode == C_JALR
    ensures Same(i, JalrForm(if i.opcode == C_JR then 0 else RA, i.rs1))
  {
    var j := JalrForm(if i.opcode == C_JR then 0 else RA, i.rs1);
    forall strict: bool, s: State | X(s, j.rs1) % 2 == 0
      ensures SameBut(Effect(strict, i, s), Effect(strict, j, s), s.pc)
    {
      IndirectExactly(strict, i, s);
    }
  }

  lemma EbreakSame(i: Insn, j: Insn)
    requires i.opcode == EBREAK && j.opcode == EBREAK
    ensures Same(i, j)
  {
  }

  const ZEROS: State := State(seq(32, _ => 0), map[], 0, 0)

  lemma LiHint(i: Insn)
    requires i.opcode == C_LI && i.rd == 0
    ensures Idle(i) <==> i.imm == 0
  {
    if i.imm == 0 {
      forall strict: bool, s: State | X(s, 0) == 0
        ensures Effect(strict, i, s) == Continue(s)
      {
        SetSame(s, 0);
      }
    } else {
      assert X(ZEROS, 0) == 0;
      assert X(Effect(true, i, ZEROS).s, 0) == i.imm;
    }
  }

  // ---------------------------------------------------------------- fields

  lemma FiveBitFields(w: Half)
    ensures (w & 0x0f80) >> 7 == (w >> 7) & 0x1f < 32 && (w & 0x007c) >> 2 == (w >> 2) & 0x1f < 32
  {
  }

  lemma ThreeBitFields(w: Half)
    ensures ((w & 0x0380) >> 7) | 8 == 8 + ((w >> 7) & 7) < 32 && ((w & 0x001c) >> 2) | 8 == 8 + ((w >> 2) & 7) < 32
  {
  }

  lemma NotZero(b: Half)
    requires b < 32 && b >= 8
    ensures RegNo(b) != 0
  {
  }

  lemma Primed(w: Half)
    ensures High3(w) != 0 && Low3(w) != 0
  {
    NotZero(8 + ((w >> 7) & 7));
    NotZero(8 + ((w >> 2) & 7));
  }

  lemma SmallNum(b: bv32)
    ensures (b < 32 ==> Num(b) < 32) && (b < 1024 ==> Num(b) < 1024)
  {
  }

  lemma LargeNum(b: bv32)
    ensures b >= 0xffff_ffe0 ==> Num(b) >= 0xffff_ffe0
  {
  }

  lemma CiRange(w: Half)
    ensures Num(Bits16.CiImm(w)) < 32 || Num(Bits16.CiImm(w)) >= TWO32 - 32
  {
    Bits16.ImmRanges(w);
    SmallNum(Bits16.CiImm(w));
    LargeNum(Bits16.CiImm(w));
  }

  lemma CiwRange(w: Half)
    ensures Num(Bits16.Addi4spnImm(w)) < 1024
  {
    Bits16.ImmRanges(w);
    SmallNum(Bits16.Addi4spnImm(w));
  }

  // inst[12|6:2]
  function SixBits(w: Half): bv32 {
    (((w & 0x1000) >> 7) | ((w & 0x007c) >> 2)) as bv32
  }

  lemma SixBitField(w: Half)
    ensures SixBits(w) & 0x20 != 0 <==> Bit12(w)
    ensures !Bit12(w) ==> SixBits(w) == ((w >> 2) & 0x1f) as bv32 < 32
  {
  }

  lemma ShamtRange(w: Half)
    ensures Shamt(w) < 32
  {
    SmallNum(((w >> 2) & 0x1f) as bv32);
  }

  // c_decode_rs1 and c_decode_rd; c_decode_rs2; c_decode_rs1c; c_decode_rs2c and c_decode_rdc
  function DecodeRd(w: Half): (r: Reg)
    ensures r == High5(w)
  {
    FiveBitFields(w);
    RegNo((w & 0x0f80) >> 7)
  }

  function DecodeRs2(w: Half): (r: Reg)
    ensures r == Low5Bits(w)
  {
    FiveBitFields(w);
    RegNo((w & 0x007c) >> 2)
  }

  function DecodeRs1c(w: Half): (r: Reg)
    ensures r == High3(w)
  {
    ThreeBitFields(w);
    RegNo(((w & 0x0380) >> 7) | 8)
  }

  function DecodeRdc(w: Half): (r: Reg)
    ensures r == Low3(w)
  {
    ThreeBitFields(w);
    RegNo(((w & 0x001c) >> 2) | 8)
  }

  // ---------------------------------------------------------------- the decoders

  // The word means what the listing says, and is refused exactly when it is reserved, leaving aside
  // reserved words that the decoder takes. What it decodes to is two bytes long, save for the ebreak. Bound
  // to a variable, the body is proved as a whole, not conjunct by conjunct at every use.
  ghost predicate Verdict(m: Meaning, lenient: bool, r: Decoded) {
    var ok :=
      Kept(m, r) && (r.Refused? <==> m.Reserved? && !lenient) &&
      (m == Stands(BREAK) ==> r.Accepted? && r.ir.opcode == EBREAK) &&
      (r.Accepted? && r.ir.opcode != EBREAK ==> Length(r.ir.opcode) == 2);
    ok
  }

  lemma AcceptedAs(i: Insn, j: Insn, lenient: bool)
    requires Legal(i) && Expand(i) == j
    ensures Verdict(Stands(j), lenient, Accepted(i))
  {
    Expanded(i, j);
  }

  // ebreak and cebreak record whether they are compressed; without a trap vector the default handler
  // goes on that many bytes further.
  function ResumeAt(i: Insn, pc: Word): Word {
    Plus(pc, if i.opcode == C_EBREAK then 2 else 4)
  }

  /** After C.EBREAK, which is the word 0x9002 alone, the default handler skips the following two bytes. */
  lemma BreakSkips(w: Half, r: Decoded, pc: Word)
    requires w & 3 != 3 && Verdict(Listing(w), Lenient(w), r)
    ensures Listing(w) == Stands(BREAK) <==> w == 0x9002
    ensures w == 0x9002 ==> r.Accepted? && ResumeAt(r.ir, pc) == Plus(pc, 4) != Plus(pc, 2)
  {
    BreakWord(w);
  }

  lemma ZeroFields(w: Half)
    ensures High5(w) == 0 <==> (w >> 7) & 0x1f == 0
    ensures Low5Bits(w) == 0 <==> (w >> 2) & 0x1f == 0
  {
    RegZero((w >> 7) & 0x1f);
    RegZero((w >> 2) & 0x1f);
  }

  lemma RegZero(b: Half)
    requires b < 32
    ensures RegNo(b) == 0 <==> b == 0
  {
  }

  lemma BreakFields(w: Half)
    ensures w & 3 == 2 && (w >> 13) & 7 == 4 && Bit12(w) && (w >> 7) & 0x1f == 0 && (w >> 2) & 0x1f == 0 <==>
            w == 0x9002
  {
  }

  lemma BreakWord(w: Half)
    requires w & 3 != 3
    ensures Listing(w) == Stands(BREAK) <==> w == 0x9002
  {
    ZeroFields(w);
    BreakFields(w);
    NoBreak(w);
  }

  // Only C.EBREAK's column can give a breakpoint.
  lemma NoBreak(w: Half)
    requires w & 3 != 3
    ensures Listing(w) == Stands(BREAK) <==> w & 3 == 2 && (w >> 13) & 7 == 4 && RegMove(w) == Stands(BREAK)
  {
    var f := (w >> 13) & 7;
    NoBreak0(f, w);
    NoBreak1(f, w);
    NoBreak2(f, w);
  }

  lemma NoBreak0(f: Half, w: Half)
    ensures Quadrant0(f, w) != Stands(BREAK)
  {
  }

  lemma NoBreak1(f: Half, w: Half)
    ensures Quadrant1(f, w) != Stands(BREAK)
  {
    NoBreakAlu(w);
    NoBreakUpper(High5(w), Num(Bits16.Addi16spImm(w)), Num(Bits16.LuiImm(w)));
  }

  lemma NoBreakAlu(w: Half)
    ensures MiscAlu(w) != Stands(BREAK)
  {
  }

  lemma NoBreakUpper(rd: Reg, sp: Word, upper: Word)
    ensures UpperForm(rd, sp, upper) != Stands(BREAK)
  {
  }

  lemma NoBreak2(f: Half, w: Half)
    ensures Quadrant2(f, w) == Stands(BREAK) <==> f == 4 && RegMove(w) == Stands(BREAK)
  {
  }

  lemma AcceptedHint(i: Insn, lenient: bool)
    requires i.opcode == C_NOP
    ensures Verdict(Hint, lenient, Accepted(i))
  {
    NopIdle(i);
  }

  method OpCaddi(w: Half) returns (r: Decoded)
    ensures Verdict(AddImm(w), false, r)
  {
    var ir := BLANK.(rd := DecodeRd(w));
    if ir.rd == 0 {
      ir := ir.(opcode := C_NOP);
      AcceptedHint(ir, false);
    } else {
      ir := ir.(imm := Num(Bits16.DecodeCi(w)), opcode := C_ADDI);
      CiRange(w);
      AcceptedAs(ir, AddImm(w).i, false);
    }
    r := Accepted(ir);
  }

  method OpCaddi4spn(w: Half) returns (r: Decoded)
    ensures Verdict(Addi4spn(w), false, r)
  {
    var ir := BLANK.(imm := Num(Bits16.DecodeAddi4spn(w)), rd := DecodeRdc(w));
    if ir.imm == 0 { return Refused; }
    ir := ir.(opcode := C_ADDI4SPN);
    CiwRange(w);
    Primed(w);
    AcceptedAs(ir, Addi4spn(w).i, false);
    r := Accepted(ir);
  }

  method OpCli(w: Half) returns (r: Decoded)
    ensures Verdict(LoadImm(w), false, r)
  {
    var ir := BLANK.(imm := Num(Bits16.DecodeCi(w)), rd := DecodeRd(w), opcode := C_LI);
    if ir.rd == 0 {
      LiHint(ir);
    } else {
      AcceptedAs(ir, LoadImm(w).i, false);
    }
    r := Accepted(ir);
  }

  method OpClui(w: Half) returns (r: Decoded)
    ensures Verdict(UpperImm(w), High5(w) == 0, r)
  {
    r := DecodeUpper(DecodeRd(w), Num(Bits16.DecodeAddi16sp(w)), Num(Bits16.DecodeLui(w)));
  }

  // The switch of op_clui on rd, with the immediate that each case would extract.
  method DecodeUpper(rd: Reg, sp: Word, upper: Word) returns (r: Decoded)
    ensures Verdict(UpperForm(rd, sp, upper), rd == 0, r)
  {
    var ir := BLANK.(rd := rd);
    if rd == 0 {
      ir := ir.(opcode := C_NOP);
      AcceptedHint(ir, true);
    } else if rd == 2 {
      ir := ir.(imm := sp);
      if ir.imm == 0 { return Refused; }
      ir := ir.(opcode := C_ADDI16SP);
      AcceptedAs(ir, ImmForm(Addi, SP, SP, sp), false);
    } else {
      ir := ir.(imm := upper);
      if ir.imm == 0 { return Refused; }
      ir := ir.(opcode := C_LUI);
      AcceptedAs(ir, BLANK.(opcode := LUI, rd := rd, imm := upper), false);
    }
    r := Accepted(ir);
  }

  // The shifts right of the listing.
  lemma ShiftListing(w: Half)
    ensures (w & 0x0c00) >> 10 < 2 && Bit12(w) ==> MiscAlu(w) == Reserved
    ensures (w & 0x0c00) >> 10 == 0 && !Bit12(w) ==> MiscAlu(w) == Stands(ImmForm(Srli, High3(w), High3(w), Shamt(w)))
    ensures (w & 0x0c00) >> 10 == 1 && !Bit12(w) ==> MiscAlu(w) == Stands(ImmForm(Srai, High3(w), High3(w), Shamt(w)))
  {
    ArithFields(w);
  }

  lemma ShamtNum(w: Half)
    ensures !Bit12(w) ==> Num(SixBits(w)) == Shamt(w) < 32
  {
    SixBitField(w);
    ShamtRange(w);
  }

  method OpCsrli(w: Half) returns (r: Decoded)
    requires (w & 0x0c00) >> 10 == 0
    ensures Verdict(MiscAlu(w), false, r)
  {
    ShiftListing(w);
    SixBitField(w);
    ShamtNum(w);
    Primed(w);
    var ir := BLANK.(shamt := Num(SixBits(w)), rs1 := DecodeRs1c(w));
    if SixBits(w) & 0x20 != 0 { return Refused; }
    ir := ir.(opcode := if ir.rs1 == 0 || ir.shamt == 0 then C_NOP else C_SRLI);
    if ir.shamt == 0 {
      NopShift(ir, ir.rs1);
    } else {
      AcceptedAs(ir, ImmForm(Srli, High3(w), High3(w), Shamt(w)), false);
    }
    r := Accepted(ir);
  }

  // Reads the whole rs1 field.
  method OpCsrai(w: Half) returns (r: Decoded)
    requires (w & 0x0c00) >> 10 == 1
    ensures Verdict(MiscAlu(w), false, r)
  {
    ShiftListing(w);
    SixBitField(w);
    ShamtNum(w);
    Primed(w);
    var ir := BLANK.(shamt := Num(SixBits(w)), rs1 := DecodeRd(w));
    if SixBits(w) & 0x20 != 0 { return Refused; }
    ir := ir.(opcode := C_SRAI);
    SraiField(w);
    AcceptedAs(ir, ImmForm(Srai, High3(w), High3(w), Shamt(w)), false);
    r := Accepted(ir);
  }

  // With funct2 = 01, inst[11:7] is 01 and the three bits of rs1'.
  lemma SraiField(w: Half)
    requires (w & 0x0c00) >> 10 == 1
    ensures High5(w) == High3(w)
  {
    Bits16.SraiRegister(w);
    FiveBitFields(w);
    ThreeBitFields(w);
  }

  function ArithOpcode(funct: Half): Opcode {
    match funct
    case 0 => C_OP(CSub)
    case 1 => C_OP(CXor)
    case 2 => C_OP(COr)
    case _ => C_OP(CAnd)
  }

  lemma ArithFields(w: Half)
    ensures ((w & 0x1000) >> 10) | ((w & 0x0060) >> 5) >= 4 <==> Bit12(w)
    ensures !Bit12(w) ==> ((w & 0x1000) >> 10) | ((w & 0x0060) >> 5) == (w >> 5) & 3
    ensures (w & 0x0c00) >> 10 == (w >> 10) & 3 <= 3
  {
  }

  method OpCarith(w: Half) returns (r: Decoded)
    requires (w & 0x0c00) >> 10 == 3
    ensures Verdict(MiscAlu(w), true, r) && (r.Aborted? <==> MiscAlu(w).Reserved?)
  {
    ArithFields(w);
    Primed(w);
    var ir := BLANK.(rs1 := DecodeRs1c(w), rs2 := DecodeRdc(w));
    ir := ir.(rd := ir.rs1);
    var funct := ((w & 0x1000) >> 10) | ((w & 0x0060) >> 5);
    if funct >= 4 { return Aborted; }
    ir := ir.(opcode := ArithOpcode(funct));
    AcceptedAs(ir, MiscAlu(w).i, true);
    r := Accepted(ir);
  }

  method OpCmiscAlu(w: Half) returns (r: Decoded)
    ensures Verdict(MiscAlu(w), (w >> 10) & 3 == 3, r)
  {
    ArithFields(w);
    var funct2 := (w & 0x0c00) >> 10;
    if funct2 == 0 {
      r := OpCsrli(w);
    } else if funct2 == 1 {
      r := OpCsrai(w);
    } else if funct2 == 2 {
      var imm := Bits16.DecodeCaddi(w);
      var ir := BLANK.(rs1 := DecodeRs1c(w), imm := Num(imm), opcode := C_ANDI);
      Primed(w);
      AcceptedAs(ir, MiscAlu(w).i, false);
      r := Accepted(ir);
    } else {
      r := OpCarith(w);
    }
  }

  method OpCslli(w: Half) returns (r: Decoded)
    ensures Verdict(ShiftLeft(w), true, r) && r.Accepted?
  {
    SixBitField(w);
    ShamtRange(w);
    var ir := BLANK.(imm := Num(SixBits(w)), rd := DecodeRd(w));
    ir := ir.(opcode := if ir.rd != 0 then C_SLLI else C_NOP);
    if !Bit12(w) {
      if ir.rd == 0 {
        AcceptedHint(ir, true);
      } else {
        AcceptedAs(ir, ShiftLeft(w).i, true);
      }
    }
    r := Accepted(ir);
  }

  method OpClwsp(w: Half) returns (r: Decoded)
    ensures Verdict(LoadSp(w), true, r) && r.Accepted?
  {
    var ir := BLANK.(imm := Num(Bits16.DecodeLwsp(w)), rd := DecodeRd(w));
    ir := ir.(opcode := if ir.rd != 0 then C_LWSP else C_NOP);
    if ir.rd != 0 {
      AcceptedAs(ir, LoadSp(w).i, true);
    }
    r := Accepted(ir);
  }

  method OpCswsp(w: Half) returns (r: Decoded)
    ensures Verdict(StoreSp(w), false, r)
  {
    var ir := BLANK.(imm := Num(Bits16.DecodeSwsp(w)), rs2 := DecodeRs2(w), opcode := C_SWSP);
    AcceptedAs(ir, StoreSp(w).i, false);
    r := Accepted(ir);
  }

  method OpClw(w: Half) returns (r: Decoded)
    ensures Verdict(LoadWord(w), false, r)
  {
    var ir := BLANK.(imm := Num(Bits16.DecodeLw(w)), rd := DecodeRdc(w), rs1 := DecodeRs1c(w), opcode := C_LW);
    Primed(w);
    AcceptedAs(ir, LoadWord(w).i, false);
    r := Accepted(ir);
  }

  method OpCsw(w: Half) returns (r: Decoded)
    ensures Verdict(StoreWord(w), false, r)
  {
    var ir := BLANK.(imm := Num(Bits16.DecodeLw(w)), rs1 := DecodeRs1c(w), rs2 := DecodeRdc(w), opcode := C_SW);
    AcceptedAs(ir, StoreWord(w).i, false);
    r := Accepted(ir);
  }

  method OpCj(w: Half) returns (r: Decoded)
    ensures Verdict(JumpTo(0, w), false, r)
  {
    var imm := Bits16.DecodeCj(w);
    var ir := BLANK.(imm := Num(imm), opcode := C_J);
    AcceptedAs(ir, JumpTo(0, w).i, false);
    r := Accepted(ir);
  }

  // op_cjal sign-extends the immediate a second time.
  method OpCjal(w: Half) returns (r: Decoded)
    ensures Verdict(JumpTo(RA, w), false, r)
  {
    var imm := Bits16.DecodeCj(w);
    Bits16.CjAgain(w);
    var ir := BLANK.(imm := Num(Bits16.SignExtendH((imm & 0xffff) as Half)), opcode := C_JAL);
    AcceptedAs(ir, JumpTo(RA, w).i, false);
    r := Accepted(ir);
  }

  method OpCbranch(w: Half, eq: bool) returns (r: Decoded)
    ensures Verdict(BranchTo(if eq then Eq else Ne, w), false, r)
  {
    var imm := Bits16.DecodeCb(w);
    var ir := BLANK.(imm := Num(imm), rs1 := DecodeRs1c(w), opcode := if eq then C_BEQZ else C_BNEZ);
    AcceptedAs(ir, BranchTo(if eq then Eq else Ne, w).i, false);
    r := Accepted(ir);
  }

  lemma TopBit(w: Half)
    ensures (w & 0x1000) >> 12 == 0 <==> !Bit12(w)
  {
  }

  method OpCcr(w: Half) returns (r: Decoded)
    ensures Verdict(RegMove(w), false, r)
  {
    TopBit(w);
    var ir := BLANK.(rs1 := DecodeRd(w), rs2 := DecodeRs2(w));
    ir := ir.(rd := ir.rs1);
    if (w & 0x1000) >> 12 == 0 {
      if ir.rs2 == 0 {
        if ir.rs1 == 0 { return Refused; }
        ir := ir.(opcode := C_JR);
      } else {
        ir := ir.(opcode := if ir.rd != 0 then C_MV else C_NOP);
      }
    } else if ir.rs1 == 0 && ir.rs2 == 0 {
      ir := ir.(opcode := EBREAK);
    } else if ir.rs1 != 0 && ir.rs2 != 0 {
      ir := ir.(opcode := C_OP(CAdd));
    } else if ir.rs1 != 0 {
      ir := ir.(opcode := C_JALR);
    } else {
      ir := ir.(opcode := C_NOP);
    }
    RegMoveKept(w, ir);
    r := Accepted(ir);
  }

  lemma RegMoveKept(w: Half, i: Insn)
    requires var r, r2 := High5(w), Low5Bits(w);
             (Bit12(w) || r != 0 || r2 != 0) &&
             i == BLANK.(rs1 := r, rs2 := r2, rd := r, opcode :=
               if r2 == 0 then (if r == 0 then EBREAK else if Bit12(w) then C_JALR else C_JR)
               else if r == 0 then C_NOP else if Bit12(w) then C_OP(CAdd) else C_MV)
    ensures Verdict(RegMove(w), false, Accepted(i))
  {
    if i.rs2 == 0 {
      if i.rs1 == 0 { EbreakSame(i, RegMove(w).i); } else { IndirectSame(i); }
    } else if i.rs1 == 0 {
      AcceptedHint(i, false);
    } else {
      AcceptedAs(i, RegMove(w).i, false);
    }
  }

  // Reserved words that the decoder takes all the same: c.lui x0 with a zero immediate and c.lwsp x0 as
  // no-ops, c.slli by 32 or more as such a shift; on the arithmetic words of RV64 it aborts.
  predicate Lenient(w: Half) {
    var funct3 := (w >> 13) & 7;
    (w & 3 == 1 && ((funct3 == 3 && High5(w) == 0) || (funct3 == 4 && (w >> 10) & 3 == 3))) ||
    (w & 3 == 2 && (funct3 == 0 || funct3 == 2))
  }

  lemma Index(w: Half)
    ensures ((w & 0xe000) >> 11) | (w & 3) == 4 * ((w >> 13) & 7) + (w & 3)
    ensures (w >> 13) & 7 < 8 && w & 3 < 4
  {
  }

  // The columns of rvc_jump_table.
  method Column0(w: Half, index: Half) returns (r: Decoded)
    requires index == 4 * ((w >> 13) & 7)
    ensures Verdict(Quadrant0((w >> 13) & 7, w), false, r)
  {
    if index == 0 { r := OpCaddi4spn(w); }
    else if index == 8 { r := OpClw(w); }
    else if index == 24 { r := OpCsw(w); }
    else if index == 12 || index == 28 { r := Floating; }
    else { r := Refused; }
  }

  method Column1(w: Half, index: Half) returns (r: Decoded)
    requires index == 4 * ((w >> 13) & 7) + 1
    ensures var f := (w >> 13) & 7;
            Verdict(Quadrant1(f, w), (f == 3 && High5(w) == 0) || (f == 4 && (w >> 10) & 3 == 3), r)
  {
    if index == 1 { r := OpCaddi(w); }
    else if index == 9 { r := OpCli(w); }
    else if index == 13 { r := OpClui(w); }
    else if index == 17 { r := OpCmiscAlu(w); }
    else { r := ColumnJumps(w, (w >> 13) & 7); }
  }

  // Its jumps and branches, by funct3.
  method ColumnJumps(w: Half, funct3: Half) returns (r: Decoded)
    requires funct3 == 1 || funct3 == 5 || funct3 == 6 || funct3 == 7
    ensures Verdict(Quadrant1(funct3, w), false, r)
  {
    if funct3 == 1 { r := OpCjal(w); }
    else if funct3 == 5 { r := OpCj(w); }
    else { r := OpCbranch(w, funct3 == 6); }
  }

  method Column2(w: Half, index: Half) returns (r: Decoded)
    requires index == 4 * ((w >> 13) & 7) + 2
    ensures var f := (w >> 13) & 7; Verdict(Quadrant2(f, w), f == 0 || f == 2, r)
  {
    if index == 2 { r := OpCslli(w); }
    else if index == 10 { r := OpClwsp(w); }
    else if index == 18 { r := OpCcr(w); }
    else if index == 26 { r := OpCswsp(w); }
    else if index == 14 || index == 30 { r := Floating; }
    else { r := Refused; }
  }

  /** The RVC part of rv_decode. */
  method Decode(w: Half) returns (r: Decoded)
    requires w & 3 != 3
    ensures Verdict(Listing(w), Lenient(w), r)
  {
    Index(w);
    var index := ((w & 0xe000) >> 11) | (w & 3);
    if w & 3 == 0 {
      r := Column0(w, index);
    } else if w & 3 == 1 {
      r := Column1(w, index);
    } else {
      r := Column2(w, index);
    }
  }
}
