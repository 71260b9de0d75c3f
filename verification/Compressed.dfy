/** The compressed instructions (chapter 16 of the RISC-V Unprivileged ISA): the immediates that
    src/decode.c extracts, and the handlers of src/rv32_template.c, against the 32-bit instructions
    they stand for. */
module Compressed {
  import opened Powers
  import opened Words
  import opened BlockIr

  // ---------------------------------------------------------------- the fill loop of C.SRAI

  lemma {:induction false} PowSplit(n: nat, m: nat)
    ensures Pow2(n + m) == Pow2(n) * Pow2(m)
  {
    if n > 0 {
      PowSplit(n - 1, m);
      assert Pow2(n) * Pow2(m) == 2 * (Pow2(n - 1) * Pow2(m));
    }
  }

  lemma Pow31()
    ensures Pow2(31) == 0x8000_0000 && Pow2(32) == TWO32
  {
    assert Pow2(8) == 256;
    PowSplit(8, 8);
    PowSplit(16, 8);
    assert Pow2(7) == 128;
    PowSplit(24, 7);
  }

  lemma DivMod(a: int, q: int)
    requires q > 0
    ensures a == (a / q) * q + a % q && 0 <= a % q < q
  {
  }

  lemma AtLeast(k: int, q: int)
    requires k >= 1 && q > 0
    ensures k * q >= q
  {
  }

  lemma Unequal(d: int, p: int, q: int, x: int)
    requires q > 0 && d * q == p * q + x && -q < x < q
    ensures d == p
  {
    assert (d - p) * q == x && (p - d) * q == -x;
    if d > p {
      AtLeast(d - p, q);
    } else if d < p {
      AtLeast(p - d, q);
    }
  }

  lemma QuotientOf(p: int, q: int, r: int)
    requires q > 0 && 0 <= r < q
    ensures (p * q + r) / q == p
  {
    var a := p * q + r;
    DivMod(a, q);
    Unequal(a / q, p, q, r - a % q);
  }

  lemma {:induction false} OrZero(a: nat)
    ensures Bits(BitOr, a, 0) == a
  {
    if a != 0 { OrZero(a / 2); }
  }

  lemma OrHalf(a: nat, b: nat, h: nat)
    requires Bits(BitOr, a / 2, b / 2) == h && b % 2 == 0 && b != 0
    ensures Bits(BitOr, a, b) == 2 * h + a % 2
  {
  }

  lemma Twice(m: nat, e: nat)
    ensures m * (2 * e) == 2 * (m * e)
  {
  }

  lemma HalfOf(v: nat, y: nat)
    ensures (v + 2 * y) / 2 == v / 2 + y && (v + 2 * y) % 2 == v % 2
  {
  }

  // Or with a power of two above v, below the bits of x.
  lemma {:induction false} OrBit(v: nat, x: nat, m: nat, p: nat)
    requires v < Pow2(p) && x == m * (2 * Pow2(p))
    ensures Bits(BitOr, v + x, Pow2(p)) == v + x + Pow2(p)
  {
    Twice(m, Pow2(p));
    var y := m * Pow2(p);
    HalfOf(v, y);
    if p == 0 {
      OrZero(y);
      assert Bits(BitOr, x, 1) == 2 * Bits(BitOr, y, 0) + 1;
    } else {
      OrBit(v / 2, y, m, p - 1);
      OrHalf(v + x, Pow2(p), v / 2 + y + Pow2(p - 1));
    }
  }

  lemma ShiftedSign(k: nat)
    requires 1 <= k <= 32
    ensures Shr(0x8000_0000, k - 1) == Pow2(32 - k)
  {
    Pow31();
    PowSplit(32 - k, k - 1);
    QuotientOf(Pow2(32 - k), Pow2(k - 1), 0);
  }

  lemma HighOnes(k: nat)
    requires 1 <= k <= 32
    ensures (Pow2(k - 1) - 1) * (2 * Pow2(32 - k)) == TWO32 - 2 * Pow2(32 - k) && Pow2(33 - k) == 2 * Pow2(32 - k)
  {
    Pow31();
    PowSplit(k - 1, 33 - k);
    assert (Pow2(k - 1) - 1) * Pow2(33 - k) == Pow2(k - 1) * Pow2(33 - k) - Pow2(33 - k);
  }

  lemma FillTurn(v: Word, mask: Word, k: nat)
    requires k > 0
    ensures Fill(v, mask, k) == Bits(BitOr, Fill(v, mask, k - 1), Shr(mask, k - 1))
  {
  }

  lemma FillNext(v: nat, k: nat)
    requires 1 <= k <= 32 && v < Pow2(32 - k)
    ensures v + (TWO32 - Pow2(33 - k)) >= 0
    ensures Bits(BitOr, v + (TWO32 - Pow2(33 - k)), Pow2(32 - k)) == v + (TWO32 - Pow2(32 - k))
  {
    HighOnes(k);
    NonNeg(Pow2(k - 1) - 1, 2 * Pow2(32 - k));
    OrBit(v, TWO32 - 2 * Pow2(32 - k), Pow2(k - 1) - 1, 32 - k);
  }

  // After k turns, the loop has set the k high bits.
  lemma {:induction false} FillIs(v: Word, n: nat, k: nat)
    requires k <= n < 32 && v < Pow2(32 - n)
    ensures Fill(v, 0x8000_0000, k) == v + (TWO32 - Pow2(32 - k))
  {
    if k == 0 {
      Pow31();
    } else {
      PowUp(32 - n, n - k);
      FillIs(v, n, k - 1);
      FillTurn(v, 0x8000_0000, k);
      ShiftedSign(k);
      FillNext(v, k);
    }
  }

  lemma PowUp(a: nat, b: nat)
    ensures Pow2(a) <= Pow2(a + b)
  {
    PowSplit(a, b);
    AtLeast(Pow2(b), Pow2(a));
  }

  lemma SmallQuotient(a: int, q: int, c: int)
    requires q > 0 && 0 <= a < c * q
    ensures 0 <= a / q < c
  {
    var d := a / q;
    DivMod(a, q);
    if d >= c { MulMono(c, d, q); }
    if d < 0 { MulMono(d, -1, q); }
  }

  lemma NonNeg(k: int, q: int)
    requires k >= 0 && q >= 0
    ensures k * q >= 0
  {
  }

  lemma MulMono(a: int, b: int, q: int)
    requires a <= b && q > 0
    ensures a * q <= b * q
  {
    NonNeg(b - a, q);
    assert (b - a) * q == b * q - a * q;
  }

  // An arithmetic shift of a negative number, by quotients.
  lemma SarNegative(a: Word, q: int, c: int)
    requires a >= 0x8000_0000 && q > 0 && c * q == TWO32
    ensures (a - TWO32) / q == a / q - c
  {
    DivMod(a, q);
    assert a - TWO32 == (a / q - c) * q + a % q;
    QuotientOf(a / q - c, q, a % q);
  }

  /** C.SRAI's loop is an arithmetic shift. */
  lemma FillLoopIsSar(a: Word, n: nat)
    requires n < 32
    ensures CSrai(a, n) == Sar(a, n)
  {
    var q, c := Pow2(n), Pow2(32 - n);
    Pow31();
    PowSplit(32 - n, n);
    SmallQuotient(a, q, c);
    if a < 0x8000_0000 {
      FillZero(Shr(a, n), n);
      NoWrap(a / q);
    } else {
      FillIs(a / q, n, n);
      SarNegative(a, q, c);
      AtLeast(q, c);
      WrapNegative(a / q - c);
    }
  }

  lemma NoWrap(x: int)
    ensures 0 <= x < TWO32 ==> Wrap(x) == x
  {
  }

  lemma WrapNegative(x: int)
    ensures -TWO32 <= x < 0 ==> Wrap(x) == x + TWO32
  {
  }

  lemma {:induction false} FillZero(v: Word, n: nat)
    ensures Fill(v, 0, n) == v
  {
    if n > 0 {
      FillZero(v, n - 1);
      OrZero(v);
      assert Shr(0, n - 1) == 0;
    }
  }

  // ---------------------------------------------------------------- expansion

  // Compressed instructions with the field values that the decoder gives them: sign-extended six-bit
  // immediates, ten-bit unsigned ones, shift amounts below 32, and no write of x0.
  predicate Legal(i: Insn) {
    match i.opcode
    case C_ADDI => i.rd != 0 && (i.imm < 32 || i.imm >= TWO32 - 32)
    case C_ADDI4SPN => i.rd != 0 && i.imm < 1024
    case C_LI | C_LUI | C_ADDI16SP | C_MV => i.rd != 0
    case C_SRLI | C_SRAI => i.rs1 != 0 && i.shamt < 32
    case C_ANDI => i.rs1 != 0
    case C_SLLI => i.rd != 0 && i.imm < 32
    case C_OP(_) => i.rd == i.rs1 != 0
    case C_LW | C_LWSP => i.rd != 0
    case C_SW | C_SWSP | C_BEQZ | C_BNEZ | C_J | C_JAL => true
    case _ => false
  }

  function WideOp(op: CRegOp): RegOp {
    match op
    case CSub => Sub
    case CXor => Xor
    case COr => Or
    case CAnd => And
    case CAdd => Add
  }

  // The 32-bit instruction that a compressed one stands for.
  function Expand(i: Insn): Insn
    requires Legal(i)
  {
    match i.opcode
    case C_ADDI4SPN => i.(opcode := OPIMM(Addi), rs1 := SP)
    case C_ADDI | C_ADDI16SP => i.(opcode := OPIMM(Addi), rs1 := i.rd)
    case C_LI => i.(opcode := OPIMM(Addi), rs1 := 0)
    case C_LUI => i.(opcode := LUI)
    case C_SRLI => i.(opcode := OPIMM(Srli), rd := i.rs1, imm := i.shamt, shamt := 0)
    case C_SRAI => i.(opcode := OPIMM(Srai), rd := i.rs1, imm := i.shamt, shamt := 0)
    case C_ANDI => i.(opcode := OPIMM(Andi), rd := i.rs1)
    case C_SLLI => i.(opcode := OPIMM(Slli), rs1 := i.rd)
    case C_OP(op) => i.(opcode := OP(WideOp(op)))
    case C_MV => i.(opcode := OP(Add), rs1 := 0)
    case C_LW => i.(opcode := LOAD(Lw))
    case C_LWSP => i.(opcode := LOAD(Lw), rs1 := SP)
    case C_SW => i.(opcode := STORE(Sw))
    case C_SWSP => i.(opcode := STORE(Sw), rs1 := SP)
    case C_BEQZ => i.(opcode := BRANCH(Eq), rs2 := 0)
    case C_BNEZ => i.(opcode := BRANCH(Ne), rs2 := 0)
    case C_J => i.(opcode := JAL, rd := 0)
    case C_JAL => i.(opcode := JAL, rd := RA)
  }

  lemma Sext16Small(imm: Word)
    ensures imm < 32 || imm >= TWO32 - 32 ==> Sext16(imm) == imm
  {
  }

  lemma Low5Small(n: Word)
    ensures n < 32 ==> Low5(n) == n && n % 256 == n
  {
  }

  lemma ShiftExpands(i: Insn, x: Regs, pc: Word)
    requires Legal(i) && (i.opcode.C_SRLI? || i.opcode.C_SRAI? || i.opcode.C_SLLI?)
    ensures Computes(Expand(i).opcode) && Value(Expand(i), x, pc) == Value(i, x, pc)
  {
    if i.opcode.C_SLLI? {
      Low5Small(i.imm);
    } else {
      Low5Small(i.shamt);
      FillLoopIsSar(x[i.rs1], i.shamt);
    }
  }

  lemma AddExpands(i: Insn, x: Regs, pc: Word)
    requires Legal(i) && (i.opcode.C_ADDI? || i.opcode.C_ADDI4SPN? || i.opcode.C_ADDI16SP? || i.opcode.C_LI? ||
             i.opcode.C_MV?) && x[0] == 0
    ensures Computes(Expand(i).opcode) && Value(Expand(i), x, pc) == Value(i, x, pc)
  {
    Sext16Small(i.imm);
    Zext16Small(i.imm);
    NoWrap(i.imm);
    NoWrap(x[i.rs2]);
  }

  lemma Zext16Small(imm: Word)
    ensures imm < 1024 ==> Zext16(imm) == imm
  {
  }

  lemma LogicExpands(i: Insn, x: Regs, pc: Word)
    requires Legal(i) && (i.opcode.C_ANDI? || i.opcode.C_OP? || i.opcode.C_LUI?)
    ensures Computes(Expand(i).opcode) && Value(Expand(i), x, pc) == Value(i, x, pc)
  {
  }

  lemma ValueExpands(i: Insn, x: Regs, pc: Word)
    requires Legal(i) && Computes(i.opcode) && x[0] == 0
    ensures var j := Expand(i); Computes(j.opcode) && Dest(j) == Dest(i) && Value(j, x, pc) == Value(i, x, pc)
  {
    if i.opcode.C_SRLI? || i.opcode.C_SRAI? || i.opcode.C_SLLI? {
      ShiftExpands(i, x, pc);
    } else if i.opcode.C_ANDI? || i.opcode.C_OP? || i.opcode.C_LUI? {
      LogicExpands(i, x, pc);
    } else {
      AddExpands(i, x, pc);
    }
  }

  // Equal but for the address of the following instruction, two bytes on instead of four, as PC or as link.
  ghost predicate SameBut(o: Outcome, o': Outcome, pc: Word) {
    o == o' || (o.Leave? && o'.Leave? && o' == Leave(State(o'.s.x, o.s.mem, o'.s.pc, o.s.cycle)) &&
      (o.s.pc == o'.s.pc || (o.s.pc == Plus(pc, 2) && o'.s.pc == Plus(pc, 4))) &&
      (o.s.x == o'.s.x || (o.s.x[RA] == Plus(pc, 2) && o'.s.x == o.s.x[RA := Plus(pc, 4)])))
  }

  lemma ComputeExpands(strict: bool, i: Insn, s: State)
    requires Legal(i) && Computes(i.opcode) && X(s, 0) == 0
    ensures Effect(strict, i, s) == Effect(strict, Expand(i), s)
  {
    ValueExpands(i, s.x, s.pc);
  }

  lemma MemoryExpands(strict: bool, i: Insn, s: State)
    requires Legal(i) && (Loads(i.opcode) || Stores(i.opcode))
    ensures Effect(strict, i, s) == Effect(strict, Expand(i), s)
  {
  }

  lemma JumpExpands(strict: bool, i: Insn, s: State)
    requires Legal(i) && !Computes(i.opcode) && !Loads(i.opcode) && !Stores(i.opcode) && X(s, 0) == 0
    ensures SameBut(Effect(strict, i, s), Effect(strict, Expand(i), s), s.pc)
  {
    assert i.opcode.C_JAL? ==> s.x[RA := Plus(s.pc, 4)] == s.x[RA := Plus(s.pc, 2)][RA := Plus(s.pc, 4)];
  }

  /** Executing a compressed instruction does what executing its 32-bit expansion does, apart from the PC
      step and the link value. */
  lemma ExpansionAgrees(strict: bool, i: Insn, s: State)
    requires Legal(i) && X(s, 0) == 0
    ensures SameBut(Effect(strict, i, s), Effect(strict, Expand(i), s), s.pc)
  {
    if Computes(i.opcode) {
      ComputeExpands(strict, i, s);
    } else if Loads(i.opcode) || Stores(i.opcode) {
      MemoryExpands(strict, i, s);
    } else {
      JumpExpands(strict, i, s);
    }
  }
}
