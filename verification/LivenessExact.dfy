/** Which of the registers that liveness_calc counts an instruction really depends on. */
module LivenessExact {
  import opened Powers
  import opened Words
  import opened BlockIr
  import opened Liveness
  import opened HandlerLaws
  import RegAlloc
  import Fusion

  // Some other value of r gives another outcome.
  ghost predicate Needs(i: Insn, r: Reg) {
    exists strict: bool, s: State, v: Word :: Felt(strict, i, s, r, v)
  }

  ghost predicate Felt(strict: bool, i: Insn, s: State, r: Reg, v: Word) {
    !Unaffected(s, Set(s, r, v), Step(strict, i, s), Step(strict, i, Set(s, r, v)), r)
  }

  // Outcomes that differ in another register, in memory or in the PC, or in what is written to r.
  lemma Differ(s: State, t: State, o: Outcome, p: Outcome, r: Reg, q: Reg)
    requires o.s.mem != p.s.mem || o.s.pc != p.s.pc || o.s.x[q] != p.s.x[q]
    requires o.s.mem == p.s.mem && o.s.pc == p.s.pc && q == r ==> o.s.x[r] != s.x[r] || p.s.x[r] != t.x[r]
    ensures !Unaffected(s, t, o, p, r)
  {
  }

  // ---------------------------------------------------------------- the counted registers without influence

  predicate IsShiftImm(op: ImmOp) {
    op.Slli? || op.Srli? || op.Srai?
  }

  // The result does not depend on the operand.
  predicate ImmConstant(op: ImmOp, imm: Word) {
    (op.Andi? && imm == 0) || (op.Ori? && imm == 0xffff_ffff) || (op.Slti? && imm == 0x8000_0000) ||
    (op.Sltiu? && imm == 0)
  }

  // The result is the operand.
  predicate ImmIdentity(op: ImmOp, imm: Word) {
    ((op.Addi? || op.Xori? || op.Ori?) && imm == 0) || (op.Andi? && imm == 0xffff_ffff) ||
    (IsShiftImm(op) && imm % 32 == 0)
  }

  // The operation with an immediate that a computing instruction of one operand amounts to.
  datatype Form = Form(op: ImmOp, imm: Word)

  function FormOf(i: Insn): Form {
    match i.opcode
    case OPIMM(op) => Form(op, i.imm)
    case C_ADDI4SPN => Form(Addi, Zext16(i.imm))
    case C_ADDI => Form(Addi, Sext16(i.imm))
    case C_ANDI => Form(Andi, i.imm)
    case _ => Form(Addi, i.imm)
  }

  predicate HasForm(op: Opcode) {
    op.OPIMM? || op.C_ADDI4SPN? || op.C_ADDI? || op.C_ADDI16SP? || op.C_ANDI?
  }

  function RegOf(i: Insn): RegOp {
    match i.opcode
    case OP(op) => op
    case C_OP(CSub) => Sub
    case C_OP(CXor) => Xor
    case C_OP(COr) => Or
    case C_OP(CAnd) => And
    case _ => Add
  }

  // Of two equal operands, the result does not depend on them, or it is the operand.
  predicate SameConstant(op: RegOp) {
    op.Sub? || op.Xor? || op.Slt? || op.Sltu? || op.Rem? || op.Remu?
  }

  predicate SameIdentity(op: RegOp) {
    op.And? || op.Or?
  }

  // The counted register makes no difference. Named by what a reader sees in the instruction: a result that is
  // constant, a result that is the operand and stays in its register, a branch whose both ways lead to the same
  // place, or an operand that the LUI of the same fused instruction has overwritten.
  predicate Idle(i: Insn) {
    match i.opcode
    case OP(_) | C_OP(_) =>
      i.rs1 == i.rs2 && (SameConstant(RegOf(i)) || (i.rd == i.rs1 && SameIdentity(RegOf(i))))
    case C_SLLI => i.imm % 256 == 0 || i.imm % 256 >= 32
    case C_SRLI => i.shamt == 0 || i.shamt >= 32
    case C_SRAI => i.shamt == 0
    case C_MV => i.rd == i.rs2
    case BRANCH(_) => i.rs1 == i.rs2 || i.imm == 4
    case C_BEQZ | C_BNEZ => i.imm == 2
    case FUSE1 => true
    case FUSE2 => i.rd == i.rs1 || (i.rs2 == i.rs1 && i.imm == 0)
    case FUSE10 => i.rd == i.rs1
    case FUSE12 => i.rd == i.rs1 && i.imm == 0 && i.imm2 == 4
    case _ =>
      HasForm(i.opcode) && var f := FormOf(i);
      ImmConstant(f.op, f.imm) || (ImmIdentity(f.op, f.imm) && Dest(i) == Operand(i))
  }

  // The operand of a computing instruction that has one only.
  function Operand(i: Insn): Reg {
    if i.opcode.C_ADDI4SPN? then SP else if i.opcode.C_ADDI? || i.opcode.C_ADDI16SP? then i.rd else i.rs1
  }

  // ---------------------------------------------------------------- bitwise operations at their limits

  lemma ZeroAt(k: nat)
    ensures !BitAt(0, k)
  {
    SignBits(0, 0, k);
  }

  lemma OnesAt(k: nat)
    requires k < 32
    ensures BitAt(0xffff_ffff, k)
  {
    Pow32();
    LowBit(-1, 32, k);
    SignBits(-1, 0, k);
  }

  lemma WordsEqual(a: Word, b: Word)
    requires forall k :: 0 <= k < 32 ==> BitAt(a, k) == BitAt(b, k)
    ensures a == b
  {
    Pow32();
    SameBits(a, b, 32);
  }

  lemma WithZero(a: Word)
    ensures EvalReg(And, a, 0) == 0 && EvalReg(Or, a, 0) == a && EvalReg(Xor, a, 0) == a
  {
    forall k | 0 <= k < 32
      ensures BitAt(EvalReg(And, a, 0), k) == BitAt(0, k) && BitAt(EvalReg(Or, a, 0), k) == BitAt(a, k) &&
              BitAt(EvalReg(Xor, a, 0), k) == BitAt(a, k)
    {
      BitwiseHandlers(a, 0, k);
      ZeroAt(k);
    }
    WordsEqual(EvalReg(And, a, 0), 0);
    WordsEqual(EvalReg(Or, a, 0), a);
    WordsEqual(EvalReg(Xor, a, 0), a);
  }

  lemma WithOnes(a: Word, ones: Word)
    requires ones == 0xffff_ffff
    ensures EvalReg(And, a, ones) == a && EvalReg(Or, a, ones) == ones
    ensures EvalReg(And, ones, a) == a && EvalReg(Or, ones, a) == ones
  {
    forall k | 0 <= k < 32
      ensures BitAt(EvalReg(And, a, ones), k) == BitAt(a, k) && BitAt(EvalReg(Or, a, ones), k) == BitAt(ones, k)
      ensures BitAt(EvalReg(And, ones, a), k) == BitAt(a, k) && BitAt(EvalReg(Or, ones, a), k) == BitAt(ones, k)
    {
      BitwiseHandlers(a, ones, k);
      BitwiseHandlers(ones, a, k);
      OnesAt(k);
    }
    WordsEqual(EvalReg(And, a, ones), a);
    WordsEqual(EvalReg(Or, a, ones), ones);
    WordsEqual(EvalReg(And, ones, a), a);
    WordsEqual(EvalReg(Or, ones, a), ones);
  }

  lemma WithItself(a: Word)
    ensures EvalReg(And, a, a) == a && EvalReg(Or, a, a) == a && EvalReg(Xor, a, a) == 0
  {
    forall k | 0 <= k < 32
      ensures BitAt(EvalReg(And, a, a), k) == BitAt(a, k) && BitAt(EvalReg(Or, a, a), k) == BitAt(a, k) &&
              BitAt(EvalReg(Xor, a, a), k) == BitAt(0, k)
    {
      BitwiseHandlers(a, a, k);
      ZeroAt(k);
    }
    WordsEqual(EvalReg(And, a, a), a);
    WordsEqual(EvalReg(Or, a, a), a);
    WordsEqual(EvalReg(Xor, a, a), 0);
  }

  lemma ZeroWith(a: Word)
    ensures EvalReg(And, 0, a) == 0 && EvalReg(Or, 0, a) == a && EvalReg(Xor, 0, a) == a
  {
    forall k | 0 <= k < 32
      ensures BitAt(EvalReg(And, 0, a), k) == BitAt(0, k) && BitAt(EvalReg(Or, 0, a), k) == BitAt(a, k) &&
              BitAt(EvalReg(Xor, 0, a), k) == BitAt(a, k)
    {
      BitwiseHandlers(0, a, k);
      ZeroAt(k);
    }
    WordsEqual(EvalReg(And, 0, a), 0);
    WordsEqual(EvalReg(Or, 0, a), a);
    WordsEqual(EvalReg(Xor, 0, a), a);
  }

  // ---------------------------------------------------------------- operations of one operand

  lemma ConstantImm(op: ImmOp, imm: Word, a: Word, b: Word)
    requires ImmConstant(op, imm)
    ensures EvalImm(op, a, imm) == EvalImm(op, b, imm)
  {
    ImmediateHandlers(op, a, imm);
    ImmediateHandlers(op, b, imm);
    if op.Andi? {
      WithZero(a);
      WithZero(b);
    } else if op.Ori? {
      WithOnes(a, imm);
      WithOnes(b, imm);
    }
  }

  lemma IdentityImm(op: ImmOp, imm: Word, a: Word)
    requires ImmIdentity(op, imm)
    ensures EvalImm(op, a, imm) == a
  {
    ImmediateHandlers(op, a, imm);
    if op.Andi? {
      WithOnes(a, imm);
    } else if op.Ori? || op.Xori? {
      WithZero(a);
    } else if IsShiftImm(op) {
      ShiftByNone(a);
    }
  }

  lemma ShiftByNone(a: Word)
    ensures Shl(a, 0) == Shr(a, 0) == Sar(a, 0) == a
  {
  }

  // Two operands are told apart, and not both returned as they are.
  predicate Tells(f: Word -> Word, a: Word, b: Word, same: bool) {
    f(a) != f(b) && (same ==> f(a) != a || f(b) != b)
  }

  // The shifts, on operands that tell every distance apart from none.
  lemma ShiftedOnes(n: nat)
    requires 0 < n < 32
    ensures Shl(0, n) == 0 && Shl(1, n) > 1
    ensures Shr(1, n) == Sar(1, n) == 0 && Shr(0x8000_0000, n) != 0 && Sar(0x8000_0000, n) != 0
  {
    var top: Word := 0x8000_0000;
    TopBit(top);
    SraBit(top, n, 31);
    ShiftedBit(top, n, 31 - n);
    ZeroAt(31 - n);
    ZeroAt(31);
    SllBit(1, n, n);
    assert BitAt(1, 0);
    assert Pow2(n) >= 2;
    SmallDiv(Pow2(n));
    LowPlace(n);
  }

  lemma SmallDiv(p: nat)
    requires p >= 2
    ensures 1 / p == 0
  {
  }

  lemma LowPlace(n: nat)
    requires n > 0
    ensures !BitAt(1, n)
  {
    SignBits(1, 1, n);
  }

  lemma TellingImm(op: ImmOp, imm: Word, same: bool) returns (a: Word, b: Word)
    requires !ImmConstant(op, imm) && !(same && ImmIdentity(op, imm))
    ensures Tells(x => EvalImm(op, x, imm), a, b, same)
  {
    if op.Xori? || op.Ori? || op.Andi? {
      a, b := TellingBits(op, imm);
    } else if IsShiftImm(op) {
      a, b := TellingShift(op, imm);
    } else {
      a, b := TellingPlain(op, imm);
    }
  }

  lemma TellingPlain(op: ImmOp, imm: Word) returns (a: Word, b: Word)
    requires (op.Addi? || op.Slti? || op.Sltiu?) && !ImmConstant(op, imm)
    ensures EvalImm(op, a, imm) != EvalImm(op, b, imm)
    ensures !ImmIdentity(op, imm) ==> EvalImm(op, a, imm) != a || EvalImm(op, b, imm) != b
  {
    if op.Addi? {
      a, b := 0, 1;
      PlusSmall(a, imm);
      PlusSmall(b, imm);
    } else if op.Slti? {
      a, b := 0x8000_0000, 0x7fff_ffff;
    } else {
      a, b := 0, 0xffff_ffff;
    }
  }

  lemma TellingBits(op: ImmOp, imm: Word) returns (a: Word, b: Word)
    requires (op.Xori? || op.Ori? || op.Andi?) && !ImmConstant(op, imm)
    ensures EvalImm(op, a, imm) != EvalImm(op, b, imm)
    ensures !ImmIdentity(op, imm) ==> EvalImm(op, a, imm) != a || EvalImm(op, b, imm) != b
  {
    a, b := 0, 0xffff_ffff;
    ImmediateHandlers(op, a, imm);
    ImmediateHandlers(op, b, imm);
    ZeroWith(imm);
    if op.Xori? {
      BitwiseHandlers(b, imm, 0);
      BitwiseHandlers(a, imm, 0);
      OnesAt(0);
      ZeroAt(0);
    } else {
      WithOnes(imm, b);
    }
  }

  lemma TellingShift(op: ImmOp, imm: Word) returns (a: Word, b: Word)
    requires IsShiftImm(op)
    ensures EvalImm(op, a, imm) != EvalImm(op, b, imm)
    ensures !ImmIdentity(op, imm) ==> EvalImm(op, a, imm) != a || EvalImm(op, b, imm) != b
  {
    if imm % 32 == 0 {
      a, b := 0, 1;
      ShiftByNone(a);
      ShiftByNone(b);
    } else {
      ShiftedOnes(imm % 32);
      if op.Slli? {
        a, b := 0, 1;
      } else {
        a, b := 1, 0x8000_0000;
      }
    }
  }

  // ---------------------------------------------------------------- operations of two operands

  // An operation that has an immediate form.
  predicate FromImm(op: RegOp) {
    op.Add? || op.Slt? || op.Sltu? || op.Xor? || op.Or? || op.And? || op.Sll? || op.Srl? || op.Sra?
  }

  function ImmForm(op: RegOp): ImmOp
    requires FromImm(op)
  {
    match op
    case Add => Addi
    case Slt => Slti
    case Sltu => Sltiu
    case Xor => Xori
    case Or => Ori
    case And => Andi
    case Sll => Slli
    case Srl => Srli
    case Sra => Srai
  }

  predicate Divides(op: RegOp) {
    op.Div? || op.Divu? || op.Rem? || op.Remu?
  }

  lemma TellingDivision(op: RegOp)
    requires Divides(op)
    ensures (op.Div? || op.Divu?) ==> EvalReg(op, 0, 2) == 0 && EvalReg(op, 2, 2) == 1 && EvalReg(op, 2, 1) == 2
    ensures (op.Div? || op.Divu?) ==> EvalReg(op, 0, 0) == 0xffff_ffff
    ensures (op.Rem? || op.Remu?) ==> EvalReg(op, 1, 2) == EvalReg(op, 3, 2) == 1
    ensures (op.Rem? || op.Remu?) ==> EvalReg(op, 2, 2) == EvalReg(op, 3, 3) == 0
  {
  }

  lemma TellingProduct(op: RegOp)
    requires op.Mulh? || op.Mulhsu? || op.Mulhu?
    ensures EvalReg(op, 0, 0x4000_0000) == EvalReg(op, 0x4000_0000, 0) == EvalReg(op, 0, 0) == 0
    ensures EvalReg(op, 4, 0x4000_0000) == EvalReg(op, 0x4000_0000, 4) == EvalReg(op, 0x1_0000, 0x1_0000) == 1
  {
  }

  // With the second operand c, the first is told apart.
  lemma TellingFirst(op: RegOp) returns (a: Word, b: Word, c: Word)
    ensures Tells(x => EvalReg(op, x, c), a, b, true)
  {
    if FromImm(op) {
      c := 1;
      a, b := TellingImm(ImmForm(op), c, true);
      ImmediateHandlers(ImmForm(op), a, c);
      ImmediateHandlers(ImmForm(op), b, c);
    } else if Divides(op) {
      TellingDivision(op);
      a, b, c := if op.Div? || op.Divu? then 0 else 1, 2, 2;
    } else if op.Sub? || op.Mul? {
      a, b, c := 0, 1, if op.Sub? then 1 else 2;
    } else {
      TellingProduct(op);
      a, b, c := 0, 4, 0x4000_0000;
    }
  }

  // With the first operand c, the second is told apart.
  lemma TellingSecond(op: RegOp) returns (a: Word, b: Word, c: Word)
    ensures Tells(x => EvalReg(op, c, x), a, b, true)
  {
    if op.And? || op.Or? || op.Xor? {
      a, b, c := TellingSecondBits(op);
    } else if op.Sll? || op.Srl? || op.Sra? {
      a, b, c := TellingSecondShift(op);
    } else if Divides(op) {
      TellingDivision(op);
      a, b, c := if op.Div? || op.Divu? then 1 else 3, 2, if op.Div? || op.Divu? then 2 else 3;
    } else if op.Mulh? || op.Mulhsu? || op.Mulhu? {
      TellingProduct(op);
      a, b, c := 0, 4, 0x4000_0000;
    } else {
      a, b, c := TellingSecondPlain(op);
    }
  }

  lemma TellingSecondPlain(op: RegOp) returns (a: Word, b: Word, c: Word)
    requires op.Slt? || op.Sltu? || op.Add? || op.Sub? || op.Mul?
    ensures Tells(x => EvalReg(op, c, x), a, b, true)
  {
    if op.Slt? || op.Sltu? {
      a, b, c := 0, 2, 0;
    } else {
      a, b, c := 0, 1, if op.Add? then 1 else if op.Sub? then 0 else 2;
    }
  }

  lemma TellingSecondShift(op: RegOp) returns (a: Word, b: Word, c: Word)
    requires op.Sll? || op.Srl? || op.Sra?
    ensures Tells(x => EvalReg(op, c, x), a, b, true)
  {
    a, b, c := 0, 1, 1;
    ByNone(op, c, a);
    ByOne(op, c, b);
  }

  lemma ShiftEval(op: RegOp, a: Word, n: Word)
    requires (op.Sll? || op.Srl? || op.Sra?) && n < 32
    ensures EvalReg(op, a, n) == if op.Sll? then Shl(a, n) else if op.Srl? then Shr(a, n) else Sar(a, n)
  {
    assert Low5(n) == n;
  }

  lemma TellingSecondBits(op: RegOp) returns (a: Word, b: Word, c: Word)
    requires op.And? || op.Or? || op.Xor?
    ensures Tells(x => EvalReg(op, c, x), a, b, true)
  {
    a, b, c := 0, 0xffff_ffff, 1;
    WithZero(c);
    if op.Xor? {
      BitwiseHandlers(c, b, 0);
      OnesAt(0);
      assert BitAt(c, 0);
    } else {
      WithOnes(c, b);
    }
  }

  // Both operands are the same register.
  lemma TellingBoth(op: RegOp, same: bool) returns (a: Word, b: Word)
    requires !SameConstant(op) && !(same && SameIdentity(op))
    ensures Tells(x => EvalReg(op, x, x), a, b, same)
  {
    if op.And? || op.Or? {
      a, b := 0, 1;
      WithItself(a);
      WithItself(b);
    } else if op.Sll? || op.Srl? || op.Sra? {
      a, b := TellingBothShift(op);
    } else if Divides(op) {
      TellingDivision(op);
      a, b := 0, 2;
    } else if op.Add? || op.Mul? {
      a, b := 0, if op.Add? then 1 else 2;
    } else {
      TellingProduct(op);
      a, b := 0, 0x1_0000;
    }
  }

  lemma TellingBothShift(op: RegOp) returns (a: Word, b: Word)
    requires op.Sll? || op.Srl? || op.Sra?
    ensures Tells(x => EvalReg(op, x, x), a, b, true)
  {
    a, b := 1, if op.Sll? then 0 else 32;
    ByNone(op, b, b);
    ByOne(op, a, a);
  }

  lemma ByNone(op: RegOp, a: Word, n: Word)
    requires (op.Sll? || op.Srl? || op.Sra?) && n % 32 == 0
    ensures EvalReg(op, a, n) == a
  {
    assert Low5(n) == 0;
    ShiftByNone(a);
  }

  lemma ByOne(op: RegOp, one: Word, n: Word)
    requires (op.Sll? || op.Srl? || op.Sra?) && one == 1 && n == 1
    ensures if op.Sll? then EvalReg(op, one, n) > 1 else EvalReg(op, one, n) == 0
  {
    ShiftEval(op, one, n);
    ShiftedOnes(n);
  }

  lemma ConstantBoth(op: RegOp, a: Word)
    requires SameConstant(op)
    ensures EvalReg(op, a, a) == 0
  {
    if op.Xor? {
      WithItself(a);
    } else if op.Rem? {
      DivisionHandlers(a, a);
      RemainderOfSame(a);
    }
  }

  lemma RemainderOfSame(a: Word)
    ensures RemS(a, a) == 0
  {
    if a != 0 { assert Quot(Signed(a), Signed(a)) == 1; }
  }

  // ---------------------------------------------------------------- computing instructions

  lemma ComputeFelt(i: Insn, x: Regs, r: Reg, v: Word)
    requires Computes(i.opcode) && Value(i, x, 0) != Value(i, x[r := v], 0)
    requires Dest(i) == r ==> Value(i, x, 0) != x[r] || Value(i, x[r := v], 0) != v
    ensures Needs(i, r)
  {
    var s := State(x, map[], 0, 0);
    ComputeStep(false, i, s);
    ComputeStep(false, i, Set(s, r, v));
    Differ(s, Set(s, r, v), Step(false, i, s), Step(false, i, Set(s, r, v)), r, Dest(i));
    assert Felt(false, i, s, r, v);
  }

  lemma ComputeUnfelt(strict: bool, i: Insn, s: State, r: Reg, v: Word)
    requires Computes(i.opcode)
    requires var p, q := Value(i, s.x, s.pc), Value(i, s.x[r := v], s.pc);
             p == q || (Dest(i) == r && p == s.x[r] && q == v)
    ensures !Felt(strict, i, s, r, v)
  {
    ComputeStep(strict, i, s);
    ComputeStep(strict, i, Set(s, r, v));
  }

  lemma FormValue(i: Insn, x: Regs, pc: Word)
    requires HasForm(i.opcode)
    ensures Computes(i.opcode) && Value(i, x, pc) == EvalImm(FormOf(i).op, x[Operand(i)], FormOf(i).imm)
  {
  }

  lemma RegValue(i: Insn, x: Regs, pc: Word)
    requires i.opcode.OP? || i.opcode.C_OP?
    ensures Computes(i.opcode) && Dest(i) == i.rd && Value(i, x, pc) == EvalReg(RegOf(i), x[i.rs1], x[i.rs2])
  {
  }

  function Zeros(): Regs {
    seq(32, _ => 0)
  }

  lemma FormIdle(strict: bool, i: Insn, s: State, v: Word)
    requires HasForm(i.opcode) && Idle(i)
    ensures !Felt(strict, i, s, Operand(i), v)
  {
    var r, f := Operand(i), FormOf(i);
    FormValue(i, s.x, s.pc);
    FormValue(i, s.x[r := v], s.pc);
    if ImmConstant(f.op, f.imm) {
      ConstantImm(f.op, f.imm, s.x[r], v);
    } else {
      IdentityImm(f.op, f.imm, s.x[r]);
      IdentityImm(f.op, f.imm, v);
    }
    ComputeUnfelt(strict, i, s, r, v);
  }

  lemma FormExactly(i: Insn, r: Reg)
    requires HasForm(i.opcode) && r == Operand(i)
    ensures Needs(i, r) <==> !Idle(i)
  {
    var f := FormOf(i);
    if Idle(i) {
      forall strict: bool, s: State, v: Word ensures !Felt(strict, i, s, r, v) { FormIdle(strict, i, s, v); }
    } else {
      var a, b := TellingImm(f.op, f.imm, Dest(i) == r);
      var x: Regs := Zeros()[r := a];
      FormValue(i, x, 0);
      FormValue(i, x[r := b], 0);
      ComputeFelt(i, x, r, b);
    }
  }

  lemma RegIdle(strict: bool, i: Insn, s: State, r: Reg, v: Word)
    requires (i.opcode.OP? || i.opcode.C_OP?) && r == i.rs1 && Idle(i)
    ensures !Felt(strict, i, s, r, v)
  {
    var op := RegOf(i);
    RegValue(i, s.x, s.pc);
    RegValue(i, s.x[r := v], s.pc);
    if SameConstant(op) {
      ConstantBoth(op, s.x[r]);
      ConstantBoth(op, v);
    } else {
      WithItself(s.x[r]);
      WithItself(v);
    }
    ComputeUnfelt(strict, i, s, r, v);
  }

  lemma RegExactly(i: Insn, r: Reg)
    requires (i.opcode.OP? || i.opcode.C_OP?) && (r == i.rs1 || r == i.rs2)
    ensures Needs(i, r) <==> !Idle(i)
  {
    if Idle(i) {
      forall strict: bool, s: State, v: Word ensures !Felt(strict, i, s, r, v) { RegIdle(strict, i, s, r, v); }
    } else {
      RegNeeded(i, r);
    }
  }

  lemma RegNeeded(i: Insn, r: Reg)
    requires (i.opcode.OP? || i.opcode.C_OP?) && (r == i.rs1 || r == i.rs2) && !Idle(i)
    ensures Needs(i, r)
  {
    var op, a, b, x := RegOf(i), 0, 0, Zeros();
    if i.rs1 == i.rs2 {
      a, b := TellingBoth(op, i.rd == r);
      x := x[r := a];
    } else if r == i.rs1 {
      var c;
      a, b, c := TellingFirst(op);
      x := x[i.rs2 := c][r := a];
    } else {
      var c;
      a, b, c := TellingSecond(op);
      x := x[i.rs1 := c][r := a];
    }
    RegValue(i, x, 0);
    RegValue(i, x[r := b], 0);
    ComputeFelt(i, x, r, b);
  }

  // ---------------------------------------------------------------- compressed shifts and moves

  lemma LongShift(a: Word, n: nat)
    requires n >= 32
    ensures Shl(a, n) == 0 && Shr(a, n) == 0
  {
    forall k | 0 <= k < 32 ensures BitAt(Shl(a, n), k) == BitAt(0, k) && BitAt(Shr(a, n), k) == BitAt(0, k) {
      SllBit(a, n, k);
      ShiftedBit(a, n, k);
      NoBitsBeyond(a, n + k);
      ZeroAt(k);
    }
    WordsEqual(Shl(a, n), 0);
    WordsEqual(Shr(a, n), 0);
  }

  lemma {:induction false} FillNothing(n: nat)
    ensures Fill(0, 0, n) == 0
  {
    if n > 0 {
      FillNothing(n - 1);
      assert Shr(0, n - 1) == 0;
      WithZero(0);
    }
  }

  // The sign is filled into the top place at least.
  lemma {:induction false} FillTop(v: Word, top: Word, n: nat)
    requires n > 0 && top == 0x8000_0000
    ensures BitAt(Fill(v, top, n), 31)
  {
    if n == 1 {
      ShiftByNone(top);
      TopBit(top);
    } else {
      FillTop(v, top, n - 1);
    }
    BitwiseHandlers(Fill(v, top, n - 1), Shr(top, n - 1), 31);
  }

  lemma FillTells(n: nat)
    requires n > 0
    ensures CSrai(1, n) == 0 && CSrai(0x8000_0000, n) != 0
  {
    var top: Word := 0x8000_0000;
    assert Pow2(n) >= 2;
    SmallDiv(Pow2(n));
    FillNothing(n);
    FillTop(Shr(top, n), top, n);
    ZeroAt(31);
  }

  // The register of a compressed shift or move.
  function Shifted(i: Insn): Reg {
    if i.opcode.C_SLLI? then i.rd else if i.opcode.C_MV? then i.rs2 else i.rs1
  }

  predicate ShiftsShort(op: Opcode) {
    op.C_SLLI? || op.C_SRLI? || op.C_SRAI? || op.C_MV?
  }

  lemma ShortIdle(strict: bool, i: Insn, s: State, v: Word)
    requires ShiftsShort(i.opcode) && Idle(i)
    ensures !Felt(strict, i, s, Shifted(i), v)
  {
    var r, a := Shifted(i), s.x[Shifted(i)];
    ShiftByNone(a);
    ShiftByNone(v);
    if i.opcode.C_SLLI? && i.imm % 256 >= 32 {
      LongShift(a, i.imm % 256);
      LongShift(v, i.imm % 256);
    } else if i.opcode.C_SRLI? && i.shamt >= 32 {
      LongShift(a, i.shamt);
      LongShift(v, i.shamt);
    }
    ComputeUnfelt(strict, i, s, r, v);
  }

  lemma ShortNeeded(i: Insn)
    requires ShiftsShort(i.opcode) && !Idle(i)
    ensures Needs(i, Shifted(i))
  {
    var r := Shifted(i);
    if i.opcode.C_MV? {
      ComputeFelt(i, Zeros(), r, 1);
    } else if i.opcode.C_SLLI? {
      ShiftedOnes(i.imm % 256);
      ComputeFelt(i, Zeros(), r, 1);
    } else {
      if i.opcode.C_SRLI? { ShiftedOnes(i.shamt); } else { FillTells(i.shamt); }
      ComputeFelt(i, Zeros()[r := 1], r, 0x8000_0000);
    }
  }

  lemma ShortExactly(i: Insn, r: Reg)
    requires ShiftsShort(i.opcode) && r == Shifted(i)
    ensures Needs(i, r) <==> !Idle(i)
  {
    if Idle(i) {
      forall strict: bool, s: State, v: Word ensures !Felt(strict, i, s, r, v) { ShortIdle(strict, i, s, v); }
    } else {
      ShortNeeded(i);
    }
  }

  // ---------------------------------------------------------------- jumps and branches

  lemma JumpFelt(i: Insn, s: State, r: Reg, v: Word)
    requires !Computes(i.opcode) && !Loads(i.opcode) && !Stores(i.opcode) && !IsFused(i.opcode)
    requires var o, p := Control(i, Tick(s, 1)), Control(i, Tick(Set(s, r, v), 1));
             o.Leave? && p.Leave? && o.s.pc != p.s.pc
    ensures Needs(i, r)
  {
    Differ(s, Set(s, r, v), Step(false, i, s), Step(false, i, Set(s, r, v)), r, r);
    assert Felt(false, i, s, r, v);
  }

  predicate Jumps(op: Opcode) {
    op.JALR? || op.C_JR? || op.C_JALR?
  }

  lemma JumpNeeded(i: Insn, r: Reg)
    requires Jumps(i.opcode) && r == i.rs1
    ensures Needs(i, r)
  {
    var s := State(Zeros(), map[], 0, 0);
    assert Even(Plus(0, i.imm)) != Even(Plus(2, i.imm));
    JumpFelt(i, s, i.rs1, 2);
  }

  lemma BranchIdle(strict: bool, i: Insn, s: State, r: Reg, v: Word)
    requires i.opcode.BRANCH? && Idle(i) && (r == i.rs1 || r == i.rs2)
    ensures !Felt(strict, i, s, r, v)
  {
    BranchHandler(strict, i, s);
    BranchHandler(strict, i, Set(s, r, v));
  }

  // Operands for which a comparison holds and does not hold, whichever of the two is changed.
  lemma BranchNeeded(i: Insn, r: Reg)
    requires i.opcode.BRANCH? && !Idle(i) && (r == i.rs1 || r == i.rs2)
    ensures Needs(i, r)
  {
    var s := State(if r == i.rs1 then Zeros()[i.rs2 := 1] else Zeros()[i.rs1 := 1], map[], 0, 0);
    var t := Set(s, r, if i.opcode.cond.Eq? || i.opcode.cond.Ne? || r == i.rs1 then 1 else 2);
    BranchHandler(false, i, s);
    BranchHandler(false, i, t);
    Differ(s, t, Step(false, i, s), Step(false, i, t), r, r);
    assert Felt(false, i, s, r, t.x[r]);
  }

  lemma BranchExactly(i: Insn, r: Reg)
    requires i.opcode.BRANCH? && (r == i.rs1 || r == i.rs2)
    ensures Needs(i, r) <==> !Idle(i)
  {
    if Idle(i) {
      forall strict: bool, s: State, v: Word ensures !Felt(strict, i, s, r, v) { BranchIdle(strict, i, s, r, v); }
    } else {
      BranchNeeded(i, r);
    }
  }

  lemma ShortBranchIdle(strict: bool, i: Insn, s: State, v: Word)
    requires (i.opcode.C_BEQZ? || i.opcode.C_BNEZ?) && Idle(i)
    ensures !Felt(strict, i, s, i.rs1, v)
  {
  }

  lemma ShortBranchExactly(i: Insn, r: Reg)
    requires (i.opcode.C_BEQZ? || i.opcode.C_BNEZ?) && r == i.rs1
    ensures Needs(i, r) <==> !Idle(i)
  {
    if Idle(i) {
      forall strict: bool, s: State, v: Word ensures !Felt(strict, i, s, i.rs1, v) { ShortBranchIdle(strict, i, s, v); }
    } else {
      JumpFelt(i, State(Zeros(), map[], 0, 0), i.rs1, 1);
    }
  }

  // ---------------------------------------------------------------- loads and stores

  function LoadOf(i: Insn): LoadOp {
    if i.opcode.LOAD? then i.opcode.load else Lw
  }

  function StoreOf(i: Insn): StoreOp {
    if i.opcode.STORE? then i.opcode.store else Sw
  }

  lemma LoadSteps(i: Insn, s: State, a: Word)
    requires Loads(i.opcode) && a == Plus(X(s, Base(i)), i.imm)
    ensures Step(false, i, s) == Advance(Load(false, LoadOf(i), Tick(s, 1), i.rd, a), Length(i.opcode))
  {
  }

  lemma StoreSteps(i: Insn, s: State, a: Word, v: Word)
    requires Stores(i.opcode) && a == Plus(X(s, Base(i)), i.imm) && v == X(s, i.rs2)
    ensures Step(false, i, s) == Advance(Store(false, StoreOf(i), Tick(s, 1), a, v), Length(i.opcode))
  {
  }

  // Two stores that differ in the low byte.
  lemma StoresApart(op: StoreOp, s: State, t: State, a: Word, v: Word, w: Word)
    requires v % 256 != w % 256
    ensures var o, p := Store(false, op, s, a, v), Store(false, op, t, a, w);
            o.Continue? && p.Continue? && o.s.mem != p.s.mem
  {
    Wrote(false, op, s, a, v, a);
    Wrote(false, op, t, a, w, a);
  }

  // A store that clears the byte at a, and one that leaves it.
  lemma StoresElsewhere(op: StoreOp, s: State, t: State, a: Word, v: Word, w: Word)
    requires s.mem == t.mem == map[a := 1] && v == 0
    ensures var o, p := Store(false, op, s, a, v), Store(false, op, t, Plus(4, a), w);
            o.Continue? && p.Continue? && o.s.mem != p.s.mem
  {
    PlusSmall(4, a);
    Wrote(false, op, s, a, v, a);
    Wrote(false, op, t, Plus(4, a), w, a);
  }

  // A single one, four bytes behind the address.
  function OneBehind(a: Word): Memory {
    map[Plus(4, a) := 1]
  }

  lemma LittleOne(a: Word, n: nat)
    requires n == 1 || n == 2 || n == 4
    ensures Little(OneBehind(a), a, n) == 0 && Little(OneBehind(a), Plus(4, a), n) == 1
  {
    PlusSmall(4, a);
    PlusSmall(a, 1);
    PlusSmall(a, 2);
    PlusSmall(a, 3);
    PlusSmall(Plus(4, a), 1);
    PlusSmall(Plus(4, a), 2);
    PlusSmall(Plus(4, a), 3);
  }

  // A load that finds zero at a, and one at four bytes more.
  lemma LoadTells(op: LoadOp, s: State, t: State, rd: Reg, a: Word)
    requires s.mem == t.mem == OneBehind(a)
    ensures var o, p := Load(false, op, s, rd, a), Load(false, op, t, rd, Plus(4, a));
            o == Continue(Set(s, rd, 0)) && p == Continue(Set(t, rd, 1))
  {
    LittleOne(a, LoadSize(op));
    DidLoad(false, op, s, rd, a);
    DidLoad(false, op, t, rd, Plus(4, a));
    assert Load(false, op, s, rd, a).s.x == s.x[rd := 0];
    assert Load(false, op, t, rd, Plus(4, a)).s.x == t.x[rd := 1];
  }

  lemma LoadNeeded(i: Insn, r: Reg)
    requires Loads(i.opcode) && r == Base(i)
    ensures Needs(i, r)
  {
    var s := State(Zeros(), OneBehind(i.imm), 0, 0);
    var t := Set(s, r, 4);
    PlusSmall(0, i.imm);
    LoadSteps(i, s, i.imm);
    LoadSteps(i, t, Plus(4, i.imm));
    LoadTells(LoadOf(i), Tick(s, 1), Tick(t, 1), i.rd, i.imm);
    Differ(s, t, Step(false, i, s), Step(false, i, t), r, i.rd);
    assert Felt(false, i, s, r, 4);
  }

  lemma StoreBaseNeeded(i: Insn, r: Reg)
    requires Stores(i.opcode) && r == Base(i)
    ensures Needs(i, r)
  {
    var s := State(Zeros(), map[i.imm := 1], 0, 0);
    var t := Set(s, r, 4);
    PlusSmall(0, i.imm);
    StoreSteps(i, s, i.imm, 0);
    StoreSteps(i, t, Plus(4, i.imm), X(t, i.rs2));
    StoresElsewhere(StoreOf(i), Tick(s, 1), Tick(t, 1), i.imm, 0, X(t, i.rs2));
    Differ(s, t, Step(false, i, s), Step(false, i, t), r, r);
    assert Felt(false, i, s, r, 4);
  }

  lemma StoreValueNeeded(i: Insn, r: Reg)
    requires Stores(i.opcode) && r == i.rs2 != Base(i)
    ensures Needs(i, r)
  {
    var s := State(Zeros(), map[], 0, 0);
    var t := Set(s, r, 1);
    PlusSmall(0, i.imm);
    StoreSteps(i, s, i.imm, 0);
    StoreSteps(i, t, i.imm, 1);
    StoresApart(StoreOf(i), Tick(s, 1), Tick(t, 1), i.imm, 0, 1);
    Differ(s, t, Step(false, i, s), Step(false, i, t), r, r);
    assert Felt(false, i, s, r, 1);
  }

  // ---------------------------------------------------------------- fused pairs

  lemma PairStep(strict: bool, i: Insn, s: State)
    requires IsFused(i.opcode) && !IsRun(i.opcode)
    ensures Step(strict, i, s) == Advance(EffectFused(strict, i, Tick(s, 2)), 8)
  {
  }

  lemma PairFelt(i: Insn, s: State, r: Reg, v: Word, q: Reg)
    requires IsFused(i.opcode) && !IsRun(i.opcode)
    requires var o, p := EffectFused(false, i, Tick(s, 2)), EffectFused(false, i, Tick(Set(s, r, v), 2));
             (o.Continue? <==> p.Continue?) &&
             (o.s.mem != p.s.mem || (o.Leave? && o.s.pc != p.s.pc) ||
              (o.s.x[q] != p.s.x[q] && (q == r ==> o.s.x[r] != s.x[r] || p.s.x[r] != v)))
    ensures Needs(i, r)
  {
    PairStep(false, i, s);
    PairStep(false, i, Set(s, r, v));
    Differ(s, Set(s, r, v), Step(false, i, s), Step(false, i, Set(s, r, v)), r, q);
    assert Felt(false, i, s, r, v);
  }

  lemma PairUnfelt(strict: bool, i: Insn, s: State, r: Reg, v: Word)
    requires IsFused(i.opcode) && !IsRun(i.opcode)
    requires var s2, t2 := Tick(s, 2), Tick(Set(s, r, v), 2);
             Unaffected(s2, t2, EffectFused(strict, i, s2), EffectFused(strict, i, t2), r)
    ensures !Felt(strict, i, s, r, v)
  {
    var t := Set(s, r, v);
    var s2, t2 := Tick(s, 2), Tick(t, 2);
    PairStep(strict, i, s);
    PairStep(strict, i, t);
    AdvanceBoth(s2, t2, EffectFused(strict, i, s2), EffectFused(strict, i, t2), 8, r);
    TickBoth(s, t, 2, Step(strict, i, s), Step(strict, i, t), r);
  }

  lemma Fuse2Is(strict: bool, i: Insn, s: State, v: Word)
    requires i.opcode.FUSE2? && v == Plus(i.imm, if i.rd == i.rs1 then i.imm else X(s, i.rs1))
    ensures EffectFused(strict, i, s) == Continue(Set(Set(s, i.rd, i.imm), i.rs2, v))
  {
  }

  lemma Fuse2Idle(strict: bool, i: Insn, s: State, v: Word)
    requires i.opcode.FUSE2? && Idle(i)
    ensures !Felt(strict, i, s, i.rs1, v)
  {
    PlusSmall(0, s.x[i.rs1]);
    PlusSmall(0, v);
    PairUnfelt(strict, i, s, i.rs1, v);
  }

  lemma {:induction false} Fuse2Exactly(i: Insn, r: Reg)
    requires i.opcode.FUSE2? && r == i.rs1
    ensures Needs(i, r) <==> !Idle(i)
  {
    if Idle(i) {
      forall strict: bool, s: State, v: Word ensures !Felt(strict, i, s, i.rs1, v) { Fuse2Idle(strict, i, s, v); }
    } else {
      Fuse2Needed(i, r);
    }
  }

  lemma {:induction false} Fuse2Needed(i: Insn, r: Reg)
    requires i.opcode.FUSE2? && r == i.rs1 && !Idle(i)
    ensures Needs(i, r)
  {
    var z := State(Zeros(), map[], 0, 0);
    PlusSmall(i.imm, 0);
    PlusSmall(i.imm, 1);
    Fuse2Is(false, i, Tick(z, 2), i.imm);
    Fuse2Is(false, i, Tick(Set(z, r, 1), 2), Plus(i.imm, 1));
    PairFelt(i, z, r, 1, i.rs2);
  }

  lemma Fuse10Idle(strict: bool, i: Insn, s: State, v: Word)
    requires i.opcode.FUSE10? && Idle(i)
    ensures !Felt(strict, i, s, i.rs1, v)
  {
    var s2, t2 := Tick(s, 2), Tick(Set(s, i.rs1, v), 2);
    Fuse10Is(strict, i, s2, i.imm);
    Fuse10Is(strict, i, t2, i.imm);
    SetBoth(s2, t2, i.rs1, i.rd, i.imm);
    UnreadStore(strict, Sw, Set(s2, i.rd, i.imm), Set(t2, i.rd, i.imm), Plus(i.imm, i.imm2), i.imm, i.rs1);
    PairUnfelt(strict, i, s, i.rs1, v);
  }

  lemma Fuse10Exactly(i: Insn, r: Reg)
    requires i.opcode.FUSE10? && r == i.rs1
    ensures Needs(i, r) <==> !Idle(i)
  {
    if Idle(i) {
      forall strict: bool, s: State, v: Word ensures !Felt(strict, i, s, i.rs1, v) { Fuse10Idle(strict, i, s, v); }
    } else {
      Fuse10Needed(i);
    }
  }

  lemma Fuse10Is(strict: bool, i: Insn, s: State, v: Word)
    requires i.opcode.FUSE10? && v == if i.rd == i.rs1 then i.imm else X(s, i.rs1)
    ensures EffectFused(strict, i, s) == Store(strict, Sw, Set(s, i.rd, i.imm), Plus(i.imm, i.imm2), v)
  {
  }

  lemma Fuse10Needed(i: Insn)
    requires i.opcode.FUSE10? && i.rd != i.rs1
    ensures Needs(i, i.rs1)
  {
    var z := State(Zeros(), map[], 0, 0);
    var s, t := Tick(z, 2), Tick(Set(z, i.rs1, 1), 2);
    Fuse10Is(false, i, s, 0);
    Fuse10Is(false, i, t, 1);
    StoresApart(Sw, Set(s, i.rd, i.imm), Set(t, i.rd, i.imm), Plus(i.imm, i.imm2), 0, 1);
    PairFelt(i, z, i.rs1, 1, i.rs1);
  }

  lemma Fuse11Is(i: Insn, s: State, a: Word, w: Word)
    requires i.opcode.FUSE11? && a == Plus(X(s, i.rs1), i.imm)
    requires Load(false, Lw, s, i.rd, a) == Continue(Set(s, i.rd, w))
    ensures EffectFused(false, i, s) ==
            Continue(Set(Set(s, i.rd, w), i.rs1, Plus(if i.rd == i.rs1 then w else X(s, i.rs1), i.imm2)))
  {
  }

  lemma Fuse11Needed(i: Insn, r: Reg)
    requires i.opcode.FUSE11? && r == i.rs1
    ensures Needs(i, r)
  {
    var z := State(Zeros(), OneBehind(i.imm), 0, 0);
    var s, t := Tick(z, 2), Tick(Set(z, i.rs1, 4), 2);
    PlusSmall(0, i.imm);
    LoadTells(Lw, s, t, i.rd, i.imm);
    Fuse11Is(i, s, i.imm, 0);
    Fuse11Is(i, t, Plus(4, i.imm), 1);
    PlusSmall(0, i.imm2);
    PlusSmall(1, i.imm2);
    PairFelt(i, z, i.rs1, 4, i.rd);
  }

  lemma Fuse12Is(strict: bool, i: Insn, s: State, v: Word)
    requires i.opcode.FUSE12? && v == Plus(X(s, i.rs1), i.imm)
    ensures EffectFused(strict, i, s) ==
            Leave(State(s.x[i.rd := v], s.mem, if v != 0 then Plus(s.pc, Plus(4, i.imm2)) else Plus(s.pc, 8), s.cycle))
  {
  }

  lemma Fuse12Idle(strict: bool, i: Insn, s: State, v: Word)
    requires i.opcode.FUSE12? && Idle(i)
    ensures !Felt(strict, i, s, i.rs1, v)
  {
    var s2, t2 := Tick(s, 2), Tick(Set(s, i.rs1, v), 2);
    PlusSmall(s.x[i.rs1], 0);
    PlusSmall(v, 0);
    Fuse12Is(strict, i, s2, s.x[i.rs1]);
    Fuse12Is(strict, i, t2, v);
    PairUnfelt(strict, i, s, i.rs1, v);
  }

  lemma Fuse12Exactly(i: Insn, r: Reg)
    requires i.opcode.FUSE12? && r == i.rs1
    ensures Needs(i, r) <==> !Idle(i)
  {
    if Idle(i) {
      forall strict: bool, s: State, v: Word ensures !Felt(strict, i, s, i.rs1, v) { Fuse12Idle(strict, i, s, v); }
    } else if i.imm2 != 4 {
      Fuse12Branches(i);
    } else {
      Fuse12Counts(i);
    }
  }

  lemma Fuse12Branches(i: Insn)
    requires i.opcode.FUSE12? && i.imm2 != 4
    ensures Needs(i, i.rs1)
  {
    var a: Word := if i.imm == 0 then 0 else TWO32 - i.imm;
    var b := Plus(a, 1);
    var z := State(Zeros()[i.rs1 := a], map[], 0, 0);
    PlusSmall(a, 1);
    PlusSmall(a, i.imm);
    PlusSmall(b, i.imm);
    Fuse12Is(false, i, Tick(z, 2), 0);
    Fuse12Is(false, i, Tick(Set(z, i.rs1, b), 2), 1);
    PairFelt(i, z, i.rs1, b, i.rs1);
  }

  lemma Fuse12Counts(i: Insn)
    requires i.opcode.FUSE12? && !(i.rd == i.rs1 && i.imm == 0)
    ensures Needs(i, i.rs1)
  {
    var z := State(Zeros(), map[], 0, 0);
    PlusSmall(0, i.imm);
    Fuse12Is(false, i, Tick(z, 2), i.imm);
    Fuse12Is(false, i, Tick(Set(z, i.rs1, 1), 2), Plus(1, i.imm));
    PlusSmall(1, i.imm);
    PairFelt(i, z, i.rs1, 1, i.rd);
  }

  // ---------------------------------------------------------------- all instructions but runs

  lemma {:induction false} AccessExactly(i: Insn, r: Reg)
    requires r in RegAlloc.Uses(i) && (Loads(i.opcode) || Stores(i.opcode))
    ensures Needs(i, r)
  {
    if Loads(i.opcode) {
      LoadNeeded(i, r);
    } else if r == Base(i) {
      StoreBaseNeeded(i, r);
    } else {
      StoreValueNeeded(i, r);
    }
  }

  lemma LuiRunIdle(i: Insn, r: Reg)
    requires i.opcode.FUSE1?
    ensures !Needs(i, r)
  {
    forall strict: bool, s: State, v: Word ensures !Felt(strict, i, s, r, v) { UncountedIsUnread(strict, i, s, r, v); }
  }

  lemma {:induction false} FusedExactly(i: Insn, r: Reg)
    requires r in RegAlloc.Uses(i) && IsFused(i.opcode) && (IsRun(i.opcode) ==> i.opcode.FUSE1?)
    ensures Needs(i, r) <==> !Idle(i)
  {
    match i.opcode
    case FUSE1 => LuiRunIdle(i, r);
    case FUSE2 => Fuse2Exactly(i, r);
    case FUSE10 => Fuse10Exactly(i, r);
    case FUSE11 => Fuse11Needed(i, r);
    case FUSE12 => Fuse12Exactly(i, r);
  }

  /** A register that is counted for an instruction is needed, in some state, exactly when the instruction is
      not idle; the registers counted for a fused run of LUI never are. */
  lemma {:induction false} CountedExactly(i: Insn, r: Reg)
    requires r in RegAlloc.Uses(i) && (IsRun(i.opcode) ==> i.opcode.FUSE1?)
    ensures Needs(i, r) <==> !Idle(i)
  {
    if IsFused(i.opcode) {
      FusedExactly(i, r);
    } else if HasForm(i.opcode) {
      FormExactly(i, r);
    } else if i.opcode.OP? || i.opcode.C_OP? {
      RegExactly(i, r);
    } else if ShiftsShort(i.opcode) {
      ShortExactly(i, r);
    } else if Jumps(i.opcode) {
      JumpNeeded(i, r);
    } else if i.opcode.BRANCH? {
      BranchExactly(i, r);
    } else if i.opcode.C_BEQZ? || i.opcode.C_BNEZ? {
      ShortBranchExactly(i, r);
    } else {
      AccessExactly(i, r);
    }
  }

  // The registers that the member k of a run counts; of a LUI, its destination.
  predicate MemberCounts(run: Opcode, b: seq<Insn>, k: nat, r: Reg)
    requires k < |b|
  {
    if run.FUSE1? then r == b[k].rd else r in RegAlloc.Uses(b[k])
  }

  // The registers that an entry adds to those of its run.
  predicate EntryCounts(run: Opcode, f: Fused, r: Reg) {
    if run.FUSE1? then r == f.rd else r == f.rs1 || (run.FUSE3? && r == f.rs2)
  }

  lemma {:induction false} RunUses(i: Insn, r: Reg)
    requires IsRun(i.opcode)
    ensures r in RegAlloc.Uses(i) <==> exists f :: f in RegAlloc.RunEntries(i) && EntryCounts(i.opcode, f, r)
  {
  }

  lemma {:induction false} MemberUses(run: Opcode, b: seq<Insn>, k: nat, r: Reg)
    requires IsRun(run) && k < |b| && Fusion.Member(run, b[k].opcode)
    ensures MemberCounts(run, b, k, r) <==> EntryCounts(run, Fusion.Entry(b[k]), r)
  {
  }

  /** The other runs count what their members count one by one. */
  lemma {:induction false} RunCounts(run: Opcode, b: seq<Insn>, r: Reg)
    requires IsRun(run) && 0 < |b| <= Fusion.FUSE_MAX_ENTRIES
    requires forall k :: 0 <= k < |b| ==> Fusion.Member(run, b[k].opcode)
    ensures r in RegAlloc.Uses(Fusion.Merged(run, b)) <==> exists k :: 0 <= k < |b| && MemberCounts(run, b, k, r)
  {
    var m, fs := Fusion.Merged(run, b), Fusion.Entries(b);
    assert RegAlloc.RunEntries(m) == fs;
    RunUses(m, r);
    if k :| 0 <= k < |b| && MemberCounts(run, b, k, r) {
      MemberUses(run, b, k, r);
      assert fs[k] in fs && EntryCounts(run, fs[k], r);
    }
    if f :| f in fs && EntryCounts(run, f, r) {
      var k :| 0 <= k < |fs| && fs[k] == f;
      MemberUses(run, b, k, r);
    }
  }
}
