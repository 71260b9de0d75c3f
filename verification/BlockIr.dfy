/** The decoded instructions of a basic block (rv_insn_t), and what the interpreter's handlers
    in src/rv32_template.c and src/emulate.c do with them: RV32I, M and C integer instructions
    and the fused macro-operations. */
module BlockIr {
  import opened Powers
  import opened Words

  type Reg = r: nat | r < 32

  const SP: Reg := 2
  const RA: Reg := 1
  const A7: Reg := 17

  datatype ImmOp = Addi | Slti | Sltiu | Xori | Ori | Andi | Slli | Srli | Srai
  datatype RegOp = Add | Sub | Sll | Slt | Sltu | Xor | Srl | Sra | Or | And
                 | Mul | Mulh | Mulhsu | Mulhu | Div | Divu | Rem | Remu
  datatype Cond = Eq | Ne | Lt | Ge | Ltu | Geu
  datatype LoadOp = Lb | Lh | Lw | Lbu | Lhu
  datatype StoreOp = Sb | Sh | Sw
  datatype CRegOp = CSub | CXor | COr | CAnd | CAdd

  datatype Opcode =
    | NOP | LUI | AUIPC | JAL | JALR | BRANCH(cond: Cond) | LOAD(load: LoadOp) | STORE(store: StoreOp)
    | OPIMM(iop: ImmOp) | OP(rop: RegOp) | FENCE | ECALL | EBREAK
    | C_ADDI4SPN | C_LW | C_SW | C_NOP | C_ADDI | C_JAL | C_LI | C_ADDI16SP | C_LUI | C_SRLI | C_SRAI | C_ANDI
    | C_OP(cop: CRegOp) | C_J | C_BEQZ | C_BNEZ | C_SLLI | C_LWSP | C_JR | C_MV | C_EBREAK | C_JALR | C_SWSP
    | FUSE1 | FUSE2 | FUSE3 | FUSE4 | FUSE5 | FUSE6 | FUSE7 | FUSE8 | FUSE9 | FUSE10 | FUSE11 | FUSE12

  // opcode_fuse_t: the first eight bytes of an instruction that was fused away.
  datatype Fused = Fused(imm: Word, rd: Reg, rs1: Reg, rs2: Reg, opcode: Opcode)

  datatype Insn = Insn(opcode: Opcode, rd: Reg, rs1: Reg, rs2: Reg, imm: Word, shamt: nat,
                       pc: Word, imm2: Word, fuse: seq<Fused>)

  // __rv_insn_*_len; fused operations count their parts in their handlers.
  function Length(op: Opcode): Word {
    match op
    case C_ADDI4SPN | C_LW | C_SW | C_NOP | C_ADDI | C_JAL | C_LI | C_ADDI16SP | C_LUI | C_SRLI | C_SRAI
       | C_ANDI | C_OP(_) | C_J | C_BEQZ | C_BNEZ | C_SLLI | C_LWSP | C_JR | C_MV | C_EBREAK | C_JALR | C_SWSP => 2
    case _ => 4
  }

  // ---------------------------------------------------------------- arithmetic

  function Wrap(n: int): Word {
    n % TWO32
  }

  function Plus(a: Word, b: Word): Word {
    Wrap(a + b)
  }

  function Signed(a: Word): int {
    if a < 0x8000_0000 then a else a - TWO32
  }

  // A shift by 32 or more (undefined in C) gives 0 here.
  function Shl(a: Word, n: nat): Word {
    Wrap(a * Pow2(n))
  }

  function Shr(a: Word, n: nat): Word {
    Quotient(a, Pow2(n))
  }

  function Quotient(a: Word, b: int): (q: Word)
    requires b >= 1
  {
    DivBound(a, b);
    a / b
  }

  lemma DivBound(a: Word, b: int)
    requires b >= 1
    ensures 0 <= a / b <= a
  {
  }

  // Arithmetic shift right: division of the signed value rounding down.
  function Sar(a: Word, n: nat): Word {
    Wrap(Signed(a) / Pow2(n))
  }

  function Low5(a: Word): nat {
    a % 32
  }

  // Bitwise operations, bit by bit from the low end.
  datatype BitOp = BitAnd | BitOr | BitXor

  function Bit(op: BitOp, p: bool, q: bool): (r: nat)
    ensures r <= 1
  {
    match op
    case BitAnd => if p && q then 1 else 0
    case BitOr => if p || q then 1 else 0
    case BitXor => if p != q then 1 else 0
  }

  function Bits(op: BitOp, a: nat, b: nat): nat
    decreases a + b
  {
    if a == 0 && b == 0 then 0
    else 2 * Bits(op, a / 2, b / 2) + Bit(op, a % 2 == 1, b % 2 == 1)
  }

  lemma {:induction false} BitsBound(op: BitOp, a: nat, b: nat, n: nat)
    requires a < Pow2(n) && b < Pow2(n)
    ensures Bits(op, a, b) < Pow2(n)
    decreases n
  {
    if n != 0 {
      var p := Pow2(n - 1);
      assert a / 2 < p && b / 2 < p;
      BitsBound(op, a / 2, b / 2, n - 1);
    }
  }

  function Bitwise(op: BitOp, a: Word, b: Word): (w: Word) {
    assert Pow2(8) == 256;
    assert Pow2(16) == 65536;
    assert Pow2(24) == 0x100_0000;
    assert Pow2(32) == TWO32;
    BitsBound(op, a, b, 32);
    Bits(op, a, b)
  }

  // C's division truncates towards zero.
  function Quot(a: int, b: int): int
    requires b != 0
  {
    var q := (if a < 0 then -a else a) / (if b < 0 then -b else b);
    if (a < 0) == (b < 0) then q else -q
  }

  // Bits 63..32 of a 64-bit product taken modulo 2^64.
  function High(product: int): Word {
    Wrap((product % TWO64) / TWO32)
  }

  function DivS(a: Word, b: Word): Word {
    if b == 0 then 0xffff_ffff
    else if b == 0xffff_ffff && a == 0x8000_0000 then a
    else Wrap(Quot(Signed(a), Signed(b)))
  }

  function RemS(a: Word, b: Word): Word {
    if b == 0 then a
    else if b == 0xffff_ffff && a == 0x8000_0000 then 0
    else Wrap(Signed(a) - Signed(b) * Quot(Signed(a), Signed(b)))
  }

  function Flag(b: bool): Word {
    if b then 1 else 0
  }

  function EvalImm(op: ImmOp, a: Word, imm: Word): Word {
    match op
    case Addi => Plus(a, imm)
    case Slti => Flag(Signed(a) < Signed(imm))
    case Sltiu => Flag(a < imm)
    case Xori => Bitwise(BitXor, a, imm)
    case Ori => Bitwise(BitOr, a, imm)
    case Andi => Bitwise(BitAnd, a, imm)
    case Slli => Shl(a, Low5(imm))
    case Srli => Shr(a, Low5(imm))
    case Srai => Sar(a, Low5(imm))
  }

  function EvalReg(op: RegOp, a: Word, b: Word): Word {
    match op
    case Add => Plus(a, b)
    case Sub => Wrap(a - b)
    case Sll => Shl(a, Low5(b))
    case Slt => Flag(Signed(a) < Signed(b))
    case Sltu => Flag(a < b)
    case Xor => Bitwise(BitXor, a, b)
    case Srl => Shr(a, Low5(b))
    case Sra => Sar(a, Low5(b))
    case Or => Bitwise(BitOr, a, b)
    case And => Bitwise(BitAnd, a, b)
    case Mul => Wrap(Signed(a) * Signed(b))
    case Mulh => High(Signed(a) * Signed(b))
    case Mulhsu => High((Signed(a) % TWO64) * b)   // int64_t times uint64_t is done in uint64_t
    case Mulhu => High(a * b)
    case Div => DivS(a, b)
    case Divu => if b == 0 then 0xffff_ffff else Quotient(a, b)
    case Rem => RemS(a, b)
    case Remu => if b == 0 then a else a % b
  }

  function EvalC(op: CRegOp, a: Word, b: Word): Word {
    match op
    case CSub => Wrap(a - b)
    case CXor => Bitwise(BitXor, a, b)
    case COr => Bitwise(BitOr, a, b)
    case CAnd => Bitwise(BitAnd, a, b)
    case CAdd => Plus(a, b)
  }

  function Holds(cond: Cond, a: Word, b: Word): bool {
    match cond
    case Eq => a == b
    case Ne => a != b
    case Lt => Signed(a) < Signed(b)
    case Ge => Signed(a) >= Signed(b)
    case Ltu => a < b
    case Geu => a >= b
  }

  function Zext16(a: Word): Word {
    a % 0x1_0000
  }

  function Sext16(a: Word): Word {
    var n := a % 0x1_0000;
    if n < 0x8000 then n else Wrap(n - 0x1_0000)
  }

  function Sext8(a: Word): Word {
    var n := a % 0x100;
    if n < 0x80 then n else Wrap(n - 0x100)
  }

  // The fill loop of C.SRAI: or the sign bit into the n positions vacated by the shift.
  function Fill(v: Word, mask: Word, n: nat): Word {
    if n == 0 then v else Bitwise(BitOr, Fill(v, mask, n - 1), Shr(mask, n - 1))
  }

  function CSrai(a: Word, n: nat): Word {
    Fill(Shr(a, n), if a < 0x8000_0000 then 0 else 0x8000_0000, n)
  }

  // ---------------------------------------------------------------- machine state

  type Memory = map<Word, Byte>

  type Regs = x: seq<Word> | |x| == 32 witness seq(32, _ => 0)

  datatype State = State(x: Regs, mem: Memory, pc: Word, cycle: nat)

  function X(s: State, r: Reg): Word {
    s.x[r]
  }

  function Set(s: State, r: Reg, v: Word): State {
    s.(x := s.x[r := v])
  }

  function ReadByte(m: Memory, a: Word): Word {
    if a in m then m[a] else 0
  }

  function ReadHalf(m: Memory, a: Word): Word {
    Wrap(ReadByte(m, a) + 0x100 * ReadByte(m, Plus(a, 1)))
  }

  function ReadWord(m: Memory, a: Word): Word {
    Wrap(ReadHalf(m, a) + 0x1_0000 * ReadHalf(m, Plus(a, 2)))
  }

  function WriteByte(m: Memory, a: Word, v: Word): Memory {
    m[a := v % 0x100]
  }

  function WriteHalf(m: Memory, a: Word, v: Word): Memory {
    WriteByte(WriteByte(m, a, v), Plus(a, 1), v / 0x100)
  }

  function WriteWord(m: Memory, a: Word, v: Word): Memory {
    WriteHalf(WriteHalf(m, a, v), Plus(a, 2), v / 0x1_0000)
  }

  // What a handler does next: go on with the next IR of the block, leave the block (next PC in the
  // state), trap on a misaligned access, or call the environment.
  datatype Outcome =
    | Continue(s: State)
    | Leave(s: State)
    | Trap(s: State, addr: Word, store: bool)
    | CallEnv(s: State, ecall: bool)

  // RV_EXC_MISALIGN_HANDLER on a data access; strict is !allow_misalign.
  predicate Misaligned(strict: bool, addr: Word, size: int)
    requires size > 0
  {
    strict && addr % size != 0
  }

  function Load(strict: bool, op: LoadOp, s: State, rd: Reg, addr: Word): Outcome {
    match op
    case Lb => Continue(Set(s, rd, Sext8(ReadByte(s.mem, addr))))
    case Lbu => Continue(Set(s, rd, ReadByte(s.mem, addr)))
    case Lh => if Misaligned(strict, addr, 2) then Trap(s, addr, false)
      else Continue(Set(s, rd, Sext16(ReadHalf(s.mem, addr))))
    case Lhu => if Misaligned(strict, addr, 2) then Trap(s, addr, false)
      else Continue(Set(s, rd, ReadHalf(s.mem, addr)))
    case Lw => if Misaligned(strict, addr, 4) then Trap(s, addr, false) else Continue(Set(s, rd, ReadWord(s.mem, addr)))
  }

  function Store(strict: bool, op: StoreOp, s: State, addr: Word, v: Word): Outcome {
    match op
    case Sb => Continue(s.(mem := WriteByte(s.mem, addr, v)))
    case Sh => if Misaligned(strict, addr, 2) then Trap(s, addr, true)
      else Continue(s.(mem := WriteHalf(s.mem, addr, v)))
    case Sw => if Misaligned(strict, addr, 4) then Trap(s, addr, true)
      else Continue(s.(mem := WriteWord(s.mem, addr, v)))
  }

  // nextop: PC += len, then the next IR.
  function Advance(o: Outcome, len: Word): Outcome {
    if o.Continue? then Continue(o.s.(pc := Plus(o.s.pc, len))) else o
  }

  function Jump(s: State, pc: Word): Outcome {
    Leave(s.(pc := pc))
  }

  // Instructions that only compute a register value.
  predicate Computes(op: Opcode) {
    match op
    case LUI | AUIPC | OPIMM(_) | OP(_) | C_ADDI4SPN | C_ADDI | C_LI | C_ADDI16SP | C_LUI | C_SRLI | C_SRAI | C_ANDI
       | C_OP(_) | C_SLLI | C_MV => true
    case _ => false
  }

  predicate Loads(op: Opcode) {
    op.LOAD? || op.C_LW? || op.C_LWSP?
  }

  predicate Stores(op: Opcode) {
    op.STORE? || op.C_SW? || op.C_SWSP?
  }

  // The compressed shifts right and C.ANDI name their register rs1.
  function Dest(i: Insn): Reg {
    if i.opcode.C_SRLI? || i.opcode.C_SRAI? || i.opcode.C_ANDI? then i.rs1 else i.rd
  }

  function Value(i: Insn, x: Regs, pc: Word): Word
    requires Computes(i.opcode)
  {
    match i.opcode
    case LUI | C_LUI | C_LI => i.imm
    case AUIPC => Plus(i.imm, pc)
    case OPIMM(op) => EvalImm(op, x[i.rs1], i.imm)
    case OP(op) => EvalReg(op, x[i.rs1], x[i.rs2])
    case C_ADDI4SPN => Plus(x[SP], Zext16(i.imm))
    case C_ADDI => Plus(x[i.rd], Sext16(i.imm))
    case C_ADDI16SP => Plus(x[i.rd], i.imm)
    case C_SRLI => Shr(x[i.rs1], i.shamt)
    case C_SRAI => CSrai(x[i.rs1], i.shamt)
    case C_ANDI => Bitwise(BitAnd, x[i.rs1], i.imm)
    case C_OP(op) => EvalC(op, x[i.rs1], x[i.rs2])
    case C_SLLI => Shl(x[i.rd], i.imm % 256)
    case C_MV => x[i.rs2]
  }

  // The address register of a load or store.
  function Base(i: Insn): Reg {
    if i.opcode.C_LWSP? || i.opcode.C_SWSP? then SP else i.rs1
  }

  function Even(a: Word): Word {
    a - a % 2
  }

  // Jumps, branches, fences, environment calls and the two no-ops.
  function Control(i: Insn, s: State): Outcome {
    var pc := s.pc;
    match i.opcode
    case NOP => Continue(Set(s, 0, 0))
    case C_NOP => Continue(s)
    case JAL => Jump(if i.rd == 0 then s else Set(s, i.rd, Plus(pc, 4)), Plus(pc, i.imm))
    case JALR => Jump(if i.rd == 0 then s else Set(s, i.rd, Plus(pc, 4)), Even(Plus(X(s, i.rs1), i.imm)))
    case BRANCH(cond) => Jump(s, if Holds(cond, X(s, i.rs1), X(s, i.rs2)) then Plus(pc, i.imm) else Plus(pc, 4))
    case FENCE => Jump(s, Plus(pc, 4))
    case ECALL => CallEnv(s, true)
    case EBREAK | C_EBREAK => CallEnv(s, false)
    case C_JAL => Jump(Set(s, RA, Plus(pc, 2)), Plus(pc, i.imm))
    case C_J => Jump(s, Plus(pc, i.imm))
    case C_BEQZ => Jump(s, if X(s, i.rs1) == 0 then Plus(pc, i.imm) else Plus(pc, 2))
    case C_BNEZ => Jump(s, if X(s, i.rs1) != 0 then Plus(pc, i.imm) else Plus(pc, 2))
    case C_JR => Jump(s, X(s, i.rs1))
    case C_JALR => Jump(Set(s, RA, Plus(pc, 2)), X(s, i.rs1))
    case _ => Leave(s)
  }

  // The effect of one instruction that is not fused, on a state whose cycle is already counted.
  function Effect(strict: bool, i: Insn, s: State): Outcome {
    if Computes(i.opcode) then Continue(Set(s, Dest(i), Value(i, s.x, s.pc)))
    else if Loads(i.opcode) then
      Load(strict, if i.opcode.LOAD? then i.opcode.load else Lw, s, i.rd, Plus(X(s, Base(i)), i.imm))
    else if Stores(i.opcode) then
      Store(strict, if i.opcode.STORE? then i.opcode.store else Sw, s, Plus(X(s, Base(i)), i.imm), X(s, i.rs2))
    else Control(i, s)
  }

  // do_fuse1, do_fuse3, do_fuse4, do_fuse5 and do_fuse7: the loop over the fused entries.
  function Part(strict: bool, op: Opcode, f: Fused, s: State): Outcome {
    match op
    case FUSE1 => Continue(Set(s, f.rd, f.imm))
    case FUSE3 => Store(strict, Sw, s, Plus(X(s, f.rs1), f.imm), X(s, f.rs2))
    case FUSE4 => Load(strict, Lw, s, f.rd, Plus(X(s, f.rs1), f.imm))
    case FUSE5 =>
      if f.opcode.OPIMM? then Continue(Set(s, f.rd, EvalImm(f.opcode.iop, X(s, f.rs1), f.imm))) else Continue(s)
    case _ => Continue(Set(s, f.rd, Plus(X(s, f.rs1), f.imm)))
  }

  function Parts(strict: bool, op: Opcode, fs: seq<Fused>, s: State): Outcome {
    if fs == [] then Continue(s)
    else
      var o := Part(strict, op, fs[0], s);
      if o.Continue? then Parts(strict, op, fs[1..], o.s) else o
  }

  function Tick(s: State, n: nat): State {
    s.(cycle := s.cycle + n)
  }

  predicate IsRun(op: Opcode) {
    op.FUSE1? || op.FUSE3? || op.FUSE4? || op.FUSE5? || op.FUSE7?
  }

  predicate IsFused(op: Opcode) {
    IsRun(op) || op.FUSE2? || op.FUSE6? || op.FUSE8? || op.FUSE9? || op.FUSE10? || op.FUSE11? || op.FUSE12?
  }

  // do_fuse2, do_fuse6 and do_fuse8..do_fuse12, on a state whose two cycles are already counted.
  function EffectFused(strict: bool, i: Insn, s: State): Outcome {
    var addr := Plus(i.imm, i.imm2);
    match i.opcode
    case FUSE2 =>
      var t := Set(s, i.rd, i.imm);
      Continue(Set(t, i.rs2, Plus(X(t, i.rd), X(t, i.rs1))))
    case FUSE6 => CallEnv(Set(s, A7, i.imm).(pc := Plus(s.pc, 4)), true)
    case FUSE8 => Continue(Set(s, i.rd, Plus(i.imm, i.imm2)))
    case FUSE9 => Load(strict, Lw, Set(s, i.rd, i.imm), i.rs2, addr)
    case FUSE10 =>
      var t := Set(s, i.rd, i.imm);
      Store(strict, Sw, t, addr, X(t, i.rs1))
    case FUSE11 =>
      var o := Load(strict, Lw, s, i.rd, Plus(X(s, i.rs1), i.imm));
      if o.Continue? then Continue(Set(o.s, i.rs1, Plus(X(o.s, i.rs1), i.imm2))) else o
    case _ =>
      var t := Set(s, i.rd, Plus(X(s, i.rs1), i.imm));
      Jump(t, if X(t, i.rd) != 0 then Plus(s.pc, Plus(4, i.imm2)) else Plus(s.pc, 8))
  }

  // One handler call; imm2 is the number of entries of a fused run.
  function Step(strict: bool, i: Insn, s: State): Outcome {
    if IsRun(i.opcode) then
      var n := if i.imm2 <= |i.fuse| then i.imm2 else |i.fuse|;
      Advance(Parts(strict, i.opcode, i.fuse[..n], Tick(s, i.imm2)), Wrap(i.imm2 * 4))
    else if IsFused(i.opcode) then
      Advance(EffectFused(strict, i, Tick(s, 2)), 8)
    else
      Advance(Effect(strict, i, Tick(s, 1)), Length(i.opcode))
  }

  // Runs the instructions of b in turn, for as long as each goes on to the next.
  function Through(strict: bool, b: seq<Insn>, s: State): Outcome
    decreases |b|
  {
    if b == [] then Continue(s)
    else
      var o := Step(strict, b[0], s);
      if o.Continue? then Through(strict, b[1..], o.s) else o
  }

  function Finish(o: Outcome): Outcome {
    if o.Continue? then Leave(o.s) else o
  }

  // Runs a whole block; falling off its end leaves it at the next PC.
  function Run(strict: bool, b: seq<Insn>, s: State): Outcome {
    Finish(Through(strict, b, s))
  }

  lemma {:induction false} ThroughAppend(strict: bool, a: seq<Insn>, b: seq<Insn>, s: State)
    ensures var o := Through(strict, a, s);
            Through(strict, a + b, s) == if o.Continue? then Through(strict, b, o.s) else o
    decreases |a|
  {
    if a == [] {
      assert a + b == b;
    } else {
      assert (a + b)[1..] == a[1..] + b && (a + b)[0] == a[0];
      var o := Step(strict, a[0], s);
      if o.Continue? { ThroughAppend(strict, a[1..], b, o.s); }
    }
  }

  lemma ThroughOne(strict: bool, i: Insn, s: State)
    ensures Through(strict, [i], s) == Step(strict, i, s)
  {
    var o := Step(strict, i, s);
    assert [i][1..] == [];
    assert o.Continue? ==> Through(strict, [], o.s) == o;
  }

  lemma ComputeStep(strict: bool, i: Insn, s: State)
    requires Computes(i.opcode)
    ensures Step(strict, i, s) ==
            Continue(State(s.x[Dest(i) := Value(i, s.x, s.pc)], s.mem, Plus(s.pc, Length(i.opcode)), s.cycle + 1))
  {
  }

  lemma LoadWordStep(strict: bool, i: Insn, s: State)
    requires i.opcode == LOAD(Lw)
    ensures var addr := Plus(s.x[i.rs1], i.imm);
            Step(strict, i, s) ==
            if Misaligned(strict, addr, 4) then Trap(Tick(s, 1), addr, false)
            else Continue(State(s.x[i.rd := ReadWord(s.mem, addr)], s.mem, Plus(s.pc, 4), s.cycle + 1))
  {
  }

  lemma StoreWordStep(strict: bool, i: Insn, s: State)
    requires i.opcode == STORE(Sw)
    ensures var addr := Plus(s.x[i.rs1], i.imm);
            Step(strict, i, s) ==
            if Misaligned(strict, addr, 4) then Trap(Tick(s, 1), addr, true)
            else Continue(State(s.x, WriteWord(s.mem, addr, s.x[i.rs2]), Plus(s.pc, 4), s.cycle + 1))
  {
  }
}
