/** Macro-operation fusion: match_pattern of src/emulate.c rewrites the IR list of a block, and the
    fused handlers do in one call what the instructions they replace did in several. */
module Fusion {
  import opened Words
  import opened BlockIr

  const FUSE_MAX_ENTRIES := 16

  // ---------------------------------------------------------------- what is fused at the head of a list

  // What one turn of match_pattern finds: nothing, a pair, or the start of a possible run.
  datatype Match = Keep | Pair(fused: Insn) | Start(run: Opcode)

  predicate IsShift(op: Opcode) {
    op.OPIMM? && (op.iop.Slli? || op.iop.Srli? || op.iop.Srai?)
  }

  // The instructions a run of this fused opcode is made of.
  predicate Member(run: Opcode, op: Opcode) {
    match run
    case FUSE1 => op.LUI?
    case FUSE3 => op == STORE(Sw)
    case FUSE4 => op == LOAD(Lw)
    case FUSE5 => IsShift(op)
    case FUSE7 => op == OPIMM(Addi)
    case _ => false
  }

  // How many instructions at the front of b belong to the run.
  function RunLength(b: seq<Insn>, run: Opcode): (n: nat)
    ensures n <= |b| && forall k :: 0 <= k < n ==> Member(run, b[k].opcode)
    ensures n < |b| ==> !Member(run, b[n].opcode)
  {
    if b == [] || !Member(run, b[0].opcode) then 0 else 1 + RunLength(b[1..], run)
  }

  function PatternLui(i: Insn, next: Insn): Match {
    match next.opcode
    case OP(Add) =>
      if i.rd == next.rs2 || i.rd == next.rs1 then
        Pair(i.(opcode := FUSE2, rs2 := next.rd, rs1 := if i.rd == next.rs2 then next.rs1 else next.rs2))
      else Keep
    case OPIMM(Addi) =>
      if i.rd != 0 && i.rd == next.rs1 && i.rd == next.rd then Pair(i.(opcode := FUSE8, imm2 := next.imm)) else Keep
    case LOAD(Lw) =>
      if i.rd != 0 && i.rd == next.rs1 then Pair(i.(opcode := FUSE9, imm2 := next.imm, rs2 := next.rd)) else Keep
    case STORE(Sw) =>
      if i.rd != 0 && i.rd == next.rs1 && i.rd != next.rs2 then
        Pair(i.(opcode := FUSE10, imm2 := next.imm, rs1 := next.rs2))
      else Keep
    case LUI => Start(FUSE1)
    case _ => Keep
  }

  function PatternAddi(i: Insn, next: Insn): Match {
    if i.rd == A7 && i.rs1 == 0 && next.opcode == ECALL then Pair(i.(opcode := FUSE6))
    else if next.opcode == BRANCH(Ne) && i.rd != 0 && i.rd == next.rs1 && next.rs2 == 0 then
      Pair(i.(opcode := FUSE12, imm2 := next.imm))
    else Start(FUSE7)
  }

  // The switch of match_pattern on an instruction and the next one.
  function Pattern(i: Insn, next: Insn): Match {
    match i.opcode
    case LUI => PatternLui(i, next)
    case STORE(Sw) => Start(FUSE3)
    case LOAD(Lw) =>
      if next.opcode == OPIMM(Addi) && i.rs1 == next.rs1 == next.rd && i.rd != i.rs1 then
        Pair(i.(opcode := FUSE11, imm2 := next.imm))
      else Start(FUSE4)
    case OPIMM(op) =>
      if IsShift(i.opcode) then Start(FUSE5) else if op.Addi? then PatternAddi(i, next) else Keep
    case _ => Keep
  }

  // A run starts with a member of its kind.
  lemma StartIsMember(i: Insn, next: Insn)
    ensures Pattern(i, next).Start? ==> IsRun(Pattern(i, next).run) && Member(Pattern(i, next).run, i.opcode)
  {
  }

  // memcpy of the first eight bytes of an instruction.
  function Entry(i: Insn): Fused {
    Fused(i.imm, i.rd, i.rs1, i.rs2, i.opcode)
  }

  function Entries(b: seq<Insn>): (fs: seq<Fused>)
    ensures |fs| == |b|
  {
    seq(|b|, k requires 0 <= k < |b| => Entry(b[k]))
  }

  function Merged(run: Opcode, b: seq<Insn>): Insn
    requires 0 < |b| <= FUSE_MAX_ENTRIES
  {
    b[0].(opcode := run, imm2 := |b|, fuse := Entries(b))
  }

  // One turn of the loop: what stands at the head, how many instructions it stands for, and the
  // pool's answers to later requests for fuse entries.
  datatype Turn = Turn(head: Insn, taken: nat, grants: seq<bool>)

  // try_fuse_sequence on the run that starts b.
  function TurnRun(b: seq<Insn>, run: Opcode, grants: seq<bool>): (t: Turn)
    requires b != []
    ensures 1 <= t.taken <= |b|
  {
    var n := RunLength(b, run);
    if !(1 < n <= FUSE_MAX_ENTRIES) then Turn(b[0], 1, grants)
    else if grants == [] then Turn(b[0], 1, [])
    else if grants[0] then Turn(Merged(run, b[..n]), n, grants[1..])
    else Turn(b[0], 1, grants[1..])
  }

  function TurnBy(p: Match, b: seq<Insn>, grants: seq<bool>): (t: Turn)
    requires |b| >= 2
    ensures 1 <= t.taken <= |b|
  {
    match p
    case Keep => Turn(b[0], 1, grants)
    case Pair(f) => Turn(f, 2, grants)
    case Start(run) => TurnRun(b, run, grants)
  }

  function TurnOf(b: seq<Insn>, grants: seq<bool>): (t: Turn)
    requires |b| >= 2
    ensures 1 <= t.taken <= |b|
  {
    TurnBy(Pattern(b[0], b[1]), b, grants)
  }

  // The list after match_pattern.
  function Fuse(b: seq<Insn>, grants: seq<bool>): (r: seq<Insn>)
    ensures |r| <= |b| && (b != [] ==> r != [])
    decreases |b|
  {
    if |b| < 2 then b
    else
      var t := TurnOf(b, grants);
      [t.head] + Fuse(b[t.taken..], t.grants)
  }

  // ---------------------------------------------------------------- pairs

  // Each fused pair does what its two instructions do, if neither access traps and x0 is zero.
  ghost predicate PairSound(strict: bool, i: Insn, next: Insn, f: Insn, s: State) {
    !Through(strict, [i, next], s).Trap? ==> Step(strict, f, s) == Through(strict, [i, next], s)
  }

  lemma ThroughTwo(strict: bool, i: Insn, j: Insn, s: State)
    ensures var o := Step(strict, i, s);
            Through(strict, [i, j], s) == if o.Continue? then Step(strict, j, o.s) else o
  {
    ThroughOne(strict, i, s);
    ThroughAppend(strict, [i], [j], s);
    assert [i] + [j] == [i, j];
    var o := Step(strict, i, s);
    if o.Continue? { ThroughOne(strict, j, o.s); }
  }

  lemma PlusFour(pc: Word)
    ensures Plus(Plus(pc, 4), 4) == Plus(pc, 8)
  {
  }

  lemma PlusComm(a: Word, b: Word)
    ensures Plus(a, b) == Plus(b, a)
  {
  }

  lemma PlusAssoc(a: Word, b: Word, c: Word)
    ensures Plus(Plus(a, b), c) == Plus(a, Plus(b, c))
  {
  }

  lemma LuiStep(strict: bool, i: Insn, s: State)
    requires i.opcode == LUI
    ensures Step(strict, i, s) == Continue(State(s.x[i.rd := i.imm], s.mem, Plus(s.pc, 4), s.cycle + 1))
  {
    ComputeStep(strict, i, s);
  }

  lemma AddiStep(strict: bool, i: Insn, s: State)
    requires i.opcode == OPIMM(Addi)
    ensures Step(strict, i, s) ==
            Continue(State(s.x[i.rd := Plus(s.x[i.rs1], i.imm)], s.mem, Plus(s.pc, 4), s.cycle + 1))
  {
    ComputeStep(strict, i, s);
  }

  lemma AddStep(strict: bool, i: Insn, s: State)
    requires i.opcode == OP(Add)
    ensures Step(strict, i, s) ==
            Continue(State(s.x[i.rd := Plus(s.x[i.rs1], s.x[i.rs2])], s.mem, Plus(s.pc, 4), s.cycle + 1))
  {
    ComputeStep(strict, i, s);
  }

  // A fused handler other than a run: two cycles, and eight bytes unless it leaves.
  lemma FusedStep(strict: bool, i: Insn, s: State)
    requires IsFused(i.opcode) && !IsRun(i.opcode)
    ensures Step(strict, i, s) == Advance(EffectFused(strict, i, Tick(s, 2)), 8)
  {
  }

  lemma Fuse2Step(strict: bool, f: Insn, s: State)
    requires f.opcode == FUSE2
    ensures var x := s.x[f.rd := f.imm];
            Step(strict, f, s) ==
            Continue(State(x[f.rs2 := Plus(x[f.rd], x[f.rs1])], s.mem, Plus(s.pc, 8), s.cycle + 2))
  {
    FusedStep(strict, f, s);
  }

  lemma Fuse2Sound(strict: bool, i: Insn, next: Insn, f: Insn, s: State)
    requires i.opcode == LUI && next.opcode == OP(Add) && (i.rd == next.rs2 || i.rd == next.rs1)
    requires f == i.(opcode := FUSE2, rs2 := next.rd, rs1 := if i.rd == next.rs2 then next.rs1 else next.rs2)
    ensures PairSound(strict, i, next, f, s)
  {
    LuiAddSteps(strict, i, next, s);
    Fuse2Step(strict, f, s);
    SumOfBoth(s.x[i.rd := i.imm], i.rd, next.rs1, next.rs2);
  }

  lemma LuiAddSteps(strict: bool, i: Insn, next: Insn, s: State)
    requires i.opcode == LUI && next.opcode == OP(Add)
    ensures var x := s.x[i.rd := i.imm];
            Through(strict, [i, next], s) ==
            Continue(State(x[next.rd := Plus(x[next.rs1], x[next.rs2])], s.mem, Plus(s.pc, 8), s.cycle + 2))
  {
    ThroughTwo(strict, i, next, s);
    LuiStep(strict, i, s);
    AddStep(strict, next, State(s.x[i.rd := i.imm], s.mem, Plus(s.pc, 4), s.cycle + 1));
    PlusFour(s.pc);
  }

  // fuse2 adds its destination to whichever operand is the other one.
  lemma SumOfBoth(x: Regs, d: Reg, a: Reg, b: Reg)
    requires d == b || d == a
    ensures Plus(x[d], x[if d == b then a else b]) == Plus(x[a], x[b])
  {
    PlusComm(x[a], x[b]);
  }

  lemma Fuse8Sound(strict: bool, i: Insn, next: Insn, f: Insn, s: State)
    requires i.opcode == LUI && next.opcode == OPIMM(Addi) && i.rd == next.rs1 == next.rd
    requires f == i.(opcode := FUSE8, imm2 := next.imm)
    ensures PairSound(strict, i, next, f, s)
  {
    ThroughTwo(strict, i, next, s);
    LuiStep(strict, i, s);
    AddiStep(strict, next, Step(strict, i, s).s);
    FusedStep(strict, f, s);
    PlusFour(s.pc);
  }

  lemma Fuse9Step(strict: bool, f: Insn, s: State)
    requires f.opcode == FUSE9
    ensures var addr := Plus(f.imm, f.imm2);
            !Misaligned(strict, addr, 4) ==>
              Step(strict, f, s) ==
              Continue(State(s.x[f.rd := f.imm][f.rs2 := ReadWord(s.mem, addr)], s.mem, Plus(s.pc, 8), s.cycle + 2))
  {
    FusedStep(strict, f, s);
  }

  lemma Fuse9Sound(strict: bool, i: Insn, next: Insn, f: Insn, s: State)
    requires i.opcode == LUI && next.opcode == LOAD(Lw) && i.rd == next.rs1
    requires f == i.(opcode := FUSE9, imm2 := next.imm, rs2 := next.rd)
    ensures PairSound(strict, i, next, f, s)
  {
    ThroughTwo(strict, i, next, s);
    LuiStep(strict, i, s);
    LoadWordStep(strict, next, State(s.x[i.rd := i.imm], s.mem, Plus(s.pc, 4), s.cycle + 1));
    Fuse9Step(strict, f, s);
    PlusFour(s.pc);
  }

  lemma Fuse10Step(strict: bool, f: Insn, s: State)
    requires f.opcode == FUSE10
    ensures var addr := Plus(f.imm, f.imm2);
            var x := s.x[f.rd := f.imm];
            !Misaligned(strict, addr, 4) ==>
              Step(strict, f, s) ==
              Continue(State(x, WriteWord(s.mem, addr, x[f.rs1]), Plus(s.pc, 8), s.cycle + 2))
  {
    FusedStep(strict, f, s);
  }

  lemma Fuse10Sound(strict: bool, i: Insn, next: Insn, f: Insn, s: State)
    requires i.opcode == LUI && next.opcode == STORE(Sw) && i.rd == next.rs1
    requires f == i.(opcode := FUSE10, imm2 := next.imm, rs1 := next.rs2)
    ensures PairSound(strict, i, next, f, s)
  {
    ThroughTwo(strict, i, next, s);
    LuiStep(strict, i, s);
    StoreWordStep(strict, next, State(s.x[i.rd := i.imm], s.mem, Plus(s.pc, 4), s.cycle + 1));
    Fuse10Step(strict, f, s);
    PlusFour(s.pc);
  }

  lemma Fuse11Step(strict: bool, f: Insn, s: State)
    requires f.opcode == FUSE11
    ensures var addr := Plus(s.x[f.rs1], f.imm);
            var x := s.x[f.rd := ReadWord(s.mem, addr)];
            !Misaligned(strict, addr, 4) ==>
              Step(strict, f, s) ==
              Continue(State(x[f.rs1 := Plus(x[f.rs1], f.imm2)], s.mem, Plus(s.pc, 8), s.cycle + 2))
  {
    FusedStep(strict, f, s);
  }

  lemma Fuse11Sound(strict: bool, i: Insn, next: Insn, f: Insn, s: State)
    requires i.opcode == LOAD(Lw) && next.opcode == OPIMM(Addi) && i.rs1 == next.rs1 == next.rd
    requires f == i.(opcode := FUSE11, imm2 := next.imm)
    ensures PairSound(strict, i, next, f, s)
  {
    ThroughTwo(strict, i, next, s);
    LoadWordStep(strict, i, s);
    var t := State(s.x[i.rd := ReadWord(s.mem, Plus(s.x[i.rs1], i.imm))], s.mem, Plus(s.pc, 4), s.cycle + 1);
    AddiStep(strict, next, t);
    Fuse11Step(strict, f, s);
    PlusFour(s.pc);
  }

  lemma Fuse6Step(strict: bool, f: Insn, s: State)
    requires f.opcode == FUSE6
    ensures Step(strict, f, s) == CallEnv(State(s.x[A7 := f.imm], s.mem, Plus(s.pc, 4), s.cycle + 2), true)
  {
    FusedStep(strict, f, s);
  }

  lemma EcallStep(strict: bool, i: Insn, s: State)
    requires i.opcode == ECALL
    ensures Step(strict, i, s) == CallEnv(Tick(s, 1), true)
  {
  }

  lemma Fuse6Sound(strict: bool, i: Insn, next: Insn, f: Insn, s: State)
    requires i.opcode == OPIMM(Addi) && next.opcode == ECALL && i.rd == A7 && i.rs1 == 0 && X(s, 0) == 0
    requires f == i.(opcode := FUSE6)
    ensures PairSound(strict, i, next, f, s)
  {
    ThroughTwo(strict, i, next, s);
    AddiStep(strict, i, s);
    Fuse6Step(strict, f, s);
    EcallStep(strict, next, State(s.x[A7 := i.imm], s.mem, Plus(s.pc, 4), s.cycle + 1));
  }

  lemma Fuse12Step(strict: bool, f: Insn, s: State)
    requires f.opcode == FUSE12
    ensures var v := Plus(s.x[f.rs1], f.imm);
            Step(strict, f, s) ==
            Leave(State(s.x[f.rd := v], s.mem,
                        if v != 0 then Plus(s.pc, Plus(4, f.imm2)) else Plus(s.pc, 8), s.cycle + 2))
  {
    FusedStep(strict, f, s);
  }

  lemma BranchNotEqualStep(strict: bool, i: Insn, s: State)
    requires i.opcode == BRANCH(Ne)
    ensures Step(strict, i, s) ==
            Leave(State(s.x, s.mem, if s.x[i.rs1] != s.x[i.rs2] then Plus(s.pc, i.imm) else Plus(s.pc, 4), s.cycle + 1))
  {
  }

  // Both forms of addi + bne write v and leave; they differ only in what they compare v with.
  lemma Fuse12Both(strict: bool, i: Insn, next: Insn, f: Insn, s: State)
    requires i.opcode == OPIMM(Addi) && next.opcode == BRANCH(Ne) && i.rd != 0 && i.rd == next.rs1 && next.rs2 == 0
    requires f == i.(opcode := FUSE12, imm2 := next.imm)
    ensures var v := Plus(s.x[i.rs1], i.imm);
            var far := Plus(s.pc, Plus(4, next.imm));
            Step(strict, f, s) ==
              Leave(State(s.x[i.rd := v], s.mem, if v != 0 then far else Plus(s.pc, 8), s.cycle + 2)) &&
            Through(strict, [i, next], s) ==
              Leave(State(s.x[i.rd := v], s.mem, if v != s.x[0] then far else Plus(s.pc, 8), s.cycle + 2))
  {
    ThroughTwo(strict, i, next, s);
    AddiStep(strict, i, s);
    Fuse12Step(strict, f, s);
    var v := Plus(s.x[i.rs1], i.imm);
    BranchNotEqualStep(strict, next, State(s.x[i.rd := v], s.mem, Plus(s.pc, 4), s.cycle + 1));
    PlusFour(s.pc);
    PlusAssoc(s.pc, 4, next.imm);
    assert s.x[i.rd := v][0] == s.x[0] && s.x[i.rd := v][i.rd] == v;
  }

  lemma Fuse12Sound(strict: bool, i: Insn, next: Insn, f: Insn, s: State)
    requires i.opcode == OPIMM(Addi) && next.opcode == BRANCH(Ne) && i.rd != 0 && i.rd == next.rs1 && next.rs2 == 0
    requires f == i.(opcode := FUSE12, imm2 := next.imm) && X(s, 0) == 0
    ensures PairSound(strict, i, next, f, s)
  {
    Fuse12Both(strict, i, next, f, s);
  }

  // ---------------------------------------------------------------- runs

  // s with the PC and cycle counter of t: the handler of a run moves both before or after its loop.
  function At(s: State, t: State): State {
    State(s.x, s.mem, t.pc, t.cycle)
  }

  ghost predicate PartSound(strict: bool, run: Opcode, i: Insn, s: State, t: State) {
    var o := Step(strict, i, s);
    o.Trap? ||
    (o.Continue? && o.s.pc == Plus(s.pc, 4) && o.s.cycle == s.cycle + 1 &&
     Part(strict, run, Entry(i), At(s, t)) == Continue(At(o.s, t)))
  }

  lemma ComputePart(strict: bool, run: Opcode, i: Insn, s: State, t: State)
    requires Member(run, i.opcode) && (run.FUSE1? || run.FUSE5? || run.FUSE7?)
    ensures PartSound(strict, run, i, s, t)
  {
    ComputeStep(strict, i, s);
  }

  lemma StorePart(strict: bool, i: Insn, s: State, t: State)
    requires i.opcode == STORE(Sw)
    ensures PartSound(strict, FUSE3, i, s, t)
  {
    StoreWordStep(strict, i, s);
  }

  lemma LoadPart(strict: bool, i: Insn, s: State, t: State)
    requires i.opcode == LOAD(Lw)
    ensures PartSound(strict, FUSE4, i, s, t)
  {
    LoadWordStep(strict, i, s);
  }

  lemma AnyPart(strict: bool, run: Opcode, i: Insn, s: State, t: State)
    requires Member(run, i.opcode)
    ensures PartSound(strict, run, i, s, t)
  {
    if run.FUSE3? { StorePart(strict, i, s, t); }
    else if run.FUSE4? { LoadPart(strict, i, s, t); }
    else { ComputePart(strict, run, i, s, t); }
  }

  // After n instructions from pc: unless they trapped, they fell through, and
  // the handler's loop reached the same registers and memory.
  ghost predicate Landed(o: Outcome, parts: Outcome, pc: Word, cycle: nat, n: nat, t: State) {
    o.Trap? ||
    (o.Continue? && o.s.pc == Wrap(pc + 4 * n) && o.s.cycle == cycle + n && parts == Continue(At(o.s, t)))
  }

  // The loop of a run's handler, against its instructions one by one.
  ghost predicate RunSound(strict: bool, run: Opcode, b: seq<Insn>, s: State, t: State) {
    Landed(Through(strict, b, s), Parts(strict, run, Entries(b), At(s, t)), s.pc, s.cycle, |b|, t)
  }

  lemma LandedMore(o: Outcome, parts: Outcome, pc: Word, cycle: nat, n: nat, t: State)
    requires Landed(o, parts, Plus(pc, 4), cycle + 1, n, t)
    ensures Landed(o, parts, pc, cycle, n + 1, t)
  {
    WrapMore(pc, n);
  }

  lemma WrapMore(pc: Word, n: nat)
    ensures Wrap(Plus(pc, 4) + 4 * n) == Wrap(pc + 4 * (n + 1))
  {
  }

  lemma EntriesCons(b: seq<Insn>)
    requires b != []
    ensures Entries(b) == [Entry(b[0])] + Entries(b[1..])
  {
  }

  lemma PartsCons(strict: bool, run: Opcode, f: Fused, fs: seq<Fused>, s: State, u: State)
    requires Part(strict, run, f, s) == Continue(u)
    ensures Parts(strict, run, [f] + fs, s) == Parts(strict, run, fs, u)
  {
    assert ([f] + fs)[0] == f && ([f] + fs)[1..] == fs;
  }

  lemma ThroughCons(strict: bool, b: seq<Insn>, s: State, u: State)
    requires b != [] && Step(strict, b[0], s) == Continue(u)
    ensures Through(strict, b, s) == Through(strict, b[1..], u)
  {
  }

  lemma RunNone(strict: bool, run: Opcode, s: State, t: State)
    ensures RunSound(strict, run, [], s, t)
  {
  }

  // Taking the first instruction off on both sides.
  lemma RunUnrolled(strict: bool, run: Opcode, b: seq<Insn>, s: State, u: State, t: State)
    requires b != [] && Step(strict, b[0], s) == Continue(u)
    requires Part(strict, run, Entry(b[0]), At(s, t)) == Continue(At(u, t))
    ensures Through(strict, b, s) == Through(strict, b[1..], u)
    ensures Parts(strict, run, Entries(b), At(s, t)) == Parts(strict, run, Entries(b[1..]), At(u, t))
  {
    EntriesCons(b);
    ThroughCons(strict, b, s, u);
    PartsCons(strict, run, Entry(b[0]), Entries(b[1..]), At(s, t), At(u, t));
  }

  lemma RunMore(strict: bool, run: Opcode, b: seq<Insn>, s: State, u: State, t: State)
    requires b != [] && Step(strict, b[0], s) == Continue(u) && u.pc == Plus(s.pc, 4) && u.cycle == s.cycle + 1
    requires Part(strict, run, Entry(b[0]), At(s, t)) == Continue(At(u, t)) && RunSound(strict, run, b[1..], u, t)
    ensures RunSound(strict, run, b, s, t)
  {
    RunUnrolled(strict, run, b, s, u, t);
    LandedMore(Through(strict, b, s), Parts(strict, run, Entries(b), At(s, t)), s.pc, s.cycle, |b| - 1, t);
  }

  lemma RunTraps(strict: bool, run: Opcode, b: seq<Insn>, s: State, t: State)
    requires b != [] && Step(strict, b[0], s).Trap?
    ensures RunSound(strict, run, b, s, t)
  {
  }

  lemma {:induction false} PartsSound(strict: bool, run: Opcode, b: seq<Insn>, s: State, t: State)
    requires forall k :: 0 <= k < |b| ==> Member(run, b[k].opcode)
    ensures RunSound(strict, run, b, s, t)
    decreases |b|
  {
    if b == [] {
      RunNone(strict, run, s, t);
    } else {
      AnyPart(strict, run, b[0], s, t);
      var o := Step(strict, b[0], s);
      if o.Continue? {
        PartsSound(strict, run, b[1..], o.s, t);
        RunMore(strict, run, b, s, o.s, t);
      } else {
        RunTraps(strict, run, b, s, t);
      }
    }
  }

  lemma MergedStep(strict: bool, run: Opcode, b: seq<Insn>, s: State)
    requires IsRun(run) && 0 < |b| <= FUSE_MAX_ENTRIES
    ensures Step(strict, Merged(run, b), s) == Advance(Parts(strict, run, Entries(b), Tick(s, |b|)), Wrap(|b| * 4))
  {
    assert Merged(run, b).fuse[..|b|] == Entries(b);
  }

  lemma WrapSum(pc: Word, n: nat)
    ensures Plus(pc, Wrap(n * 4)) == Wrap(pc + 4 * n)
  {
  }

  lemma MergedSound(strict: bool, run: Opcode, b: seq<Insn>, s: State)
    requires IsRun(run) && 0 < |b| <= FUSE_MAX_ENTRIES && forall k :: 0 <= k < |b| ==> Member(run, b[k].opcode)
    requires !Through(strict, b, s).Trap?
    ensures Step(strict, Merged(run, b), s) == Through(strict, b, s)
  {
    var t := Tick(s, |b|);
    PartsSound(strict, run, b, s, t);
    MergedStep(strict, run, b, s);
    MergedOutcome(strict, run, b, s, t);
  }

  lemma MergedOutcome(strict: bool, run: Opcode, b: seq<Insn>, s: State, t: State)
    requires t == Tick(s, |b|) && RunSound(strict, run, b, s, t) && !Through(strict, b, s).Trap?
    ensures Advance(Parts(strict, run, Entries(b), t), Wrap(|b| * 4)) == Through(strict, b, s)
  {
    WrapSum(s.pc, |b|);
    assert At(s, t) == t;
  }

  // ---------------------------------------------------------------- the pass

  lemma LuiPairSound(strict: bool, i: Insn, next: Insn, f: Insn, s: State)
    requires i.opcode == LUI && PatternLui(i, next) == Pair(f)
    ensures PairSound(strict, i, next, f, s)
  {
    if next.opcode.OP? {
      Fuse2Sound(strict, i, next, f, s);
    } else if next.opcode.OPIMM? {
      Fuse8Sound(strict, i, next, f, s);
    } else if next.opcode.LOAD? {
      Fuse9Sound(strict, i, next, f, s);
    } else {
      Fuse10Sound(strict, i, next, f, s);
    }
  }

  lemma AnyPairSound(strict: bool, i: Insn, next: Insn, f: Insn, s: State)
    requires Pattern(i, next) == Pair(f) && X(s, 0) == 0
    ensures PairSound(strict, i, next, f, s)
  {
    if i.opcode.LUI? {
      LuiPairSound(strict, i, next, f, s);
    } else if i.opcode.LOAD? {
      Fuse11Sound(strict, i, next, f, s);
    } else if next.opcode == ECALL {
      Fuse6Sound(strict, i, next, f, s);
    } else {
      Fuse12Sound(strict, i, next, f, s);
    }
  }

  // x0 holds zero before every instruction that the run reaches.
  ghost predicate ZeroAlong(strict: bool, b: seq<Insn>, s: State)
    decreases |b|
  {
    X(s, 0) == 0 &&
    (b != [] && Step(strict, b[0], s).Continue? ==> ZeroAlong(strict, b[1..], Step(strict, b[0], s).s))
  }

  lemma {:induction false} ZeroAlongRest(strict: bool, a: seq<Insn>, b: seq<Insn>, s: State)
    requires ZeroAlong(strict, a + b, s) && Through(strict, a, s).Continue?
    ensures ZeroAlong(strict, b, Through(strict, a, s).s)
    decreases |a|
  {
    if a == [] {
      assert a + b == b;
    } else {
      assert (a + b)[1..] == a[1..] + b && (a + b)[0] == a[0];
      ZeroAlongRest(strict, a[1..], b, Step(strict, a[0], s).s);
    }
  }

  ghost predicate Same(strict: bool, a: seq<Insn>, b: seq<Insn>, s: State) {
    Through(strict, a, s) == Through(strict, b, s)
  }

  // One handler for the segment a, the rest replaced by r.
  lemma Splice(strict: bool, f: Insn, a: seq<Insn>, b: seq<Insn>, r: seq<Insn>, s: State)
    requires Step(strict, f, s) == Through(strict, a, s)
    requires Through(strict, a, s).Continue? ==> Same(strict, r, b, Through(strict, a, s).s)
    ensures Same(strict, [f] + r, a + b, s)
  {
    ThroughAppend(strict, [f], r, s);
    ThroughOne(strict, f, s);
    ThroughAppend(strict, a, b, s);
  }

  lemma TurnRunSound(strict: bool, b: seq<Insn>, run: Opcode, grants: seq<bool>, s: State)
    requires b != [] && IsRun(run)
    ensures var t := TurnRun(b, run, grants);
            !Through(strict, b[..t.taken], s).Trap? ==> Step(strict, t.head, s) == Through(strict, b[..t.taken], s)
  {
    var n := TurnRun(b, run, grants).taken;
    if n == 1 {
      assert b[..1] == [b[0]];
      ThroughOne(strict, b[0], s);
    } else if !Through(strict, b[..n], s).Trap? {
      MergedSound(strict, run, b[..n], s);
    }
  }

  // The handler that a turn leaves at the head does what the instructions it stands for did.
  lemma TurnSound(strict: bool, b: seq<Insn>, grants: seq<bool>, s: State)
    requires 2 <= |b| && X(s, 0) == 0
    ensures var t := TurnOf(b, grants);
            !Through(strict, b[..t.taken], s).Trap? ==> Step(strict, t.head, s) == Through(strict, b[..t.taken], s)
  {
    var p := Pattern(b[0], b[1]);
    StartIsMember(b[0], b[1]);
    if p.Keep? {
      assert b[..1] == [b[0]];
      ThroughOne(strict, b[0], s);
    } else if p.Pair? {
      assert b[..2] == [b[0], b[1]];
      AnyPairSound(strict, b[0], b[1], p.fused, s);
    } else {
      TurnRunSound(strict, b, p.run, grants, s);
    }
  }

  /** Fusion keeps registers, memory, PC, cycle count and the way the block is left, whichever requests
      the pool grants. */
  lemma {:induction false} FusionSound(strict: bool, b: seq<Insn>, grants: seq<bool>, s: State)
    requires ZeroAlong(strict, b, s) && !Through(strict, b, s).Trap?
    ensures Same(strict, Fuse(b, grants), b, s)
    decreases |b|
  {
    if |b| >= 2 {
      var t := TurnOf(b, grants);
      var a, rest := b[..t.taken], b[t.taken..];
      assert b == a + rest;
      TurnSound(strict, b, grants, s);
      ThroughAppend(strict, a, rest, s);
      if Through(strict, a, s).Continue? {
        ZeroAlongRest(strict, a, rest, s);
        FusionSound(strict, rest, t.grants, Through(strict, a, s).s);
      }
      Splice(strict, t.head, a, rest, Fuse(rest, t.grants), s);
    }
  }

  // ---------------------------------------------------------------- when x0 stays zero

  // The instruction does not write x0 (a load to x0 or the hint C.LI x0 does).
  predicate SparesZero(i: Insn) {
    !IsFused(i.opcode) && (Computes(i.opcode) ==> Dest(i) != 0) && (Loads(i.opcode) ==> i.rd != 0)
  }

  lemma SparesZeroStep(strict: bool, i: Insn, s: State)
    requires SparesZero(i) && X(s, 0) == 0 && Step(strict, i, s).Continue?
    ensures X(Step(strict, i, s).s, 0) == 0
  {
  }

  lemma {:induction false} ZeroStays(strict: bool, b: seq<Insn>, s: State)
    requires X(s, 0) == 0 && forall k :: 0 <= k < |b| ==> SparesZero(b[k])
    ensures ZeroAlong(strict, b, s)
    decreases |b|
  {
    if b != [] && Step(strict, b[0], s).Continue? {
      SparesZeroStep(strict, b[0], s);
      ZeroStays(strict, b[1..], Step(strict, b[0], s).s);
    }
  }

  // Once x0 is not zero, li a7 + ecall fused gives another a7.
  lemma Fuse6Exactly(strict: bool, i: Insn, next: Insn, s: State)
    requires i.opcode == OPIMM(Addi) && next.opcode == ECALL && i.rd == A7 && i.rs1 == 0
    ensures Step(strict, i.(opcode := FUSE6), s) == Through(strict, [i, next], s) <==> X(s, 0) == 0
  {
    var f := i.(opcode := FUSE6);
    ThroughTwo(strict, i, next, s);
    AddiStep(strict, i, s);
    Fuse6Step(strict, f, s);
    EcallStep(strict, next, State(s.x[A7 := Plus(s.x[0], i.imm)], s.mem, Plus(s.pc, 4), s.cycle + 1));
    assert s.x[A7 := Plus(s.x[0], i.imm)][A7] == Plus(s.x[0], i.imm) && s.x[A7 := i.imm][A7] == i.imm;
  }

  // addi + bne fused goes another way once x0 makes a difference to the comparison.
  lemma Fuse12Exactly(strict: bool, i: Insn, next: Insn, s: State)
    requires i.opcode == OPIMM(Addi) && next.opcode == BRANCH(Ne) && i.rd != 0 && i.rd == next.rs1 && next.rs2 == 0
    ensures var v := Plus(X(s, i.rs1), i.imm);
            Step(strict, i.(opcode := FUSE12, imm2 := next.imm), s) == Through(strict, [i, next], s) <==>
            next.imm == 4 || X(s, 0) == 0 || (v != 0 && v != X(s, 0))
  {
    Fuse12Both(strict, i, next, i.(opcode := FUSE12, imm2 := next.imm), s);
    PlusDiffers(s.pc, next.imm);
  }

  lemma PlusDiffers(pc: Word, imm: Word)
    ensures Plus(pc, Plus(4, imm)) == Plus(pc, 8) <==> imm == 4
  {
  }

  // How many instructions a handler stands for.
  function Weight(i: Insn): nat {
    if IsRun(i.opcode) then i.imm2 else if IsFused(i.opcode) then 2 else 1
  }

  function Weights(b: seq<Insn>): nat {
    if b == [] then 0 else Weight(b[0]) + Weights(b[1..])
  }

  /** Fusion loses and invents no instruction: the handlers stand for exactly the decoded ones. */
  lemma {:induction false} FusionConserves(b: seq<Insn>, grants: seq<bool>)
    requires forall k :: 0 <= k < |b| ==> !IsFused(b[k].opcode)
    ensures Weights(Fuse(b, grants)) == |b|
    decreases |b|
  {
    if |b| >= 2 {
      var t := TurnOf(b, grants);
      StartIsMember(b[0], b[1]);
      assert Weight(t.head) == t.taken;
      FusionConserves(b[t.taken..], t.grants);
      assert Fuse(b, grants)[1..] == Fuse(b[t.taken..], t.grants);
    } else if |b| == 1 {
      assert b[1..] == [];
    }
  }
}
