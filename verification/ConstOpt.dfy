/** Constant propagation over a basic block: the rules of src/rv32_constopt.c and the pass
    optimize_constant of src/emulate.c, against the interpreter's handlers. */
module ConstOpt {
  import opened Words
  import opened BlockIr
  import opened IrList

  type Flags = f: seq<bool> | |f| == 32 witness seq(32, _ => false)

  // constopt_info_t: two arrays, written independently.
  datatype Info = Info(isConst: Flags, val: Regs)

  datatype Rewrite = Rewrite(insn: Insn, info: Info)

  function Kill(info: Info, r: Reg): Info {
    info.(isConst := info.isConst[r := false])
  }

  function Learn(info: Info, r: Reg, v: Word): Info {
    info.(isConst := info.isConst[r := true], val := info.val[r := v])
  }

  // The result is known: the instruction becomes a load of the constant.
  function Become(i: Insn, info: Info, op: Opcode, rd: Reg, v: Word): Rewrite {
    Rewrite(i.(opcode := op, rd := rd, imm := v), Learn(info, rd, v))
  }

  // MULHU folds in signed 64-bit arithmetic: the product wraps, then is shifted arithmetically.
  function FoldMulhu(a: Word, b: Word): Word {
    var p := (a * b) % TWO64;
    Wrap((if p < TWO64 / 2 then p else p - TWO64) / TWO32)
  }

  // MULHSU folds the product of two int64_t, where the handler multiplies by a uint64_t.
  function FoldMulhsu(a: Word, b: Word): Word {
    High(Signed(a) * b)
  }

  // OPT_BRANCH_FUNC: a decided branch becomes a jump, past itself if it is not taken.
  function DecideBranch(i: Insn, info: Info, jump: Opcode, taken: bool, len: Word): Rewrite {
    Rewrite(i.(opcode := jump, imm := if taken then i.imm else len), info)
  }

  // The guard of a folding rule: every register the instruction reads is a known constant.
  predicate Known(i: Insn, info: Info) {
    match i.opcode
    case AUIPC => true
    case OPIMM(_) | C_SRLI | C_SRAI | C_ANDI => info.isConst[i.rs1]
    case OP(_) | C_OP(_) => info.isConst[i.rs1] && info.isConst[i.rs2]
    case C_ADDI4SPN => info.isConst[SP]
    case C_ADDI | C_ADDI16SP | C_SLLI => info.isConst[i.rd]
    case C_MV => info.isConst[i.rs2]
    case _ => false
  }

  // The folded value. Apart from MULHU and MULHSU, a rule evaluates its handler's expression on the
  // recorded constants.
  function Fold(i: Insn, info: Info): Word
    requires Computes(i.opcode)
  {
    if i.opcode == OP(Mulhu) then FoldMulhu(info.val[i.rs1], info.val[i.rs2])
    else if i.opcode == OP(Mulhsu) then FoldMulhsu(info.val[i.rs1], info.val[i.rs2])
    else Value(i, info.val, i.pc)
  }

  // These compute on their own destination, so an unknown operand is an unknown destination already.
  predicate InPlace(op: Opcode) {
    op.C_ADDI? || op.C_ADDI16SP? || op.C_SLLI? || op.C_SRLI? || op.C_SRAI? || op.C_ANDI?
  }

  function RuleCompute(i: Insn, info: Info): Rewrite
    requires Computes(i.opcode)
  {
    if i.opcode.LUI? || i.opcode.C_LUI? || i.opcode.C_LI? then Rewrite(i, Learn(info, i.rd, i.imm))
    else if Known(i, info) then Become(i, info, if Length(i.opcode) == 4 then LUI else C_LUI, Dest(i), Fold(i, info))
    else if InPlace(i.opcode) then Rewrite(i, info)
    else Rewrite(i, Kill(info, i.rd))
  }

  function RuleControl(i: Insn, info: Info): Rewrite {
    var a, b := info.val[i.rs1], info.val[i.rs2];
    var ca, cb := info.isConst[i.rs1], info.isConst[i.rs2];
    match i.opcode
    case JAL | JALR => Rewrite(i, if i.rd == 0 then info else Learn(info, i.rd, Plus(i.pc, 4)))
    case BRANCH(cond) => if ca && cb then DecideBranch(i, info, JAL, Holds(cond, a, b), 4) else Rewrite(i, info)
    case C_JAL => Rewrite(i, Learn(info, RA, Plus(i.pc, 2)))
    case C_JALR => Rewrite(i, info.(isConst := info.isConst[RA := true], val := info.val[i.rd := Plus(i.pc, 2)]))
    case C_BEQZ => if ca then DecideBranch(i, info, C_J, a == 0, 2) else Rewrite(i, info)
    case C_BNEZ => if ca then DecideBranch(i, info, C_J, a != 0, 2) else Rewrite(i, info)
    case _ => Rewrite(i, info)
  }

  // One CONSTOPT rule.
  function Rule(i: Insn, info: Info): Rewrite {
    if Computes(i.opcode) then RuleCompute(i, info)
    else if Loads(i.opcode) then Rewrite(i, Kill(info, i.rd))
    else RuleControl(i, info)
  }

  // {.is_constant[0] = true}
  function Entry(): Info {
    Info(seq(32, i => i == 0), seq(32, _ => 0))
  }

  // ---------------------------------------------------------------- soundness of one rule

  // Every register marked constant holds its constant.
  ghost predicate Agrees(info: Info, s: State) {
    forall r: Reg :: info.isConst[r] ==> s.x[r] == info.val[r]
  }

  // The rule for the 32-bit NOP keeps x0's recorded constant, but its handler zeroes x0.
  ghost predicate Stale(i: Insn, info: Info) {
    i.opcode.NOP? && info.isConst[0] && info.val[0] != 0
  }

  // As the decoder leaves it: no fused opcode, and rd of a branch is 0.
  ghost predicate Decoded(i: Insn) {
    !IsFused(i.opcode) && (i.opcode.BRANCH? ==> i.rd == 0)
  }

  // Wrapping a 64-bit product to a signed value does not change bits 63..32.
  lemma HighBits(p: int)
    requires 0 <= p < 0x1_0000_0000_0000_0000
    ensures (if p < 0x8000_0000_0000_0000 then p else p - 0x1_0000_0000_0000_0000) / 0x1_0000_0000 % 0x1_0000_0000
            == p / 0x1_0000_0000 % 0x1_0000_0000
  {
  }

  lemma FoldMulhuAgrees(a: Word, b: Word)
    ensures FoldMulhu(a, b) == EvalReg(Mulhu, a, b)
  {
    HighBits((a * b) % TWO64);
  }

  lemma WrapTimes(x: int, b: int)
    requires -0x1_0000_0000_0000_0000 <= x < 0x1_0000_0000_0000_0000
    ensures ((x % 0x1_0000_0000_0000_0000) * b) % 0x1_0000_0000_0000_0000 == (x * b) % 0x1_0000_0000_0000_0000
  {
    if x < 0 {
      Distributes(x, 0x1_0000_0000_0000_0000, b);
      SameRemainder(x * b, b);
    }
  }

  lemma Distributes(x: int, m: int, b: int)
    ensures (x + m) * b == x * b + m * b
  {
  }

  lemma SameRemainder(y: int, b: int)
    ensures (y + 0x1_0000_0000_0000_0000 * b) % 0x1_0000_0000_0000_0000 == y % 0x1_0000_0000_0000_0000
  {
  }

  lemma FoldMulhsuAgrees(a: Word, b: Word)
    ensures FoldMulhsu(a, b) == EvalReg(Mulhsu, a, b)
  {
    WrapTimes(Signed(a), b);
  }

  lemma FoldAgrees(i: Insn, info: Info, s: State)
    requires Computes(i.opcode) && Known(i, info) && Agrees(info, s) && s.pc == i.pc
    ensures Fold(i, info) == Value(i, s.x, s.pc)
  {
    FoldMulhuAgrees(info.val[i.rs1], info.val[i.rs2]);
    FoldMulhsuAgrees(info.val[i.rs1], info.val[i.rs2]);
  }

  ghost predicate Sound(strict: bool, i: Insn, info: Info, s: State) {
    Step(strict, Rule(i, info).insn, s) == Step(strict, i, s) &&
    (Step(strict, i, s).Continue? ==> Agrees(Rule(i, info).info, Step(strict, i, s).s))
  }

  lemma ComputeSound(strict: bool, i: Insn, info: Info, s: State)
    requires Computes(i.opcode) && Agrees(info, s) && s.pc == i.pc
    ensures Sound(strict, i, info, s)
  {
    var j := Rule(i, info).insn;
    if Known(i, info) { FoldAgrees(i, info, s); }
    assert Computes(j.opcode) && Dest(j) == Dest(i) && Length(j.opcode) == Length(i.opcode);
    assert Value(j, s.x, s.pc) == Value(i, s.x, s.pc);
    ComputeStep(strict, i, s);
    ComputeStep(strict, j, s);
  }

  lemma LoadSound(strict: bool, i: Insn, info: Info, s: State)
    requires Loads(i.opcode) && Agrees(info, s)
    ensures Sound(strict, i, info, s)
  {
  }

  lemma StoreKeepsRegs(strict: bool, i: Insn, s: State)
    requires Stores(i.opcode)
    ensures Step(strict, i, s).s.x == s.x
  {
  }

  lemma StoreSound(strict: bool, i: Insn, info: Info, s: State)
    requires Stores(i.opcode) && Agrees(info, s)
    ensures Sound(strict, i, info, s)
  {
    assert Rule(i, info) == Rewrite(i, info);
    StoreKeepsRegs(strict, i, s);
  }

  // Branches, jumps, system instructions and the two no-ops.
  lemma ControlSound(strict: bool, i: Insn, info: Info, s: State)
    requires !Computes(i.opcode) && !Loads(i.opcode) && !Stores(i.opcode)
    requires Decoded(i) && !Stale(i, info) && Agrees(info, s)
    ensures Sound(strict, i, info, s)
  {
  }

  // Each rule keeps the meaning of its instruction, and what it records is true afterwards.
  lemma RuleSound(strict: bool, i: Insn, info: Info, s: State)
    requires Decoded(i) && !Stale(i, info) && Agrees(info, s) && s.pc == i.pc
    ensures Sound(strict, i, info, s)
  {
    if Computes(i.opcode) { ComputeSound(strict, i, info, s); }
    else if Loads(i.opcode) { LoadSound(strict, i, info, s); }
    else if Stores(i.opcode) { StoreSound(strict, i, info, s); }
    else { ControlSound(strict, i, info, s); }
  }

  // ---------------------------------------------------------------- the pass

  // The IR after the pass, starting from info.
  function Propagate(b: seq<Insn>, info: Info): (r: seq<Insn>)
    ensures |r| == |b|
  {
    if b == [] then []
    else
      var w := Rule(b[0], info);
      [w.insn] + Propagate(b[1..], w.info)
  }

  // What the pass has recorded after b.
  function Recorded(b: seq<Insn>, info: Info): Info {
    if b == [] then info else Recorded(b[1..], Rule(b[0], info).info)
  }

  // The instructions lie one after the other from pc on.
  ghost predicate Placed(b: seq<Insn>, pc: Word) {
    b == [] || (Decoded(b[0]) && b[0].pc == pc && Placed(b[1..], Plus(pc, Length(b[0].opcode))))
  }

  // No 32-bit NOP meets a non-zero constant recorded for x0.
  ghost predicate Clean(b: seq<Insn>, info: Info) {
    b == [] || (!Stale(b[0], info) && Clean(b[1..], Rule(b[0], info).info))
  }

  lemma StepPc(strict: bool, i: Insn, s: State)
    requires !IsFused(i.opcode) && Step(strict, i, s).Continue?
    ensures Step(strict, i, s).s.pc == Plus(s.pc, Length(i.opcode))
  {
    var o := Effect(strict, i, Tick(s, 1));
    assert o.Continue? && o.s.pc == s.pc;
  }

  lemma {:induction false} ThroughSound(strict: bool, b: seq<Insn>, info: Info, s: State)
    requires Placed(b, s.pc) && Clean(b, info) && Agrees(info, s)
    ensures var o := Through(strict, b, s);
            Through(strict, Propagate(b, info), s) == o && (o.Continue? ==> Agrees(Recorded(b, info), o.s))
    decreases |b|
  {
    if b != [] {
      var w := Rule(b[0], info);
      RuleSound(strict, b[0], info, s);
      var o := Step(strict, b[0], s);
      assert Propagate(b, info)[1..] == Propagate(b[1..], w.info);
      if o.Continue? {
        StepPc(strict, b[0], s);
        ThroughSound(strict, b[1..], w.info, o.s);
      }
    }
  }

  lemma {:induction false} PropagateAppend(a: seq<Insn>, b: seq<Insn>, info: Info)
    ensures Propagate(a + b, info) == Propagate(a, info) + Propagate(b, Recorded(a, info))
    decreases |a|
  {
    if a == [] {
      assert a + b == b;
    } else {
      assert (a + b)[1..] == a[1..] + b && (a + b)[0] == a[0];
      PropagateAppend(a[1..], b, Rule(a[0], info).info);
    }
  }

  lemma {:induction false} RecordedAppend(a: seq<Insn>, b: seq<Insn>, info: Info)
    ensures Recorded(a + b, info) == Recorded(b, Recorded(a, info))
    ensures Clean(a + b, info) <==> Clean(a, info) && Clean(b, Recorded(a, info))
    decreases |a|
  {
    if a == [] {
      assert a + b == b;
    } else {
      assert (a + b)[1..] == a[1..] + b && (a + b)[0] == a[0];
      RecordedAppend(a[1..], b, Rule(a[0], info).info);
    }
  }

  lemma {:induction false} PlacedAppend(a: seq<Insn>, b: seq<Insn>, pc: Word)
    ensures Placed(a + b, pc) ==> Placed(a, pc)
    decreases |a|
  {
    if a != [] {
      assert (a + b)[1..] == a[1..] + b && (a + b)[0] == a[0];
      PlacedAppend(a[1..], b, Plus(pc, Length(a[0].opcode)));
    }
  }

  /** Constant propagation keeps the meaning of every prefix of a block entered with x0 = 0. */
  lemma ConstantPropagationSound(strict: bool, b: seq<Insn>, n: nat, s: State)
    requires n <= |b| && Placed(b, s.pc) && Clean(b, Entry()) && X(s, 0) == 0
    ensures Run(strict, Propagate(b, Entry())[..n], s) == Run(strict, b[..n], s)
  {
    assert b == b[..n] + b[n..];
    PlacedAppend(b[..n], b[n..], s.pc);
    PropagateAppend(b[..n], b[n..], Entry());
    RecordedAppend(b[..n], b[n..], Entry());
    assert Propagate(b, Entry())[..n] == Propagate(b[..n], Entry());
    ThroughSound(strict, b[..n], Entry(), s);
  }

  // The rewritten instruction sits at the same address and has the same length.
  lemma {:induction false} PropagateLayout(b: seq<Insn>, info: Info, k: nat)
    requires k < |b|
    ensures var i := Propagate(b, info)[k]; i.pc == b[k].pc && Length(i.opcode) == Length(b[k].opcode)
  {
    if k > 0 { PropagateLayout(b[1..], Rule(b[0], info).info, k - 1); }
  }

  // ---------------------------------------------------------------- exactly when the pass is sound

  function Plain(op: Opcode, rd: Reg, imm: Word, pc: Word): Insn {
    var fuse: seq<Fused> := [];
    Insn(op, rd, 0, 0, imm, 0, pc, 0, fuse)
  }

  // addi a0, x0, 0: shows what the optimiser takes x0 to be.
  function Probe(pc: Word): Insn {
    Plain(OPIMM(Addi), 10, 0, pc)
  }

  // Optimising a followed by a probe keeps their meaning.
  ghost predicate Survives(strict: bool, a: seq<Insn>, s: State) {
    var o := Through(strict, a, s);
    var probed := a + [Probe(o.s.pc)];
    o.Continue? ==> Run(strict, Propagate(probed, Entry()), s) == Run(strict, probed, s)
  }

  lemma PropagateOne(i: Insn, info: Info)
    ensures Propagate([i], info) == [Rule(i, info).insn] && Recorded([i], info) == Rule(i, info).info
    ensures Clean([i], info) <==> !Stale(i, info)
  {
    var w := Rule(i, info);
    assert [i][1..] == [];
    assert Propagate([], w.info) == [] && Recorded([], w.info) == w.info && Clean([], w.info);
  }

  lemma ThroughSnoc(strict: bool, a: seq<Insn>, i: Insn, s: State)
    ensures var o := Through(strict, a, s);
            Through(strict, a + [i], s) == if o.Continue? then Step(strict, i, o.s) else o
  {
    ThroughAppend(strict, a, [i], s);
    var o := Through(strict, a, s);
    if o.Continue? { ThroughOne(strict, i, o.s); }
  }

  // A probe after a that runs through: the optimised probe against the probe, at the state after a.
  lemma Probed(strict: bool, a: seq<Insn>, s: State, t: State)
    requires Through(strict, a, s) == Continue(t) && Through(strict, Propagate(a, Entry()), s) == Continue(t)
    ensures Survives(strict, a, s) <==>
            Finish(Step(strict, Rule(Probe(t.pc), Recorded(a, Entry())).insn, t)) ==
              Finish(Step(strict, Probe(t.pc), t))
  {
    var i, info := Probe(t.pc), Recorded(a, Entry());
    PropagateAppend(a, [i], Entry());
    RecordedAppend(a, [i], Entry());
    PropagateOne(i, info);
    ThroughSnoc(strict, a, i, s);
    ThroughSnoc(strict, Propagate(a, Entry()), Rule(i, info).insn, s);
  }

  lemma CleanSurvives(strict: bool, a: seq<Insn>, s: State)
    requires Placed(a, s.pc) && Clean(a, Entry()) && X(s, 0) == 0
    ensures Survives(strict, a, s)
  {
    ThroughSound(strict, a, Entry(), s);
    var o := Through(strict, a, s);
    if o.Continue? {
      RuleSound(strict, Probe(o.s.pc), Recorded(a, Entry()), o.s);
      Probed(strict, a, s, o.s);
    }
  }

  lemma {:induction false} FirstStale(b: seq<Insn>, info: Info) returns (k: nat)
    requires !Clean(b, info)
    ensures k < |b| && Clean(b[..k], info) && Stale(b[k], Recorded(b[..k], info))
  {
    if Stale(b[0], info) {
      k := 0;
    } else {
      var w := Rule(b[0], info);
      k := FirstStale(b[1..], w.info);
      assert b[..k + 1][1..] == b[1..][..k];
      k := k + 1;
    }
  }

  // After a stale NOP the probe is folded to a non-zero constant although x0 holds zero.
  lemma StaleShows(strict: bool, info: Info, s: State)
    requires info.isConst[0] && info.val[0] != 0 && X(s, 0) == 0
    ensures Step(strict, Rule(Probe(s.pc), info).insn, s) != Step(strict, Probe(s.pc), s)
    ensures Step(strict, Rule(Probe(s.pc), info).insn, s).Continue? && Step(strict, Probe(s.pc), s).Continue?
  {
    var i := Probe(s.pc);
    var j := Rule(i, info).insn;
    assert j.opcode == LUI && j.rd == 10 && j.imm == Plus(info.val[0], 0);
    ComputeStep(strict, i, s);
    ComputeStep(strict, j, s);
    assert Step(strict, j, s).s.x[10] == info.val[0];
    assert Step(strict, i, s).s.x[10] == 0;
  }

  lemma NopStep(strict: bool, i: Insn, s: State)
    requires i.opcode.NOP?
    ensures Step(strict, i, s) == Continue(State(s.x[0 := 0], s.mem, Plus(s.pc, 4), s.cycle + 1))
  {
  }

  lemma StaleFails(strict: bool, a: seq<Insn>, i: Insn, s: State)
    requires Placed(a, s.pc) && X(s, 0) == 0 && Through(strict, a, s).Continue?
    requires Clean(a, Entry()) && Stale(i, Recorded(a, Entry()))
    ensures !Survives(strict, a + [i], s)
  {
    var info, t := Recorded(a, Entry()), Through(strict, a, s).s;
    ThroughSound(strict, a, Entry(), s);
    PropagateAppend(a, [i], Entry());
    RecordedAppend(a, [i], Entry());
    PropagateOne(i, info);
    ThroughSnoc(strict, a, i, s);
    ThroughSnoc(strict, Propagate(a, Entry()), i, s);
    NopStep(strict, i, t);
    var u := State(t.x[0 := 0], t.mem, Plus(t.pc, 4), t.cycle + 1);
    Probed(strict, a + [i], s, u);
    StaleShows(strict, info, u);
  }

  /** On code that runs to its end, the pass is sound at every point exactly when no 32-bit NOP
      meets a non-zero constant recorded for x0. */
  lemma {:induction false} SoundExactlyWhenClean(strict: bool, b: seq<Insn>, s: State)
    requires Placed(b, s.pc) && X(s, 0) == 0 && Through(strict, b, s).Continue?
    ensures Clean(b, Entry()) <==> forall n: nat | n <= |b| :: Survives(strict, b[..n], s)
  {
    if Clean(b, Entry()) {
      forall n: nat | n <= |b| ensures Survives(strict, b[..n], s) {
        assert b == b[..n] + b[n..];
        PlacedAppend(b[..n], b[n..], s.pc);
        PropagateAppend(b[..n], b[n..], Entry());
        RecordedAppend(b[..n], b[n..], Entry());
        CleanSurvives(strict, b[..n], s);
      }
    } else {
      var k := FirstStale(b, Entry());
      assert b == b[..k] + b[k..];
      PlacedAppend(b[..k], b[k..], s.pc);
      ThroughAppend(strict, b[..k], b[k..], s);
      StaleFails(strict, b[..k], b[k], s);
      assert b[..k + 1] == b[..k] + [b[k]];
    }
  }

  // After c.li x0, 5; nop the optimiser takes x0 for 5, so that addi a0, x0, 0 gives 5 instead of 0.
  lemma HintThenNopMiscompiled(strict: bool, s: State)
    requires X(s, 0) == 0
    ensures var b := [Plain(C_LI, 0, 5, s.pc)] + [Plain(NOP, 0, 0, Plus(s.pc, 2))];
            !Survives(strict, b, s)
  {
    var i, j := Plain(C_LI, 0, 5, s.pc), Plain(NOP, 0, 0, Plus(s.pc, 2));
    PropagateOne(i, Entry());
    ThroughOne(strict, i, s);
    assert Placed([i], s.pc) by { assert [i][1..] == []; }
    StaleFails(strict, [i], j, s);
  }

  /** Blocks whose computations never target x0 (the decoder turns them into NOP, except for the hint
      C.LI x0) are clean. */
  lemma {:induction false} CleanUnlessHint(b: seq<Insn>, info: Info)
    requires info.isConst[0] ==> info.val[0] == 0
    requires forall k :: 0 <= k < |b| ==> LeavesZero(b[k])
    ensures Clean(b, info)
  {
    if b != [] {
      var w := Rule(b[0], info);
      assert LeavesZero(b[0]);
      CleanUnlessHint(b[1..], w.info);
    }
  }

  // No constant is recorded for x0.
  ghost predicate LeavesZero(i: Insn) {
    (Computes(i.opcode) ==> Dest(i) != 0) && (i.opcode.C_JALR? ==> i.rd != 0)
  }

  // ---------------------------------------------------------------- the loop over the IR list

  lemma PropagateTurn(done: seq<Insn>, b: seq<Insn>, info: Info, w: Rewrite)
    requires b != [] && w == Rule(b[0], info)
    ensures done + Propagate(b, info) == done + [w.insn] + Propagate(b[1..], w.info)
  {
  }

  // optimize_constant: each rule rewrites its IR node in place.
  method OptimizeConstant(block: Block<Insn>)
    requires block.Valid()
    modifies block.nodes
    ensures block.Valid()
    ensures block.Insns() == Propagate(old(block.Insns()), Entry())
  {
    var info := Entry();
    var i, ir: IrNode?<Insn> := 0, block.head;
    ghost var done, rem: seq<Insn>, foot := [], block.Insns(), set n | n in block.nodes;
    ghost var out := Propagate(rem, info);
    block.Begin();
    while i < block.nInsn
      invariant block.At(ir, done, rem, foot) && foot == set n | n in old(block.nodes)
      invariant done + Propagate(rem, info) == out && i == |done| && block.nInsn == |done| + |rem|
    {
      block.Peek(ir, done, rem, foot);
      var w := Rule(ir.insn, info);
      PropagateTurn(done, rem, info, w);
      block.Overwrite(ir, w.insn, done, rem, foot);
      rem := [w.insn] + rem[1..];
      block.Advance(ir, done, rem, foot);
      done, rem := done + [w.insn], rem[1..];
      info, i, ir := w.info, i + 1, ir.next;
    }
    block.End(ir, done, rem, foot);
  }
}
