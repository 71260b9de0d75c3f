/** What the two optimising passes do not miss: constant propagation folds whatever has known operands and
    forgets nothing without need, and match_pattern fuses exactly the pairs of its table. */
module OptimiserPrecise {
  import opened Words
  import opened BlockIr
  import ConstOpt
  import RegAlloc
  import Fusion

  // ---------------------------------------------------------------- constant propagation

  // Every register that the instruction reads is recorded as a constant.
  ghost predicate OperandsKnown(i: Insn, info: ConstOpt.Info) {
    forall r: Reg :: r in RegAlloc.Uses(i) ==> info.isConst[r]
  }

  // Loads the constant v into r.
  predicate LoadsConstant(i: Insn, r: Reg, v: Word) {
    (i.opcode.LUI? || i.opcode.C_LUI? || i.opcode.C_LI?) && i.rd == r && i.imm == v
  }

  /** A computing instruction whose operands are known becomes a load of the value that it would compute, and
      the value is recorded. */
  lemma FoldsWhenKnown(i: Insn, info: ConstOpt.Info, s: State)
    requires Computes(i.opcode) && OperandsKnown(i, info) && ConstOpt.Agrees(info, s) && s.pc == i.pc
    ensures var w, v := ConstOpt.Rule(i, info), Value(i, s.x, s.pc);
            LoadsConstant(w.insn, Dest(i), v) && w.info.isConst[Dest(i)] && w.info.val[Dest(i)] == v
  {
    if ConstOpt.Known(i, info) { ConstOpt.FoldAgrees(i, info, s); }
  }

  predicate Branches(op: Opcode) {
    op.BRANCH? || op.C_BEQZ? || op.C_BNEZ?
  }

  /** A branch whose operands are known becomes a jump without link to the place where it goes. */
  lemma DecidesWhenKnown(strict: bool, i: Insn, info: ConstOpt.Info, s: State)
    requires Branches(i.opcode) && ConstOpt.Decoded(i) && OperandsKnown(i, info) && ConstOpt.Agrees(info, s)
    ensures var j := ConstOpt.Rule(i, info).insn;
            ((j.opcode.JAL? && j.rd == 0) || j.opcode.C_J?) && Plus(s.pc, j.imm) == Step(strict, i, s).s.pc
  {
  }

  // The registers whose record an instruction may change.
  function Changes(i: Insn): set<Reg> {
    if Computes(i.opcode) then {Dest(i)}
    else if Loads(i.opcode) || i.opcode.JAL? || i.opcode.JALR? then {i.rd}
    else if i.opcode.C_JAL? then {RA}
    else if i.opcode.C_JALR? then {RA, i.rd}
    else {}
  }

  /** A rule forgets, and learns, nothing about the registers that its instruction does not write. */
  lemma RemembersOthers(i: Insn, info: ConstOpt.Info, r: Reg)
    requires r !in Changes(i)
    ensures var w := ConstOpt.Rule(i, info).info; w.isConst[r] == info.isConst[r] && w.val[r] == info.val[r]
  {
  }

  lemma RewrittenAt(b: seq<Insn>, info: ConstOpt.Info, k: nat)
    requires k < |b|
    ensures ConstOpt.Propagate(b, info)[k] == ConstOpt.Rule(b[k], ConstOpt.Recorded(b[..k], info)).insn
  {
    assert b == b[..k] + b[k..];
    ConstOpt.PropagateAppend(b[..k], b[k..], info);
  }

  /** In a block, an instruction reached by the run whose operands are recorded constants there has become a load
      of the very value that the decoded instruction computes in the run. */
  lemma KnownIsFolded(strict: bool, b: seq<Insn>, k: nat, s: State)
    requires ConstOpt.Placed(b, s.pc) && ConstOpt.Clean(b, ConstOpt.Entry()) && X(s, 0) == 0
    requires k < |b| && Computes(b[k].opcode) && Through(strict, b[..k], s).Continue?
    requires OperandsKnown(b[k], ConstOpt.Recorded(b[..k], ConstOpt.Entry()))
    ensures var t := Through(strict, b[..k], s).s;
            LoadsConstant(ConstOpt.Propagate(b, ConstOpt.Entry())[k], Dest(b[k]), Value(b[k], t.x, t.pc))
  {
    var info, t := ConstOpt.Recorded(b[..k], ConstOpt.Entry()), Through(strict, b[..k], s).s;
    assert b == b[..k] + b[k..];
    ConstOpt.PlacedAppend(b[..k], b[k..], s.pc);
    ConstOpt.RecordedAppend(b[..k], b[k..], ConstOpt.Entry());
    ConstOpt.ThroughSound(strict, b[..k], ConstOpt.Entry(), s);
    RewrittenAt(b, ConstOpt.Entry(), k);
    PcAt(strict, b, k, s);
    FoldsWhenKnown(b[k], info, t);
  }

  // The run reaches an instruction at the instruction's own address.
  lemma {:induction false} PcAt(strict: bool, b: seq<Insn>, k: nat, s: State)
    requires ConstOpt.Placed(b, s.pc) && k < |b| && Through(strict, b[..k], s).Continue?
    ensures Through(strict, b[..k], s).s.pc == b[k].pc
    decreases k
  {
    if k > 0 {
      assert b[..k][0] == b[0] && b[..k][1..] == b[1..][..k - 1];
      ConstOpt.StepPc(strict, b[0], s);
      PcAt(strict, b[1..], k - 1, Step(strict, b[0], s).s);
    }
  }

  // ---------------------------------------------------------------- fusion

  // The pairs that are fused, and into what; NOP stands for none.
  function FusedInto(i: Insn, next: Insn): Opcode {
    if i.opcode == LUI && next.opcode == OP(Add) && i.rd in {next.rs1, next.rs2} then FUSE2
    else if i.opcode == LUI && next.opcode == OPIMM(Addi) && i.rd == next.rs1 == next.rd != 0 then FUSE8
    else if i.opcode == LUI && next.opcode == LOAD(Lw) && i.rd == next.rs1 != 0 then FUSE9
    else if i.opcode == LUI && next.opcode == STORE(Sw) && i.rd == next.rs1 != 0 && next.rs2 != i.rd then FUSE10
    else if i.opcode == LOAD(Lw) && next.opcode == OPIMM(Addi) && next.rd == next.rs1 == i.rs1 != i.rd then FUSE11
    else if i.opcode == OPIMM(Addi) && i.rd == A7 && i.rs1 == 0 && next.opcode == ECALL then FUSE6
    else if i.opcode == OPIMM(Addi) && i.rd == next.rs1 != 0 && next.opcode == BRANCH(Ne) && next.rs2 == 0 then FUSE12
    else NOP
  }

  /** match_pattern fuses exactly the pairs of this table. */
  lemma PairsExactly(i: Insn, next: Insn)
    ensures var m := Fusion.Pattern(i, next);
            if FusedInto(i, next).NOP? then !m.Pair? else m.Pair? && m.fused.opcode == FusedInto(i, next)
  {
  }

  // The instruction is what starts a run, and the kind of run.
  predicate StartsRun(i: Insn, next: Insn, run: Opcode) {
    FusedInto(i, next).NOP? && Fusion.Member(run, i.opcode) && (run.FUSE1? ==> next.opcode == LUI)
  }

  /** A run of two to sixteen instructions of one kind, of which the first is not fused with the second as a pair,
      becomes one instruction that stands for them all, if the pool grants its entries. */
  lemma {:induction false} RunsAreFused(b: seq<Insn>, run: Opcode, n: nat, grants: seq<bool>)
    requires 2 <= n <= 16 && n <= |b| && grants != [] && grants[0] && IsRun(run) && StartsRun(b[0], b[1], run)
    requires (forall k :: 0 <= k < n ==> Fusion.Member(run, b[k].opcode)) &&
             (n < |b| ==> !Fusion.Member(run, b[n].opcode))
    ensures Fusion.Fuse(b, grants) == [Fusion.Merged(run, b[..n])] + Fusion.Fuse(b[n..], grants[1..])
  {
    TurnIs(b, run, n, grants);
  }

  lemma {:induction false} TurnIs(b: seq<Insn>, run: Opcode, n: nat, grants: seq<bool>)
    requires 2 <= n <= 16 && n <= |b| && grants != [] && grants[0] && IsRun(run) && StartsRun(b[0], b[1], run)
    requires (forall k :: 0 <= k < n ==> Fusion.Member(run, b[k].opcode)) &&
             (n < |b| ==> !Fusion.Member(run, b[n].opcode))
    ensures Fusion.TurnOf(b, grants) == Fusion.Turn(Fusion.Merged(run, b[..n]), n, grants[1..])
  {
    StartIs(b[0], b[1], run);
    LengthIs(b, run, n);
  }

  lemma StartIs(i: Insn, next: Insn, run: Opcode)
    requires IsRun(run) && StartsRun(i, next, run)
    ensures Fusion.Pattern(i, next) == Fusion.Start(run)
  {
    PairsExactly(i, next);
  }

  lemma {:induction false} LengthIs(b: seq<Insn>, run: Opcode, n: nat)
    requires n <= |b| && (forall k :: 0 <= k < n ==> Fusion.Member(run, b[k].opcode))
    requires n < |b| ==> !Fusion.Member(run, b[n].opcode)
    ensures Fusion.RunLength(b, run) == n
  {
  }
}
