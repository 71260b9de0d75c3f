/** Fusion and register x0: two of the fused handlers take x0 for zero, while the interpreter lets a load
    or the hint C.LI write it. */
module FusionZero {
  import opened Words
  import opened BlockIr
  import opened Fusion
  import ConstOpt

  // ---------------------------------------------------------------- exactly when fusion keeps the meaning

  // The handler f, in a state where it does something else than the two instructions it stands for: both
  // handlers that look at x0 end the block.
  ghost predicate Errs(f: Insn, s: State) {
    match f.opcode
    case FUSE6 => X(s, 0) != 0
    case FUSE12 =>
      var v := Plus(X(s, f.rs1), f.imm);
      f.imm2 != 4 && X(s, 0) != 0 && (v == 0 || v == X(s, 0))
    case _ => false
  }

  // The run of the fused list reaches such a handler.
  ghost predicate Misses(strict: bool, b: seq<Insn>, grants: seq<bool>, s: State)
    decreases |b|
  {
    |b| >= 2 &&
    var t := TurnOf(b, grants);
    var o := Through(strict, b[..t.taken], s);
    Errs(t.head, s) || (o.Continue? && Misses(strict, b[t.taken..], t.grants, o.s))
  }

  // Decoded code: nothing is fused yet.
  predicate Unfused(b: seq<Insn>) {
    forall k :: 0 <= k < |b| ==> !IsFused(b[k].opcode)
  }

  // The handler of a pair is right exactly where it does not err.
  ghost predicate PairExact(strict: bool, i: Insn, next: Insn, f: Insn, s: State) {
    var o := Through(strict, [i, next], s);
    o.Trap? || (Step(strict, f, s) == o <==> !Errs(f, s))
  }

  lemma SoundIsExact(strict: bool, i: Insn, next: Insn, f: Insn, s: State)
    requires PairSound(strict, i, next, f, s) && !f.opcode.FUSE6? && !f.opcode.FUSE12?
    ensures PairExact(strict, i, next, f, s)
  {
  }

  lemma LuiPairExactly(strict: bool, i: Insn, next: Insn, f: Insn, s: State)
    requires i.opcode == LUI && PatternLui(i, next) == Pair(f)
    ensures PairExact(strict, i, next, f, s)
  {
    LuiPairSound(strict, i, next, f, s);
    SoundIsExact(strict, i, next, f, s);
  }

  lemma Fuse6PairExactly(strict: bool, i: Insn, next: Insn, f: Insn, s: State)
    requires i.opcode == OPIMM(Addi) && next.opcode == ECALL && i.rd == A7 && i.rs1 == 0 && f == i.(opcode := FUSE6)
    ensures PairExact(strict, i, next, f, s)
  {
    Fuse6Exactly(strict, i, next, s);
    assert Errs(f, s) <==> X(s, 0) != 0;
  }

  lemma Fuse12PairExactly(strict: bool, i: Insn, next: Insn, f: Insn, s: State)
    requires i.opcode == OPIMM(Addi) && next.opcode == BRANCH(Ne) && i.rd != 0 && i.rd == next.rs1 && next.rs2 == 0
    requires f == i.(opcode := FUSE12, imm2 := next.imm)
    ensures PairExact(strict, i, next, f, s)
  {
    Fuse12Exactly(strict, i, next, s);
  }

  lemma AddiPairExactly(strict: bool, i: Insn, next: Insn, f: Insn, s: State)
    requires i.opcode == OPIMM(Addi) && PatternAddi(i, next) == Pair(f)
    ensures PairExact(strict, i, next, f, s)
  {
    if next.opcode == ECALL {
      Fuse6PairExactly(strict, i, next, f, s);
    } else {
      Fuse12PairExactly(strict, i, next, f, s);
    }
  }

  lemma LoadPairExactly(strict: bool, i: Insn, next: Insn, f: Insn, s: State)
    requires i.opcode == LOAD(Lw) && Pattern(i, next) == Pair(f)
    ensures PairExact(strict, i, next, f, s)
  {
    Fuse11Sound(strict, i, next, f, s);
    SoundIsExact(strict, i, next, f, s);
  }

  lemma AnyPairExactly(strict: bool, i: Insn, next: Insn, f: Insn, s: State)
    requires Pattern(i, next) == Pair(f)
    ensures PairExact(strict, i, next, f, s)
  {
    if i.opcode.LUI? {
      LuiPairExactly(strict, i, next, f, s);
    } else if i.opcode.LOAD? {
      LoadPairExactly(strict, i, next, f, s);
    } else {
      AddiPairExactly(strict, i, next, f, s);
    }
  }

  // A handler that errs leaves the block, as its two instructions do.
  lemma ErringLeaves(strict: bool, i: Insn, next: Insn, f: Insn, s: State)
    requires Pattern(i, next) == Pair(f) && Errs(f, s)
    ensures !Step(strict, f, s).Continue? && !Through(strict, [i, next], s).Continue?
  {
    if next.opcode == ECALL {
      Fuse6Step(strict, f, s);
      ThroughTwo(strict, i, next, s);
      AddiStep(strict, i, s);
      EcallStep(strict, next, Step(strict, i, s).s);
    } else {
      Fuse12Both(strict, i, next, f, s);
    }
  }

  // One turn: the head does what the instructions it stands for do, unless it errs, and then it ends
  // the block with something else.
  lemma TurnExactly(strict: bool, b: seq<Insn>, grants: seq<bool>, s: State)
    requires 2 <= |b| && Unfused(b) && !Through(strict, b[..TurnOf(b, grants).taken], s).Trap?
    ensures var t := TurnOf(b, grants);
            var o := Through(strict, b[..t.taken], s);
            (Step(strict, t.head, s) == o <==> !Errs(t.head, s)) &&
            (Errs(t.head, s) ==> !Step(strict, t.head, s).Continue? && !o.Continue?)
  {
    var p := Pattern(b[0], b[1]);
    StartIsMember(b[0], b[1]);
    if p.Keep? {
      assert b[..1] == [b[0]];
      ThroughOne(strict, b[0], s);
    } else if p.Pair? {
      assert b[..2] == [b[0], b[1]];
      AnyPairExactly(strict, b[0], b[1], p.fused, s);
      if Errs(p.fused, s) { ErringLeaves(strict, b[0], b[1], p.fused, s); }
    } else {
      TurnRunSound(strict, b, p.run, grants, s);
    }
  }

  // Two lists that begin with handler f and with the segment a.
  lemma SpliceExactly(strict: bool, f: Insn, a: seq<Insn>, b: seq<Insn>, r: seq<Insn>, s: State)
    ensures var o := Through(strict, a, s);
            Step(strict, f, s) == o ==>
            (Same(strict, [f] + r, a + b, s) <==> (o.Continue? ==> Same(strict, r, b, o.s)))
    ensures !Step(strict, f, s).Continue? && !Through(strict, a, s).Continue? ==>
            (Same(strict, [f] + r, a + b, s) <==> Step(strict, f, s) == Through(strict, a, s))
  {
    ThroughAppend(strict, [f], r, s);
    ThroughOne(strict, f, s);
    ThroughAppend(strict, a, b, s);
  }

  /** Fusion keeps the meaning of a block, whichever requests the pool grants, exactly when the run does
      not reach an erring handler. */
  lemma {:induction false} FusionExactly(strict: bool, b: seq<Insn>, grants: seq<bool>, s: State)
    requires Unfused(b) && !Through(strict, b, s).Trap?
    ensures Same(strict, Fuse(b, grants), b, s) <==> !Misses(strict, b, grants, s)
    decreases |b|
  {
    if |b| >= 2 {
      var t := TurnOf(b, grants);
      var a, rest := b[..t.taken], b[t.taken..];
      var o := Through(strict, a, s);
      assert b == a + rest;
      ThroughAppend(strict, a, rest, s);
      TurnExactly(strict, b, grants, s);
      if o.Continue? {
        FusionExactly(strict, rest, t.grants, o.s);
      }
      SpliceExactly(strict, t.head, a, rest, Fuse(rest, t.grants), s);
    }
  }

  // ---------------------------------------------------------------- behind constant propagation

  // The decoder lets no computing instruction write x0, except the hint C.LI.
  predicate WritesLate(i: Insn) {
    !IsFused(i.opcode) && (Computes(i.opcode) && !i.opcode.C_LI? ==> Dest(i) != 0)
  }

  predicate LoadsZero(i: Insn) {
    Loads(i.opcode) && i.rd == 0
  }

  lemma RuleKeepsZeroKnown(i: Insn, info: ConstOpt.Info)
    requires WritesLate(i) && !LoadsZero(i) && info.isConst[0]
    ensures ConstOpt.Rule(i, info).info.isConst[0]
  {
  }

  lemma {:induction false} ZeroKnown(a: seq<Insn>, info: ConstOpt.Info)
    requires info.isConst[0] && forall k :: 0 <= k < |a| ==> WritesLate(a[k]) && !LoadsZero(a[k])
    ensures ConstOpt.Recorded(a, info).isConst[0]
    decreases |a|
  {
    if a != [] {
      RuleKeepsZeroKnown(a[0], info);
      ZeroKnown(a[1..], ConstOpt.Rule(a[0], info).info);
    }
  }

  lemma {:induction false} PropagateAt(b: seq<Insn>, info: ConstOpt.Info, k: nat)
    requires k < |b|
    ensures ConstOpt.Propagate(b, info)[k] == ConstOpt.Rule(b[k], ConstOpt.Recorded(b[..k], info)).insn
    decreases |b|
  {
    if k == 0 {
      assert b[..0] == [];
    } else {
      assert b[..k][1..] == b[1..][..k - 1] && b[..k][0] == b[0];
      PropagateAt(b[1..], ConstOpt.Rule(b[0], info).info, k - 1);
    }
  }

  // An addition to x0 that is not folded stands where x0 is not known.
  lemma UnfoldedAddi(i: Insn, info: ConstOpt.Info, j: Insn)
    requires WritesLate(i) && j == ConstOpt.Rule(i, info).insn && j.opcode == OPIMM(Addi) && j.rs1 == 0
    ensures !info.isConst[0]
  {
  }

  // match_pattern fuses the two to li a7 + ecall.
  predicate FusesCall(i: Insn, next: Insn) {
    Pattern(i, next).Pair? && Pattern(i, next).fused.opcode == FUSE6
  }

  lemma Fuse6Means(i: Insn, next: Insn)
    requires FusesCall(i, next)
    ensures i.opcode == OPIMM(Addi) && i.rs1 == 0
  {
  }

  // Somewhere in a, x0 is loaded.
  ghost predicate ZeroLoaded(a: seq<Insn>) {
    exists j :: 0 <= j < |a| && LoadsZero(a[j])
  }

  predicate AllWriteLate(b: seq<Insn>) {
    forall j :: 0 <= j < |b| ==> WritesLate(b[j])
  }

  /** After constant propagation, li a7 + ecall is fused only behind a load to x0. */
  lemma {:induction false} Fuse6BehindLoad(b: seq<Insn>, k: nat)
    requires AllWriteLate(b) && k + 1 < |b|
    requires var c := ConstOpt.Propagate(b, ConstOpt.Entry()); FusesCall(c[k], c[k + 1])
    ensures ZeroLoaded(b[..k])
  {
    var c := ConstOpt.Propagate(b, ConstOpt.Entry());
    Fuse6Means(c[k], c[k + 1]);
    AddiBehindLoad(b, k);
  }

  lemma {:induction false} AddiBehindLoad(b: seq<Insn>, k: nat)
    requires AllWriteLate(b) && k < |b|
    requires var i := ConstOpt.Propagate(b, ConstOpt.Entry())[k]; i.opcode == OPIMM(Addi) && i.rs1 == 0
    ensures ZeroLoaded(b[..k])
  {
    PropagateAt(b, ConstOpt.Entry(), k);
    var c, info := ConstOpt.Propagate(b, ConstOpt.Entry()), ConstOpt.Recorded(b[..k], ConstOpt.Entry());
    UnfoldedAddi(b[k], info, c[k]);
    UnknownBehindLoad(b[..k], info);
  }

  lemma UnknownBehindLoad(a: seq<Insn>, info: ConstOpt.Info)
    requires AllWriteLate(a) && info == ConstOpt.Recorded(a, ConstOpt.Entry()) && !info.isConst[0]
    ensures ZeroLoaded(a)
  {
    if !ZeroLoaded(a) { ZeroKnown(a, ConstOpt.Entry()); }
  }

  lemma {:induction false} PropagateUnfused(b: seq<Insn>, info: ConstOpt.Info)
    requires Unfused(b)
    ensures Unfused(ConstOpt.Propagate(b, info))
    decreases |b|
  {
    if b != [] { PropagateUnfused(b[1..], ConstOpt.Rule(b[0], info).info); }
  }

  // What both passes need of a block entered in state s; loads to x0 and hints are allowed.
  ghost predicate Enters(strict: bool, b: seq<Insn>, s: State) {
    ConstOpt.Placed(b, s.pc) && ConstOpt.Clean(b, ConstOpt.Entry()) && X(s, 0) == 0 && Unfused(b) &&
    !Through(strict, b, s).Trap?
  }

  /** Both passes keep the meaning of a block exactly when the run reaches no erring handler. */
  lemma OptimiserExactly(strict: bool, b: seq<Insn>, grants: seq<bool>, s: State)
    requires Enters(strict, b, s)
    ensures var c := ConstOpt.Propagate(b, ConstOpt.Entry());
            Through(strict, Fuse(c, grants), s) == Through(strict, b, s) <==> !Misses(strict, c, grants, s)
  {
    var c := ConstOpt.Propagate(b, ConstOpt.Entry());
    ConstOpt.ThroughSound(strict, b, ConstOpt.Entry(), s);
    PropagateUnfused(b, ConstOpt.Entry());
    FusionExactly(strict, c, grants, s);
  }

  // ---------------------------------------------------------------- a failing block

  // lw x0, 0(x5); addi a7, x0, 1; ecall
  function LoadThenCall(pc: Word): seq<Insn> {
    [Insn(LOAD(Lw), 0, 5, 0, 0, 0, pc, 0, []), Insn(OPIMM(Addi), A7, 0, 0, 1, 0, Plus(pc, 4), 0, []),
     Insn(ECALL, 0, 0, 0, 0, 0, Plus(Plus(pc, 4), 4), 0, [])]
  }

  lemma LoadThenCallRules(pc: Word)
    ensures var b, e := LoadThenCall(pc), ConstOpt.Entry();
            var w0 := ConstOpt.Rule(b[0], e);
            var w1 := ConstOpt.Rule(b[1], w0.info);
            w0.insn == b[0] && w1.insn == b[1] && ConstOpt.Rule(b[2], w1.info).insn == b[2]
  {
  }

  lemma PropagateThree(i: Insn, j: Insn, k: Insn, info: ConstOpt.Info)
    ensures var w0 := ConstOpt.Rule(i, info);
            var w1 := ConstOpt.Rule(j, w0.info);
            ConstOpt.Propagate([i, j, k], info) == [w0.insn, w1.insn, ConstOpt.Rule(k, w1.info).insn]
    ensures !i.opcode.NOP? && !j.opcode.NOP? && !k.opcode.NOP? ==> ConstOpt.Clean([i, j, k], info)
  {
    var info1 := ConstOpt.Rule(i, info).info;
    assert [i, j, k][1..] == [j, k] && [j, k][1..] == [k];
    ConstOpt.PropagateOne(k, ConstOpt.Rule(j, info1).info);
    assert ConstOpt.Clean([j, k], info1) || j.opcode.NOP? || k.opcode.NOP?;
  }

  lemma PlacedThree(i: Insn, j: Insn, k: Insn)
    requires ConstOpt.Decoded(i) && ConstOpt.Decoded(j) && ConstOpt.Decoded(k)
    requires j.pc == Plus(i.pc, Length(i.opcode)) && k.pc == Plus(j.pc, Length(j.opcode))
    ensures ConstOpt.Placed([i, j, k], i.pc)
  {
    assert [i, j, k][1..] == [j, k] && [j, k][1..] == [k] && [k][1..] == [];
    assert ConstOpt.Placed([k], k.pc);
    assert ConstOpt.Placed([j, k], j.pc);
  }

  lemma LoadThenCallStays(pc: Word)
    ensures var b := LoadThenCall(pc);
            ConstOpt.Propagate(b, ConstOpt.Entry()) == b && ConstOpt.Clean(b, ConstOpt.Entry()) &&
            ConstOpt.Placed(b, pc) && Unfused(b)
  {
    var b := LoadThenCall(pc);
    LoadThenCallRules(pc);
    PropagateThree(b[0], b[1], b[2], ConstOpt.Entry());
    PlacedThree(b[0], b[1], b[2]);
    assert b == [b[0], b[1], b[2]];
  }

  /** With a non-zero word under x5, the optimised block calls the environment with another a7. */
  lemma LoadToZeroMiscompiled(strict: bool, grants: seq<bool>, s: State)
    requires X(s, 0) == 0 && !Misaligned(strict, Plus(X(s, 5), 0), 4) && ReadWord(s.mem, Plus(X(s, 5), 0)) != 0
    ensures var b := LoadThenCall(s.pc);
            Enters(strict, b, s) &&
            Through(strict, Fuse(ConstOpt.Propagate(b, ConstOpt.Entry()), grants), s) != Through(strict, b, s)
  {
    var b := LoadThenCall(s.pc);
    LoadThenCallStays(s.pc);
    LoadThenCallMisses(strict, grants, s);
    OptimiserExactly(strict, b, grants, s);
  }

  // The pass leaves the load and fuses the other two.
  lemma LoadThenCallTurns(pc: Word, grants: seq<bool>)
    ensures var b := LoadThenCall(pc);
            TurnOf(b, grants) == Turn(b[0], 1, grants) &&
            TurnOf([b[1], b[2]], grants) == Turn(b[1].(opcode := FUSE6), 2, grants)
  {
    var b := LoadThenCall(pc);
    assert RunLength(b[1..], FUSE4) == 0;
    assert Pattern(b[0], b[1]) == Start(FUSE4);
    assert Pattern(b[1], b[2]) == Pair(b[1].(opcode := FUSE6));
  }

  lemma CallRuns(strict: bool, i: Insn, j: Insn, s: State)
    requires i.opcode == OPIMM(Addi) && j.opcode == ECALL
    ensures Through(strict, [i, j], s).CallEnv?
  {
    ThroughTwo(strict, i, j, s);
    AddiStep(strict, i, s);
    EcallStep(strict, j, Step(strict, i, s).s);
  }

  lemma LoadRuns(strict: bool, i: Insn, s: State)
    requires i.opcode == LOAD(Lw) && i.rd == 0 && !Misaligned(strict, Plus(X(s, i.rs1), i.imm), 4)
    ensures var o := Through(strict, [i], s); o.Continue? && X(o.s, 0) == ReadWord(s.mem, Plus(X(s, i.rs1), i.imm))
  {
    ThroughOne(strict, i, s);
    LoadWordStep(strict, i, s);
  }

  lemma LoadThenCallMisses(strict: bool, grants: seq<bool>, s: State)
    requires !Misaligned(strict, Plus(X(s, 5), 0), 4) && ReadWord(s.mem, Plus(X(s, 5), 0)) != 0
    ensures var b := LoadThenCall(s.pc); Misses(strict, b, grants, s) && Through(strict, b, s).CallEnv?
  {
    var b := LoadThenCall(s.pc);
    var a, rest := [b[0]], [b[1], b[2]];
    LoadRuns(strict, b[0], s);
    CallRuns(strict, b[1], b[2], Through(strict, a, s).s);
    ThroughAppend(strict, a, rest, s);
    assert b == a + rest && b[..1] == a && b[1..] == rest;
    LoadThenCallTurns(s.pc, grants);
    MissesNow(strict, rest, grants, Through(strict, a, s).s);
    MissesLater(strict, b, grants, s);
  }

  lemma MissesNow(strict: bool, b: seq<Insn>, grants: seq<bool>, s: State)
    requires |b| >= 2 && Errs(TurnOf(b, grants).head, s)
    ensures Misses(strict, b, grants, s)
  {
  }

  lemma MissesLater(strict: bool, b: seq<Insn>, grants: seq<bool>, s: State)
    requires |b| >= 2
    requires var t := TurnOf(b, grants);
             var o := Through(strict, b[..t.taken], s);
             o.Continue? && Misses(strict, b[t.taken..], t.grants, o.s)
    ensures Misses(strict, b, grants, s)
  {
  }
}
