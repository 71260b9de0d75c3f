/** match_pattern and its helpers as they work on the linked IR list of a block, and the two
    optimiser passes one after the other. */
module FusionPass {
  import opened BlockIr
  import opened IrList
  import opened Fusion
  import ConstOpt
  import FusionZero

  // The first n instructions of b belong to the run.
  ghost predicate Belong(run: Opcode, b: seq<Insn>, n: nat) {
    n <= |b| && forall k :: 0 <= k < n ==> Member(run, b[k].opcode)
  }

  lemma BelongMore(run: Opcode, b: seq<Insn>, n: nat)
    requires Belong(run, b, n) && n < |b| && Member(run, b[n].opcode)
    ensures Belong(run, b, n + 1)
  {
  }

  lemma RunLengthIs(b: seq<Insn>, run: Opcode, n: nat)
    requires Belong(run, b, n) && (n < |b| ==> !Member(run, b[n].opcode))
    ensures RunLength(b, run) == n
  {
    var m := RunLength(b, run);
    assert !(m < n) && !(n < m);
  }

  // The loop of count_consecutive_insn and count_consecutive_shift, from the second instruction on.
  method CountOn(block: Block<Insn>, first: IrNode?<Insn>, run: Opcode,
                 ghost done: seq<Insn>, ghost rem: seq<Insn>, ghost foot: set<IrNode<Insn>>)
    returns (count: nat, next: IrNode?<Insn>)
    requires block.Ahead(first, 1, done, rem, foot) && Belong(run, rem, 1)
    ensures block.Ahead(next, count, done, rem, foot) && Belong(run, rem, count)
    ensures next == null || !Member(run, next.insn.opcode)
  {
    count, next := 1, first;
    while next != null && Member(run, next.insn.opcode)
      invariant block.Ahead(next, count, done, rem, foot) && Belong(run, rem, count)
      decreases |rem| - count
    {
      block.LookOn(next, count, done, rem, foot);
      BelongMore(run, rem, count);
      count := count + 1;
      next := next.next;
    }
  }

  // count_consecutive_insn and count_consecutive_shift
  method CountConsecutive(block: Block<Insn>, ir: IrNode<Insn>, run: Opcode,
                          ghost done: seq<Insn>, ghost rem: seq<Insn>, ghost foot: set<IrNode<Insn>>)
    returns (count: nat)
    requires block.At(ir, done, rem, foot) && rem != [] && Member(run, rem[0].opcode)
    ensures count == RunLength(rem, run)
  {
    block.LookFrom(ir, done, rem, foot);
    block.LookOn(ir, 0, done, rem, foot);
    var next;
    count, next := CountOn(block, ir.next, run, done, rem, foot);
    if next != null {
      block.LookOn(next, count, done, rem, foot);
    } else {
      block.LookEnd(count, done, rem, foot);
    }
    RunLengthIs(rem, run, count);
  }

  // memcpy of the first count instructions from ir on.
  method CopyEntries(block: Block<Insn>, ir: IrNode<Insn>, count: nat,
                     ghost done: seq<Insn>, ghost rem: seq<Insn>, ghost foot: set<IrNode<Insn>>)
    returns (fuse: seq<Fused>)
    requires block.At(ir, done, rem, foot) && 1 <= count <= |rem|
    ensures fuse == Entries(rem[..count])
  {
    var next: IrNode?<Insn> := ir;
    fuse := [];
    block.LookFrom(ir, done, rem, foot);
    for j := 0 to count
      invariant block.Ahead(next, j, done, rem, foot) && (j < |rem| ==> next != null)
      invariant |fuse| == j && forall m :: 0 <= m < j ==> fuse[m] == Entry(rem[m])
    {
      block.LookOn(next, j, done, rem, foot);
      fuse := fuse + [Entry(next.insn)];
      next := next.next;
    }
  }

  // try_fuse_sequence
  method TryFuseSequence(block: Block<Insn>, ir: IrNode<Insn>, count: nat, run: Opcode, grants: seq<bool>,
                         ghost done: seq<Insn>, ghost rem: seq<Insn>, ghost foot: set<IrNode<Insn>>, ghost t: Turn)
    returns (rest: seq<bool>)
    requires block.At(ir, done, rem, foot) && rem != []
    requires count == RunLength(rem, run) && t == TurnRun(rem, run, grants)
    modifies block, ir
    ensures block.At(ir, done, [t.head] + rem[t.taken..], foot) && rest == t.grants
  {
    rest := grants;
    assert rem == [rem[0]] + rem[1..];
    if count <= 1 || count > FUSE_MAX_ENTRIES {
      return;
    }
    rest := if grants == [] then [] else grants[1..];
    if grants == [] || !grants[0] {
      return;
    }
    var fuse := CopyEntries(block, ir, count, done, rem, foot);
    block.Peek(ir, done, rem, foot);
    Collapse(block, ir, ir.insn.(opcode := run, imm2 := count, fuse := fuse), count, done, rem, foot);
  }

  // The body of match_pattern's loop.
  method MatchAt(block: Block<Insn>, ir: IrNode<Insn>, grants: seq<bool>,
                 ghost done: seq<Insn>, ghost rem: seq<Insn>, ghost foot: set<IrNode<Insn>>, ghost t: Turn)
    returns (rest: seq<bool>)
    requires block.At(ir, done, rem, foot) && |rem| >= 2 && t == TurnOf(rem, grants)
    modifies block, ir
    ensures block.At(ir, done, [t.head] + rem[t.taken..], foot) && rest == t.grants
  {
    rest := grants;
    assert rem == [rem[0]] + rem[1..];
    block.Peek(ir, done, rem, foot);
    StartIsMember(ir.insn, ir.next.insn);
    match Pattern(ir.insn, ir.next.insn)
    case Keep =>
    case Pair(f) => Collapse(block, ir, f, 2, done, rem, foot);
    case Start(run) =>
      var count := CountConsecutive(block, ir, run, done, rem, foot);
      rest := TryFuseSequence(block, ir, count, run, grants, done, rem, foot, t);
  }

  // One whole turn: the body, then on to the next node.
  method TakeTurn(block: Block<Insn>, ir: IrNode<Insn>, grants: seq<bool>,
                  ghost done: seq<Insn>, ghost rem: seq<Insn>, ghost foot: set<IrNode<Insn>>, ghost t: Turn)
    returns (rest: seq<bool>, next: IrNode?<Insn>)
    requires block.At(ir, done, rem, foot) && |rem| >= 2 && t == TurnOf(rem, grants)
    modifies block, ir
    ensures block.At(next, done + [t.head], rem[t.taken..], foot) && rest == t.grants
    ensures |done + [t.head]| == |done| + 1 && |rem[t.taken..]| < |rem|
    ensures block.nInsn == |done + [t.head]| + |rem[t.taken..]|
  {
    rest := MatchAt(block, ir, grants, done, rem, foot, t);
    next := ir.next;
    ghost var rem' := [t.head] + rem[t.taken..];
    assert rem'[1..] == rem[t.taken..];
    block.Advance(ir, done, rem', foot);
    block.End(next, done + [t.head], rem[t.taken..], foot);
  }

  // What the pass has done so far, followed by what it makes of the rest, is its result.
  ghost predicate Towards(out: seq<Insn>, done: seq<Insn>, rem: seq<Insn>, rest: seq<bool>) {
    done + Fuse(rem, rest) == out
  }

  lemma TowardsTurn(out: seq<Insn>, done: seq<Insn>, rem: seq<Insn>, rest: seq<bool>, t: Turn)
    requires Towards(out, done, rem, rest) && |rem| >= 2 && t == TurnOf(rem, rest)
    ensures Towards(out, done + [t.head], rem[t.taken..], t.grants)
  {
    assert Fuse(rem, rest) == [t.head] + Fuse(rem[t.taken..], t.grants);
  }

  lemma TowardsEnd(out: seq<Insn>, done: seq<Insn>, rem: seq<Insn>, rest: seq<bool>)
    requires Towards(out, done, rem, rest) && |rem| < 2
    ensures done + rem == out
  {
  }

  // The loop of match_pattern.
  method MatchLoop(block: Block<Insn>, grants: seq<bool>, ghost b: seq<Insn>, ghost foot: set<IrNode<Insn>>)
    requires block.At(block.head, [], b, foot) && b != []
    modifies block, foot
    ensures block.Valid() && block.Insns() == Fuse(b, grants) && forall n :: n in block.nodes ==> n in foot
  {
    ghost var done, rem, out := [], b, Fuse(b, grants);
    var i, rest, ir: IrNode?<Insn> := 0, grants, block.head;
    assert Towards(out, done, rem, rest);
    block.End(ir, done, rem, foot);
    while i < block.nInsn - 1
      invariant block.At(ir, done, rem, foot) && Towards(out, done, rem, rest)
      invariant i == |done| && block.nInsn == |done| + |rem|
      decreases |rem|
    {
      ghost var t := TurnOf(rem, rest);
      TowardsTurn(out, done, rem, rest, t);
      block.Peek(ir, done, rem, foot);
      rest, ir := TakeTurn(block, ir, rest, done, rem, foot, t);
      i, done, rem := i + 1, done + [t.head], rem[t.taken..];
    }
    TowardsEnd(out, done, rem, rest);
    block.End(ir, done, rem, foot);
  }

  // match_pattern
  method MatchPattern(block: Block<Insn>, grants: seq<bool>)
    requires block.Valid()
    modifies block, block.nodes
    ensures block.Valid()
    ensures block.Insns() == Fuse(old(block.Insns()), grants)
  {
    block.Begin();
    MatchLoop(block, grants, block.Insns(), set n | n in block.nodes);
  }

  // ---------------------------------------------------------------- both passes

  lemma RuleSparesZero(i: Insn, info: ConstOpt.Info)
    requires SparesZero(i)
    ensures SparesZero(ConstOpt.Rule(i, info).insn)
  {
  }

  lemma {:induction false} PropagateSparesZero(b: seq<Insn>, info: ConstOpt.Info)
    requires forall k :: 0 <= k < |b| ==> SparesZero(b[k])
    ensures forall k :: 0 <= k < |b| ==> SparesZero(ConstOpt.Propagate(b, info)[k])
  {
    if b != [] {
      RuleSparesZero(b[0], info);
      PropagateSparesZero(b[1..], ConstOpt.Rule(b[0], info).info);
    }
  }

  /** A translated block means what its decoded instructions mean. */
  lemma OptimiserSound(strict: bool, b: seq<Insn>, grants: seq<bool>, s: State)
    requires ConstOpt.Placed(b, s.pc) && ConstOpt.Clean(b, ConstOpt.Entry()) && X(s, 0) == 0
    requires (forall k :: 0 <= k < |b| ==> SparesZero(b[k])) && !Run(strict, b, s).Trap?
    ensures Run(strict, Fuse(ConstOpt.Propagate(b, ConstOpt.Entry()), grants), s) == Run(strict, b, s)
  {
    var c := ConstOpt.Propagate(b, ConstOpt.Entry());
    ConstOpt.ThroughSound(strict, b, ConstOpt.Entry(), s);
    PropagateSparesZero(b, ConstOpt.Entry());
    ZeroStays(strict, c, s);
    FusionSound(strict, c, grants, s);
  }

  // What both passes need of a block entered in state s.
  ghost predicate Sane(strict: bool, b: seq<Insn>, s: State) {
    ConstOpt.Placed(b, s.pc) && ConstOpt.Clean(b, ConstOpt.Entry()) && X(s, 0) == 0 &&
    (forall k :: 0 <= k < |b| ==> SparesZero(b[k])) && !Run(strict, b, s).Trap?
  }

  // The optimiser part of block_find_or_translate.
  method Optimise(block: Block<Insn>, grants: seq<bool>)
    requires block.Valid()
    modifies block, block.nodes
    ensures block.Valid()
    ensures block.Insns() == Fuse(ConstOpt.Propagate(old(block.Insns()), ConstOpt.Entry()), grants)
    ensures forall strict, s :: Sane(strict, old(block.Insns()), s) ==>
              Run(strict, block.Insns(), s) == Run(strict, old(block.Insns()), s)
    ensures forall strict, s :: FusionZero.Enters(strict, old(block.Insns()), s) ==>
              (Through(strict, block.Insns(), s) == Through(strict, old(block.Insns()), s) <==>
               !FusionZero.Misses(strict, ConstOpt.Propagate(old(block.Insns()), ConstOpt.Entry()), grants, s))
  {
    ghost var b := block.Insns();
    ConstOpt.OptimizeConstant(block);
    MatchPattern(block, grants);
    forall strict, s | Sane(strict, b, s) ensures Run(strict, block.Insns(), s) == Run(strict, b, s) {
      OptimiserSound(strict, b, grants, s);
    }
    forall strict, s | FusionZero.Enters(strict, b, s)
      ensures Through(strict, block.Insns(), s) == Through(strict, b, s) <==>
              !FusionZero.Misses(strict, ConstOpt.Propagate(b, ConstOpt.Entry()), grants, s)
    {
      FusionZero.OptimiserExactly(strict, b, grants, s);
    }
  }
}
