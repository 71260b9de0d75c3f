/** Whole runs of the interpreter: optimised blocks, found in the block map or entered over links and branch
    history, against the decoded code executed block by block. */
module ChainedRun {
  import opened Words
  import opened BlockIr
  import opened Fusion
  import ConstOpt
  import FusionZero
  import FusionPass
  import Chaining

  // ---------------------------------------------------------------- the shape of blocks

  // Goes on to the next instruction of the block, unless it traps.
  predicate Inner(i: Insn) {
    Computes(i.opcode) || Loads(i.opcode) || Stores(i.opcode) || i.opcode.NOP? || i.opcode.C_NOP? ||
    (IsFused(i.opcode) && !i.opcode.FUSE6? && !i.opcode.FUSE12?)
  }

  // Only the last instruction ends the block, by itself or because the page ends.
  predicate Shape(b: seq<Insn>, page: bool) {
    b != [] && (forall k :: 0 <= k < |b| - 1 ==> Inner(b[k])) && (Inner(b[|b| - 1]) <==> page)
  }

  // The bytes that a handler moves the PC by.
  function Extent(i: Insn): Word {
    if IsRun(i.opcode) then Wrap(i.imm2 * 4) else if IsFused(i.opcode) then 8 else Length(i.opcode)
  }

  function Span(b: seq<Insn>): Word {
    if b == [] then 0 else Plus(Extent(b[0]), Span(b[1..]))
  }

  // How the block at pc ends.
  function BlockTail(b: seq<Insn>, pc: Word, page: bool): Chaining.Tail {
    if b == [] then Chaining.Other
    else if |b| == 1 then Chaining.TailOf(b[0], pc, page)
    else BlockTail(b[1..], Plus(pc, Extent(b[0])), page)
  }

  // What the branch at the end of the block decides.
  function BlockDecides(strict: bool, b: seq<Insn>, s: State): bool {
    if b == [] then false
    else if |b| == 1 then Chaining.Decides(b[0], s.x)
    else
      var o := Step(strict, b[0], s);
      o.Continue? && BlockDecides(strict, b[1..], o.s)
  }

  // ---------------------------------------------------------------- a block leaves by its tail

  lemma InnerTails(i: Insn, pc: Word)
    requires Inner(i)
    ensures Chaining.TailOf(i, pc, true) == Chaining.Fallthrough(Plus(pc, Extent(i)))
  {
  }

  lemma InnerGoesOn(strict: bool, i: Insn, s: State)
    requires Inner(i)
    ensures Step(strict, i, s).Continue? || Step(strict, i, s).Trap?
  {
    if IsRun(i.opcode) {
      RunGoesOn(strict, i.opcode, i.fuse[..if i.imm2 <= |i.fuse| then i.imm2 else |i.fuse|], Tick(s, i.imm2));
    } else if IsFused(i.opcode) {
      PairGoesOn(strict, i, Tick(s, 2));
    } else {
      PlainGoesOn(strict, i, Tick(s, 1));
    }
  }

  lemma PlainGoesOn(strict: bool, i: Insn, s: State)
    requires Inner(i) && !IsFused(i.opcode)
    ensures Effect(strict, i, s).Continue? || Effect(strict, i, s).Trap?
  {
  }

  lemma PairGoesOn(strict: bool, i: Insn, s: State)
    requires Inner(i) && IsFused(i.opcode) && !IsRun(i.opcode)
    ensures EffectFused(strict, i, s).Continue? || EffectFused(strict, i, s).Trap?
  {
  }

  lemma {:induction false} RunGoesOn(strict: bool, op: Opcode, fs: seq<Fused>, s: State)
    ensures Parts(strict, op, fs, s).Continue? || Parts(strict, op, fs, s).Trap?
    decreases |fs|
  {
    if fs != [] {
      PartGoesOn(strict, op, fs[0], s);
      var o := Part(strict, op, fs[0], s);
      if o.Continue? { RunGoesOn(strict, op, fs[1..], o.s); }
    }
  }

  lemma PartGoesOn(strict: bool, op: Opcode, f: Fused, s: State)
    ensures Part(strict, op, f, s).Continue? || Part(strict, op, f, s).Trap?
  {
  }

  // An instruction inside a block moves the PC by its extent.
  lemma InnerStep(strict: bool, i: Insn, s: State)
    requires Inner(i)
    ensures var o := Step(strict, i, s); o.Trap? || (o.Continue? && o.s.pc == Plus(s.pc, Extent(i)))
  {
    InnerGoesOn(strict, i, s);
    InnerTails(i, s.pc);
    Chaining.LastInsnEdge(strict, i, s, true);
  }

  // The outcome o of a block leaves it as the tail says, given the decision of its branch.
  ghost predicate LeavesBy(o: Outcome, tail: Chaining.Tail, decision: bool) {
    o.Trap? ||
    match tail
    case Direct(t) => o.Leave? && o.s.pc == t
    case Conditional(t, u) => o.Leave? && o.s.pc == if decision then t else u
    case Fallthrough(n) => o.Leave? && o.s.pc == n
    case Indirect => o.Leave?
    case Other => o.Leave? || o.CallEnv?
  }

  lemma LastLeaves(strict: bool, i: Insn, s: State, page: bool)
    requires Inner(i) <==> page
    ensures LeavesBy(Finish(Step(strict, i, s)), Chaining.TailOf(i, s.pc, page), Chaining.Decides(i, s.x))
  {
    Chaining.LastInsnEdge(strict, i, s, page);
    if page {
      InnerStep(strict, i, s);
      InnerTails(i, s.pc);
    } else {
      NotInner(strict, i, s);
    }
  }

  lemma NotInner(strict: bool, i: Insn, s: State)
    requires !Inner(i)
    ensures var o := Step(strict, i, s);
            (o.Leave? || o.CallEnv?) && (Chaining.TailOf(i, s.pc, false).Indirect? ==> o.Leave?)
    ensures !Chaining.TailOf(i, s.pc, false).Fallthrough?
  {
  }

  lemma ThroughFirst(strict: bool, b: seq<Insn>, s: State)
    requires b != []
    ensures var o := Step(strict, b[0], s);
            Through(strict, b, s) == if o.Continue? then Through(strict, b[1..], o.s) else o
  {
  }

  /** A block leaves as its tail says, for every state that it is entered in. */
  lemma {:induction false} BlockLeaves(strict: bool, b: seq<Insn>, s: State, page: bool)
    requires Shape(b, page)
    ensures LeavesBy(Run(strict, b, s), BlockTail(b, s.pc, page), BlockDecides(strict, b, s))
    decreases |b|
  {
    ThroughFirst(strict, b, s);
    if |b| == 1 {
      LastLeaves(strict, b[0], s, page);
      assert b[1..] == [];
    } else {
      InnerStep(strict, b[0], s);
      var o := Step(strict, b[0], s);
      if o.Continue? { BlockLeaves(strict, b[1..], o.s, page); }
    }
  }

  // ---------------------------------------------------------------- the optimiser keeps shape and tail

  lemma RuleInner(i: Insn, info: ConstOpt.Info)
    requires !IsFused(i.opcode)
    ensures var j := ConstOpt.Rule(i, info).insn;
            (Inner(j) <==> Inner(i)) && !IsFused(j.opcode) && Extent(j) == Extent(i)
  {
  }

  lemma {:induction false} PropagateShape(b: seq<Insn>, info: ConstOpt.Info, page: bool)
    requires Shape(b, page) && FusionZero.Unfused(b)
    ensures var c := ConstOpt.Propagate(b, info);
            Shape(c, page) && FusionZero.Unfused(c)
    decreases |b|
  {
    RuleInner(b[0], info);
    if |b| > 1 {
      PropagateShape(b[1..], ConstOpt.Rule(b[0], info).info, page);
    } else {
      assert ConstOpt.Propagate(b[1..], ConstOpt.Rule(b[0], info).info) == [];
    }
  }

  lemma PlusZero(a: Word)
    ensures Plus(a, 0) == a
  {
  }

  lemma {:induction false} TailAppend(a: seq<Insn>, b: seq<Insn>, pc: Word, page: bool)
    requires b != []
    ensures BlockTail(a + b, pc, page) == BlockTail(b, Plus(pc, Span(a)), page)
    decreases |a|
  {
    if a == [] {
      assert a + b == b;
      PlusZero(pc);
    } else {
      assert (a + b)[0] == a[0] && (a + b)[1..] == a[1..] + b;
      TailAppend(a[1..], b, Plus(pc, Extent(a[0])), page);
      PlusAssoc(pc, Extent(a[0]), Span(a[1..]));
    }
  }

  // A block of inner instructions falls through behind its last one.
  lemma {:induction false} InnerTail(b: seq<Insn>, pc: Word)
    requires b != [] && forall k :: 0 <= k < |b| ==> Inner(b[k])
    ensures BlockTail(b, pc, true) == Chaining.Fallthrough(Plus(pc, Span(b)))
    decreases |b|
  {
    InnerTails(b[0], pc);
    if |b| == 1 {
      assert b[1..] == [];
      PlusZero(Extent(b[0]));
    } else {
      InnerTail(b[1..], Plus(pc, Extent(b[0])));
      PlusAssoc(pc, Extent(b[0]), Span(b[1..]));
    }
  }

  // Members of runs are plain instructions of four bytes.
  lemma MemberPlain(run: Opcode, i: Insn)
    requires Member(run, i.opcode)
    ensures Inner(i) && !IsFused(i.opcode) && Extent(i) == 4
  {
  }

  lemma FoursMore(n: nat)
    ensures Plus(4, Wrap(4 * n)) == Wrap(4 * (n + 1))
  {
  }

  lemma {:induction false} SpanFours(b: seq<Insn>, run: Opcode)
    requires forall k :: 0 <= k < |b| ==> Member(run, b[k].opcode)
    ensures Span(b) == Wrap(4 * |b|)
    decreases |b|
  {
    if b != [] {
      MemberPlain(run, b[0]);
      SpanFours(b[1..], run);
      FoursMore(|b| - 1);
    }
  }

  // A fused pair stands for two plain instructions of four bytes.
  lemma PairPlain(i: Insn, next: Insn, f: Insn)
    requires Pattern(i, next) == Pair(f)
    ensures Inner(i) && Extent(i) == 4 && Extent(next) == 4 && Extent(f) == 8 && !IsRun(f.opcode)
    ensures Inner(f) <==> Inner(next)
  {
    if i.opcode.LUI? {
      LuiPairPlain(i, next, f);
    } else if i.opcode.OPIMM? {
      AddiPairPlain(i, next, f);
    }
  }

  lemma LuiPairPlain(i: Insn, next: Insn, f: Insn)
    requires i.opcode == LUI && PatternLui(i, next) == Pair(f)
    ensures Extent(next) == 4 && Extent(f) == 8 && !IsRun(f.opcode) && Inner(f) && Inner(next)
  {
  }

  lemma AddiPairPlain(i: Insn, next: Insn, f: Insn)
    requires i.opcode == OPIMM(Addi) && PatternAddi(i, next) == Pair(f)
    ensures Extent(next) == 4 && Extent(f) == 8 && !IsRun(f.opcode) && !Inner(f) && !Inner(next)
  {
  }

  lemma SpanTwo(i: Insn, next: Insn)
    requires Extent(i) == 4 && Extent(next) == 4
    ensures Span([i, next]) == 8
  {
    assert [i, next][1..] == [next] && [next][1..] == [];
    assert Span([next]) == 4;
  }

  lemma PairTail(i: Insn, next: Insn, f: Insn, pc: Word, page: bool)
    requires Pattern(i, next) == Pair(f) && (Inner(next) <==> page)
    ensures Chaining.TailOf(f, pc, page) == Chaining.TailOf(next, Plus(pc, 4), page)
  {
    PairPlain(i, next, f);
    PlusFour(pc);
    if page {
      InnerTails(f, pc);
      InnerTails(next, Plus(pc, 4));
    } else {
      PairEnds(i, next, f, pc);
    }
  }

  // li + ecall and addi + bne, which end a block.
  lemma PairEnds(i: Insn, next: Insn, f: Insn, pc: Word)
    requires Pattern(i, next) == Pair(f) && !Inner(next)
    ensures Chaining.TailOf(f, pc, false) == Chaining.TailOf(next, Plus(pc, 4), false)
  {
    PlusFour(pc);
    PlusAssoc(pc, 4, next.imm);
  }

  // The head of a turn moves the PC as far as the instructions it stands for.
  lemma TurnExtent(b: seq<Insn>, grants: seq<bool>)
    requires |b| >= 2 && FusionZero.Unfused(b)
    ensures var t := TurnOf(b, grants); Extent(t.head) == Span(b[..t.taken])
  {
    var t, p := TurnOf(b, grants), Pattern(b[0], b[1]);
    if t.taken == 1 {
      assert b[..1] == [b[0]] && [b[0]][1..] == [];
      PlusZero(Extent(b[0]));
      OneKept(b, grants);
    } else if p.Pair? {
      assert b[..2] == [b[0], b[1]];
      PairPlain(b[0], b[1], p.fused);
      SpanTwo(b[0], b[1]);
    } else {
      StartIsMember(b[0], b[1]);
      SpanFours(b[..t.taken], p.run);
    }
  }

  lemma OneKept(b: seq<Insn>, grants: seq<bool>)
    requires |b| >= 2 && TurnOf(b, grants).taken == 1
    ensures TurnOf(b, grants).head == b[0]
  {
  }

  // Whether the head is inner, and the tail of a block that it ends.
  lemma TurnTail(b: seq<Insn>, grants: seq<bool>, pc: Word, page: bool)
    requires |b| >= 2 && Shape(b, page) && FusionZero.Unfused(b)
    ensures var t := TurnOf(b, grants);
            if t.taken < |b| then Inner(t.head)
            else (Inner(t.head) <==> page) && Chaining.TailOf(t.head, pc, page) == BlockTail(b, pc, page)
  {
    var t, p := TurnOf(b, grants), Pattern(b[0], b[1]);
    if t.taken == 1 {
      OneKept(b, grants);
    } else if p.Pair? {
      PairPlain(b[0], b[1], p.fused);
      if |b| == 2 {
        assert b[1..] == [b[1]];
        PairTail(b[0], b[1], p.fused, pc, page);
      }
    } else {
      StartIsMember(b[0], b[1]);
      assert Inner(t.head);
      if t.taken == |b| {
        assert b[..|b|] == b;
        RunTail(b, p.run, t.head, pc, page);
      }
    }
  }

  lemma {:induction false} RunTail(b: seq<Insn>, run: Opcode, head: Insn, pc: Word, page: bool)
    requires Shape(b, page) && IsRun(run) && forall k :: 0 <= k < |b| ==> Member(run, b[k].opcode)
    requires head.opcode == run && head.imm2 == |b|
    ensures page && Chaining.TailOf(head, pc, page) == BlockTail(b, pc, page)
  {
    MembersInner(b, run);
    InnerTail(b, pc);
    SpanFours(b, run);
    InnerTails(head, pc);
  }

  lemma MembersInner(b: seq<Insn>, run: Opcode)
    requires forall k :: 0 <= k < |b| ==> Member(run, b[k].opcode)
    ensures forall k :: 0 <= k < |b| ==> Inner(b[k])
  {
    forall k | 0 <= k < |b| ensures Inner(b[k]) { MemberPlain(run, b[k]); }
  }

  lemma RestShape(b: seq<Insn>, n: nat, page: bool)
    requires Shape(b, page) && FusionZero.Unfused(b) && n < |b|
    ensures Shape(b[n..], page) && FusionZero.Unfused(b[n..])
  {
    var r := b[n..];
    forall k | 0 <= k < |r| ensures r[k] == b[n + k] {
    }
  }

  /** Fusion keeps the shape of a block and the way it ends, whichever requests the pool grants. */
  lemma {:induction false} FuseTail(b: seq<Insn>, grants: seq<bool>, pc: Word, page: bool)
    requires Shape(b, page) && FusionZero.Unfused(b)
    ensures Shape(Fuse(b, grants), page) && BlockTail(Fuse(b, grants), pc, page) == BlockTail(b, pc, page)
    decreases |b|
  {
    if |b| >= 2 {
      var t := TurnOf(b, grants);
      TurnTail(b, grants, pc, page);
      if t.taken == |b| {
        OneHead(b, grants, t, pc, page);
      } else {
        RestShape(b, t.taken, page);
        FuseTail(b[t.taken..], t.grants, Plus(pc, Extent(t.head)), page);
        TurnExtent(b, grants);
        HeadThenRest(b, t, Fuse(b[t.taken..], t.grants), pc, page);
      }
    }
  }

  lemma OneHead(b: seq<Insn>, grants: seq<bool>, t: Turn, pc: Word, page: bool)
    requires |b| >= 2 && t == TurnOf(b, grants) && t.taken == |b| && (Inner(t.head) <==> page)
    ensures Fuse(b, grants) == [t.head] && Shape([t.head], page)
    ensures BlockTail([t.head], pc, page) == Chaining.TailOf(t.head, pc, page)
  {
    assert b[t.taken..] == [];
  }

  // The head of a turn, followed by what becomes of the rest.
  lemma {:induction false} HeadThenRest(b: seq<Insn>, t: Turn, rest: seq<Insn>, pc: Word, page: bool)
    requires t.taken < |b| && Inner(t.head) && Extent(t.head) == Span(b[..t.taken]) && Shape(rest, page)
    requires var at := Plus(pc, Extent(t.head)); BlockTail(rest, at, page) == BlockTail(b[t.taken..], at, page)
    ensures Shape([t.head] + rest, page) && BlockTail([t.head] + rest, pc, page) == BlockTail(b, pc, page)
  {
    assert b == b[..t.taken] + b[t.taken..];
    TailAppend(b[..t.taken], b[t.taken..], pc, page);
    HeadTail(t.head, rest, pc, page);
  }

  lemma HeadTail(head: Insn, rest: seq<Insn>, pc: Word, page: bool)
    requires Inner(head) && Shape(rest, page)
    ensures Shape([head] + rest, page)
    ensures BlockTail([head] + rest, pc, page) == BlockTail(rest, Plus(pc, Extent(head)), page)
  {
    assert ([head] + rest)[1..] == rest;
  }

  // ---------------------------------------------------------------- the chained machine

  // What the decoder finds at a PC: the instructions of a block, and whether the page ends it.
  datatype Decoded = Decoded(insns: seq<Insn>, page: bool)

  type Image = Word -> Decoded

  // A block as block_translate builds it, from code that writes x0 neither by loads nor by hints.
  ghost predicate GoodBlock(d: Decoded, pc: Word) {
    ConstOpt.Placed(d.insns, pc) && Shape(d.insns, d.page) && FusionZero.Unfused(d.insns) &&
    forall k :: 0 <= k < |d.insns| ==> SparesZero(d.insns[k]) && ConstOpt.LeavesZero(d.insns[k])
  }

  ghost predicate GoodImage(code: Image) {
    forall pc: Word :: GoodBlock(code(pc), pc)
  }

  function Propagated(code: Image, pc: Word): seq<Insn> {
    ConstOpt.Propagate(code(pc).insns, ConstOpt.Entry())
  }

  // The list that the handlers of a block run over, given the pool's answers when it was translated.
  function Translated(code: Image, pc: Word, grants: seq<bool>): seq<Insn> {
    Fuse(Propagated(code, pc), grants)
  }

  // How the blocks end, with branches that are decided already.
  function Tails(code: Image): Chaining.Program {
    (pc: Word) => BlockTail(Propagated(code, pc), pc, code(pc).page)
  }

  // Whether the handler of an instruction enters a linked block by itself.
  predicate FollowsLinks(i: Insn) {
    !i.opcode.BRANCH? && (IsFused(i.opcode) ==> i.opcode.FUSE12?)
  }

  datatype Chained = Chained(
    links: Chaining.Machine,
    grants: map<nat, seq<bool>>,   // the pool's answers behind each block
    s: State)

  function ListOf(code: Image, y: Chained, b: nat): seq<Insn>
    requires b in y.links.blocks.start && b in y.grants
  {
    Translated(code, y.links.blocks.start[b], y.grants[b])
  }

  datatype Event =
    | Dispatch(block: nat, clear: bool, grants: seq<bool>)
    | Execute(env: State)   // what the environment leaves, should the block call it or trap

  function NewBlock(code: Image, pc: Word, e: Event): Chaining.New
    requires e.Dispatch?
  {
    var list := Translated(code, pc, e.grants);
    Chaining.New(e.block, e.clear, list != [] && FollowsLinks(list[|list| - 1]))
  }

  function DispatchStep(code: Image, y: Chained, e: Event): Chained
    requires e.Dispatch?
  {
    var links := Chaining.Step(Tails(code), y.links, Chaining.DispatchEvent(NewBlock(code, y.s.pc, e)));
    y.(links := links, grants := if e.block in y.links.blocks.start then y.grants else y.grants[e.block := e.grants])
  }

  // The running block, if there is one.
  predicate Runs(y: Chained) {
    y.links.running.Some? && y.links.running.block in y.links.blocks.start && y.links.running.block in y.grants
  }

  // The handlers of the running block, up to the one that enters the next block or returns.
  function ExecuteStep(code: Image, strict: bool, y: Chained, env: State): Chained {
    if !Runs(y) then y
    else
      var list := ListOf(code, y, y.links.running.block);
      var o := Run(strict, list, y.s);
      var t := if o.Leave? then o.s else env;
      var e :=
        if o.Trap? then Chaining.AbandonEvent(env.pc)
        else Chaining.FinishEvent(BlockDecides(strict, list, y.s), t.pc);
      y.(links := Chaining.Step(Tails(code), y.links, e), s := t)
  }

  function ChainedStep(code: Image, strict: bool, y: Chained, e: Event): Chained {
    match e
    case Dispatch(_, _, _) => DispatchStep(code, y, e)
    case Execute(env) => ExecuteStep(code, strict, y, env)
  }

  function ChainedRun(code: Image, strict: bool, s: State, es: seq<Event>): Chained {
    if es == [] then Chained(Chaining.Run(Tails(code), s.pc, []), map[], s)
    else ChainedStep(code, strict, ChainedRun(code, strict, s, es[..|es| - 1]), es[|es| - 1])
  }

  // ---------------------------------------------------------------- reference: decoded code, block by block

  function BlockStep(code: Image, strict: bool, s: State, env: State): State {
    var o := Run(strict, code(s.pc).insns, s);
    if o.Leave? then o.s else env
  }

  // One entry of envs for each block.
  function BlockRun(code: Image, strict: bool, s: State, envs: seq<State>): State {
    if envs == [] then s
    else BlockStep(code, strict, BlockRun(code, strict, s, envs[..|envs| - 1]), envs[|envs| - 1])
  }

  // The environment keeps x0 zero and no access traps.
  ghost predicate Quiet(code: Image, strict: bool, s: State, envs: seq<State>) {
    X(s, 0) == 0 && forall k :: 0 <= k < |envs| ==>
      X(envs[k], 0) == 0 && var t := BlockRun(code, strict, s, envs[..k]); !Run(strict, code(t.pc).insns, t).Trap?
  }

  // The blocks that a run executes, by what the environment leaves.
  function Executed(code: Image, strict: bool, s: State, es: seq<Event>): seq<State> {
    if es == [] then []
    else
      var before, e := es[..|es| - 1], es[|es| - 1];
      Executed(code, strict, s, before) +
      if e.Execute? && Runs(ChainedRun(code, strict, s, before)) then [e.env] else []
  }

  // ---------------------------------------------------------------- the two agree

  ghost predicate Inv(code: Image, y: Chained) {
    Chaining.Inv(Tails(code), y.links) && y.links.pc == y.s.pc &&
    forall b :: b in y.links.blocks.start ==> b in y.grants
  }

  lemma TranslatedTail(code: Image, pc: Word, grants: seq<bool>)
    requires GoodImage(code)
    ensures var list := Translated(code, pc, grants);
            Shape(list, code(pc).page) && BlockTail(list, pc, code(pc).page) == Tails(code)(pc)
  {
    assert GoodBlock(code(pc), pc);
    PropagateShape(code(pc).insns, ConstOpt.Entry(), code(pc).page);
    FuseTail(Propagated(code, pc), grants, pc, code(pc).page);
  }

  lemma TranslatedRuns(code: Image, strict: bool, s: State, grants: seq<bool>)
    requires GoodImage(code) && X(s, 0) == 0 && !Run(strict, code(s.pc).insns, s).Trap?
    ensures Run(strict, Translated(code, s.pc, grants), s) == Run(strict, code(s.pc).insns, s)
  {
    assert GoodBlock(code(s.pc), s.pc);
    ConstOpt.CleanUnlessHint(code(s.pc).insns, ConstOpt.Entry());
    FusionPass.OptimiserSound(strict, code(s.pc).insns, grants, s);
  }

  lemma DispatchKeeps(code: Image, y: Chained, e: Event)
    requires Inv(code, y) && e.Dispatch?
    ensures Inv(code, DispatchStep(code, y, e)) && DispatchStep(code, y, e).s == y.s
  {
    var n := NewBlock(code, y.s.pc, e);
    if y.links.running.None? && n.block !in y.links.blocks.start {
      Chaining.DispatchKeeps(Tails(code), y.links, n);
      DispatchStarts(Tails(code), y.links, n);
    }
  }

  lemma DispatchStarts(tails: Chaining.Program, y: Chaining.Machine, n: Chaining.New)
    ensures var z := Chaining.Dispatch(tails, y, n);
            z.pc == y.pc && z.running.Some? && forall b :: b in z.blocks.start ==> b in y.blocks.start || b == n.block
  {
    var g := Chaining.Found(y.blocks, y.pc, n);
    LinkingStarts(tails, g, Chaining.Previous(y), g.table[y.pc], y.isTaken);
    FoundStarts(y.blocks, y.pc, n);
  }

  lemma LinkingStarts(tails: Chaining.Program, g: Chaining.Blocks, prev: Chaining.Option, b: nat, isTaken: bool)
    ensures Chaining.MaybeLinked(tails, g, prev, b, isTaken).start == g.start
  {
  }

  lemma FoundStarts(g: Chaining.Blocks, pc: Word, n: Chaining.New)
    ensures forall b :: b in Chaining.Found(g, pc, n).start ==> b in g.start || b == n.block
  {
  }

  /** In the dispatch loop, a dispatch with an unused block makes a block run. */
  lemma DispatchRuns(code: Image, y: Chained, e: Event)
    requires Inv(code, y) && e.Dispatch? && y.links.running.None? && e.block !in y.links.blocks.start
    ensures Runs(DispatchStep(code, y, e))
  {
    DispatchKeeps(code, y, e);
    DispatchStarts(Tails(code), y.links, NewBlock(code, y.s.pc, e));
  }

  // The end of the running block moves pc to where its tail and the decision say.
  lemma FinishPc(tails: Chaining.Program, y: Chaining.Machine, decision: bool, target: Word)
    requires y.running.Some? && y.running.block in y.blocks.start
    ensures var z := Chaining.Finish(tails, y, decision, target);
            z.blocks.start == y.blocks.start &&
            z.pc == match tails(y.blocks.start[y.running.block])
                    case Direct(t) => t
                    case Fallthrough(n) => n
                    case Conditional(t, u) => if decision then t else u
                    case _ => target
  {
  }

  lemma {:induction false} ExecuteKeeps(code: Image, strict: bool, y: Chained, env: State)
    requires GoodImage(code) && Inv(code, y) && Runs(y) && X(y.s, 0) == 0
    requires !Run(strict, code(y.s.pc).insns, y.s).Trap?
    ensures var z := ExecuteStep(code, strict, y, env);
            Inv(code, z) && z.s == BlockStep(code, strict, y.s, env)
  {
    var b := y.links.running.block;
    var list := ListOf(code, y, b);
    assert y.links.blocks.start[b] == y.s.pc;
    TranslatedOutcome(code, strict, y.s, y.grants[b]);
    ListKeeps(code, strict, y, env, list);
  }

  lemma {:induction false} ListKeeps(code: Image, strict: bool, y: Chained, env: State, list: seq<Insn>)
    requires Inv(code, y) && Runs(y) && list == ListOf(code, y, y.links.running.block)
    requires var o := Run(strict, list, y.s);
             !o.Trap? && o == Run(strict, code(y.s.pc).insns, y.s) &&
             LeavesBy(o, Tails(code)(y.links.blocks.start[y.links.running.block]), BlockDecides(strict, list, y.s))
    ensures var z := ExecuteStep(code, strict, y, env);
            Inv(code, z) && z.s == BlockStep(code, strict, y.s, env)
  {
    var o := Run(strict, list, y.s);
    OutcomeKeeps(Tails(code), y.links, o, BlockDecides(strict, list, y.s), if o.Leave? then o.s else env);
  }

  // The list of a block means what the decoded block means, and leaves by its tail.
  lemma TranslatedOutcome(code: Image, strict: bool, s: State, grants: seq<bool>)
    requires GoodImage(code) && X(s, 0) == 0 && !Run(strict, code(s.pc).insns, s).Trap?
    ensures var list := Translated(code, s.pc, grants);
            var o := Run(strict, list, s);
            o == Run(strict, code(s.pc).insns, s) &&
            LeavesBy(o, Tails(code)(s.pc), BlockDecides(strict, list, s))
  {
    TranslatedTail(code, s.pc, grants);
    TranslatedRuns(code, strict, s, grants);
    BlockLeaves(strict, Translated(code, s.pc, grants), s, code(s.pc).page);
  }

  // A block that leaves by its tail, and the links after it.
  lemma {:induction false} OutcomeKeeps(tails: Chaining.Program, y: Chaining.Machine, o: Outcome, decision: bool,
                                        t: State)
    requires Chaining.Inv(tails, y) && y.running.Some? && y.running.block in y.blocks.start
    requires LeavesBy(o, tails(y.blocks.start[y.running.block]), decision) && !o.Trap? && (o.Leave? ==> t == o.s)
    ensures var z := Chaining.Finish(tails, y, decision, t.pc);
            Chaining.Inv(tails, z) && z.pc == t.pc && z.blocks.start == y.blocks.start
  {
    Chaining.FinishKeeps(tails, y, decision, t.pc);
    FinishPc(tails, y, decision, t.pc);
  }

  // x0 stays zero from block to block.
  lemma SparesZeroAnyStep(strict: bool, i: Insn, s: State)
    requires SparesZero(i) && X(s, 0) == 0
    ensures X(Step(strict, i, s).s, 0) == 0
  {
  }

  lemma {:induction false} ZeroThrough(strict: bool, b: seq<Insn>, s: State)
    requires X(s, 0) == 0 && forall k :: 0 <= k < |b| ==> SparesZero(b[k])
    ensures X(Through(strict, b, s).s, 0) == 0
    decreases |b|
  {
    if b != [] {
      SparesZeroAnyStep(strict, b[0], s);
      var o := Step(strict, b[0], s);
      if o.Continue? { ZeroThrough(strict, b[1..], o.s); }
    }
  }

  lemma BlockStepZero(code: Image, strict: bool, s: State, env: State)
    requires GoodImage(code) && X(s, 0) == 0 && X(env, 0) == 0
    ensures X(BlockStep(code, strict, s, env), 0) == 0
  {
    assert GoodBlock(code(s.pc), s.pc);
    ZeroThrough(strict, code(s.pc).insns, s);
  }

  lemma {:induction false} BlockRunZero(code: Image, strict: bool, s: State, envs: seq<State>)
    requires GoodImage(code) && X(s, 0) == 0 && forall k :: 0 <= k < |envs| ==> X(envs[k], 0) == 0
    ensures X(BlockRun(code, strict, s, envs), 0) == 0
    decreases |envs|
  {
    if envs != [] {
      var n := |envs| - 1;
      BlockRunZero(code, strict, s, envs[..n]);
      BlockStepZero(code, strict, BlockRun(code, strict, s, envs[..n]), envs[n]);
    }
  }

  lemma QuietBefore(code: Image, strict: bool, s: State, envs: seq<State>, env: State)
    requires Quiet(code, strict, s, envs + [env])
    ensures Quiet(code, strict, s, envs) && X(env, 0) == 0
    ensures var t := BlockRun(code, strict, s, envs); !Run(strict, code(t.pc).insns, t).Trap?
    ensures BlockRun(code, strict, s, envs + [env]) == BlockStep(code, strict, BlockRun(code, strict, s, envs), env)
  {
    var all := envs + [env];
    assert all[..|envs|] == envs && all[|envs|] == env;
    forall k | 0 <= k < |envs|
      ensures X(envs[k], 0) == 0
      ensures var t := BlockRun(code, strict, s, envs[..k]); !Run(strict, code(t.pc).insns, t).Trap?
    {
      assert all[k] == envs[k] && all[..k] == envs[..k];
    }
  }

  /** Over every run, however blocks were found and linked, whatever the pool granted and whenever the map was
      cleared, the chained interpreter over optimised blocks is in the state that the decoded code reaches by
      the same number of blocks. */
  lemma {:induction false} ChainedIsBlockwise(code: Image, strict: bool, s: State, es: seq<Event>)
    requires GoodImage(code) && Quiet(code, strict, s, Executed(code, strict, s, es))
    ensures Inv(code, ChainedRun(code, strict, s, es))
    ensures ChainedRun(code, strict, s, es).s == BlockRun(code, strict, s, Executed(code, strict, s, es))
    decreases |es|
  {
    if es != [] {
      var before, e := es[..|es| - 1], es[|es| - 1];
      var y, envs := ChainedRun(code, strict, s, before), Executed(code, strict, s, before);
      if e.Execute? && Runs(y) {
        QuietBefore(code, strict, s, envs, e.env);
        ChainedIsBlockwise(code, strict, s, before);
        BlockRunZero(code, strict, s, envs);
        ExecuteKeeps(code, strict, y, e.env);
      } else {
        assert envs + [] == envs;
        ChainedIsBlockwise(code, strict, s, before);
        if e.Dispatch? { DispatchKeeps(code, y, e); }
      }
    }
  }
}
