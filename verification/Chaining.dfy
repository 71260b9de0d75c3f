/** Block chaining in the interpreter (src/emulate.c, src/rv32_template.c): links from the last
    instruction of a block to the next block, and a branch history table for indirect jumps, let one
    block enter the next without the dispatch loop of rv_step. */
module Chaining {
  import opened Words
  import opened BlockIr

  const HISTORY_SIZE := 16

  // How a block ends.
  datatype Tail =
    | Direct(target: Word)                      // jal, c.j, c.jal
    | Conditional(taken: Word, untaken: Word)   // branches, fused addi + bne
    | Fallthrough(next: Word)                   // the block ends at a page boundary
    | Indirect                                  // jalr, c.jr, c.jalr
    | Other                                     // ecall, ebreak, mret, fence, csrrw, ...

  // The code does not change: the block at a PC always ends in the same way.
  type Program = Word -> Tail

  // An entry of a branch history table.
  datatype History = NoHistory | History(pc: Word, block: nat)

  datatype Option = None | Some(block: nat)

  // The blocks of the block map, with their links.
  datatype Blocks = Blocks(
    table: map<Word, nat>,               // start PC to block
    start: map<nat, Word>,               // start PC of every block in the map
    follows: map<nat, bool>,             // whether its last handler enters a linked block by itself
    taken: map<nat, nat>,                // ir_tail->branch_taken, where not NULL
    untaken: map<nat, nat>,              // ir_tail->branch_untaken, where not NULL
    history: map<(nat, nat), History>)   // branch_table of a block, by slot

  datatype Machine = Machine(
    blocks: Blocks,
    prev: Option,
    lastPc: Word,
    isTaken: bool,
    pc: Word,
    running: Option)                     // the block being executed, None in the dispatch loop

  // ---------------------------------------------------------------- the dispatch loop

  function Get(m: map<Word, nat>, pc: Word): Option {
    if pc in m then Some(m[pc]) else None
  }

  // The block that is taken for the previous one.
  function Previous(y: Machine): Option {
    if y.prev.Some? && y.prev.block in y.blocks.start && y.blocks.start[y.prev.block] != y.lastPc then
      Get(y.blocks.table, y.lastPc)
    else y.prev
  }

  // block_map_clear frees every block, with its links and history.
  const NO_BLOCKS := Blocks(map[], map[], map[], map[], map[], map[])

  // What block_find_or_translate makes of a PC that is not in the map: the new block, whether the map is
  // cleared first because it is full, and whether the last handler of the block follows links. The 32-bit
  // branches and the fused instructions other than addi + bne do not, and what is fused depends on the pool.
  datatype New = New(block: nat, clear: bool, follows: bool)

  function Added(g: Blocks, pc: Word, block: nat, follows: bool): Blocks {
    g.(table := g.table[pc := block], start := g.start[block := pc], follows := g.follows[block := follows])
  }

  function Found(g: Blocks, pc: Word, n: New): Blocks {
    if pc in g.table then g else Added(if n.clear then NO_BLOCKS else g, pc, n.block, n.follows)
  }

  function Link(m: map<nat, nat>, p: nat, b: nat): map<nat, nat> {
    if p in m then m else m[p := b]
  }

  // The new block is linked from the previous one, by how that ends. Some of the instructions under
  // Other are linked like branches, others not at all; none of them follows a link.
  function Linked(code: Program, g: Blocks, p: nat, b: nat, isTaken: bool): Blocks
    requires p in g.start
  {
    match code(g.start[p])
    case Fallthrough(_) | Direct(_) => g.(taken := Link(g.taken, p, b))
    case Indirect => g
    case Conditional(_, _) | Other =>
      if isTaken then g.(taken := Link(g.taken, p, b)) else g.(untaken := Link(g.untaken, p, b))
  }

  function MaybeLinked(code: Program, g: Blocks, prev: Option, b: nat, isTaken: bool): Blocks {
    if prev.Some? && prev.block in g.start then Linked(code, g, prev.block, b, isTaken) else g
  }

  // One turn of rv_step's loop up to the first instruction of the block. A clear leaves no previous block.
  function Dispatch(code: Program, y: Machine, n: New): Machine {
    var g := Found(y.blocks, y.pc, n);
    var b := g.table[y.pc];
    Machine(MaybeLinked(code, g, Previous(y), b, y.isTaken), Some(b), y.pc, y.isTaken, y.pc, Some(b))
  }

  // ---------------------------------------------------------------- the end of a block

  predicate Follows(y: Machine, b: nat) {
    b in y.blocks.follows && y.blocks.follows[b]
  }

  // The handler enters a linked block, or goes back to the dispatch loop.
  function Enter(y: Machine, links: map<nat, nat>, b: nat, follows: bool): Machine {
    if follows && b in links then y.(lastPc := y.pc, running := Some(links[b])) else y.(running := None)
  }

  // LOOKUP_OR_UPDATE_BRANCH_HISTORY_TABLE: last_pc is not updated.
  function Indirectly(y: Machine, b: nat): Machine {
    var g, slot := y.blocks, (b, y.pc / 4 % HISTORY_SIZE);
    if slot in g.history && g.history[slot].History? && g.history[slot].pc == y.pc then
      y.(running := Some(g.history[slot].block))
    else if y.pc in g.table then
      y.(blocks := g.(history := g.history[slot := History(y.pc, g.table[y.pc])]), running := Some(g.table[y.pc]))
    else y.(running := None)
  }

  // Executes the running block to its end: decision is what a branch decides, target where an indirect jump
  // or the environment goes.
  function Finish(code: Program, y: Machine, decision: bool, target: Word): Machine {
    if y.running.None? || y.running.block !in y.blocks.start then y
    else
      var b := y.running.block;
      match code(y.blocks.start[b])
      case Direct(t) => Enter(y.(pc := t), y.blocks.taken, b, true)
      case Fallthrough(n) => Enter(y.(pc := n), y.blocks.taken, b, Follows(y, b))
      case Conditional(t, u) =>
        if decision then Enter(y.(pc := t, isTaken := true), y.blocks.taken, b, Follows(y, b))
        else Enter(y.(pc := u, isTaken := false), y.blocks.untaken, b, Follows(y, b))
      case Indirect => Indirectly(y.(pc := target), b)
      case Other => y.(pc := target, running := None)
  }

  // A handler returns false, anywhere in the running block: a misaligned access was trapped.
  function Abandon(y: Machine, target: Word): Machine {
    if y.running.None? then y else y.(pc := target, prev := None, running := None)
  }

  datatype Event = DispatchEvent(n: New) | FinishEvent(decision: bool, target: Word) | AbandonEvent(target: Word)

  function Step(code: Program, y: Machine, e: Event): Machine {
    match e
    case DispatchEvent(n) => if y.running.None? && n.block !in y.blocks.start then Dispatch(code, y, n) else y
    case FinishEvent(decision, target) => Finish(code, y, decision, target)
    case AbandonEvent(target) => Abandon(y, target)
  }

  function Run(code: Program, pc: Word, es: seq<Event>): Machine {
    if es == [] then Machine(NO_BLOCKS, None, 0, false, pc, None)
    else Step(code, Run(code, pc, es[..|es| - 1]), es[|es| - 1])
  }

  // ---------------------------------------------------------------- the invariant

  // The block map and the blocks it owns.
  ghost predicate MapOk(g: Blocks) {
    (forall pc :: pc in g.table ==> g.table[pc] in g.start && g.start[g.table[pc]] == pc) &&
    (forall b :: b in g.start ==> g.start[b] in g.table && g.table[g.start[b]] == b)
  }

  // Where a link over the taken edge of such a tail must lead.
  predicate TakenTo(tail: Tail, pc: Word) {
    match tail
    case Direct(t) => pc == t
    case Fallthrough(n) => pc == n
    case Conditional(t, _) => pc == t
    case _ => true
  }

  predicate UntakenTo(tail: Tail, pc: Word) {
    tail.Conditional? ==> pc == tail.untaken
  }

  // A taken link leads to the block at the successor of its edge.
  ghost predicate TakenOk(code: Program, g: Blocks, b: nat)
    requires b in g.taken
  {
    b in g.start && g.taken[b] in g.start && TakenTo(code(g.start[b]), g.start[g.taken[b]])
  }

  ghost predicate UntakenOk(code: Program, g: Blocks, b: nat)
    requires b in g.untaken
  {
    b in g.start && g.untaken[b] in g.start && UntakenTo(code(g.start[b]), g.start[g.untaken[b]])
  }

  ghost predicate HistoryOk(g: Blocks, slot: (nat, nat))
    requires slot in g.history
  {
    var h := g.history[slot];
    slot.0 in g.start && (h.History? ==> h.block in g.start && g.start[h.block] == h.pc)
  }

  // The block map, the links and the history.
  ghost predicate LinksOk(code: Program, g: Blocks) {
    && MapOk(g)
    && (forall b :: b in g.taken ==> TakenOk(code, g, b))
    && (forall b :: b in g.untaken ==> UntakenOk(code, g, b))
    && (forall slot :: slot in g.history ==> HistoryOk(g, slot))
  }

  // pc is where the block at last_pc goes, given what its branch decided.
  ghost predicate EdgeOk(code: Program, lastPc: Word, isTaken: bool, pc: Word) {
    match code(lastPc)
    case Direct(t) => pc == t
    case Fallthrough(n) => pc == n
    case Conditional(t, u) => pc == if isTaken then t else u
    case _ => true
  }

  // The block being executed starts at pc; last_pc is its start, or is stale after an indirect jump.
  ghost predicate Position(code: Program, y: Machine) {
    match y.running
    case Some(b) =>
      b in y.blocks.start && y.blocks.start[b] == y.pc && (y.lastPc == y.pc || code(y.lastPc).Indirect?)
    case None => y.prev.Some? ==> EdgeOk(code, y.lastPc, y.isTaken, y.pc)
  }

  ghost predicate Inv(code: Program, y: Machine) {
    LinksOk(code, y.blocks) && (y.prev.Some? ==> y.prev.block in y.blocks.start) && Position(code, y)
  }

  // The branch history of a block remembers the block at pc.
  lemma HistoryKeeps(code: Program, g: Blocks, slot: (nat, nat), pc: Word)
    requires LinksOk(code, g) && slot.0 in g.start && pc in g.table
    ensures LinksOk(code, g.(history := g.history[slot := History(pc, g.table[pc])]))
  {
    var k := g.(history := g.history[slot := History(pc, g.table[pc])]);
    forall x | x in k.taken ensures TakenOk(code, k, x) { assert TakenOk(code, g, x); }
    forall x | x in k.untaken ensures UntakenOk(code, k, x) { assert UntakenOk(code, g, x); }
    forall x | x in k.history ensures HistoryOk(k, x) {
      if x != slot { assert HistoryOk(g, x); }
    }
  }

  // An indirect jump enters the block at its target, and remembers it.
  lemma IndirectKeeps(code: Program, y: Machine, b: nat)
    requires LinksOk(code, y.blocks) && b in y.blocks.start && code(y.lastPc).Indirect?
    requires y.prev.Some? ==> y.prev.block in y.blocks.start
    ensures Inv(code, Indirectly(y, b))
  {
    var g, slot := y.blocks, (b, y.pc / 4 % HISTORY_SIZE);
    if slot in g.history { assert HistoryOk(g, slot); }
    if y.pc in g.table { HistoryKeeps(code, g, slot, y.pc); }
  }

  // A handler follows a link to the block at pc, or leaves pc and last_pc for the dispatch loop.
  lemma EnterKeeps(code: Program, y: Machine, links: map<nat, nat>, b: nat, follows: bool)
    requires LinksOk(code, y.blocks) && (y.prev.Some? ==> y.prev.block in y.blocks.start)
    requires EdgeOk(code, y.lastPc, y.isTaken, y.pc)
    requires b in links ==> links[b] in y.blocks.start && y.blocks.start[links[b]] == y.pc
    ensures Inv(code, Enter(y, links, b, follows))
  {
  }

  lemma FinishKeeps(code: Program, y: Machine, decision: bool, target: Word)
    requires Inv(code, y)
    ensures Inv(code, Finish(code, y, decision, target))
  {
    if y.running.Some? && y.running.block in y.blocks.start {
      var g, b := y.blocks, y.running.block;
      if b in g.taken { assert TakenOk(code, g, b); }
      if b in g.untaken { assert UntakenOk(code, g, b); }
      match code(g.start[b])
      case Direct(t) => EnterKeeps(code, y.(pc := t), g.taken, b, true);
      case Fallthrough(n) => EnterKeeps(code, y.(pc := n), g.taken, b, Follows(y, b));
      case Conditional(t, u) =>
        if decision {
          EnterKeeps(code, y.(pc := t, isTaken := true), g.taken, b, Follows(y, b));
        } else {
          EnterKeeps(code, y.(pc := u, isTaken := false), g.untaken, b, Follows(y, b));
        }
      case Indirect => IndirectKeeps(code, y.(pc := target), b);
      case Other =>
    }
  }

  // A block joins the map.
  lemma AddKeeps(code: Program, g: Blocks, pc: Word, block: nat, follows: bool)
    requires LinksOk(code, g) && block !in g.start && pc !in g.table
    ensures LinksOk(code, Added(g, pc, block, follows))
  {
    var k := Added(g, pc, block, follows);
    forall b | b in k.taken ensures TakenOk(code, k, b) { assert TakenOk(code, g, b); }
    forall b | b in k.untaken ensures UntakenOk(code, k, b) { assert UntakenOk(code, g, b); }
    forall slot | slot in k.history ensures HistoryOk(k, slot) { assert HistoryOk(g, slot); }
    forall b | b in k.start ensures k.start[b] in k.table && k.table[k.start[b]] == b {
      if b != block { assert g.start[b] in g.table; }
    }
  }

  lemma FoundKeeps(code: Program, g: Blocks, pc: Word, n: New)
    requires LinksOk(code, g) && n.block !in g.start
    ensures var k := Found(g, pc, n); LinksOk(code, k) && pc in k.table
  {
    if pc !in g.table {
      AddKeeps(code, if n.clear then NO_BLOCKS else g, pc, n.block, n.follows);
    }
  }

  lemma TakenLinked(code: Program, g: Blocks, p: nat, b: nat)
    requires LinksOk(code, g) && p in g.start && b in g.start && TakenTo(code(g.start[p]), g.start[b])
    ensures LinksOk(code, g.(taken := Link(g.taken, p, b)))
  {
    var k := g.(taken := Link(g.taken, p, b));
    forall x | x in k.taken ensures TakenOk(code, k, x) {
      if x in g.taken { assert TakenOk(code, g, x); }
    }
    forall x | x in k.untaken ensures UntakenOk(code, k, x) { assert UntakenOk(code, g, x); }
    forall slot | slot in k.history ensures HistoryOk(k, slot) { assert HistoryOk(g, slot); }
  }

  lemma UntakenLinked(code: Program, g: Blocks, p: nat, b: nat)
    requires LinksOk(code, g) && p in g.start && b in g.start && UntakenTo(code(g.start[p]), g.start[b])
    ensures LinksOk(code, g.(untaken := Link(g.untaken, p, b)))
  {
    var k := g.(untaken := Link(g.untaken, p, b));
    forall x | x in k.taken ensures TakenOk(code, k, x) { assert TakenOk(code, g, x); }
    forall x | x in k.untaken ensures UntakenOk(code, k, x) {
      if x in g.untaken { assert UntakenOk(code, g, x); }
    }
    forall slot | slot in k.history ensures HistoryOk(k, slot) { assert HistoryOk(g, slot); }
  }

  // The previous block is the one at last_pc, so that its edge leads to pc.
  lemma LinkedKeeps(code: Program, g: Blocks, p: nat, b: nat, isTaken: bool)
    requires LinksOk(code, g) && p in g.start && b in g.start && EdgeOk(code, g.start[p], isTaken, g.start[b])
    ensures LinksOk(code, Linked(code, g, p, b, isTaken))
  {
    match code(g.start[p])
    case Fallthrough(_) => TakenLinked(code, g, p, b);
    case Direct(_) => TakenLinked(code, g, p, b);
    case Indirect =>
    case Conditional(_, _) => if isTaken { TakenLinked(code, g, p, b); } else { UntakenLinked(code, g, p, b); }
    case Other => if isTaken { TakenLinked(code, g, p, b); } else { UntakenLinked(code, g, p, b); }
  }

  lemma PreviousIsLast(code: Program, y: Machine)
    requires LinksOk(code, y.blocks) && (y.prev.Some? ==> y.prev.block in y.blocks.start)
    ensures var p := Previous(y); p.Some? ==> p.block in y.blocks.start && y.blocks.start[p.block] == y.lastPc
    ensures Previous(y).Some? ==> y.prev.Some?
  {
  }

  // A block found or added leaves the start of the previous block as it was, unless the map was cleared.
  lemma FoundPrevious(g: Blocks, pc: Word, n: New, p: nat)
    requires n.block !in g.start && p in g.start
    ensures var k := Found(g, pc, n); p in k.start ==> k.start[p] == g.start[p]
  {
  }

  lemma DispatchKeeps(code: Program, y: Machine, n: New)
    requires Inv(code, y) && y.running.None? && n.block !in y.blocks.start
    ensures Inv(code, Dispatch(code, y, n))
  {
    PreviousIsLast(code, y);
    FoundKeeps(code, y.blocks, y.pc, n);
    var g, p := Found(y.blocks, y.pc, n), Previous(y);
    if p.Some? && p.block in g.start {
      FoundPrevious(y.blocks, y.pc, n, p.block);
      LinkedKeeps(code, g, p.block, g.table[y.pc], y.isTaken);
    }
  }

  lemma {:induction false} RunKeeps(code: Program, pc: Word, es: seq<Event>)
    ensures Inv(code, Run(code, pc, es))
  {
    if es != [] {
      RunKeeps(code, pc, es[..|es| - 1]);
      var y := Run(code, pc, es[..|es| - 1]);
      match es[|es| - 1]
      case DispatchEvent(n) => if y.running.None? && n.block !in y.blocks.start { DispatchKeeps(code, y, n); }
      case FinishEvent(decision, target) => FinishKeeps(code, y, decision, target);
      case AbandonEvent(_) =>
    }
  }

  /** However control reached it, the block being executed is the block at the architectural PC. */
  lemma RunsTheRightBlock(code: Program, pc: Word, es: seq<Event>)
    ensures var y := Run(code, pc, es);
            y.running.Some? ==> y.running.block in y.blocks.start && y.blocks.start[y.running.block] == y.pc &&
                                Get(y.blocks.table, y.pc) == y.running
  {
    RunKeeps(code, pc, es);
  }

  /** Every link and every history entry names the block at its edge's successor PC. */
  lemma LinksNameSuccessors(code: Program, pc: Word, es: seq<Event>, b: nat)
    ensures var g := Run(code, pc, es).blocks;
            && (b in g.taken ==> TakenOk(code, g, b))
            && (b in g.untaken ==> UntakenOk(code, g, b))
            && (forall slot :: slot in g.history ==> HistoryOk(g, slot))
  {
    RunKeeps(code, pc, es);
  }

  // ---------------------------------------------------------------- links are made, kept and followed

  predicate Linkable(tail: Tail) {
    tail.Direct? || tail.Fallthrough? || tail.Conditional?
  }

  // The block has a link for the edge that it leaves by.
  predicate HasLink(g: Blocks, tail: Tail, b: nat, isTaken: bool) {
    Linkable(tail) && if tail.Conditional? && !isTaken then b in g.untaken else b in g.taken
  }

  predicate NoClear(e: Event) {
    e.DispatchEvent? ==> !e.n.clear
  }

  lemma LinkIsMade(code: Program, y: Machine, n: New)
    requires Inv(code, y) && y.running.None? && n.block !in y.blocks.start && !n.clear
    requires Previous(y).Some? && Linkable(code(y.lastPc))
    ensures var g := Dispatch(code, y, n).blocks;
            HasLink(g, code(y.lastPc), Previous(y).block, y.isTaken) && Previous(y).block in g.start &&
            g.start[Previous(y).block] == y.lastPc
  {
    PreviousIsLast(code, y);
    FoundPrevious(y.blocks, y.pc, n, Previous(y).block);
  }

  // Block b keeps its start and its links.
  ghost predicate Stays(g: Blocks, k: Blocks, b: nat) {
    (b in g.taken ==> b in k.taken) && (b in g.untaken ==> b in k.untaken) &&
    (b in g.start ==> b in k.start && k.start[b] == g.start[b])
  }

  lemma LinkedStays(code: Program, g: Blocks, prev: Option, c: nat, isTaken: bool, b: nat)
    ensures Stays(g, MaybeLinked(code, g, prev, c, isTaken), b)
  {
  }

  lemma FoundStays(g: Blocks, pc: Word, n: New, b: nat)
    requires !n.clear && n.block !in g.start
    ensures Stays(g, Found(g, pc, n), b)
  {
  }

  lemma FinishStays(code: Program, y: Machine, decision: bool, target: Word, b: nat)
    ensures Stays(y.blocks, Finish(code, y, decision, target).blocks, b)
  {
  }

  lemma StepStays(code: Program, y: Machine, e: Event, b: nat)
    requires NoClear(e)
    ensures Stays(y.blocks, Step(code, y, e).blocks, b)
  {
    match e
    case DispatchEvent(n) =>
      if y.running.None? && n.block !in y.blocks.start {
        var g := Found(y.blocks, y.pc, n);
        FoundStays(y.blocks, y.pc, n, b);
        LinkedStays(code, g, Previous(y), g.table[y.pc], y.isTaken, b);
      }
    case FinishEvent(decision, target) => FinishStays(code, y, decision, target, b);
    case AbandonEvent(_) =>
  }

  // Block b starts at pc and has the link for the edge.
  ghost predicate LinkedAt(g: Blocks, tail: Tail, b: nat, t: bool, pc: Word) {
    HasLink(g, tail, b, t) && b in g.start && g.start[b] == pc
  }

  lemma LinkStays(code: Program, y: Machine, e: Event, tail: Tail, b: nat, t: bool, start: Word)
    requires NoClear(e) && LinkedAt(y.blocks, tail, b, t, start)
    ensures LinkedAt(Step(code, y, e).blocks, tail, b, t, start)
  {
    StepStays(code, y, e, b);
  }

  lemma {:induction false} LinkLasts(code: Program, pc: Word, es: seq<Event>, fs: seq<Event>, tail: Tail, b: nat,
                                     t: bool, start: Word)
    requires forall k :: 0 <= k < |fs| ==> NoClear(fs[k])
    requires LinkedAt(Run(code, pc, es).blocks, tail, b, t, start)
    ensures LinkedAt(Run(code, pc, es + fs).blocks, tail, b, t, start)
    decreases |fs|
  {
    if fs == [] {
      assert es + fs == es;
    } else {
      var n := |fs| - 1;
      var run := es + fs[..n];
      assert es + fs == run + [fs[n]];
      LinkLasts(code, pc, es, fs[..n], tail, b, t, start);
      RunMore(code, pc, run, fs[n]);
      LinkStays(code, Run(code, pc, run), fs[n], tail, b, t, start);
    }
  }

  lemma RunMore(code: Program, pc: Word, es: seq<Event>, e: Event)
    ensures Run(code, pc, es + [e]) == Step(code, Run(code, pc, es), e)
  {
    assert (es + [e])[..|es|] == es;
  }

  lemma LinkIsFollowed(code: Program, y: Machine, decision: bool, target: Word)
    requires Inv(code, y) && y.running.Some?
    requires var b := y.running.block;
             b in y.blocks.start && var tail := code(y.blocks.start[b]);
             HasLink(y.blocks, tail, b, decision) && (tail.Direct? || Follows(y, b))
    ensures Finish(code, y, decision, target).running.Some?
  {
  }

  /** The dispatch loop sees an edge once: after it has found the successor of a block, the block enters it
      by itself whenever it leaves by the same edge, as long as the map is not cleared, if its last handler
      is one that follows links. */
  lemma EdgeDispatchedOnce(code: Program, pc: Word, es: seq<Event>, n: New, fs: seq<Event>, decision: bool,
                           target: Word)
    requires var y := Run(code, pc, es);
             y.running.None? && Previous(y).Some? && n.block !in y.blocks.start && Linkable(code(y.lastPc)) &&
             (code(y.lastPc).Conditional? ==> decision == y.isTaken)
    requires !n.clear && forall k :: 0 <= k < |fs| ==> NoClear(fs[k])
    requires var y, z := Run(code, pc, es), Run(code, pc, es + [DispatchEvent(n)] + fs);
             z.running == Previous(y) && (code(y.lastPc).Direct? || Follows(z, z.running.block))
    ensures Run(code, pc, es + [DispatchEvent(n)] + fs + [FinishEvent(decision, target)]).running.Some?
  {
    var y, run := Run(code, pc, es), es + [DispatchEvent(n)];
    var p, tail := Previous(y).block, code(y.lastPc);
    RunKeeps(code, pc, es);
    LinkIsMade(code, y, n);
    RunMore(code, pc, es, DispatchEvent(n));
    LinkLasts(code, pc, run, fs, tail, p, y.isTaken, y.lastPc);
    RunKeeps(code, pc, run + fs);
    LinkIsFollowed(code, Run(code, pc, run + fs), decision, target);
    RunMore(code, pc, run + fs, FinishEvent(decision, target));
  }

  /** An indirect jump enters the next block by itself exactly when the map has one at its target, whatever
      the branch history holds. */
  lemma IndirectEntersExactly(code: Program, pc: Word, es: seq<Event>, decision: bool, target: Word)
    requires var y := Run(code, pc, es);
             y.running.Some? && y.running.block in y.blocks.start && code(y.blocks.start[y.running.block]).Indirect?
    ensures var y, z := Run(code, pc, es), Run(code, pc, es + [FinishEvent(decision, target)]);
            z.running == Get(y.blocks.table, target)
  {
    var y := Run(code, pc, es);
    RunKeeps(code, pc, es);
    RunMore(code, pc, es, FinishEvent(decision, target));
    var slot := (y.running.block, target / 4 % HISTORY_SIZE);
    if slot in y.blocks.history { assert HistoryOk(y.blocks, slot); }
  }

  // ---------------------------------------------------------------- tails of real blocks

  // How the last instruction of a block at pc ends it; page says that the block was cut at a page boundary.
  function TailOf(i: Insn, pc: Word, page: bool): Tail {
    match i.opcode
    case JAL | C_J | C_JAL => Direct(Plus(pc, i.imm))
    case BRANCH(_) => Conditional(Plus(pc, i.imm), Plus(pc, 4))
    case C_BEQZ | C_BNEZ => Conditional(Plus(pc, i.imm), Plus(pc, 2))
    case FUSE12 => Conditional(Plus(pc, Plus(4, i.imm2)), Plus(pc, 8))
    case JALR | C_JR | C_JALR => Indirect
    case _ =>
      if !page then Other
      else if IsRun(i.opcode) then Fallthrough(Plus(pc, Wrap(i.imm2 * 4)))
      else if IsFused(i.opcode) then Fallthrough(Plus(pc, 8))
      else Fallthrough(Plus(pc, Length(i.opcode)))
  }

  // What a conditional branch at the end of a block decides.
  function Decides(i: Insn, x: Regs): bool {
    match i.opcode
    case BRANCH(cond) => Holds(cond, x[i.rs1], x[i.rs2])
    case C_BEQZ => x[i.rs1] == 0
    case C_BNEZ => x[i.rs1] != 0
    case FUSE12 => Plus(x[i.rs1], i.imm) != 0
    case _ => false
  }

  ghost predicate EdgeOf(strict: bool, i: Insn, s: State, page: bool) {
    var o := BlockIr.Step(strict, i, s);
    match TailOf(i, s.pc, page)
    case Direct(t) => o.Leave? && o.s.pc == t
    case Conditional(t, u) => o.Leave? && o.s.pc == if Decides(i, s.x) then t else u
    case Fallthrough(n) => o.Continue? ==> o.s.pc == n
    case _ => true
  }

  lemma PlainEdge(strict: bool, i: Insn, s: State, page: bool)
    requires !IsFused(i.opcode)
    ensures EdgeOf(strict, i, s, page)
  {
    var o := Effect(strict, i, Tick(s, 1));
    assert o.Continue? ==> o.s.pc == s.pc;
  }

  lemma FusedEdge(strict: bool, i: Insn, s: State, page: bool)
    requires IsFused(i.opcode) && !IsRun(i.opcode)
    ensures EdgeOf(strict, i, s, page)
  {
    var o := EffectFused(strict, i, Tick(s, 2));
    assert o.Continue? ==> o.s.pc == s.pc;
    assert BlockIr.Step(strict, i, s) == Advance(o, 8);
  }

  lemma RunEdge(strict: bool, i: Insn, s: State, page: bool)
    requires IsRun(i.opcode)
    ensures EdgeOf(strict, i, s, page)
  {
    var fs := i.fuse[..if i.imm2 <= |i.fuse| then i.imm2 else |i.fuse|];
    PartsKeepPc(strict, i.opcode, fs, Tick(s, i.imm2));
    assert BlockIr.Step(strict, i, s) == Advance(Parts(strict, i.opcode, fs, Tick(s, i.imm2)), Wrap(i.imm2 * 4));
  }

  /** The last instruction of a block leaves it at the PC that the block's tail names. */
  lemma LastInsnEdge(strict: bool, i: Insn, s: State, page: bool)
    ensures EdgeOf(strict, i, s, page)
  {
    if !IsFused(i.opcode) {
      PlainEdge(strict, i, s, page);
    } else if IsRun(i.opcode) {
      RunEdge(strict, i, s, page);
    } else {
      FusedEdge(strict, i, s, page);
    }
  }

  lemma {:induction false} PartsKeepPc(strict: bool, op: Opcode, fs: seq<Fused>, s: State)
    ensures Parts(strict, op, fs, s).Continue? ==> Parts(strict, op, fs, s).s.pc == s.pc
    decreases |fs|
  {
    if fs != [] {
      PartKeepsPc(strict, op, fs[0], s);
      var o := Part(strict, op, fs[0], s);
      if o.Continue? { PartsKeepPc(strict, op, fs[1..], o.s); }
    }
  }

  lemma PartKeepsPc(strict: bool, op: Opcode, f: Fused, s: State)
    ensures Part(strict, op, f, s).s.pc == s.pc
  {
  }
}
