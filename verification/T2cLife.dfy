/** The life of a block shared by the main thread and the T2C compile thread: compile start and
    finish (src/t2c.c), replacement in the block cache (src/emulate.c) and SFENCE.VMA
    (src/rv32_template.c, src/cache.c). Every step is one critical section under cache_lock; the steps
    of both threads interleave freely. */
module T2cLife {
  import opened Words
  import opened BlockIr

  const N_JIT_CACHE_ENTRIES := 4096

  // pc_start | satp << 32
  datatype Key = Key(pc: Word, satp: Word)

  const NO_KEY := Key(0, 0)

  function Pos(k: Key): nat {
    Bitwise(BitXor, k.pc, k.satp) % N_JIT_CACHE_ENTRIES
  }

  // block_t, whether its last instruction reaches into the next page, and how often it was given back to
  // the pool.
  datatype Block = Block(key: Key, spans: bool, compiling: bool, shouldFree: bool, invalidated: bool, hot2: bool,
                         func: bool, frees: nat)

  function Fresh(key: Key, spans: bool): Block {
    Block(key, spans, false, false, false, false, false, 0)
  }

  // A slot of the jit_cache or the inline cache that holds the code of a block.
  datatype Entry = Entry(key: Key, block: nat)

  datatype System = System(
    blocks: map<nat, Block>,      // every block ever allocated
    cache: map<Word, nat>,        // the live entries of the block cache, by PC
    slots: map<nat, Entry>,       // the jit_cache slots whose entry is not NULL
    inlined: map<nat, Entry>,     // the inline cache slots in use, main thread only
    t2c: set<nat>,                // the block that T2C compiles without the lock, if any
    offered: set<Entry>)          // what the slots have held since the last step of the main thread

  // ---------------------------------------------------------------- steps

  function Without(m: map<nat, Entry>, gone: Entry -> bool): map<nat, Entry> {
    map i | i in m && !gone(m[i]) :: m[i]
  }

  // A block that cache_put returned: clear its code from both caches, then free it or leave that to T2C.
  function Evict(y: System, b: nat): System
    requires b in y.blocks
  {
    var k := y.blocks[b];
    y.(slots := if k.func then y.slots - {Pos(k.key)} else y.slots,
       inlined := if k.key == NO_KEY then y.inlined else Without(y.inlined, (e: Entry) => e.key == k.key),
       blocks := y.blocks[b := if k.compiling then k.(shouldFree := true) else k.(frees := k.frees + 1)])
  }

  // cache_put of a new block for its PC: the block of that PC is replaced if there is one, or some other
  // victim (the cache decides which), or none; a replaced block is evicted.
  function Insert(y: System, b: nat, key: Key, spans: bool, victim: Word): System {
    var out := if key.pc in y.cache then key.pc else victim;
    var z := if out in y.cache && y.cache[out] in y.blocks then Evict(y, y.cache[out]).(cache := y.cache - {out})
      else y;
    z.(blocks := z.blocks[b := Fresh(key, spans)], cache := z.cache[key.pc := b])
  }

  // From the look-up in the compile thread to the release of the lock before LLVM runs.
  function CompileStart(y: System, key: Key): System {
    if y.t2c == {} && key.pc in y.cache && y.cache[key.pc] in y.blocks then
      var b := y.cache[key.pc];
      var k := y.blocks[b];
      if k.key.satp == key.satp && !k.hot2 then y.(blocks := y.blocks[b := k.(compiling := true)], t2c := {b}) else y
    else y
  }

  // From taking the lock again to the end of t2c_compile; ok says whether LLVM produced code.
  function CompileFinish(y: System, b: nat, ok: bool): System {
    if b in y.t2c && b in y.blocks then
      var k := y.blocks[b].(compiling := false);
      if k.shouldFree then y.(blocks := y.blocks[b := k.(frees := k.frees + 1)], t2c := {})
      else if !ok || k.invalidated then y.(blocks := y.blocks[b := k], t2c := {})
      else
        y.(blocks := y.blocks[b := k.(func := true, hot2 := true)],
           slots := y.slots[Pos(k.key) := Entry(k.key, b)],
           offered := y.offered + {Entry(k.key, b)},
           t2c := {})
    else y
  }

  function Invalidate(y: System, hit: Block -> bool): map<nat, Block> {
    map b | b in y.blocks ::
      if b in y.cache.Values && hit(y.blocks[b]) then y.blocks[b].(invalidated := true, hot2 := false)
        else y.blocks[b]
  }

  // SFENCE.VMA with rs1 = x0
  function SfenceAll(y: System, satp: Word): System {
    y.(blocks := Invalidate(y, (k: Block) => k.key.satp == satp), slots := map[], inlined := map[])
  }

  predicate OnPage(k: Key, va: Word, satp: Word) {
    k.satp == satp && Page(k.pc) == Page(va)
  }

  // The block starts on the page before that of va and reaches into it.
  predicate ReachesInto(k: Block, va: Word, satp: Word) {
    k.spans && k.key.satp == satp && Page(k.key.pc) + 1 == Page(va)
  }

  // SFENCE.VMA of one address. The index finds blocks by their first page, the scan by both; the page
  // clears go by the first, and skip slots whose key is zero.
  function SfenceVa(y: System, va: Word, satp: Word, scan: bool): System {
    var gone := (e: Entry) => e.key != NO_KEY && OnPage(e.key, va, satp);
    y.(blocks := Invalidate(y, (k: Block) => OnPage(k.key, va, satp) || (scan && ReachesInto(k, va, satp))),
       slots := Without(y.slots, gone), inlined := Without(y.inlined, gone))
  }

  // Compiled code, on the main thread, copies an accepted jit_cache entry into the inline cache; T2C may
  // have overwritten the slot since it was read.
  function Fill(y: System, i: nat, e: Entry): System {
    if e in y.offered then y.(inlined := y.inlined[i := e]) else y
  }

  datatype Event =
    | Translate(block: nat, key: Key, spans: bool, victim: Word)
    | Begin(key: Key)
    | Finish(block: nat, ok: bool)
    | FenceAll(satp: Word)
    | FenceVa(va: Word, satp: Word, scan: bool)
    | Inline(i: nat, entry: Entry)

  // After a step of the main thread, it can accept what the slots hold from then on.
  function Settled(y: System): System {
    y.(offered := y.slots.Values)
  }

  function Step(y: System, e: Event): System {
    match e
    case Translate(b, key, spans, victim) => if b !in y.blocks then Settled(Insert(y, b, key, spans, victim)) else y
    case Begin(key) => CompileStart(y, key)
    case Finish(b, ok) => CompileFinish(y, b, ok)
    case FenceAll(satp) => Settled(SfenceAll(y, satp))
    case FenceVa(va, satp, scan) => Settled(SfenceVa(y, va, satp, scan))
    case Inline(i, entry) => Settled(Fill(y, i, entry))
  }

  function Run(es: seq<Event>): System {
    if es == [] then System(map[], map[], map[], map[], {}, {}) else Step(Run(es[..|es| - 1]), es[|es| - 1])
  }

  // ---------------------------------------------------------------- the invariant

  predicate Live(y: System, b: nat) {
    b in y.cache.Values
  }

  // A block: in the cache, or evicted and waiting for T2C, or freed; never two of these.
  ghost predicate BlockOk(y: System, b: nat)
    requires b in y.blocks
  {
    var k := y.blocks[b];
    (k.compiling <==> b in y.t2c) &&
    (if Live(y, b) then k.frees == 0 && !k.shouldFree
     else if k.compiling then k.frees == 0 && k.shouldFree
     else k.frees == 1) &&
    (Live(y, b) && k.hot2 ==> k.func && !k.invalidated) &&
    (k.func && !k.invalidated ==> k.hot2) && (k.compiling ==> !k.hot2)
  }

  // Cached code comes from a block, which may be gone, and carries that block's key.
  ghost predicate Known(y: System, e: Entry) {
    e.block in y.blocks && y.blocks[e.block].key == e.key && y.blocks[e.block].func
  }

  // The block is live.
  ghost predicate Owned(y: System, e: Entry) {
    Known(y, e) && Live(y, e.block)
  }

  // Unless the key is zero, which the clears take for an unused slot, the block is live; and not
  // invalidated, unless it reaches into a second page.
  ghost predicate EntryOk(y: System, e: Entry) {
    Known(y, e) && (e.key != NO_KEY ==> Live(y, e.block) && (y.blocks[e.block].invalidated ==> y.blocks[e.block].spans))
  }

  ghost predicate Inv(y: System) {
    && (forall b :: b in y.blocks ==> BlockOk(y, b))
    && (forall b :: b in y.t2c ==> b in y.blocks && y.t2c == {b})
    && (forall pc :: pc in y.cache ==> y.cache[pc] in y.blocks && y.blocks[y.cache[pc]].key.pc == pc)
    && (forall p :: p in y.slots ==> Owned(y, y.slots[p]) && EntryOk(y, y.slots[p]) && Pos(y.slots[p].key) == p)
    && (forall i :: i in y.inlined ==> EntryOk(y, y.inlined[i]))
    && (forall e :: e in y.offered ==> EntryOk(y, e))
  }

  lemma SettledKeeps(y: System)
    requires Inv(y.(offered := {}))
    ensures Inv(Settled(y))
  {
    var z, w := Settled(y), y.(offered := {});
    forall b | b in z.blocks ensures BlockOk(z, b) { assert BlockOk(w, b); }
    forall p | p in z.slots ensures Owned(z, z.slots[p]) && EntryOk(z, z.slots[p]) && Pos(z.slots[p].key) == p {
      assert Owned(w, w.slots[p]) && EntryOk(w, w.slots[p]);
    }
    forall i | i in z.inlined ensures EntryOk(z, z.inlined[i]) { assert EntryOk(w, w.inlined[i]); }
  }

  // One block changes its flags; its key stays, and code it had is still there and valid.
  ghost predicate Reflagged(y: System, z: System, b: nat) {
    b in y.blocks && b in z.blocks && z.blocks == y.blocks[b := z.blocks[b]] && z.cache == y.cache &&
    z.blocks[b].key == y.blocks[b].key && z.blocks[b].spans == y.blocks[b].spans &&
    z.blocks[b].invalidated == y.blocks[b].invalidated &&
    (y.blocks[b].func ==> z.blocks[b].func)
  }

  lemma ReflaggedKeeps(y: System, z: System, b: nat)
    requires Inv(y) && Reflagged(y, z, b) && z.inlined == y.inlined && z.slots == y.slots && z.offered == y.offered
    requires BlockOk(z, b) && z.t2c <= {b} && y.t2c <= {b}
    ensures Inv(z)
  {
    forall c | c in z.blocks ensures BlockOk(z, c) { assert BlockOk(y, c); }
    forall e: Entry ensures EntryOk(y, e) ==> EntryOk(z, e) { ReflaggedEntry(y, z, b, e); }
    forall p | p in z.slots ensures Owned(z, z.slots[p]) { ReflaggedEntry(y, z, b, y.slots[p]); }
  }

  lemma ReflaggedEntry(y: System, z: System, b: nat, e: Entry)
    requires Reflagged(y, z, b)
    ensures (EntryOk(y, e) ==> EntryOk(z, e)) && (Owned(y, e) ==> Owned(z, e))
  {
  }

  // jit_cache_update with the code of a live block.
  function Published(y: System, e: Entry): System {
    y.(slots := y.slots[Pos(e.key) := e], offered := y.offered + {e})
  }

  lemma PublishKeeps(y: System, e: Entry)
    requires Inv(y) && Owned(y, e) && EntryOk(y, e)
    ensures Inv(Published(y, e))
  {
    var z := Published(y, e);
    forall c | c in z.blocks ensures BlockOk(z, c) { assert BlockOk(y, c); }
    forall p | p in z.slots ensures Owned(z, z.slots[p]) && EntryOk(z, z.slots[p]) && Pos(z.slots[p].key) == p {
      if p != Pos(e.key) { assert Owned(y, y.slots[p]) && EntryOk(y, y.slots[p]); }
    }
    forall i | i in z.inlined ensures EntryOk(z, z.inlined[i]) { assert EntryOk(y, y.inlined[i]); }
  }

  lemma FinishKeeps(y: System, b: nat, ok: bool)
    requires Inv(y)
    ensures Inv(CompileFinish(y, b, ok))
  {
    if b in y.t2c && b in y.blocks {
      var z := CompileFinish(y, b, ok);
      assert BlockOk(y, b);
      var w := z.(slots := y.slots, offered := y.offered);
      ReflaggedKeeps(y, w, b);
      if !y.blocks[b].shouldFree && ok && !y.blocks[b].invalidated {
        PublishKeeps(w, Entry(y.blocks[b].key, b));
      }
    }
  }

  lemma StartKeeps(y: System, key: Key)
    requires Inv(y)
    ensures Inv(CompileStart(y, key))
  {
    var z := CompileStart(y, key);
    if z != y {
      var b := y.cache[key.pc];
      assert BlockOk(y, b);
      ReflaggedKeeps(y, z, b);
    }
  }

  lemma FillKeeps(y: System, i: nat, e: Entry)
    requires Inv(y)
    ensures Inv(Fill(y, i, e).(offered := {}))
  {
    var z := Fill(y, i, e).(offered := {});
    forall b | b in z.blocks ensures BlockOk(z, b) { assert BlockOk(y, b); }
    forall p | p in z.slots ensures Owned(z, z.slots[p]) && EntryOk(z, z.slots[p]) && Pos(z.slots[p].key) == p {
      assert Owned(y, y.slots[p]) && EntryOk(y, y.slots[p]);
    }
    forall k | k in z.inlined ensures EntryOk(z, z.inlined[k]) { assert EntryOk(y, z.inlined[k]); }
  }

  lemma FenceAllKeeps(y: System, satp: Word)
    requires Inv(y)
    ensures Inv(SfenceAll(y, satp).(offered := {}))
  {
    var z := SfenceAll(y, satp).(offered := {});
    forall b | b in z.blocks ensures BlockOk(z, b) { assert BlockOk(y, b); }
  }

  lemma FencedBlock(y: System, va: Word, satp: Word, scan: bool, b: nat)
    requires b in y.blocks && BlockOk(y, b)
    ensures BlockOk(SfenceVa(y, va, satp, scan).(offered := {}), b)
  {
  }

  // Code that a page fence leaves in a slot belongs to a block that it leaves valid.
  lemma FencedEntry(y: System, va: Word, satp: Word, scan: bool, e: Entry)
    requires EntryOk(y, e) && (e.key != NO_KEY ==> !OnPage(e.key, va, satp))
    ensures EntryOk(SfenceVa(y, va, satp, scan).(offered := {}), e)
  {
  }

  lemma FencedOwner(y: System, va: Word, satp: Word, scan: bool, e: Entry)
    requires Owned(y, e)
    ensures Owned(SfenceVa(y, va, satp, scan).(offered := {}), e)
  {
  }

  lemma FenceVaKeeps(y: System, va: Word, satp: Word, scan: bool)
    requires Inv(y)
    ensures Inv(SfenceVa(y, va, satp, scan).(offered := {}))
  {
    var z := SfenceVa(y, va, satp, scan).(offered := {});
    forall b | b in z.blocks ensures BlockOk(z, b) { FencedBlock(y, va, satp, scan, b); }
    forall p | p in z.slots ensures Owned(z, z.slots[p]) && EntryOk(z, z.slots[p]) && Pos(z.slots[p].key) == p {
      FencedEntry(y, va, satp, scan, y.slots[p]);
      FencedOwner(y, va, satp, scan, y.slots[p]);
    }
    forall i | i in z.inlined ensures EntryOk(z, z.inlined[i]) { FencedEntry(y, va, satp, scan, y.inlined[i]); }
  }

  // Each block is in the cache under its own PC only.
  lemma OnePlace(y: System, pc: Word, b: nat)
    requires Inv(y) && pc in y.cache && b == y.cache[pc]
    ensures b !in (y.cache - {pc}).Values
  {
  }

  // The block of a PC leaves the cache and is evicted.
  function Removed(y: System, pc: Word): System
    requires pc in y.cache && y.cache[pc] in y.blocks
  {
    Evict(y, y.cache[pc]).(cache := y.cache - {pc}, offered := {})
  }

  lemma RemovedSlot(y: System, pc: Word, p: nat)
    requires Inv(y) && pc in y.cache && y.cache[pc] in y.blocks && p in Removed(y, pc).slots
    ensures var z := Removed(y, pc); Owned(z, z.slots[p]) && EntryOk(z, z.slots[p]) && Pos(z.slots[p].key) == p
  {
    assert Owned(y, y.slots[p]) && EntryOk(y, y.slots[p]);
    StillLive(y, pc, y.slots[p].block);
  }

  lemma RemovedInline(y: System, pc: Word, i: nat)
    requires Inv(y) && pc in y.cache && y.cache[pc] in y.blocks && i in Removed(y, pc).inlined
    ensures var z := Removed(y, pc); EntryOk(z, z.inlined[i])
  {
    assert EntryOk(y, y.inlined[i]);
    StillLive(y, pc, y.inlined[i].block);
  }

  lemma RemovedBlock(y: System, pc: Word, c: nat)
    requires Inv(y) && pc in y.cache && y.cache[pc] in y.blocks && c in y.blocks
    ensures BlockOk(Removed(y, pc), c)
  {
    assert BlockOk(y, c) && BlockOk(y, y.cache[pc]);
    OnePlace(y, pc, y.cache[pc]);
    StillLive(y, pc, c);
  }

  lemma EvictKeeps(y: System, pc: Word)
    requires Inv(y) && pc in y.cache && y.cache[pc] in y.blocks
    ensures Inv(Removed(y, pc))
  {
    var z := Removed(y, pc);
    forall c | c in z.blocks ensures BlockOk(z, c) { RemovedBlock(y, pc, c); }
    forall p | p in z.slots ensures Owned(z, z.slots[p]) && EntryOk(z, z.slots[p]) && Pos(z.slots[p].key) == p {
      RemovedSlot(y, pc, p);
    }
    forall i | i in z.inlined ensures EntryOk(z, z.inlined[i]) { RemovedInline(y, pc, i); }
  }

  lemma StillLive(y: System, pc: Word, c: nat)
    requires Inv(y) && pc in y.cache
    ensures c in (y.cache - {pc}).Values <==> c in y.cache.Values && c != y.cache[pc]
  {
    OnePlace(y, pc, y.cache[pc]);
    if c in y.cache.Values && c != y.cache[pc] {
      var q :| q in y.cache && y.cache[q] == c;
      assert q in y.cache - {pc} && (y.cache - {pc})[q] == c;
    }
  }

  lemma NotCompiling(y: System, b: nat)
    requires Inv(y) && b !in y.blocks
    ensures b !in y.t2c
  {
  }

  function Added(y: System, b: nat, key: Key, spans: bool): System {
    y.(blocks := y.blocks[b := Fresh(key, spans)], cache := y.cache[key.pc := b], offered := {})
  }

  lemma AddedLive(y: System, b: nat, key: Key, spans: bool, c: nat)
    requires key.pc !in y.cache
    ensures Live(Added(y, b, key, spans), c) <==> c == b || Live(y, c)
  {
    var z := Added(y, b, key, spans);
    assert z.cache[key.pc] == b;
    if c in y.cache.Values {
      var q :| q in y.cache && y.cache[q] == c;
      assert z.cache[q] == c;
    }
  }

  lemma AddedBlock(y: System, b: nat, key: Key, spans: bool, c: nat)
    requires Inv(y) && b !in y.blocks && key.pc !in y.cache && c in Added(y, b, key, spans).blocks
    ensures BlockOk(Added(y, b, key, spans), c)
  {
    AddedLive(y, b, key, spans, c);
    if c != b { assert BlockOk(y, c); } else { NotCompiling(y, b); }
  }

  lemma AddedEntry(y: System, b: nat, key: Key, spans: bool, e: Entry)
    requires b !in y.blocks && key.pc !in y.cache
    ensures Owned(y, e) ==> Owned(Added(y, b, key, spans), e)
    ensures EntryOk(y, e) ==> EntryOk(Added(y, b, key, spans), e)
  {
    AddedLive(y, b, key, spans, e.block);
  }

  lemma AddKeeps(y: System, b: nat, key: Key, spans: bool)
    requires Inv(y) && b !in y.blocks && key.pc !in y.cache
    ensures Inv(Added(y, b, key, spans))
  {
    var z := Added(y, b, key, spans);
    forall c | c in z.blocks ensures BlockOk(z, c) { AddedBlock(y, b, key, spans, c); }
    forall p | p in z.slots ensures Owned(z, z.slots[p]) && EntryOk(z, z.slots[p]) && Pos(z.slots[p].key) == p {
      AddedEntry(y, b, key, spans, y.slots[p]);
    }
    forall i | i in z.inlined ensures EntryOk(z, z.inlined[i]) { AddedEntry(y, b, key, spans, y.inlined[i]); }
  }

  lemma InsertKeeps(y: System, b: nat, key: Key, spans: bool, victim: Word)
    requires Inv(y) && b !in y.blocks
    ensures Inv(Insert(y, b, key, spans, victim).(offered := {}))
  {
    var out := if key.pc in y.cache then key.pc else victim;
    if out in y.cache {
      EvictKeeps(y, out);
      AddKeeps(Removed(y, out), b, key, spans);
    } else {
      AddKeeps(y, b, key, spans);
    }
  }

  // ---------------------------------------------------------------- whole runs

  lemma StepKeeps(y: System, e: Event)
    requires Inv(y)
    ensures Inv(Step(y, e))
  {
    match e
    case Translate(b, key, spans, victim) =>
      if b !in y.blocks {
        InsertKeeps(y, b, key, spans, victim);
        SettledKeeps(Insert(y, b, key, spans, victim));
      }
    case Begin(key) => StartKeeps(y, key);
    case Finish(b, ok) => FinishKeeps(y, b, ok);
    case FenceAll(satp) =>
      FenceAllKeeps(y, satp);
      SettledKeeps(SfenceAll(y, satp));
    case FenceVa(va, satp, scan) =>
      FenceVaKeeps(y, va, satp, scan);
      SettledKeeps(SfenceVa(y, va, satp, scan));
    case Inline(i, entry) =>
      FillKeeps(y, i, entry);
      SettledKeeps(Fill(y, i, entry));
  }

  lemma {:induction false} RunKeeps(es: seq<Event>)
    ensures Inv(Run(es))
  {
    if es != [] {
      RunKeeps(es[..|es| - 1]);
      StepKeeps(Run(es[..|es| - 1]), es[|es| - 1]);
    }
  }

  /** In every interleaving: an evicted block is freed exactly once, by the evicting thread or, if T2C
      is compiling it, later by T2C; a live block is never freed, and the block T2C works on is not. */
  lemma FreedExactlyOnce(es: seq<Event>, b: nat)
    requires b in Run(es).blocks
    ensures var y := Run(es);
            var k := y.blocks[b];
            k.frees == (if Live(y, b) || b in y.t2c then 0 else 1) &&
            (k.shouldFree ==> !Live(y, b))
  {
    RunKeeps(es);
    assert BlockOk(Run(es), b);
  }

  /** A live block that is marked hot2 has code and is not invalidated. */
  lemma HotHasCode(es: seq<Event>, b: nat)
    requires b in Run(es).blocks && Live(Run(es), b) && Run(es).blocks[b].hot2
    ensures Run(es).blocks[b].func && !Run(es).blocks[b].invalidated && Run(es).blocks[b].frees == 0
  {
    RunKeeps(es);
    assert BlockOk(Run(es), b);
  }

  /** Code reachable under a non-zero key through the jit_cache or the inline cache belongs to a live block
      that is not freed, under that block's own key, and is not invalidated if it lies in one page. */
  lemma CachedCodeIsLive(es: seq<Event>, e: Entry)
    requires e.key != NO_KEY && (e in Run(es).slots.Values || e in Run(es).inlined.Values)
    ensures var y := Run(es);
            e.block in y.blocks && y.blocks[e.block].frees == 0 && y.blocks[e.block].func &&
            y.blocks[e.block].key == e.key && e.block in y.cache.Values &&
            (!y.blocks[e.block].spans ==> !y.blocks[e.block].invalidated)
  {
    RunKeeps(es);
    assert EntryOk(Run(es), e);
    assert BlockOk(Run(es), e.block);
  }

  // The entry leads to the code of an invalidated or a freed block.
  predicate Dead(y: System, e: Entry) {
    e.block !in y.blocks || y.blocks[e.block].invalidated || y.blocks[e.block].frees > 0
  }

  lemma AliveIsLive(y: System, e: Entry)
    requires Inv(y) && Known(y, e) && !Dead(y, e)
    ensures Live(y, e.block) && e.key.pc in y.cache && y.cache[e.key.pc] == e.block
  {
    assert BlockOk(y, e.block);
    var pc :| pc in y.cache && y.cache[pc] == e.block;
  }

  // The event fences page 0 of address space 0 by one of its addresses.
  predicate FencesZero(ev: Event) {
    ev.FenceVa? && OnPage(NO_KEY, ev.va, ev.satp)
  }

  // The pc whose block a translation replaces.
  function Replaced(y: System, ev: Event): Word
    requires ev.Translate?
  {
    if ev.key.pc in y.cache then ev.key.pc else ev.victim
  }

  // The event is a translation that evicts the block at PC 0.
  predicate EvictsZero(y: System, ev: Event) {
    ev.Translate? && ev.block !in y.blocks && Replaced(y, ev) == 0
  }

  // The event fences, by scanning, the page that the block reaches into.
  predicate FencesSecond(y: System, ev: Event, b: nat)
    requires b in y.blocks
  {
    ev.FenceVa? && ev.scan && ReachesInto(y.blocks[b], ev.va, ev.satp)
  }

  /** After any run, a step leaves in a jit_cache slot code that has become dead by it exactly when the
      slot's key is zero and the step fences page 0 of address space 0, or the block reaches into a second
      page and the step fences that by scanning. */
  lemma SlotLeavesExactly(es: seq<Event>, ev: Event, p: nat)
    requires p in Run(es).slots && !Dead(Run(es), Run(es).slots[p])
    ensures var e, z := Run(es).slots[p], Run(es + [ev]);
            e.block in Run(es).blocks &&
            (p in z.slots && z.slots[p] == e && Dead(z, e) <==>
             (e.key == NO_KEY && FencesZero(ev)) || FencesSecond(Run(es), ev, e.block))
  {
    RunKeeps(es);
    RunMore(es, ev);
    var y := Run(es);
    AliveIsLive(y, y.slots[p]);
    assert BlockOk(y, y.slots[p].block);
    StepDeadens(y, ev, y.slots[p]);
  }

  /** After any run, a step leaves in the inline cache code that has become dead by it exactly when the
      key is zero and the step fences page 0 of address space 0 or evicts the block at PC 0, or the block
      reaches into a second page and the step fences that by scanning. */
  lemma InlineLeavesExactly(es: seq<Event>, ev: Event, i: nat)
    requires i in Run(es).inlined && !Dead(Run(es), Run(es).inlined[i])
    ensures var y, e, z := Run(es), Run(es).inlined[i], Run(es + [ev]);
            e.block in y.blocks &&
            (i in z.inlined && z.inlined[i] == e && Dead(z, e) <==>
             (e.key == NO_KEY && (FencesZero(ev) || EvictsZero(y, ev))) || FencesSecond(y, ev, e.block))
  {
    RunKeeps(es);
    RunMore(es, ev);
    var y := Run(es);
    AliveIsLive(y, y.inlined[i]);
    assert BlockOk(y, y.inlined[i].block);
    StepDeadens(y, ev, y.inlined[i]);
  }

  // The steps that make the code of a live block dead: the two fences, and its eviction.
  lemma StepDeadens(y: System, ev: Event, e: Entry)
    requires Inv(y) && Known(y, e) && !Dead(y, e) && Live(y, e.block)
    requires e.key.pc in y.cache && y.cache[e.key.pc] == e.block
    ensures Dead(Step(y, ev), e) <==>
            match ev
            case FenceAll(satp) => e.key.satp == satp
            case FenceVa(va, satp, scan) => OnPage(e.key, va, satp) || FencesSecond(y, ev, e.block)
            case Translate(b, _, _, _) => b !in y.blocks && Replaced(y, ev) == e.key.pc
            case _ => false
  {
    match ev
    case Translate(b, key, spans, victim) => if b !in y.blocks { InsertDeadens(y, b, key, spans, victim, e); }
    case Begin(key) => StartSpares(y, key, e);
    case Finish(b, ok) => FinishSpares(y, b, ok, e);
    case FenceAll(satp) =>
    case FenceVa(va, satp, scan) =>
    case Inline(i, entry) =>
  }

  lemma StartSpares(y: System, key: Key, e: Entry)
    requires Known(y, e)
    ensures Dead(CompileStart(y, key), e) <==> Dead(y, e)
  {
  }

  lemma FinishSpares(y: System, b: nat, ok: bool, e: Entry)
    requires Inv(y) && Known(y, e) && Live(y, e.block)
    ensures Dead(CompileFinish(y, b, ok), e) <==> Dead(y, e)
  {
    assert BlockOk(y, e.block);
  }

  lemma InsertDeadens(y: System, b: nat, key: Key, spans: bool, victim: Word, e: Entry)
    requires Inv(y) && Known(y, e) && !Dead(y, e) && b !in y.blocks
    requires e.key.pc in y.cache && y.cache[e.key.pc] == e.block
    ensures Dead(Insert(y, b, key, spans, victim), e) <==> (if key.pc in y.cache then key.pc else victim) == e.key.pc
  {
    assert BlockOk(y, e.block);
    var out := if key.pc in y.cache then key.pc else victim;
    if out in y.cache && y.cache[out] == e.block {
      assert out == e.key.pc;
    }
  }

  lemma RunMore(es: seq<Event>, e: Event)
    ensures Run(es + [e]) == Step(Run(es), e)
  {
    assert (es + [e])[..|es|] == es;
  }

  // ---------------------------------------------------------------- fences against a running compile

  // The fence is for the block: for its address space and, if it names an address, for the page of its
  // first byte or, when it scans, for the page that it reaches into.
  predicate Fences(ev: Event, k: Block) {
    match ev
    case FenceAll(satp) => k.key.satp == satp
    case FenceVa(va, satp, scan) =>
      k.key.satp == satp &&
      (k.key.pc / 4096 == va / 4096 || (scan && k.spans && k.key.pc / 4096 + 1 == va / 4096))
    case _ => false
  }

  /** After any run, a fence invalidates exactly the live blocks that it is for, whether T2C compiles them or
      not, and takes their hot2 away; it changes nothing else about blocks. The code of a block that is
      neither invalidated nor freed stays in the jit_cache, unless the fence is for all addresses, which
      empties both caches. */
  lemma FenceInvalidates(es: seq<Event>, ev: Event, b: nat)
    requires (ev.FenceAll? || ev.FenceVa?) && b in Run(es).blocks
    ensures var y, z := Run(es), Run(es + [ev]);
            b in z.blocks && z.cache == y.cache && z.t2c == y.t2c &&
            z.blocks[b] == if Live(y, b) && Fences(ev, y.blocks[b])
              then y.blocks[b].(invalidated := true, hot2 := false) else y.blocks[b]
    ensures var y, z := Run(es), Run(es + [ev]);
            if ev.FenceAll? then z.slots == map[] && z.inlined == map[]
            else forall p :: p in y.slots && !Dead(z, y.slots[p]) ==> p in z.slots && z.slots[p] == y.slots[p]
  {
    RunKeeps(es);
    RunMore(es, ev);
    if ev.FenceVa? {
      var y := Run(es);
      forall p | p in y.slots && !Dead(Run(es + [ev]), y.slots[p])
        ensures p in Run(es + [ev]).slots && Run(es + [ev]).slots[p] == y.slots[p]
      {
        FenceSpares(y, ev.va, ev.satp, ev.scan, y.slots[p]);
      }
    }
  }

  lemma FenceSpares(y: System, va: Word, satp: Word, scan: bool, e: Entry)
    requires Inv(y) && Owned(y, e) && !Dead(SfenceVa(y, va, satp, scan), e)
    ensures !OnPage(e.key, va, satp)
  {
  }

  // The block is invalidated.
  ghost predicate Cold(y: System, b: nat) {
    b in y.blocks && y.blocks[b].invalidated && !y.blocks[b].hot2
  }

  // From y to z, the block stays invalidated and gets no code.
  ghost predicate ColdKept(y: System, z: System, b: nat)
    requires Cold(y, b)
  {
    Cold(z, b) && z.blocks[b].func == y.blocks[b].func &&
    forall p :: p in z.slots && z.slots[p].block == b ==> p in y.slots && y.slots[p] == z.slots[p]
  }

  lemma ColdInsert(y: System, b: nat, c: nat, key: Key, spans: bool, victim: Word)
    requires Cold(y, b) && c !in y.blocks
    ensures ColdKept(y, Insert(y, c, key, spans, victim), b)
  {
    var out := if key.pc in y.cache then key.pc else victim;
    if out in y.cache && y.cache[out] in y.blocks {
      var z := Evict(y, y.cache[out]);
      assert ColdKept(y, z, b) && z.blocks.Keys == y.blocks.Keys;
    }
  }

  lemma ColdFinish(y: System, b: nat, c: nat, ok: bool)
    requires Cold(y, b)
    ensures ColdKept(y, CompileFinish(y, c, ok), b)
  {
  }

  lemma ColdFence(y: System, b: nat, va: Word, satp: Word, scan: bool)
    requires Cold(y, b)
    ensures ColdKept(y, SfenceVa(y, va, satp, scan), b) && ColdKept(y, SfenceAll(y, satp), b)
  {
  }

  lemma ColdStays(y: System, e: Event, b: nat)
    requires Cold(y, b)
    ensures ColdKept(y, Step(y, e), b)
  {
    match e
    case Translate(c, key, spans, victim) => if c !in y.blocks { ColdInsert(y, b, c, key, spans, victim); }
    case Begin(key) =>
    case Finish(c, ok) => ColdFinish(y, b, c, ok);
    case FenceAll(satp) => ColdFence(y, b, 0, satp, false);
    case FenceVa(va, satp, scan) => ColdFence(y, b, va, satp, scan);
    case Inline(i, entry) =>
  }

  /** A block that is fenced, at any point of any run, never gets code or hot2 again, nor a slot that it did
      not have; if it had no code, because T2C was compiling it or had not begun, then no entry of either
      cache ever names it. */
  lemma {:induction false} FencedStaysCold(es: seq<Event>, ev: Event, fs: seq<Event>, b: nat)
    requires Live(Run(es), b) && b in Run(es).blocks && Fences(ev, Run(es).blocks[b])
    ensures var y, z := Run(es), Run(es + [ev] + fs);
            b in z.blocks && z.blocks[b].invalidated && !z.blocks[b].hot2 && z.blocks[b].func == y.blocks[b].func
    ensures var y, z := Run(es), Run(es + [ev] + fs);
            forall p :: p in z.slots && z.slots[p].block == b ==> p in y.slots && y.slots[p] == z.slots[p]
    ensures var y, z := Run(es), Run(es + [ev] + fs);
            !y.blocks[b].func ==> forall e :: e in z.slots.Values || e in z.inlined.Values ==> e.block != b
    decreases |fs|
  {
    RunKeeps(es + [ev] + fs);
    if fs == [] {
      assert es + [ev] + fs == es + [ev];
      FenceInvalidates(es, ev, b);
      RunMore(es, ev);
    } else {
      var gs, f := fs[..|fs| - 1], fs[|fs| - 1];
      assert es + [ev] + fs == es + [ev] + gs + [f];
      FencedStaysCold(es, ev, gs, b);
      RunKeeps(es + [ev] + gs);
      RunMore(es + [ev] + gs, f);
      ColdStays(Run(es + [ev] + gs), f, b);
    }
  }

  /** T2C begins with a block exactly when it is idle, the block is the live one of that PC and address space,
      and it has no valid code yet. */
  lemma BeginExactly(es: seq<Event>, key: Key, b: nat)
    ensures var y, z := Run(es), Run(es + [Begin(key)]);
            b in z.t2c <==>
            b in y.t2c || (y.t2c == {} && b in y.blocks && Live(y, b) && y.blocks[b].key == key && !y.blocks[b].hot2)
  {
    RunKeeps(es);
    RunMore(es, Begin(key));
    var y := Run(es);
    if Live(y, b) { var pc :| pc in y.cache && y.cache[pc] == b; }
  }

  /** The end of a compile publishes code, in the block and in its slot, exactly when there is code and the
      block was neither evicted nor invalidated meanwhile; it frees the block exactly when it was evicted. */
  lemma FinishExactly(es: seq<Event>, b: nat, ok: bool)
    requires b in Run(es).t2c && b in Run(es).blocks
    ensures var y, z := Run(es), Run(es + [Finish(b, ok)]);
            var k, good := y.blocks[b], ok && Live(y, b) && !y.blocks[b].invalidated;
            b in z.blocks && z.blocks == y.blocks[b := z.blocks[b]] && z.t2c == {} &&
            z.blocks[b].hot2 == good && z.blocks[b].func == (good || k.func) &&
            z.slots == (if good then y.slots[Pos(k.key) := Entry(k.key, b)] else y.slots) &&
            z.blocks[b].frees == if Live(y, b) then 0 else 1
  {
    RunKeeps(es);
    RunMore(es, Finish(b, ok));
    assert BlockOk(Run(es), b);
  }

  // ---------------------------------------------------------------- examples

  // Block 1 is translated and compiled.
  lemma Compiled(key: Key, spans: bool) returns (es: seq<Event>)
    ensures var y := Run(es);
            1 in y.blocks && y.blocks[1] == Fresh(key, spans).(func := true, hot2 := true) &&
            y.cache == map[key.pc := 1] && y.slots == map[Pos(key) := Entry(key, 1)] &&
            Entry(key, 1) in y.offered && 2 !in y.blocks
  {
    var a := [Translate(1, key, spans, 0)];
    RunMore([], Translate(1, key, spans, 0));
    assert [] + a == a;
    var b := a + [Begin(key)];
    RunMore(a, Begin(key));
    assert Run(a).cache[key.pc] == 1;
    assert Run(b).blocks[1] == Fresh(key, spans).(compiling := true);
    es := b + [Finish(1, true)];
    RunMore(b, Finish(1, true));
  }

  /** The code of a block with key zero, once in the inline cache, stays there when the block is evicted and
      freed. */
  lemma FreedCodeStays() returns (es: seq<Event>)
    ensures var y := Run(es);
            0 in y.inlined && y.inlined[0] == Entry(NO_KEY, 1) && 1 in y.blocks && y.blocks[1].frees == 1
  {
    var a := Compiled(NO_KEY, false);
    var b := a + [Inline(0, Entry(NO_KEY, 1))];
    RunMore(a, Inline(0, Entry(NO_KEY, 1)));
    es := b + [Translate(2, NO_KEY, false, 0)];
    RunMore(b, Translate(2, NO_KEY, false, 0));
  }

  /** It happens: translate, compile and fence a block at PC 0 of address space 0, and the page clear
      leaves the invalidated block's code in its slot. */
  lemma ZeroKeyStays() returns (es: seq<Event>)
    ensures Entry(NO_KEY, 1) in Run(es).slots.Values && 1 in Run(es).blocks && Run(es).blocks[1].invalidated
  {
    var c := Compiled(NO_KEY, false);
    es := c + [FenceVa(0, 0, false)];
    RunMore(c, FenceVa(0, 0, false));
    assert Run(c).cache[0] == 1;
    assert Run(es).slots[Pos(NO_KEY)] == Entry(NO_KEY, 1);
  }

  /** A block that reaches into the next page is invalidated by a scanning fence of that page, and its code
      stays in its slot. */
  lemma SecondPageStays(key: Key, va: Word) returns (es: seq<Event>)
    requires Page(key.pc) + 1 == Page(va)
    ensures Entry(key, 1) in Run(es).slots.Values && 1 in Run(es).blocks && Run(es).blocks[1].invalidated
  {
    var c := Compiled(key, true);
    es := c + [FenceVa(va, key.satp, true)];
    RunMore(c, FenceVa(va, key.satp, true));
    assert Run(c).cache[key.pc] == 1;
    assert Run(es).slots[Pos(key)] == Entry(key, 1);
  }
}
