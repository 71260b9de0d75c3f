/** The seqlock of the jit_cache: writers (jit_cache_update and the clears of src/t2c.c) are
    serialised by cache_lock and make four stores each; readers (t2c_jit_cache_helper of
    src/t2c_template.c) make four loads and no store. Steps of all threads interleave freely over
    sequentially consistent memory. */
module SeqLock {

  const WRAP := 0x1_0000_0000

  // What one update stores: entry 0 is NULL.
  datatype Pair = Pair(key: nat, entry: nat)

  // A slot of the cache. count is the number of increments of seq so far, so that the 32-bit field
  // holds count modulo 2^32; log[j] is what the j-th update stores, log[0] the initial contents.
  datatype Slot = Slot(count: nat, key: nat, entry: nat, log: seq<Pair>)

  function Seq(s: Slot): nat {
    s.count % WRAP
  }

  // The update that holds cache_lock: the stores it has made, after the increment that made seq odd.
  datatype Writer = Idle | Writing(pos: nat, pair: Pair, stores: nat)

  // A reader by its next load; first is the count behind the value of seq that it loaded first.
  datatype Reader =
    | LoadSeq(pos: nat, want: nat)
    | LoadKey(pos: nat, want: nat, first: nat)
    | LoadEntry(pos: nat, want: nat, first: nat)
    | LoadSeqAgain(pos: nat, want: nat, first: nat, entry: nat)
    | Accepted(pos: nat, got: Pair, first: nat, second: nat)
    | Rejected

  datatype System = System(slots: seq<Slot>, writer: Writer, readers: seq<Reader>)

  datatype Event = Update(pos: nat, pair: Pair) | WriterStep | Arrive(pos: nat, want: nat) | ReaderStep(id: nat)

  // ---------------------------------------------------------------- steps

  // The next store of the update in progress.
  function Store(s: Slot, w: Writer): Slot
    requires w.Writing?
  {
    match w.stores
    case 0 => s.(entry := w.pair.entry)
    case 1 => s.(key := w.pair.key)
    case _ => s.(count := s.count + 1)
  }

  // The next load of a reader.
  function Load(s: Slot, r: Reader): Reader
    requires !r.Accepted? && !r.Rejected?
  {
    match r
    case LoadSeq(pos, want) => if Seq(s) % 2 == 0 then LoadKey(pos, want, s.count) else Rejected
    case LoadKey(pos, want, first) => if s.key == want then LoadEntry(pos, want, first) else Rejected
    case LoadEntry(pos, want, first) => LoadSeqAgain(pos, want, first, s.entry)
    case LoadSeqAgain(pos, want, first, entry) =>
      if Seq(s) == first % WRAP && entry != 0 then Accepted(pos, Pair(want, entry), first, s.count) else Rejected
  }

  // An event that is not enabled changes nothing.
  function Step(y: System, e: Event): System {
    match e
    case Update(pos, pair) =>
      if y.writer.Idle? && pos < |y.slots| then
        var s := y.slots[pos];
        y.(slots := y.slots[pos := s.(count := s.count + 1, log := s.log + [pair])], writer := Writing(pos, pair, 0))
      else y
    case WriterStep =>
      if y.writer.Writing? && y.writer.pos < |y.slots| then
        var w := y.writer;
        y.(slots := y.slots[w.pos := Store(y.slots[w.pos], w)],
           writer := if w.stores >= 2 then Idle else w.(stores := w.stores + 1))
      else y
    case Arrive(pos, want) =>
      if pos < |y.slots| then y.(readers := y.readers + [LoadSeq(pos, want)]) else y
    case ReaderStep(id) =>
      if id < |y.readers| && !y.readers[id].Accepted? && !y.readers[id].Rejected? && y.readers[id].pos < |y.slots| then
        y.(readers := y.readers[id := Load(y.slots[y.readers[id].pos], y.readers[id])])
      else y
  }

  function Run(y: System, es: seq<Event>): System {
    if es == [] then y else Step(Run(y, es[..|es| - 1]), es[|es| - 1])
  }

  // jit_cache_init: n zeroed slots, nobody at work.
  function Start(n: nat): System {
    System(seq(n, _ => Slot(0, 0, 0, [Pair(0, 0)])), Idle, [])
  }

  // ---------------------------------------------------------------- the invariant

  // A slot against its log: idle, or with the stores that the update in progress has made.
  ghost predicate SlotOk(s: Slot, w: Writer, pos: nat) {
    |s.log| >= 1 && s.log[0] == Pair(0, 0) &&
    if w.Writing? && w.pos == pos then
      var n := |s.log|;
      w.stores <= 2 && n >= 2 && s.count == 2 * n - 3 && s.log[n - 1] == w.pair &&
      s.entry == s.log[if w.stores >= 1 then n - 1 else n - 2].entry &&
      s.key == s.log[if w.stores >= 2 then n - 1 else n - 2].key
    else
      s.count == 2 * |s.log| - 2 && Pair(s.key, s.entry) == s.log[|s.log| - 1]
  }

  // While seq has not moved since a reader loaded it, what the reader has loaded is the logged pair.
  ghost predicate ReaderOk(s: Slot, r: Reader) {
    match r
    case LoadSeq(_, _) => true
    case LoadKey(_, want, first) => Current(s, first)
    case LoadEntry(_, want, first) => Current(s, first) && (s.count == first ==> s.log[first / 2].key == want)
    case LoadSeqAgain(_, want, first, entry) => Current(s, first) &&
      (s.count == first ==> s.log[first / 2] == Pair(want, entry))
    case Accepted(_, got, first, second) =>
      got.entry != 0 && Current(s, first) && first <= second <= s.count && second % WRAP == first % WRAP &&
        (second == first ==> s.log[first / 2] == got)
    case Rejected => true
  }

  // first is an even count that the slot has had: update first / 2 was complete then.
  ghost predicate Current(s: Slot, first: nat) {
    first % 2 == 0 && first <= s.count && first / 2 < |s.log|
  }

  ghost predicate Inv(y: System) {
    && (y.writer.Writing? ==> y.writer.pos < |y.slots|)
    && (forall p :: 0 <= p < |y.slots| ==> SlotOk(y.slots[p], y.writer, p))
    && (forall i :: 0 <= i < |y.readers| && !y.readers[i].Rejected? ==>
          y.readers[i].pos < |y.slots| && ReaderOk(y.slots[y.readers[i].pos], y.readers[i]))
  }

  // A slot moves on: no count is lost, and no logged pair changes.
  ghost predicate Later(s: Slot, s': Slot) {
    s.count <= s'.count && |s.log| <= |s'.log| && s'.log[..|s.log|] == s.log
  }

  lemma ReaderKept(s: Slot, s': Slot, r: Reader)
    requires ReaderOk(s, r) && Later(s, s') && (s'.count == s.count ==> s'.log == s.log)
    ensures ReaderOk(s', r)
  {
    if !r.LoadSeq? && !r.Rejected? {
      assert s'.log[r.first / 2] == s'.log[..|s.log|][r.first / 2];
    }
  }

  lemma UpdateKeeps(y: System, pos: nat, pair: Pair)
    requires Inv(y)
    ensures Inv(Step(y, Update(pos, pair)))
  {
    var z := Step(y, Update(pos, pair));
    forall i | 0 <= i < |z.readers| && !z.readers[i].Rejected?
      ensures ReaderOk(z.slots[z.readers[i].pos], z.readers[i]) {
      ReaderKept(y.slots[y.readers[i].pos], z.slots[y.readers[i].pos], y.readers[i]);
    }
  }

  lemma WriterKeeps(y: System)
    requires Inv(y)
    ensures Inv(Step(y, WriterStep))
  {
    var z := Step(y, WriterStep);
    forall i | 0 <= i < |z.readers| && !z.readers[i].Rejected?
      ensures ReaderOk(z.slots[z.readers[i].pos], z.readers[i]) {
      ReaderKept(y.slots[y.readers[i].pos], z.slots[y.readers[i].pos], y.readers[i]);
    }
  }

  // A load of an idle slot at an even count sees the last logged pair.
  lemma LoadKeeps(s: Slot, w: Writer, pos: nat, r: Reader)
    requires SlotOk(s, w, pos) && ReaderOk(s, r) && !r.Accepted? && !r.Rejected?
    ensures ReaderOk(s, Load(s, r))
  {
    match r
    case LoadSeq(_, _) => SeqParity(s.count);
    case LoadKey(_, _, first) => IdleHolds(s, w, pos, first);
    case LoadEntry(_, _, first) => IdleHolds(s, w, pos, first);
    case LoadSeqAgain(_, _, _, _) =>
  }

  lemma SeqParity(count: nat)
    ensures count % WRAP % 2 == count % 2
  {
  }

  // A slot at an even count holds the pair that it has logged last.
  lemma IdleHolds(s: Slot, w: Writer, pos: nat, first: nat)
    requires SlotOk(s, w, pos) && Current(s, first)
    ensures s.count == first ==> s.log[first / 2] == Pair(s.key, s.entry)
  {
  }

  lemma ReaderStepKeeps(y: System, id: nat)
    requires Inv(y)
    ensures Inv(Step(y, ReaderStep(id)))
  {
    if id < |y.readers| && !y.readers[id].Accepted? && !y.readers[id].Rejected? && y.readers[id].pos < |y.slots| {
      var p := y.readers[id].pos;
      LoadKeeps(y.slots[p], y.writer, p, y.readers[id]);
    }
  }

  lemma StepKeeps(y: System, e: Event)
    requires Inv(y)
    ensures Inv(Step(y, e))
  {
    match e
    case Update(pos, pair) => UpdateKeeps(y, pos, pair);
    case WriterStep => WriterKeeps(y);
    case Arrive(_, _) =>
    case ReaderStep(id) => ReaderStepKeeps(y, id);
  }

  lemma {:induction false} RunKeeps(n: nat, es: seq<Event>)
    ensures Inv(Run(Start(n), es))
  {
    if es != [] {
      RunKeeps(n, es[..|es| - 1]);
      StepKeeps(Run(Start(n), es[..|es| - 1]), es[|es| - 1]);
    }
  }

  /** In every interleaving, a key and entry that a reader accepts were stored together by one update,
      which was complete when the reader loaded seq, provided seq did not go all the way round
      between the reader's first and last load. */
  lemma AcceptedTogether(n: nat, es: seq<Event>, id: nat)
    requires id < |Run(Start(n), es).readers| && Run(Start(n), es).readers[id].Accepted?
    requires var r := Run(Start(n), es).readers[id]; r.second - r.first < WRAP
    ensures var y := Run(Start(n), es);
            var r := y.readers[id];
            r.pos < |y.slots| && r.got.entry != 0 && r.second == r.first && r.first % 2 == 0 &&
              0 < r.first / 2 < |y.slots[r.pos].log| &&
            y.slots[r.pos].log[r.first / 2] == r.got
  {
    RunKeeps(n, es);
    var r := Run(Start(n), es).readers[id];
    SameRound(r.first, r.second);
  }

  lemma SameRound(a: nat, b: nat)
    requires a <= b < a + WRAP && a % WRAP == b % WRAP
    ensures a == b
  {
  }

  // ---------------------------------------------------------------- what the log is

  // The updates of slot pos that a run began, in order.
  function Begun(n: nat, es: seq<Event>, pos: nat): seq<Pair> {
    if es == [] then []
    else
      var e, before := es[|es| - 1], es[..|es| - 1];
      Begun(n, before, pos) +
      if e.Update? && e.pos == pos && Run(Start(n), before).writer.Idle? then [e.pair] else []
  }

  /** The log of a slot is its zeroed contents followed by the updates of the run. */
  lemma {:induction false} LogIsHistory(n: nat, es: seq<Event>, pos: nat)
    requires pos < n
    ensures var y := Run(Start(n), es); |y.slots| == n && y.slots[pos].log == [Pair(0, 0)] + Begun(n, es, pos)
  {
    if es != [] {
      LogIsHistory(n, es[..|es| - 1], pos);
    }
  }

  // ---------------------------------------------------------------- when seq goes round

  lemma RunAppend(y: System, a: seq<Event>, e: Event)
    ensures Run(y, a + [e]) == Step(Run(y, a), e)
  {
    assert (a + [e])[..|a|] == a;
  }

  // One whole update.
  function Whole(pos: nat, pair: Pair): seq<Event> {
    [Update(pos, pair), WriterStep, WriterStep, WriterStep]
  }

  // Its stores, one after the other.
  lemma FourStores(z: System, pos: nat, pair: Pair)
    requires z.writer.Idle? && pos < |z.slots|
    ensures var z1 := Step(z, Update(pos, pair));
            var z' := Step(Step(Step(z1, WriterStep), WriterStep), WriterStep);
            Updated(z, z', pos, pair)
  {
    var z1 := Step(z, Update(pos, pair));
    var z2 := Step(z1, WriterStep);
    assert z1.writer == Writing(pos, pair, 0) && z2.writer == Writing(pos, pair, 1);
  }

  ghost predicate Updated(z: System, z': System, pos: nat, pair: Pair)
    requires pos < |z.slots|
  {
    z'.writer.Idle? && z'.readers == z.readers && |z'.slots| == |z.slots| &&
    z'.slots[pos].count == z.slots[pos].count + 2 && z'.slots[pos].key == pair.key && z'.slots[pos].entry == pair.entry
  }

  lemma {:induction false} WholeUpdate(y: System, es: seq<Event>, pos: nat, pair: Pair)
    requires var z := Run(y, es); z.writer.Idle? && pos < |z.slots|
    ensures Updated(Run(y, es), Run(y, es + Whole(pos, pair)), pos, pair)
  {
    var a := es + [Update(pos, pair)];
    RunAppend(y, es, Update(pos, pair));
    RunAppend(y, a, WriterStep);
    RunAppend(y, a + [WriterStep], WriterStep);
    RunAppend(y, a + [WriterStep] + [WriterStep], WriterStep);
    assert es + Whole(pos, pair) == a + [WriterStep] + [WriterStep] + [WriterStep];
    FourStores(Run(y, es), pos, pair);
  }

  // k updates of the same slot with the same pair.
  lemma {:induction false} ManyUpdates(y: System, es: seq<Event>, pos: nat, pair: Pair, k: nat) returns (fs: seq<Event>)
    requires var z := Run(y, es); z.writer.Idle? && pos < |z.slots|
    ensures var z, z' := Run(y, es), Run(y, fs);
            z'.writer.Idle? && z'.readers == z.readers && |z'.slots| == |z.slots| &&
              z'.slots[pos].count == z.slots[pos].count + 2 * k &&
            (k > 0 ==> z'.slots[pos].key == pair.key && z'.slots[pos].entry == pair.entry)
  {
    fs := es;
    if k > 0 {
      var gs := ManyUpdates(y, es, pos, pair, k - 1);
      WholeUpdate(y, gs, pos, pair);
      fs := gs + Whole(pos, pair);
    }
  }

  // A reader that arrives after one update has loaded seq and the key.
  lemma ReaderWaits(p: Pair) returns (d: seq<Event>)
    ensures var z := Run(Start(1), d);
            z.writer.Idle? && |z.slots| == 1 && z.slots[0].count == 2 && z.readers == [LoadEntry(0, p.key, 2)]
  {
    var y := Start(1);
    WholeUpdate(y, [], 0, p);
    var a := [] + Whole(0, p);
    RunAppend(y, a, Arrive(0, p.key));
    RunAppend(y, a + [Arrive(0, p.key)], ReaderStep(0));
    RunAppend(y, a + [Arrive(0, p.key)] + [ReaderStep(0)], ReaderStep(0));
    d := a + [Arrive(0, p.key)] + [ReaderStep(0)] + [ReaderStep(0)];
  }

  // It loads the entry and seq, which has gone round exactly once.
  lemma {:induction false} ReaderAccepts(y: System, f: seq<Event>, key: nat, q: Pair)
    requires q.entry != 0
    requires var z := Run(y, f);
             |z.slots| == 1 && z.slots[0].count == 2 + WRAP && z.slots[0].entry == q.entry &&
             z.readers == [LoadEntry(0, key, 2)]
    ensures Run(y, f + [ReaderStep(0)] + [ReaderStep(0)]).readers == [Accepted(0, Pair(key, q.entry), 2, 2 + WRAP)]
  {
    RunAppend(y, f, ReaderStep(0));
    RunAppend(y, f + [ReaderStep(0)], ReaderStep(0));
    LastLoads(Run(y, f), key, q.entry, 2, 2 + WRAP);
  }

  // The last two loads of a reader whose second value of seq equals the first.
  lemma LastLoads(z: System, key: nat, entry: nat, first: nat, count: nat)
    requires entry != 0 && count % WRAP == first % WRAP
    requires |z.slots| == 1 && z.slots[0].count == count && z.slots[0].entry == entry
    requires z.readers == [LoadEntry(0, key, first)]
    ensures Step(Step(z, ReaderStep(0)), ReaderStep(0)).readers == [Accepted(0, Pair(key, entry), first, count)]
  {
    var s := Step(z, ReaderStep(0));
    assert s.readers == [LoadSeqAgain(0, key, first, entry)] && s.slots == z.slots;
  }

  // Four loads of one reader in a row.
  function FourLoads(id: nat): seq<Event> {
    [ReaderStep(id), ReaderStep(id), ReaderStep(id), ReaderStep(id)]
  }

  // The last pair that was stored in the slot.
  function Latest(s: Slot): Pair
    requires s.log != []
  {
    s.log[|s.log| - 1]
  }

  lemma StepReads(z: System, id: nat, s: Slot)
    requires id < |z.readers| && !z.readers[id].Accepted? && !z.readers[id].Rejected?
    requires z.readers[id].pos < |z.slots| && z.slots[z.readers[id].pos] == s
    ensures Step(z, ReaderStep(id)) == z.(readers := z.readers[id := Load(s, z.readers[id])])
  {
  }

  // What the four loads of an undisturbed reader find in an even slot.
  lemma FourReads(z: System, id: nat, s: Slot, want: nat)
    requires id < |z.readers| && z.readers[id].LoadSeq? && z.readers[id].want == want && s.count % 2 == 0
    requires z.readers[id].pos < |z.slots| && z.slots[z.readers[id].pos] == s
    ensures var r := Run(z, FourLoads(id)).readers;
            id < |r| && r[id] ==
              if s.key == want && s.entry != 0
              then Accepted(z.readers[id].pos, Pair(want, s.entry), s.count, s.count) else Rejected
  {
    SeqParity(s.count);
    var e, none: seq<Event> := ReaderStep(id), [];
    RunAppend(z, none, e);
    RunAppend(z, none + [e], e);
    RunAppend(z, none + [e] + [e], e);
    RunAppend(z, none + [e] + [e] + [e], e);
    assert none + [e] + [e] + [e] + [e] == FourLoads(id);
    StepReads(z, id, s);
    var a := Run(z, none + [e]);
    if a.readers[id].LoadKey? {
      StepReads(a, id, s);
      var b := Run(z, none + [e] + [e]);
      if b.readers[id].LoadEntry? {
        StepReads(b, id, s);
        StepReads(Run(z, none + [e] + [e] + [e]), id, s);
      }
    }
  }

  /** After any run, a reader that is not disturbed and finds no update in progress on its slot accepts
      exactly when the slot's latest update stored its key and some entry, and then takes that entry. */
  lemma QuietReaderAccepts(n: nat, es: seq<Event>, id: nat)
    requires var y := Run(Start(n), es);
             id < |y.readers| && y.readers[id].LoadSeq? && y.readers[id].pos < |y.slots| &&
             !(y.writer.Writing? && y.writer.pos == y.readers[id].pos)
    ensures var y := Run(Start(n), es);
            var s, want, r := y.slots[y.readers[id].pos], y.readers[id].want, Run(y, FourLoads(id)).readers;
            s.log != [] && id < |r| &&
            (r[id].Accepted? <==> Latest(s).key == want && Latest(s).entry != 0) &&
            (r[id].Accepted? ==> r[id].got == Latest(s)) && (r[id].Accepted? || r[id].Rejected?)
  {
    RunKeeps(n, es);
    var y := Run(Start(n), es);
    FourReads(y, id, y.slots[y.readers[id].pos], y.readers[id].want);
  }

  /** The proviso is needed: if seq goes round exactly once while a reader stands between its loads of
      key and entry, the reader accepts the key of one update with the entry of another. */
  lemma RoundTripTears(p: Pair, q: Pair) returns (es: seq<Event>)
    requires p.entry != 0 && q.entry != 0
    ensures Run(Start(1), es).readers == [Accepted(0, Pair(p.key, q.entry), 2, 2 + WRAP)]
  {
    var d := ReaderWaits(p);
    var f := ManyUpdates(Start(1), d, 0, q, WRAP / 2);
    ReaderAccepts(Start(1), f, p.key, q);
    es := f + [ReaderStep(0)] + [ReaderStep(0)];
  }
}
