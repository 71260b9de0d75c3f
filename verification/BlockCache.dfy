/** The block cache of src/cache.c: hash chains over live entries and ghosts (evicted entries whose
    frequency is remembered), a list of each, and their capacities. */
module BlockCache {
  import opened Words
  import opened BlockIr
  import opened Lists

  // ---------------------------------------------------------------- reference: two plain lists, newest first

  datatype Live = Live(key: Word, value: nat, freq: nat)
  datatype Ghost = Ghost(key: Word, freq: nat)

  datatype Model = Model(live: seq<Live>, ghosts: seq<Ghost>)

  function FindLive(s: seq<Live>, key: Word): (i: nat)
    ensures i <= |s| && (i < |s| ==> s[i].key == key) && forall j :: 0 <= j < i ==> s[j].key != key
  {
    if s == [] || s[0].key == key then 0 else 1 + FindLive(s[1..], key)
  }

  function FindGhost(s: seq<Ghost>, key: Word): (i: nat)
    ensures i <= |s| && (i < |s| ==> s[i].key == key) && forall j :: 0 <= j < i ==> s[j].key != key
  {
    if s == [] || s[0].key == key then 0 else 1 + FindGhost(s[1..], key)
  }

  function RemoveAt<T>(s: seq<T>, i: nat): seq<T>
    requires i < |s|
  {
    s[..i] + s[i + 1..]
  }

  // The live entry at i is evicted.
  function Retired(m: Model, i: nat): Model
    requires i < |m.live|
  {
    Model(RemoveAt(m.live, i), [Ghost(m.live[i].key, m.live[i].freq)] + m.ghosts)
  }

  // Evict the entry of the same key, or else the oldest one at capacity.
  function MadeRoom(m: Model, capacity: nat, key: Word): Model {
    var i := FindLive(m.live, key);
    if i < |m.live| then Retired(m, i)
    else if 0 < |m.live| == capacity then Retired(m, capacity - 1)
    else m
  }

  // The newest ghost of a key that is not live gives up its place to the new entry.
  function Revived(m: Model, room: Model, key: Word): Model {
    var g := FindGhost(room.ghosts, key);
    if FindLive(m.live, key) == |m.live| && g < |room.ghosts| then room.(ghosts := RemoveAt(room.ghosts, g)) else room
  }

  // A revived key resumes at its ghost's frequency plus one.
  function FirstFreq(m: Model, key: Word): nat {
    var g := FindGhost(m.ghosts, key);
    if FindLive(m.live, key) == |m.live| && g < |m.ghosts| then m.ghosts[g].freq + 1 else 1
  }

  // Beyond capacity the oldest ghost is forgotten.
  function Trimmed(m: Model, capacity: nat): Model {
    if |m.ghosts| > capacity then m.(ghosts := m.ghosts[..|m.ghosts| - 1]) else m
  }

  // What cache_put does to the two lists.
  function Put(m: Model, capacity: nat, key: Word, value: nat): Model {
    var room := Revived(m, MadeRoom(m, capacity, key), key);
    Trimmed(Model([Live(key, value, FirstFreq(m, key))] + room.live, room.ghosts), capacity)
  }

  // The value that cache_put hands back.
  datatype Evicted = None | Some(value: nat)

  function PutReturns(m: Model, capacity: nat, key: Word): Evicted
    requires 0 < capacity && |m.live| <= capacity
  {
    var i := FindLive(m.live, key);
    if i < |m.live| then Some(m.live[i].value)
    else if |m.live| == capacity then Some(m.live[capacity - 1].value)
    else None
  }

  // ---------------------------------------------------------------- entries, chains and lists

  datatype Entry = Entry(key: Word, value: nat, alive: bool, freq: nat)

  // Entries are named by a stamp that grows with every allocation.
  datatype Tables = Tables(entries: map<nat, Entry>, chains: seq<seq<nat>>, live: seq<nat>, ghosts: seq<nat>, next: nat)

  // cache_hash for 2^n buckets: the top n bits of the product with the golden ratio, masked.
  function Hash(key: Word, buckets: nat): (h: nat)
    requires buckets > 0
    ensures h < buckets
  {
    (Wrap(key * 0x61C8_8647) * buckets / TWO32) % buckets
  }

  ghost predicate Descending(s: seq<nat>) {
    forall i, j :: 0 <= i < j < |s| ==> s[i] > s[j]
  }

  // Ghosts are distinct, and newer ones of the same key come first.
  ghost predicate GhostOrder(s: seq<nat>, entries: map<nat, Entry>) {
    forall i, j :: 0 <= i < j < |s| ==>
      s[i] != s[j] && (s[i] in entries && s[j] in entries && entries[s[i]].key == entries[s[j]].key ==> s[i] > s[j])
  }

  // Every listed entry is in the tables, with the same liveness.
  ghost predicate Members(s: seq<nat>, entries: map<nat, Entry>, alive: bool) {
    forall e :: e in s <==> e in entries && entries[e].alive == alive
  }

  // All entries are listed once, as live or as ghosts.
  ghost predicate Listed(s: Tables) {
    Members(s.live, s.entries, true) && Members(s.ghosts, s.entries, false) && Descending(s.live) &&
      GhostOrder(s.ghosts, s.entries) &&
    forall e :: e in s.entries ==> e < s.next
  }

  // The chain of a bucket holds the entries that hash to it, newest first.
  ghost predicate Chained(s: Tables) {
    |s.chains| > 0 &&
    forall h :: 0 <= h < |s.chains| ==>
      Descending(s.chains[h]) &&
      (forall e :: e in s.chains[h] <==> e in s.entries && Hash(s.entries[e].key, |s.chains|) == h)
  }

  // Only the newest entry of a key can be alive.
  ghost predicate NewestAlive(s: Tables) {
    forall a, b :: a in s.entries && b in s.entries && b < a && s.entries[a].key == s.entries[b].key ==>
      !s.entries[b].alive
  }

  ghost predicate Inv(s: Tables) {
    Listed(s) && Chained(s) && NewestAlive(s)
  }

  function Lookup(s: Tables, e: nat): Entry {
    if e in s.entries then s.entries[e] else Entry(0, 0, false, 0)
  }

  function AsLive(e: Entry): Live {
    Live(e.key, e.value, e.freq)
  }

  function AsGhost(e: Entry): Ghost {
    Ghost(e.key, e.freq)
  }

  ghost function View(s: Tables): Model {
    Model(seq(|s.live|, i requires 0 <= i < |s.live| => AsLive(Lookup(s, s.live[i]))),
          seq(|s.ghosts|, i requires 0 <= i < |s.ghosts| => AsGhost(Lookup(s, s.ghosts[i]))))
  }

  // ---------------------------------------------------------------- evict

  lemma {:induction false} DeleteAt(s: seq<nat>, i: nat)
    requires i < |s| && forall j :: 0 <= j < i ==> s[j] != s[i]
    ensures Delete(s, s[i]) == RemoveAt(s, i)
  {
    if i > 0 {
      assert s[1..][i - 1] == s[i];
      DeleteAt(s[1..], i - 1);
    }
  }

  // The live entry e becomes a ghost.
  function Retire(s: Tables, e: nat): Tables
    requires e in s.entries
  {
    s.(entries := s.entries[e := s.entries[e].(alive := false)], live := Delete(s.live, e), ghosts := [e] + s.ghosts)
  }

  lemma RemoveMembers(s: seq<nat>, i: nat)
    requires i < |s| && forall j :: 0 <= j < |s| && j != i ==> s[j] != s[i]
    ensures forall x :: x in RemoveAt(s, i) <==> x in s && x != s[i]
  {
    forall x | x in s && x != s[i] ensures x in RemoveAt(s, i) {
      var k :| 0 <= k < |s| && s[k] == x;
      assert RemoveAt(s, i)[if k < i then k else k - 1] == x;
    }
  }

  lemma RemoveDescending(s: seq<nat>, i: nat)
    requires Descending(s) && i < |s|
    ensures Descending(RemoveAt(s, i)) && forall x :: x in RemoveAt(s, i) <==> x in s && x != s[i]
  {
    RemoveMembers(s, i);
  }

  lemma DeleteDescendingAt(s: seq<nat>, i: nat)
    requires Descending(s) && i < |s|
    ensures Delete(s, s[i]) == RemoveAt(s, i) && Descending(RemoveAt(s, i))
    ensures forall x :: x in RemoveAt(s, i) <==> x in s && x != s[i]
  {
    DeleteAt(s, i);
    RemoveDescending(s, i);
  }

  lemma RemoveGhostOrder(s: seq<nat>, i: nat, entries: map<nat, Entry>)
    requires GhostOrder(s, entries) && i < |s|
    ensures GhostOrder(RemoveAt(s, i), entries - {s[i]}) && forall x :: x in RemoveAt(s, i) <==> x in s && x != s[i]
  {
    RemoveMembers(s, i);
  }

  lemma RetireMembers(s: Tables, e: nat, live: seq<nat>)
    requires Members(s.live, s.entries, true) && Members(s.ghosts, s.entries, false) && e in s.entries &&
             s.entries[e].alive
    requires forall x :: x in live <==> x in s.live && x != e
    ensures var entries := s.entries[e := s.entries[e].(alive := false)];
            Members(live, entries, true) && Members([e] + s.ghosts, entries, false)
  {
  }

  lemma RetireListed(s: Tables, i: nat)
    requires Listed(s) && NewestAlive(s) && i < |s.live|
    ensures s.live[i] in s.entries && Retire(s, s.live[i]).live == RemoveAt(s.live, i) && Listed(Retire(s, s.live[i]))
  {
    var e := s.live[i];
    assert e in s.live;
    DeleteDescendingAt(s.live, i);
    RetireMembers(s, e, RemoveAt(s.live, i));
    RetireGhostOrder(s, e);
  }

  lemma RetireGhostOrder(s: Tables, e: nat)
    requires Listed(s) && NewestAlive(s) && e in s.entries && s.entries[e].alive
    ensures GhostOrder([e] + s.ghosts, s.entries[e := s.entries[e].(alive := false)])
  {
    forall j | 0 <= j < |s.ghosts|
      ensures e != s.ghosts[j] && (s.entries[e].key == s.entries[s.ghosts[j]].key ==> e > s.ghosts[j]) {
      assert s.ghosts[j] in s.ghosts;
    }
  }

  lemma RemovedAt<T>(v: seq<T>, w: seq<T>, i: nat)
    requires i < |v| && |w| == |v| - 1 && forall k :: 0 <= k < |w| ==> w[k] == v[if k < i then k else k + 1]
    ensures w == RemoveAt(v, i)
  {
  }

  lemma LiveViewRemoved(s: Tables, t: Tables, i: nat)
    requires i < |s.live| && t.live == RemoveAt(s.live, i)
    requires forall x :: x in t.live ==> x in s.entries && x in t.entries && t.entries[x] == s.entries[x]
    ensures View(t).live == RemoveAt(View(s).live, i)
  {
    var v, w := View(s).live, View(t).live;
    forall k | 0 <= k < |w| ensures w[k] == v[if k < i then k else k + 1] {
      assert t.live[k] in t.live && t.live[k] == s.live[if k < i then k else k + 1];
    }
    RemovedAt(v, w, i);
  }

  lemma GhostViewRemoved(s: Tables, t: Tables, i: nat)
    requires i < |s.ghosts| && t.ghosts == RemoveAt(s.ghosts, i)
    requires forall x :: x in t.ghosts ==> x in s.entries && x in t.entries && t.entries[x] == s.entries[x]
    ensures View(t).ghosts == RemoveAt(View(s).ghosts, i)
  {
    var v, w := View(s).ghosts, View(t).ghosts;
    forall k | 0 <= k < |w| ensures w[k] == v[if k < i then k else k + 1] {
      assert t.ghosts[k] in t.ghosts && t.ghosts[k] == s.ghosts[if k < i then k else k + 1];
    }
    RemovedAt(v, w, i);
  }

  lemma GhostViewAdded(s: Tables, t: Tables, e: nat)
    requires Listed(s) && Listed(t) && t.ghosts == [e] + s.ghosts && e !in s.ghosts
    requires forall x :: x in s.ghosts ==> x in t.entries && t.entries[x] == s.entries[x]
    ensures View(t).ghosts == [AsGhost(Lookup(t, e))] + View(s).ghosts
  {
    var v, w := View(t).ghosts, View(s).ghosts;
    forall k | 0 <= k < |w| ensures v[k + 1] == w[k] {
      assert s.ghosts[k] in s.ghosts && t.ghosts[k + 1] == s.ghosts[k];
    }
    Consed(v, AsGhost(Lookup(t, e)), w);
  }

  lemma Consed<T>(v: seq<T>, x: T, w: seq<T>)
    requires |v| == |w| + 1 && v[0] == x && forall k :: 0 <= k < |w| ==> v[k + 1] == w[k]
    ensures v == [x] + w
  {
    assert forall j :: 0 < j < |v| ==> v[j] == v[(j - 1) + 1];
  }

  lemma RetireKeeps(s: Tables, i: nat)
    requires Inv(s) && i < |s.live|
    ensures s.live[i] in s.entries && Inv(Retire(s, s.live[i])) && View(Retire(s, s.live[i])) == Retired(View(s), i)
  {
    var e := s.live[i];
    RetireListed(s, i);
    var t := Retire(s, e);
    RemoveDescending(s.live, i);
    LiveViewRemoved(s, t, i);
    GhostViewAdded(s, t, e);
    RetireChained(s, e);
  }

  lemma RetireChained(s: Tables, e: nat)
    requires Chained(s) && NewestAlive(s) && e in s.entries
    ensures Chained(Retire(s, e)) && NewestAlive(Retire(s, e))
  {
  }

  // ---------------------------------------------------------------- forget

  // The ghost e leaves its list and its chain, and is freed.
  function Forget(s: Tables, e: nat): Tables
    requires e in s.entries && |s.chains| > 0
  {
    var h := Hash(s.entries[e].key, |s.chains|);
    s.(entries := s.entries - {e}, ghosts := Delete(s.ghosts, e), chains := s.chains[h := Delete(s.chains[h], e)])
  }

  lemma ForgetListed(s: Tables, i: nat)
    requires Inv(s) && i < |s.ghosts|
    ensures s.ghosts[i] in s.entries && Forget(s, s.ghosts[i]).ghosts == RemoveAt(s.ghosts, i) &&
            Listed(Forget(s, s.ghosts[i]))
  {
    var e := s.ghosts[i];
    assert e in s.ghosts;
    var t := Forget(s, e);
    DeleteAt(s.ghosts, i);
    RemoveGhostOrder(s.ghosts, i, s.entries);
    assert Members(t.live, t.entries, true) && Members(t.ghosts, t.entries, false);
  }

  lemma DeleteDescending(s: seq<nat>, x: nat)
    requires Descending(s)
    ensures Descending(Delete(s, x)) && forall y :: y in Delete(s, x) <==> y in s && y != x
  {
    if x in s {
      var k :| 0 <= k < |s| && s[k] == x;
      DeleteAt(s, k);
      RemoveDescending(s, k);
    } else {
      DeleteAbsent(s, x);
    }
  }

  lemma {:induction false} DeleteAbsent(s: seq<nat>, x: nat)
    requires x !in s
    ensures Delete(s, x) == s
  {
    if s != [] { DeleteAbsent(s[1..], x); }
  }

  lemma ForgetChained(s: Tables, e: nat)
    requires Chained(s) && e in s.entries
    ensures Chained(Forget(s, e))
  {
    var t := Forget(s, e);
    forall h | 0 <= h < |t.chains|
      ensures Descending(t.chains[h])
      ensures forall x :: x in t.chains[h] <==> x in t.entries && Hash(t.entries[x].key, |t.chains|) == h
    {
      DeleteDescending(s.chains[h], e);
    }
  }

  lemma ForgetKeeps(s: Tables, i: nat)
    requires Inv(s) && i < |s.ghosts|
    ensures s.ghosts[i] in s.entries && Inv(Forget(s, s.ghosts[i]))
    ensures View(Forget(s, s.ghosts[i])) == Model(View(s).live, RemoveAt(View(s).ghosts, i))
  {
    ForgetListed(s, i);
    var t := Forget(s, s.ghosts[i]);
    ForgetChained(s, s.ghosts[i]);
    RemoveGhostOrder(s.ghosts, i, s.entries);
    GhostViewRemoved(s, t, i);
    assert View(t).live == View(s).live;
  }

  // ---------------------------------------------------------------- add

  // A new live entry at the head of its list and chain.
  function Add(s: Tables, key: Word, value: nat, freq: nat): Tables
    requires |s.chains| > 0
  {
    var h := Hash(key, |s.chains|);
    Tables(s.entries[s.next := Entry(key, value, true, freq)], s.chains[h := [s.next] + s.chains[h]],
           [s.next] + s.live, s.ghosts, s.next + 1)
  }

  lemma AddListed(s: Tables, key: Word, value: nat, freq: nat)
    requires Inv(s)
    ensures Listed(Add(s, key, value, freq))
  {
    var t := Add(s, key, value, freq);
    assert Members(t.live, t.entries, true) && Members(t.ghosts, t.entries, false);
    assert Descending(t.live) by {
      forall j | 0 <= j < |s.live| ensures s.live[j] < s.next { assert s.live[j] in s.live; }
    }
    assert GhostOrder(t.ghosts, t.entries) by {
      forall j | 0 <= j < |s.ghosts| ensures s.ghosts[j] in s.entries { assert s.ghosts[j] in s.ghosts; }
    }
  }

  lemma AddChained(s: Tables, key: Word, value: nat, freq: nat)
    requires Listed(s) && Chained(s)
    ensures Chained(Add(s, key, value, freq))
  {
    var t := Add(s, key, value, freq);
    forall h | 0 <= h < |t.chains|
      ensures Descending(t.chains[h])
      ensures forall x :: x in t.chains[h] <==> x in t.entries && Hash(t.entries[x].key, |t.chains|) == h
    {
      forall j | 0 <= j < |s.chains[h]| ensures s.chains[h][j] < s.next { assert s.chains[h][j] in s.chains[h]; }
    }
  }

  lemma AddKeeps(s: Tables, key: Word, value: nat, freq: nat)
    requires Inv(s) && forall e :: e in s.entries && s.entries[e].key == key ==> !s.entries[e].alive
    ensures var t := Add(s, key, value, freq);
            Inv(t) && View(t) == Model([Live(key, value, freq)] + View(s).live, View(s).ghosts)
  {
    var t := Add(s, key, value, freq);
    AddListed(s, key, value, freq);
    AddChained(s, key, value, freq);
    assert NewestAlive(t);
    AddView(s, key, value, freq);
  }

  lemma AddView(s: Tables, key: Word, value: nat, freq: nat)
    requires Listed(s) && |s.chains| > 0 && Listed(Add(s, key, value, freq))
    ensures View(Add(s, key, value, freq)) == Model([Live(key, value, freq)] + View(s).live, View(s).ghosts)
  {
    var t := Add(s, key, value, freq);
    forall j | 0 <= j < |s.live| ensures s.live[j] != s.next { assert s.live[j] in s.live; }
    forall j | 0 <= j < |s.ghosts| ensures s.ghosts[j] != s.next { assert s.ghosts[j] in s.ghosts; }
    assert View(t).live == [Live(key, value, freq)] + View(s).live;
    assert View(t).ghosts == View(s).ghosts;
  }

  // ---------------------------------------------------------------- searching a chain

  // k is the first place in the chain of key that holds an entry of that key.
  ghost predicate FirstIn(s: Tables, key: Word, k: nat)
    requires |s.chains| > 0
  {
    var chain := s.chains[Hash(key, |s.chains|)];
    k <= |chain| && (k < |chain| ==> Lookup(s, chain[k]).key == key) && forall j :: 0 <= j < k ==>
      Lookup(s, chain[j]).key != key
  }

  // The first entry of a key in its chain is the newest.
  lemma FirstIsNewest(s: Tables, key: Word, k: nat, e: nat)
    requires Inv(s) && FirstIn(s, key, k) && e in s.entries && s.entries[e].key == key
    ensures var chain := s.chains[Hash(key, |s.chains|)];
            k < |chain| && chain[k] in s.entries && s.entries[chain[k]].key == key && e <= chain[k]
  {
    var chain := s.chains[Hash(key, |s.chains|)];
    assert e in chain;
    var j :| 0 <= j < |chain| && chain[j] == e;
    assert Lookup(s, chain[j]).key == key;
    assert chain[k] in chain;
  }

  lemma LiveFound(s: Tables, key: Word, e: nat)
    requires Inv(s) && e in s.entries && s.entries[e].key == key && s.entries[e].alive
    ensures var i := FindLive(View(s).live, key); i < |s.live| && s.live[i] == e
  {
    var i := FindLive(View(s).live, key);
    assert e in s.live;
    var j :| 0 <= j < |s.live| && s.live[j] == e;
    assert View(s).live[j].key == key;
    assert s.live[i] in s.live;
    assert View(s).live[i].key == key;
  }

  lemma LiveNotFound(s: Tables, key: Word)
    requires Inv(s) && forall e :: e in s.entries && s.entries[e].key == key ==> !s.entries[e].alive
    ensures FindLive(View(s).live, key) == |s.live|
  {
    forall i | 0 <= i < |s.live| ensures View(s).live[i].key != key { assert s.live[i] in s.live; }
  }

  // The first ghost of a key in the ghost list is the newest.
  lemma GhostFound(s: Tables, key: Word, e: nat)
    requires Inv(s) && e in s.entries && s.entries[e].key == key && !s.entries[e].alive
    requires forall a :: a in s.entries && s.entries[a].key == key ==> a <= e
    ensures var i := FindGhost(View(s).ghosts, key); i < |s.ghosts| && s.ghosts[i] == e
  {
    var i := FindGhost(View(s).ghosts, key);
    assert e in s.ghosts;
    var j :| 0 <= j < |s.ghosts| && s.ghosts[j] == e;
    assert View(s).ghosts[j].key == key;
    assert s.ghosts[i] in s.ghosts;
    assert View(s).ghosts[i].key == key;
  }

  lemma GhostNotFound(s: Tables, key: Word)
    requires Inv(s) && forall e :: e in s.entries ==> s.entries[e].key != key
    ensures FindGhost(View(s).ghosts, key) == |s.ghosts|
  {
    forall i | 0 <= i < |s.ghosts| ensures View(s).ghosts[i].key != key { assert s.ghosts[i] in s.ghosts; }
  }

  // What the first entry of a key says about the two lists.
  lemma FirstDecides(s: Tables, key: Word, k: nat)
    requires Inv(s) && FirstIn(s, key, k)
    ensures var chain := s.chains[Hash(key, |s.chains|)];
            var i, g := FindLive(View(s).live, key), FindGhost(View(s).ghosts, key);
            if k == |chain| then i == |s.live| && g == |s.ghosts|
            else
              chain[k] in s.entries && s.entries[chain[k]].key == key &&
              if s.entries[chain[k]].alive then i < |s.live| && s.live[i] == chain[k]
              else i == |s.live| && g < |s.ghosts| && s.ghosts[g] == chain[k]
  {
    var chain := s.chains[Hash(key, |s.chains|)];
    forall e | e in s.entries && s.entries[e].key == key ensures k < |chain| && e <= chain[k] {
      FirstIsNewest(s, key, k, e);
    }
    if k == |chain| {
      LiveNotFound(s, key);
      GhostNotFound(s, key);
    } else {
      assert chain[k] in chain;
      if s.entries[chain[k]].alive {
        LiveFound(s, key, chain[k]);
      } else {
        LiveNotFound(s, key);
        GhostFound(s, key, chain[k]);
      }
    }
  }

  // ---------------------------------------------------------------- the cache

  class Cache {
    const capacity: nat
    var entries: map<nat, Entry>
    var chains: seq<seq<nat>>
    var live: seq<nat>
    var ghosts: seq<nat>
    var size: nat
    var ghostSize: nat
    var next: nat
    ghost var model: Model        // the two lists of the reference

    // cache_create
    constructor (capacity: nat)
      requires capacity > 0
      ensures Valid() && this.capacity == capacity && model == Model([], [])
    {
      this.capacity := capacity;
      entries, chains, live, ghosts := map[], seq(capacity, _ => []), [], [];
      size, ghostSize, next := 0, 0, 0;
      model := Model([], []);
    }

    ghost function Now(): Tables
      reads this
    {
      Tables(entries, chains, live, ghosts, next)
    }

    // The tables are in order and agree with the reference. Bound to a variable, the body is proved as a
    // whole, not conjunct by conjunct at every use.
    ghost predicate Coherent()
      reads this
    {
      var ok := Inv(Now()) && model == View(Now()) && size == |model.live| && ghostSize == |model.ghosts|;
      ok
    }

    ghost predicate Valid()
      reads this
    {
      Coherent() && capacity > 0 && size <= capacity && ghostSize <= capacity
    }

    // The loop over a hash chain that cache_get and cache_put share: the first entry of the key.
    method Search(key: Word) returns (found: bool, e: nat)
      requires Coherent()
      ensures Coherent()
      ensures var i, g := FindLive(model.live, key), FindGhost(model.ghosts, key);
              if !found then i == size && g == ghostSize
              else
                e in entries && entries[e].key == key &&
                  (forall a :: a in entries && entries[a].key == key ==> a <= e) &&
                if entries[e].alive then i < size == |live| && live[i] == e && model.live[i] == AsLive(entries[e])
                else i == size && g < ghostSize == |ghosts| && ghosts[g] == e && model.ghosts[g] == AsGhost(entries[e])
      ensures forall a :: a in entries && entries[a].key == key && entries[a].alive ==> found && a == e
    {
      var chain := chains[Hash(key, |chains|)];
      var k := 0;
      found, e := false, 0;
      while k < |chain|
        invariant k <= |chain| && forall j :: 0 <= j < k ==> Lookup(Now(), chain[j]).key != key
      {
        assert chain[k] in chain;
        if entries[chain[k]].key == key {
          found, e := true, chain[k];
          break;
        }
        k := k + 1;
      }
      FirstDecides(Now(), key, k);
      NewestFirst(Now(), key, k);
      NoneAlive(Now(), key, k);
    }

    /** cache_get finds exactly the live entry of the key, and counts the use if asked to. */
    method Get(key: Word, update: bool) returns (r: Evicted)
      requires Valid()
      modifies this`entries, this`model
      ensures Valid() && model == if update then Used(old(model), key) else old(model)
      ensures var m := old(model); var i := FindLive(m.live, key);
              r == if i < |m.live| then Some(m.live[i].value) else None
    {
      var found, e := Search(key);
      if !found || !entries[e].alive {
        return None;
      }
      if update {
        UseEntry(e, FindLive(model.live, key));
      }
      return Some(entries[e].value);
    }

    method UseEntry(e: nat, ghost i: nat)
      requires Coherent() && i < |live| && live[i] == e
      modifies this`entries, this`model
      ensures i < |old(model).live| && Coherent() && model == UsedAt(old(model), i)
      ensures e in old(entries) && entries == old(entries)[e := old(entries)[e].(freq := old(entries)[e].freq + 1)]
    {
      ghost var s := Now();
      UseKeeps(s, i);
      entries := entries[e := entries[e].(freq := entries[e].freq + 1)];
      assert Now() == Use(s, e);
      model := UsedAt(model, i);
    }

    // The replaced entry moves from the live list to the ghost list.
    method RetireEntry(e: nat, ghost i: nat)
      requires Coherent() && i < |live| && live[i] == e
      modifies this`entries, this`live, this`ghosts, this`size, this`ghostSize, this`model
      ensures i < |old(model).live| && Coherent() && model == Retired(old(model), i)
      ensures e in old(entries) && entries == old(entries)[e := old(entries)[e].(alive := false)]
    {
      RetireKeeps(Now(), i);
      entries := entries[e := entries[e].(alive := false)];
      live := Delete(live, e);
      size := size - 1;
      ghosts := [e] + ghosts;
      ghostSize := ghostSize + 1;
      model := Retired(model, i);
    }

    // A ghost leaves the ghost list and its hash chain.
    method ForgetEntry(e: nat, ghost i: nat)
      requires Coherent() && i < |ghosts| && ghosts[i] == e
      modifies this`entries, this`chains, this`ghosts, this`ghostSize, this`model
      ensures i < |old(model).ghosts| && Coherent() && model == Model(old(model).live, RemoveAt(old(model).ghosts, i))
      ensures entries == old(entries) - {e}
    {
      ForgetKeeps(Now(), i);
      var h := Hash(entries[e].key, |chains|);
      chains := chains[h := Delete(chains[h], e)];
      ghosts := Delete(ghosts, e);
      ghostSize := ghostSize - 1;
      entries := entries - {e};
      model := model.(ghosts := RemoveAt(model.ghosts, i));
    }

    method AddEntry(key: Word, value: nat, freq: nat)
      requires Coherent() && forall e :: e in entries && entries[e].key == key ==> !entries[e].alive
      modifies this`entries, this`chains, this`live, this`size, this`next, this`model
      ensures Coherent() && model == Model([Live(key, value, freq)] + old(model).live, old(model).ghosts)
    {
      AddKeeps(Now(), key, value, freq);
      var h := Hash(key, |chains|);
      entries := entries[next := Entry(key, value, true, freq)];
      live := [next] + live;
      chains := chains[h := [next] + chains[h]];
      size := size + 1;
      next := next + 1;
      model := model.(live := [Live(key, value, freq)] + model.live);
    }

    // cache_ghost_list_update
    method GhostListUpdate()
      requires Coherent()
      modifies this`entries, this`chains, this`ghosts, this`ghostSize, this`model
      ensures Coherent() && model == Trimmed(old(model), capacity)
    {
      if ghostSize <= capacity {
        return;
      }
      ghost var n := |ghosts| - 1;
      assert RemoveAt(model.ghosts, n) == model.ghosts[..n];
      ForgetEntry(ghosts[|ghosts| - 1], n);
    }

    // The last entry of the live list makes room.
    method EvictOldest() returns (value: nat)
      requires Coherent() && size > 0
      modifies this`entries, this`live, this`ghosts, this`size, this`ghostSize, this`model
      ensures var n := |old(model).live| - 1;
              n >= 0 && Coherent() && model == Retired(old(model), n) && value == old(model).live[n].value
      ensures entries.Keys == old(entries).Keys && forall a :: a in entries ==>
              entries[a].key == old(entries)[a].key && (entries[a].alive ==> old(entries)[a].alive)
    {
      OldestLive(Now());
      var e := live[|live| - 1];
      value := entries[e].value;
      RetireEntry(e, |live| - 1);
    }

    // The eviction in cache_put, after the search.
    method MakeRoom(found: bool, e: nat, ghost key: Word, ghost i: nat) returns (r: Evicted)
      requires Valid() && i == FindLive(model.live, key)
      requires found ==> e in entries
      requires found && entries[e].alive ==> i < |live| && live[i] == e && model.live[i] == AsLive(entries[e])
      requires (found && entries[e].alive) <==> i < |model.live|
      modifies this`entries, this`live, this`ghosts, this`size, this`ghostSize, this`model
      ensures Coherent() && model == MadeRoom(old(model), capacity, key) && r == PutReturns(old(model), capacity, key)
      ensures entries.Keys == old(entries).Keys && forall a :: a in entries ==>
              entries[a].key == old(entries)[a].key && (entries[a].alive ==> old(entries)[a].alive)
      ensures found ==> !entries[e].alive
    {
      r := None;
      if found && entries[e].alive {
        r := Some(entries[e].value);
        RetireEntry(e, i);
      } else if size == capacity {
        var v := EvictOldest();
        r := Some(v);
      }
    }

    /** cache_put keeps the two lists as the reference does, and hands back the block it evicted. */
    method PutEntry(key: Word, value: nat) returns (r: Evicted)
      requires Valid() && ValueOf(model.live, key) != Some(value)
      modifies this
      ensures Valid() && model == Put(old(model), capacity, key, value) && r == PutReturns(old(model), capacity, key)
    {
      ghost var m := model;
      var found, e := Search(key);
      var revived := found && !entries[e].alive;
      var freq := if revived then entries[e].freq + 1 else 1;
      assert freq == FirstFreq(m, key);
      r := MakeRoom(found, e, key, FindLive(m.live, key));
      PutIs(m, capacity, key, value, model, revived);
      if revived {
        Revive(key, e);
      }
      AddEntry(key, value, freq);
      GhostListUpdate();
      PutFits(m, capacity, key, value);
    }

    // One cache_get or cache_put.
    method Perform(op: Op) returns (r: Evicted)
      requires Valid() && Permitted(model, op)
      modifies this
      ensures Valid() && model == Do(old(model), capacity, op) && r == Answer(old(model), capacity, op)
    {
      match op
      case GetOp(key, update) => r := Get(key, update);
      case PutOp(key, value) => r := PutEntry(key, value);
    }

    /** Any run of gets and puts on a new cache is answered as the reference answers it, and leaves the hash
        chains and lists in order. */
    method Serve(ops: seq<Op>) returns (rs: seq<Evicted>)
      requires Valid() && model == Model([], []) && PermittedRun(capacity, ops)
      modifies this
      ensures Valid() && model == After(capacity, ops) && rs == Answers(capacity, ops)
    {
      rs := [];
      assert ops[..0] == [];
      for i := 0 to |ops|
        invariant Valid() && model == After(capacity, ops[..i]) && rs == Answers(capacity, ops[..i])
      {
        RunOne(capacity, ops, i);
        var r := Perform(ops[i]);
        rs := rs + [r];
      }
      assert ops[..|ops|] == ops;
    }

    // The key's newest ghost is removed.
    method Revive(ghost key: Word, e: nat)
      requires Coherent() && e in entries && entries[e].key == key && !entries[e].alive
      requires forall a :: a in entries && entries[a].key == key ==> a <= e
      modifies this`entries, this`chains, this`ghosts, this`ghostSize, this`model
      ensures Coherent() && entries == old(entries) - {e}
      ensures var m := old(model); var g := FindGhost(m.ghosts, key);
              g < |m.ghosts| && model == m.(ghosts := RemoveAt(m.ghosts, g))
    {
      GhostFound(Now(), key, e);
      ForgetEntry(e, FindGhost(model.ghosts, key));
    }
  }

  // ---------------------------------------------------------------- what the reference keeps

  // At most one live entry for each key.
  ghost predicate UniqueKeys(s: seq<Live>) {
    forall i, j :: 0 <= i < j < |s| ==> s[i].key != s[j].key
  }

  function ValueOf(s: seq<Live>, key: Word): Evicted {
    var i := FindLive(s, key);
    if i < |s| then Some(s[i].value) else None
  }

  // The key that cache_put drops: its own, or at capacity that of the oldest insertion.
  function Victim(m: Model, capacity: nat, key: Word): Word
    requires |m.live| <= capacity
  {
    if FindLive(m.live, key) < |m.live| || |m.live| < capacity || capacity == 0 then key else m.live[capacity - 1].key
  }

  lemma FindUnique(s: seq<Live>, i: nat)
    requires UniqueKeys(s) && i < |s|
    ensures FindLive(s, s[i].key) == i
  {
  }

  lemma RemoveUnique(s: seq<Live>, i: nat, q: Word)
    requires UniqueKeys(s) && i < |s|
    ensures UniqueKeys(RemoveAt(s, i)) && ValueOf(RemoveAt(s, i), q) == if q == s[i].key then None else ValueOf(s, q)
  {
    var r := RemoveAt(s, i);
    var k, j := FindLive(s, q), FindLive(r, q);
    assert k < |s| && k != i ==> r[if k < i then k else k - 1] == s[k];
    assert j < |r| ==> s[if j < i then j else j + 1] == r[j];
    if j < |r| { FindUnique(s, if j < i then j else j + 1); }
  }

  lemma ConsUnique(s: seq<Live>, x: Live, q: Word)
    requires UniqueKeys(s) && ValueOf(s, x.key) == None
    ensures UniqueKeys([x] + s) && ValueOf([x] + s, q) == if q == x.key then Some(x.value) else ValueOf(s, q)
  {
    assert ([x] + s)[1..] == s;
    assert forall k :: 0 <= k < |s| ==> s[k].key != x.key;
  }

  lemma RoomLookup(m: Model, capacity: nat, key: Word, q: Word)
    requires capacity > 0 && |m.live| <= capacity && UniqueKeys(m.live)
    ensures var room := MadeRoom(m, capacity, key).live;
            UniqueKeys(room) && ValueOf(room, key) == None &&
              (q != key ==> ValueOf(room, q) == if q == Victim(m, capacity, key) then None else ValueOf(m.live, q))
  {
    var i := FindLive(m.live, key);
    if i < |m.live| {
      RemoveUnique(m.live, i, q);
      RemoveUnique(m.live, i, key);
    } else if |m.live| == capacity {
      RemoveUnique(m.live, capacity - 1, q);
      RemoveUnique(m.live, capacity - 1, key);
    }
  }

  lemma PutLive(m: Model, capacity: nat, key: Word, value: nat)
    ensures Put(m, capacity, key, value).live == [Live(key, value, FirstFreq(m, key))] + MadeRoom(m, capacity, key).live
  {
  }

  /** The live list as a finite map: cache_put binds its key and drops exactly the victim's. */
  lemma PutIsUpdate(m: Model, capacity: nat, key: Word, value: nat, q: Word)
    requires capacity > 0 && |m.live| <= capacity && UniqueKeys(m.live)
    ensures var p := Put(m, capacity, key, value).live;
            UniqueKeys(p) &&
            ValueOf(p, q) == if q == key then Some(value) else if q == Victim(m, capacity, key) then None
              else ValueOf(m.live, q)
  {
    RoomLookup(m, capacity, key, q);
    PutLive(m, capacity, key, value);
    ConsUnique(MadeRoom(m, capacity, key).live, Live(key, value, FirstFreq(m, key)), q);
  }

  // From m to p, cache_put of key drops the binding of q, or replaces it.
  predicate Loses(m: Model, p: Model, key: Word, q: Word) {
    ValueOf(m.live, q) != None && (q == key || ValueOf(p.live, q) == None)
  }

  /** What cache_put hands back is the value of the one key that loses its binding, and nothing exactly when
      none does. */
  lemma HandsBackTheLost(m: Model, capacity: nat, key: Word, value: nat)
    requires capacity > 0 && |m.live| <= capacity && UniqueKeys(m.live)
    ensures var p, r := Put(m, capacity, key, value), PutReturns(m, capacity, key);
            (forall q: Word :: Loses(m, p, key, q) ==> r == ValueOf(m.live, q)) &&
            (r == None <==> forall q: Word :: !Loses(m, p, key, q)) &&
            forall q, q': Word :: Loses(m, p, key, q) && Loses(m, p, key, q') ==> q == q'
  {
    var p, v := Put(m, capacity, key, value), Victim(m, capacity, key);
    forall q: Word ensures Loses(m, p, key, q) <==> q == v && ValueOf(m.live, q) != None {
      PutIsUpdate(m, capacity, key, value, q);
    }
    VictimValue(m, capacity, key);
    assert ValueOf(m.live, v) != None ==> Loses(m, p, key, v);
  }

  lemma VictimValue(m: Model, capacity: nat, key: Word)
    requires capacity > 0 && |m.live| <= capacity && UniqueKeys(m.live)
    ensures PutReturns(m, capacity, key) == ValueOf(m.live, Victim(m, capacity, key))
  {
    if FindLive(m.live, key) == |m.live| == capacity { FindUnique(m.live, capacity - 1); }
  }

  // No list outgrows the capacity.
  lemma PutFits(m: Model, capacity: nat, key: Word, value: nat)
    requires capacity > 0 && |m.live| <= capacity && |m.ghosts| <= capacity
    ensures var p := Put(m, capacity, key, value); |p.live| <= capacity && |p.ghosts| <= capacity
  {
  }

  // cache_put, up to the eviction and the revival.
  lemma PutIs(m: Model, capacity: nat, key: Word, value: nat, room: Model, revived: bool)
    requires room == MadeRoom(m, capacity, key)
    requires revived <==> FindLive(m.live, key) == |m.live| && FindGhost(m.ghosts, key) < |m.ghosts|
    ensures var g := FindGhost(room.ghosts, key);
            revived ==> g < |room.ghosts| && room.ghosts[g] == m.ghosts[FindGhost(m.ghosts, key)] &&
                        g == FindGhost(m.ghosts, key) + |room.ghosts| - |m.ghosts|
    ensures var g := FindGhost(room.ghosts, key);
            var rest := if revived then room.(ghosts := RemoveAt(room.ghosts, g)) else room;
            Put(m, capacity, key, value) == Trimmed(Model([Live(key, value, FirstFreq(m, key))] + rest.live,
              rest.ghosts), capacity)
  {
    if revived {
      SameGhost(m, room, capacity, key);
    } else {
      NoGhost(m, room, capacity, key);
    }
  }

  // Evicting an entry of another key does not change which ghost of the key comes first.
  lemma SameGhost(m: Model, room: Model, capacity: nat, key: Word)
    requires room == MadeRoom(m, capacity, key) && FindLive(m.live, key) == |m.live| &&
             FindGhost(m.ghosts, key) < |m.ghosts|
    ensures FindGhost(room.ghosts, key) == FindGhost(m.ghosts, key) + |room.ghosts| - |m.ghosts|
  {
    if room != m {
      assert room.ghosts[1..] == m.ghosts;
    }
  }

  lemma OldestLive(s: Tables)
    requires Listed(s) && s.live != []
    ensures var n := |s.live| - 1; s.live[n] in s.entries && View(s).live[n] == AsLive(s.entries[s.live[n]])
  {
    assert s.live[|s.live| - 1] in s.live;
  }

  // One more use of the live entry at i.
  function UsedAt(m: Model, i: nat): Model
    requires i < |m.live|
  {
    m.(live := m.live[i := m.live[i].(freq := m.live[i].freq + 1)])
  }

  // One more use of the live entry of a key, if there is one.
  function Used(m: Model, key: Word): Model {
    var i := FindLive(m.live, key);
    if i < |m.live| then UsedAt(m, i) else m
  }

  function Use(s: Tables, e: nat): Tables
    requires e in s.entries
  {
    s.(entries := s.entries[e := s.entries[e].(freq := s.entries[e].freq + 1)])
  }

  lemma UseListed(s: Tables, e: nat)
    requires Inv(s) && e in s.entries
    ensures Inv(Use(s, e))
  {
    var t := Use(s, e);
    assert Members(t.live, t.entries, true) && Members(t.ghosts, t.entries, false) && GhostOrder(t.ghosts, t.entries);
    assert Chained(t) && NewestAlive(t);
  }

  lemma UseKeeps(s: Tables, i: nat)
    requires Inv(s) && i < |s.live|
    ensures s.live[i] in s.entries && Inv(Use(s, s.live[i])) && View(Use(s, s.live[i])) == UsedAt(View(s), i)
  {
    var e := s.live[i];
    assert e in s.live;
    UseListed(s, e);
    var t := Use(s, e);
    forall k | 0 <= k < |s.ghosts| ensures s.ghosts[k] != e { assert s.ghosts[k] in s.ghosts; }
    assert View(t).ghosts == View(s).ghosts;
    assert View(t).live == UsedAt(View(s), i).live;
  }

  // Without the first entry of the key, none is alive.
  lemma NoneAlive(s: Tables, key: Word, k: nat)
    requires Inv(s) && FirstIn(s, key, k)
    ensures var chain := s.chains[Hash(key, |s.chains|)];
            forall e :: e in s.entries && s.entries[e].key == key && s.entries[e].alive ==> k < |chain| && e == chain[k]
  {
    forall e | e in s.entries && s.entries[e].key == key && s.entries[e].alive
      ensures k < |s.chains[Hash(key, |s.chains|)]| && e == s.chains[Hash(key, |s.chains|)][k]
    {
      FirstIsNewest(s, key, k, e);
    }
  }

  lemma NewestFirst(s: Tables, key: Word, k: nat)
    requires Inv(s) && FirstIn(s, key, k)
    ensures var chain := s.chains[Hash(key, |s.chains|)];
            forall e :: e in s.entries && s.entries[e].key == key ==> k < |chain| && e <= chain[k]
  {
    forall e | e in s.entries && s.entries[e].key == key
      ensures k < |s.chains[Hash(key, |s.chains|)]| && e <= s.chains[Hash(key, |s.chains|)][k]
    {
      FirstIsNewest(s, key, k, e);
    }
  }

  // A key that is live, or has no entry at all, has no ghost to revive.
  lemma NoGhost(m: Model, room: Model, capacity: nat, key: Word)
    requires room == MadeRoom(m, capacity, key) &&
             (FindLive(m.live, key) < |m.live| || FindGhost(m.ghosts, key) == |m.ghosts|)
    ensures Revived(m, room, key) == room
  {
    if FindLive(m.live, key) == |m.live| && room != m {
      forall j | 0 <= j < |room.ghosts| ensures room.ghosts[j].key != key {
        if j > 0 { assert room.ghosts[j] == m.ghosts[j - 1]; }
      }
    }
  }

  // ---------------------------------------------------------------- runs of the reference

  datatype Op = GetOp(key: Word, update: bool) | PutOp(key: Word, value: nat)

  function Do(m: Model, capacity: nat, op: Op): Model {
    match op
    case GetOp(key, update) => if update then Used(m, key) else m
    case PutOp(key, value) => Put(m, capacity, key, value)
  }

  function After(capacity: nat, ops: seq<Op>): Model {
    if ops == [] then Model([], []) else Do(After(capacity, ops[..|ops| - 1]), capacity, ops[|ops| - 1])
  }

  // cache_put is not called with the value that its key has already.
  predicate Permitted(m: Model, op: Op) {
    op.PutOp? ==> ValueOf(m.live, op.key) != Some(op.value)
  }

  ghost predicate PermittedRun(capacity: nat, ops: seq<Op>) {
    forall i :: 0 <= i < |ops| ==> Permitted(After(capacity, ops[..i]), ops[i])
  }

  // What the reference answers: the value of the key, or the value that is evicted.
  function Answer(m: Model, capacity: nat, op: Op): Evicted {
    match op
    case GetOp(key, _) => ValueOf(m.live, key)
    case PutOp(key, _) => if 0 < capacity && |m.live| <= capacity then PutReturns(m, capacity, key) else None
  }

  // The answers to a run on a new cache.
  function Answers(capacity: nat, ops: seq<Op>): (rs: seq<Evicted>)
    ensures |rs| == |ops|
  {
    if ops == [] then []
    else
      var before, op := ops[..|ops| - 1], ops[|ops| - 1];
      Answers(capacity, before) + [Answer(After(capacity, before), capacity, op)]
  }

  lemma RunOne(capacity: nat, ops: seq<Op>, i: nat)
    requires i < |ops|
    ensures After(capacity, ops[..i + 1]) == Do(After(capacity, ops[..i]), capacity, ops[i])
    ensures Answers(capacity, ops[..i + 1]) ==
            Answers(capacity, ops[..i]) + [Answer(After(capacity, ops[..i]), capacity, ops[i])]
    ensures PermittedRun(capacity, ops) ==> Permitted(After(capacity, ops[..i]), ops[i])
  {
    assert ops[..i + 1][..i] == ops[..i];
  }

  /** Over any run, at most one live entry exists for each key and neither list outgrows the capacity. */
  lemma {:induction false} RunsStayInOrder(capacity: nat, ops: seq<Op>)
    requires capacity > 0
    ensures var m := After(capacity, ops); UniqueKeys(m.live) && |m.live| <= capacity && |m.ghosts| <= capacity
  {
    if ops != [] {
      RunsStayInOrder(capacity, ops[..|ops| - 1]);
      var m, op := After(capacity, ops[..|ops| - 1]), ops[|ops| - 1];
      if op.PutOp? {
        PutFits(m, capacity, op.key, op.value);
        PutIsUpdate(m, capacity, op.key, op.value, op.key);
      }
    }
  }

  // ---------------------------------------------------------------- no block is lost or handed back twice

  // The values of the live entries.
  function Values(s: seq<Live>): multiset<nat> {
    if s == [] then multiset{} else multiset{s[0].value} + Values(s[1..])
  }

  function Single(r: Evicted): multiset<nat> {
    if r.Some? then multiset{r.value} else multiset{}
  }

  // The value that an operation puts in, and the one that it hands back for good.
  function In(op: Op): multiset<nat> {
    if op.PutOp? then multiset{op.value} else multiset{}
  }

  function Back(op: Op, r: Evicted): multiset<nat> {
    if op.PutOp? then Single(r) else multiset{}
  }

  function PutIn(ops: seq<Op>): multiset<nat> {
    if ops == [] then multiset{} else PutIn(ops[..|ops| - 1]) + In(ops[|ops| - 1])
  }

  function HandedBack(ops: seq<Op>, rs: seq<Evicted>): multiset<nat>
    requires |ops| == |rs|
  {
    var n := |ops| - 1;
    if ops == [] then multiset{} else HandedBack(ops[..n], rs[..n]) + Back(ops[n], rs[n])
  }

  lemma {:induction false} ValuesWithout(s: seq<Live>, i: nat)
    requires i < |s|
    ensures Values(s) == multiset{s[i].value} + Values(RemoveAt(s, i))
    decreases i
  {
    if i == 0 {
      assert RemoveAt(s, 0) == s[1..];
    } else {
      ValuesWithout(s[1..], i - 1);
      assert RemoveAt(s, i)[1..] == RemoveAt(s[1..], i - 1);
    }
  }

  lemma {:induction false} ValuesUsed(s: seq<Live>, i: nat)
    requires i < |s|
    ensures Values(s[i := s[i].(freq := s[i].freq + 1)]) == Values(s)
    decreases i
  {
    var t := s[i := s[i].(freq := s[i].freq + 1)];
    if i == 0 {
      assert t[1..] == s[1..];
    } else {
      ValuesUsed(s[1..], i - 1);
      assert t[1..] == s[1..][i - 1 := s[i].(freq := s[i].freq + 1)];
    }
  }

  lemma {:induction false} ValuesCons(x: Live, s: seq<Live>)
    ensures Values([x] + s) == multiset{x.value} + Values(s)
  {
    assert ([x] + s)[1..] == s;
  }

  lemma {:induction false} RoomConserves(m: Model, capacity: nat, key: Word)
    requires 0 < capacity && |m.live| <= capacity
    ensures Values(MadeRoom(m, capacity, key).live) + Single(PutReturns(m, capacity, key)) == Values(m.live)
  {
    var i := FindLive(m.live, key);
    if i < |m.live| {
      ValuesWithout(m.live, i);
    } else if |m.live| == capacity {
      ValuesWithout(m.live, capacity - 1);
    }
  }

  lemma {:induction false} PutConserves(m: Model, capacity: nat, key: Word, value: nat)
    requires 0 < capacity && |m.live| <= capacity
    ensures Values(Put(m, capacity, key, value).live) + Single(PutReturns(m, capacity, key)) ==
            Values(m.live) + multiset{value}
  {
    PutLive(m, capacity, key, value);
    RoomConserves(m, capacity, key);
    ValuesCons(Live(key, value, FirstFreq(m, key)), MadeRoom(m, capacity, key).live);
  }

  lemma {:induction false} DoConserves(m: Model, capacity: nat, op: Op)
    requires 0 < capacity && |m.live| <= capacity
    ensures Values(Do(m, capacity, op).live) + Back(op, Answer(m, capacity, op)) == Values(m.live) + In(op)
  {
    match op
    case GetOp(key, update) =>
      var i := FindLive(m.live, key);
      if i < |m.live| { ValuesUsed(m.live, i); }
    case PutOp(key, value) => PutConserves(m, capacity, key, value);
  }

  /** Over any run, the values put in are those that are live and those that were handed back. */
  lemma {:induction false} RunConserves(capacity: nat, ops: seq<Op>)
    requires capacity > 0
    ensures PutIn(ops) == Values(After(capacity, ops).live) + HandedBack(ops, Answers(capacity, ops))
    decreases |ops|
  {
    if ops != [] {
      var n := |ops| - 1;
      var m, op, rs := After(capacity, ops[..n]), ops[n], Answers(capacity, ops[..n]);
      RunConserves(capacity, ops[..n]);
      RunsStayInOrder(capacity, ops[..n]);
      DoConserves(m, capacity, op);
      var r := Answer(m, capacity, op);
      HandedBackMore(ops, rs, r);
      Balance(PutIn(ops[..n]), Values(m.live), HandedBack(ops[..n], rs), In(op), Back(op, r),
              Values(Do(m, capacity, op).live));
    }
  }

  lemma Balance(put: multiset<nat>, live: multiset<nat>, back: multiset<nat>, i: multiset<nat>, b: multiset<nat>,
                next: multiset<nat>)
    requires put == live + back && next + b == live + i
    ensures put + i == next + (back + b)
  {
    assert put + i == (live + i) + back;
    assert (next + b) + back == next + (back + b);
  }

  lemma HandedBackMore(ops: seq<Op>, rs: seq<Evicted>, r: Evicted)
    requires |ops| == |rs| + 1
    ensures HandedBack(ops, rs + [r]) == HandedBack(ops[..|rs|], rs) + Back(ops[|rs|], r)
  {
    assert (rs + [r])[..|rs|] == rs;
  }

  // Every put brings in a block that is not in the cache.
  ghost predicate NewValues(capacity: nat, ops: seq<Op>) {
    forall i :: 0 <= i < |ops| && ops[i].PutOp? ==> ops[i].value !in Values(After(capacity, ops[..i]).live)
  }

  lemma {:induction false} BoundIsCounted(s: seq<Live>, q: Word)
    requires ValueOf(s, q) != None
    ensures ValueOf(s, q).value in Values(s)
  {
    ValuesWithout(s, FindLive(s, q));
  }

  // No value is live twice.
  lemma {:induction false} LiveOnce(capacity: nat, ops: seq<Op>, v: nat)
    requires capacity > 0 && NewValues(capacity, ops)
    ensures Values(After(capacity, ops).live)[v] <= 1
    decreases |ops|
  {
    if ops != [] {
      var n := |ops| - 1;
      NewBefore(capacity, ops, n);
      LiveOnce(capacity, ops[..n], v);
      RunsStayInOrder(capacity, ops[..n]);
      var m, op := After(capacity, ops[..n]), ops[n];
      DoConserves(m, capacity, op);
      assert (Values(Do(m, capacity, op).live) + Back(op, Answer(m, capacity, op)))[v] == (Values(m.live) + In(op))[v];
      assert Values(m.live)[v] + In(op)[v] <= 1;
    }
  }

  lemma NewBefore(capacity: nat, ops: seq<Op>, n: nat)
    requires NewValues(capacity, ops) && n <= |ops|
    ensures NewValues(capacity, ops[..n])
  {
    forall i | 0 <= i < n && ops[..n][i].PutOp?
      ensures ops[..n][i].value !in Values(After(capacity, ops[..n][..i]).live)
    {
      assert ops[..n][..i] == ops[..i];
    }
  }

  lemma {:induction false} UnboundAfter(m: Model, capacity: nat, key: Word, value: nat, q: Word)
    requires 0 < capacity && |m.live| <= capacity && value !in Values(m.live)
    requires var r := PutReturns(m, capacity, key); r.Some? ==> Values(m.live)[r.value] <= 1
    ensures var r := PutReturns(m, capacity, key);
            r.Some? ==> r.value in Values(m.live) && ValueOf(Put(m, capacity, key, value).live, q) != r
  {
    var r, p := PutReturns(m, capacity, key), Put(m, capacity, key, value);
    if r.Some? {
      RoomConserves(m, capacity, key);
      PutConserves(m, capacity, key, value);
      if ValueOf(p.live, q) == r { BoundIsCounted(p.live, q); }
    }
  }

  /** The value that a put hands back was live before and is bound to no key afterwards, so that the caller
      may free it. */
  lemma {:induction false} HandedBackIsUnbound(capacity: nat, ops: seq<Op>, key: Word, value: nat, q: Word)
    requires capacity > 0 && NewValues(capacity, ops + [PutOp(key, value)])
    ensures var m, p := After(capacity, ops), After(capacity, ops + [PutOp(key, value)]);
            var r := Answers(capacity, ops + [PutOp(key, value)])[|ops|];
            r.Some? ==> r.value in Values(m.live) && ValueOf(p.live, q) != r
  {
    var op, m := PutOp(key, value), After(capacity, ops);
    AfterOne(capacity, ops, op);
    AnswersOne(capacity, ops, op);
    RunsStayInOrder(capacity, ops);
    NewLast(capacity, ops, op);
    var r := PutReturns(m, capacity, key);
    if r.Some? { LiveOnce(capacity, ops, r.value); }
    UnboundAfter(m, capacity, key, value, q);
  }

  lemma {:induction false} AnswersOne(capacity: nat, ops: seq<Op>, op: Op)
    ensures Answers(capacity, ops + [op])[|ops|] == Answer(After(capacity, ops), capacity, op)
  {
    assert (ops + [op])[..|ops|] == ops;
  }

  lemma {:induction false} NewLast(capacity: nat, ops: seq<Op>, op: Op)
    requires NewValues(capacity, ops + [op]) && op.PutOp?
    ensures NewValues(capacity, ops) && op.value !in Values(After(capacity, ops).live)
  {
    var all := ops + [op];
    NewBefore(capacity, all, |ops|);
    assert all[..|ops|] == ops && all[|ops|] == op;
  }

  // ---------------------------------------------------------------- what becomes of an evicted key

  // The frequency that the newest ghost of a key remembers.
  function GhostOf(s: seq<Ghost>, q: Word): Evicted {
    var g := FindGhost(s, q);
    if g < |s| then Some(s[g].freq) else None
  }

  lemma GhostCons(x: Ghost, s: seq<Ghost>, q: Word)
    ensures GhostOf([x] + s, q) == if x.key == q then Some(x.freq) else GhostOf(s, q)
  {
    assert ([x] + s)[1..] == s;
  }

  lemma FirstGhost(s: seq<Ghost>, q: Word, g: nat)
    requires g < |s| && s[g].key == q && forall j :: 0 <= j < g ==> s[j].key != q
    ensures GhostOf(s, q) == Some(s[g].freq)
  {
  }

  lemma GhostWithout(s: seq<Ghost>, i: nat, q: Word)
    requires i < |s| && s[i].key != q
    ensures GhostOf(RemoveAt(s, i), q) == GhostOf(s, q)
  {
    var r, g := RemoveAt(s, i), FindGhost(s, q);
    if g < |s| {
      FirstGhost(r, q, if g < i then g else g - 1);
    } else {
      assert forall j :: 0 <= j < |r| ==> r[j] == s[if j < i then j else j + 1];
    }
  }

  lemma GhostButLast(s: seq<Ghost>, q: Word)
    requires s != []
    ensures var r := s[..|s| - 1]; GhostOf(r, q) == GhostOf(s, q) || (GhostOf(r, q) == None && s[|s| - 1].key == q)
    ensures |s| > 1 && s[0].key == q ==> GhostOf(s[..|s| - 1], q) == Some(s[0].freq)
  {
    var r, g := s[..|s| - 1], FindGhost(s, q);
    if g < |r| {
      FirstGhost(r, q, g);
    }
  }

  // The ghosts of another key, up to the trimming.
  lemma GhostInRoom(m: Model, capacity: nat, key: Word, q: Word)
    requires q != key && |m.live| <= capacity
    ensures GhostOf(Revived(m, MadeRoom(m, capacity, key), key).ghosts, q) ==
            if q == Victim(m, capacity, key) then Some(m.live[capacity - 1].freq) else GhostOf(m.ghosts, q)
  {
    var room := MadeRoom(m, capacity, key);
    var i, g := FindLive(m.live, key), FindGhost(room.ghosts, key);
    if i < |m.live| {
      GhostCons(Ghost(m.live[i].key, m.live[i].freq), m.ghosts, q);
    } else if 0 < |m.live| == capacity {
      GhostCons(Ghost(m.live[capacity - 1].key, m.live[capacity - 1].freq), m.ghosts, q);
    }
    if i == |m.live| && g < |room.ghosts| {
      GhostWithout(room.ghosts, g, q);
    }
  }

  lemma PutGhosts(m: Model, capacity: nat, key: Word, value: nat)
    ensures var s := Revived(m, MadeRoom(m, capacity, key), key).ghosts;
            Put(m, capacity, key, value).ghosts == if |s| > capacity then s[..|s| - 1] else s
  {
  }

  // A later cache_put of another key leaves the newest ghost of q as it is, or forgets q.
  lemma PutKeepsGhost(m: Model, capacity: nat, key: Word, value: nat, q: Word)
    requires capacity > 0 && |m.live| <= capacity && UniqueKeys(m.live) && q != key && ValueOf(m.live, q) == None
    ensures var p := Put(m, capacity, key, value);
            ValueOf(p.live, q) == None && (GhostOf(p.ghosts, q) == GhostOf(m.ghosts, q) || GhostOf(p.ghosts, q) == None)
  {
    PutIsUpdate(m, capacity, key, value, q);
    GhostInRoom(m, capacity, key, q);
    PutGhosts(m, capacity, key, value);
    var s := Revived(m, MadeRoom(m, capacity, key), key).ghosts;
    if |s| > capacity { GhostButLast(s, q); }
  }

  // The victim's own ghost is in front, whichever ghosts are revived or forgotten by the same call.
  lemma VictimInFront(m: Model, capacity: nat, key: Word)
    requires 0 < |m.live| == capacity && FindLive(m.live, key) == |m.live|
    ensures var s, v := Revived(m, MadeRoom(m, capacity, key), key).ghosts, m.live[capacity - 1];
            s != [] && s[0] == Ghost(v.key, v.freq)
  {
    var room := MadeRoom(m, capacity, key);
    assert room.ghosts[0].key != key;
  }

  lemma EvictedIsRemembered(m: Model, capacity: nat, key: Word, value: nat)
    requires 0 < |m.live| == capacity && UniqueKeys(m.live) && FindLive(m.live, key) == |m.live|
    ensures var p, v := Put(m, capacity, key, value), m.live[capacity - 1];
            ValueOf(p.live, v.key) == None && GhostOf(p.ghosts, v.key) == Some(v.freq)
  {
    var s, v := Revived(m, MadeRoom(m, capacity, key), key).ghosts, m.live[capacity - 1];
    assert v.key != key;
    PutIsUpdate(m, capacity, key, value, v.key);
    VictimInFront(m, capacity, key);
    PutGhosts(m, capacity, key, value);
    FirstGhost(s, v.key, 0);
    if |s| > capacity { GhostButLast(s, v.key); }
  }

  lemma AfterOne(capacity: nat, ops: seq<Op>, op: Op)
    ensures After(capacity, ops + [op]) == Do(After(capacity, ops), capacity, op)
  {
    assert (ops + [op])[..|ops|] == ops;
  }

  lemma UsedAbsent(m: Model, key: Word, q: Word)
    requires ValueOf(m.live, q) == None
    ensures ValueOf(Used(m, key).live, q) == None && Used(m, key).ghosts == m.ghosts
  {
  }

  // From m to n, the newest ghost of q, which is not live, stays as it is or is forgotten.
  ghost predicate GhostKept(m: Model, n: Model, q: Word) {
    ValueOf(n.live, q) == None && (GhostOf(n.ghosts, q) == GhostOf(m.ghosts, q) || GhostOf(n.ghosts, q) == None)
  }

  lemma GhostKeptOn(m: Model, n: Model, k: Model, q: Word)
    requires GhostKept(m, n, q) && GhostKept(n, k, q)
    ensures GhostKept(m, k, q)
  {
  }

  lemma GhostsStep(m: Model, capacity: nat, op: Op, q: Word)
    requires capacity > 0 && |m.live| <= capacity && UniqueKeys(m.live) && ValueOf(m.live, q) == None
    requires !(op.PutOp? && op.key == q)
    ensures GhostKept(m, Do(m, capacity, op), q)
  {
    if op.GetOp? {
      UsedAbsent(m, op.key, q);
    } else {
      PutKeepsGhost(m, capacity, op.key, op.value, q);
    }
  }

  // One more operation of a run.
  lemma GhostsMore(capacity: nat, ops: seq<Op>, op: Op, q: Word)
    requires capacity > 0 && ValueOf(After(capacity, ops).live, q) == None && !(op.PutOp? && op.key == q)
    ensures GhostKept(After(capacity, ops), After(capacity, ops + [op]), q)
  {
    RunsStayInOrder(capacity, ops);
    AfterOne(capacity, ops, op);
    GhostsStep(After(capacity, ops), capacity, op, q);
  }

  // Until q is put again, its newest ghost stays as it is or is forgotten.
  lemma {:induction false} GhostsLast(capacity: nat, before: seq<Op>, ops: seq<Op>, q: Word)
    requires capacity > 0 && ValueOf(After(capacity, before).live, q) == None
    requires forall k :: 0 <= k < |ops| ==> !(ops[k].PutOp? && ops[k].key == q)
    ensures GhostKept(After(capacity, before), After(capacity, before + ops), q)
    decreases |ops|
  {
    if ops == [] {
      assert before + ops == before;
    } else {
      var most, op := ops[..|ops| - 1], ops[|ops| - 1];
      var run := before + most;
      assert before + ops == run + [op];
      GhostsLast(capacity, before, most, q);
      GhostsMore(capacity, run, op, q);
      GhostKeptOn(After(capacity, before), After(capacity, run), After(capacity, run + [op]), q);
    }
  }

  /** A key evicted with frequency f, and put again after any operations on other keys, resumes at f + 1
      if it still has a ghost, and starts at 1 if not. */
  lemma RevivedResumes(capacity: nat, before: seq<Op>, key: Word, value: nat, ops: seq<Op>, value': nat)
    requires 0 < |After(capacity, before).live| == capacity && ValueOf(After(capacity, before).live, key) == None
    requires var q := After(capacity, before).live[capacity - 1].key; forall k :: 0 <= k < |ops| ==>
             !(ops[k].PutOp? && ops[k].key == q)
    ensures var v := After(capacity, before).live[capacity - 1];
            var n := After(capacity, before + [PutOp(key, value)] + ops);
            var p := Put(n, capacity, v.key, value').live;
            p != [] && p[0] == Live(v.key, value', if GhostOf(n.ghosts, v.key) == None then 1 else v.freq + 1)
  {
    var v := After(capacity, before).live[capacity - 1];
    RunsStayInOrder(capacity, before);
    AfterOne(capacity, before, PutOp(key, value));
    EvictedIsRemembered(After(capacity, before), capacity, key, value);
    GhostsLast(capacity, before + [PutOp(key, value)], ops, v.key);
    PutLive(After(capacity, before + [PutOp(key, value)] + ops), capacity, v.key, value');
  }

  // ---------------------------------------------------------------- frequencies count uses

  function FreqOf(s: seq<Live>, q: Word): Evicted {
    var i := FindLive(s, q);
    if i < |s| then Some(s[i].freq) else None
  }

  // The counted look-ups of a key.
  function Gets(ops: seq<Op>, q: Word): nat {
    if ops == [] then 0 else Gets(ops[..|ops| - 1], q) + if ops[|ops| - 1] == GetOp(q, true) then 1 else 0
  }

  // A live entry that a put of another key does not evict keeps its frequency.
  lemma PutKeepsFreq(m: Model, capacity: nat, key: Word, value: nat, q: Word)
    requires capacity > 0 && |m.live| <= capacity && UniqueKeys(m.live) && q != key
    ensures var p := Put(m, capacity, key, value).live; ValueOf(p, q) != None ==> FreqOf(p, q) == FreqOf(m.live, q)
  {
    var p, room := Put(m, capacity, key, value).live, MadeRoom(m, capacity, key).live;
    PutLive(m, capacity, key, value);
    var j := FindLive(p, q);
    if j < |p| {
      assert p[j] == room[j - 1];
      assert forall k :: 0 <= k < |room| ==> room[k] in m.live;
      var i :| 0 <= i < |m.live| && m.live[i] == room[j - 1];
      FindUnique(m.live, i);
    }
  }

  lemma UsedFreq(m: Model, key: Word, q: Word)
    ensures FreqOf(Used(m, key).live, q) ==
            if q == key && FreqOf(m.live, q).Some? then Some(FreqOf(m.live, q).value + 1) else FreqOf(m.live, q)
    ensures ValueOf(Used(m, key).live, q) == ValueOf(m.live, q)
  {
    var u := Used(m, key);
    assert forall k :: 0 <= k < |m.live| ==> u.live[k].key == m.live[k].key && u.live[k].value == m.live[k].value;
    assert FindLive(u.live, q) == FindLive(m.live, q);
  }

  lemma FreqStep(m: Model, capacity: nat, op: Op, q: Word)
    requires capacity > 0 && |m.live| <= capacity && UniqueKeys(m.live) && !(op.PutOp? && op.key == q)
    requires ValueOf(Do(m, capacity, op).live, q) != None
    ensures var f := FreqOf(m.live, q);
            ValueOf(m.live, q) != None && f.Some? &&
            FreqOf(Do(m, capacity, op).live, q) == Some(f.value + Gets([op], q))
  {
    assert Gets([op][..0], q) == 0;
    match op
    case GetOp(key, update) => UsedFreq(m, key, q);
    case PutOp(key, value) =>
      PutKeepsFreq(m, capacity, key, value, q);
      PutIsUpdate(m, capacity, key, value, q);
  }

  lemma {:induction false} FreqMore(capacity: nat, run: seq<Op>, op: Op, q: Word)
    requires capacity > 0 && !(op.PutOp? && op.key == q) && ValueOf(After(capacity, run + [op]).live, q) != None
    ensures var f := FreqOf(After(capacity, run).live, q);
            ValueOf(After(capacity, run).live, q) != None && f.Some? &&
            FreqOf(After(capacity, run + [op]).live, q) == Some(f.value + Gets([op], q))
  {
    AfterOne(capacity, run, op);
    RunsStayInOrder(capacity, run);
    FreqStep(After(capacity, run), capacity, op, q);
  }

  lemma GetsMore(ops: seq<Op>, op: Op, q: Word)
    ensures Gets(ops + [op], q) == Gets(ops, q) + Gets([op], q)
  {
    assert (ops + [op])[..|ops|] == ops && [op][..0] == [];
  }

  /** As long as a key stays live without being put again, the frequency of its entry grows by one with every
      counted look-up, and by nothing else. */
  lemma {:induction false} FreqCountsUses(capacity: nat, before: seq<Op>, ops: seq<Op>, q: Word)
    requires capacity > 0 && ValueOf(After(capacity, before + ops).live, q) != None
    requires forall k :: 0 <= k < |ops| ==> !(ops[k].PutOp? && ops[k].key == q)
    ensures var f, g := FreqOf(After(capacity, before).live, q), FreqOf(After(capacity, before + ops).live, q);
            f.Some? && g == Some(f.value + Gets(ops, q))
    decreases |ops|
  {
    if ops != [] {
      var n := |ops| - 1;
      var most, op := ops[..n], ops[n];
      assert before + ops == (before + most) + [op] && most + [op] == ops;
      FreqMore(capacity, before + most, op, q);
      FreqCountsUses(capacity, before, most, q);
      GetsMore(most, op, q);
    } else {
      assert before + ops == before;
    }
  }
}
