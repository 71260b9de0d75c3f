/** Finding translated blocks by PC in the interpreter: a linear-probing table of 1024 slots behind a
    direct-mapped L1 cache of 256 entries (src/emulate.c, src/riscv.c). */
module BlockLookup {
  import opened Words
  import opened BlockIr

  const CAPACITY := 1024       // 1 << BLOCK_MAP_CAPACITY_BITS
  const L1_SIZE := 256
  const L1_INVALID_TAG: Word := 0xFFFF_FFFF

  // A slot of the table: the start PC of a block, and which block it is.
  datatype Slot = Empty | Full(pc: Word, block: nat)

  datatype Found = NotFound | Found(block: nat)

  // map_hash, with the 32-bit golden ratio.
  function Hash(pc: Word): (h: nat)
    ensures h < CAPACITY
  {
    Wrap(pc * 0x61C8_8647) / 0x40_0000
  }

  // The slot that is d steps along the probe sequence from h.
  function At(h: nat, d: nat): (i: nat)
    ensures i < CAPACITY
  {
    (h + d) % CAPACITY
  }

  function L1Index(pc: Word): (i: nat)
    ensures i < L1_SIZE
  {
    pc / 2 % L1_SIZE
  }

  // ---------------------------------------------------------------- the table against a finite map

  type Table = t: seq<Slot> | |t| == CAPACITY witness seq(CAPACITY, _ => Empty)

  // How far slot i is from the home slot of pc.
  function Distance(pc: Word, i: nat): (d: nat)
    requires i < CAPACITY
    ensures d < CAPACITY && At(Hash(pc), d) == i
  {
    (i + CAPACITY - Hash(pc)) % CAPACITY
  }

  // The probe sequence of pc meets no empty slot before slot i.
  ghost predicate Reaches(t: Table, pc: Word, i: nat)
    requires i < CAPACITY
  {
    forall d :: 0 <= d < Distance(pc, i) ==> t[At(Hash(pc), d)].Full?
  }

  // The table holds exactly the blocks of m, each where its probe sequence finds it.
  ghost predicate Represents(t: Table, m: map<Word, nat>) {
    && (forall i :: 0 <= i < CAPACITY && t[i].Full? ==>
          t[i].pc in m && m[t[i].pc] == t[i].block && Reaches(t, t[i].pc, i))
    && (forall pc :: pc in m ==> Present(t, pc))
  }

  ghost predicate Present(t: Table, pc: Word) {
    exists i :: 0 <= i < CAPACITY && t[i].Full? && t[i].pc == pc
  }

  function Get(m: map<Word, nat>, pc: Word): Found {
    if pc in m then Found(m[pc]) else NotFound
  }

  // ---------------------------------------------------------------- room

  // How many of the first n slots are full.
  ghost function Count(t: Table, n: nat): (c: nat)
    requires n <= CAPACITY
    ensures c <= n
  {
    if n == 0 then 0 else Count(t, n - 1) + if t[n - 1].Full? then 1 else 0
  }

  // Fewer blocks than slots: some slot is empty.
  lemma {:induction false} Room(t: Table, n: nat) returns (i: nat)
    requires n <= CAPACITY && Count(t, n) < n
    ensures i < n && t[i].Empty?
  {
    if t[n - 1].Empty? {
      i := n - 1;
    } else {
      i := Room(t, n - 1);
    }
  }

  lemma {:induction false} CountFilled(t: Table, i: nat, s: Slot, n: nat)
    requires n <= CAPACITY && i < CAPACITY && t[i].Empty? && s.Full?
    ensures Count(t[i := s], n) == Count(t, n) + if i < n then 1 else 0
  {
    if n > 0 { CountFilled(t, i, s, n - 1); }
  }

  // ---------------------------------------------------------------- probing

  // A probe that has passed d full slots without meeting pc, and now meets an empty one, shows that pc is absent.
  lemma Absent(t: Table, m: map<Word, nat>, pc: Word, d: nat)
    requires Represents(t, m) && d < CAPACITY && t[At(Hash(pc), d)].Empty?
    requires forall e :: 0 <= e < d ==> t[At(Hash(pc), e)].Full? && t[At(Hash(pc), e)].pc != pc
    ensures pc !in m
  {
  }

  lemma Inserted(t: Table, m: map<Word, nat>, pc: Word, block: nat, d: nat)
    requires Represents(t, m) && pc !in m && d < CAPACITY && t[At(Hash(pc), d)].Empty?
    requires forall e :: 0 <= e < d ==> t[At(Hash(pc), e)].Full?
    ensures var i := At(Hash(pc), d);
            Represents(t[i := Full(pc, block)], m[pc := block]) &&
              Count(t[i := Full(pc, block)], CAPACITY) == Count(t, CAPACITY) + 1
  {
    var i := At(Hash(pc), d);
    var t' := t[i := Full(pc, block)];
    assert Distance(pc, i) == d;
    forall k | 0 <= k < CAPACITY && t'[k].Full? ensures Reaches(t', t'[k].pc, k) {
      if k != i { assert Reaches(t, t[k].pc, k); }
    }
    CountFilled(t, i, Full(pc, block), CAPACITY);
    forall q | q in m[pc := block] ensures Present(t', q) {
      if q == pc {
        assert t'[i].pc == q;
      } else {
        assert Present(t, q);
        var k :| 0 <= k < CAPACITY && t[k].Full? && t[k].pc == q;
        assert t'[k].pc == q;
      }
    }
  }

  // ---------------------------------------------------------------- the two levels

  class Lookup {
    const table: array<Slot>
    var size: nat
    const tags: array<Word>
    const ptrs: array<Found>
    ghost var blocks: map<Word, nat>     // the blocks inserted since the last clear, by start PC

    ghost predicate Valid()
      reads this, table, tags, ptrs
    {
      && table.Length == CAPACITY && tags.Length == L1_SIZE && ptrs.Length == L1_SIZE
      && Represents(table[..], blocks)
      && size == Count(table[..], CAPACITY) == |blocks| && size <= 820
      && (forall i :: 0 <= i < L1_SIZE && L1Index(tags[i]) == i ==> ptrs[i] == Get(blocks, tags[i]))
    }

    // block_map_init, and the L1 as block_map_clear leaves it.
    constructor ()
      ensures Valid() && blocks == map[] && size == 0 && fresh(table) && fresh(tags) && fresh(ptrs)
    {
      table := new Slot[CAPACITY](_ => Empty);
      tags := new Word[L1_SIZE](_ => L1_INVALID_TAG);
      ptrs := new Found[L1_SIZE](_ => NotFound);
      size, blocks := 0, map[];
      new;
      NoneFull(table[..], CAPACITY);
    }

    // block_find
    method Find(pc: Word) returns (r: Found)
      requires Valid()
      ensures r == Get(blocks, pc)
    {
      ghost var t: Table := table[..];
      ghost var hole := Room(t, CAPACITY);
      var index := Hash(pc);
      ghost var d := 0;
      while true
        invariant index == Hash(pc) + d && d <= Distance(pc, hole)
        invariant forall e :: 0 <= e < d ==> t[At(Hash(pc), e)].Full? && t[At(Hash(pc), e)].pc != pc
        decreases Distance(pc, hole) - d
      {
        var s := table[index % CAPACITY];
        assert s == t[At(Hash(pc), d)];
        if s.Empty? {
          Absent(t, blocks, pc, d);
          return NotFound;
        }
        if s.pc == pc {
          return Found(s.block);
        }
        index, d := index + 1, d + 1;
      }
    }

    // The probe loop of block_insert: the first empty slot, d places after the hash of pc.
    method FreeSlot(pc: Word) returns (index: nat, ghost d: nat)
      requires Valid() && size < 820
      ensures index == At(Hash(pc), d) && index < CAPACITY && d < CAPACITY && table[index].Empty?
      ensures forall e :: 0 <= e < d ==> table[At(Hash(pc), e)].Full?
    {
      ghost var t: Table := table[..];
      ghost var hole := Room(t, CAPACITY);
      index, d := Hash(pc), 0;
      while table[index % CAPACITY].Full?
        invariant index == Hash(pc) + d && d <= Distance(pc, hole)
        invariant forall e :: 0 <= e < d ==> t[At(Hash(pc), e)].Full?
        decreases Distance(pc, hole) - d
      {
        index, d := index + 1, d + 1;
      }
      index := index % CAPACITY;
    }

    // block_insert, with the update of the L1.
    method Insert(pc: Word, block: nat)
      requires Valid() && pc !in blocks && size < 820
      modifies this, table, tags, ptrs
      ensures Valid() && blocks == old(blocks)[pc := block]
    {
      ghost var t: Table := table[..];
      var index;
      ghost var d;
      index, d := FreeSlot(pc);
      Inserted(t, blocks, pc, block, d);
      table[index] := Full(pc, block);
      assert table[..] == t[At(Hash(pc), d) := Full(pc, block)];
      size := size + 1;
      blocks := blocks[pc := block];
      // block_l1_update
      tags[L1Index(pc)] := pc;
      ptrs[L1Index(pc)] := Found(block);
    }

    /** block_lookup_or_find: exactly the block inserted for this PC since the last clear. */
    method LookupOrFind(pc: Word) returns (r: Found)
      requires Valid()
      modifies tags, ptrs
      ensures Valid() && r == Get(blocks, pc)
    {
      var i := L1Index(pc);
      if tags[i] == pc {
        return ptrs[i];
      }
      r := Find(pc);
      if r.Found? {
        tags[i] := pc;
        ptrs[i] := r;
      }
    }

    // block_map_clear
    method Clear()
      requires Valid()
      modifies this, table, tags, ptrs
      ensures Valid() && blocks == map[] && size == 0
    {
      for i := 0 to CAPACITY
        invariant forall k :: 0 <= k < i ==> table[k].Empty?
      {
        table[i] := Empty;
      }
      size, blocks := 0, map[];
      for i := 0 to L1_SIZE
        invariant size == 0 && blocks == map[] && forall k :: 0 <= k < CAPACITY ==> table[k].Empty?
        invariant forall k :: 0 <= k < i ==> tags[k] == L1_INVALID_TAG && ptrs[k] == NotFound
      {
        tags[i] := L1_INVALID_TAG;
        ptrs[i] := NotFound;
      }
      NoneFull(table[..], CAPACITY);
    }

    // The look-up part of block_find_or_translate: translated stands for the block that is translated
    // on a miss, and the table is cleared first when size * 1.25 > capacity.
    method Request(pc: Word, translated: nat) returns (block: nat)
      requires Valid()
      modifies this, table, tags, ptrs
      ensures Valid() && (blocks, block) == Answer(old(blocks), pc, translated)
    {
      var r := LookupOrFind(pc);
      if r.Found? {
        return r.block;
      }
      if size * 5 > CAPACITY * 4 {
        Clear();
      }
      Insert(pc, translated);
      return translated;
    }

    /** Over any run of requests, the two levels answer as a finite map does. */
    method Serve(requests: seq<(Word, nat)>) returns (answers: seq<nat>)
      requires Valid()
      modifies this, table, tags, ptrs
      ensures Valid() && (blocks, answers) == Answers(old(blocks), requests)
    {
      answers := [];
      for i := 0 to |requests|
        invariant Valid() && (blocks, answers) == Answers(old(blocks), requests[..i])
      {
        assert requests[..i + 1][..i] == requests[..i];
        var b := Request(requests[i].0, requests[i].1);
        answers := answers + [b];
      }
      assert requests[..|requests|] == requests;
    }
  }

  // Reference: what a request does to a finite map from PCs to blocks.
  function Answer(m: map<Word, nat>, pc: Word, translated: nat): (map<Word, nat>, nat) {
    if pc in m then (m, m[pc])
    else ((if |m| * 5 > CAPACITY * 4 then map[] else m)[pc := translated], translated)
  }

  function Answers(m: map<Word, nat>, requests: seq<(Word, nat)>): (map<Word, nat>, seq<nat>) {
    if requests == [] then (m, [])
    else
      var n := |requests| - 1;
      var before := Answers(m, requests[..n]);
      var last := Answer(before.0, requests[n].0, requests[n].1);
      (last.0, before.1 + [last.1])
  }

  // ---------------------------------------------------------------- when blocks are kept

  // The PCs of the requests.
  function Asked(requests: seq<(Word, nat)>): set<Word> {
    set i | 0 <= i < |requests| :: requests[i].0
  }

  // The first request of a PC.
  function First(requests: seq<(Word, nat)>, pc: Word): (i: nat)
    ensures i <= |requests| && (i < |requests| ==> requests[i].0 == pc)
    ensures forall j :: 0 <= j < i ==> requests[j].0 != pc
  {
    if requests == [] || requests[0].0 == pc then 0 else 1 + First(requests[1..], pc)
  }

  // While a run asks for at most 820 different PCs, counting those in the table at its start, the block of
  // a PC is the one it had then, or the one translated for the first request.
  function Kept(m: map<Word, nat>, requests: seq<(Word, nat)>, pc: Word): Found {
    var i := First(requests, pc);
    if pc in m then Found(m[pc]) else if i < |requests| then Found(requests[i].1) else NotFound
  }

  lemma FirstAppend(requests: seq<(Word, nat)>, last: (Word, nat), pc: Word)
    ensures var i := First(requests, pc);
            First(requests + [last], pc) == if i < |requests| || last.0 == pc then i else |requests| + 1
  {
    var i, k := First(requests, pc), First(requests + [last], pc);
    assert k < |requests| ==> requests[k] == (requests + [last])[k];
    assert i < |requests| ==> (requests + [last])[i] == requests[i];
    assert (requests + [last])[|requests|] == last;
  }

  lemma AnswersMore(m: map<Word, nat>, requests: seq<(Word, nat)>, last: (Word, nat))
    ensures var before := Answers(m, requests);
            var a := Answer(before.0, last.0, last.1);
            Answers(m, requests + [last]) == (a.0, before.1 + [a.1]) && |before.1| == |requests|
    decreases |requests|
  {
    assert (requests + [last])[..|requests|] == requests;
    if requests != [] {
      var n := |requests| - 1;
      AnswersMore(m, requests[..n], requests[n]);
      assert requests[..n] + [requests[n]] == requests;
    }
  }

  // The table holds for each PC the first block, and the answers are the first blocks.
  ghost predicate TableKept(m: map<Word, nat>, requests: seq<(Word, nat)>, t: map<Word, nat>) {
    forall pc: Word :: Get(t, pc) == Kept(m, requests, pc)
  }

  ghost predicate AnswersKept(m: map<Word, nat>, requests: seq<(Word, nat)>, rs: seq<nat>) {
    |rs| == |requests| && forall i :: 0 <= i < |requests| ==> Found(rs[i]) == Kept(m, requests, requests[i].0)
  }

  lemma KeptMore(m: map<Word, nat>, before: seq<(Word, nat)>, last: (Word, nat), pc: Word)
    ensures Kept(m, before + [last], pc) ==
            if Kept(m, before, pc).Found? || pc != last.0 then Kept(m, before, pc) else Found(last.1)
  {
    FirstAppend(before, last, pc);
    var i := First(before, pc);
    assert i < |before| ==> (before + [last])[i] == before[i];
  }

  // A request that clears nothing.
  lemma AnswerKeeps(t: map<Word, nat>, pc: Word, translated: nat)
    requires pc in t || |t| <= 819
    ensures var a := Answer(t, pc, translated);
            a.0.Keys == t.Keys + {pc} && Found(a.1) == Get(a.0, pc) &&
            forall q: Word :: Get(a.0, q) == if Get(t, q).Found? || q != pc then Get(t, q) else Found(translated)
  {
  }

  lemma {:induction false} TableKeptMore(m: map<Word, nat>, before: seq<(Word, nat)>, last: (Word, nat),
                                         t: map<Word, nat>, u: map<Word, nat>)
    requires TableKept(m, before, t)
    requires forall q: Word :: Get(u, q) == if Get(t, q).Found? || q != last.0 then Get(t, q) else Found(last.1)
    ensures TableKept(m, before + [last], u)
  {
    forall pc: Word ensures Get(u, pc) == Kept(m, before + [last], pc) { KeptMore(m, before, last, pc); }
  }

  lemma {:induction false} AnswersKeptMore(m: map<Word, nat>, before: seq<(Word, nat)>, last: (Word, nat),
                                           rs: seq<nat>, r: nat)
    requires AnswersKept(m, before, rs) && Found(r) == Kept(m, before + [last], last.0)
    ensures AnswersKept(m, before + [last], rs + [r])
  {
    var all := before + [last];
    forall i | 0 <= i < |all| ensures Found((rs + [r])[i]) == Kept(m, all, all[i].0) {
      if i < |before| {
        assert all[i] == before[i] && Found(rs[i]) == Kept(m, before, before[i].0);
        KeptMore(m, before, last, before[i].0);
      }
    }
  }

  /** As long as no more than 820 PCs are in the table or asked for, no block is lost: the table holds for
      each PC the first block, and every request is answered with it. */
  lemma {:induction false} FirstBlockStays(m: map<Word, nat>, requests: seq<(Word, nat)>)
    requires |m.Keys + Asked(requests)| <= 820
    ensures var t := Answers(m, requests); t.0.Keys == m.Keys + Asked(requests)
    ensures var t := Answers(m, requests); TableKept(m, requests, t.0) && AnswersKept(m, requests, t.1)
    decreases |requests|
  {
    if requests != [] {
      var n := |requests| - 1;
      var before, last := requests[..n], requests[n];
      assert before + [last] == requests;
      AskedMore(before, last);
      var some, all := m.Keys + Asked(before), m.Keys + Asked(requests);
      OneMoreKey(m.Keys, Asked(before), last.0);
      assert all == some + {last.0};
      SmallerSet(some, all);
      FirstBlockStays(m, before);
      AnswersMore(m, before, last);
      var a := Answers(m, before);
      if last.0 !in a.0 { OneMoreFits(a.0.Keys, last.0); }
      AnswerKeeps(a.0, last.0, last.1);
      var r := Answer(a.0, last.0, last.1);
      TableKeptMore(m, before, last, a.0, r.0);
      AnswersKeptMore(m, before, last, a.1, r.1);
    } else {
      assert Asked(requests) == {};
    }
  }

  lemma AskedMore(before: seq<(Word, nat)>, last: (Word, nat))
    ensures Asked(before + [last]) == Asked(before) + {last.0}
  {
    var all := before + [last];
    assert all[|before|] == last;
    forall pc | pc in Asked(before) ensures pc in Asked(all) {
      var i :| 0 <= i < |before| && before[i].0 == pc;
      assert all[i].0 == pc;
    }
  }

  lemma SmallerSet(a: set<Word>, b: set<Word>)
    requires a <= b
    ensures |a| <= |b|
  {
    assert b == a + (b - a);
  }

  lemma OneMoreKey(a: set<Word>, b: set<Word>, pc: Word)
    ensures a + (b + {pc}) == (a + b) + {pc}
  {
  }

  // A miss before the last of 820 PCs finds the table below the limit.
  lemma OneMoreFits(a: set<Word>, pc: Word)
    requires pc !in a && |a + {pc}| <= 820
    ensures |a| <= 819
  {
  }

  /** A request leaves every block in the table exactly when its PC has one or fewer than 820 blocks are
      there; otherwise only the new block is left. */
  lemma KeepsExactly(m: map<Word, nat>, pc: Word, translated: nat)
    ensures var t := Answer(m, pc, translated).0;
            ((forall q :: q in m ==> q in t && t[q] == m[q]) <==> pc in m || |m| < 820) &&
            (pc in m || |m| < 820 || t == map[pc := translated])
  {
    if pc !in m && |m| >= 820 {
      assert m.Keys != {};
      var q :| q in m;
      assert q !in map[pc := translated];
    }
  }

  lemma {:induction false} NoneFull(t: Table, n: nat)
    requires n <= CAPACITY && forall i :: 0 <= i < CAPACITY ==> t[i].Empty?
    ensures Count(t, n) == 0
  {
    if n > 0 { NoneFull(t, n - 1); }
  }
}
