/** The page index of src/cache.c: blocks by the page of their start address, so that SFENCE.VMA of one
    address finds the blocks to invalidate without scanning the live list. */
module PageIndex {
  import opened Words
  import opened BlockIr
  import opened Lists

  const BUCKETS := 1024    // PAGE_INDEX_SIZE

  // What block_t says about a block that the index needs.
  datatype Info = Info(start: Word, end: Word, satp: Word, invalidated: bool)

  // page_index_hash: the top ten bits of the product with the 64-bit golden ratio.
  function Hash(page: nat): (h: nat)
    ensures h < BUCKETS
  {
    (page * 0x61c8_8646_80b5_83eb) % TWO64 / 0x40_0000_0000_0000
  }

  // The last byte of a block; end is exclusive.
  function LastByte(i: Info): Word {
    if i.end > i.start then i.end - 1 else i.start
  }

  // The block starts on the page of va or overlaps it, by index and by scan; it is not invalidated yet.
  predicate Hit(i: Info, va: Word, satp: Word, byIndex: bool) {
    i.satp == satp && !i.invalidated &&
    if byIndex then Page(i.start) == Page(va) else Page(i.start) <= Page(va) <= Page(LastByte(i))
  }

  // The block reaches into the page of va from another page.
  predicate ReachesInto(i: Info, va: Word, satp: Word) {
    i.satp == satp && !i.invalidated && Page(i.start) < Page(va) <= Page(LastByte(i))
  }

  // ---------------------------------------------------------------- reference

  // The live blocks that an invalidation of va marks.
  ghost function Hits(live: seq<nat>, info: map<nat, Info>, va: Word, satp: Word, byIndex: bool): set<nat> {
    set b | b in live && b in info && Hit(info[b], va, satp, byIndex)
  }

  ghost function MarkAll(info: map<nat, Info>, bs: set<nat>): map<nat, Info> {
    map b | b in info :: if b in bs then info[b].(invalidated := true) else info[b]
  }

  // No live block reaches into the page of va from another page.
  ghost predicate NoneReaches(live: seq<nat>, info: map<nat, Info>, va: Word, satp: Word) {
    forall b :: b in live && b in info ==> !ReachesInto(info[b], va, satp)
  }

  lemma HitsDiffer(live: seq<nat>, info: map<nat, Info>, va: Word, satp: Word)
    ensures Hits(live, info, va, satp, true) <= Hits(live, info, va, satp, false)
    ensures Hits(live, info, va, satp, true) == Hits(live, info, va, satp, false) <==> NoneReaches(live, info, va, satp)
  {
    var h, k := Hits(live, info, va, satp, true), Hits(live, info, va, satp, false);
    forall b | b in live && b in info ensures ReachesInto(info[b], va, satp) <==> b in k - h {
    }
    if !NoneReaches(live, info, va, satp) {
      var b :| b in live && b in info && ReachesInto(info[b], va, satp);
      assert b in k && b !in h;
    }
  }

  lemma SubsetSize(a: set<nat>, b: set<nat>)
    requires a <= b
    ensures |a| <= |b| && (|a| == |b| <==> a == b)
  {
    assert b == a + (b - a);
    assert |b| == |a| + |b - a|;
    if |b - a| == 0 { assert b - a == {}; }
  }

  // Marking different sets of blocks that are not yet invalidated gives different results.
  lemma MarksDiffer(info: map<nat, Info>, a: set<nat>, b: set<nat>)
    requires a <= b && forall x :: x in b ==> x in info && !info[x].invalidated
    ensures MarkAll(info, a) == MarkAll(info, b) <==> a == b
  {
    if x :| x in b && x !in a {
      assert MarkAll(info, a)[x] != MarkAll(info, b)[x];
    } else {
      assert a == b;
    }
  }

  /** Index and scan mark the same blocks, and count as many, if and only if no live block of the address
      space that is not yet invalidated reaches into the page of va from another page. */
  lemma IndexAgreesExactly(live: seq<nat>, info: map<nat, Info>, va: Word, satp: Word)
    ensures var h, k := Hits(live, info, va, satp, true), Hits(live, info, va, satp, false);
            (MarkAll(info, h) == MarkAll(info, k) <==> NoneReaches(live, info, va, satp)) &&
            (|h| == |k| <==> NoneReaches(live, info, va, satp)) && |h| <= |k|
  {
    var h, k := Hits(live, info, va, satp, true), Hits(live, info, va, satp, false);
    HitsDiffer(live, info, va, satp);
    SubsetSize(h, k);
    MarksDiffer(info, h, k);
  }

  // ---------------------------------------------------------------- in bytes

  // The first byte of the block lies on the page of va.
  predicate StartsOn(i: Info, va: Word) {
    i.start / 4096 == va / 4096
  }

  // The bytes of a block; of one whose end is not above its start, because it reaches the end of the
  // address space, only the first is considered.
  predicate InRange(i: Info, a: Word) {
    a == i.start || i.start <= a < i.end
  }

  ghost predicate HasByteOn(i: Info, va: Word) {
    exists a: Word :: InRange(i, a) && a / 4096 == va / 4096
  }

  lemma HitInBytes(i: Info, va: Word, satp: Word)
    ensures Hit(i, va, satp, true) <==> i.satp == satp && !i.invalidated && StartsOn(i, va)
    ensures Hit(i, va, satp, false) <==> i.satp == satp && !i.invalidated && HasByteOn(i, va)
  {
    if HasByteOn(i, va) {
      var a: Word :| InRange(i, a) && a / 4096 == va / 4096;
      assert i.start / 4096 <= a / 4096 <= LastByte(i) / 4096;
    }
    if Page(i.start) <= Page(va) <= Page(LastByte(i)) {
      var a: Word := if Page(i.start) == Page(va) then i.start else Page(va) * 4096;
      assert InRange(i, a) && a / 4096 == va / 4096;
    }
  }

  // The blocks that an invalidation of va is to mark: those of the address space with a byte on the page,
  // or with the first byte there if the index is used.
  ghost predicate Wanted(live: seq<nat>, info: map<nat, Info>, va: Word, satp: Word, byIndex: bool, b: nat)
    requires b in info
  {
    b in live && info[b].satp == satp && if byIndex then StartsOn(info[b], va) else HasByteOn(info[b], va)
  }

  /** Exactly the wanted blocks end up invalidated, in addition to those that were; the count is that of the
      blocks newly invalidated; and nothing else about any block changes. */
  lemma MarksInBytes(live: seq<nat>, info: map<nat, Info>, va: Word, satp: Word, byIndex: bool)
    requires forall b :: b in live ==> b in info
    ensures var after := MarkAll(info, Hits(live, info, va, satp, byIndex));
            after.Keys == info.Keys && forall b :: b in info ==>
              after[b] == info[b].(invalidated := info[b].invalidated || Wanted(live, info, va, satp, byIndex, b))
    ensures var after := MarkAll(info, Hits(live, info, va, satp, byIndex));
            Hits(live, info, va, satp, byIndex) == set b | b in info && after[b].invalidated && !info[b].invalidated
  {
    forall b | b in info
      ensures b in Hits(live, info, va, satp, byIndex) <==>
              Wanted(live, info, va, satp, byIndex, b) && !info[b].invalidated
    {
      HitInBytes(info[b], va, satp);
    }
  }

  class Index {
    var buckets: seq<seq<nat>>      // page_index
    var incomplete: bool            // page_index_incomplete: some insertion found no memory
    var live: seq<nat>              // the blocks of the live list
    var info: map<nat, Info>

    constructor ()
      ensures Valid() && !incomplete && live == [] && info == map[]
    {
      buckets, incomplete, live, info := seq(BUCKETS, _ => []), false, [], map[];
    }

    // While the index is complete, every live block is indexed exactly once, under its page, and
    // nothing else is.
    ghost predicate Valid()
      reads this
    {
      && |buckets| == BUCKETS && Distinct(live)
      && (forall b :: b in live ==> b in info)
      && (!incomplete ==> forall h :: 0 <= h < BUCKETS ==>
            Distinct(buckets[h]) && forall b :: b in buckets[h] <==> b in live && Hash(Page(info[b].start)) == h)
    }

    // page_index_insert of a block that joins the live list; granted says whether malloc succeeds.
    method Insert(b: nat, i: Info, granted: bool)
      requires Valid() && b !in live
      modifies this
      ensures Valid() && live == [b] + old(live) && info == old(info)[b := i]
      ensures incomplete <==> old(incomplete) || !granted
    {
      var h := Hash(Page(i.start));
      live := [b] + live;
      info := info[b := i];
      if !granted {
        incomplete := true;
        return;
      }
      buckets := buckets[h := [b] + buckets[h]];
    }

    // page_index_remove of a block that leaves the live list.
    method Remove(b: nat, ghost k: nat)
      requires Valid() && k < |live| && live[k] == b
      modifies this
      ensures Valid() && live == Delete(old(live), b) && info == old(info) && incomplete == old(incomplete)
    {
      var h := Hash(Page(info[b].start));
      DeleteDistinct(live, b);
      if !incomplete { DeleteDistinct(buckets[h], b); }
      buckets := buckets[h := Delete(buckets[h], b)];
      live := Delete(live, b);
    }

    // One turn of the loops of cache_invalidate_va. The index compares the start page only, the scan
    // the whole range.
    method MarkOne(b: nat, va: Word, satp: Word, byIndex: bool) returns (hit: bool)
      requires b in info
      modifies this`info
      ensures hit == Hit(old(info)[b], va, satp, byIndex)
      ensures info == if hit then old(info)[b := old(info)[b].(invalidated := true)] else old(info)
    {
      var i := info[b];
      hit := i.satp == satp && !i.invalidated &&
             if byIndex then Page(i.start) == Page(va) else Page(i.start) <= Page(va) <= Page(LastByte(i));
      if hit {
        info := info[b := i.(invalidated := true)];
      }
    }

    // The loop of cache_invalidate_va over one chain: marks the blocks of s that are hit.
    method MarkHits(s: seq<nat>, va: Word, satp: Word, byIndex: bool) returns (count: nat)
      requires Distinct(s) && forall b :: b in s ==> b in info
      modifies this`info
      ensures var hits := Hits(s, old(info), va, satp, byIndex); info == MarkAll(old(info), hits) && count == |hits|
    {
      count := 0;
      ghost var before := info;
      NothingMarked(before);
      for n := 0 to |s|
        invariant var hits := Hits(s[..n], before, va, satp, byIndex); info == MarkAll(before, hits) && count == |hits|
      {
        OneMoreHit(s, n, before, va, satp, byIndex);
        assert s[n] in s;
        var hit := MarkOne(s[n], va, satp, byIndex);
        if hit {
          MarkMore(before, Hits(s[..n], before, va, satp, byIndex), s[n]);
          count := count + 1;
        }
      }
      assert s[..|s|] == s;
    }

    /** cache_invalidate_va invalidates the live blocks of the address space that start on the page or, when
        the index is incomplete, that have a byte there, and returns how many it marked; both are what the
        scan gives if and only if no live block reaches into the page. */
    method InvalidateVa(va: Word, satp: Word) returns (count: nat)
      requires Valid()
      modifies this`info
      ensures Valid()
      ensures info.Keys == old(info).Keys && forall b :: b in info ==>
                var was := old(info)[b];
                info[b] == was.(invalidated := was.invalidated || Wanted(live, old(info), va, satp, !incomplete, b))
      ensures count == |set b | b in info && info[b].invalidated && !old(info)[b].invalidated|
      ensures var scanned := Hits(live, old(info), va, satp, false);
              info == MarkAll(old(info), scanned) && count == |scanned| <==>
              incomplete || NoneReaches(live, old(info), va, satp)
    {
      IndexAgreesExactly(live, info, va, satp);
      MarksInBytes(live, info, va, satp, !incomplete);
      if !incomplete {
        var h := Hash(Page(va));
        assert Hits(buckets[h], info, va, satp, true) == Hits(live, info, va, satp, true);
        count := MarkHits(buckets[h], va, satp, true);
      } else {
        count := MarkHits(live, va, satp, false);
      }
    }
  }

  lemma NothingMarked(info: map<nat, Info>)
    ensures MarkAll(info, {}) == info
  {
  }

  lemma MarkMore(info: map<nat, Info>, bs: set<nat>, b: nat)
    requires b in info
    ensures MarkAll(info, bs)[b := info[b].(invalidated := true)] == MarkAll(info, bs + {b})
  {
  }

  // The next block is new, and it is hit exactly if it was before the loop.
  lemma OneMoreHit(s: seq<nat>, n: nat, info: map<nat, Info>, va: Word, satp: Word, byIndex: bool)
    requires Distinct(s) && n < |s| && s[n] in info
    ensures var old_ := Hits(s[..n], info, va, satp, byIndex);
            s[n] !in old_ && MarkAll(info, old_)[s[n]] == info[s[n]] &&
            Hits(s[..n + 1], info, va, satp, byIndex) ==
            if Hit(info[s[n]], va, satp, byIndex) then old_ + {s[n]} else old_
  {
    assert s[..n + 1] == s[..n] + [s[n]];
  }

  // ---------------------------------------------------------------- which blocks reach into another page

  // What block_translate sees of a decoded instruction: its length, and whether it ends a block.
  datatype Decoded = Decoded(length: int, branch: bool)

  // The PC after a list of instructions.
  function EndOf(start: Word, ds: seq<Decoded>): Word {
    if ds == [] then start else Plus(EndOf(start, ds[..|ds| - 1]), Size(ds[|ds| - 1]))
  }

  lemma EndMore(start: Word, ds: seq<Decoded>, n: nat)
    requires n < |ds|
    ensures EndOf(start, ds[..n + 1]) == Plus(EndOf(start, ds[..n]), Size(ds[n]))
  {
    assert ds[..n + 1][..n] == ds[..n];
  }

  function Size(d: Decoded): Word {
    if d.length == 2 then 2 else 4
  }

  // The first address behind the page of start, 0 for the last page.
  function PageEnd(start: Word): Word {
    Wrap(start - start % 4096 + 4096)
  }

  // After k instructions, translation goes on: the last was no branch and ended inside the page of start.
  ghost predicate GoesOn(start: Word, ds: seq<Decoded>, k: nat) {
    0 < k <= |ds| && !ds[k - 1].branch && EndOf(start, ds[..k]) < PageEnd(start)
  }

  // A block as block_translate cuts it.
  ghost predicate Translated(start: Word, ds: seq<Decoded>) {
    ds != [] && forall k :: 0 < k < |ds| ==> GoesOn(start, ds, k)
  }

  lemma GoesOnInPrefix(start: Word, ds: seq<Decoded>, n: nat, k: nat)
    requires 0 < k <= n <= |ds|
    ensures GoesOn(start, ds[..n], k) <==> GoesOn(start, ds, k)
  {
    assert ds[..n][..k] == ds[..k];
  }

  // The loop of block_translate over the instructions that it can decode: ends at a branch, or when the
  // page end is reached, which is tested after an instruction is taken.
  method TranslateExtent(start: Word, ds: seq<Decoded>) returns (n: nat, end: Word)
    requires ds != []
    ensures n <= |ds| && end == EndOf(start, ds[..n]) && Translated(start, ds[..n])
    ensures n < |ds| ==> !GoesOn(start, ds, n)
  {
    n, end := 0, start;
    assert ds[..0] == [];
    var more := true;
    while more && n < |ds|
      invariant n <= |ds| && end == EndOf(start, ds[..n]) && (n == 0 ==> more)
      invariant forall k :: 0 < k < n ==> GoesOn(start, ds, k)
      invariant n > 0 ==> (more <==> GoesOn(start, ds, n))
      decreases |ds| - n
    {
      EndMore(start, ds, n);
      end := Plus(end, Size(ds[n]));
      n := n + 1;
      more := !ds[n - 1].branch && end < PageEnd(start);
    }
    forall k | 0 < k < n ensures GoesOn(start, ds[..n], k) { GoesOnInPrefix(start, ds, n, k); }
  }

  lemma {:induction false} StillInside(start: Word, ds: seq<Decoded>, k: nat)
    requires Translated(start, ds) && k < |ds| && PageEnd(start) != 0
    ensures start <= EndOf(start, ds[..k]) < PageEnd(start)
  {
    if k > 0 {
      StillInside(start, ds, k - 1);
      assert GoesOn(start, ds, k);
      EndMore(start, ds, k - 1);
      NoWrapInside(start, EndOf(start, ds[..k - 1]), Size(ds[k - 1]));
    } else {
      assert ds[..0] == [];
    }
  }

  /** A translated block reaches into another page if and only if its last instruction lies across the end
      of the page: a 32-bit instruction in the last two bytes, for even PCs. It reaches into no third page. */
  lemma SpansExactly(start: Word, ds: seq<Decoded>)
    requires Translated(start, ds)
    ensures var last, end := EndOf(start, ds[..|ds| - 1]), EndOf(start, ds);
            var i := Info(start, end, 0, false);
            (Page(LastByte(i)) != Page(start) <==> last < PageEnd(start) < end) && Page(LastByte(i)) <= Page(start) + 1
  {
    var n := |ds| - 1;
    assert ds[..n + 1] == ds;
    EndMore(start, ds, n);
    if PageEnd(start) != 0 {
      StillInside(start, ds, n);
      CrossesPage(start, EndOf(start, ds[..n]), Size(ds[n]));
    } else {
      LastPage(start, ds);
      StaysInLastPage(start, Size(ds[n]));
    }
  }

  lemma NoWrapInside(start: Word, last: Word, size: Word)
    requires PageEnd(start) != 0 && start <= last < PageEnd(start) && size <= 4
    ensures Plus(last, size) == last + size
  {
    InPage(start);
  }

  lemma InPage(start: Word)
    ensures PageEnd(start) != 0 ==> PageEnd(start) == 4096 * (Page(start) + 1) <= 0xffff_f000
    ensures PageEnd(start) == 0 ==> Page(start) == 0xf_ffff
  {
  }

  // The last byte of a block whose last instruction starts inside the page.
  lemma CrossesPage(start: Word, last: Word, size: Word)
    requires PageEnd(start) != 0 && start <= last < PageEnd(start) && 0 < size <= 4
    ensures var i := Info(start, Plus(last, size), 0, false);
            (Page(LastByte(i)) != Page(start) <==> PageEnd(start) < Plus(last, size)) &&
            Page(LastByte(i)) <= Page(start) + 1
  {
    InPage(start);
    NoWrapInside(start, last, size);
  }

  lemma StaysInLastPage(start: Word, size: Word)
    requires PageEnd(start) == 0 && 0 < size <= 4
    ensures Page(LastByte(Info(start, Plus(start, size), 0, false))) == Page(start)
  {
    InPage(start);
  }

  // In the last page the test succeeds after the first instruction.
  lemma LastPage(start: Word, ds: seq<Decoded>)
    requires Translated(start, ds) && PageEnd(start) == 0
    ensures |ds| == 1 && EndOf(start, ds[..0]) == start
  {
    assert |ds| > 1 ==> GoesOn(start, ds, 1);
    assert ds[..0] == [];
  }

  /** A block from 0xff0 to 0x1002 is found by a scan for page 1, and not by the index. */
  lemma CrossingBlockMissed()
    ensures var info := map[1 := Info(0xff0, 0x1002, 0, false)];
            Hits([1], info, 0x1000, 0, false) == {1} && Hits([1], info, 0x1000, 0, true) == {}
  {
    var info := map[1 := Info(0xff0, 0x1002, 0, false)];
    assert Hit(info[1], 0x1000, 0, false) && !Hit(info[1], 0x1000, 0, true);
  }

  // The bytes of a block, counting addresses modulo 2^32.
  predicate InBlock(i: Info, a: Word) {
    Wrap(a - i.start) < Wrap(i.end - i.start)
  }

  ghost predicate Occupies(i: Info, va: Word) {
    exists a: Word :: InBlock(i, a) && a / 4096 == va / 4096
  }

  /** For a block as translated, the scan considers every byte, except exactly that it misses page 0 for a
      block whose one instruction lies across the end of the address space. */
  lemma ScanSeesExactly(start: Word, ds: seq<Decoded>, va: Word)
    requires Translated(start, ds)
    ensures var i := Info(start, EndOf(start, ds), 0, false);
            (Occupies(i, va) <==> HasByteOn(i, va)) <==> !(0 < i.end < i.start && va / 4096 == 0)
  {
    var n := |ds| - 1;
    assert ds[..n + 1] == ds;
    EndMore(start, ds, n);
    if PageEnd(start) != 0 {
      StillInside(start, ds, n);
      NoWrapInside(start, EndOf(start, ds[..n]), Size(ds[n]));
      NoWrapSees(Info(start, EndOf(start, ds), 0, false), va);
    } else {
      LastPage(start, ds);
      InPage(start);
      WrapSees(start, Size(ds[n]), va);
    }
  }

  /** A 32-bit instruction in the last two bytes of the address space ends on page 0, where no scan finds it. */
  lemma WrappedBlockMissed()
    ensures var ds := [Decoded(4, false)];
            var i := Info(0xffff_fffe, EndOf(0xffff_fffe, ds), 0, false);
            Translated(0xffff_fffe, ds) && i.end == 2 && Occupies(i, 0) && !Hit(i, 0, 0, false)
  {
    var ds := [Decoded(4, false)];
    assert ds[..0] == [];
    var i := Info(0xffff_fffe, 2, 0, false);
    assert InBlock(i, 0);
    HitInBytes(i, 0, 0);
  }

  lemma NoWrapSees(i: Info, va: Word)
    requires i.start < i.end
    ensures Occupies(i, va) <==> HasByteOn(i, va)
  {
    forall a: Word ensures InBlock(i, a) <==> InRange(i, a) {
    }
  }

  // The bytes of a block at the end of the address space.
  lemma WrappedBytes(start: Word, size: Word, a: Word)
    requires start >= 0xffff_f000 && 0 < size <= 4 && start + size >= TWO32
    ensures var i := Info(start, Plus(start, size), 0, false); InBlock(i, a) <==> a >= start || a < i.end
  {
  }

  lemma WrapSees(start: Word, size: Word, va: Word)
    requires start >= 0xffff_f000 && 0 < size <= 4
    ensures var i := Info(start, Plus(start, size), 0, false);
            (Occupies(i, va) <==> HasByteOn(i, va)) <==> !(0 < i.end < i.start && va / 4096 == 0)
  {
    var i := Info(start, Plus(start, size), 0, false);
    if start + size < TWO32 {
      NoWrapSees(i, va);
    } else {
      forall a: Word ensures InBlock(i, a) <==> a >= start || a < i.end { WrappedBytes(start, size, a); }
      assert InBlock(i, start) && InRange(i, start);
      assert start / 4096 == 0xf_ffff;
      assert 0 < i.end ==> InBlock(i, 0);
    }
  }
}
