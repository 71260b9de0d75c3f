/** The pool allocator of src/mpool.c: chunks of one size cut from arenas, with the free list threaded
    through the chunk headers. */
module Mpool {
  import opened Lists

  const HEADER := 8      // sizeof(memchunk_t)
  const PAGE := 4096

  // Headers by address; 0 is NULL.
  type Headers = map<nat, nat>

  function Next(m: Headers, c: nat): nat {
    if c in m then m[c] else 0
  }

  // The free list: as many chunks as counted, each header naming the next. What the last header holds
  // does not matter, since the count says where the list ends.
  ghost predicate Threaded(m: Headers, head: nat, free: seq<nat>) {
    (free != [] ==> head == free[0]) && forall i, j :: 0 <= i < |free| && j == i + 1 < |free| ==>
      Next(m, free[i]) == free[j]
  }

  // Chunks of the given stride do not overlap.
  ghost predicate Apart(chunks: set<nat>, stride: nat) {
    forall c, d :: c in chunks && d in chunks && c < d ==> c + stride <= d
  }

  // Each chunk lies inside an arena.
  ghost predicate Inside(chunks: set<nat>, arenas: seq<nat>, stride: nat, bytes: nat) {
    forall c :: c in chunks ==> InArena(c, arenas, stride, bytes)
  }

  ghost predicate InArena(c: nat, arenas: seq<nat>, stride: nat, bytes: nat) {
    exists i :: 0 <= i < |arenas| && arenas[i] <= c && c + stride <= arenas[i] + bytes
  }

  ghost function Elements(s: seq<nat>): set<nat> {
    set c | c in s
  }

  // A new arena does not overlap the others.
  ghost predicate NewArena(p: nat, arenas: seq<nat>, bytes: nat) {
    p > 0 && forall i :: 0 <= i < |arenas| ==> arenas[i] + bytes <= p || p + bytes <= arenas[i]
  }

  // ---------------------------------------------------------------- cutting an arena into chunks

  ghost predicate Row(s: seq<nat>, p: nat, stride: nat) {
    (forall i :: 0 <= i < |s| ==> p <= s[i]) && forall i, j :: 0 <= i < j < |s| ==> s[i] + stride <= s[j]
  }

  lemma Fits(i: nat, count: nat, stride: nat, bytes: nat)
    requires stride > 0 && count == bytes / stride && i < count
    ensures (i + 1) * stride <= bytes
  {
    assert count * stride <= bytes;
    assert (i + 1) * stride <= count * stride;
  }

  lemma RowMore(row: seq<nat>, p: nat, stride: nat)
    requires row != [] && Row(row, p, stride)
    ensures Row(row + [row[|row| - 1] + stride], p, stride)
  {
    var last := row[|row| - 1];
    forall i | 0 <= i < |row| ensures row[i] + stride <= last + stride {
      if i < |row| - 1 { assert row[i] + stride <= row[|row| - 1]; }
    }
  }

  lemma ThreadMore(m: Headers, head: nat, row: seq<nat>, p: nat, stride: nat, next: nat)
    requires row != [] && Row(row, p, stride) && stride > 0 && Threaded(m, head, row)
    ensures Threaded(m[row[|row| - 1] := next], head, row + [next])
  {
    var n := |row| - 1;
    forall i | 0 <= i < n ensures row[i] != row[n] { assert row[i] + stride <= row[n]; }
  }

  // The loop of mpool_create and mpool_extend that links the chunks of a new arena.
  method Cut(m: Headers, p: nat, stride: nat, count: nat, ghost bytes: nat) returns (m2: Headers, ghost row: seq<nat>)
    requires stride > 0 && count > 0 && count <= bytes / stride
    ensures |row| == count && row[0] == p && Row(row, p, stride) && Threaded(m2, p, row)
    ensures forall i :: 0 <= i < |row| ==> row[i] + stride <= p + bytes
    ensures forall c :: c !in row ==> Next(m2, c) == Next(m, c)
  {
    m2, row := m, [p];
    var cur := p;
    Fits(0, bytes / stride, stride, bytes);
    for i := 0 to count - 1
      invariant |row| == i + 1 && row[0] == p && row[i] == cur == p + i * stride && Row(row, p, stride) &&
                Threaded(m2, p, row)
      invariant forall k :: 0 <= k < |row| ==> row[k] + stride <= p + bytes
      invariant forall c :: c !in row ==> Next(m2, c) == Next(m, c)
    {
      Fits(i + 1, bytes / stride, stride, bytes);
      var next := cur + stride;
      RowMore(row, p, stride);
      ThreadMore(m2, p, row, p, stride, next);
      Doubled(i, stride);
      assert cur in row;
      m2 := m2[cur := next];
      row := row + [next];
      cur := next;
    }
  }

  // count is the largest number of chunks that fit into the bytes.
  ghost predicate Most(count: nat, stride: nat, bytes: nat) {
    count * stride <= bytes < (count + 1) * stride
  }

  lemma QuotientIsMost(stride: nat, bytes: nat)
    requires stride > 0
    ensures Most(bytes / stride, stride, bytes)
  {
  }

  lemma Doubled(i: nat, stride: nat)
    ensures (i + 1) * stride == i * stride + stride && (i + 2) * stride == i * stride + stride + stride
  {
  }

  class Pool {
    var chunkCount: nat
    var pageCount: nat
    const chunkSize: nat
    var head: nat
    var headers: Headers
    var arenas: seq<nat>            // the area list
    ghost var free: seq<nat>        // the chunks on the free list
    ghost var held: set<nat>        // the chunks handed out

    ghost function Stride(): nat
      reads this
    {
      chunkSize + HEADER
    }

    ghost function Bytes(): nat
      reads this
    {
      pageCount * PAGE
    }

    // Held and free chunks are all different, do not overlap and lie inside arenas; chunk_count is the
    // length of the free list. Bound to a variable, the body is proved as a whole, not conjunct by conjunct
    // at every use.
    ghost predicate Valid()
      reads this
    {
      var ok :=
        && chunkCount == |free| && Threaded(headers, head, free) && Distinct(free) && Elements(free) !! held
        && Apart(Elements(free) + held, Stride()) && Inside(Elements(free) + held, arenas, Stride(), Bytes())
        && Bytes() >= Stride();
      ok
    }

    // mpool_create; p is the arena that the host gives.
    constructor (poolSize: nat, chunkSize: nat, p: nat)
      requires poolSize >= chunkSize && p > 0
      ensures Valid() && this.chunkSize == chunkSize && held == {} && chunkCount > 0 && arenas == [p]
      ensures var size := if poolSize < chunkSize + HEADER then poolSize + HEADER else poolSize;
              Most(chunkCount, chunkSize + HEADER, size) && size <= pageCount * PAGE < size + PAGE
    {
      var size := if poolSize < chunkSize + HEADER then poolSize + HEADER else poolSize;
      var pages := (size + PAGE - 1) / PAGE;
      var count := size / (HEADER + chunkSize);
      Room(size, HEADER + chunkSize, pages * PAGE);
      QuotientIsMost(HEADER + chunkSize, size);
      var m;
      ghost var row;
      m, row := Cut(map[], p, HEADER + chunkSize, count, pages * PAGE);
      this.chunkSize := chunkSize;
      chunkCount, pageCount, head, headers, arenas := count, pages, p, m, [p];
      free, held := row, {};
      new;
      RowIsApart(row, p, Stride(), [p], 0, Bytes());
    }

    // mpool_extend, when the free list is empty; p is a new arena, or NULL if the host has none.
    method Extend(p: nat) returns (ok: bool)
      requires Valid() && chunkCount == 0 && (p != 0 ==> NewArena(p, arenas, Bytes()))
      modifies this
      ensures Valid() && held == old(held) && ok == (p != 0) && pageCount == old(pageCount)
      ensures if ok then chunkCount > 0 && Most(chunkCount, Stride(), Bytes()) && arenas == old(arenas) + [p]
              else chunkCount == 0 && arenas == old(arenas)
    {
      if p == 0 {
        return false;
      }
      var count := pageCount * PAGE / (HEADER + chunkSize);
      Room(Bytes(), Stride(), Bytes());
      QuotientIsMost(Stride(), Bytes());
      ghost var row;
      headers, row := Cut(headers, p, HEADER + chunkSize, count, Bytes());
      ghost var before := arenas;
      head, chunkCount, arenas := p, chunkCount + count, arenas + [p];
      RowIsApart(row, p, Stride(), arenas, |arenas| - 1, Bytes());
      ApartArenas(held, row, before, p, Stride(), Bytes());
      free := row;
      assert Elements([]) == {};
      return true;
    }

    /** mpool_alloc hands out a chunk that overlaps no other held chunk and lies inside an arena, or
        NULL if the pool is empty and cannot grow. */
    method Alloc(p: nat) returns (r: nat)
      requires Valid() && (p != 0 ==> NewArena(p, arenas, Bytes()))
      modifies this
      ensures Valid() && pageCount == old(pageCount)
      ensures r == 0 <==> old(chunkCount) == 0 && p == 0
      ensures r == 0 ==> held == old(held)
      ensures r != 0 ==> r >= HEADER && r - HEADER !in old(held) && held == old(held) + {r - HEADER}
      ensures old(chunkCount) > 0 ==> chunkCount == old(chunkCount) - 1 && arenas == old(arenas)
      ensures old(chunkCount) == 0 && p != 0 ==>
                Most(chunkCount + 1, Stride(), Bytes()) && arenas == old(arenas) + [p]
    {
      if chunkCount == 0 {
        var ok := Extend(p);
        if !ok {
          return 0;
        }
      }
      // mpool_alloc_helper
      ghost var c := free[0];
      assert c in Elements(free) && free == [c] + free[1..];
      PopFree(free, held);
      r := head + HEADER;
      head := Next(headers, head);
      chunkCount := chunkCount - 1;
      held, free := held + {c}, free[1..];
    }

    /** mpool_free takes a held chunk back. */
    method Release(target: nat)
      requires Valid() && (target == 0 || (target >= HEADER && target - HEADER in held))
      modifies this
      ensures Valid() && held == (if target == 0 then old(held) else old(held) - {target - HEADER})
      ensures chunkCount == old(chunkCount) + if target == 0 then 0 else 1
    {
      if target == 0 {
        return;
      }
      var c := target - HEADER;
      PushFree(free, held, c);
      assert c !in free;
      headers := headers[c := head];
      head := c;
      chunkCount := chunkCount + 1;
      held, free := held - {c}, [c] + free;
    }
  }

  lemma PopFree(free: seq<nat>, held: set<nat>)
    requires free != [] && Distinct(free) && Elements(free) !! held
    ensures Distinct(free[1..]) && Elements(free[1..]) !! held + {free[0]}
    ensures Elements(free[1..]) + (held + {free[0]}) == Elements(free) + held
  {
    assert forall c :: c in free <==> c == free[0] || c in free[1..];
  }

  lemma PushFree(free: seq<nat>, held: set<nat>, c: nat)
    requires Distinct(free) && Elements(free) !! held && c in held
    ensures Distinct([c] + free) && Elements([c] + free) !! held - {c}
    ensures Elements([c] + free) + (held - {c}) == Elements(free) + held
  {
    assert c !in Elements(free);
    assert forall d :: d in [c] + free <==> d == c || d in free;
  }

  // The chunks of a new arena are apart from those of the others.
  lemma ApartArenas(held: set<nat>, row: seq<nat>, arenas: seq<nat>, p: nat, stride: nat, bytes: nat)
    requires Apart(held, stride) && Inside(held, arenas, stride, bytes) && NewArena(p, arenas, bytes) && stride > 0
    requires Apart(Elements(row), stride) && Row(row, p, stride) && forall i :: 0 <= i < |row| ==>
             row[i] + stride <= p + bytes
    requires Inside(Elements(row), arenas + [p], stride, bytes)
    ensures Elements(row) !! held && Apart(Elements(row) + held, stride) &&
            Inside(Elements(row) + held, arenas + [p], stride, bytes)
  {
    forall c, d | c in held && d in Elements(row) ensures c + stride <= d || d + stride <= c {
      assert InArena(c, arenas, stride, bytes);
      var i :| 0 <= i < |arenas| && arenas[i] <= c && c + stride <= arenas[i] + bytes;
      var j :| 0 <= j < |row| && row[j] == d;
    }
    forall c | c in held ensures InArena(c, arenas + [p], stride, bytes) {
      assert InArena(c, arenas, stride, bytes);
      var i :| 0 <= i < |arenas| && arenas[i] <= c && c + stride <= arenas[i] + bytes;
      assert (arenas + [p])[i] == arenas[i];
    }
  }

  lemma Room(size: nat, stride: nat, bytes: nat)
    requires 0 < stride <= size <= bytes
    ensures 0 < size / stride <= bytes / stride
  {
    var a, b := size / stride, bytes / stride;
    assert a * stride <= size < (a + 1) * stride && b * stride <= bytes < (b + 1) * stride;
    assert a == 0 ==> size < stride;
    assert b < a ==> (b + 1) * stride <= a * stride;
  }

  lemma RowIsApart(row: seq<nat>, p: nat, stride: nat, arenas: seq<nat>, k: nat, bytes: nat)
    requires Row(row, p, stride) && stride > 0 && k < |arenas| && arenas[k] == p
    requires forall i :: 0 <= i < |row| ==> row[i] + stride <= p + bytes
    ensures Distinct(row) && Apart(Elements(row), stride) && Inside(Elements(row), arenas, stride, bytes)
  {
    forall c, d | c in Elements(row) && d in Elements(row) && c < d ensures c + stride <= d {
      var i :| 0 <= i < |row| && row[i] == c;
      var j :| 0 <= j < |row| && row[j] == d;
    }
    forall c | c in Elements(row) ensures InArena(c, arenas, stride, bytes) {
      var i :| 0 <= i < |row| && row[i] == c;
      assert arenas[k] <= c;
    }
  }
}
