/** Demand paging of guest memory (src/io.c): chunks of 64 KiB start inaccessible, a fault makes a chunk
    accessible, and an incremental collector gives chunks that hold only zeros back to the host. */
module DemandPaging {
  import opened Words

  const CHUNK := 0x1_0000

  // The number of chunks that cover size bytes; the last one may be partial.
  function Chunks(size: nat): nat {
    (size + CHUNK - 1) / CHUNK
  }

  function ChunkOf(addr: nat): nat {
    addr / CHUNK
  }

  // One past the last byte of chunk i.
  function ChunkEnd(size: nat, i: nat): nat {
    if (i + 1) * CHUNK < size then (i + 1) * CHUNK else size
  }

  lemma InChunk(size: nat, addr: nat)
    requires addr < size
    ensures ChunkOf(addr) < Chunks(size) && ChunkOf(addr) * CHUNK <= addr < ChunkEnd(size, ChunkOf(addr))
  {
  }

  // How many of the first n chunks are active.
  function Count(bitmap: seq<bool>, n: nat): (c: nat)
    requires n <= |bitmap|
    ensures c <= n
  {
    if n == 0 then 0 else Count(bitmap, n - 1) + if bitmap[n - 1] then 1 else 0
  }

  lemma {:induction false} CountSet(bitmap: seq<bool>, i: nat, b: bool, n: nat)
    requires i < |bitmap| && n <= |bitmap|
    ensures Count(bitmap[i := b], n) ==
            Count(bitmap, n) + if i < n && b && !bitmap[i] then 1 else if i < n && !b && bitmap[i] then -1 else 0
  {
    if n > 0 { CountSet(bitmap, i, b, n - 1); }
  }

  class GuestMemory {
    const size: nat
    var bitmap: seq<bool>      // chunk_bitmap: which chunks are active
    var open: seq<bool>        // which chunks the host lets the guest access
    var data: seq<Byte>        // what the host pages hold
    var scan: nat              // gc_scan_idx
    var active: nat            // active_chunks
    var peak: nat              // peak_chunks
    ghost var most: nat        // the most chunks that were ever active at once

    // memory_new
    constructor (size: nat)
      requires 0 < size <= 0x1_0000_0000
      ensures Valid() && this.size == size && scan == 0 && forall a :: 0 <= a < size ==> data[a] == 0
    {
      this.size := size;
      bitmap := seq(Chunks(size), _ => false);
      open := seq(Chunks(size), _ => false);
      data := seq(size, _ => 0);
      scan, active, peak, most := 0, 0, 0, 0;
      new;
      NoneActive(bitmap, |bitmap|);
    }

    // data is the logical memory of the guest: chunks that are not accessible hold zeros.
    ghost predicate Valid()
      reads this
    {
      && 0 < size && |bitmap| == |open| == Chunks(size) && |data| == size && scan < Chunks(size)
      && (forall i :: 0 <= i < |bitmap| ==> bitmap[i] == open[i])
      && (forall a :: 0 <= a < size && !open[ChunkOf(a)] ==> data[a] == 0)
      && active == Count(bitmap, |bitmap|) && peak == most && active <= peak <= Chunks(size)
    }

    // memory_fault_handler for an address; granted says whether mprotect succeeds.
    method Fault(addr: nat, granted: bool) returns (resumed: bool)
      requires Valid()
      modifies this`bitmap, this`open, this`active, this`peak, this`most
      ensures Valid() && resumed == (addr < size && granted)
      ensures addr < size ==> InRange(addr) && open == if resumed then old(open)[ChunkOf(addr) := true] else old(open)
      ensures !resumed ==> bitmap == old(bitmap)
      ensures most == if active > old(most) then active else old(most)
    {
      if addr >= size {
        return false;
      }
      InChunk(size, addr);
      var i := ChunkOf(addr);
      if !granted {
        return false;
      }
      open := open[i := true];
      if !bitmap[i] {
        CountSet(bitmap, i, true, |bitmap|);
        bitmap := bitmap[i := true];
        active := active + 1;
        if active > peak {
          peak := active;
        }
        most := if active > most then active else most;
      }
      return true;
    }

    ghost predicate InRange(addr: nat)
      reads this
    {
      addr < size && ChunkOf(addr) < |open| && ChunkOf(addr) < |bitmap|
    }

    // A guest store, which faults first if its chunk is not accessible.
    method Write(addr: nat, v: Byte, granted: bool) returns (done: bool)
      requires Valid() && addr < size
      modifies this`bitmap, this`open, this`active, this`peak, this`most, this`data
      ensures Valid() && data == if done then old(data)[addr := v] else old(data)
      ensures granted ==> done
    {
      InChunk(size, addr);
      if !open[ChunkOf(addr)] {
        var resumed := Fault(addr, granted);
        if !resumed {
          return false;
        }
      }
      data := data[addr := v];
      return true;
    }

    // A guest load likewise.
    method Read(addr: nat, granted: bool) returns (done: bool, v: Byte)
      requires Valid() && addr < size
      modifies this`bitmap, this`open, this`active, this`peak, this`most
      ensures Valid() && (done ==> v == data[addr]) && (granted ==> done)
    {
      InChunk(size, addr);
      if !open[ChunkOf(addr)] {
        var resumed := Fault(addr, granted);
        if !resumed {
          return false, 0;
        }
      }
      return true, data[addr];
    }

    // is_region_zero on a chunk
    method IsChunkZero(i: nat) returns (zero: bool)
      requires Valid() && i < Chunks(size)
      ensures zero <==> forall a :: i * CHUNK <= a < ChunkEnd(size, i) ==> data[a] == 0
    {
      var a := i * CHUNK;
      while a < ChunkEnd(size, i)
        invariant i * CHUNK <= a && forall k :: i * CHUNK <= k < a && k < ChunkEnd(size, i) ==> data[k] == 0
      {
        if data[a] != 0 {
          return false;
        }
        a := a + 1;
      }
      return true;
    }

    // The chunk i, which holds only zeros, is made inaccessible and its pages are dropped.
    method Reclaim(i: nat)
      requires Valid() && i < Chunks(size) && bitmap[i] && forall a :: i * CHUNK <= a < ChunkEnd(size, i) ==>
               data[a] == 0
      modifies this`bitmap, this`open, this`active, this`data
      ensures Valid() && data == old(data) && bitmap == old(bitmap)[i := false]
    {
      ZeroChunk(i);
      open := open[i := false];
      data := Dropped(data, i);
      CountSet(bitmap, i, false, |bitmap|);
      bitmap := bitmap[i := false];
      if active > 0 {
        active := active - 1;
      }
    }

    /** memory_gc: visits one chunk, gives it back if it is active and holds only zeros and mprotect
        succeeds, and never changes what the guest sees. */
    method Collect(granted: bool) returns (ghost visited: nat)
      requires Valid()
      modifies this`bitmap, this`open, this`active, this`scan, this`data
      ensures Valid() && data == old(data)
      ensures visited == old(scan) && scan == After(visited, Chunks(size), 1)
      ensures var i := visited;
              var reclaimed := old(bitmap)[i] && granted && forall a :: i * CHUNK <= a < ChunkEnd(size, i) ==>
                data[a] == 0;
              bitmap == if reclaimed then old(bitmap)[i := false] else old(bitmap)
    {
      var idx, max := scan, Chunks(size);
      visited := idx;
      if bitmap[idx] {
        var zero := IsChunkZero(idx);
        if zero && granted {
          Reclaim(idx);
        }
      }
      scan := (idx + 1) % max;
      Wraps(idx, max);
    }

    lemma ZeroChunk(i: nat)
      requires Valid() && i < Chunks(size) && forall a :: i * CHUNK <= a < ChunkEnd(size, i) ==> data[a] == 0
      ensures forall a :: 0 <= a < size && ChunkOf(a) == i ==> data[a] == 0
    {
      forall a | 0 <= a < size && ChunkOf(a) == i ensures data[a] == 0 { InChunk(size, a); }
    }

    /** One round of the collector leaves active no chunk that holds only zeros. */
    method Round()
      requires Valid()
      modifies this`bitmap, this`open, this`active, this`scan, this`data
      ensures Valid() && data == old(data) && scan == old(scan)
      ensures forall i :: 0 <= i < Chunks(size) && Zero(i) ==> !bitmap[i]
    {
      var max := Chunks(size);
      ghost var first := scan;
      for k := 0 to max
        invariant Valid() && data == old(data) && scan == After(first, max, k)
        invariant forall j :: 0 <= j < k && Zero(After(first, max, j)) ==> !bitmap[After(first, max, j)]
      {
        if k + 1 < max { AfterMore(first, max, k); } else { LastStep(first, max); }
        ghost var visited := Collect(true);
      }
      forall i | 0 <= i < max && Zero(i) ensures !bitmap[i] {
        EveryChunkVisited(first, max, i);
        var k: nat :| k < max && After(first, max, k) == i;
      }
    }

    ghost predicate Zero(i: nat)
      reads this
    {
      |data| == size && forall a :: i * CHUNK <= a < ChunkEnd(size, i) ==> data[a] == 0
    }

    // One operation of the guest, the host or the collector.
    method Do(op: Op) returns (r: Answer)
      requires Valid() && InBounds(op, size)
      modifies this`bitmap, this`open, this`active, this`peak, this`most, this`data, this`scan
      ensures Valid() && data == FlatNext(old(data), op, r) && FlatAnswer(old(data), op, r)
    {
      match op
      case StoreOp(addr, v, granted) =>
        var done := Write(addr, v, granted);
        r := if done then Stored else Denied;
      case LoadOp(addr, granted) =>
        var done, v := Read(addr, granted);
        r := if done then Loaded(v) else Denied;
      case FaultOp(addr, granted) =>
        var resumed := Fault(addr, granted);
        r := Silent;
      case GcOp(granted) =>
        ghost var visited := Collect(granted);
        r := Silent;
    }

    /** Any sequence of stores, loads, faults, collector steps and mprotect failures is answered as a flat
        array answers it, and leaves that array. */
    method Serve(ops: seq<Op>) returns (rs: seq<Answer>)
      requires Valid() && forall i :: 0 <= i < |ops| ==> InBounds(ops[i], size)
      modifies this`bitmap, this`open, this`active, this`peak, this`most, this`data, this`scan
      ensures Valid() && |rs| == |ops| && data == FlatAfter(old(data), ops, rs)
      ensures forall i :: 0 <= i < |ops| ==> FlatAnswer(FlatAfter(old(data), ops[..i], rs[..i]), ops[i], rs[i])
    {
      rs := [];
      for i := 0 to |ops|
        invariant Valid() && |rs| == i && data == FlatAfter(old(data), ops[..i], rs)
        invariant forall k :: 0 <= k < i ==> FlatAnswer(FlatAfter(old(data), ops[..k], rs[..k]), ops[k], rs[k])
      {
        var r := Do(ops[i]);
        FlatMore(old(data), ops, i, rs, r);
        assert forall k :: 0 <= k <= i ==> (rs + [r])[..k] == rs[..k];
        assert rs[..i] == rs;
        rs := rs + [r];
      }
      assert ops[..|ops|] == ops;
    }

    // memory_get_usage
    method Usage() returns (bytes: nat)
      requires Valid()
      ensures bytes == most * CHUNK
    {
      var chunks := if peak < Chunks(size) then peak else Chunks(size);
      return chunks * CHUNK;
    }
  }

  // ---------------------------------------------------------------- reference: a flat array of bytes

  datatype Op =
    | StoreOp(addr: nat, v: Byte, granted: bool)
    | LoadOp(addr: nat, granted: bool)
    | FaultOp(addr: nat, granted: bool)     // a fault on its own, inside or outside guest memory
    | GcOp(granted: bool)

  datatype Answer = Stored | Loaded(v: Byte) | Denied | Silent

  predicate InBounds(op: Op, size: nat) {
    match op
    case StoreOp(addr, _, _) => addr < size
    case LoadOp(addr, _) => addr < size
    case _ => true
  }

  function FlatNext(flat: seq<Byte>, op: Op, r: Answer): seq<Byte> {
    if op.StoreOp? && r.Stored? && op.addr < |flat| then flat[op.addr := op.v] else flat
  }

  // What the array answers; an access is denied only when mprotect fails.
  predicate FlatAnswer(flat: seq<Byte>, op: Op, r: Answer) {
    match op
    case StoreOp(_, _, granted) => r == Stored || (r == Denied && !granted)
    case LoadOp(addr, granted) => (addr < |flat| && r == Loaded(flat[addr])) || (r == Denied && !granted)
    case _ => r == Silent
  }

  // The array after some operations with their answers.
  function FlatAfter(flat: seq<Byte>, ops: seq<Op>, rs: seq<Answer>): seq<Byte>
    requires |ops| == |rs|
  {
    if ops == [] then flat
    else
      var n := |ops| - 1;
      FlatNext(FlatAfter(flat, ops[..n], rs[..n]), ops[n], rs[n])
  }

  lemma FlatMore(flat: seq<Byte>, ops: seq<Op>, i: nat, rs: seq<Answer>, r: Answer)
    requires i < |ops| && |rs| == i
    ensures FlatAfter(flat, ops[..i + 1], rs + [r]) == FlatNext(FlatAfter(flat, ops[..i], rs), ops[i], r)
  {
    assert ops[..i + 1][..i] == ops[..i] && (rs + [r])[..i] == rs;
  }

  lemma {:induction false} NoneActive(bitmap: seq<bool>, n: nat)
    requires n <= |bitmap| && forall i :: 0 <= i < |bitmap| ==> !bitmap[i]
    ensures Count(bitmap, n) == 0
  {
    if n > 0 { NoneActive(bitmap, n - 1); }
  }

  // madvise(MADV_DONTNEED): the pages of a chunk read as zero.
  function Dropped(data: seq<Byte>, i: nat): (r: seq<Byte>)
    ensures |r| == |data| && forall a :: 0 <= a < |data| ==> r[a] == if ChunkOf(a) == i then 0 else data[a]
  {
    seq(|data|, a requires 0 <= a < |data| => if ChunkOf(a) == i then 0 else data[a])
  }

  // ---------------------------------------------------------------- the collector's round

  // The scan index after k more steps over max chunks.
  function After(scan: nat, max: nat, k: nat): nat
    requires scan < max
  {
    if scan + k < max then scan + k else if k < max then scan + k - max else scan
  }

  lemma Wraps(scan: nat, max: nat)
    requires scan < max
    ensures (scan + 1) % max == After(scan, max, 1)
  {
    if scan + 1 == max {
      assert (scan + 1) % max == 0;
    }
  }

  lemma AfterMore(scan: nat, max: nat, k: nat)
    requires scan < max && k + 1 < max
    ensures After(scan, max, k) < max && After(After(scan, max, k), max, 1) == After(scan, max, k + 1)
  {
  }

  lemma LastStep(scan: nat, max: nat)
    requires scan < max
    ensures After(scan, max, max - 1) < max && After(After(scan, max, max - 1), max, 1) == After(scan, max, max)
  {
  }

  /** Any max consecutive steps of the collector visit every chunk. */
  lemma EveryChunkVisited(scan: nat, max: nat, i: nat)
    requires scan < max && i < max
    ensures exists k: nat :: k < max && After(scan, max, k) == i
  {
    var k: nat := if i >= scan then i - scan else i + max - scan;
    assert k < max && After(scan, max, k) == i;
  }
}
