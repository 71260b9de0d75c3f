/** The singly linked IR list of a translated basic block, for any type of instruction. */
module IrList {

  class IrNode<T> {
    var insn: T
    var next: IrNode?<T>

    constructor (insn: T)
      ensures this.insn == insn && next == null
    {
      this.insn, next := insn, null;
    }
  }

  ghost predicate Differ<T>(ns: seq<IrNode<T>>, i: nat, j: nat)
    requires i < |ns| && j < |ns|
  {
    ns[i] != ns[j]
  }

  // Where the node at i leads.
  ghost function NextOf<T>(ns: seq<IrNode<T>>, i: nat): IrNode?<T> {
    if i + 1 < |ns| then ns[i + 1] else null
  }

  ghost predicate LeadsOn<T>(ns: seq<IrNode<T>>, i: nat)
    requires i < |ns|
    reads ns[i]
  {
    ns[i].next == NextOf(ns, i)
  }

  ghost predicate Linked<T>(ns: seq<IrNode<T>>)
    reads ns
  {
    (forall i, j :: 0 <= i < j < |ns| ==> Differ(ns, i, j)) && (forall i :: 0 <= i < |ns| ==> LeadsOn(ns, i))
  }

  ghost function Values<T>(ns: seq<IrNode<T>>): (vs: seq<T>)
    reads ns
    ensures |vs| == |ns|
    ensures forall i :: 0 <= i < |ns| ==> vs[i] == ns[i].insn
  {
    seq(|ns|, i requires 0 <= i < |ns| reads ns => ns[i].insn)
  }

  lemma OthersDiffer<T>(ns: seq<IrNode<T>>, k: nat)
    requires Linked(ns) && k < |ns|
    ensures forall i :: 0 <= i < |ns| && i != k ==> ns[i] != ns[k]
  {
    forall i | 0 <= i < |ns| && i != k ensures ns[i] != ns[k] {
      assert if i < k then Differ(ns, i, k) else Differ(ns, k, i);
    }
  }

  // block_t: at least one instruction, list length n_insn, ir_tail the last node.
  class Block<T> {
    var head: IrNode<T>
    var tail: IrNode<T>
    var nInsn: nat
    ghost var nodes: seq<IrNode<T>>

    // The list that block_translate builds, one node per decoded instruction.
    constructor (decoded: seq<T>)
      requires decoded != []
      ensures Valid() && fresh(nodes) && Insns() == decoded
    {
      var first := new IrNode<T>(decoded[0]);
      var prev := first;
      ghost var ns := [first];
      for i := 1 to |decoded|
        invariant |ns| == i && fresh(ns) && ns[0] == first && ns[i - 1] == prev && Linked(ns)
        invariant forall j :: 0 <= j < i ==> ns[j].insn == decoded[j]
      {
        ghost var was := ns;
        forall j | 0 <= j < i - 1 ensures was[j] != prev && was[j].next == was[j + 1] {
          assert Differ(was, j, i - 1) && LeadsOn(was, j);
        }
        var ir := new IrNode<T>(decoded[i]);
        prev.next := ir;
        prev := ir;
        ns := ns + [ir];
        forall j, k | 0 <= j < k < |ns| ensures Differ(ns, j, k) {
          if k < i { assert Differ(was, j, k); }
        }
        forall j | 0 <= j < |ns| ensures LeadsOn(ns, j) {
        }
      }
      head, tail, nInsn, nodes := first, prev, |decoded|, ns;
    }

    ghost predicate Valid()
      reads this, nodes
    {
      nodes != [] && head == nodes[0] && tail == nodes[|nodes| - 1] && nInsn == |nodes| && Linked(nodes)
    }

    ghost function Insns(): (vs: seq<T>)
      reads this, nodes
    {
      Values(nodes)
    }

    // A loop over the list has reached ir: done lies behind it, rem starts at it.
    ghost predicate At(ir: IrNode?<T>, done: seq<T>, rem: seq<T>, foot: set<IrNode<T>>)
      reads this, nodes
    {
      Valid() && Insns() == done + rem && (forall n :: n in nodes ==> n in foot) &&
      (if rem == [] then ir == null else ir == nodes[|done|])
    }

    lemma Begin()
      requires Valid()
      ensures At(head, [], Insns(), set n | n in nodes)
    {
    }

    lemma End(ir: IrNode?<T>, done: seq<T>, rem: seq<T>, foot: set<IrNode<T>>)
      requires At(ir, done, rem, foot)
      ensures Valid() && Insns() == done + rem && nInsn == |done| + |rem|
    {
    }

    // What ir and ir->next hold.
    lemma Peek(ir: IrNode<T>, done: seq<T>, rem: seq<T>, foot: set<IrNode<T>>)
      requires At(ir, done, rem, foot)
      ensures rem != [] && ir in foot && ir.insn == rem[0]
      ensures |rem| >= 2 ==> ir.next != null && ir.next.insn == rem[1]
    {
      var k := |done|;
      assert rem != [] ==> rem[0] == (done + rem)[k];
      assert |rem| >= 2 ==> rem[1] == (done + rem)[k + 1];
      assert LeadsOn(nodes, k);
    }

    lemma Advance(ir: IrNode<T>, done: seq<T>, rem: seq<T>, foot: set<IrNode<T>>)
      requires At(ir, done, rem, foot)
      ensures rem != [] && At(ir.next, done + [rem[0]], rem[1..], foot)
    {
      var k := |done|;
      assert rem != [] ==> done + rem == done + [rem[0]] + rem[1..];
      assert ir == nodes[k] && LeadsOn(nodes, k);
    }

    // A look-ahead has passed the first n instructions of rem.
    ghost predicate Ahead(next: IrNode?<T>, n: nat, done: seq<T>, rem: seq<T>, foot: set<IrNode<T>>)
      reads this, nodes
    {
      n <= |rem| && At(next, done + rem[..n], rem[n..], foot)
    }

    lemma LookFrom(ir: IrNode<T>, done: seq<T>, rem: seq<T>, foot: set<IrNode<T>>)
      requires At(ir, done, rem, foot)
      ensures Ahead(ir, 0, done, rem, foot)
    {
      assert rem[0..] == rem && done + rem[..0] == done;
    }

    lemma LookOn(next: IrNode<T>, n: nat, done: seq<T>, rem: seq<T>, foot: set<IrNode<T>>)
      requires Ahead(next, n, done, rem, foot)
      ensures n < |rem| && next.insn == rem[n] && Ahead(next.next, n + 1, done, rem, foot)
    {
      Peek(next, done + rem[..n], rem[n..], foot);
      Advance(next, done + rem[..n], rem[n..], foot);
      assert done + rem[..n] + [rem[n..][0]] == done + rem[..n + 1] && rem[n..][1..] == rem[n + 1..];
    }

    lemma LookEnd(n: nat, done: seq<T>, rem: seq<T>, foot: set<IrNode<T>>)
      requires Ahead(null, n, done, rem, foot)
      ensures n == |rem|
    {
    }

    // Overwrites the instruction that the loop has reached.
    method Overwrite(ir: IrNode<T>, insn: T, ghost done: seq<T>, ghost rem: seq<T>, ghost foot: set<IrNode<T>>)
      requires At(ir, done, rem, foot)
      modifies ir
      ensures rem != [] && At(ir, done, [insn] + rem[1..], foot)
    {
      assert rem != [];
      OthersDiffer(nodes, |done|);
      ir.insn := insn;
      assert Values(nodes) == (done + rem)[|done| := insn];
      Patched(done, rem, insn, 1);
      assert forall i :: 0 <= i < |nodes| ==> LeadsOn(nodes, i) == old(LeadsOn(nodes, i));
    }
  }

  // ---------------------------------------------------------------- removing nodes

  // ns without the n nodes after position k.
  function Without<T>(ns: seq<T>, k: nat, n: nat): seq<T>
    requires k + n < |ns|
  {
    ns[..k + 1] + ns[k + 1 + n..]
  }

  lemma WithoutOneMore<T>(ns: seq<T>, k: nat, n: nat)
    requires k + n + 1 < |ns|
    ensures Without(Without(ns, k, n), k, 1) == Without(ns, k, n + 1)
  {
  }

  // One turn of the unlinking loop.
  method UnlinkNext<T>(ir: IrNode<T>, ghost ns: seq<IrNode<T>>, ghost k: nat)
    requires Linked(ns) && k + 1 < |ns| && ns[k] == ir
    modifies ir`next
    ensures Linked(Without(ns, k, 1))
  {
    OthersDiffer(ns, k);
    forall i | 0 <= i < |ns| ensures ns[i].next == NextOf(ns, i) {
      assert LeadsOn(ns, i);
    }
    var next := ir.next;
    assert next == NextOf(ns, k);
    ir.next := next.next;
    ghost var r := Without(ns, k, 1);
    assert forall i :: 0 <= i < |r| ==> r[i] == ns[if i <= k then i else i + 1];
    forall i, j | 0 <= i < j < |r| ensures Differ(r, i, j) {
      assert Differ(ns, if i <= k then i else i + 1, if j <= k then j else j + 1);
    }
    forall i | 0 <= i < |r| ensures LeadsOn(r, i) {
      assert r[i].next == if i == k then NextOf(ns, k + 1) else NextOf(ns, if i <= k then i else i + 1);
    }
  }

  method UnlinkMany<T>(ir: IrNode<T>, n: nat, ghost ns: seq<IrNode<T>>, ghost k: nat)
    requires Linked(ns) && k + n < |ns| && ns[k] == ir
    modifies ir`next
    ensures Linked(Without(ns, k, n))
  {
    assert Without(ns, k, 0) == ns;
    for i := 0 to n
      invariant Linked(Without(ns, k, i))
    {
      WithoutOneMore(ns, k, i);
      UnlinkNext(ir, Without(ns, k, i), k);
    }
  }

  // remove_next_nth_ir
  method RemoveNext<T>(block: Block<T>, ir: IrNode<T>, n: nat, ghost k: nat)
    requires block.Valid() && k + n < |block.nodes| && block.nodes[k] == ir
    modifies block, ir`next
    ensures block.Valid() && block.nodes == Without(old(block.nodes), k, n)
  {
    ghost var ns := block.nodes;
    UnlinkMany(ir, n, ns, k);
    ghost var r := Without(ns, k, n);
    assert LeadsOn(r, k);
    assert r[k] == ir && (k + 1 < |r| ==> r[|r| - 1] == ns[|ns| - 1]);
    if ir.next == null {
      block.tail := ir;
    }
    block.nInsn := block.nInsn - n;
    block.nodes := r;
  }

  lemma WithoutValues<T>(ns: seq<IrNode<T>>, done: seq<T>, rem: seq<T>, head: T, taken: nat)
    requires 1 <= taken <= |rem| && Values(ns) == (done + rem)[|done| := head]
    ensures Values(Without(ns, |done|, taken - 1)) == done + ([head] + rem[taken..])
  {
    var k, n := |done|, taken - 1;
    assert Values(Without(ns, k, n)) == Values(ns)[..k + 1] + Values(ns)[k + 1 + n..];
    Patched(done, rem, head, taken);
  }

  // Puts head in place of the first taken instructions that the loop has reached.
  method Collapse<T>(block: Block<T>, ir: IrNode<T>, head: T, taken: nat,
                     ghost done: seq<T>, ghost rem: seq<T>, ghost foot: set<IrNode<T>>)
    requires block.At(ir, done, rem, foot) && 1 <= taken <= |rem|
    modifies block, ir
    ensures block.At(ir, done, [head] + rem[taken..], foot)
  {
    ghost var ns := block.nodes;
    block.Overwrite(ir, head, done, rem, foot);
    assert Values(ns) == done + ([head] + rem[1..]);
    RemoveNext(block, ir, taken - 1, |done|);
    OverwrittenValues(done, rem, head);
    WithoutValues(ns, done, rem, head, taken);
  }

  lemma OverwrittenValues<T>(done: seq<T>, rem: seq<T>, head: T)
    requires rem != []
    ensures (done + rem)[|done| := head] == done + ([head] + rem[1..])
  {
  }

  // Overwriting one element and dropping those after it, on plain sequences.
  lemma Patched<T>(done: seq<T>, rem: seq<T>, head: T, taken: nat)
    requires 1 <= taken <= |rem|
    ensures var ws := (done + rem)[|done| := head];
            ws[..|done| + 1] + ws[|done| + taken..] == done + ([head] + rem[taken..])
  {
  }
}
