/** Lookup and in-order traversal of the ordered map: map_find, map_first, map_last,
    map_next and map_prev, none of which needs a parent pointer. */
module OrderedMapIteration {
  import opened Powers
  import opened OrderedMapTheory
  import opened OrderedMap

  ghost function NodeAt(s: seq<Item>, i: int): Ref {
    if 0 <= i < |s| then s[i].node else NULL
  }

  // map_find.
  method Find(m: OrderedMap, key: int) returns (r: Ref)
    requires m.Valid()
    ensures r == NULL <==> key !in m.Contents()
    ensures r != NULL ==> r in m.mem && m.mem[r].key == key && Item(r, key, m.mem[r].data) in Inorder(m.tree)
  {
    ghost var c, t := [], m.tree;
    ghost var bh: nat :| RedBlack(t, bh);
    r := m.root;
    while r != NULL
      invariant Walking(m.mem, m.tree, key, c, t, bh) && r == Root(t)
      decreases t
    {
      var cmp := Compare(key, m.mem[r].key);
      if cmp == EQUAL {
        WalkDecides(key, c, t);
        PlugInorder(c, t);
        return;
      }
      WalkStep(m.mem, m.tree, key, c, t, bh);
      r := if cmp == LESS then m.mem[r].left else m.mem[r].right;
      c, bh := c + [Down(t, cmp == LESS)], if t.red then bh else bh - 1;
      t := Child(t, cmp == LESS);
    }
    WalkDecides(key, c, t);
  }

  method Leftmost(m: OrderedMap, start: Ref, ghost t0: Tree) returns (r: Ref)
    requires Rep(m.mem, t0) && t0.Node? && start == Root(t0)
    ensures r == NodeAt(Inorder(t0), 0)
  {
    ghost var t := t0;
    r := start;
    while m.mem[r].left != NULL
      invariant Rep(m.mem, t) && t.Node? && r == Root(t) && Inorder(t0)[0] == Inorder(t)[0]
      decreases t
    {
      r, t := m.mem[r].left, t.left;
    }
    assert Rep(m.mem, t.left);
  }

  method Rightmost(m: OrderedMap, start: Ref, ghost t0: Tree) returns (r: Ref)
    requires Rep(m.mem, t0) && t0.Node? && start == Root(t0)
    ensures r == NodeAt(Inorder(t0), |Inorder(t0)| - 1)
  {
    ghost var t := t0;
    r := start;
    while m.mem[r].right != NULL
      invariant Rep(m.mem, t) && t.Node? && r == Root(t)
      invariant Inorder(t0)[|Inorder(t0)| - 1] == Inorder(t)[|Inorder(t)| - 1]
      decreases t
    {
      r, t := m.mem[r].right, t.right;
    }
    assert Rep(m.mem, t.right);
  }

  // map_first.
  method First(m: OrderedMap) returns (r: Ref)
    requires m.Valid()
    ensures r == NodeAt(Inorder(m.tree), 0)
  {
    r := m.root;
    if r != NULL {
      r := Leftmost(m, r, m.tree);
    }
  }

  // map_last.
  method Last(m: OrderedMap) returns (r: Ref)
    requires m.Valid()
    ensures r == NodeAt(Inorder(m.tree), |Inorder(m.tree)| - 1)
  {
    r := m.root;
    if r != NULL {
      r := Rightmost(m, r, m.tree);
    }
  }

  // The zipper at a given node, recovered from its key alone.
  lemma ZipperAt(m: OrderedMap, i: nat) returns (c: seq<Frame>, t: Tree)
    requires m.Valid() && i < |Inorder(m.tree)|
    ensures Plug(c, t) == m.tree && t.Node? && t.item == Inorder(m.tree)[i] && Rep(m.mem, t)
    ensures |Before(c)| + |Inorder(t.left)| == i
  {
    c, t := [], m.tree;
    assert Before(c) == [];
    while i != |Before(c)| + |Inorder(t.left)|
      invariant Plug(c, t) == m.tree && t.Node? && Rep(m.mem, t)
      invariant |Before(c)| <= i < |Before(c)| + |Inorder(t)|
      decreases t
    {
      var left := i < |Before(c)| + |Inorder(t.left)|;
      DownItems(c, t, left);
      var d := c + [Down(t, left)];
      assert d[..|d|-1] == c;
      c, t := d, Child(t, left);
    }
    PlugInorder(c, t);
  }

  // The search of map_next for a node without a right child: the last ancestor passed on the left.
  method SuccessorByKey(m: OrderedMap, node: Ref, ghost i: nat) returns (succ: Ref)
    requires m.Valid() && i < |Inorder(m.tree)| && node == Inorder(m.tree)[i].node
    requires node in m.mem && m.mem[node].right == NULL && m.mem[node].key == Inorder(m.tree)[i].key
    ensures succ == NodeAt(Inorder(m.tree), i + 1)
  {
    var key := m.mem[node].key;
    ghost var c, t := [], m.tree;
    ghost var bh: nat :| RedBlack(t, bh);
    succ := NULL;
    var curr := m.root;
    assert node in Nodes(m.tree) by { NodesAreInorder(m.tree); }
    while curr != NULL
      invariant Walking(m.mem, m.tree, key, c, t, bh) && curr == Root(t) && succ == NodeAt(After(c), 0)
      decreases t
    {
      var cmp := Compare(key, m.mem[curr].key);
      if cmp == EQUAL {
        SameKeySameNode(m.mem, c, t, node);
        break;
      }
      WalkStep(m.mem, m.tree, key, c, t, bh);
      DownItems(c, t, cmp == LESS);
      if cmp == LESS {
        succ, curr := curr, m.mem[curr].left;
      } else {
        curr := m.mem[curr].right;
      }
      c, bh := c + [Down(t, cmp == LESS)], if t.red then bh else bh - 1;
      t := Child(t, cmp == LESS);
    }
    AtNode(m.mem, c, t, bh, node, i);
  }

  ghost function LastNode(s: seq<Item>): Ref {
    NodeAt(s, |s| - 1)
  }

  lemma LastBefore(c: seq<Frame>, t: Tree, left: bool)
    requires t.Node?
    ensures LastNode(Before(c + [Down(t, left)])) == if left then LastNode(Before(c)) else t.item.node
  {
    DownItems(c, t, left);
  }

  // The search of map_prev for a node without a left child: the last ancestor passed on the right.
  method PredecessorByKey(m: OrderedMap, node: Ref, ghost i: nat) returns (pred: Ref)
    requires m.Valid() && i < |Inorder(m.tree)| && node == Inorder(m.tree)[i].node
    requires node in m.mem && m.mem[node].left == NULL && m.mem[node].key == Inorder(m.tree)[i].key
    ensures pred == NodeAt(Inorder(m.tree), i - 1)
  {
    var key := m.mem[node].key;
    ghost var c, t := [], m.tree;
    ghost var bh: nat :| RedBlack(t, bh);
    pred := NULL;
    var curr := m.root;
    assert node in Nodes(m.tree) by { NodesAreInorder(m.tree); }
    while curr != NULL
      invariant Walking(m.mem, m.tree, key, c, t, bh) && curr == Root(t)
      invariant pred == LastNode(Before(c))
      decreases t
    {
      var cmp := Compare(key, m.mem[curr].key);
      if cmp == EQUAL {
        SameKeySameNode(m.mem, c, t, node);
        break;
      }
      WalkStep(m.mem, m.tree, key, c, t, bh);
      LastBefore(c, t, cmp == LESS);
      ghost var d := c + [Down(t, cmp == LESS)];
      if cmp == GREATER {
        pred, curr := curr, m.mem[curr].right;
      } else {
        curr := m.mem[curr].left;
      }
      assert pred == LastNode(Before(d));
      c, bh := d, if t.red then bh else bh - 1;
      t := Child(t, cmp == LESS);
    }
    AtNode(m.mem, c, t, bh, node, i);
  }

  // What stands next to a node whose child on that side is missing.
  lemma Neighbours(c: seq<Frame>, t: Tree, i: nat, key: int)
    requires t.Node? && t.item.key == key && Ascending(Inorder(Plug(c, t)))
    requires i < |Inorder(Plug(c, t))| && Inorder(Plug(c, t))[i].key == key
    ensures t.right.Leaf? ==> NodeAt(After(c), 0) == NodeAt(Inorder(Plug(c, t)), i + 1)
    ensures t.left.Leaf? ==> NodeAt(Before(c), |Before(c)| - 1) == NodeAt(Inorder(Plug(c, t)), i - 1)
  {
    PlugInorder(c, t);
    var s, j := Inorder(Plug(c, t)), |Before(c)| + |Inorder(t.left)|;
    assert s[j] == t.item;
    assert i == j;
  }

  // Where the walk for a node's own key ends, its in-order neighbours are known.
  lemma AtNode(h: Heap, c: seq<Frame>, t: Tree, bh: nat, node: Ref, i: nat)
    requires node in h && Walking(h, Plug(c, t), h[node].key, c, t, bh) && Rep(h, Plug(c, t))
    requires node in Nodes(Plug(c, t)) && Ascending(Inorder(Plug(c, t)))
    requires i < |Inorder(Plug(c, t))| && Inorder(Plug(c, t))[i].key == h[node].key
    requires t.Node? ==> t.item.node == node
    ensures h[node].right == NULL ==> NodeAt(After(c), 0) == NodeAt(Inorder(Plug(c, t)), i + 1)
    ensures h[node].left == NULL ==> NodeAt(Before(c), |Before(c)| - 1) == NodeAt(Inorder(Plug(c, t)), i - 1)
  {
    StillAhead(h, c, t, bh, node);
    assert Rep(h, t.left) && Rep(h, t.right);
    Neighbours(c, t, i, h[node].key);
  }

  // What stands next to the root of t, which is at position i of the whole order.
  lemma Around(c: seq<Frame>, t: Tree, i: nat)
    requires t.Node? && i == |Before(c)| + |Inorder(t.left)|
    ensures var s, l, r := Inorder(Plug(c, t)), Inorder(t.left), Inorder(t.right);
            (r != [] ==> i + 1 < |s| && s[i + 1] == r[0]) && (l != [] ==> 0 < i <= |s| && s[i - 1] == l[|l| - 1])
  {
    PlugInorder(c, t);
    BesideItem(Before(c), Inorder(t.left), t.item, Inorder(t.right), After(c));
  }

  lemma BesideItem(a: seq<Item>, l: seq<Item>, x: Item, r: seq<Item>, b: seq<Item>)
    ensures var s, i := a + (l + [x] + r) + b, |a| + |l|;
            (r != [] ==> s[i + 1] == r[0]) && (l != [] ==> s[i - 1] == l[|l| - 1])
  {
  }

  // map_next from the node at position i.
  method Next(m: OrderedMap, node: Ref, ghost i: nat) returns (r: Ref)
    requires m.Valid() && i < |Inorder(m.tree)| && node == Inorder(m.tree)[i].node
    ensures r == NodeAt(Inorder(m.tree), i + 1)
  {
    ghost var c0, t0 := ZipperAt(m, i);
    var right := m.mem[node].right;
    if right != NULL {
      r := Leftmost(m, right, t0.right);
      Around(c0, t0, i);
    } else {
      r := SuccessorByKey(m, node, i);
    }
  }

  // map_prev from the node at position i.
  method Prev(m: OrderedMap, node: Ref, ghost i: nat) returns (r: Ref)
    requires m.Valid() && i < |Inorder(m.tree)| && node == Inorder(m.tree)[i].node
    ensures r == NodeAt(Inorder(m.tree), i - 1)
  {
    ghost var c0, t0 := ZipperAt(m, i);
    var left := m.mem[node].left;
    if left != NULL {
      r := Rightmost(m, left, t0.left);
      Around(c0, t0, i);
    } else {
      r := PredecessorByKey(m, node, i);
    }
  }

  // map_first followed by map_next visits every key exactly once, in ascending order.
  method KeysUpwards(m: OrderedMap) returns (ks: seq<int>)
    requires m.Valid()
    ensures forall i, j :: 0 <= i < j < |ks| ==> ks[i] < ks[j]
    ensures |ks| == m.size && forall k :: k in ks <==> k in m.Contents()
  {
    ghost var s := Inorder(m.tree);
    var it := First(m);
    ks := [];
    while it != NULL
      invariant |ks| <= |s| && it == NodeAt(s, |ks|)
      invariant forall i :: 0 <= i < |ks| ==> ks[i] == s[i].key
      decreases |s| - |ks|
    {
      assert |ks| < |s|;
      ghost var c, t := ZipperAt(m, |ks|);
      var next := Next(m, it, |ks|);
      ks := ks + [m.mem[it].key];
      it := next;
    }
    AllLive(m);
    ToMapDomain(s);
  }

  // map_last followed by map_prev visits every key exactly once, in descending order.
  method KeysDownwards(m: OrderedMap) returns (ks: seq<int>)
    requires m.Valid()
    ensures forall i, j :: 0 <= i < j < |ks| ==> ks[i] > ks[j]
    ensures |ks| == m.size && forall k :: k in ks <==> k in m.Contents()
  {
    ghost var s := Inorder(m.tree);
    ghost var n := |s| - 1;
    var it := Last(m);
    ks := [];
    while it != NULL
      invariant |ks| <= |s| && it == NodeAt(s, n - |ks|)
      invariant forall i :: 0 <= i < |ks| ==> ks[i] == s[n - i].key
      decreases |s| - |ks|
    {
      assert |ks| < |s|;
      ghost var c, t := ZipperAt(m, n - |ks|);
      var next := Prev(m, it, n - |ks|);
      ks := ks + [m.mem[it].key];
      it := next;
    }
    AllLive(m);
    ToMapDomain(s);
    DownwardsComplete(s, ks);
  }

  lemma DownwardsComplete(s: seq<Item>, ks: seq<int>)
    requires |ks| == |s| && forall i :: 0 <= i < |ks| ==> ks[i] == s[|s| - 1 - i].key
    ensures forall k :: k in ks <==> k in KeysOf(s)
  {
    forall k | k in KeysOf(s) ensures k in ks {
      var i :| 0 <= i < |s| && s[i].key == k;
      assert ks[|s| - 1 - i] == k;
    }
  }

  lemma AllLive(m: OrderedMap)
    requires m.Valid()
    ensures forall i :: 0 <= i < |Inorder(m.tree)| ==> Inorder(m.tree)[i].node != NULL
  {
    forall i | 0 <= i < |Inorder(m.tree)| ensures Inorder(m.tree)[i].node != NULL {
      var c, t := ZipperAt(m, i);
    }
  }

  // ---------------------------------------------------------------- whole runs

  // An insertion comes with the address that malloc returns for it, NULL if it fails.
  datatype MapOp = InsertOp(key: int, data: int, addr: Ref) | EraseOp(key: int)

  ghost function KeysIn(r: set<Item>): set<int> {
    set x | x in r :: x.key
  }

  // The items a run stands for: inserting an existing key, or without memory, changes nothing, and no
  // operation moves another key to another node.
  ghost function Applied(before: set<Item>, op: MapOp): set<Item> {
    match op
    case InsertOp(k, v, addr) => if k in KeysIn(before) || addr == NULL then before else before + {Item(addr, k, v)}
    case EraseOp(k) => set x | x in before && x.key != k
  }

  ghost function Replayed(ops: seq<MapOp>): set<Item> {
    if ops == [] then {} else Applied(Replayed(ops[..|ops| - 1]), ops[|ops| - 1])
  }

  // malloc never returns an address in use; an address that was freed may come back.
  ghost predicate Allocatable(r: set<Item>, op: MapOp) {
    op.InsertOp? && op.addr != NULL ==> forall x :: x in r ==> x.node != op.addr
  }

  ghost predicate LegalRun(ops: seq<MapOp>) {
    forall i :: 0 <= i < |ops| ==> Allocatable(Replayed(ops[..i]), ops[i])
  }

  lemma ReplayedMore(ops: seq<MapOp>, i: nat)
    requires i < |ops|
    ensures Replayed(ops[..i + 1]) == Applied(Replayed(ops[..i]), ops[i])
  {
    assert ops[..i + 1][..i] == ops[..i];
  }

  lemma NodesAreItems(m: OrderedMap)
    requires m.Valid()
    ensures forall n :: n in m.mem <==> exists x :: x in m.Items() && x.node == n
  {
    NodesAreInorder(m.tree);
    forall n | n in m.mem ensures exists x :: x in m.Items() && x.node == n {
      assert n in NodesOf(Inorder(m.tree));
    }
    forall x | x in m.Items() ensures x.node in m.mem {
      assert x.node in NodesOf(Inorder(m.tree));
    }
  }

  lemma KeysAreItems(m: OrderedMap)
    requires m.Valid()
    ensures forall k :: k in m.Contents() <==> k in KeysIn(m.Items())
  {
    ToMapDomain(Inorder(m.tree));
  }

  // The finite map of a set of items, one for each key.
  ghost predicate Binds(r: set<Item>, contents: map<int, int>) {
    (forall k :: k in contents <==> k in KeysIn(r)) &&
    forall x :: x in r ==> x.key in contents && contents[x.key] == x.data
  }

  lemma ItemsBind(m: OrderedMap)
    requires m.Valid()
    ensures Binds(m.Items(), m.Contents())
  {
    KeysAreItems(m);
    var s := Inorder(m.tree);
    forall x | x in m.Items() ensures x.key in m.Contents() && m.Contents()[x.key] == x.data {
      var i :| 0 <= i < |s| && s[i] == x;
      assert s == s[..i] + [x] + s[i + 1..];
      AscendingSplit(s[..i], x, s[i + 1..]);
      ToMapInsert(s[..i], x, s[i + 1..]);
    }
  }

  // A key is in one item only.
  lemma OneItem(m: OrderedMap, x: Item, y: Item)
    requires m.Valid() && x in m.Items() && y in m.Items() && x.key == y.key
    ensures x == y
  {
    var s := Inorder(m.tree);
    var i :| 0 <= i < |s| && s[i] == x;
    var j :| 0 <= j < |s| && s[j] == y;
  }

  method Apply(m: OrderedMap, op: MapOp)
    requires m.Valid() && m.size + 1 < Pow2(64) && Allocatable(m.Items(), op)
    modifies m
    ensures m.Valid() && m.Items() == Applied(old(m.Items()), op) && m.size <= old(m.size) + 1
  {
    NodesAreItems(m);
    KeysAreItems(m);
    match op
    case InsertOp(k, v, addr) =>
      var ok := m.Insert(k, v, addr);
    case EraseOp(k) =>
      var it := Find(m, k);
      if it != NULL {
        ghost var x := Item(it, k, m.mem[it].data);
        forall y | y in m.Items() ensures y.key == k <==> y == x {
          if y.key == k { OneItem(m, x, y); }
        }
      }
      m.Erase(it);
  }

  // Every run of insertions and erasures from the empty map, whatever addresses malloc hands out,
  // keeps the red-black search tree and ends in the items of the run.
  method Replay(ops: seq<MapOp>) returns (m: OrderedMap)
    requires |ops| + 1 < Pow2(64) && LegalRun(ops)
    ensures fresh(m) && m.Valid() && m.Items() == Replayed(ops) && Binds(Replayed(ops), m.Contents())
  {
    m := new OrderedMap();
    for i := 0 to |ops|
      invariant fresh(m) && m.Valid() && m.Items() == Replayed(ops[..i]) && m.size <= i
    {
      ReplayedMore(ops, i);
      Apply(m, ops[i]);
    }
    assert ops[..|ops|] == ops;
    ItemsBind(m);
  }
}
