/** The ordered map of src/map.c over heap-allocated nodes: pointers and colour bits are
    changed in place, and the path array drives the repair loops. */
module OrderedMap {
  import opened Powers
  import opened OrderedMapTheory

  // sizeof(void *) << 4 on a 64-bit host.
  const RB_MAX_DEPTH: nat := 128

  datatype Cmp = LESS | EQUAL | GREATER

  // map_cmp_int and map_cmp_uint.
  function Compare(a: int, b: int): Cmp {
    if a < b then LESS else if a == b then EQUAL else GREATER
  }

  datatype PathEntry = PathEntry(node: Ref, cmp: Cmp)

  // ---------------------------------------------------------------- node memory

  // A node as malloc hands it out; the colour bit packed into the right pointer is a field here.
  datatype Cell = Cell(key: int, data: int, left: Ref, right: Ref, red: bool)

  // The live nodes: reading or writing any other address is a use of freed memory.
  type Heap = map<Ref, Cell>

  function Root(t: Tree): Ref {
    if t.Leaf? then NULL else t.item.node
  }

  ghost predicate Holds(h: Heap, red: bool, it: Item) {
    it.node != NULL && it.node in h &&
    h[it.node].key == it.key && h[it.node].data == it.data && h[it.node].red == red
  }

  // The memory carries exactly the colours, entries and links of t.
  ghost predicate Rep(h: Heap, t: Tree) {
    match t
    case Leaf => true
    case Node(red, it, l, r) =>
      Holds(h, red, it) && h[it.node].left == Root(l) && h[it.node].right == Root(r) && Rep(h, l) && Rep(h, r)
  }

  ghost function FrameNodes(f: Frame): set<Ref> {
    {f.item.node} + Nodes(f.sibling)
  }

  ghost function CtxNodes(c: seq<Frame>): set<Ref> {
    if c == [] then {} else CtxNodes(c[..|c|-1]) + FrameNodes(c[|c|-1])
  }

  // A frame in memory; the link towards the hole is left open.
  ghost predicate FrameRep(h: Heap, f: Frame) {
    Holds(h, f.red, f.item) && Rep(h, f.sibling) &&
    (if f.wentLeft then h[f.item.node].right else h[f.item.node].left) == Root(f.sibling)
  }

  ghost function Hole(h: Heap, f: Frame): Ref
    requires f.item.node in h
  {
    if f.wentLeft then h[f.item.node].left else h[f.item.node].right
  }

  // All frames are in memory, and the innermost one points at hole.
  ghost predicate CtxRep(h: Heap, c: seq<Frame>, hole: Ref)
    decreases |c|
  {
    c != [] ==>
      var f := c[|c|-1];
      FrameRep(h, f) && Hole(h, f) == hole && CtxRep(h, c[..|c|-1], f.item.node)
  }

  // As CtxRep, but whatever the innermost frame points at.
  ghost predicate OpenRep(h: Heap, c: seq<Frame>) {
    c != [] ==> FrameRep(h, c[|c|-1]) && CtxRep(h, c[..|c|-1], c[|c|-1].item.node)
  }

  ghost predicate FrameSeparate(f: Frame) {
    f.item.node !in Nodes(f.sibling) && Separate(f.sibling)
  }

  ghost predicate CtxSeparate(c: seq<Frame>) {
    c != [] ==>
      FrameSeparate(c[|c|-1]) && FrameNodes(c[|c|-1]) !! CtxNodes(c[..|c|-1]) && CtxSeparate(c[..|c|-1])
  }

  ghost predicate ZipSeparate(c: seq<Frame>, t: Tree) {
    CtxSeparate(c) && Separate(t) && CtxNodes(c) !! Nodes(t)
  }

  ghost predicate OnPath(path: seq<PathEntry>, c: seq<Frame>) {
    |c| <= |path| &&
    forall i :: 0 <= i < |c| ==>
      path[i].node == c[i].item.node && path[i].cmp == if c[i].wentLeft then LESS else GREATER
  }

  // ---------------------------------------------------------------- in-order sequences and node sets

  ghost predicate DistinctNodes(s: seq<Item>) {
    forall i, j :: 0 <= i < j < |s| ==> s[i].node != s[j].node
  }

  ghost function NodesOf(s: seq<Item>): set<Ref> {
    set x | x in s :: x.node
  }

  lemma NodesOfConcat(a: seq<Item>, b: seq<Item>)
    ensures NodesOf(a + b) == NodesOf(a) + NodesOf(b)
  {
    assert forall x :: x in a + b <==> x in a || x in b;
  }

  lemma {:induction false} NodesAreInorder(t: Tree)
    ensures Nodes(t) == NodesOf(Inorder(t))
  {
    match t
    case Leaf =>
    case Node(_, it, l, r) =>
      NodesAreInorder(l);
      NodesAreInorder(r);
      NodesOfConcat(Inorder(l), [it]);
      NodesOfConcat(Inorder(l) + [it], Inorder(r));
      assert NodesOf([it]) == {it.node};
  }

  lemma DistinctConcat(a: seq<Item>, b: seq<Item>)
    ensures DistinctNodes(a + b) <==> DistinctNodes(a) && DistinctNodes(b) && NodesOf(a) !! NodesOf(b)
  {
    var s := a + b;
    if DistinctNodes(s) {
      forall i, j | 0 <= i < j < |a| ensures a[i].node != a[j].node {
        assert s[i].node != s[j].node;
      }
      forall i, j | 0 <= i < j < |b| ensures b[i].node != b[j].node {
        assert s[|a| + i].node != s[|a| + j].node;
      }
      forall x, y | x in a && y in b ensures x.node != y.node {
        var i :| 0 <= i < |a| && a[i] == x;
        var j :| 0 <= j < |b| && b[j] == y;
        assert s[i].node != s[|a| + j].node;
      }
    }
    if DistinctNodes(a) && DistinctNodes(b) && NodesOf(a) !! NodesOf(b) {
      forall i, j | 0 <= i < j < |s| ensures s[i].node != s[j].node {
        if i < |a| <= j {
          assert a[i].node in NodesOf(a) && b[j - |a|].node in NodesOf(b);
        }
      }
    }
  }

  lemma {:induction false} SeparateIsDistinct(t: Tree)
    ensures Separate(t) <==> DistinctNodes(Inorder(t))
  {
    match t
    case Leaf =>
    case Node(_, it, l, r) =>
      SeparateIsDistinct(l);
      SeparateIsDistinct(r);
      NodesAreInorder(l);
      NodesAreInorder(r);
      DistinctConcat(Inorder(l), [it]);
      DistinctConcat(Inorder(l) + [it], Inorder(r));
      NodesOfConcat(Inorder(l), [it]);
      assert NodesOf([it]) == {it.node};
  }

  // Trees with the same in-order sequence have the same nodes and are equally free of sharing.
  lemma SameInorder(t: Tree, u: Tree)
    requires Inorder(t) == Inorder(u)
    ensures Nodes(t) == Nodes(u) && (Separate(t) <==> Separate(u))
  {
    NodesAreInorder(t);
    NodesAreInorder(u);
    SeparateIsDistinct(t);
    SeparateIsDistinct(u);
  }

  // ---------------------------------------------------------------- framing

  // Memory g differs from h at most on the nodes m.
  ghost predicate ChangedOnly(h: Heap, g: Heap, m: set<Ref>) {
    g.Keys == h.Keys && forall n :: n in h && n !in m ==> g[n] == h[n]
  }

  // A subtree none of whose nodes was touched is still in memory.
  lemma {:induction false} Kept(h: Heap, g: Heap, m: set<Ref>, t: Tree)
    requires Rep(h, t) && ChangedOnly(h, g, m) && Nodes(t) !! m
    ensures Rep(g, t)
  {
    match t
    case Leaf =>
    case Node(_, it, l, r) =>
      assert it.node in Nodes(t);
      Kept(h, g, m, l);
      Kept(h, g, m, r);
  }

  lemma {:induction false} KeptCtx(h: Heap, g: Heap, m: set<Ref>, c: seq<Frame>, hole: Ref)
    requires CtxRep(h, c, hole) && ChangedOnly(h, g, m) && CtxNodes(c) !! m
    ensures CtxRep(g, c, hole)
    decreases |c|
  {
    if c != [] {
      var f := c[|c|-1];
      assert f.item.node in FrameNodes(f);
      Kept(h, g, m, f.sibling);
      KeptCtx(h, g, m, c[..|c|-1], f.item.node);
    }
  }

  // A context and its subtree, all links in place, make up the whole tree.
  lemma {:induction false} PlugRep(h: Heap, c: seq<Frame>, t: Tree)
    requires CtxRep(h, c, Root(t)) && Rep(h, t) && ZipSeparate(c, t)
    ensures Rep(h, Plug(c, t)) && Separate(Plug(c, t)) && Nodes(Plug(c, t)) == CtxNodes(c) + Nodes(t)
    ensures Root(Plug(c, t)) == if c == [] then Root(t) else c[0].item.node
    decreases |c|
  {
    if c != [] {
      var f := c[|c|-1];
      assert Nodes(Rebuild(f, t)) == FrameNodes(f) + Nodes(t);
      PlugRep(h, c[..|c|-1], Rebuild(f, t));
    }
  }

  // ---------------------------------------------------------------- walking down

  ghost function Down(t: Tree, left: bool): Frame
    requires t.Node?
  {
    Frame(t.red, t.item, left, if left then t.right else t.left)
  }

  ghost function Child(t: Tree, left: bool): Tree
    requires t.Node?
  {
    if left then t.left else t.right
  }

  // The tree t, of black height bh, in the hole of c. Bound to a variable, the body of such an invariant is
  // proved as a whole, not conjunct by conjunct at every use; so are the other long ones below.
  ghost predicate Zipped(h: Heap, c: seq<Frame>, t: Tree, bh: nat) {
    var ok := CtxRep(h, c, Root(t)) && Rep(h, t) && ZipSeparate(c, t) && RedBlack(t, bh) && Accepts(c, bh, IsRed(t));
    ok
  }

  lemma WalkDown(h: Heap, c: seq<Frame>, t: Tree, bh: nat, left: bool)
    requires t.Node? && Zipped(h, c, t, bh)
    ensures var bh' := if t.red then bh else bh - 1;
            bh' >= 0 && Zipped(h, c + [Down(t, left)], Child(t, left), bh')
    ensures Plug(c + [Down(t, left)], Child(t, left)) == Plug(c, t)
  {
    var c' := c + [Down(t, left)];
    assert c'[..|c'|-1] == c;
  }

  lemma DownItems(c: seq<Frame>, t: Tree, left: bool)
    requires t.Node?
    ensures Before(c + [Down(t, left)]) == Before(c) + if left then [] else Inorder(t.left) + [t.item]
    ensures After(c + [Down(t, left)]) == (if left then [t.item] + Inorder(t.right) else []) + After(c)
  {
    var c' := c + [Down(t, left)];
    assert c'[..|c'|-1] == c;
  }

  // The state of a walk through tree for key: everything passed on the left is smaller,
  // everything passed on the right is larger.
  ghost predicate Walking(h: Heap, tree: Tree, key: int, c: seq<Frame>, t: Tree, bh: nat) {
    Zipped(h, c, t, bh) && Plug(c, t) == tree && AllBelow(Before(c), key) && AllAbove(After(c), key)
  }

  lemma AllConcat(a: seq<Item>, b: seq<Item>, k: int)
    ensures AllBelow(a + b, k) <==> AllBelow(a, k) && AllBelow(b, k)
    ensures AllAbove(a + b, k) <==> AllAbove(a, k) && AllAbove(b, k)
  {
    assert forall x :: x in a + b <==> x in a || x in b;
  }

  lemma Recentre(p: seq<Item>, l: seq<Item>, x: Item, r: seq<Item>, q: seq<Item>)
    ensures p + (l + [x] + r) + q == (p + l) + [x] + (r + q)
  {
  }

  // The items around a node of an ascending tree, relative to the node's own key.
  lemma AroundNode(c: seq<Frame>, t: Tree)
    requires t.Node? && Ascending(Inorder(Plug(c, t)))
    ensures AllBelow(Inorder(t.left), t.item.key) && AllAbove(Inorder(t.right), t.item.key)
    ensures AllBelow(Before(c), t.item.key) && AllAbove(After(c), t.item.key)
  {
    PlugInorder(c, t);
    var p, l, r, q, x := Before(c), Inorder(t.left), Inorder(t.right), After(c), t.item;
    Recentre(p, l, x, r, q);
    AscendingSplit(p + l, x, r + q);
    AllConcat(p, l, x.key);
    AllConcat(r, q, x.key);
  }

  lemma OrderStep(key: int, c: seq<Frame>, t: Tree)
    requires t.Node? && Ascending(Inorder(Plug(c, t)))
    requires AllBelow(Before(c), key) && AllAbove(After(c), key)
    ensures key < t.item.key ==> AllAbove([t.item] + Inorder(t.right) + After(c), key)
    ensures key > t.item.key ==> AllBelow(Before(c) + (Inorder(t.left) + [t.item]), key)
  {
    AroundNode(c, t);
    AllConcat([t.item] + Inorder(t.right), After(c), key);
    AllConcat([t.item], Inorder(t.right), key);
    AllConcat(Before(c), Inorder(t.left) + [t.item], key);
    AllConcat(Inorder(t.left), [t.item], key);
  }

  lemma WalkStep(h: Heap, tree: Tree, key: int, c: seq<Frame>, t: Tree, bh: nat)
    requires t.Node? && t.item.key != key && Walking(h, tree, key, c, t, bh) && Ascending(Inorder(tree))
    ensures var left := key < t.item.key;
            (t.red || bh > 0) &&
            Walking(h, tree, key, c + [Down(t, left)], Child(t, left), if t.red then bh else bh - 1)
  {
    WalkDown(h, c, t, bh, key < t.item.key);
    DownItems(c, t, key < t.item.key);
    OrderStep(key, c, t);
  }

  // ---------------------------------------------------------------- walking up

  // The new link from the innermost frame to the subtree below it.
  ghost function Linked(h: Heap, f: Frame, t: Tree): Heap
    requires f.item.node in h
  {
    if f.wentLeft then SetLeft(h, f.item.node, Root(t)) else SetRight(h, f.item.node, Root(t))
  }

  lemma LinkUp(h: Heap, c: seq<Frame>, t: Tree)
    requires c != [] && OpenRep(h, c) && Rep(h, t) && ZipSeparate(c, t)
    ensures var f := c[|c|-1];
            var g := Linked(h, f, t);
            StepReady(g, f, t) && CtxRep(g, c[..|c|-1], f.item.node) && CtxRep(g, c, Root(t)) &&
            ChangedOnly(h, g, {f.item.node})
  {
    var f := c[|c|-1];
    var g := Linked(h, f, t);
    var m := {f.item.node};
    Kept(h, g, m, t);
    Kept(h, g, m, f.sibling);
    KeptCtx(h, g, m, c[..|c|-1], f.item.node);
  }

  ghost function ZipItems(c: seq<Frame>, t: Tree): seq<Item> {
    Before(c) + Inorder(t) + After(c)
  }

  lemma RebuildNodes(f: Frame, t: Tree, u: Tree)
    requires Inorder(u) == Inorder(Rebuild(f, t))
    requires FrameSeparate(f) && Separate(t) && FrameNodes(f) !! Nodes(t)
    ensures Separate(u) && Nodes(u) == FrameNodes(f) + Nodes(t)
  {
    assert Separate(Rebuild(f, t)) && Nodes(Rebuild(f, t)) == FrameNodes(f) + Nodes(t);
    SameInorder(u, Rebuild(f, t));
  }

  // After a step rebuilt the frame and its subtree into u, the walk stands one level higher.
  lemma StepUp(h: Heap, g: Heap, c: seq<Frame>, t: Tree, u: Tree)
    requires c != [] && ZipSeparate(c, t) && CtxRep(h, c[..|c|-1], c[|c|-1].item.node)
    requires ChangedOnly(h, g, FrameNodes(c[|c|-1]) + Nodes(t))
    requires Inorder(u) == Inorder(Rebuild(c[|c|-1], t))
    ensures CtxRep(g, c[..|c|-1], c[|c|-1].item.node) && OpenRep(g, c[..|c|-1]) && ZipSeparate(c[..|c|-1], u)
    ensures CtxNodes(c[..|c|-1]) + Nodes(u) == CtxNodes(c) + Nodes(t)
    ensures ZipItems(c[..|c|-1], u) == ZipItems(c, t)
  {
    var f := c[|c|-1];
    PlugInorder(c, t);
    PlugInorder(c[..|c|-1], Rebuild(f, t));
    RebuildNodes(f, t, u);
    KeptCtx(h, g, FrameNodes(f) + Nodes(t), c[..|c|-1], f.item.node);
  }

  // ---------------------------------------------------------------- node accessors

  predicate RedAt(h: Heap, x: Ref) {
    x != NULL && x in h && h[x].red
  }

  function SetLeft(h: Heap, x: Ref, y: Ref): Heap
    requires x in h
  {
    h[x := h[x].(left := y)]
  }

  function SetRight(h: Heap, x: Ref, y: Ref): Heap
    requires x in h
  {
    h[x := h[x].(right := y)]
  }

  function SetRed(h: Heap, x: Ref, red: bool): Heap
    requires x in h
  {
    h[x := h[x].(red := red)]
  }

  // x's right child takes x's place.
  function RotateLeft(h: Heap, x: Ref): Heap
    requires x in h && h[x].right in h
  {
    var r := h[x].right;
    SetLeft(SetRight(h, x, h[r].left), r, x)
  }

  // x's left child takes x's place.
  function RotateRight(h: Heap, x: Ref): Heap
    requires x in h && h[x].left in h
  {
    var r := h[x].left;
    SetRight(SetLeft(h, x, h[r].right), r, x)
  }

  // ---------------------------------------------------------------- the map

  // A frame and the subtree for its hole, apart from each other, in memory and linked.
  ghost predicate StepReady(h: Heap, f: Frame, t: Tree) {
    FrameRep(h, f) && Rep(h, t) && FrameSeparate(f) && Separate(t) && FrameNodes(f) !! Nodes(t) &&
    Hole(h, f) == Root(t)
  }

  // What the double rotation of a red nephew on the LESS side leaves in memory.
  lemma RedNephewRep(h: Heap, g: Heap, f: Frame, t: Tree)
    requires f.wentLeft && Shrinkable(f) && IsRed(f.sibling.left) && StepReady(h, f, t)
    requires var x, r, n := f.item.node, f.sibling.item.node, f.sibling.left.item.node;
             && r in h && n in h && ChangedOnly(h, g, {x, r, n})
             && g[x] == h[x].(red := false, right := h[n].left)
             && g[r] == h[r].(left := h[n].right)
             && g[n] == h[n].(red := h[x].red, left := x, right := r)
    ensures Rep(g, Shrink(f, t).tree)
  {
    var s := f.sibling;
    var n := s.left;
    var m := {f.item.node, s.item.node, n.item.node};
    assert Rep(h, n) && Separate(n);
    Kept(h, g, m, t); Kept(h, g, m, n.left); Kept(h, g, m, n.right); Kept(h, g, m, s.right);
  }

  // What the triple rotation of a red sibling with a red inner nephew leaves in memory.
  lemma RedSiblingNephewRep(h: Heap, g: Heap, f: Frame, t: Tree)
    requires !f.wentLeft && Shrinkable(f) && f.sibling.red && IsRed(f.sibling.right.left) && StepReady(h, f, t)
    requires var x, l, n, p := f.item.node, f.sibling.item.node, f.sibling.right.item.node,
             f.sibling.right.left.item.node;
             && l in h && n in h && p in h && ChangedOnly(h, g, {x, l, n, p})
             && g[x] == h[x].(left := h[n].right)
             && g[l] == h[l].(right := p)
             && g[n] == h[n].(left := l, right := x)
             && g[p] == h[p].(red := false)
    ensures Rep(g, Shrink(f, t).tree)
  {
    var s := f.sibling;
    var n := s.right;
    var p := n.left;
    var m := {f.item.node, s.item.node, n.item.node, p.item.node};
    assert Rep(h, n) && Separate(n);
    assert Rep(h, p) && Separate(p);
    Kept(h, g, m, t); Kept(h, g, m, s.left); Kept(h, g, m, n.right);
    Kept(h, g, m, p.left); Kept(h, g, m, p.right);
    assert Rep(g, Blacken(p));
  }

  // What the rotation over a black sibling with a red outer child leaves in memory.
  lemma OuterNephewRep(h: Heap, g: Heap, f: Frame, t: Tree)
    requires !f.wentLeft && Shrinkable(f) && !f.sibling.red && IsRed(f.sibling.left) && StepReady(h, f, t)
    requires var x, l, p := f.item.node, f.sibling.item.node, f.sibling.left.item.node;
             && l in h && p in h && ChangedOnly(h, g, {x, l, p})
             && g[x] == h[x].(red := false, left := h[l].right)
             && g[l] == h[l].(red := h[x].red, right := x)
             && g[p] == h[p].(red := false)
    ensures Rep(g, Shrink(f, t).tree)
  {
    var s := f.sibling;
    var p := s.left;
    var m := {f.item.node, s.item.node, p.item.node};
    assert Rep(h, p) && Separate(p);
    Kept(h, g, m, t); Kept(h, g, m, s.right); Kept(h, g, m, p.left); Kept(h, g, m, p.right);
    assert Rep(g, Blacken(p));
  }

  // The invariant of the insertion repair loop: t is to go into the hole of c.
  ghost predicate Growing(h: Heap, c: seq<Frame>, t: Tree, bh: nat, wasRed: bool) {
    var ok :=
      OpenRep(h, c) && Rep(h, t) && ZipSeparate(c, t) && h.Keys == CtxNodes(c) + Nodes(t) &&
      t.Node? && Grown(t, bh, wasRed) && Accepts(c, bh, wasRed);
    ok
  }

  lemma GrowingUp(h: Heap, g: Heap, c: seq<Frame>, t: Tree, bh: nat, wasRed: bool)
    requires c != [] && IsRed(t) && ZipSeparate(c, t) && Grown(t, bh, wasRed) && Accepts(c, bh, wasRed)
    requires h.Keys == CtxNodes(c) + Nodes(t) && CtxRep(h, c[..|c|-1], c[|c|-1].item.node)
    requires ChangedOnly(h, g, FrameNodes(c[|c|-1]) + Nodes(t)) && Rep(g, Grow(c[|c|-1], t))
    ensures var f := c[|c|-1];
            Growing(g, c[..|c|-1], Grow(f, t), if f.red then bh else bh + 1, f.red) &&
            ZipItems(c[..|c|-1], Grow(f, t)) == ZipItems(c, t)
  {
    var f := c[|c|-1];
    GrowKeepsColours(c, t, bh, wasRed);
    GrowKeepsInorder(f, t);
    StepUp(h, g, c, t, Grow(f, t));
  }

  // The memory holds exactly the non-empty tree u, whose colours fit up to a red root.
  ghost predicate Whole(h: Heap, u: Tree, items: seq<Item>) {
    var ok :=
      u.Node? && Rep(h, u) && Separate(u) && h.Keys == Nodes(u) && (exists bh: nat :: RedBlack(u, bh)) &&
      Inorder(u) == items;
    ok
  }

  lemma GrowthTop(h: Heap, t: Tree, bh: nat, wasRed: bool)
    requires Growing(h, [], t, bh, wasRed)
    ensures Whole(h, t, ZipItems([], t))
  {
    assert RedBlack(t, bh);
    assert Before([]) + Inorder(t) + After([]) == Inorder(t);
  }

  lemma GrowthDone(h: Heap, c: seq<Frame>, t: Tree, bh: nat, wasRed: bool)
    requires c != [] && t.Node? && !IsRed(t) && ZipSeparate(c, t) && Grown(t, bh, wasRed) && Accepts(c, bh, wasRed)
    requires CtxRep(h, c, Root(t)) && Rep(h, t) && h.Keys == CtxNodes(c) + Nodes(t)
    ensures Whole(h, Plug(c, t), ZipItems(c, t)) && Root(Plug(c, t)) == c[0].item.node
  {
    PlugRep(h, c, t);
    PlugRedBlack(c, t, bh);
    PlugInorder(c, t);
    assert c[0].item.node in CtxNodes(c) by { FirstInCtx(c); }
  }

  lemma {:induction false} FirstInCtx(c: seq<Frame>)
    requires c != []
    ensures c[0].item.node in CtxNodes(c)
  {
    if |c| > 1 { FirstInCtx(c[..|c|-1]); }
  }

  // The representation invariant of a map: its memory holds exactly a red-black search tree.
  ghost predicate WellFormed(mem: Heap, root: Ref, size: nat, tree: Tree) {
    var ok :=
      root == Root(tree) && Rep(mem, tree) && Separate(tree) && mem.Keys == Nodes(tree) &&
      (exists bh: nat :: RedBlack(tree, bh)) && !IsRed(tree) &&
      Ascending(Inorder(tree)) && size == |Inorder(tree)|;
    ok
  }

  // A new red node for the empty hole of c starts the repair loop.
  lemma StartGrowth(h: Heap, c: seq<Frame>, bh: nat, it: Item)
    requires Zipped(h, c, Leaf, bh) && h.Keys == Nodes(Plug(c, Leaf)) && it.node != NULL && it.node !in h
    ensures Growing(h[it.node := Cell(it.key, it.data, NULL, NULL, true)], c, Node(true, it, Leaf, Leaf), 0, false)
  {
    var g := h[it.node := Cell(it.key, it.data, NULL, NULL, true)];
    PlugRep(h, c, Leaf);
    AddCtx(h, it.node, g[it.node], c, NULL);
    var t := Node(true, it, Leaf, Leaf);
    assert Nodes(Leaf) == {} && Rep(g, t) && Nodes(t) == {it.node} && Separate(t);
    assert bh == 0 && RedBlack(t, 0);
  }

  lemma {:induction false} AddTree(h: Heap, n: Ref, cell: Cell, t: Tree)
    requires Rep(h, t) && n !in h
    ensures Rep(h[n := cell], t)
  {
    match t
    case Leaf =>
    case Node(_, _, l, r) => AddTree(h, n, cell, l); AddTree(h, n, cell, r);
  }

  lemma {:induction false} AddCtx(h: Heap, n: Ref, cell: Cell, c: seq<Frame>, hole: Ref)
    requires CtxRep(h, c, hole) && n !in h
    ensures CtxRep(h[n := cell], c, hole)
    decreases |c|
  {
    if c != [] {
      AddTree(h, n, cell, c[|c|-1].sibling);
      AddCtx(h, n, cell, c[..|c|-1], c[|c|-1].item.node);
    }
  }

  lemma BlackenRoot(h: Heap, u: Tree)
    requires u.Node? && Rep(h, u) && Separate(u) && exists bh: nat :: RedBlack(u, bh)
    ensures var v := Blacken(u);
            Rep(SetRed(h, Root(u), false), v) && Separate(v) && Nodes(v) == Nodes(u) && Root(v) == Root(u) &&
            Inorder(v) == Inorder(u) && exists bh: nat :: RedBlack(v, bh)
  {
    var g, m := SetRed(h, Root(u), false), {Root(u)};
    Kept(h, g, m, u.left);
    Kept(h, g, m, u.right);
    var bh: nat :| RedBlack(u, bh);
    assert RedBlack(Blacken(u), if u.red then bh + 1 else bh);
  }

  // For fewer than 2^64 - 1 nodes no walk is 127 levels deep, so the depth check never fires.
  lemma NeverTooDeep(c: seq<Frame>, t: Tree)
    requires !IsRed(Plug(c, t)) && (exists bh: nat :: RedBlack(Plug(c, t), bh))
    requires |Inorder(Plug(c, t))| + 1 < Pow2(64)
    ensures |c| < RB_MAX_DEPTH - 1
  {
    PlugHeight(c, t);
    ShallowTree(Plug(c, t));
  }

  lemma ShallowTree(t: Tree)
    requires !IsRed(t) && (exists bh: nat :: RedBlack(t, bh)) && |Inorder(t)| + 1 < Pow2(64)
    ensures Height(t) < RB_MAX_DEPTH - 1
  {
    var bh: nat :| RedBlack(t, bh);
    DepthBound(t, bh);
    if Height(t) >= RB_MAX_DEPTH - 1 {
      Pow2Mono(64, (Height(t) + 1) / 2);
    }
  }

  lemma InsertedItems(c: seq<Frame>, it: Item)
    requires AllBelow(Before(c), it.key) && AllAbove(After(c), it.key) && Ascending(Inorder(Plug(c, Leaf)))
    ensures var s := ZipItems(c, Node(true, it, Leaf, Leaf));
            Ascending(s) && ToMap(s) == ToMap(Inorder(Plug(c, Leaf)))[it.key := it.data] &&
            |s| == |Inorder(Plug(c, Leaf))| + 1
  {
    HoleItems(c, it);
    AscendingJoin(Before(c), it, After(c));
    ToMapInsert(Before(c), it, After(c));
  }

  // The items around an empty hole, and with one node in it.
  lemma HoleItems(c: seq<Frame>, it: Item)
    ensures Inorder(Plug(c, Leaf)) == Before(c) + After(c)
    ensures ZipItems(c, Node(true, it, Leaf, Leaf)) == Before(c) + [it] + After(c)
  {
    PlugInorder(c, Leaf);
    assert Inorder(Node(true, it, Leaf, Leaf)) == [it];
  }

  lemma Attached(h: Heap, c: seq<Frame>, it: Item, u: Tree)
    requires AllBelow(Before(c), it.key) && AllAbove(After(c), it.key) && Ascending(Inorder(Plug(c, Leaf)))
    requires Whole(h, u, ZipItems(c, Node(true, it, Leaf, Leaf)))
    ensures var s := Inorder(Plug(c, Leaf));
            WellFormed(SetRed(h, Root(u), false), Root(u), |s| + 1, Blacken(u)) &&
            ToMap(Inorder(Blacken(u))) == ToMap(s)[it.key := it.data] &&
            ItemSet(Inorder(Blacken(u))) == ItemSet(s) + {it}
  {
    InsertedItems(c, it);
    BlackenRoot(h, u);
    HoleItems(c, it);
    ItemSetJoin(Before(c), it, After(c));
  }

  // Which node holds which key and value.
  ghost function ItemSet(s: seq<Item>): set<Item> {
    set x | x in s
  }

  lemma ItemSetJoin(a: seq<Item>, x: Item, b: seq<Item>)
    ensures ItemSet(a + [x] + b) == ItemSet(a + b) + {x}
  {
  }

  // A walk that ends at an empty hole has shown the key absent; one that ends at its node, present.
  lemma WalkDecides(key: int, c: seq<Frame>, t: Tree)
    requires AllBelow(Before(c), key) && AllAbove(After(c), key)
    requires t.Leaf? || t.item.key == key
    requires Ascending(Inorder(Plug(c, t)))
    ensures key in ToMap(Inorder(Plug(c, t))) <==> t.Node?
  {
    PlugInorder(c, t);
    ToMapDomain(Inorder(Plug(c, t)));
    if t.Node? {
      assert t.item in Inorder(t);
      assert t.item in Inorder(Plug(c, t));
    }
  }

  // ---------------------------------------------------------------- removal

  // The invariant of the rb_remove unwinding loop: t, one black level too short, goes into the
  // hole of c; dead is the unlinked node that will be freed.
  ghost predicate Shrinking(h: Heap, dead: Ref, c: seq<Frame>, t: Tree, bh: nat) {
    var ok :=
      OpenRep(h, c) && Rep(h, t) && ZipSeparate(c, t) && dead !in CtxNodes(c) + Nodes(t) &&
      h.Keys == CtxNodes(c) + Nodes(t) + {dead} && Short(c, t, bh);
    ok
  }

  // Balance is back below c: u goes into the hole of c, whose link may still be the old one.
  ghost predicate Settled(h: Heap, dead: Ref, c: seq<Frame>, u: Tree, hole: Ref) {
    var ok :=
      CtxRep(h, c, hole) && Rep(h, u) && ZipSeparate(c, u) && dead !in CtxNodes(c) + Nodes(u) &&
      h.Keys == CtxNodes(c) + Nodes(u) + {dead} && (exists bh: nat :: RedBlack(u, bh) && Accepts(c, bh, IsRed(u)));
    ok
  }

  lemma ShrinkingUp(h: Heap, g: Heap, dead: Ref, c: seq<Frame>, t: Tree, bh: nat)
    requires c != [] && ZipSeparate(c, t) && dead !in CtxNodes(c) + Nodes(t) && Short(c, t, bh)
    requires h.Keys == CtxNodes(c) + Nodes(t) + {dead} && CtxRep(h, c[..|c|-1], c[|c|-1].item.node)
    requires ChangedOnly(h, g, FrameNodes(c[|c|-1]) + Nodes(t)) && Shrinkable(c[|c|-1])
    requires Rep(g, Shrink(c[|c|-1], t).tree)
    ensures var f := c[|c|-1];
            var up, r := c[..|c|-1], Shrink(f, t);
            ZipItems(up, r.tree) == ZipItems(c, t) &&
            (if r.done then Settled(g, dead, up, r.tree, f.item.node)
             else r.tree.Node? && Shrinking(g, dead, up, r.tree, bh + 1))
  {
    var f := c[|c|-1];
    var up, r := c[..|c|-1], Shrink(f, t);
    ShrinkKeepsColours(c, t, bh);
    ShrinkKeepsInorder(f, t);
    StepUp(h, g, c, t, r.tree);
    assert dead !in CtxNodes(up) + Nodes(r.tree);
    var bh' := if f.red then bh + 1 else bh + 2;
    assert r.done ==> RedBlack(r.tree, bh') && Accepts(up, bh', IsRed(r.tree));
  }

  lemma SettledLink(h: Heap, dead: Ref, c: seq<Frame>, u: Tree, hole: Ref)
    requires c != [] && Settled(h, dead, c, u, hole)
    ensures Settled(Linked(h, c[|c|-1], u), dead, c, u, Root(u))
  {
    LinkUp(h, c, u);
  }

  lemma SettledPlug(h: Heap, dead: Ref, c: seq<Frame>, u: Tree)
    requires Settled(h, dead, c, u, Root(u))
    ensures var v := Plug(c, u);
            Rep(h, v) && Separate(v) && h.Keys == Nodes(v) + {dead} && dead !in Nodes(v) &&
            (exists bh: nat :: RedBlack(v, bh)) && !IsRed(v) && Inorder(v) == ZipItems(c, u)
    ensures Root(Plug(c, u)) == if c == [] then Root(u) else c[0].item.node
  {
    PlugRep(h, c, u);
    PlugInorder(c, u);
    var bh: nat :| RedBlack(u, bh) && Accepts(c, bh, IsRed(u));
    PlugRedBlack(c, u, bh);
  }

  // ---------------------------------------------------------------- swapping with the successor

  ghost predicate AllLeft(c: seq<Frame>, k: nat) {
    forall j :: k < j < |c| ==> c[j].wentLeft
  }

  // Frame k with the successor's entry in place of its own.
  ghost function Swapped(c: seq<Frame>, k: nat, it: Item): seq<Frame>
    requires k < |c|
  {
    c[k := c[k].(item := it)]
  }

  // The memory after node x of frame k handed its colour, its children and its parent's link to s.
  ghost predicate SwappedHeap(h: Heap, g: Heap, c: seq<Frame>, k: nat, s: Item) {
    k < |c| && c[k].item.node in h && s.node in h && s.node != NULL &&
    var x := c[k].item.node;
    (k == 0 || c[k-1].item.node in h) &&
    var m := {x, s.node} + if k == 0 then {} else {c[k-1].item.node};
    ChangedOnly(h, g, m) &&
    g[s.node] == Cell(s.key, s.data, h[x].left, h[x].right, h[x].red) &&
    (k > 0 ==> var p := c[k-1].item.node;
               g[p] == if c[k-1].wentLeft then h[p].(left := s.node) else h[p].(right := s.node))
  }

  lemma {:induction false} PrefixNodes(c: seq<Frame>, k: nat)
    requires k < |c| && CtxSeparate(c)
    ensures CtxNodes(c[..k]) + FrameNodes(c[k]) <= CtxNodes(c)
    ensures CtxNodes(c[..k]) !! FrameNodes(c[k]) && CtxSeparate(c[..k]) && FrameSeparate(c[k])
    ensures CtxNodes(c[..k+1]) == CtxNodes(c[..k]) + FrameNodes(c[k])
    decreases |c|
  {
    assert c[..k+1][..k] == c[..k];
    if k < |c| - 1 {
      var init := c[..|c|-1];
      PrefixNodes(init, k);
      assert init[..k] == c[..k] && init[..k+1] == c[..k+1];
    } else {
      assert c[..k+1] == c;
    }
  }

  // The nodes that change when s takes the place of the node at k.
  ghost function Touched(c: seq<Frame>, k: nat, s: Item): set<Ref>
    requires k < |c|
  {
    {c[k].item.node, s.node} + if k == 0 then {} else {c[k-1].item.node}
  }

  lemma SwapAbove(h: Heap, g: Heap, c: seq<Frame>, k: nat, s: Item, hole: Ref)
    requires |c| == k + 1 && SwappedHeap(h, g, c, k, s) && !c[k].wentLeft
    requires CtxRep(h, c, hole) && CtxSeparate(c) && s.node !in CtxNodes(c)
    ensures CtxRep(g, c[..k], s.node)
  {
    var up := c[..k];
    assert c[..|c|-1] == up;
    if k > 0 {
      PrefixNodes(c, k - 1);
      var p, m := up[k-1], Touched(c, k, s);
      assert p == c[k-1] && up[..k-1] == c[..k-1];
      assert FrameNodes(p) <= CtxNodes(up);
      Kept(h, g, m, p.sibling);
      KeptCtx(h, g, m, up[..k-1], p.item.node);
    }
  }

  lemma SwapBase(h: Heap, g: Heap, c: seq<Frame>, k: nat, s: Item, hole: Ref)
    requires |c| == k + 1 && SwappedHeap(h, g, c, k, s) && !c[k].wentLeft
    requires CtxRep(h, c, hole) && CtxSeparate(c) && s.node !in CtxNodes(c)
    ensures FrameRep(g, Swapped(c, k, s)[k]) && Hole(g, Swapped(c, k, s)[k]) == hole && CtxRep(g, c[..k], s.node)
  {
    assert c[..|c|-1] == c[..k];
    if k > 0 { PrefixNodes(c, k - 1); }
    SwapAbove(h, g, c, k, s, hole);
    Kept(h, g, Touched(c, k, s), c[k].sibling);
  }

  lemma {:induction false} SwapCtx(h: Heap, g: Heap, c: seq<Frame>, k: nat, s: Item, hole: Ref)
    requires SwappedHeap(h, g, c, k, s) && !c[k].wentLeft
    requires CtxRep(h, c, hole) && CtxSeparate(c) && s.node !in CtxNodes(c)
    ensures CtxRep(g, Swapped(c, k, s), hole)
    decreases |c|
  {
    var d := Swapped(c, k, s);
    if |c| == k + 1 {
      SwapBase(h, g, c, k, s, hole);
      assert d[..|d|-1] == c[..k];
    } else {
      var init, f := c[..|c|-1], c[|c|-1];
      SwapCtx(h, g, init, k, s, f.item.node);
      assert d[..|d|-1] == Swapped(init, k, s) && d[|d|-1] == f;
      SwapBelow(h, g, c, k, s, hole);
    }
  }

  // The frames below the node that is replaced stay as they are.
  lemma SwapBelow(h: Heap, g: Heap, c: seq<Frame>, k: nat, s: Item, hole: Ref)
    requires k + 1 < |c| && SwappedHeap(h, g, c, k, s) && !c[k].wentLeft
    requires CtxRep(h, c, hole) && CtxSeparate(c) && s.node !in CtxNodes(c)
    ensures FrameRep(g, c[|c|-1]) && Hole(g, c[|c|-1]) == hole
  {
    var init := c[..|c|-1];
    PrefixNodes(init, k);
    if k > 0 { PrefixNodes(init, k - 1); }
    Kept(h, g, Touched(c, k, s), c[|c|-1].sibling);
  }

  lemma MoveOne(a: set<Ref>, b: set<Ref>, x: Ref, y: Ref)
    requires a !! b && x in a && y !in a + b
    ensures (a - {x} + {y}) + b == (a + b) - {x} + {y} && (a - {x} + {y}) !! b
  {
  }

  lemma {:induction false} SwapNodes(c: seq<Frame>, k: nat, s: Item)
    requires k < |c| && CtxSeparate(c) && s.node !in CtxNodes(c)
    ensures CtxSeparate(Swapped(c, k, s))
    ensures CtxNodes(Swapped(c, k, s)) == CtxNodes(c) - {c[k].item.node} + {s.node}
    decreases |c|
  {
    var d := Swapped(c, k, s);
    if |c| == k + 1 {
      assert d[..|d|-1] == c[..|c|-1];
    } else {
      var init := c[..|c|-1];
      SwapNodes(init, k, s);
      PrefixNodes(init, k);
      assert d[..|d|-1] == Swapped(init, k, s);
      MoveOne(CtxNodes(init), FrameNodes(c[|c|-1]), c[k].item.node, s.node);
    }
  }

  lemma {:induction false} SwapAccepts(c: seq<Frame>, k: nat, s: Item, bh: nat, red: bool)
    requires k < |c| && Accepts(c, bh, red)
    ensures Accepts(Swapped(c, k, s), bh, red)
    decreases |c|
  {
    var d, f := Swapped(c, k, s), c[|c|-1];
    if |c| == k + 1 {
      assert d[..|d|-1] == c[..|c|-1];
    } else {
      SwapAccepts(c[..|c|-1], k, s, if f.red then bh else bh + 1, f.red);
      assert d[..|d|-1] == Swapped(c[..|c|-1], k, s);
    }
  }

  // Left turns after frame k add nothing before the hole.
  lemma {:induction false} SwapItems(c: seq<Frame>, k: nat, s: Item)
    requires k < |c| && !c[k].wentLeft && AllLeft(c, k)
    ensures Before(c) == Before(c[..k]) + (Inorder(c[k].sibling) + [c[k].item])
    ensures Before(Swapped(c, k, s)) == Before(c[..k]) + (Inorder(c[k].sibling) + [s])
    ensures After(Swapped(c, k, s)) == After(c)
    decreases |c|
  {
    var d := Swapped(c, k, s);
    if |c| == k + 1 {
      assert d[..|d|-1] == c[..|c|-1] == c[..k];
    } else {
      var init := c[..|c|-1];
      SwapItems(init, k, s);
      assert d[..|d|-1] == Swapped(init, k, s) && init[..k] == c[..k];
    }
  }

  // The unlinked node dead was a leaf of colour red below c; its place is now the empty hole.
  ghost predicate Pruned(h: Heap, dead: Ref, c: seq<Frame>) {
    var ok :=
      c != [] && OpenRep(h, c) && CtxSeparate(c) && dead !in CtxNodes(c) && h.Keys == CtxNodes(c) + {dead} &&
      (if h[dead].red then Accepts(c, 0, true) else Accepts(c, 1, false));
    ok
  }

  // A node without a right child is a leaf, or a black node with one red leaf on its left.
  lemma NoRightChild(t: Tree, bh: nat)
    requires t.Node? && t.right.Leaf? && RedBlack(t, bh)
    ensures t.left.Node? ==> !t.red && bh == 1 && t.left.red && t.left.left.Leaf? && t.left.right.Leaf?
    ensures t.left.Leaf? ==> bh == if t.red then 0 else 1
  {
    if t.left.Node? {
      assert RedBlack(t.left, 0);
      assert RedBlack(t.left.left, 0) && RedBlack(t.left.right, 0);
    }
  }

  // A node without a left child has no right child either.
  lemma NoLeftChild(t: Tree, bh: nat)
    requires t.Node? && t.left.Leaf? && RedBlack(t, bh)
    ensures t.right.Leaf? && bh == if t.red then 0 else 1
  {
    assert RedBlack(t.right, if t.red then bh else bh - 1);
  }

  lemma PrunedLeaf(h: Heap, c: seq<Frame>, t: Tree, bh: nat)
    requires c != [] && Zipped(h, c, t, bh) && t.Node? && t.left.Leaf? && t.right.Leaf?
    requires h.Keys == Nodes(Plug(c, t))
    ensures Pruned(h, t.item.node, c) && ZipSeparate(c, Leaf)
  {
    PlugRep(h, c, t);
    NoLeftChild(t, bh);
    assert Nodes(Leaf) == {} && Nodes(t) == {t.item.node};
  }

  // The successor s, a leaf at the end of c, has taken over frame k; the node removed is the leaf now.
  lemma PrunedSwap(h: Heap, g: Heap, c: seq<Frame>, k: nat, t: Tree, bh: nat)
    requires k < |c| && !c[k].wentLeft && Zipped(h, c, t, bh) && t.Node? && t.left.Leaf?
    requires h.Keys == Nodes(Plug(c, t)) && SwappedHeap(h, g, c, k, t.item)
    requires g[c[k].item.node].red == t.red
    ensures Pruned(g, c[k].item.node, Swapped(c, k, t.item))
  {
    PlugRep(h, c, t);
    NoLeftChild(t, bh);
    PrefixNodes(c, k);
    assert Nodes(Leaf) == {} && Nodes(t) == {t.item.node};
    SwapCtx(h, g, c, k, t.item, Root(t));
    SwapNodes(c, k, t.item);
    SwapAccepts(c, k, t.item, bh, t.red);
  }

  // Freeing the unlinked node leaves the tree alone.
  lemma {:induction false} Freed(h: Heap, dead: Ref, t: Tree)
    requires Rep(h, t) && dead !in Nodes(t)
    ensures Rep(h - {dead}, t)
  {
    match t
    case Leaf =>
    case Node(_, it, l, r) =>
      assert it.node in Nodes(t);
      Freed(h, dead, l);
      Freed(h, dead, r);
  }

  class OrderedMap {
    var mem: Heap
    var root: Ref
    var size: nat
    ghost var tree: Tree

    ghost predicate Valid()
      reads this
    {
      WellFormed(mem, root, size, tree)
    }

    // Which node holds which key and value.
    ghost function Items(): set<Item>
      reads this
    {
      ItemSet(Inorder(tree))
    }

    ghost function Contents(): map<int, int>
      reads this
    {
      ToMap(Inorder(tree))
    }

    constructor ()
      ensures Valid() && Contents() == map[] && size == 0 && mem == map[]
    {
      mem, root, size, tree := map[], NULL, 0, Leaf;
      assert RedBlack(Leaf, 0);
    }

    // -------------------------------------------------------------- lookup of an insertion point

    // rb_insert_unique: the path to key's node, or to the place where it belongs.
    method FindPath(key: int) returns (path: seq<PathEntry>, ghost c: seq<Frame>, ghost t: Tree, ghost bh: nat)
      requires Valid()
      ensures Walking(mem, tree, key, c, t, bh) && OnPath(path, c) && |path| == |c| + 1 <= RB_MAX_DEPTH
      ensures path[|c|].node == Root(t)
      ensures |c| < RB_MAX_DEPTH - 1 ==> t.Leaf? || t.item.key == key
    {
      bh :| RedBlack(tree, bh);
      c, t := [], tree;
      path := [PathEntry(root, EQUAL)];
      var i := 0;
      while path[i].node != NULL && i < RB_MAX_DEPTH - 1
        invariant i == |c| < |path| == i + 1 <= RB_MAX_DEPTH
        invariant Walking(mem, tree, key, c, t, bh) && OnPath(path, c) && path[i].node == Root(t)
        decreases RB_MAX_DEPTH - i
      {
        var cmp := Compare(key, mem[path[i].node].key);
        var here := path[i].node;
        if cmp == EQUAL {
          return;
        }
        WalkStep(mem, tree, key, c, t, bh);
        var next := if cmp == LESS then mem[here].left else mem[here].right;
        PathExtended(path, c, Down(t, cmp == LESS), PathEntry(next, EQUAL));
        path := path[..i] + [PathEntry(here, cmp), PathEntry(next, EQUAL)];
        c, bh := c + [Down(t, cmp == LESS)], if t.red then bh else bh - 1;
        t := Child(t, cmp == LESS);
        i := i + 1;
      }
    }

    // -------------------------------------------------------------- insertion steps

    // Body of the insertion loop after a LESS step whose child came back red.
    method FixGrownLeft(cnode: Ref, left: Ref, ghost f: Frame, ghost t: Tree) returns (top: Ref)
      requires f.wentLeft && IsRed(t) && StepReady(mem, f, t)
      requires cnode == f.item.node && left == t.item.node
      modifies this`mem
      ensures Rep(mem, Grow(f, t)) && top == Root(Grow(f, t))
      ensures ChangedOnly(old(mem), mem, FrameNodes(f) + Nodes(t))
    {
      ghost var h := mem;
      top := cnode;
      ghost var ll := t.left;
      assert Rep(h, ll) && Rep(h, t.right) && Separate(ll);
      var leftleft := mem[left].left;
      if RedAt(mem, leftleft) {
        mem := SetRed(mem, leftleft, false);
        top := mem[cnode].left;
        mem := RotateRight(mem, cnode);
        ghost var m := {cnode, left, leftleft};
        Kept(h, mem, m, ll.left); Kept(h, mem, m, ll.right); Kept(h, mem, m, t.right); Kept(h, mem, m, f.sibling);
        assert Rep(mem, Blacken(ll));
      }
    }

    // Body of the insertion loop after a GREATER step whose child came back red.
    method FixGrownRight(cnode: Ref, right: Ref, ghost f: Frame, ghost t: Tree) returns (top: Ref)
      requires !f.wentLeft && IsRed(t) && StepReady(mem, f, t)
      requires cnode == f.item.node && right == t.item.node
      modifies this`mem
      ensures Rep(mem, Grow(f, t)) && top == Root(Grow(f, t))
      ensures ChangedOnly(old(mem), mem, FrameNodes(f) + Nodes(t))
    {
      ghost var h, l := mem, f.sibling;
      top := cnode;
      var left := mem[cnode].left;
      if RedAt(mem, left) {
        mem := SetRed(mem, left, false);
        mem := SetRed(mem, right, false);
        mem := SetRed(mem, cnode, true);
        ghost var m := {cnode, left, right};
        Kept(h, mem, m, l.left); Kept(h, mem, m, l.right); Kept(h, mem, m, t.left); Kept(h, mem, m, t.right);
      } else {
        var tcolor := mem[cnode].red;
        top := mem[cnode].right;
        mem := RotateLeft(mem, cnode);
        mem := SetRed(mem, top, tcolor);
        mem := SetRed(mem, cnode, true);
        ghost var m := {cnode, right};
        Kept(h, mem, m, l); Kept(h, mem, m, t.left); Kept(h, mem, m, t.right);
      }
    }

    // -------------------------------------------------------------- insertion

    // One turn of the repair loop of map_insert: link the child, then stop or repair one level.
    method GrowStep(cnode: Ref, child: Ref, less: bool, ghost c: seq<Frame>, ghost t: Tree, ghost bh: nat,
                    ghost wasRed: bool)
      returns (top: Ref, done: bool, ghost c': seq<Frame>, ghost t': Tree, ghost bh': nat, ghost wasRed': bool)
      requires c != [] && Growing(mem, c, t, bh, wasRed)
      requires cnode == c[|c|-1].item.node && less == c[|c|-1].wentLeft && child == Root(t)
      modifies this`mem
      ensures mem.Keys == old(mem.Keys) && c' == c[..|c|-1]
      ensures done ==> Whole(mem, Plug(c, t), ZipItems(c, t)) && Root(Plug(c, t)) == c[0].item.node
      ensures !done ==> Growing(mem, c', t', bh', wasRed') && top == Root(t') && ZipItems(c', t') == ZipItems(c, t)
    {
      ghost var f := c[|c|-1];
      c', t', bh', wasRed' := c[..|c|-1], t, if f.red then bh else bh + 1, f.red;
      LinkUp(mem, c, t);
      if less {
        mem := SetLeft(mem, cnode, child);
      } else {
        mem := SetRight(mem, cnode, child);
      }
      done, top := !mem[child].red, cnode;
      if !done {
        ghost var h := mem;
        if less {
          top := FixGrownLeft(cnode, child, f, t);
        } else {
          top := FixGrownRight(cnode, child, f, t);
        }
        GrowingUp(h, mem, c, t, bh, wasRed);
        t' := Grow(f, t);
      } else {
        GrowthDone(mem, c, t, bh, wasRed);
      }
    }

    // The repair loop of map_insert. It returns the tree that is then in memory, before its root
    // is blackened, and the path array whose first entry names that root.
    method RepairGrowth(path0: seq<PathEntry>, ghost c0: seq<Frame>, ghost t0: Tree)
      returns (path: seq<PathEntry>, ghost u: Tree)
      requires Growing(mem, c0, t0, 0, false)
      requires OnPath(path0, c0) && |path0| == |c0| + 1 && path0[|c0|].node == Root(t0)
      modifies this`mem
      ensures Whole(mem, u, ZipItems(c0, t0)) && mem.Keys == old(mem.Keys)
      ensures |path| > 0 && path[0].node == Root(u)
    {
      ghost var c, t, bh, wasRed := c0, t0, 0, false;
      path := path0;
      var i := |path| - 1;
      while i > 0
        invariant i == |c| < |path|
        invariant Growing(mem, c, t, bh, wasRed) && mem.Keys == old(mem.Keys)
        invariant OnPath(path, c) && path[i].node == Root(t)
        invariant ZipItems(c, t) == ZipItems(c0, t0)
      {
        i := i - 1;
        var top, done;
        ghost var c', t', bh', wasRed';
        top, done, c', t', bh', wasRed' :=
          GrowStep(path[i].node, path[i + 1].node, path[i].cmp == LESS, c, t, bh, wasRed);
        if done {
          u := Plug(c, t);
          return;
        }
        c, t, bh, wasRed := c', t', bh', wasRed';
        path := path[i := path[i].(node := top)];
      }
      u := t;
      GrowthTop(mem, t, bh, wasRed);
    }

    // A new red node goes into the empty hole at the end of the path, and the path is repaired.
    method Hang(path0: seq<PathEntry>, key: int, data: int, addr: Ref, ghost c: seq<Frame>, ghost bh: nat)
      returns (top: Ref, ghost u: Tree)
      requires addr != NULL && addr !in mem && Zipped(mem, c, Leaf, bh) && mem.Keys == Nodes(Plug(c, Leaf))
      requires OnPath(path0, c) && |path0| == |c| + 1
      modifies this`mem
      ensures Whole(mem, u, ZipItems(c, Node(true, Item(addr, key, data), Leaf, Leaf))) && top == Root(u)
      ensures mem.Keys == old(mem.Keys) + {addr}
    {
      ghost var it := Item(addr, key, data);
      StartGrowth(mem, c, bh, it);
      mem := mem[addr := Cell(key, data, NULL, NULL, true)];
      var path := path0[|path0| - 1 := PathEntry(addr, EQUAL)];
      path, u := RepairGrowth(path, c, Node(true, it, Leaf, Leaf));
      top := path[0].node;
    }

    // The second half of map_insert: hang the new node into the empty hole at the end of the path.
    method Attach(path0: seq<PathEntry>, key: int, data: int, addr: Ref, ghost c: seq<Frame>, ghost bh: nat)
      requires Valid() && addr != NULL && addr !in mem && Walking(mem, tree, key, c, Leaf, bh)
      requires OnPath(path0, c) && |path0| == |c| + 1
      modifies this
      ensures Valid() && Contents() == old(Contents())[key := data] && Items() == old(Items()) + {Item(addr, key, data)}
      ensures size == old(size) + 1 && mem.Keys == old(mem.Keys) + {addr}
    {
      var top;
      ghost var u;
      top, u := Hang(path0, key, data, addr, c, bh);
      Attached(mem, c, Item(addr, key, data), u);
      root := top;
      mem := SetRed(mem, root, false);
      size := size + 1;
      tree := Blacken(u);
    }

    // map_insert. addr is the address malloc returned for the new node, NULL if it failed.
    method Insert(key: int, data: int, addr: Ref) returns (ok: bool)
      requires Valid() && (addr == NULL || addr !in mem)
      modifies this
      ensures Valid()
      ensures ok ==> key !in old(Contents()) && Contents() == old(Contents())[key := data]
      ensures ok ==> size == old(size) + 1 && mem.Keys == old(mem.Keys) + {addr}
      ensures ok ==> Items() == old(Items()) + {Item(addr, key, data)}
      ensures !ok ==> mem == old(mem) && root == old(root) && size == old(size) && tree == old(tree)
      ensures old(size) + 1 < Pow2(64) ==> (ok <==> key !in old(Contents()) && addr != NULL)
    {
      var path;
      ghost var c, t, bh;
      path, c, t, bh := FindPath(key);
      if |path| - 1 >= RB_MAX_DEPTH - 1 {
        if size + 1 < Pow2(64) { NeverTooDeep(c, t); }
        return false;
      }
      WalkDecides(key, c, t);
      if path[|path| - 1].node != NULL || addr == NULL {
        return false;
      }
      Attach(path, key, data, addr, c, bh);
      ok := true;
    }

    // -------------------------------------------------------------- deletion steps

    // One step of the rb_remove unwinding loop on the LESS side.
    method FixShrunkLeft(x: Ref, ghost f: Frame, ghost t: Tree) returns (top: Ref, done: bool)
      requires f.wentLeft && Shrinkable(f) && StepReady(mem, f, t) && x == f.item.node
      modifies this`mem
      ensures Rep(mem, Shrink(f, t).tree) && top == Root(Shrink(f, t).tree) && done == Shrink(f, t).done
      ensures ChangedOnly(old(mem), mem, FrameNodes(f) + Nodes(t))
    {
      ghost var h, s := mem, f.sibling;
      assert Rep(h, s.left) && Rep(h, s.right);
      var right := mem[x].right;
      var rightleft := mem[right].left;
      if RedAt(mem, rightleft) {
        top := FixRedNephew(x, right, rightleft, f, t);
        done := true;
      } else {
        done := mem[x].red;
        if !mem[x].red {
          mem := SetRed(mem, x, true);
        }
        top := mem[x].right;
        mem := RotateLeft(mem, x);
        ghost var m := {x, right};
        Kept(h, mem, m, t); Kept(h, mem, m, s.left); Kept(h, mem, m, s.right);
      }
    }

    // The two LESS cases whose sibling has a red left child.
    method FixRedNephew(x: Ref, right: Ref, rightleft: Ref, ghost f: Frame, ghost t: Tree) returns (top: Ref)
      requires f.wentLeft && Shrinkable(f) && IsRed(f.sibling.left) && StepReady(mem, f, t) && x == f.item.node
      requires right == f.sibling.item.node && rightleft == f.sibling.left.item.node
      modifies this`mem
      ensures Rep(mem, Shrink(f, t).tree) && top == Root(Shrink(f, t).tree)
      ensures ChangedOnly(old(mem), mem, FrameNodes(f) + Nodes(t))
    {
      ghost var h := mem;
      assert Rep(h, f.sibling.left);
      if mem[x].red {
        mem := SetRed(mem, x, false);
      } else {
        mem := SetRed(mem, rightleft, false);
      }
      top := mem[right].left;
      mem := RotateRight(mem, right);
      mem := SetRight(mem, x, top);
      mem := RotateLeft(mem, x);
      RedNephewRep(h, mem, f, t);
    }

    // One step of the rb_remove unwinding loop on the GREATER side.
    method FixShrunkRight(x: Ref, ghost f: Frame, ghost t: Tree) returns (top: Ref, done: bool)
      requires !f.wentLeft && Shrinkable(f) && StepReady(mem, f, t) && x == f.item.node
      requires f.sibling.red ==> !f.red
      modifies this`mem
      ensures Rep(mem, Shrink(f, t).tree) && top == Root(Shrink(f, t).tree) && done == Shrink(f, t).done
      ensures ChangedOnly(old(mem), mem, FrameNodes(f) + Nodes(t))
    {
      ghost var h, s := mem, f.sibling;
      var left := mem[x].left;
      assert Rep(h, s.left) && Rep(h, s.right);
      done := true;
      if RedAt(mem, left) {
        top := FixRedSibling(x, left, f, t);
      } else {
        var leftleft := mem[left].left;
        if RedAt(mem, leftleft) {
          assert Rep(h, s.left);
          if mem[x].red {
            mem := SetRed(mem, x, false);
            mem := SetRed(mem, left, true);
          }
          mem := SetRed(mem, leftleft, false);
          top := mem[x].left;
          mem := RotateRight(mem, x);
          OuterNephewRep(h, mem, f, t);
        } else {
          mem := SetRed(mem, left, true);
          done := mem[x].red;
          mem := SetRed(mem, x, false);
          top := x;
          ghost var m := {x, left};
          Kept(h, mem, m, t); Kept(h, mem, m, s.left); Kept(h, mem, m, s.right);
        }
      }
    }

    // The two GREATER cases whose sibling is red.
    method FixRedSibling(x: Ref, left: Ref, ghost f: Frame, ghost t: Tree) returns (top: Ref)
      requires !f.wentLeft && Shrinkable(f) && f.sibling.red && !f.red && StepReady(mem, f, t)
      requires x == f.item.node && left == f.sibling.item.node
      modifies this`mem
      ensures Rep(mem, Shrink(f, t).tree) && top == Root(Shrink(f, t).tree)
      ensures ChangedOnly(old(mem), mem, FrameNodes(f) + Nodes(t))
    {
      ghost var h := mem;
      assert Rep(h, f.sibling.right) && Rep(h, f.sibling.right.left);
      var leftright := mem[left].right;
      var leftrightleft := mem[leftright].left;
      if RedAt(mem, leftrightleft) {
        top := FixRedSiblingNephew(x, left, leftright, leftrightleft, f, t);
      } else {
        mem := SetRed(mem, leftright, true);
        top := left;
        mem := RotateRight(mem, x);
        mem := SetRed(mem, top, false);
        RedSiblingRep(h, mem, f, t);
      }
    }

    method FixRedSiblingNephew(x: Ref, left: Ref, leftright: Ref, leftrightleft: Ref, ghost f: Frame, ghost t: Tree)
      returns (top: Ref)
      requires !f.wentLeft && Shrinkable(f) && f.sibling.red && !f.red && StepReady(mem, f, t)
      requires x == f.item.node && left == f.sibling.item.node && leftright == f.sibling.right.item.node
      requires IsRed(f.sibling.right.left) && leftrightleft == f.sibling.right.left.item.node
      modifies this`mem
      ensures Rep(mem, Shrink(f, t).tree) && top == Root(Shrink(f, t).tree)
      ensures ChangedOnly(old(mem), mem, FrameNodes(f) + Nodes(t))
    {
      ghost var h := mem;
      assert Rep(h, f.sibling.right) && Rep(h, f.sibling.right.left) && Separate(f.sibling.right);
      mem := SetRed(mem, leftrightleft, false);
      var unode := mem[x].left;
      mem := RotateRight(mem, x);
      var tnode := mem[x].left;
      mem := RotateRight(mem, x);
      mem := SetRight(mem, unode, tnode);
      top := mem[unode].right;
      mem := RotateLeft(mem, unode);
      RedSiblingNephewRep(h, mem, f, t);
    }

    // -------------------------------------------------------------- removal

    // One turn of the unwinding loop of rb_remove.
    method ShrinkStep(x: Ref, child: Ref, less: bool, ghost dead: Ref, ghost c: seq<Frame>, ghost t: Tree,
                      ghost bh: nat)
      returns (top: Ref, done: bool, ghost c': seq<Frame>, ghost u: Tree)
      requires c != [] && Shrinking(mem, dead, c, t, bh)
      requires x == c[|c|-1].item.node && less == c[|c|-1].wentLeft && child == Root(t)
      modifies this`mem
      ensures c' == c[..|c|-1] && ZipItems(c', u) == ZipItems(c, t) && top == Root(u)
      ensures if done then Settled(mem, dead, c', u, x) else u.Node? && Shrinking(mem, dead, c', u, bh + 1)
    {
      ghost var f := c[|c|-1];
      LinkUp(mem, c, t);
      ShortIsShrinkable(c, t, bh);
      if less {
        mem := SetLeft(mem, x, child);
      } else {
        mem := SetRight(mem, x, child);
      }
      ghost var h := mem;
      if less {
        top, done := FixShrunkLeft(x, f, t);
      } else {
        top, done := FixShrunkRight(x, f, t);
      }
      ShrinkingUp(h, mem, dead, c, t, bh);
      c', u := c[..|c|-1], Shrink(f, t).tree;
    }

    // The tree that rb_remove leaves: the memory holds v, and dead outside it.
    ghost predicate Removed(v: Tree, dead: Ref, items: seq<Item>)
      reads this
    {
      var ok :=
        root == Root(v) && Rep(mem, v) && Separate(v) && mem.Keys == Nodes(v) + {dead} && dead !in Nodes(v) &&
        (exists bh: nat :: RedBlack(v, bh)) && !IsRed(v) && Inorder(v) == items;
      ok
    }

    // One turn of the loop with the early return: a repaired subtree is linked in at once.
    method ShrinkTurn(path: seq<PathEntry>, i: nat, ghost dead: Ref, ghost c: seq<Frame>, ghost t: Tree, ghost bh: nat)
      returns (top: Ref, done: bool, ghost c': seq<Frame>, ghost u: Tree)
      requires i + 1 == |c| < |path| && Shrinking(mem, dead, c, t, bh) && root == c[0].item.node
      requires OnPath(path, c) && path[i + 1].node == Root(t)
      modifies this`mem, this`root
      ensures c' == c[..i] && ZipItems(c', u) == ZipItems(c, t)
      ensures done ==> Removed(Plug(c', u), dead, ZipItems(c', u))
      ensures !done ==> u.Node? && Shrinking(mem, dead, c', u, bh + 1) && top == Root(u) && root == old(root)
    {
      var x := path[i].node;
      top, done, c', u := ShrinkStep(x, path[i + 1].node, path[i].cmp == LESS, dead, c, t, bh);
      if done {
        if top != x {
          Relink(path, i, top, dead, c', u, x);
        }
        RemovedSettled(dead, c', u);
      }
    }

    // The unwinding loop of rb_remove, entered with an empty hole one black level too short.
    method RepairShrink(path0: seq<PathEntry>, ghost dead: Ref, ghost c0: seq<Frame>) returns (ghost v: Tree)
      requires c0 != [] && Shrinking(mem, dead, c0, Leaf, 0) && root == c0[0].item.node
      requires OnPath(path0, c0) && |path0| == |c0| + 1 && path0[|c0|].node == NULL
      modifies this`mem, this`root
      ensures Removed(v, dead, ZipItems(c0, Leaf))
    {
      ghost var c, t, bh := c0, Leaf, 0;
      var path := path0;
      var i := |path| - 1;
      while i > 0
        invariant i == |c| < |path| && (c == [] ==> t.Node?)
        invariant c != [] ==> c[0] == c0[0]
        invariant Shrinking(mem, dead, c, t, bh) && root == c0[0].item.node
        invariant OnPath(path, c) && path[i].node == Root(t)
        invariant ZipItems(c, t) == ZipItems(c0, Leaf)
      {
        i := i - 1;
        var top, done;
        ghost var c', u;
        top, done, c', u := ShrinkTurn(path, i, dead, c, t, bh);
        if done {
          v := Plug(c', u);
          return;
        }
        PathShortened(path, c, i, path[i].(node := top));
        c, t, bh := c', u, bh + 1;
        path := path[i := path[i].(node := top)];
      }
      root := path[0].node;
      v := t;
      RemovedTop(v, dead, bh);
    }

    lemma RemovedSettled(dead: Ref, c: seq<Frame>, u: Tree)
      requires Settled(mem, dead, c, u, Root(u)) && root == if c == [] then Root(u) else c[0].item.node
      ensures Removed(Plug(c, u), dead, ZipItems(c, u))
    {
      SettledPlug(mem, dead, c, u);
    }

    lemma RemovedTop(v: Tree, dead: Ref, bh: nat)
      requires v.Node? && Shrinking(mem, dead, [], v, bh) && root == Root(v)
      ensures Removed(v, dead, ZipItems([], v))
    {
      assert RedBlack(v, bh);
      assert Before([]) + Inorder(v) + After([]) == Inorder(v);
    }

    // The rotation gave the repaired subtree a new root: tell the parent, or the map.
    method Relink(path: seq<PathEntry>, i: nat, top: Ref, ghost dead: Ref, ghost c: seq<Frame>, ghost u: Tree,
                  ghost x: Ref)
      requires Settled(mem, dead, c, u, x) && top == Root(u)
      requires i == |c| && OnPath(path, c)
      modifies this`mem, this`root
      ensures Settled(mem, dead, c, u, Root(u)) && root == if i == 0 then top else old(root)
    {
      if i == 0 {
        root := top;
      } else {
        SettledLink(mem, dead, c, u, x);
        if path[i - 1].cmp == LESS {
          mem := SetLeft(mem, path[i - 1].node, top);
        } else {
          mem := SetRight(mem, path[i - 1].node, top);
        }
      }
    }

    // The part of rb_remove after the node to cut off has become a leaf.
    method CutLeaf(path: seq<PathEntry>, dead: Ref, ghost c: seq<Frame>) returns (ghost v: Tree)
      requires Pruned(mem, dead, c) && root == c[0].item.node
      requires OnPath(path, c) && |path| == |c| + 1
      modifies this`mem, this`root
      ensures Removed(v, dead, ZipItems(c, Leaf))
    {
      if mem[dead].red {
        assert path[|path| - 2].cmp == LESS;
        CutRed(mem, dead, c);
        mem := SetLeft(mem, path[|path| - 2].node, NULL);
        RemovedSettled(dead, c, Leaf);
        v := Plug(c, Leaf);
      } else {
        assert Nodes(Leaf) == {};
        v := RepairShrink(path[|path| - 1 := PathEntry(NULL, EQUAL)], dead, c);
      }
    }

    // s, in the hole of d, follows the root of t, in the hole of c, in the order.
    ghost predicate Successor(c: seq<Frame>, t: Tree, d: seq<Frame>, s: Tree, e: nat) {
      t.Node? && |c| < |d| && d[..|c|] == c && d[|c|] == Down(t, false) && AllLeft(d, |c|) &&
      Plug(d, s) == Plug(c, t) && s.Node? && s.left.Leaf? && RedBlack(s, e)
    }

    // The array of rb_remove holds the path and the NULL entry behind it.
    ghost predicate Fits(path: seq<PathEntry>) {
      |path| + 1 <= RB_MAX_DEPTH
    }

    lemma PathFits(path: seq<PathEntry>, c: seq<Frame>, t: Tree)
      requires Valid() && Plug(c, t) == tree && |path| == |c| + 1
      ensures size + 1 < Pow2(64) ==> Fits(path)
    {
      if size + 1 < Pow2(64) { NeverTooDeep(c, t); }
    }

    // The first loop of rb_remove: the path from the root to node.
    method Locate(node: Ref) returns (path: seq<PathEntry>, ghost c: seq<Frame>, ghost t: Tree, ghost bh: nat)
      requires Valid() && node in mem
      ensures Zipped(mem, c, t, bh) && Plug(c, t) == tree && t.Node? && t.item.node == node
      ensures OnPath(path, c) && |path| == |c| + 1 && path[|c|].node == node
      ensures size + 1 < Pow2(64) ==> Fits(path)
    {
      bh :| RedBlack(tree, bh);
      c, t := [], tree;
      var key := mem[node].key;
      path := [PathEntry(root, EQUAL)];
      var i := 0;
      while true
        invariant i == |c| && |path| == i + 1
        invariant Walking(mem, tree, key, c, t, bh) && OnPath(path, c) && path[i].node == Root(t)
        decreases t
      {
        StillAhead(mem, c, t, bh, node);
        var here := path[i].node;
        var cmp := Compare(key, mem[here].key);
        if cmp == EQUAL {
          SameKeySameNode(mem, c, t, node);
          PathFits(path, c, t);
          return;
        }
        WalkStep(mem, tree, key, c, t, bh);
        var next := if cmp == LESS then mem[here].left else mem[here].right;
        PathExtended(path, c, Down(t, cmp == LESS), PathEntry(next, EQUAL));
        path := path[..i] + [PathEntry(here, cmp), PathEntry(next, EQUAL)];
        c, bh := c + [Down(t, cmp == LESS)], if t.red then bh else bh - 1;
        t := Child(t, cmp == LESS);
        i := i + 1;
      }
    }

    // The inner loop of rb_remove: leftwards as far as it goes.
    method GoLeft(path0: seq<PathEntry>, k: nat, ghost c0: seq<Frame>, ghost t0: Tree, ghost bh0: nat)
      returns (path: seq<PathEntry>, ghost c: seq<Frame>, ghost t: Tree, ghost bh: nat)
      requires Zipped(mem, c0, t0, bh0) && t0.Node? && k + 1 == |c0| && AllLeft(c0, k)
      requires OnPath(path0, c0) && |path0| == |c0| + 1 && path0[|c0|].node == Root(t0)
      ensures Zipped(mem, c, t, bh) && Plug(c, t) == Plug(c0, t0) && t.Node? && t.left.Leaf?
      ensures |c0| <= |c| && c[..|c0|] == c0 && AllLeft(c, k)
      ensures OnPath(path, c) && |path| == |c| + 1 && path[|c|].node == Root(t)
    {
      path, c, t, bh := path0, c0, t0, bh0;
      var i := |path0| - 1;
      while mem[path[i].node].left != NULL
        invariant i == |c| && |path| == i + 1
        invariant Zipped(mem, c, t, bh) && Plug(c, t) == Plug(c0, t0) && t.Node?
        invariant |c0| <= |c| && c[..|c0|] == c0 && AllLeft(c, k)
        invariant OnPath(path, c) && path[i].node == Root(t)
        decreases t
      {
        var here := path[i].node;
        WalkDown(mem, c, t, bh, true);
        PathExtended(path, c, Down(t, true), PathEntry(mem[here].left, EQUAL));
        path := path[..i] + [PathEntry(here, LESS), PathEntry(mem[here].left, EQUAL)];
        c, bh := c + [Down(t, true)], if t.red then bh else bh - 1;
        t := t.left;
        i := i + 1;
      }
      assert Rep(mem, t.left);
    }

    // From node's right child to node's successor.
    method ToSuccessor(path0: seq<PathEntry>, ghost c0: seq<Frame>, ghost t0: Tree, ghost bh0: nat)
      returns (path: seq<PathEntry>, ghost c: seq<Frame>, ghost t: Tree, ghost bh: nat)
      requires Valid() && Zipped(mem, c0, t0, bh0) && Plug(c0, t0) == tree && t0.Node? && t0.right.Node?
      requires OnPath(path0, c0) && |path0| == |c0| + 1 && path0[|c0|].node == Root(t0)
      ensures Zipped(mem, c, t, bh) && Successor(c0, t0, c, t, bh)
      ensures OnPath(path, c) && |path| == |c| + 1 && path[|c|].node == Root(t)
      ensures size + 1 < Pow2(64) ==> Fits(path)
    {
      var i := |path0| - 1;
      var here := path0[i].node;
      WalkDown(mem, c0, t0, bh0, false);
      PathExtended(path0, c0, Down(t0, false), PathEntry(mem[here].right, EQUAL));
      path := path0[..i] + [PathEntry(here, GREATER), PathEntry(mem[here].right, EQUAL)];
      ghost var c1 := c0 + [Down(t0, false)];
      path, c, t, bh := GoLeft(path, i, c1, t0.right, if t0.red then bh0 else bh0 - 1);
      assert c[|c0|] == c1[|c0|] && c[..|c0|] == c1[..|c0|];
      PathFits(path, c, t);
    }

    // s takes node's colour and children, node takes s's colour.
    method CopyLinks(s: Ref, node: Ref)
      requires s in mem && node in mem && s != node
      modifies this`mem
      ensures ChangedOnly(old(mem), mem, {s, node})
      ensures mem[s] == old(mem[s]).(left := old(mem[node].left), right := old(mem[node].right),
              red := old(mem[node].red))
      ensures mem[node] == old(mem[node]).(red := old(mem[s].red))
    {
      var tcolor := mem[s].red;
      mem := SetRed(mem, s, mem[node].red);
      mem := SetLeft(mem, s, mem[node].left);
      mem := SetRight(mem, s, mem[node].right);
      mem := SetRed(mem, node, tcolor);
    }

    // Swaps node, at entry k of the path, with its successor s at the end of the path.
    method TakePlace(path0: seq<PathEntry>, k: nat, node: Ref, ghost c: seq<Frame>, ghost t: Tree, ghost bh: nat)
      returns (path: seq<PathEntry>)
      requires k < |c| && !c[k].wentLeft && Zipped(mem, c, t, bh) && t.Node? && t.left.Leaf?
      requires mem.Keys == Nodes(Plug(c, t)) && node == c[k].item.node
      requires OnPath(path0, c) && |path0| == |c| + 1 && path0[|c|].node == Root(t) && root == c[0].item.node
      modifies this`mem, this`root
      ensures var d := Swapped(c, k, t.item);
              Pruned(mem, node, d) && root == d[0].item.node && OnPath(path, d) && |path| == |d| + 1
    {
      ghost var h := mem;
      var s := path0[|path0| - 1].node;
      SwapApart(mem, c, k, t, bh);
      CopyLinks(s, node);
      path := path0[k := path0[k].(node := s)];
      path := path[|path0| - 1 := PathEntry(node, EQUAL)];
      PathSwapped(path0, path, c, k, t.item);
      if k == 0 {
        root := s;
      } else if path[k - 1].cmp == LESS {
        mem := SetLeft(mem, path[k - 1].node, s);
      } else {
        mem := SetRight(mem, path[k - 1].node, s);
      }
      PrunedSwap(h, mem, c, k, t, bh);
    }

    // node has no successor below it: cut it off, or put its only (left, red) child in its place.
    method UnlinkWithoutRight(path: seq<PathEntry>, node: Ref, ghost c: seq<Frame>, ghost t: Tree, ghost bh: nat)
      returns (ghost v: Tree)
      requires Valid() && Zipped(mem, c, t, bh) && Plug(c, t) == tree && t.Node? && t.item.node == node && t.right.Leaf?
      requires OnPath(path, c) && |path| == |c| + 1
      modifies this`mem, this`root
      ensures Removed(v, node, ZipItems(c, t.left))
    {
      NoRightChild(t, bh);
      RootOfPath(mem, c, t, bh);
      var left := mem[node].left;
      if left != NULL {
        assert !mem[node].red;
        assert mem[left].red by { assert Rep(mem, t.left); }
        LiftLeft(mem, c, t, bh);
        mem := SetRed(mem, left, false);
        Relink(path, |path| - 1, left, node, c, Blacken(t.left), node);
        v := Plug(c, Blacken(t.left));
        RemovedSettled(node, c, Blacken(t.left));
        assert Inorder(Blacken(t.left)) == Inorder(t.left);
      } else if |path| == 1 {
        root := NULL;
        v := Leaf;
        assert Nodes(Leaf) == {} && Nodes(t) == {node} && RedBlack(Leaf, 0);
        assert ZipItems(c, Leaf) == [];
      } else {
        assert t.left.Leaf? by { assert Rep(mem, t.left); }
        PrunedLeaf(mem, c, t, bh);
        v := CutLeaf(path, node, c);
      }
    }

    // node has a successor below it, which takes its place.
    method UnlinkWithRight(path: seq<PathEntry>, node: Ref, ghost c: seq<Frame>, ghost t: Tree, ghost bh: nat)
      returns (ghost v: Tree, ghost after: seq<Item>, ghost used: seq<PathEntry>)
      requires Valid() && Zipped(mem, c, t, bh) && Plug(c, t) == tree && t.Node? && t.item.node == node && t.right.Node?
      requires OnPath(path, c) && |path| == |c| + 1 && path[|c|].node == Root(t)
      modifies this`mem, this`root
      ensures old(Inorder(tree)) == Before(c) + Inorder(t.left) + [t.item] + after
      ensures Removed(v, node, Before(c) + Inorder(t.left) + after)
      ensures size + 1 < Pow2(64) ==> Fits(used)
    {
      var longer;
      ghost var d, s, e;
      longer, d, s, e := WithSuccessor(path, node, c, t, bh);
      used, after := longer, [s.item] + After(d);
      SuccessorItems(d, |c|, s, e);
      v := CutLeaf(longer, node, Swapped(d, |c|, s.item));
    }

    // The successor has taken the place of node, which is a leaf now.
    method WithSuccessor(path0: seq<PathEntry>, node: Ref, ghost c: seq<Frame>, ghost t: Tree, ghost bh: nat)
      returns (path: seq<PathEntry>, ghost d: seq<Frame>, ghost s: Tree, ghost e: nat)
      requires Valid() && Zipped(mem, c, t, bh) && Plug(c, t) == tree && t.Node? && t.item.node == node && t.right.Node?
      requires OnPath(path0, c) && |path0| == |c| + 1 && path0[|c|].node == Root(t)
      modifies this`mem, this`root
      ensures Successor(c, t, d, s, e)
      ensures var p := Swapped(d, |c|, s.item);
              Pruned(mem, node, p) && root == p[0].item.node && OnPath(path, p) && |path| == |p| + 1
      ensures size + 1 < Pow2(64) ==> Fits(path)
    {
      path, d, s, e := ToSuccessor(path0, c, t, bh);
      RootOfPath(mem, d, s, e);
      path := TakePlace(path, |path0| - 1, node, d, s, e);
    }

    // rb_remove; used is the longest path that it puts in its array.
    method Unlink(node: Ref)
      returns (ghost v: Tree, ghost before: seq<Item>, ghost after: seq<Item>, ghost used: seq<PathEntry>)
      requires Valid() && node in mem
      modifies this`mem, this`root
      ensures old(Inorder(tree)) == before + [Item(node, old(mem[node].key), old(mem[node].data))] + after
      ensures Removed(v, node, before + after)
      ensures size + 1 < Pow2(64) ==> Fits(used)
    {
      var path;
      ghost var c, t, bh;
      path, c, t, bh := Locate(node);
      used := path;
      before := Before(c) + Inorder(t.left);
      assert Rep(mem, t.right);
      if mem[node].right == NULL {
        PlugInorder(c, t);
        RootOfPath(mem, c, t, bh);
        after := After(c);
        Recentre(Before(c), Inorder(t.left), t.item, [], After(c));
        v := UnlinkWithoutRight(path, node, c, t, bh);
      } else {
        v, after, used := UnlinkWithRight(path, node, c, t, bh);
      }
    }

    // map_erase on an iterator that stands on a live node (or, NULL, on none).
    method Erase(node: Ref)
      requires Valid() && (node == NULL || node in mem)
      modifies this
      ensures Valid()
      ensures node == NULL ==> mem == old(mem) && root == old(root) && size == old(size) && tree == old(tree)
      ensures node != NULL ==>
                old(mem[node].key) in old(Contents()) && Contents() == old(Contents()) - {old(mem[node].key)} &&
                size == old(size) - 1 && mem.Keys == old(mem.Keys) - {node} &&
                Items() == old(Items()) - {Item(node, old(mem[node].key), old(mem[node].data))}
    {
      if node == NULL || size == 0 {
        if node != NULL {
          EmptyTree(tree);
          assert false;
        }
        return;
      }
      ghost var v, a, b, used;
      v, a, b, used := Unlink(node);
      ErasedItems(a, Item(node, old(mem[node].key), old(mem[node].data)), b);
      ErasedNodes(tree, v, a, Item(node, old(mem[node].key), old(mem[node].data)), b);
      Freed(mem, node, v);
      mem := mem - {node};
      size := size - 1;
      tree := v;
    }
  }

  // A red sibling whose inner child has no red left child: recoloured and rotated over.
  lemma RedSiblingRep(h: Heap, g: Heap, f: Frame, t: Tree)
    requires !f.wentLeft && Shrinkable(f) && f.sibling.red && !f.red && StepReady(h, f, t)
    requires f.sibling.right.Node? && !IsRed(f.sibling.right.left)
    requires var x, left, leftright := f.item.node, f.sibling.item.node, f.sibling.right.item.node;
             x in h && left in h && leftright in h &&
             g == SetRed(RotateRight(SetRed(h, leftright, true), x), left, false)
    ensures Rep(g, Shrink(f, t).tree) && Root(Shrink(f, t).tree) == f.sibling.item.node
    ensures ChangedOnly(h, g, FrameNodes(f) + Nodes(t))
  {
    var s := f.sibling;
    var n := s.right;
    assert Rep(h, s.left) && Rep(h, n) && Separate(n);
    assert Rep(h, n.left) && Rep(h, n.right);
    var m := {f.item.node, s.item.node, n.item.node};
    Kept(h, g, m, t); Kept(h, g, m, s.left); Kept(h, g, m, n.left); Kept(h, g, m, n.right);
    assert Rep(g, n.(red := true));
    assert Rep(g, Node(f.red, f.item, n.(red := true), t));
  }

  lemma CutRed(h: Heap, dead: Ref, c: seq<Frame>)
    requires Pruned(h, dead, c) && h[dead].red
    ensures c[|c|-1].wentLeft && c[|c|-1].item.node in h
    ensures Settled(SetLeft(h, c[|c|-1].item.node, NULL), dead, c, Leaf, NULL)
  {
    assert Nodes(Leaf) == {};
    LinkUp(h, c, Leaf);
    AcceptsWeaken(c, 0);
    assert RedBlack(Leaf, 0) && Accepts(c, 0, IsRed(Leaf));
  }

  // The node looked for is not yet passed, so the walk cannot have run off the tree.
  lemma StillAhead(h: Heap, c: seq<Frame>, t: Tree, bh: nat, node: Ref)
    requires Walking(h, Plug(c, t), if node in h then h[node].key else 0, c, t, bh)
    requires node in Nodes(Plug(c, t)) && Rep(h, Plug(c, t))
    ensures t.Node?
  {
    ItemOf(h, Plug(c, t), node);
    PlugInorder(c, t);
  }

  lemma {:induction false} ItemOf(h: Heap, t: Tree, node: Ref)
    requires Rep(h, t) && node in Nodes(t)
    ensures node in h && Item(node, h[node].key, h[node].data) in Inorder(t)
  {
    match t
    case Leaf =>
    case Node(_, it, l, r) =>
      if node in Nodes(l) {
        ItemOf(h, l, node);
      } else if node in Nodes(r) {
        ItemOf(h, r, node);
      }
  }

  lemma PathExtended(path: seq<PathEntry>, c: seq<Frame>, f: Frame, next: PathEntry)
    requires OnPath(path, c) && |path| == |c| + 1
    ensures OnPath(path[..|c|] + [PathEntry(f.item.node, if f.wentLeft then LESS else GREATER), next], c + [f])
  {
  }

  lemma PathShortened(path: seq<PathEntry>, c: seq<Frame>, i: nat, e: PathEntry)
    requires OnPath(path, c) && i + 1 == |c|
    ensures OnPath(path[i := e], c[..i])
  {
  }

  // The path through the swapped frames.
  lemma PathSwapped(path0: seq<PathEntry>, path: seq<PathEntry>, c: seq<Frame>, k: nat, it: Item)
    requires k < |c| && OnPath(path0, c) && |path0| == |path| == |c| + 1
    requires path[k] == path0[k].(node := it.node) && forall i :: 0 <= i < |c| && i != k ==> path[i] == path0[i]
    ensures OnPath(path, Swapped(c, k, it)) && |Swapped(c, k, it)| == |c|
  {
  }

  lemma SameKeySamePlace(s: seq<Item>, i: nat, j: nat)
    requires Ascending(s) && i < |s| && j < |s| && s[i].key == s[j].key
    ensures i == j
  {
  }

  lemma SameKeySameNode(h: Heap, c: seq<Frame>, t: Tree, node: Ref)
    requires t.Node? && node in Nodes(Plug(c, t)) && Rep(h, Plug(c, t)) && Rep(h, t) && Ascending(Inorder(Plug(c, t)))
    requires node in h && h[node].key == t.item.key
    ensures t.item.node == node
  {
    PlugInorder(c, t);
    ItemOf(h, Plug(c, t), node);
    var s := Inorder(Plug(c, t));
    var it := Item(node, h[node].key, h[node].data);
    assert t.item in Inorder(t) && t.item in s;
    var i :| 0 <= i < |s| && s[i] == it;
    var j :| 0 <= j < |s| && s[j] == t.item;
    SameKeySamePlace(s, i, j);
  }

  lemma SwapApart(h: Heap, c: seq<Frame>, k: nat, t: Tree, bh: nat)
    requires k < |c| && Zipped(h, c, t, bh) && t.Node?
    ensures var x := c[k].item.node;
            x in h && t.item.node in h && x != t.item.node && t.item.node != NULL
    ensures k > 0 ==> var p := c[k-1].item.node;
                      p in h && p != c[k].item.node && p != t.item.node
  {
    InHeap(h, c, Root(t));
    PrefixNodes(c, k);
    if k > 0 {
      PrefixNodes(c, k - 1);
      assert c[..k][k-1] == c[k-1];
      FrameInCtx(c[..k], k - 1);
    }
    FrameInCtx(c, k);
  }

  lemma FrameInCtx(c: seq<Frame>, k: nat)
    requires k < |c|
    ensures c[k].item.node in CtxNodes(c)
    decreases |c|
  {
    if k < |c| - 1 {
      assert c[..|c|-1][k] == c[k];
      FrameInCtx(c[..|c|-1], k);
    }
  }

  lemma {:induction false} TreeInHeap(h: Heap, t: Tree)
    requires Rep(h, t)
    ensures Nodes(t) <= h.Keys
  {
    match t
    case Leaf =>
    case Node(_, _, l, r) => TreeInHeap(h, l); TreeInHeap(h, r);
  }

  lemma {:induction false} InHeap(h: Heap, c: seq<Frame>, hole: Ref)
    requires CtxRep(h, c, hole)
    ensures CtxNodes(c) <= h.Keys
    decreases |c|
  {
    if c != [] {
      TreeInHeap(h, c[|c|-1].sibling);
      InHeap(h, c[..|c|-1], c[|c|-1].item.node);
    }
  }

  lemma EmptyTree(t: Tree)
    ensures Inorder(t) == [] ==> Nodes(t) == {}
  {
    NodesAreInorder(t);
  }

  lemma ErasedItems(a: seq<Item>, x: Item, b: seq<Item>)
    requires Ascending(a + [x] + b)
    ensures Ascending(a + b) && |a + b| == |a + [x] + b| - 1
    ensures x.key in ToMap(a + [x] + b) && ToMap(a + b) == ToMap(a + [x] + b) - {x.key}
    ensures ItemSet(a + b) == ItemSet(a + [x] + b) - {x}
  {
    AscendingSplit(a, x, b);
    ToMapInsert(a, x, b);
    ItemSetJoin(a, x, b);
    assert x !in a && x !in b;
  }

  lemma ErasedNodes(t: Tree, v: Tree, a: seq<Item>, x: Item, b: seq<Item>)
    requires Inorder(t) == a + [x] + b && Inorder(v) == a + b
    ensures Nodes(t) == Nodes(v) + {x.node}
  {
    NodesAreInorder(t);
    NodesAreInorder(v);
    NodesOfConcat(a + [x], b);
    NodesOfConcat(a, [x]);
    NodesOfConcat(a, b);
    assert NodesOf([x]) == {x.node};
  }

  lemma RootOfPath(h: Heap, c: seq<Frame>, t: Tree, bh: nat)
    requires Zipped(h, c, t, bh)
    ensures Root(Plug(c, t)) == if c == [] then Root(t) else c[0].item.node
  {
    PlugRep(h, c, t);
  }

  // Putting the red left child, blackened, in place of its black parent keeps the balance.
  lemma LiftLeft(h: Heap, c: seq<Frame>, t: Tree, bh: nat)
    requires Zipped(h, c, t, bh) && h.Keys == Nodes(Plug(c, t)) && t.Node? && t.right.Leaf? && t.left.Node?
    ensures Root(t.left) in h
    ensures Settled(SetRed(h, Root(t.left), false), t.item.node, c, Blacken(t.left), t.item.node)
  {
    NoRightChild(t, bh);
    PlugRep(h, c, t);
    var l := t.left;
    assert Rep(h, l) && Nodes(Leaf) == {} && Nodes(l) == {l.item.node} && Nodes(t) == {t.item.node} + Nodes(l);
    var g := SetRed(h, Root(l), false);
    KeptCtx(h, g, {Root(l)}, c, t.item.node);
    SameInorder(Blacken(l), l);
    assert Rep(g, Blacken(l));
    assert RedBlack(Blacken(l), 1) && Accepts(c, 1, IsRed(Blacken(l)));
  }

  lemma SuccessorItems(c: seq<Frame>, k: nat, s: Tree, bh: nat)
    requires k < |c| && !c[k].wentLeft && AllLeft(c, k) && s.Node? && s.left.Leaf? && RedBlack(s, bh)
    ensures var a, b := Before(c[..k]) + Inorder(c[k].sibling), [s.item] + After(c);
            Inorder(Plug(c, s)) == a + [c[k].item] + b && ZipItems(Swapped(c, k, s.item), Leaf) == a + b
  {
    NoLeftChild(s, bh);
    PlugInorder(c, s);
    SwapItems(c, k, s.item);
    assert Inorder(s) == [s.item];
    SpliceItems(Before(c[..k]), Inorder(c[k].sibling), c[k].item, s.item, After(c));
  }

  lemma SpliceItems(p: seq<Item>, l: seq<Item>, x: Item, y: Item, q: seq<Item>)
    ensures (p + (l + [x])) + [y] + q == (p + l) + [x] + ([y] + q)
    ensures (p + (l + [y])) + [] + q == (p + l) + ([y] + q)
  {
  }
}
