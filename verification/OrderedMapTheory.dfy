/** Pure theory of the left-leaning red-black trees kept by src/map.c: shape and colour
    invariants, in-order contents, the zipper that mirrors the path array, and the value
    of every insertion and deletion fix-up. */
module OrderedMapTheory {
  import opened Powers

  // A node address; 0 is NULL.
  type Ref = nat
  const NULL: Ref := 0

  // What a position of the tree holds: the node and the entry stored in it.
  datatype Item = Item(node: Ref, key: int, data: int)

  datatype Tree = Leaf | Node(red: bool, item: Item, left: Tree, right: Tree)

  ghost predicate IsRed(t: Tree) {
    t.Node? && t.red
  }

  // The colour invariants: equal black height h, no red right child, no red node with a red child.
  ghost predicate RedBlack(t: Tree, h: nat) {
    match t
    case Leaf => h == 0
    case Node(red, _, l, r) =>
      !IsRed(r) && (red ==> !IsRed(l)) &&
      (red || h > 0) &&
      var h' := if red then h else h - 1;
      RedBlack(l, h') && RedBlack(r, h')
  }

  ghost function Inorder(t: Tree): seq<Item> {
    match t
    case Leaf => []
    case Node(_, it, l, r) => Inorder(l) + [it] + Inorder(r)
  }

  ghost predicate Ascending(s: seq<Item>) {
    forall i, j :: 0 <= i < j < |s| ==> s[i].key < s[j].key
  }

  // The finite map that a sequence of entries stands for.
  ghost function ToMap(s: seq<Item>): map<int, int> {
    if s == [] then map[] else ToMap(s[..|s|-1])[s[|s|-1].key := s[|s|-1].data]
  }

  ghost predicate AllBelow(s: seq<Item>, k: int) {
    forall x :: x in s ==> x.key < k
  }

  ghost predicate AllAbove(s: seq<Item>, k: int) {
    forall x :: x in s ==> k < x.key
  }

  ghost function KeysOf(s: seq<Item>): set<int> {
    set x | x in s :: x.key
  }

  lemma {:induction false} ToMapDomain(s: seq<Item>)
    ensures ToMap(s).Keys == KeysOf(s)
  {
    if s != [] {
      var init, last := s[..|s|-1], s[|s|-1];
      ToMapDomain(init);
      assert s == init + [last];
      assert KeysOf(s) == KeysOf(init) + {last.key};
    }
  }

  // Putting x between the smaller and the larger entries adds exactly its binding.
  lemma {:induction false} ToMapInsert(a: seq<Item>, x: Item, b: seq<Item>)
    requires AllBelow(a, x.key) && AllAbove(b, x.key)
    ensures ToMap(a + [x] + b) == ToMap(a + b)[x.key := x.data]
    ensures x.key !in ToMap(a + b)
    decreases |b|
  {
    if b == [] {
      assert a + [x] + b == a + [x] && a + b == a;
      assert (a + [x])[..|a|] == a;
    } else {
      var c, y := b[..|b|-1], b[|b|-1];
      assert b == c + [y];
      ToMapInsert(a, x, c);
      assert (a + [x] + b)[..|a + [x] + b|-1] == a + [x] + c;
      assert (a + b)[..|a + b|-1] == a + c;
    }
    ToMapDomain(a + b);
  }

  lemma AscendingSplit(a: seq<Item>, x: Item, b: seq<Item>)
    requires Ascending(a + [x] + b)
    ensures AllBelow(a, x.key) && AllAbove(b, x.key)
    ensures Ascending(a + b)
  {
    var s := a + [x] + b;
    assert s[|a|] == x;
    forall y | y in a ensures y.key < x.key {
      var i :| 0 <= i < |a| && a[i] == y;
      assert s[i].key < s[|a|].key;
    }
    forall y | y in b ensures x.key < y.key {
      var i :| 0 <= i < |b| && b[i] == y;
      assert s[|a|].key < s[|a| + 1 + i].key;
    }
    forall i, j | 0 <= i < j < |a + b| ensures (a + b)[i].key < (a + b)[j].key {
      var i', j' := if i < |a| then i else i + 1, if j < |a| then j else j + 1;
      assert (a + b)[i] == s[i'] && (a + b)[j] == s[j'];
    }
  }

  lemma AscendingJoin(a: seq<Item>, x: Item, b: seq<Item>)
    requires Ascending(a + b) && AllBelow(a, x.key) && AllAbove(b, x.key)
    ensures Ascending(a + [x] + b)
  {
    var s, u := a + [x] + b, a + b;
    forall i, j | 0 <= i < j < |s| ensures s[i].key < s[j].key {
      if i == |a| {
        assert s[j] in b;
      } else if j == |a| {
        assert s[i] in a;
      } else {
        var i', j' := if i < |a| then i else i - 1, if j < |a| then j else j - 1;
        assert u[i'] == s[i] && u[j'] == s[j];
      }
    }
  }

  ghost function Nodes(t: Tree): set<Ref> {
    match t
    case Leaf => {}
    case Node(_, it, l, r) => {it.node} + Nodes(l) + Nodes(r)
  }

  // No node occurs twice in the tree.
  ghost predicate Separate(t: Tree) {
    match t
    case Leaf => true
    case Node(_, it, l, r) =>
      it.node !in Nodes(l) && it.node !in Nodes(r) && Nodes(l) !! Nodes(r) &&
      Separate(l) && Separate(r)
  }

  // ---------------------------------------------------------------- zipper

  // One entry of the path array: the node passed, the side taken, and the subtree not taken.
  datatype Frame = Frame(red: bool, item: Item, wentLeft: bool, sibling: Tree)

  ghost function Rebuild(f: Frame, t: Tree): Tree {
    if f.wentLeft then Node(f.red, f.item, t, f.sibling) else Node(f.red, f.item, f.sibling, t)
  }

  // The whole tree around a subtree; frames are listed from the root down.
  ghost function Plug(c: seq<Frame>, t: Tree): Tree
    decreases |c|
  {
    if c == [] then t else Plug(c[..|c|-1], Rebuild(c[|c|-1], t))
  }

  ghost function Before(c: seq<Frame>): seq<Item> {
    if c == [] then []
    else
      var f := c[|c|-1];
      Before(c[..|c|-1]) + if f.wentLeft then [] else Inorder(f.sibling) + [f.item]
  }

  ghost function After(c: seq<Frame>): seq<Item> {
    if c == [] then []
    else
      var f := c[|c|-1];
      (if f.wentLeft then [f.item] + Inorder(f.sibling) else []) + After(c[..|c|-1])
  }

  // The context accepts, in its hole, a tree of black height h, red only if mayBeRed.
  ghost predicate Accepts(c: seq<Frame>, h: nat, mayBeRed: bool)
    decreases |c|
  {
    if c == [] then !mayBeRed
    else
      var f := c[|c|-1];
      RedBlack(f.sibling, h) &&
      (if f.wentLeft then !IsRed(f.sibling) && (mayBeRed ==> !f.red)
       else !mayBeRed && (f.red ==> !IsRed(f.sibling))) &&
      Accepts(c[..|c|-1], if f.red then h else h + 1, f.red)
  }

  lemma {:induction false} PlugInorder(c: seq<Frame>, t: Tree)
    ensures Inorder(Plug(c, t)) == Before(c) + Inorder(t) + After(c)
    decreases |c|
  {
    if c != [] {
      var f := c[|c|-1];
      PlugInorder(c[..|c|-1], Rebuild(f, t));
    }
  }

  lemma {:induction false} AcceptsWeaken(c: seq<Frame>, h: nat)
    requires Accepts(c, h, true)
    ensures Accepts(c, h, false)
  {
    assert c != [];
  }

  lemma {:induction false} PlugRedBlack(c: seq<Frame>, t: Tree, h: nat)
    requires RedBlack(t, h) && Accepts(c, h, IsRed(t))
    ensures exists h': nat :: RedBlack(Plug(c, t), h')
    ensures !IsRed(Plug(c, t))
    decreases |c|
  {
    if c != [] {
      var f := c[|c|-1];
      PlugRedBlack(c[..|c|-1], Rebuild(f, t), if f.red then h else h + 1);
      assert Plug(c, t) == Plug(c[..|c|-1], Rebuild(f, t));
    } else {
      assert RedBlack(Plug(c, t), h);
    }
  }

  // ---------------------------------------------------------------- depth

  ghost function Height(t: Tree): nat {
    match t
    case Leaf => 0
    case Node(_, _, l, r) => 1 + if Height(l) > Height(r) then Height(l) else Height(r)
  }

  lemma {:induction false} Pow2Mono(m: nat, n: nat)
    requires m <= n
    ensures 0 < Pow2(m) <= Pow2(n)
    decreases n
  {
    if m < n { Pow2Mono(m, n - 1); } else if 0 < n { Pow2Mono(n - 1, n - 1); }
  }

  // No path is longer than twice the black height (one more under a red root), and a tree of
  // black height h holds at least 2^h - 1 nodes.
  lemma {:induction false} HeightAndSize(t: Tree, h: nat)
    requires RedBlack(t, h)
    ensures Height(t) <= 2 * h + (if IsRed(t) then 1 else 0)
    ensures |Inorder(t)| + 1 >= Pow2(h)
  {
    match t
    case Leaf =>
    case Node(red, _, l, r) =>
      var h' := if red then h else h - 1;
      HeightAndSize(l, h');
      HeightAndSize(r, h');
  }

  // Depth is at most 2 * log2(size + 1): 2^(depth/2) never exceeds size + 1 under a black root.
  lemma DepthBound(t: Tree, h: nat)
    requires RedBlack(t, h) && !IsRed(t)
    ensures Pow2((Height(t) + 1) / 2) <= |Inorder(t)| + 1
  {
    HeightAndSize(t, h);
    Pow2Mono((Height(t) + 1) / 2, h);
  }

  lemma {:induction false} PlugHeight(c: seq<Frame>, t: Tree)
    ensures Height(Plug(c, t)) >= |c| + Height(t)
    decreases |c|
  {
    if c != [] {
      PlugHeight(c[..|c|-1], Rebuild(c[|c|-1], t));
    }
  }

  // ---------------------------------------------------------------- insertion fix-ups

  ghost function Blacken(t: Tree): Tree
    requires t.Node?
  {
    t.(red := false)
  }

  // A subtree after insertion below it. Where the old subtree was red its replacement is red
  // too and may have a red left child; otherwise all colour invariants hold again.
  ghost predicate Grown(t: Tree, h: nat, wasRed: bool) {
    if wasRed then
      IsRed(t) && !IsRed(t.right) && RedBlack(t.left, h) && RedBlack(t.right, h)
    else
      RedBlack(t, h)
  }

  // New red left child l: repair a 4-node by rotating right, otherwise just attach.
  ghost function GrowLeft(red: bool, it: Item, l: Tree, r: Tree): Tree
    requires IsRed(l)
  {
    if IsRed(l.left) then
      Node(l.red, l.item, Blacken(l.left), Node(red, it, l.right, r))
    else
      Node(red, it, l, r)
  }

  // New red right child r: split a 4-node, or rotate left to lean left.
  ghost function GrowRight(red: bool, it: Item, l: Tree, r: Tree): Tree
    requires IsRed(r)
  {
    if IsRed(l) then
      Node(true, it, Blacken(l), Blacken(r))
    else
      Node(red, r.item, Node(true, it, l, r.left), r.right)
  }

  ghost function Grow(f: Frame, t: Tree): Tree
    requires IsRed(t)
  {
    if f.wentLeft then GrowLeft(f.red, f.item, t, f.sibling)
    else GrowRight(f.red, f.item, f.sibling, t)
  }

  lemma GrowKeepsColours(c: seq<Frame>, t: Tree, h: nat, wasRed: bool)
    requires c != [] && Accepts(c, h, wasRed) && Grown(t, h, wasRed) && IsRed(t)
    ensures var f := c[|c|-1];
            Grown(Grow(f, t), if f.red then h else h + 1, f.red) &&
            Accepts(c[..|c|-1], if f.red then h else h + 1, f.red)
  {
  }

  lemma GrowKeepsInorder(f: Frame, t: Tree)
    requires IsRed(t)
    ensures Inorder(Grow(f, t)) == Inorder(Rebuild(f, t))
  {
    if f.wentLeft && IsRed(t.left) {
      assert Inorder(Grow(f, t)) == Inorder(t.left) + [t.item] + Inorder(t.right) + [f.item] + Inorder(f.sibling);
    }
  }

  // ---------------------------------------------------------------- deletion fix-ups

  // The value of one unwinding step of rb_remove: the repaired subtree, and whether its black
  // height is the old one (so the walk stops) or one less (so the walk goes on).
  datatype Repair = Repair(tree: Tree, done: bool)

  // The left subtree l has lost one unit of black height; r is its (non-empty, black) sibling.
  ghost function ShrinkLeft(red: bool, it: Item, l: Tree, r: Tree): Repair
    requires r.Node?
  {
    if IsRed(r.left) then
      var m := r.left;
      Repair(Node(red, m.item, Node(false, it, l, m.left), Node(r.red, r.item, m.right, r.right)), true)
    else
      Repair(Node(r.red, r.item, Node(true, it, l, r.left), r.right), red)
  }

  // The right subtree r has lost one unit of black height; l is its non-empty sibling.
  ghost function ShrinkRight(red: bool, it: Item, l: Tree, r: Tree): Repair
    requires l.Node? && (l.red ==> l.right.Node?)
  {
    if l.red then
      var m := l.right;
      if IsRed(m.left) then
        Repair(Node(m.red, m.item, Node(l.red, l.item, l.left, Blacken(m.left)), Node(red, it, m.right, r)), true)
      else
        Repair(Node(false, l.item, l.left, Node(red, it, m.(red := true), r)), true)
    else if red then
      if IsRed(l.left) then
        Repair(Node(true, l.item, Blacken(l.left), Node(false, it, l.right, r)), true)
      else
        Repair(Node(false, it, l.(red := true), r), true)
    else if IsRed(l.left) then
      Repair(Node(l.red, l.item, Blacken(l.left), Node(red, it, l.right, r)), true)
    else
      Repair(Node(red, it, l.(red := true), r), false)
  }

  ghost predicate Shrinkable(f: Frame) {
    f.sibling.Node? && (!f.wentLeft && f.sibling.red ==> f.sibling.right.Node?)
  }

  ghost function Shrink(f: Frame, t: Tree): Repair
    requires Shrinkable(f)
  {
    if f.wentLeft then ShrinkLeft(f.red, f.item, t, f.sibling)
    else ShrinkRight(f.red, f.item, f.sibling, t)
  }

  // A black subtree whose black height h is one too small for its context.
  ghost predicate Short(c: seq<Frame>, t: Tree, h: nat) {
    RedBlack(t, h) && !IsRed(t) && Accepts(c, h + 1, false)
  }

  lemma ShortIsShrinkable(c: seq<Frame>, t: Tree, h: nat)
    requires c != [] && Short(c, t, h)
    ensures Shrinkable(c[|c|-1])
  {
    var s := c[|c|-1].sibling;
    if IsRed(s) { assert RedBlack(s.right, h + 1); }
  }

  lemma ShrinkKeepsColours(c: seq<Frame>, t: Tree, h: nat)
    requires c != [] && Short(c, t, h)
    ensures Shrinkable(c[|c|-1])
    ensures var f := c[|c|-1];
            var up, s := c[..|c|-1], Shrink(f, t);
            var h' := if f.red then h + 1 else h + 2;
            s.tree.Node? &&
            (if s.done then RedBlack(s.tree, h') && Accepts(up, h', IsRed(s.tree))
             else Short(up, s.tree, h + 1))
  {
    ShortIsShrinkable(c, t, h);
    var f, up := c[|c|-1], c[..|c|-1];
    if f.red { AcceptsWeaken(up, h + 1); }
    var s := f.sibling;
    if f.wentLeft {
      if IsRed(s.left) { assert RedBlack(s.left, h); }
    } else if s.red {
      assert RedBlack(s.right, h + 1);
      if IsRed(s.right.left) { assert RedBlack(s.right.left, h); }
    } else if IsRed(s.left) {
      assert RedBlack(s.left, h);
    }
  }

  // Rotations regroup the in-order sequence without changing it.
  lemma Regroup(a: seq<Item>, x: Item, b: seq<Item>, y: Item, c: seq<Item>)
    ensures (a + [x] + b) + [y] + c == a + [x] + (b + [y] + c)
  {
  }

  lemma ShrinkKeepsInorder(f: Frame, t: Tree)
    requires Shrinkable(f)
    ensures Inorder(Shrink(f, t).tree) == Inorder(Rebuild(f, t))
  {
    if f.wentLeft {
      ShrinkLeftInorder(f.red, f.item, t, f.sibling);
    } else {
      ShrinkRightInorder(f.red, f.item, f.sibling, t);
    }
  }

  lemma ShrinkLeftInorder(red: bool, it: Item, l: Tree, r: Tree)
    requires r.Node?
    ensures Inorder(ShrinkLeft(red, it, l, r).tree) == Inorder(Node(red, it, l, r))
  {
    var L, R := Inorder(l), Inorder(r.right);
    if IsRed(r.left) {
      var m := r.left;
      var A, B := Inorder(m.left), Inorder(m.right);
      assert Inorder(m) == A + [m.item] + B;
      Regroup(A, m.item, B, r.item, R);
      Regroup(L, it, A, m.item, B + [r.item] + R);
    } else {
      Regroup(L, it, Inorder(r.left), r.item, R);
    }
  }

  lemma ShrinkRightInorder(red: bool, it: Item, l: Tree, r: Tree)
    requires l.Node? && (l.red ==> l.right.Node?)
    ensures Inorder(ShrinkRight(red, it, l, r).tree) == Inorder(Node(red, it, l, r))
  {
    var L, M, R := Inorder(l.left), Inorder(l.right), Inorder(r);
    Regroup(L, l.item, M, it, R);
    if IsRed(l.left) { assert Inorder(Blacken(l.left)) == L; }
    if l.red {
      var m := l.right;
      var A, B := Inorder(m.left), Inorder(m.right);
      if IsRed(m.left) {
        assert Inorder(Blacken(m.left)) == A;
        Regroup(A, m.item, B, it, R);
        Regroup(L, l.item, A, m.item, B + [it] + R);
      } else {
        assert Inorder(m.(red := true)) == M;
      }
    }
  }
}
