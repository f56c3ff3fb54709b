/**
 * The value-level picture of the red-black tree of rbtree.c.
 *
 * Every node of the C tree, including the BLACK leaf nodes that stand for
 * empty subtrees, appears here as one constructor of `Tree<N>`. The type
 * parameter `N` is the identity of that node: the heap model instantiates it
 * with its `TreeNode` objects, so that a tree value says which object sits
 * where; lemmas that only talk about keys and colours hold for every `N`.
 *
 * A position in a tree is a `Path` of directions from the root.
 */
module RedBlack {

  /** NODE_RED and NODE_BLACK of rbtree.h. */
  datatype Color = Red | Black

  datatype Dir = Left | Right

  datatype Option<T> = None | Some(value: T)

  type Path = seq<Dir>

  /** A leaf node (isLeaf set, always BLACK, no key) or a key-holding node. */
  datatype Tree<N> =
    | Leaf(node: N)
    | Node(node: N, color: Color, key: int, left: Tree<N>, right: Tree<N>)

  function Flip(d: Dir): Dir
  {
    if d == Left then Right else Left
  }

  /** Leaf nodes are BLACK. */
  function ColorOf<N>(t: Tree<N>): Color
  {
    if t.Leaf? then Black else t.color
  }

  function Child<N>(t: Tree<N>, d: Dir): Tree<N>
    requires t.Node?
  {
    if d == Left then t.left else t.right
  }

  function WithChild<N>(t: Tree<N>, d: Dir, c: Tree<N>): (r: Tree<N>)
    requires t.Node?
    ensures r.Node? && r.node == t.node && r.color == t.color && r.key == t.key
    ensures Child(r, d) == c && Child(r, Flip(d)) == Child(t, Flip(d))
  {
    if d == Left then t.(left := c) else t.(right := c)
  }

  function Recolor<N>(t: Tree<N>, c: Color): Tree<N>
  {
    if t.Leaf? then t else t.(color := c)
  }

  // ---------------------------------------------------------------------
  // Paths

  predicate ValidPath<N>(t: Tree<N>, p: Path)
    decreases p
  {
    p == [] || (t.Node? && ValidPath(Child(t, p[0]), p[1..]))
  }

  function Sub<N>(t: Tree<N>, p: Path): Tree<N>
    requires ValidPath(t, p)
    decreases p
  {
    if p == [] then t else Sub(Child(t, p[0]), p[1..])
  }

  function Replace<N>(t: Tree<N>, p: Path, s: Tree<N>): Tree<N>
    requires ValidPath(t, p)
    decreases p
  {
    if p == [] then s else WithChild(t, p[0], Replace(Child(t, p[0]), p[1..], s))
  }

  function Parent(p: Path): Path
    requires p != []
  {
    p[..|p| - 1]
  }

  function Last(p: Path): Dir
    requires p != []
  {
    p[|p| - 1]
  }

  lemma {:induction false} PathSplit(p: Path)
    requires p != []
    ensures p == Parent(p) + [Last(p)]
  {
  }

  lemma {:induction false} SubAppend<N>(t: Tree<N>, p: Path, q: Path)
    ensures ValidPath(t, p + q) <==> ValidPath(t, p) && ValidPath(Sub(t, p), q)
    ensures ValidPath(t, p + q) ==> Sub(t, p + q) == Sub(Sub(t, p), q)
    decreases p
  {
    if p != [] {
      assert (p + q)[0] == p[0] && (p + q)[1..] == p[1..] + q;
      if t.Node? {
        SubAppend(Child(t, p[0]), p[1..], q);
      }
    } else {
      assert p + q == q;
    }
  }

  lemma SubStep<N>(t: Tree<N>, p: Path, d: Dir)
    ensures ValidPath(t, p + [d]) <==> ValidPath(t, p) && Sub(t, p).Node?
    ensures ValidPath(t, p + [d]) ==> Sub(t, p + [d]) == Child(Sub(t, p), d)
  {
    SubAppend(t, p, [d]);
  }

  lemma {:induction false} ReplaceAppend<N>(t: Tree<N>, p: Path, q: Path, s: Tree<N>)
    requires ValidPath(t, p + q)
    ensures ValidPath(t, p) && ValidPath(Sub(t, p), q)
    ensures Replace(t, p + q, s) == Replace(t, p, Replace(Sub(t, p), q, s))
    decreases p
  {
    SubAppend(t, p, q);
    if p != [] {
      assert (p + q)[0] == p[0] && (p + q)[1..] == p[1..] + q;
      ReplaceAppend(Child(t, p[0]), p[1..], q, s);
    } else {
      assert p + q == q;
    }
  }

  lemma {:induction false} ReplaceSub<N>(t: Tree<N>, p: Path, s: Tree<N>)
    requires ValidPath(t, p)
    ensures ValidPath(Replace(t, p, s), p)
    ensures Sub(Replace(t, p, s), p) == s
    decreases p
  {
    if p != [] {
      ReplaceSub(Child(t, p[0]), p[1..], s);
    }
  }

  lemma {:induction false} ReplaceReplace<N>(t: Tree<N>, p: Path, s1: Tree<N>, s2: Tree<N>)
    requires ValidPath(t, p)
    ensures ValidPath(Replace(t, p, s1), p)
    ensures Replace(Replace(t, p, s1), p, s2) == Replace(t, p, s2)
    decreases p
  {
    ReplaceSub(t, p, s1);
    if p != [] {
      ReplaceReplace(Child(t, p[0]), p[1..], s1, s2);
    }
  }

  /** Replacing below `p` keeps the path valid and the rest of the subtree at `p`. */
  lemma ReplaceBelow<N>(t: Tree<N>, p: Path, q: Path, s: Tree<N>)
    requires ValidPath(t, p + q)
    ensures ValidPath(t, p) && ValidPath(Sub(t, p), q)
    ensures ValidPath(Replace(t, p + q, s), p)
    ensures Sub(Replace(t, p + q, s), p) == Replace(Sub(t, p), q, s)
  {
    ReplaceAppend(t, p, q, s);
    ReplaceSub(t, p, Replace(Sub(t, p), q, s));
  }

  /** Writing the subtree at `g + [d]` writes a new child on side `d` into the subtree at `g`. */
  lemma ReplaceChild<N>(t: Tree<N>, g: Path, d: Dir, s: Tree<N>)
    requires ValidPath(t, g) && Sub(t, g).Node?
    ensures ValidPath(t, g + [d]) && Sub(t, g + [d]) == Child(Sub(t, g), d)
    ensures Replace(t, g + [d], s) == Replace(t, g, WithChild(Sub(t, g), d, s))
  {
    SubStep(t, g, d);
    ReplaceAppend(t, g, [d], s);
    assert Replace(Sub(t, g), [d], s) == WithChild(Sub(t, g), d, s);
  }

  /** A write below the root keeps the root node and its colour. */
  lemma ReplaceTop<N>(t: Tree<N>, p: Path, s: Tree<N>)
    requires ValidPath(t, p) && p != []
    ensures Replace(t, p, s).Node? && Replace(t, p, s).node == t.node && ColorOf(Replace(t, p, s)) == ColorOf(t)
  {
  }

  lemma {:induction false} ReplaceSelf<N>(t: Tree<N>, p: Path)
    requires ValidPath(t, p)
    ensures Replace(t, p, Sub(t, p)) == t
    decreases p
  {
    if p != [] {
      ReplaceSelf(Child(t, p[0]), p[1..]);
    }
  }

  lemma PrefixValid<N>(t: Tree<N>, p: Path)
    requires ValidPath(t, p) && p != []
    ensures ValidPath(t, Parent(p)) && Sub(t, Parent(p)).Node?
    ensures Sub(t, p) == Child(Sub(t, Parent(p)), Last(p))
  {
    PathSplit(p);
    SubStep(t, Parent(p), Last(p));
  }

  /** The outcome of one iteration of a fix-up loop: leave it, or go on at a path. */
  datatype Step<N> = Done(tree: Tree<N>) | Next(tree: Tree<N>, at: Path)

  // ---------------------------------------------------------------------
  // Rotations (leftRotate / rightRotate on values)

  /** leftRotate: the right child rises, the old root takes its inner grandchild. */
  function RotateLeft<N>(t: Tree<N>): (r: Tree<N>)
    ensures InOrder(r) == InOrder(t)
    ensures Objs(r) == Objs(t)
  {
    if t.Node? && t.right.Node? then
      Node(t.right.node, t.right.color, t.right.key,
           Node(t.node, t.color, t.key, t.left, t.right.left), t.right.right)
    else t
  }

  /** rightRotate: the left child rises, the old root takes its inner grandchild. */
  function RotateRight<N>(t: Tree<N>): (r: Tree<N>)
    ensures InOrder(r) == InOrder(t)
    ensures Objs(r) == Objs(t)
  {
    if t.Node? && t.left.Node? then
      Node(t.left.node, t.left.color, t.left.key,
           t.left.left, Node(t.node, t.color, t.key, t.left.right, t.right))
    else t
  }

  /** `Rotate(t, Left)` is leftRotate, `Rotate(t, Right)` is rightRotate. */
  function Rotate<N>(t: Tree<N>, d: Dir): Tree<N>
  {
    if d == Left then RotateLeft(t) else RotateRight(t)
  }

  // ---------------------------------------------------------------------
  // Keys, order and identities

  function InOrder<N>(t: Tree<N>): seq<int>
  {
    if t.Leaf? then [] else InOrder(t.left) + [t.key] + InOrder(t.right)
  }

  function Keys<N>(t: Tree<N>): set<int>
  {
    if t.Leaf? then {} else Keys(t.left) + {t.key} + Keys(t.right)
  }

  predicate StrictlyIncreasing(s: seq<int>)
  {
    forall i, j :: 0 <= i < j < |s| ==> s[i] < s[j]
  }

  /** Binary-search-tree order: in-order keys strictly increasing. */
  predicate Ordered<N>(t: Tree<N>)
  {
    StrictlyIncreasing(InOrder(t))
  }

  ghost function Objs<N>(t: Tree<N>): set<N>
  {
    if t.Leaf? then {t.node} else {t.node} + Objs(t.left) + Objs(t.right)
  }

  /** No node identity occurs twice. */
  ghost predicate Distinct<N>(t: Tree<N>)
  {
    t.Node? ==>
      t.node !in Objs(t.left) && t.node !in Objs(t.right) && Objs(t.left) !! Objs(t.right) &&
      Distinct(t.left) && Distinct(t.right)
  }

  // ---------------------------------------------------------------------
  // Rearrangements: same keys in the same order, same nodes

  /** `u` holds the keys of `t` in the same order and the same nodes, none twice if none was twice in `t`. */
  ghost predicate Same<N>(t: Tree<N>, u: Tree<N>)
  {
    InOrder(u) == InOrder(t) && Objs(u) == Objs(t) && (Distinct(t) ==> Distinct(u))
  }

  lemma SameTrans<N>(t: Tree<N>, u: Tree<N>, v: Tree<N>)
    requires Same(t, u) && Same(u, v)
    ensures Same(t, v)
  {
  }

  lemma RecolorSame<N>(t: Tree<N>, c: Color)
    ensures Same(t, Recolor(t, c))
  {
    if t.Node? && Distinct(t) {
      assert Distinct(t.left) && Distinct(t.right);
    }
  }

  lemma WithChildSame<N>(t: Tree<N>, d: Dir, c: Tree<N>)
    requires t.Node? && Same(Child(t, d), c)
    ensures Same(t, WithChild(t, d, c))
  {
    if Distinct(t) {
      assert Distinct(t.left) && Distinct(t.right);
    }
  }

  lemma RotateSame<N>(t: Tree<N>, d: Dir)
    ensures Same(t, Rotate(t, d))
  {
    if Distinct(t) && t.Node? {
      if d == Left && t.right.Node? {
        var x := t.right;
        assert Objs(x) == {x.node} + Objs(x.left) + Objs(x.right);
        assert Distinct(x);
        assert Distinct(x.left) && Distinct(x.right);
        var inner := Node(t.node, t.color, t.key, t.left, x.left);
        assert Distinct(inner);
        assert Objs(inner) == {t.node} + Objs(t.left) + Objs(x.left);
        assert Rotate(t, d) == Node(x.node, x.color, x.key, inner, x.right);
      } else if d == Right && t.left.Node? {
        var x := t.left;
        assert Objs(x) == {x.node} + Objs(x.left) + Objs(x.right);
        assert Distinct(x);
        assert Distinct(x.left) && Distinct(x.right);
        var inner := Node(t.node, t.color, t.key, x.right, t.right);
        assert Distinct(inner);
        assert Objs(inner) == {t.node} + Objs(x.right) + Objs(t.right);
        assert Rotate(t, d) == Node(x.node, x.color, x.key, x.left, inner);
      }
    }
  }

  // ---------------------------------------------------------------------
  // Search

  /**
   * The search of rbtree.c:211-220 (and of removeElement, rbtree.c:297-298):
   * stop at a node holding `k` or at a leaf node, otherwise go right when `k`
   * is larger than the node's key and left when it is smaller.
   */
  function Descend<N>(t: Tree<N>, k: int): (p: Path)
    ensures ValidPath(t, p)
    ensures Sub(t, p).Leaf? || Sub(t, p).key == k
    decreases t
  {
    if t.Leaf? || t.key == k then []
    else
      var d := if k > t.key then Right else Left;
      var q := Descend(Child(t, d), k);
      assert ([d] + q)[0] == d && ([d] + q)[1..] == q;
      [d] + q
  }

  /** Past an inner node whose key is not `k`, the search goes on in the child on side `d`. */
  lemma DescendNode<N>(s: Tree<N>, k: int, d: Dir)
    requires s.Node? && s.key != k && d == (if k > s.key then Right else Left)
    ensures Descend(s, k) == [d] + Descend(Child(s, d), k)
  {
  }

  /** Moving one direction from the front of a path to the end of a prefix. */
  lemma PathShift(q: Path, d: Dir, r: Path)
    ensures q + ([d] + r) == (q + [d]) + r
  {
  }

  /** In an ordered tree the search ends at a key-holding node exactly when `k` is present. */
  lemma {:induction false} DescendFinds<N>(t: Tree<N>, k: int)
    requires Ordered(t)
    ensures Sub(t, Descend(t, k)).Node? <==> k in Keys(t)
    decreases t
  {
    if t.Node? && t.key != k {
      var d := if k > t.key then Right else Left;
      OrderedNode(t);
      DescendFinds(Child(t, d), k);
      assert Descend(t, k) == [d] + Descend(Child(t, d), k);
      assert ([d] + Descend(Child(t, d), k))[1..] == Descend(Child(t, d), k);
    }
  }

  // ---------------------------------------------------------------------
  // The colouring invariants

  /** Invariant (4) of rbtree.c: a RED node has no RED child. */
  predicate NoRedRed<N>(t: Tree<N>)
  {
    t.Node? ==>
      (t.color == Red ==> ColorOf(t.left) == Black && ColorOf(t.right) == Black) &&
      NoRedRed(t.left) && NoRedRed(t.right)
  }

  function BlackCount(c: Color): int
  {
    if c == Black then 1 else 0
  }

  /**
   * Invariant (5) of rbtree.c: every path from the root of `t` down to a leaf
   * node meets `h` BLACK key-holding nodes (the leaf nodes themselves are not counted).
   */
  predicate BlackHeight<N>(t: Tree<N>, h: int)
  {
    if t.Leaf? then h == 0
    else BlackHeight(t.left, h - BlackCount(t.color)) && BlackHeight(t.right, h - BlackCount(t.color))
  }

  /** The black height along the leftmost path. */
  function BH<N>(t: Tree<N>): nat
  {
    if t.Leaf? then 0 else BH(t.left) + BlackCount(t.color)
  }

  predicate Balanced<N>(t: Tree<N>)
  {
    BlackHeight(t, BH(t))
  }

  /** The five invariants of rbtree.c (invariant (1) and (3) hold by typing) and BST order. */
  predicate IsRB<N>(t: Tree<N>)
  {
    ColorOf(t) == Black && NoRedRed(t) && Balanced(t) && Ordered(t)
  }

  lemma {:induction false} BlackHeightIsBH<N>(t: Tree<N>, h: int)
    requires BlackHeight(t, h)
    ensures BH(t) == h && Balanced(t)
  {
    if t.Node? {
      BlackHeightIsBH(t.left, h - BlackCount(t.color));
    }
  }

  lemma {:induction false} BlackHeightNonNeg<N>(t: Tree<N>, h: int)
    requires BlackHeight(t, h)
    ensures h >= 0 && (h > 0 ==> t.Node?)
  {
    if t.Node? {
      BlackHeightNonNeg(t.left, h - BlackCount(t.color));
    }
  }

  lemma {:induction false} KeysInOrder<N>(t: Tree<N>)
    ensures forall x :: x in Keys(t) <==> x in InOrder(t)
  {
    if t.Node? {
      KeysInOrder(t.left);
      KeysInOrder(t.right);
    }
  }

  /** Keys are determined by the in-order sequence. */
  lemma SameKeys<N>(t: Tree<N>, u: Tree<N>)
    requires InOrder(t) == InOrder(u)
    ensures Keys(t) == Keys(u)
  {
    KeysInOrder(t);
    KeysInOrder(u);
    forall x | x in Keys(t) ensures x in Keys(u) {
      assert x in InOrder(t);
    }
    forall x | x in Keys(u) ensures x in Keys(t) {
      assert x in InOrder(u);
    }
  }

  lemma StrictlyIncreasingConcat(a: seq<int>, b: seq<int>)
    ensures StrictlyIncreasing(a + b) <==>
      StrictlyIncreasing(a) && StrictlyIncreasing(b) &&
      forall i, j :: 0 <= i < |a| && 0 <= j < |b| ==> a[i] < b[j]
  {
    if StrictlyIncreasing(a + b) {
      forall i, j | 0 <= i < |a| && 0 <= j < |b| ensures a[i] < b[j] {
        assert (a + b)[i] == a[i] && (a + b)[|a| + j] == b[j];
      }
      forall i, j | 0 <= i < j < |b| ensures b[i] < b[j] {
        assert (a + b)[|a| + i] == b[i] && (a + b)[|a| + j] == b[j];
      }
      forall i, j | 0 <= i < j < |a| ensures a[i] < a[j] {
        assert (a + b)[i] == a[i] && (a + b)[j] == a[j];
      }
    }
    if StrictlyIncreasing(a) && StrictlyIncreasing(b) &&
       forall i, j :: 0 <= i < |a| && 0 <= j < |b| ==> a[i] < b[j]
    {
      forall i, j | 0 <= i < j < |a + b| ensures (a + b)[i] < (a + b)[j] {
        if j < |a| {
        } else if i < |a| {
          assert (a + b)[j] == b[j - |a|];
        } else {
          assert (a + b)[i] == b[i - |a|] && (a + b)[j] == b[j - |a|];
        }
      }
    }
  }

  /** Keys of the left subtree are below `k`, keys of the right subtree above it. */
  ghost predicate Separated<N>(t: Tree<N>)
    requires t.Node?
  {
    (forall x :: x in Keys(t.left) ==> x < t.key) && (forall x :: x in Keys(t.right) ==> t.key < x)
  }

  /** The search-tree reading of `Ordered`: smaller keys left, larger keys right. */
  lemma OrderedNode<N>(t: Tree<N>)
    requires t.Node?
    ensures Ordered(t) <==> Ordered(t.left) && Ordered(t.right) && Separated(t)
  {
    var a, b := InOrder(t.left), InOrder(t.right);
    StrictlyIncreasingConcat(a + [t.key], b);
    StrictlyIncreasingConcat(a, [t.key]);
    KeysInOrder(t.left);
    KeysInOrder(t.right);
    assert (a + [t.key])[|a|] == t.key;
    assert InOrder(t) == a + [t.key] + b;
    if Ordered(t) {
      forall x | x in Keys(t.left) ensures x < t.key {
        var i :| 0 <= i < |a| && a[i] == x;
        assert [t.key][0] == t.key;
      }
      forall x | x in Keys(t.right) ensures t.key < x {
        var j :| 0 <= j < |b| && b[j] == x;
      }
      assert StrictlyIncreasing(a + [t.key]);
    }
    if Separated(t) && Ordered(t.left) && Ordered(t.right) {
      forall i, j | 0 <= i < |a| && 0 <= j < |[t.key]| ensures a[i] < [t.key][j] {
        assert a[i] in a;
      }
      forall i, j | 0 <= i < |a + [t.key]| && 0 <= j < |b| ensures (a + [t.key])[i] < b[j] {
        assert b[j] in b;
        if i < |a| {
          assert a[i] in a;
        }
      }
    }
  }

  /** Distinct keys: an ordered tree holds as many keys as key-holding nodes. */
  lemma {:induction false} OrderedCount<N>(t: Tree<N>)
    requires Ordered(t)
    ensures |Keys(t)| == |InOrder(t)|
  {
    if t.Node? {
      OrderedNode(t);
      OrderedCount(t.left);
      OrderedCount(t.right);
      assert Keys(t.left) !! Keys(t.right) by {
        forall x | x in Keys(t.left) ensures x !in Keys(t.right) {
        }
      }
      assert |Keys(t.left) + {t.key}| == |Keys(t.left)| + 1;
    }
  }

  // ---------------------------------------------------------------------
  // What the rest of a tree contributes around the subtree at a path.
  // Each lemma below says that replacing the subtree at `p` changes the
  // whole tree's property only through the new subtree.

  /** Keys in order before the subtree at `p`. */
  function Before<N>(t: Tree<N>, p: Path): seq<int>
    requires ValidPath(t, p)
    decreases p
  {
    if p == [] then []
    else if p[0] == Left then Before(t.left, p[1..])
    else InOrder(t.left) + [t.key] + Before(t.right, p[1..])
  }

  /** Keys in order after the subtree at `p`. */
  function After<N>(t: Tree<N>, p: Path): seq<int>
    requires ValidPath(t, p)
    decreases p
  {
    if p == [] then []
    else if p[0] == Left then After(t.left, p[1..]) + [t.key] + InOrder(t.right)
    else After(t.right, p[1..])
  }

  lemma {:induction false} InOrderReplace<N>(t: Tree<N>, p: Path, s: Tree<N>)
    requires ValidPath(t, p)
    ensures InOrder(Replace(t, p, s)) == Before(t, p) + InOrder(s) + After(t, p)
    decreases p
  {
    if p != [] {
      var c, rest := Child(t, p[0]), p[1..];
      InOrderReplace(c, rest, s);
      var c' := Replace(c, rest, s);
      if p[0] == Left {
        assert Replace(t, p, s) == t.(left := c');
        InOrderLeft(t, c', Before(c, rest), InOrder(s), After(c, rest));
      } else {
        assert Replace(t, p, s) == t.(right := c');
        InOrderRight(t, c', Before(c, rest), InOrder(s), After(c, rest));
      }
    }
  }

  lemma InOrderLeft<N>(t: Tree<N>, c: Tree<N>, b: seq<int>, m: seq<int>, a: seq<int>)
    requires t.Node? && InOrder(c) == b + m + a
    ensures InOrder(t.(left := c)) == b + m + (a + [t.key] + InOrder(t.right))
  {
    var x, r := b + m, [t.key] + InOrder(t.right);
    assert InOrder(t.(left := c)) == (x + a) + r;
    assert a + [t.key] + InOrder(t.right) == a + r;
  }

  lemma InOrderRight<N>(t: Tree<N>, c: Tree<N>, b: seq<int>, m: seq<int>, a: seq<int>)
    requires t.Node? && InOrder(c) == b + m + a
    ensures InOrder(t.(right := c)) == InOrder(t.left) + [t.key] + b + m + a
  {
    var l := InOrder(t.left) + [t.key];
    assert InOrder(t.(right := c)) == l + ((b + m) + a);
  }

  lemma InOrderSplit<N>(t: Tree<N>, p: Path)
    requires ValidPath(t, p)
    ensures InOrder(t) == Before(t, p) + InOrder(Sub(t, p)) + After(t, p)
  {
    ReplaceSelf(t, p);
    InOrderReplace(t, p, Sub(t, p));
  }

  /** A replacement with the same in-order keys leaves the whole tree's in-order keys alone. */
  lemma SameInOrderReplace<N>(t: Tree<N>, p: Path, s: Tree<N>)
    requires ValidPath(t, p) && InOrder(s) == InOrder(Sub(t, p))
    ensures InOrder(Replace(t, p, s)) == InOrder(t)
  {
    InOrderReplace(t, p, s);
    InOrderSplit(t, p);
  }

  /**
   * The part of `t` outside the subtree at `p` has no RED node with a RED
   * child, given that the subtree at `p` has root colour `c`.
   */
  predicate RedCtx<N>(t: Tree<N>, p: Path, c: Color)
    requires ValidPath(t, p)
    decreases p
  {
    p == [] ||
    (var other := Child(t, Flip(p[0]));
     var below := if |p| == 1 then c else ColorOf(Child(t, p[0]));
     NoRedRed(other) && (t.color == Red ==> ColorOf(other) == Black && below == Black) &&
     RedCtx(Child(t, p[0]), p[1..], c))
  }

  lemma {:induction false} ReplaceColor<N>(t: Tree<N>, p: Path, s: Tree<N>)
    requires ValidPath(t, p) && p != []
    ensures ColorOf(Replace(t, p, s)) == ColorOf(t) && Replace(t, p, s).Node?
  {
  }

  lemma {:induction false} RedReplace<N>(t: Tree<N>, p: Path, s: Tree<N>)
    requires ValidPath(t, p)
    ensures NoRedRed(Replace(t, p, s)) <==> RedCtx(t, p, ColorOf(s)) && NoRedRed(s)
    ensures ValidPath(Replace(t, p, s), p)
    ensures forall c :: RedCtx(Replace(t, p, s), p, c) == RedCtx(t, p, c)
    decreases p
  {
    ReplaceSub(t, p, s);
    if p != [] {
      RedReplace(Child(t, p[0]), p[1..], s);
      if |p| > 1 {
        ReplaceColor(Child(t, p[0]), p[1..], s);
      }
    }
  }

  lemma RedSplit<N>(t: Tree<N>, p: Path)
    requires ValidPath(t, p)
    ensures NoRedRed(t) <==> RedCtx(t, p, ColorOf(Sub(t, p))) && NoRedRed(Sub(t, p))
  {
    ReplaceSelf(t, p);
    RedReplace(t, p, Sub(t, p));
  }

  /** The context of a deeper path splits at any of its prefixes. */
  lemma {:induction false} RedCtxAppend<N>(t: Tree<N>, g: Path, r: Path, c: Color)
    requires ValidPath(t, g + r) && r != []
    ensures ValidPath(t, g) && ValidPath(Sub(t, g), r)
    ensures RedCtx(t, g + r, c) == (RedCtx(t, g, ColorOf(Sub(t, g))) && RedCtx(Sub(t, g), r, c))
    decreases g
  {
    SubAppend(t, g, r);
    if g != [] {
      var e, g' := g[0], g[1..];
      assert (g + r)[0] == e && (g + r)[1..] == g' + r;
      RedCtxAppend(Child(t, e), g', r, c);
      assert Sub(t, g) == Sub(Child(t, e), g');
      if |g| == 1 {
        assert g' == [];
        assert Sub(t, g) == Child(t, e);
      }
    } else {
      assert g + r == r;
    }
  }

  lemma {:induction false} RedCtxBlack<N>(t: Tree<N>, p: Path)
    requires ValidPath(t, p) && RedCtx(t, p, Red)
    ensures RedCtx(t, p, Black)
    decreases p
  {
    if p != [] {
      RedCtxBlack(Child(t, p[0]), p[1..]);
    }
  }

  /**
   * Outside the subtree at `p`, every path from the root meets `H` BLACK
   * nodes once the subtree at `p` contributes `h` of them.
   */
  predicate BHCtx<N>(t: Tree<N>, p: Path, h: int, H: int)
    requires ValidPath(t, p)
    decreases p
  {
    if p == [] then h == H
    else
      BlackHeight(Child(t, Flip(p[0])), H - BlackCount(t.color)) &&
      BHCtx(Child(t, p[0]), p[1..], h, H - BlackCount(t.color))
  }

  lemma {:induction false} BHReplace<N>(t: Tree<N>, p: Path, s: Tree<N>, h: int, H: int)
    requires ValidPath(t, p)
    ensures ValidPath(Replace(t, p, s), p)
    ensures BHCtx(Replace(t, p, s), p, h, H) == BHCtx(t, p, h, H)
    ensures BHCtx(t, p, h, H) && BlackHeight(s, h) ==> BlackHeight(Replace(t, p, s), H)
    decreases p
  {
    ReplaceSub(t, p, s);
    if p != [] {
      BHReplace(Child(t, p[0]), p[1..], s, h, H - BlackCount(t.color));
    }
  }

  /** The black-height context of a child, seen from its parent. */
  lemma {:induction false} BHCtxAppend<N>(t: Tree<N>, q: Path, d: Dir, h: int, H: int)
    requires ValidPath(t, q + [d])
    ensures ValidPath(t, q) && Sub(t, q).Node?
    ensures BHCtx(t, q + [d], h, H) ==
      (BHCtx(t, q, h + BlackCount(Sub(t, q).color), H) && BlackHeight(Child(Sub(t, q), Flip(d)), h))
    decreases q
  {
    SubStep(t, q, d);
    if q == [] {
      assert [] + [d] == [d];
    } else {
      var e, q' := q[0], q[1..];
      assert (q + [d])[0] == e && (q + [d])[1..] == q' + [d];
      BHCtxAppend(Child(t, e), q', d, h, H - BlackCount(t.color));
    }
  }

  lemma {:induction false} BHSplit<N>(t: Tree<N>, p: Path, H: int)
    requires ValidPath(t, p) && BlackHeight(t, H)
    ensures BHCtx(t, p, BH(Sub(t, p)), H) && BlackHeight(Sub(t, p), BH(Sub(t, p)))
    decreases p
  {
    if p == [] {
      BlackHeightIsBH(t, H);
    } else {
      BHSplit(Child(t, p[0]), p[1..], H - BlackCount(t.color));
    }
  }

  /** Node identities outside the subtree at `p`. */
  ghost function CtxObjs<N>(t: Tree<N>, p: Path): set<N>
    requires ValidPath(t, p)
    decreases p
  {
    if p == [] then {} else {t.node} + Objs(Child(t, Flip(p[0]))) + CtxObjs(Child(t, p[0]), p[1..])
  }

  lemma {:induction false} ObjsReplace<N>(t: Tree<N>, p: Path, s: Tree<N>)
    requires ValidPath(t, p)
    ensures ValidPath(Replace(t, p, s), p)
    ensures Objs(Replace(t, p, s)) == CtxObjs(t, p) + Objs(s)
    ensures Objs(t) == CtxObjs(t, p) + Objs(Sub(t, p))
    ensures CtxObjs(Replace(t, p, s), p) == CtxObjs(t, p)
    ensures Distinct(t) ==> CtxObjs(t, p) !! Objs(Sub(t, p)) && Distinct(Sub(t, p))
    ensures Distinct(t) && Distinct(s) && CtxObjs(t, p) !! Objs(s) ==> Distinct(Replace(t, p, s))
    decreases p
  {
    ReplaceSub(t, p, s);
    if p != [] {
      ObjsReplace(Child(t, p[0]), p[1..], s);
    }
  }

  lemma DistinctSub<N>(t: Tree<N>, p: Path)
    requires ValidPath(t, p)
    ensures Distinct(t) ==> Distinct(Sub(t, p))
  {
    ObjsReplace(t, p, t);
  }

  /** A rearrangement of a subtree is a rearrangement of the whole tree. */
  lemma ReplaceSame<N>(t: Tree<N>, p: Path, s: Tree<N>)
    requires ValidPath(t, p) && Same(Sub(t, p), s)
    ensures Same(t, Replace(t, p, s))
  {
    SameInOrderReplace(t, p, s);
    ObjsReplace(t, p, s);
  }
}
