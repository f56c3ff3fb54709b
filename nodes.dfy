/**
 * The red-black tree of rbtree.c on heap nodes: `TreeNode` and `RBTree` are
 * the structs of rbtree.h:6-19, and the procedures of rbtree.c update their
 * fields in place. A ghost tree value `Tree<TreeNode>` names, for every
 * node, its colour, key and children; `Matches` says that the fields agree
 * with it, and the methods are proved against the functions of the modules
 * InsertSpec and RemoveSpec.
 */
module Nodes {
  import opened RedBlack
  import InsertSpec
  import RemoveSpec

  /** struct TreeNode (rbtree.h:6-13). A leaf node is a real node, BLACK, with NULL children. */
  class TreeNode {
    var color: Color
    var value: int
    var isLeaf: bool
    var lchild: TreeNode?
    var rchild: TreeNode?
    var parent: TreeNode?

    /** newLeafNode (rbtree.c:32-42). */
    constructor Leaf()
      ensures color == Black && isLeaf && parent == null && lchild == null && rchild == null
    {
      color := Black;
      isLeaf := true;
      parent, lchild, rchild := null, null, null;
    }
  }

  /** The fields of the nodes of `t` agree with `t`, and the top node's parent is `up`. */
  ghost predicate Matches(t: Tree<TreeNode>, up: TreeNode?)
    reads Objs(t)
    decreases t
  {
    match t
    case Leaf(n) => n.isLeaf && n.color == Black && n.parent == up && n.lchild == null && n.rchild == null
    case Node(n, c, k, l, r) => Links(n, c, k, up, l.node, r.node) && Matches(l, n) && Matches(r, n)
  }

  /** The fields of the inner node `n`: colour, key, parent and children. */
  ghost predicate Links(n: TreeNode, c: Color, k: int, up: TreeNode?, l: TreeNode?, r: TreeNode?)
    reads n
  {
    !n.isLeaf && n.color == c && n.value == k && n.parent == up && n.lchild == l && n.rchild == r
  }

  /** The child field of `n` on side `d`. */
  function Slot(n: TreeNode, d: Dir): TreeNode?
    reads n
  {
    if d == Left then n.lchild else n.rchild
  }

  /** The parent node of the subtree at `p`: `up` at the top. */
  function Above(t: Tree<TreeNode>, p: Path, up: TreeNode?): TreeNode?
    requires ValidPath(t, p)
  {
    if p == [] then up else (PrefixValid(t, p); Sub(t, Parent(p)).node)
  }

  /**
   * The fields of the nodes of `t` outside the subtree at `p` agree with
   * `t`, the child link on the way down to `p` ending at the node `x`.
   */
  ghost predicate Ctx(t: Tree<TreeNode>, p: Path, up: TreeNode?, x: TreeNode)
    requires ValidPath(t, p)
    reads CtxObjs(t, p)
    decreases p
  {
    p == [] ||
    (var n, d := t.node, p[0];
     var down := if |p| == 1 then x else Child(t, d).node;
     LinksBut(t, up, d, down) && Matches(Child(t, Flip(d)), n) && Ctx(Child(t, d), p[1..], n, x))
  }

  /** The fields of the top node of `t` agree with `t`, save that its child on side `d` is `down`. */
  ghost predicate LinksBut(t: Tree<TreeNode>, up: TreeNode?, d: Dir, down: TreeNode)
    requires t.Node?
    reads t.node
  {
    if d == Left then Links(t.node, t.color, t.key, up, down, t.right.node)
    else Links(t.node, t.color, t.key, up, t.left.node, down)
  }

  /** A tree matches exactly when its context and its subtree at `p` do. */
  lemma {:induction false} MatchesSplit(t: Tree<TreeNode>, p: Path, up: TreeNode?, s: Tree<TreeNode>)
    requires ValidPath(t, p)
    ensures ValidPath(Replace(t, p, s), p)
    ensures Matches(Replace(t, p, s), up) <==> Ctx(t, p, up, s.node) && Matches(s, Above(t, p, up))
    decreases p
  {
    ReplaceSub(t, p, s);
    if p != [] {
      var d := p[0];
      MatchesSplit(Child(t, d), p[1..], t.node, s);
      if |p| > 1 {
        var p' := p[1..];
        PrefixValid(t, p);
        PrefixValid(Child(t, d), p');
        assert Parent(p) == [d] + Parent(p');
        SubAppend(t, [d], Parent(p'));
        assert Replace(Child(t, d), p', s).node == Child(t, d).node;
      }
    }
  }

  /** The context of a child of the subtree at `q`: the context of `q`, that node, and the other child. */
  lemma {:induction false} CtxStep(t: Tree<TreeNode>, q: Path, d: Dir, up: TreeNode?, x: TreeNode)
    requires ValidPath(t, q + [d])
    ensures ValidPath(t, q) && Sub(t, q).Node?
    ensures var s := Sub(t, q);
      Ctx(t, q + [d], up, x) <==>
        Ctx(t, q, up, s.node) && LinksBut(s, Above(t, q, up), d, x) && Matches(Child(s, Flip(d)), s.node)
    decreases q
  {
    SubStep(t, q, d);
    if q != [] {
      assert (q + [d])[0] == q[0] && (q + [d])[1..] == q[1..] + [d];
      CtxStep(Child(t, q[0]), q[1..], d, t.node, x);
      if |q| > 1 {
        PrefixValid(t, q);
        PrefixValid(Child(t, q[0]), q[1..]);
        assert Parent(q) == [q[0]] + Parent(q[1..]);
        SubAppend(t, [q[0]], Parent(q[1..]));
      }
    } else {
      assert q + [d] == [d];
    }
  }

  /** The subtree at `p` of a matching tree matches, its top node's parent being `Above`. */
  lemma MatchesAt(t: Tree<TreeNode>, p: Path, up: TreeNode?)
    requires ValidPath(t, p) && Matches(t, up)
    ensures Matches(Sub(t, p), Above(t, p, up)) && Ctx(t, p, up, Sub(t, p).node)
  {
    ReplaceSelf(t, p);
    MatchesSplit(t, p, up, Sub(t, p));
  }

  // ---------------------------------------------------------------------
  // Navigation (rbtree.c:65-108): read-only, and each returns the relative
  // its name says in the tree the fields spell out.

  /** The key and child fields of the inner node at `p`, the children being the nodes at `p + [Left]` and `p + [Right]`. */
  lemma InnerAt(t: Tree<TreeNode>, p: Path)
    requires Linked(t) && ValidPath(t, p) && Sub(t, p).Node?
    ensures var n := Sub(t, p);
      n.node.value == n.key && n.node.lchild == n.left.node && n.node.rchild == n.right.node &&
      ValidPath(t, p + [Left]) && Sub(t, p + [Left]) == n.left &&
      ValidPath(t, p + [Right]) && Sub(t, p + [Right]) == n.right
  {
    MatchesAt(t, p, null);
    SubStep(t, p, Left);
    SubStep(t, p, Right);
  }

  /** isLeftChild (rbtree.c:65-70). */
  function IsLeftChild(pnode: TreeNode): bool
    reads pnode, pnode.parent
  {
    pnode.parent != null && pnode == pnode.parent.lchild
  }

  /** isLeaf (rbtree.c:72-75). */
  function IsLeaf(pnode: TreeNode): bool
    reads pnode
  {
    pnode.isLeaf
  }

  /** getUncle (rbtree.c:78-85). */
  function GetUncle(pnode: TreeNode): TreeNode?
    requires pnode.parent != null && pnode.parent.parent != null
    reads pnode, pnode.parent, pnode.parent.parent
  {
    var grandpa := pnode.parent.parent;
    if IsLeftChild(pnode.parent) then grandpa.rchild else grandpa.lchild
  }

  /** getBrother (rbtree.c:88-94). */
  function GetBrother(pnode: TreeNode): TreeNode?
    requires pnode.parent != null
    reads pnode, pnode.parent
  {
    if IsLeftChild(pnode) then pnode.parent.rchild else pnode.parent.lchild
  }

  /** getNearNephew (rbtree.c:97-101). */
  function GetNearNephew(pnode: TreeNode): TreeNode?
    requires pnode.parent != null && GetBrother(pnode) != null
    reads pnode, pnode.parent, GetBrother(pnode)
  {
    var pbrother := GetBrother(pnode);
    if IsLeftChild(pnode) then pbrother.lchild else pbrother.rchild
  }

  /** getFarNephew (rbtree.c:104-108). */
  function GetFarNephew(pnode: TreeNode): TreeNode?
    requires pnode.parent != null && GetBrother(pnode) != null
    reads pnode, pnode.parent, GetBrother(pnode)
  {
    var pbrother := GetBrother(pnode);
    if IsLeftChild(pnode) then pbrother.rchild else pbrother.lchild
  }

  /** A tree of distinct nodes whose fields spell it out, its top node's parent NULL. */
  ghost predicate Linked(t: Tree<TreeNode>)
    reads Objs(t)
  {
    Matches(t, null) && Distinct(t)
  }

  /** The node at `p` and its parent pointer. */
  lemma NodeAt(t: Tree<TreeNode>, p: Path)
    requires Linked(t) && ValidPath(t, p)
    ensures var x := Sub(t, p).node;
      x in Objs(t) && x.parent == Above(t, p, null) && x.isLeaf == Sub(t, p).Leaf? && x.color == ColorOf(Sub(t, p)) &&
      (p == [] ==> x.parent == null) &&
      (p != [] ==> ValidPath(t, Parent(p)) && x.parent != null && x.parent == Sub(t, Parent(p)).node)
  {
    MatchesAt(t, p, null);
    ObjsReplace(t, p, Sub(t, p));
    if p != [] {
      PrefixValid(t, p);
    }
  }

  /** isLeftChild holds exactly for a left child, so never for the root. */
  lemma IsLeftChildAt(t: Tree<TreeNode>, p: Path)
    requires Linked(t) && ValidPath(t, p)
    ensures IsLeftChild(Sub(t, p).node) <==> p != [] && Last(p) == Left
  {
    NodeAt(t, p);
    if p != [] {
      PrefixValid(t, p);
      var q := Parent(p);
      NodeAt(t, q);
      MatchesAt(t, q, null);
      DistinctSub(t, q);
      var ps := Sub(t, q);
      assert ps.left.node in Objs(ps.left) && ps.right.node in Objs(ps.right);
    }
  }

  /** getBrother returns the parent's other child. */
  lemma BrotherAt(t: Tree<TreeNode>, p: Path)
    requires Linked(t) && ValidPath(t, p) && p != []
    ensures ValidPath(t, Parent(p)) && Sub(t, Parent(p)).Node? &&
      var x := Sub(t, p).node;
      x.parent != null && GetBrother(x) == Child(Sub(t, Parent(p)), Flip(Last(p))).node
  {
    PrefixValid(t, p);
    NodeAt(t, p);
    IsLeftChildAt(t, p);
    MatchesAt(t, Parent(p), null);
  }

  /** getUncle returns the grandparent's other child. */
  lemma UncleAt(t: Tree<TreeNode>, p: Path)
    requires Linked(t) && ValidPath(t, p) && |p| >= 2
    ensures ValidPath(t, Parent(Parent(p))) && Sub(t, Parent(Parent(p))).Node? &&
      var x := Sub(t, p).node;
      x.parent != null && x.parent.parent != null &&
      GetUncle(x) == Child(Sub(t, Parent(Parent(p))), Flip(Last(Parent(p)))).node
  {
    PrefixValid(t, p);
    var q := Parent(p);
    PrefixValid(t, q);
    NodeAt(t, p);
    NodeAt(t, q);
    BrotherAt(t, q);
  }

  /** The nephews: the brother's child on the side of the node, and on the other side. */
  lemma NephewsAt(t: Tree<TreeNode>, p: Path)
    requires Linked(t) && ValidPath(t, p) && p != []
    requires ValidPath(t, Parent(p)) && Sub(t, Parent(p)).Node? && Child(Sub(t, Parent(p)), Flip(Last(p))).Node?
    ensures var x, b := Sub(t, p).node, Child(Sub(t, Parent(p)), Flip(Last(p)));
      x.parent != null && GetBrother(x) != null &&
      GetNearNephew(x) == Child(b, Last(p)).node && GetFarNephew(x) == Child(b, Flip(Last(p))).node
  {
    PrefixValid(t, p);
    BrotherAt(t, p);
    IsLeftChildAt(t, p);
    var q, d := Parent(p), Last(p);
    SubStep(t, q, Flip(d));
    PathSplit(p);
    MatchesAt(t, q + [Flip(d)], null);
  }

  // ---------------------------------------------------------------------
  // Rotations (rbtree.c:111-150)

  /** The fields of the top node of `s` agree with `s`, its parent being `up`. */
  ghost predicate Fields(s: Tree<TreeNode>, up: TreeNode?)
    reads s.node
  {
    if s.Leaf? then
      s.node.isLeaf && s.node.color == Black && s.node.parent == up && s.node.lchild == null && s.node.rchild == null
    else Links(s.node, s.color, s.key, up, s.left.node, s.right.node)
  }

  /** A rotation towards `d` at `p` is possible: the child on the other side is an inner node. */
  ghost predicate Rotatable(t: Tree<TreeNode>, p: Path, d: Dir)
  {
    ValidPath(t, p) && Sub(t, p).Node? && Child(Sub(t, p), Flip(d)).Node?
  }

  /** The nodes of the subtrees a rotation towards `d` at the top of `n` carries along unchanged. */
  ghost function LocalObjs(n: Tree<TreeNode>, d: Dir): set<TreeNode>
    requires n.Node? && Child(n, Flip(d)).Node?
  {
    var c := Child(n, Flip(d));
    var b := Child(c, d);
    Objs(Child(n, d)) + Objs(Child(c, Flip(d))) + (if b.Node? then Objs(b.left) + Objs(b.right) else {})
  }

  /** The nodes outside the subtree at `p` other than its parent: the context above the parent and the sibling. */
  ghost function AboveObjs(t: Tree<TreeNode>, p: Path): set<TreeNode>
    requires ValidPath(t, p) && p != []
  {
    PrefixValid(t, p);
    CtxObjs(t, Parent(p)) + Objs(Child(Sub(t, Parent(p)), Flip(Last(p))))
  }

  /**
   * The nodes a rotation towards `d` at `p` leaves alone, as seen from the
   * nodes it rewires: the unmoved subtrees and the context above `p`.
   */
  ghost function KeptObjs(t: Tree<TreeNode>, p: Path, d: Dir): set<TreeNode>
    requires Rotatable(t, p, d)
  {
    LocalObjs(Sub(t, p), d) + (if p == [] then {} else AboveObjs(t, p))
  }

  /** The nodes a rotation towards `d` at `p` rewires: the node, its rising child, the inner grandchild and the parent. */
  ghost function Moved(t: Tree<TreeNode>, p: Path, d: Dir): set<TreeNode>
    requires Rotatable(t, p, d)
  {
    var n := Sub(t, p);
    var c := Child(n, Flip(d));
    {n.node, c.node, Child(c, d).node} + (if p == [] then {} else (PrefixValid(t, p); {Sub(t, Parent(p)).node}))
  }

  /** The part of `Linked(t)` that a rotation at `p` does not touch. */
  ghost predicate Kept(t: Tree<TreeNode>, p: Path, d: Dir)
    requires Rotatable(t, p, d)
    reads KeptObjs(t, p, d)
  {
    var n := Sub(t, p);
    var c := Child(n, Flip(d));
    var b := Child(c, d);
    Matches(Child(n, d), n.node) && Matches(Child(c, Flip(d)), c.node) &&
    (b.Node? ==> Matches(b.left, b.node) && Matches(b.right, b.node)) &&
    (p != [] ==> (PrefixValid(t, p); var q := Parent(p); var s := Sub(t, q);
      Ctx(t, q, null, s.node) && Matches(Child(s, Flip(Last(p))), s.node)))
  }

  /** The fields of the moved nodes before the rotation: as in `t`. */
  ghost predicate Before(t: Tree<TreeNode>, p: Path, d: Dir)
    requires Rotatable(t, p, d)
    reads Moved(t, p, d)
  {
    var n := Sub(t, p);
    var c := Child(n, Flip(d));
    Fields(n, Above(t, p, null)) && Fields(c, n.node) && Fields(Child(c, d), c.node) &&
    (p != [] ==> (PrefixValid(t, p); var q := Parent(p);
      LinksBut(Sub(t, q), Above(t, q, null), Last(p), n.node)))
  }

  /** The fields of the moved nodes after the rotation: as in the rotated tree. */
  ghost predicate After(t: Tree<TreeNode>, p: Path, d: Dir)
    requires Rotatable(t, p, d)
    reads Moved(t, p, d)
  {
    var n := Sub(t, p);
    var c := Child(n, Flip(d));
    var x, y := n.node, c.node;
    !x.isLeaf && x.color == n.color && x.value == n.key && x.parent == y &&
    Slot(x, d) == Child(n, d).node && Slot(x, Flip(d)) == Child(c, d).node &&
    !y.isLeaf && y.color == c.color && y.value == c.key && y.parent == Above(t, p, null) &&
    Slot(y, d) == x && Slot(y, Flip(d)) == Child(c, Flip(d)).node &&
    Fields(Child(c, d), x) &&
    (p != [] ==> (PrefixValid(t, p); var q := Parent(p);
      LinksBut(Sub(t, q), Above(t, q, null), Last(p), y)))
  }

  /** The moved nodes are four different nodes (three at the top). */
  ghost predicate Apart(t: Tree<TreeNode>, p: Path, d: Dir)
    requires Rotatable(t, p, d)
  {
    var n := Sub(t, p);
    var c := Child(n, Flip(d));
    var b := Child(c, d);
    n.node != c.node && n.node != b.node && c.node != b.node &&
    (p != [] ==> (PrefixValid(t, p); var pa := Sub(t, Parent(p)).node;
      pa != n.node && pa != c.node && pa != b.node))
  }

  /**
   * A rotation in progress: towards `d` at `p` in `t`, rewiring the node `x`,
   * its rising child `y`, the inner grandchild `z` and the parent `pa`.
   */
  datatype Rotation = Rotation(t: Tree<TreeNode>, p: Path, d: Dir, x: TreeNode, y: TreeNode, z: TreeNode, pa: TreeNode?)

  /**
   * A rotation whose writes made `x` take its inner grandchild `z`, made the
   * rising child `y` take `x` and the old parent `pa`, and made the parent's
   * link follow, changing no other field of these four nodes and no field of
   * any other node of the tree, leaves the tree linked and rotated.
   */
  twostate lemma Rotated(r: Rotation)
    requires Distinct(r.t) && Rotatable(r.t, r.p, r.d)
    requires var n := Sub(r.t, r.p); var c := Child(n, Flip(r.d));
      r.x == n.node && r.y == c.node && r.z == Child(c, r.d).node && r.pa == Above(r.t, r.p, null)
    requires old(allocated(KeptObjs(r.t, r.p, r.d)))
    requires old(Kept(r.t, r.p, r.d)) && old(Before(r.t, r.p, r.d)) && unchanged(KeptObjs(r.t, r.p, r.d))
    requires var x, y, z := r.x, r.y, r.z;
      x.parent == y && x.isLeaf == old(x.isLeaf) && x.color == old(x.color) && x.value == old(x.value) &&
      (if r.d == Left then x.rchild == z && x.lchild == old(x.lchild) else x.lchild == z && x.rchild == old(x.rchild)) &&
      y.parent == r.pa && y.isLeaf == old(y.isLeaf) && y.color == old(y.color) && y.value == old(y.value) &&
      (if r.d == Left then y.lchild == x && y.rchild == old(y.rchild) else y.rchild == x && y.lchild == old(y.lchild)) &&
      z.parent == x && z.lchild == old(z.lchild) && z.rchild == old(z.rchild) &&
      z.isLeaf == old(z.isLeaf) && z.color == old(z.color) && z.value == old(z.value)
    requires var pa := r.pa; pa != null ==>
      r.p != [] && pa.isLeaf == old(pa.isLeaf) && pa.color == old(pa.color) && pa.value == old(pa.value) &&
      pa.parent == old(pa.parent) &&
      (if Last(r.p) == Left then pa.lchild == r.y && pa.rchild == old(pa.rchild)
       else pa.rchild == r.y && pa.lchild == old(pa.lchild))
    ensures Linked(Replace(r.t, r.p, Rotate(Sub(r.t, r.p), r.d)))
  {
    var t, p, d := r.t, r.p, r.d;
    assert Kept(t, p, d);
    assert After(t, p, d);
    RotatePost(t, p, d);
  }

  /** What a rotation may rely on in a linked tree. */
  lemma RotatePre(t: Tree<TreeNode>, p: Path, d: Dir)
    requires Linked(t) && Rotatable(t, p, d)
    ensures Kept(t, p, d) && Before(t, p, d) && Moved(t, p, d) !! KeptObjs(t, p, d) && Apart(t, p, d)
    ensures IsLeftChild(Sub(t, p).node) <==> p != [] && Last(p) == Left
    ensures var n := Sub(t, p); var c := Child(n, Flip(d));
      Slot(n.node, Flip(d)) == c.node && Slot(c.node, d) == Child(c, d).node && n.node.parent == Above(t, p, null)
  {
    IsLeftChildAt(t, p);
    RotateKept(t, p, d);
    RotateBefore(t, p, d);
    RotateApart(t, p, d);
  }

  lemma RotateKept(t: Tree<TreeNode>, p: Path, d: Dir)
    requires Linked(t) && Rotatable(t, p, d)
    ensures Kept(t, p, d)
  {
    RotateLocal(t, p, d);
    if p != [] {
      RotateAbove(t, p, d);
    }
  }

  lemma RotateBefore(t: Tree<TreeNode>, p: Path, d: Dir)
    requires Linked(t) && Rotatable(t, p, d)
    ensures Before(t, p, d)
  {
    RotateLocal(t, p, d);
    if p != [] {
      RotateAbove(t, p, d);
    }
  }

  lemma RotateApart(t: Tree<TreeNode>, p: Path, d: Dir)
    requires Linked(t) && Rotatable(t, p, d)
    ensures Moved(t, p, d) !! KeptObjs(t, p, d) && Apart(t, p, d)
  {
    RotateLocal(t, p, d);
    if p != [] {
      RotateAbove(t, p, d);
    }
  }

  /** The rotated subtree's own part of `RotatePre`. */
  lemma RotateLocal(t: Tree<TreeNode>, p: Path, d: Dir)
    requires Linked(t) && Rotatable(t, p, d)
    ensures var n := Sub(t, p); var c := Child(n, Flip(d)); var b := Child(c, d);
      Matches(Child(n, d), n.node) && Matches(Child(c, Flip(d)), c.node) &&
      (b.Node? ==> Matches(b.left, b.node) && Matches(b.right, b.node)) &&
      Fields(n, Above(t, p, null)) && Fields(c, n.node) && Fields(b, c.node) &&
      n.node != c.node && n.node != b.node && c.node != b.node &&
      {n.node, c.node, b.node} !! LocalObjs(n, d) &&
      {n.node, c.node, b.node} <= Objs(n) && LocalObjs(n, d) <= Objs(n)
  {
    MatchesAt(t, p, null);
    DistinctSub(t, p);
    LocalLinks(Sub(t, p), d, Above(t, p, null));
    LocalApart(Sub(t, p), d);
  }

  /** Below a node whose fields match, the fields of the nodes a rotation rewires match too. */
  lemma LocalLinks(n: Tree<TreeNode>, d: Dir, up: TreeNode?)
    requires Matches(n, up) && n.Node? && Child(n, Flip(d)).Node?
    ensures var c := Child(n, Flip(d)); var b := Child(c, d);
      Matches(Child(n, d), n.node) && Matches(Child(c, Flip(d)), c.node) &&
      (b.Node? ==> Matches(b.left, b.node) && Matches(b.right, b.node)) &&
      Fields(n, up) && Fields(c, n.node) && Fields(b, c.node)
  {
    var c := Child(n, Flip(d));
    var b := Child(c, d);
    assert Matches(c, n.node) && Matches(Child(n, d), n.node);
    assert Matches(b, c.node) && Matches(Child(c, Flip(d)), c.node);
  }

  /** In a tree of distinct nodes, the nodes a rotation rewires are apart from the ones it carries along. */
  lemma LocalApart(n: Tree<TreeNode>, d: Dir)
    requires Distinct(n) && n.Node? && Child(n, Flip(d)).Node?
    ensures var c := Child(n, Flip(d)); var b := Child(c, d);
      n.node != c.node && n.node != b.node && c.node != b.node &&
      {n.node, c.node, b.node} !! LocalObjs(n, d) &&
      {n.node, c.node, b.node} <= Objs(n) && LocalObjs(n, d) <= Objs(n)
  {
    var c := Child(n, Flip(d));
    var b := Child(c, d);
    assert Objs(n) == {n.node} + Objs(Child(n, d)) + Objs(c);
    assert Objs(c) == {c.node} + Objs(b) + Objs(Child(c, Flip(d)));
    assert b.node in Objs(b);
    assert Distinct(c);
    if b.Node? {
      assert Distinct(b);
      assert Objs(b) == {b.node} + Objs(b.left) + Objs(b.right);
    }
  }

  /** The context's part of `RotatePre`, below a parent. */
  lemma RotateAbove(t: Tree<TreeNode>, p: Path, d: Dir)
    requires Linked(t) && Rotatable(t, p, d) && p != []
    ensures ValidPath(t, Parent(p)) && Sub(t, Parent(p)).Node?
    ensures var q := Parent(p); var s := Sub(t, q); var n := Sub(t, p); var sib := Child(s, Flip(Last(p)));
      Ctx(t, q, null, s.node) && Matches(sib, s.node) && LinksBut(s, Above(t, q, null), Last(p), n.node) &&
      s.node !in Objs(n) && s.node !in AboveObjs(t, p) && Objs(n) !! AboveObjs(t, p)
  {
    PathSplit(p);
    var q := Parent(p);
    MatchesAt(t, p, null);
    CtxStep(t, q, Last(p), null, Sub(t, p).node);
    ObjsReplace(t, q, t);
    DistinctSub(t, q);
    var s := Sub(t, q);
    PrefixValid(t, p);
    assert Objs(s) == {s.node} + Objs(s.left) + Objs(s.right);
    assert s.node in Objs(s);
    assert Distinct(s);
    assert s.node !in Objs(s.left) && s.node !in Objs(s.right) && Objs(s.left) !! Objs(s.right);
  }

  /** A rotation whose moved nodes hold the rotated fields leaves the tree linked. */
  lemma RotatePost(t: Tree<TreeNode>, p: Path, d: Dir)
    requires Distinct(t) && Rotatable(t, p, d) && Kept(t, p, d) && After(t, p, d)
    ensures Linked(Replace(t, p, Rotate(Sub(t, p), d)))
  {
    var n := Sub(t, p);
    var c := Child(n, Flip(d));
    var r := Rotate(n, d);
    var up := Above(t, p, null);
    assert r.node == c.node && Child(r, Flip(d)) == Child(c, Flip(d));
    assert Child(r, d) == WithChild(Recolor(n, n.color), Flip(d), Child(c, d));
    assert Matches(Child(c, d), n.node);
    assert Matches(Child(r, d), c.node);
    assert Matches(r, up);
    if p != [] {
      PathSplit(p);
      CtxStep(t, Parent(p), Last(p), null, r.node);
    }
    MatchesSplit(t, p, null, r);
    RotateSame(n, d);
    ReplaceSame(t, p, r);
  }

  /** The four nodes a rotation writes belong to the tree. */
  lemma RotateFrame(t: Tree<TreeNode>, p: Path, d: Dir)
    requires Linked(t) && Rotatable(t, p, d)
    ensures var n := Sub(t, p); var c := Child(n, Flip(d));
      n.node in Objs(t) && c.node in Objs(t) && Child(c, d).node in Objs(t) &&
      (Above(t, p, null) != null ==> Above(t, p, null) in Objs(t))
  {
    RotateLocal(t, p, d);
    ObjsReplace(t, p, Sub(t, p));
    NodeAt(t, p);
    if p != [] {
      ObjsReplace(t, Parent(p), Sub(t, Parent(p)));
      assert Sub(t, Parent(p)).node in Objs(Sub(t, Parent(p)));
    }
  }

  /**
   * leftRotate (rbtree.c:111-129): the right child `y` of `pnode` rises into
   * its place under the old parent, `pnode` becomes the left child of `y`,
   * and the inner grandchild moves across to be the right child of `pnode`.
   * No other field of these four nodes and no field of any other node is
   * written (`others` names the nodes the caller relies on).
   */
  method LeftRotate(pnode: TreeNode, ghost others: set<TreeNode>)
    requires pnode.rchild != null && pnode.rchild.lchild != null
    requires var y, z, pa := pnode.rchild, pnode.rchild.lchild, pnode.parent;
      pnode != y && pnode != z && y != z && pa != pnode && pa != y && pa != z &&
      pnode !in others && y !in others && z !in others && pa !in others
    modifies pnode, pnode.parent, pnode.rchild, pnode.rchild.lchild
    ensures unchanged(others)
    ensures var y, z, pa := old(pnode.rchild), old(pnode.rchild.lchild), old(pnode.parent);
      pnode.parent == y && pnode.rchild == z && pnode.lchild == old(pnode.lchild) &&
      pnode.isLeaf == old(pnode.isLeaf) && pnode.color == old(pnode.color) && pnode.value == old(pnode.value) &&
      y.parent == pa && y.lchild == pnode && y.rchild == old(y.rchild) &&
      y.isLeaf == old(y.isLeaf) && y.color == old(y.color) && y.value == old(y.value) &&
      z.parent == pnode && z.lchild == old(z.lchild) && z.rchild == old(z.rchild) &&
      z.isLeaf == old(z.isLeaf) && z.color == old(z.color) && z.value == old(z.value)
    ensures var y, pa := old(pnode.rchild), old(pnode.parent); pa != null ==>
      pa.isLeaf == old(pa.isLeaf) && pa.color == old(pa.color) && pa.value == old(pa.value) &&
      pa.parent == old(pa.parent) &&
      (if old(IsLeftChild(pnode)) then pa.lchild == y && pa.rchild == old(pa.rchild)
       else pa.rchild == y && pa.lchild == old(pa.lchild))
  {
    var pa := pnode.parent;
    var rchild := pnode.rchild;
    var rlchild := rchild.lchild;
    if pa != null {
      if IsLeftChild(pnode) {
        pa.lchild := rchild;
      } else {
        pa.rchild := rchild;
      }
    }
    rchild.parent := pa;
    pnode.rchild := rlchild;
    rlchild.parent := pnode;
    rchild.lchild := pnode;
    pnode.parent := rchild;
  }

  /** `LeftRotate` on the node at `p` of a linked tree leaves it linked and rotated. */
  method LeftRotateAt(pnode: TreeNode, ghost t: Tree<TreeNode>, ghost p: Path)
    requires Linked(t) && Rotatable(t, p, Left) && Sub(t, p).node == pnode
    modifies Objs(t)
    ensures Linked(Replace(t, p, RotateLeft(Sub(t, p))))
    ensures pnode.parent == Sub(t, p).right.node && pnode.color == old(pnode.color)
  {
    RotatePre(t, p, Left);
    RotateFrame(t, p, Left);
    ghost var c := Sub(t, p).right;
    ghost var pa := pnode.parent;
    label B:
    LeftRotate(pnode, KeptObjs(t, p, Left));
    Rotated@B(Rotation(t, p, Left, pnode, c.node, c.left.node, pa));
  }

  /**
   * rightRotate (rbtree.c:132-150), the mirror image of `LeftRotate`: the
   * left child `y` of `pnode` rises and the inner grandchild moves across to
   * be the left child of `pnode`.
   */
  method RightRotate(pnode: TreeNode, ghost others: set<TreeNode>)
    requires pnode.lchild != null && pnode.lchild.rchild != null
    requires var y, z, pa := pnode.lchild, pnode.lchild.rchild, pnode.parent;
      pnode != y && pnode != z && y != z && pa != pnode && pa != y && pa != z &&
      pnode !in others && y !in others && z !in others && pa !in others
    modifies pnode, pnode.parent, pnode.lchild, pnode.lchild.rchild
    ensures unchanged(others)
    ensures var y, z, pa := old(pnode.lchild), old(pnode.lchild.rchild), old(pnode.parent);
      pnode.parent == y && pnode.lchild == z && pnode.rchild == old(pnode.rchild) &&
      pnode.isLeaf == old(pnode.isLeaf) && pnode.color == old(pnode.color) && pnode.value == old(pnode.value) &&
      y.parent == pa && y.rchild == pnode && y.lchild == old(y.lchild) &&
      y.isLeaf == old(y.isLeaf) && y.color == old(y.color) && y.value == old(y.value) &&
      z.parent == pnode && z.lchild == old(z.lchild) && z.rchild == old(z.rchild) &&
      z.isLeaf == old(z.isLeaf) && z.color == old(z.color) && z.value == old(z.value)
    ensures var y, pa := old(pnode.lchild), old(pnode.parent); pa != null ==>
      pa.isLeaf == old(pa.isLeaf) && pa.color == old(pa.color) && pa.value == old(pa.value) &&
      pa.parent == old(pa.parent) &&
      (if old(IsLeftChild(pnode)) then pa.lchild == y && pa.rchild == old(pa.rchild)
       else pa.rchild == y && pa.lchild == old(pa.lchild))
  {
    var pa := pnode.parent;
    var lchild := pnode.lchild;
    var lrchild := lchild.rchild;
    if pa != null {
      if IsLeftChild(pnode) {
        pa.lchild := lchild;
      } else {
        pa.rchild := lchild;
      }
    }
    lchild.parent := pa;
    pnode.lchild := lrchild;
    lrchild.parent := pnode;
    lchild.rchild := pnode;
    pnode.parent := lchild;
  }

  /** `RightRotate` on the node at `p` of a linked tree leaves it linked and rotated. */
  method RightRotateAt(pnode: TreeNode, ghost t: Tree<TreeNode>, ghost p: Path)
    requires Linked(t) && Rotatable(t, p, Right) && Sub(t, p).node == pnode
    modifies Objs(t)
    ensures Linked(Replace(t, p, RotateRight(Sub(t, p))))
    ensures pnode.parent == Sub(t, p).left.node && pnode.color == old(pnode.color)
  {
    RotatePre(t, p, Right);
    RotateFrame(t, p, Right);
    ghost var c := Sub(t, p).left;
    ghost var pa := pnode.parent;
    label B:
    RightRotate(pnode, KeptObjs(t, p, Right));
    Rotated@B(Rotation(t, p, Right, pnode, c.node, c.right.node, pa));
  }

  // ---------------------------------------------------------------------
  // Writes to one node: colour, key, changeToLeaf and addLeafChildren

  /** What a write to the node at `p` may rely on in a linked tree: the rest of the tree matches without it. */
  lemma RewritePre(t: Tree<TreeNode>, p: Path)
    requires Linked(t) && ValidPath(t, p)
    ensures var n := Sub(t, p);
      Ctx(t, p, null, n.node) && n.node !in CtxObjs(t, p) && Fields(n, Above(t, p, null)) &&
      Objs(t) == CtxObjs(t, p) + Objs(n) &&
      (n.Node? ==>
         Matches(n.left, n.node) && Matches(n.right, n.node) &&
         n.node !in Objs(n.left) && n.node !in Objs(n.right))
  {
    var n := Sub(t, p);
    MatchesAt(t, p, null);
    ObjsReplace(t, p, n);
    assert n.node in Objs(n);
    if n.Node? {
      assert Distinct(n);
    }
  }

  /** A write in progress: the node at `p` of `t` takes the fields of the top of `s`. */
  datatype Rewrite = Rewrite(t: Tree<TreeNode>, p: Path, s: Tree<TreeNode>)

  /**
   * Writes that leave the node at `p` holding the fields of the top of `s`,
   * where `s` is that node over the same children or that node as a leaf
   * node, and that change no field of any other node of the tree, leave the
   * tree with `s` at `p` linked.
   */
  twostate lemma Rewritten(r: Rewrite)
    requires Distinct(r.t) && ValidPath(r.t, r.p)
    requires var n, s := Sub(r.t, r.p), r.s;
      s.node == n.node && (s.Node? ==> n.Node? && s.left == n.left && s.right == n.right)
    requires var n := Sub(r.t, r.p);
      old(allocated(Objs(r.t))) && old(Ctx(r.t, r.p, null, n.node)) && n.node !in CtxObjs(r.t, r.p) &&
      (n.Node? ==>
         old(Matches(n.left, n.node)) && old(Matches(n.right, n.node)) &&
         n.node !in Objs(n.left) && n.node !in Objs(n.right))
    requires unchanged(Objs(r.t) - {Sub(r.t, r.p).node})
    requires Objs(r.t) == CtxObjs(r.t, r.p) + Objs(Sub(r.t, r.p))
    requires Fields(r.s, Above(r.t, r.p, null))
    ensures Linked(Replace(r.t, r.p, r.s))
  {
    var t, p, s := r.t, r.p, r.s;
    var n := Sub(t, p);
    assert Ctx(t, p, null, n.node);
    if s.Node? {
      assert Matches(n.left, n.node) && Matches(n.right, n.node);
      assert Matches(s, Above(t, p, null));
      assert Objs(s) == Objs(n) && Distinct(s) == Distinct(n);
    }
    MatchesSplit(t, p, null, s);
    ObjsReplace(t, p, s);
    DistinctSub(t, p);
  }

  /** The colour write `x->color = c` on the inner node `x` at `p`. */
  method Paint(x: TreeNode, c: Color, ghost t: Tree<TreeNode>, ghost p: Path)
    requires Linked(t) && ValidPath(t, p) && Sub(t, p).Node? && Sub(t, p).node == x
    modifies x
    ensures Linked(Replace(t, p, Recolor(Sub(t, p), c)))
    ensures x.parent == old(x.parent) && x.lchild == old(x.lchild) && x.rchild == old(x.rchild) && x.color == c
  {
    RewritePre(t, p);
    DistinctSub(t, p);
    label B:
    x.color := c;
    Rewritten@B(Rewrite(t, p, Recolor(Sub(t, p), c)));
  }

  /** The key write `x->value = k` on the inner node `x` at `p`. */
  method Rekey(x: TreeNode, k: int, ghost t: Tree<TreeNode>, ghost p: Path)
    requires Linked(t) && ValidPath(t, p) && Sub(t, p).Node? && Sub(t, p).node == x
    modifies x
    ensures Linked(Replace(t, p, Sub(t, p).(key := k)))
  {
    RewritePre(t, p);
    label B:
    x.value := k;
    Rewritten@B(Rewrite(t, p, Sub(t, p).(key := k)));
  }

  /**
   * changeToLeaf (rbtree.c:56-63): the node drops its children and becomes
   * a BLACK leaf node; nothing else is written. The two children are
   * released in rbtree.c; here they are only no longer reachable.
   */
  method ChangeToLeaf(pnode: TreeNode)
    modifies pnode
    ensures pnode.lchild == null && pnode.rchild == null && pnode.color == Black && pnode.isLeaf
    ensures pnode.parent == old(pnode.parent) && pnode.value == old(pnode.value)
  {
    pnode.lchild, pnode.rchild := null, null;
    pnode.color := Black;
    pnode.isLeaf := true;
  }

  /** `ChangeToLeaf` on the node at `p` of a linked tree leaves a leaf node there. */
  method ChangeToLeafAt(pnode: TreeNode, ghost t: Tree<TreeNode>, ghost p: Path)
    requires Linked(t) && ValidPath(t, p) && Sub(t, p).node == pnode
    modifies pnode
    ensures Linked(Replace(t, p, Leaf(pnode)))
  {
    RewritePre(t, p);
    label B:
    ChangeToLeaf(pnode);
    Rewritten@B(Rewrite(t, p, Leaf(pnode)));
  }

  /**
   * addLeafChildren (rbtree.c:44-54): two new leaf nodes become the
   * children of `pnode`; no other field of `pnode` is written.
   */
  method AddLeafChildren(pnode: TreeNode)
    modifies pnode
    ensures var a, b := pnode.lchild, pnode.rchild;
      a != null && b != null && fresh(a) && fresh(b) && a != b &&
      a.isLeaf && a.color == Black && a.parent == pnode && a.lchild == null && a.rchild == null &&
      b.isLeaf && b.color == Black && b.parent == pnode && b.lchild == null && b.rchild == null
    ensures pnode.parent == old(pnode.parent) && pnode.color == old(pnode.color) &&
      pnode.value == old(pnode.value) && pnode.isLeaf == old(pnode.isLeaf)
  {
    var lleaf := new TreeNode.Leaf();
    var rleaf := new TreeNode.Leaf();
    pnode.lchild := lleaf;
    lleaf.parent := pnode;
    pnode.rchild := rleaf;
    rleaf.parent := pnode;
  }

  /**
   * Writes that turn the leaf node at `p` into an inner node over two new
   * leaf nodes, changing no field of any other node of the tree, leave the
   * tree with that subtree at `p` linked.
   */
  twostate lemma Grew(r: Rewrite)
    requires Distinct(r.t) && ValidPath(r.t, r.p) && Sub(r.t, r.p).Leaf?
    requires var x, s := Sub(r.t, r.p).node, r.s;
      s.Node? && s.node == x && s.left.Leaf? && s.right.Leaf? && s.left.node != s.right.node &&
      s.left.node !in Objs(r.t) && s.right.node !in Objs(r.t)
    requires Objs(r.t) == CtxObjs(r.t, r.p) + {Sub(r.t, r.p).node}
    requires var x := Sub(r.t, r.p).node;
      old(allocated(Objs(r.t))) && old(Ctx(r.t, r.p, null, x)) && x !in CtxObjs(r.t, r.p)
    requires unchanged(Objs(r.t) - {Sub(r.t, r.p).node})
    requires Fields(r.s, Above(r.t, r.p, null)) && Fields(r.s.left, r.s.node) && Fields(r.s.right, r.s.node)
    ensures Linked(Replace(r.t, r.p, r.s))
  {
    var t, p, s := r.t, r.p, r.s;
    assert Ctx(t, p, null, s.node);
    assert Matches(s.left, s.node) && Matches(s.right, s.node);
    assert Matches(s, Above(t, p, null));
    MatchesSplit(t, p, null, s);
    ObjsReplace(t, p, s);
    DistinctSub(t, p);
    assert s.node in Objs(t);
    assert Objs(s.left) == {s.left.node} && Objs(s.right) == {s.right.node};
    assert Objs(s) == {s.node, s.left.node, s.right.node};
    assert Distinct(s.left) && Distinct(s.right);
    assert Distinct(s);
    assert CtxObjs(t, p) !! Objs(s);
  }

  /**
   * The writes of insertElement at the leaf node `pcur` at `p` where the
   * search ended (rbtree.c:222-225): it turns RED, holds `k` and gets two
   * new leaf nodes `a` and `b` as children.
   */
  method GrowAt(pcur: TreeNode, k: int, ghost t: Tree<TreeNode>, ghost p: Path)
    returns (ghost t': Tree<TreeNode>, ghost a: TreeNode, ghost b: TreeNode)
    requires Linked(t) && ValidPath(t, p) && Sub(t, p).Leaf? && Sub(t, p).node == pcur
    modifies pcur
    ensures fresh(a) && fresh(b) && a != b
    ensures t' == Replace(t, p, InsertSpec.Grow(pcur, k, a, b)) && Linked(t')
  {
    RewritePre(t, p);
    pcur.color := Red;
    pcur.isLeaf := false;
    pcur.value := k;
    AddLeafChildren(pcur);
    a, b := pcur.lchild, pcur.rchild;
    label B:
    assert old(allocated(Objs(t)));
    assert a !in Objs(t) && b !in Objs(t);
    Grew@B(Rewrite(t, p, InsertSpec.Grow(pcur, k, a, b)));
    t' := Replace(t, p, InsertSpec.Grow(pcur, k, a, b));
  }
}
