/**
 * The tree object of rbtree.h:15-19 and the procedures of rbtree.c that
 * work on it: newRBTree, insertElement with insertFixup, and removeElement
 * with removeFixup. Each procedure changes the fields of the nodes in place
 * and is proved against the function of InsertSpec or RemoveSpec that
 * describes it on tree values; the ghost field `T` is the tree the fields
 * spell out.
 */
module Operations {
  import opened RedBlack
  import opened Nodes
  import InsertSpec
  import RemoveSpec
  import opened Removal

  // ---------------------------------------------------------------------
  // The cases of insertFixup as sequences of writes

  /** The node at `p` and the nodes around it where insertFixup looks. */
  lemma GrandAt(t: Tree<TreeNode>, q: Path)
    requires Linked(t) && ValidPath(t, q) && |q| >= 2
    ensures ValidPath(t, Parent(q)) && ValidPath(t, Parent(Parent(q))) && Sub(t, Parent(Parent(q))).Node?
    ensures var pp := Parent(q); var g := Parent(pp); var x := Sub(t, q).node;
      var u := g + [Flip(Last(pp))];
      Parent(q) == g + [Last(pp)] && ValidPath(t, u) && Sub(t, u) == Child(Sub(t, g), Flip(Last(pp))) &&
      x.parent == Sub(t, pp).node && x.parent.color == ColorOf(Sub(t, pp)) &&
      x.parent.parent == Sub(t, g).node && x.parent.parent in Objs(t) && x.parent in Objs(t) &&
      GetUncle(x) == Sub(t, u).node && GetUncle(x) in Objs(t) && GetUncle(x).color == ColorOf(Sub(t, u)) &&
      (IsLeftChild(x) <==> Last(q) == Left) && (IsLeftChild(x.parent) <==> Last(pp) == Left)
  {
    var pp := Parent(q);
    PrefixValid(t, q);
    PrefixValid(t, pp);
    PathSplit(pp);
    var g := Parent(pp);
    NodeAt(t, q);
    NodeAt(t, pp);
    UncleAt(t, q);
    SubStep(t, g, Flip(Last(pp)));
    NodeAt(t, g + [Flip(Last(pp))]);
    IsLeftChildAt(t, q);
    IsLeftChildAt(t, pp);
  }

  /** Cases 1 and 2 of insertFixup and the loop's own exit end `InsertSpec.InsertFixup`. */
  lemma FixupStops<N>(t: Tree<N>, q: Path)
    ensures ValidPath(t, q) && ColorOf(Sub(t, q)) != Red ==> InsertSpec.InsertFixup(t, q) == t
    ensures ValidPath(t, q) && ColorOf(Sub(t, q)) == Red && q == [] ==> InsertSpec.InsertFixup(t, q) == Recolor(t, Black)
    ensures ValidPath(t, q) && ColorOf(Sub(t, q)) == Red && q != [] && ValidPath(t, Parent(q)) &&
            ColorOf(Sub(t, Parent(q))) == Black ==>
              InsertSpec.InsertFixup(t, q) == t
  {
  }

  /**
   * Case 3.1 of insertFixup (rbtree.c:177-182) is one iteration of
   * `InsertSpec.InsertFixup`: the uncle and the parent turn BLACK, then the
   * grandparent RED, and the loop goes on at the grandparent.
   */
  lemma RecolorWrites<N>(t: Tree<N>, q: Path)
    requires ValidPath(t, q) && |q| >= 2 && (q != [] ==> ColorOf(t) == Black)
    requires ColorOf(Sub(t, q)) == Red
    requires ValidPath(t, Parent(q)) && ColorOf(Sub(t, Parent(q))) == Red
    requires ValidPath(t, Parent(Parent(q))) && Sub(t, Parent(Parent(q))).Node?
    requires ColorOf(Child(Sub(t, Parent(Parent(q))), Flip(Last(Parent(q))))) == Red
    ensures var pp := Parent(q); var g, dp := Parent(pp), Last(pp); var u := g + [Flip(dp)];
      ValidPath(t, u) && Sub(t, u).Node? &&
      var t1 := Replace(t, u, Recolor(Sub(t, u), Black));
      ValidPath(t1, pp) && Sub(t1, pp).Node? && Sub(t1, pp).node == Sub(t, pp).node &&
      var t2 := Replace(t1, pp, Recolor(Sub(t1, pp), Black));
      ValidPath(t2, g) && Sub(t2, g).Node? && Sub(t2, g).node == Sub(t, g).node &&
      Replace(t2, g, Recolor(Sub(t2, g), Red)) == Replace(t, g, InsertSpec.RecolorUp(Sub(t, g)))
  {
    var pp := Parent(q);
    PrefixValid(t, q);
    PrefixValid(t, pp);
    PathSplit(pp);
    var g, dp := Parent(pp), Last(pp);
    var gs := Sub(t, g);
    var u := g + [Flip(dp)];
    var g1 := WithChild(gs, Flip(dp), Recolor(Child(gs, Flip(dp)), Black));
    ReplaceChild(t, g, Flip(dp), Recolor(Child(gs, Flip(dp)), Black));
    var t1 := Replace(t, u, Recolor(Sub(t, u), Black));
    assert t1 == Replace(t, g, g1);
    ReplaceSub(t, g, g1);
    ReplaceChild(t1, g, dp, Recolor(Child(gs, dp), Black));
    var g2 := WithChild(g1, dp, Recolor(Child(gs, dp), Black));
    ReplaceReplace(t, g, g1, g2);
    var t2 := Replace(t1, pp, Recolor(Sub(t1, pp), Black));
    assert t2 == Replace(t, g, g2);
    ReplaceSub(t, g, g2);
    ReplaceReplace(t, g, g2, Recolor(g2, Red));
    assert Recolor(g2, Red) == InsertSpec.RecolorUp(gs);
  }

  /** Case 3.1 of insertFixup is one iteration of `InsertSpec.InsertFixup`, going on at the grandparent. */
  lemma RecolorStep<N>(t: Tree<N>, q: Path)
    requires ValidPath(t, q) && |q| >= 2 && (q != [] ==> ColorOf(t) == Black)
    requires ColorOf(Sub(t, q)) == Red
    requires ValidPath(t, Parent(q)) && ColorOf(Sub(t, Parent(q))) == Red
    requires ValidPath(t, Parent(Parent(q))) && Sub(t, Parent(Parent(q))).Node?
    requires ColorOf(Child(Sub(t, Parent(Parent(q))), Flip(Last(Parent(q))))) == Red
    ensures var g := Parent(Parent(q)); var t' := Replace(t, g, InsertSpec.RecolorUp(Sub(t, g)));
      ValidPath(t', g) && Sub(t', g).node == Sub(t, g).node && ColorOf(Sub(t', g)) == Red &&
      InsertSpec.InsertFixup(t, q) == InsertSpec.InsertFixup(t', g) &&
      InsertSpec.Measure(g) < InsertSpec.Measure(q) && Objs(t') == Objs(t) &&
      (g != [] ==> ColorOf(t') == Black)
  {
    var g := Parent(Parent(q));
    var gs := Sub(t, g);
    PrefixValid(t, q);
    PrefixValid(t, Parent(q));
    InsertSpec.InsertStepSame(t, q);
    ReplaceSub(t, g, InsertSpec.RecolorUp(gs));
    if g != [] {
      ReplaceTop(t, g, InsertSpec.RecolorUp(gs));
    }
  }

  /**
   * Case 3.2 of insertFixup (rbtree.c:186-194) ends `InsertSpec.InsertFixup`:
   * the grandparent turns RED, the parent BLACK, and the grandparent is
   * rotated away from the side of `pcur`; the parent takes the
   * grandparent's place, so it is the new root when the grandparent was.
   */
  lemma LineWrites<N>(t: Tree<N>, q: Path)
    requires ValidPath(t, q) && |q| >= 2 && (q != [] ==> ColorOf(t) == Black)
    requires ColorOf(Sub(t, q)) == Red
    requires ValidPath(t, Parent(q)) && ColorOf(Sub(t, Parent(q))) == Red && Last(q) == Last(Parent(q))
    requires ValidPath(t, Parent(Parent(q))) && Sub(t, Parent(Parent(q))).Node?
    requires ColorOf(Child(Sub(t, Parent(Parent(q))), Flip(Last(Parent(q))))) != Red
    ensures var pp := Parent(q); var g, d := Parent(pp), Last(q); var gs := Sub(t, g);
      var t1 := Replace(t, g, Recolor(gs, Red));
      ValidPath(t1, pp) && Sub(t1, pp).Node? && Sub(t1, pp).node == Sub(t, pp).node &&
      var t2 := Replace(t1, pp, Recolor(Sub(t1, pp), Black));
      ValidPath(t2, g) && Sub(t2, g).Node? && Child(Sub(t2, g), d).Node? && Sub(t2, g).node == gs.node &&
      Child(Sub(t2, g), d).node == Sub(t, pp).node && Objs(t2) == Objs(t) &&
      Replace(t2, g, Rotate(Sub(t2, g), Flip(d))) == Replace(t, g, InsertSpec.LineRotate(gs, d))
  {
    var pp := Parent(q);
    PrefixValid(t, q);
    PrefixValid(t, pp);
    PathSplit(pp);
    var g, d := Parent(pp), Last(q);
    var gs := Sub(t, g);
    var g1 := Recolor(gs, Red);
    ReplaceSub(t, g, g1);
    var t1 := Replace(t, g, g1);
    ReplaceChild(t1, g, d, Recolor(Child(gs, d), Black));
    var g2 := WithChild(g1, d, Recolor(Child(gs, d), Black));
    ReplaceReplace(t, g, g1, g2);
    ReplaceSub(t, g, g2);
    ReplaceReplace(t, g, g2, Rotate(g2, Flip(d)));
    assert Rotate(g2, Flip(d)) == InsertSpec.LineRotate(gs, d);
    RecolorSame(gs, Red);
    RecolorSame(Child(gs, d), Black);
    WithChildSame(g1, d, Recolor(Child(gs, d), Black));
    ReplaceSame(t, g, g1);
    SameTrans(gs, g1, g2);
    ReplaceSame(t, g, g2);
  }

  /** Case 3.2 of insertFixup ends `InsertSpec.InsertFixup`; the parent takes the grandparent's place. */
  lemma LineStep<N>(t: Tree<N>, q: Path)
    requires ValidPath(t, q) && |q| >= 2 && (q != [] ==> ColorOf(t) == Black)
    requires ColorOf(Sub(t, q)) == Red
    requires ValidPath(t, Parent(q)) && ColorOf(Sub(t, Parent(q))) == Red && Last(q) == Last(Parent(q))
    requires ValidPath(t, Parent(Parent(q))) && Sub(t, Parent(Parent(q))).Node?
    requires ColorOf(Child(Sub(t, Parent(Parent(q))), Flip(Last(Parent(q))))) != Red
    ensures var g, d := Parent(Parent(q)), Last(q); var t' := Replace(t, g, InsertSpec.LineRotate(Sub(t, g), d));
      InsertSpec.InsertFixup(t, q) == t' &&
      (g == [] ==> t'.node == Sub(t, Parent(q)).node) && (g != [] ==> t'.node == t.node)
  {
    var pp := Parent(q);
    PrefixValid(t, q);
    PrefixValid(t, pp);
    PathSplit(pp);
    var g, d := Parent(pp), Last(q);
    var gs := Sub(t, g);
    if g != [] {
      ReplaceTop(t, g, InsertSpec.LineRotate(gs, d));
    }
  }

  /**
   * Case 3.3 of insertFixup (rbtree.c:198-203) is one iteration of
   * `InsertSpec.InsertFixup`: the parent is rotated away from the side of
   * `pcur` and the loop goes on at the old parent, now on the parent's old
   * side.
   */
  lemma ZigZagWrites<N>(t: Tree<N>, q: Path)
    requires ValidPath(t, q) && |q| >= 2 && (q != [] ==> ColorOf(t) == Black)
    requires ColorOf(Sub(t, q)) == Red
    requires ValidPath(t, Parent(q)) && ColorOf(Sub(t, Parent(q))) == Red && Last(q) != Last(Parent(q))
    requires ValidPath(t, Parent(Parent(q))) && Sub(t, Parent(Parent(q))).Node?
    requires ColorOf(Child(Sub(t, Parent(Parent(q))), Flip(Last(Parent(q))))) != Red
    ensures var pp, d := Parent(q), Last(q); var dp := Last(pp);
      var t' := Replace(t, pp, Rotate(Sub(t, pp), Flip(d)));
      Sub(t, pp).Node? && Child(Sub(t, pp), d).Node? && ValidPath(t', pp + [dp]) &&
      Sub(t', pp + [dp]).node == Sub(t, pp).node && ColorOf(Sub(t', pp + [dp])) == Red &&
      InsertSpec.InsertFixup(t, q) == InsertSpec.InsertFixup(t', pp + [dp]) &&
      InsertSpec.Measure(pp + [dp]) < InsertSpec.Measure(q) && Objs(t') == Objs(t) &&
      ColorOf(t') == Black && t'.node == t.node
  {
    var pp, d := Parent(q), Last(q);
    var dp := Last(pp);
    PrefixValid(t, q);
    PrefixValid(t, pp);
    var ps := Sub(t, pp);
    var r := Rotate(ps, Flip(d));
    var t' := Replace(t, pp, r);
    ReplaceSub(t, pp, r);
    SubStep(t', pp, dp);
    assert Child(r, dp).node == ps.node;
    InsertSpec.InsertStepSame(t, q);
    ReplaceTop(t, pp, r);
  }

  /** In a linked tree only the root path reaches the root node. */
  lemma AtRoot(t: Tree<TreeNode>, p: Path)
    requires Linked(t) && ValidPath(t, p)
    ensures Sub(t, p).node == t.node <==> p == []
  {
    NodeAt(t, p);
    NodeAt(t, []);
  }

  /** What the first two tests of an iteration of insertFixup read, in terms of the tree. */
  lemma FixupLook(t: Tree<TreeNode>, q: Path)
    requires Linked(t) && ValidPath(t, q) && (q != [] ==> ColorOf(t) == Black)
    ensures var x := Sub(t, q).node;
      (x == t.node <==> q == []) &&
      (q != [] ==>
         ValidPath(t, Parent(q)) && x.parent == Sub(t, Parent(q)).node &&
         x.parent.color == ColorOf(Sub(t, Parent(q))) &&
         (ColorOf(Sub(t, Parent(q))) == Red ==> |q| >= 2))
  {
    NodeAt(t, q);
    AtRoot(t, q);
    if q != [] {
      NodeAt(t, Parent(q));
    }
  }

  /** The write of case 1 (rbtree.c:159-163): the RED root turns BLACK, which ends insertFixup. */
  method RootCase(pcur: TreeNode, ghost t: Tree<TreeNode>) returns (ghost t': Tree<TreeNode>)
    requires Linked(t) && t.node == pcur && ColorOf(t) == Red
    modifies pcur
    ensures Linked(t') && t' == InsertSpec.InsertFixup(t, []) && t'.node == t.node
  {
    Paint(pcur, Black, t, []);
    t' := Recolor(t, Black);
  }

  /**
   * The writes of case 3.1 (rbtree.c:179-181): parent and uncle BLACK,
   * grandparent RED. `t'` is the tree they leave and `q'` the path of the
   * grandparent, where the loop goes on.
   */
  method RecolorCase(pcur: TreeNode, puncle: TreeNode, grandpa: TreeNode, ghost t: Tree<TreeNode>, ghost q: Path)
    returns (ghost t': Tree<TreeNode>, ghost q': Path)
    requires Linked(t) && ValidPath(t, q) && |q| >= 2 && (q != [] ==> ColorOf(t) == Black)
    requires ColorOf(Sub(t, q)) == Red
    requires ValidPath(t, Parent(q)) && ColorOf(Sub(t, Parent(q))) == Red
    requires ValidPath(t, Parent(Parent(q))) && Sub(t, Parent(Parent(q))).Node?
    requires ColorOf(Child(Sub(t, Parent(Parent(q))), Flip(Last(Parent(q))))) == Red
    requires pcur == Sub(t, q).node && grandpa == Sub(t, Parent(Parent(q))).node
    requires puncle == Child(Sub(t, Parent(Parent(q))), Flip(Last(Parent(q)))).node
    modifies Objs(t)
    ensures Linked(t') && t'.node == t.node && Objs(t') == Objs(t) && (q' != [] ==> ColorOf(t') == Black)
    ensures ValidPath(t', q') && Sub(t', q').node == grandpa && grandpa.color == ColorOf(Sub(t', q'))
    ensures InsertSpec.InsertFixup(t', q') == InsertSpec.InsertFixup(t, q)
    ensures InsertSpec.Measure(q') < InsertSpec.Measure(q)
  {
    RecolorWrites(t, q);
    RecolorStep(t, q);
    GrandAt(t, q);
    ghost var pp := Parent(q);
    ghost var g, dp := Parent(pp), Last(pp);
    ghost var u := g + [Flip(dp)];
    Paint(puncle, Black, t, u);
    ghost var t1 := Replace(t, u, Recolor(Sub(t, u), Black));
    Paint(pcur.parent, Black, t1, pp);
    ghost var t2 := Replace(t1, pp, Recolor(Sub(t1, pp), Black));
    Paint(grandpa, Red, t2, g);
    t', q' := Replace(t, g, InsertSpec.RecolorUp(Sub(t, g))), g;
  }

  /**
   * The writes of case 3.2 (rbtree.c:188-190): grandparent RED, parent
   * BLACK, and the grandparent rotated away from the side of `pcur`, which
   * leaves the parent above it; `t'` is the tree insertFixup ends with.
   */
  method LineCase(pcur: TreeNode, grandpa: TreeNode, ghost t: Tree<TreeNode>, ghost q: Path)
    returns (ghost t': Tree<TreeNode>)
    requires Linked(t) && ValidPath(t, q) && |q| >= 2 && (q != [] ==> ColorOf(t) == Black)
    requires ColorOf(Sub(t, q)) == Red
    requires ValidPath(t, Parent(q)) && ColorOf(Sub(t, Parent(q))) == Red && Last(q) == Last(Parent(q))
    requires ValidPath(t, Parent(Parent(q))) && Sub(t, Parent(Parent(q))).Node?
    requires ColorOf(Child(Sub(t, Parent(Parent(q))), Flip(Last(Parent(q))))) != Red
    requires pcur == Sub(t, q).node && grandpa == Sub(t, Parent(Parent(q))).node
    modifies Objs(t)
    ensures Linked(t') && t' == InsertSpec.InsertFixup(t, q)
    ensures grandpa.parent == Sub(t, Parent(q)).node
    ensures Parent(Parent(q)) == [] ==> t'.node == Sub(t, Parent(q)).node
    ensures Parent(Parent(q)) != [] ==> t'.node == t.node
  {
    LineWrites(t, q);
    LineStep(t, q);
    GrandAt(t, q);
    ghost var pp := Parent(q);
    ghost var g := Parent(pp);
    Paint(grandpa, Red, t, g);
    ghost var t1 := Replace(t, g, Recolor(Sub(t, g), Red));
    Paint(pcur.parent, Black, t1, pp);
    ghost var t2 := Replace(t1, pp, Recolor(Sub(t1, pp), Black));
    if IsLeftChild(pcur) {
      RightRotateAt(grandpa, t2, g);
    } else {
      LeftRotateAt(grandpa, t2, g);
    }
    t' := Replace(t, g, InsertSpec.LineRotate(Sub(t, g), Last(q)));
  }

  /**
   * The write of case 3.3 (rbtree.c:201): the parent `pa` rotated away from
   * the side of `pcur`; the loop goes on at `pa`, found at `q'` in `t'`.
   */
  method ZigZagCase(pcur: TreeNode, pa: TreeNode, ghost t: Tree<TreeNode>, ghost q: Path)
    returns (ghost t': Tree<TreeNode>, ghost q': Path)
    requires Linked(t) && ValidPath(t, q) && |q| >= 2 && (q != [] ==> ColorOf(t) == Black)
    requires ColorOf(Sub(t, q)) == Red
    requires ValidPath(t, Parent(q)) && ColorOf(Sub(t, Parent(q))) == Red && Last(q) != Last(Parent(q))
    requires ValidPath(t, Parent(Parent(q))) && Sub(t, Parent(Parent(q))).Node?
    requires ColorOf(Child(Sub(t, Parent(Parent(q))), Flip(Last(Parent(q))))) != Red
    requires pcur == Sub(t, q).node && pa == Sub(t, Parent(q)).node && pa.color == Red
    modifies Objs(t)
    ensures Linked(t') && t'.node == t.node && Objs(t') == Objs(t) && (q' != [] ==> ColorOf(t') == Black)
    ensures ValidPath(t', q') && Sub(t', q').node == pa && pa.color == ColorOf(Sub(t', q'))
    ensures InsertSpec.InsertFixup(t', q') == InsertSpec.InsertFixup(t, q)
    ensures InsertSpec.Measure(q') < InsertSpec.Measure(q)
  {
    ZigZagWrites(t, q);
    IsLeftChildAt(t, q);
    ghost var pp, d := Parent(q), Last(q);
    if IsLeftChild(pcur) {
      RightRotateAt(pa, t, pp);
    } else {
      LeftRotateAt(pa, t, pp);
    }
    t', q' := Replace(t, pp, Rotate(Sub(t, pp), Flip(d))), pp + [Last(pp)];
  }

  // ---------------------------------------------------------------------
  // The search of insertElement and removeElement

  /** One step of the search past the inner node at `q`, whose key is not `k`, on side `d`. */
  lemma SearchStep(t: Tree<TreeNode>, q: Path, k: int, d: Dir)
    requires Linked(t) && ValidPath(t, q) && !Sub(t, q).node.isLeaf && Sub(t, q).node.value != k
    requires d == if k > Sub(t, q).node.value then Right else Left
    requires Descend(t, k) == q + Descend(Sub(t, q), k)
    ensures ValidPath(t, q + [d]) && Sub(t, q + [d]).node == Slot(Sub(t, q).node, d)
    ensures Sub(t, q + [d]) < Sub(t, q)
    ensures Descend(t, k) == (q + [d]) + Descend(Sub(t, q + [d]), k)
  {
    NodeAt(t, q);
    InnerAt(t, q);
    DescendNode(Sub(t, q), k, d);
    PathShift(q, d, Descend(Sub(t, q + [d]), k));
  }

  /** Where the search stops: at the node holding `k`, or at a leaf node exactly when `k` is absent. */
  lemma SearchEnd(t: Tree<TreeNode>, q: Path, k: int)
    requires Linked(t) && Ordered(t) && ValidPath(t, q)
    requires Sub(t, q).node.isLeaf || Sub(t, q).node.value == k
    requires Descend(t, k) == q + Descend(Sub(t, q), k)
    ensures q == Descend(t, k)
    ensures Sub(t, q).node.isLeaf <==> k !in Keys(t)
    ensures !Sub(t, q).node.isLeaf ==> Sub(t, q).node.value == k
  {
    NodeAt(t, q);
    if Sub(t, q).Node? {
      InnerAt(t, q);
    }
    assert q + [] == q;
    DescendFinds(t, k);
  }

  // ---------------------------------------------------------------------
  // The tree object

  /** struct RBTree (rbtree.h:15-19): the root node and the number of keys. */
  class RBTree {
    var proot: TreeNode?
    var size: nat
    /** The tree the fields of the nodes spell out while `proot` is not NULL. */
    ghost var T: Tree<TreeNode>

    /** A red-black tree on linked nodes whose root is `proot` and which holds `size` keys. */
    ghost predicate Valid()
      reads this, Objs(T)
    {
      (proot == null ==> size == 0) &&
      (proot != null ==> proot == T.node && Linked(T) && IsRB(T) && size == |InOrder(T)|)
    }

    /** The keys the tree holds. */
    ghost function Elements(): set<int>
      reads this
    {
      if proot == null then {} else Keys(T)
    }

    /** newRBTree (rbtree.c:17-30): one BLACK leaf node as the root and no keys. */
    constructor ()
      ensures Valid() && proot != null && fresh(proot) && T.Leaf? && T.node == proot && size == 0
      ensures Elements() == {}
    {
      var root := new TreeNode.Leaf();
      proot := root;
      size := 0;
      T := Leaf(root);
    }

    /** Case 3.2 of insertFixup: the rotation at the grandparent, and the new root when the grandparent was it. */
    method LineFix(pcur: TreeNode, grandpa: TreeNode, ghost t: Tree<TreeNode>, ghost q: Path)
      returns (ghost t': Tree<TreeNode>)
      requires Linked(t) && proot == t.node && ValidPath(t, q) && |q| >= 2 && (q != [] ==> ColorOf(t) == Black)
      requires ColorOf(Sub(t, q)) == Red
      requires ValidPath(t, Parent(q)) && ColorOf(Sub(t, Parent(q))) == Red && Last(q) == Last(Parent(q))
      requires ValidPath(t, Parent(Parent(q))) && Sub(t, Parent(Parent(q))).Node?
      requires ColorOf(Child(Sub(t, Parent(Parent(q))), Flip(Last(Parent(q))))) != Red
      requires pcur == Sub(t, q).node && grandpa == Sub(t, Parent(Parent(q))).node
      modifies this`proot, Objs(t)
      ensures Linked(t') && t' == InsertSpec.InsertFixup(t, q) && proot == t'.node
    {
      AtRoot(t, Parent(Parent(q)));
      t' := LineCase(pcur, grandpa, t, q);
      if proot == grandpa {
        proot := grandpa.parent;
      }
    }

    /**
     * insertFixup (rbtree.c:152-205) from `pnode`, the node at `p`: the
     * fields end up spelling out `InsertSpec.InsertFixup(T, p)`, and `proot`
     * follows the root when case 3.2 rotates it away (rbtree.c:191-192).
     * The caller provides a BLACK root unless `pnode` is the root, which is
     * what keeps the grandparent of case 3 from being NULL.
     */
    method InsertFixup(pnode: TreeNode, ghost t0: Tree<TreeNode>, ghost p: Path) returns (ghost r: Tree<TreeNode>)
      requires Linked(t0) && proot == t0.node && ValidPath(t0, p) && Sub(t0, p).node == pnode
      requires p != [] ==> ColorOf(t0) == Black
      modifies this`proot, Objs(t0)
      ensures r == InsertSpec.InsertFixup(t0, p) && Linked(r) && proot == r.node
    {
      var pcur := pnode;
      ghost var t, q := t0, p;
      ghost var R := InsertSpec.InsertFixup(t0, p);
      NodeAt(t, q);
      while pcur.color == Red
        invariant Linked(t) && proot == t.node && Objs(t) == Objs(t0)
        invariant ValidPath(t, q) && Sub(t, q).node == pcur && pcur.color == ColorOf(Sub(t, q))
        invariant q != [] ==> ColorOf(t) == Black
        invariant InsertSpec.InsertFixup(t, q) == R
        decreases InsertSpec.Measure(q)
      {
        FixupLook(t, q);
        if pcur == proot {
          // case 1
          r := RootCase(pcur, t);
          return;
        }
        if pcur.parent.color == Black {
          // case 2
          FixupStops(t, q);
          r := t;
          return;
        }
        // case 3: the parent is RED, so it is not the root
        var stop;
        ghost var t1, q1;
        stop, pcur, t1, q1 := RedParent(pcur, t, q);
        if stop {
          r := t1;
          return;
        }
        t, q := t1, q1;
      }
      FixupStops(t, q);
      r := t;
    }

    /**
     * Case 3 of insertFixup (rbtree.c:170-203), `pcur` RED at `q` under a
     * RED parent: after case 3.2 the fixup is over (`stop`); after case 3.1
     * it goes on at the grandparent and after case 3.3 at the old parent,
     * `next`, found at `q'` in `t'`, closer to the root or to a line.
     */
    method RedParent(pcur: TreeNode, ghost t: Tree<TreeNode>, ghost q: Path)
      returns (stop: bool, next: TreeNode, ghost t': Tree<TreeNode>, ghost q': Path)
      requires Linked(t) && proot == t.node && ValidPath(t, q) && Sub(t, q).node == pcur
      requires ColorOf(Sub(t, q)) == Red && (q != [] ==> ColorOf(t) == Black)
      requires |q| >= 2 && ValidPath(t, Parent(q)) && ColorOf(Sub(t, Parent(q))) == Red
      modifies this`proot, Objs(t)
      ensures Linked(t') && proot == t'.node
      ensures stop ==> t' == InsertSpec.InsertFixup(t, q)
      ensures !stop ==>
        Objs(t') == Objs(t) && (q' != [] ==> ColorOf(t') == Black) &&
        ValidPath(t', q') && Sub(t', q').node == next && next.color == ColorOf(Sub(t', q')) &&
        InsertSpec.InsertFixup(t', q') == InsertSpec.InsertFixup(t, q) &&
        InsertSpec.Measure(q') < InsertSpec.Measure(q)
    {
      GrandAt(t, q);
      var grandpa := pcur.parent.parent;
      var puncle := GetUncle(pcur);
      if puncle.color == Red {
        // case 3.1
        stop, next := false, grandpa;
        t', q' := RecolorCase(pcur, puncle, grandpa, t, q);
      } else if IsLeftChild(pcur) == IsLeftChild(pcur.parent) {
        // case 3.2
        stop, next, q' := true, pcur, q;
        t' := LineFix(pcur, grandpa, t, q);
      } else {
        // case 3.3
        var pa := pcur.parent;
        stop, next := false, pa;
        t', q' := ZigZagCase(pcur, pa, t, q);
      }
    }
  
    /**
     * The search of insertElement and removeElement (rbtree.c:211-220 and
     * 297-298): from the root, go right past a node whose key is smaller
     * than `k` and left past one whose key is larger, up to the node that
     * holds `k` or the leaf node where it would go.
     */
    method Search(k: int) returns (pcur: TreeNode, ghost q: Path)
      requires Valid() && proot != null
      ensures q == Descend(T, k) && Sub(T, q).node == pcur
      ensures pcur.isLeaf <==> k !in Elements()
      ensures !pcur.isLeaf ==> pcur.value == k
    {
      pcur := proot;
      q := [];
      while !IsLeaf(pcur) && pcur.value != k
        invariant Linked(T) && ValidPath(T, q) && Sub(T, q).node == pcur
        invariant Descend(T, k) == q + Descend(Sub(T, q), k)
        decreases Sub(T, q)
      {
        SearchStep(T, q, k, if k > pcur.value then Right else Left);
        if k > pcur.value {
          pcur := pcur.rchild;
          q := q + [Right];
        } else {
          pcur := pcur.lchild;
          q := q + [Left];
        }
      }
      SearchEnd(T, q, k);
    }

    /**
     * The end of insertElement (rbtree.c:222-228) once the search has
     * reached the leaf node `pcur` at `q`: the writes that grow it,
     * insertFixup from it and one more element.
     */
    method AddAt(pcur: TreeNode, newvalue: int, ghost q: Path) returns (ghost a: TreeNode, ghost b: TreeNode)
      requires Valid() && proot != null
      requires ValidPath(T, q) && Sub(T, q).Leaf? && Sub(T, q).node == pcur && Descend(T, newvalue) == q
      modifies this, Objs(T)
      ensures Valid() && proot != null
      ensures T == InsertSpec.Insert(old(T), newvalue, a, b)
      ensures newvalue !in old(Elements()) && size == old(size) + 1 && Elements() == old(Elements()) + {newvalue}
      ensures fresh(a) && fresh(b) && a != b
    {
      ghost var t := T;
      DescendFinds(t, newvalue);
      NodeAt(t, q);
      ghost var t1;
      t1, a, b := GrowAt(pcur, newvalue, t, q);
      ghost var s := InsertSpec.Grow(pcur, newvalue, a, b);
      ReplaceSub(t, q, s);
      InsertSpec.GrowObjs(t, q, newvalue, a, b);
      InsertSpec.InsertFresh(t, newvalue, a, b);
      if q != [] {
        ReplaceTop(t, q, s);
      }
      ghost var r := InsertFixup(pcur, t1, q);
      T := r;
      size := size + 1;
    }

    /**
     * insertElement (rbtree.c:208-229): search from the root for
     * `newvalue`; stop without a change at a node that holds it; otherwise
     * grow the leaf node reached into a RED node holding it, run
     * insertFixup from there and count one more element. When the tree
     * has been emptied by removeElement (`proot` is NULL) a new leaf root
     * is made first, as newRBTree does (see Findings).
     */
    method InsertElement(newvalue: int) returns (ghost t0: Tree<TreeNode>, ghost a: TreeNode, ghost b: TreeNode)
      requires Valid()
      modifies this, Objs(T)
      ensures Valid() && proot != null
      ensures old(proot) != null ==> t0 == old(T)
      ensures old(proot) == null ==> t0.Leaf? && fresh(t0.node)
      ensures T == InsertSpec.Insert(t0, newvalue, a, b)
      ensures Elements() == old(Elements()) + {newvalue}
      ensures newvalue in old(Elements()) ==> T == old(T) && size == old(size)
      ensures newvalue !in old(Elements()) ==> size == old(size) + 1 && fresh(a) && fresh(b) && a != b
    {
      if proot == null {
        var root := new TreeNode.Leaf();
        proot := root;
        T := Leaf(root);
      }
      t0 := T;
      var pcur;
      ghost var q;
      assert allocated(Objs(T));
      pcur, q := Search(newvalue);
      NodeAt(T, q);
      if !IsLeaf(pcur) {
        // the key is present: nothing changes
        a, b := pcur, pcur;
        return;
      }
      a, b := AddAt(pcur, newvalue, q);
    }
  
    // -------------------------------------------------------------------
    // removeFixup

    /**
     * Case 1 of removeFixup (rbtree.c:240-246), and `proot` moved to the
     * brother when the rotation lowers the root, as insertFixup does for
     * its own rotation (rbtree.c:191-192; rbtree.c leaves it out here, see
     * AsWritten).
     */
    method BrotherRedFix(pcur: TreeNode, pbrother: TreeNode, ghost t: Tree<TreeNode>, ghost p: Path)
      returns (ghost t': Tree<TreeNode>)
      requires Linked(t) && proot == t.node && ValidPath(t, p) && p != [] && Sub(t, p).node == pcur
      requires ValidPath(t, Parent(p)) && Sub(t, Parent(p)).Node?
      requires Child(Sub(t, Parent(p)), Flip(Last(p))).Node? && Child(Sub(t, Parent(p)), Flip(Last(p))).node == pbrother
      modifies this`proot, Objs(t)
      ensures t' == Replace(t, Parent(p), RemoveSpec.Case1(Sub(t, Parent(p)), Last(p)))
      ensures Linked(t') && Objs(t') == Objs(t) && proot == t'.node
    {
      ghost var q, d := Parent(p), Last(p);
      ghost var r := RemoveSpec.Case1(Sub(t, q), d);
      AtRoot(t, q);
      PathSplit(p);
      SubStep(t, q, d);
      t' := BrotherRedCase(pcur, pbrother, t, p);
      ReplaceSub(t, q, r);
      LoweredAt(t', q, d);
      if q != [] {
        ReplaceTop(t, q, r);
      }
      if proot == pcur.parent {
        proot := pcur.parent.parent;
      }
    }

    /** Case 2.2 of removeFixup (rbtree.c:262-273), and `proot` moved as in `BrotherRedFix`. */
    method FarRedFix(pcur: TreeNode, pFarNephew: TreeNode, ghost t: Tree<TreeNode>, ghost p: Path)
      returns (ghost t': Tree<TreeNode>)
      requires Linked(t) && proot == t.node && ValidPath(t, p) && p != [] && Sub(t, p).node == pcur
      requires ValidPath(t, Parent(p)) && Sub(t, Parent(p)).Node? && Child(Sub(t, Parent(p)), Flip(Last(p))).Node?
      requires var b := Child(Sub(t, Parent(p)), Flip(Last(p)));
        ColorOf(Child(b, Flip(Last(p)))) == Red && Child(b, Flip(Last(p))).node == pFarNephew
      modifies this`proot, Objs(t)
      ensures t' == Replace(t, Parent(p), RemoveSpec.Case22(Sub(t, Parent(p)), Last(p)))
      ensures Linked(t') && Objs(t') == Objs(t) && proot == t'.node
    {
      ghost var q, d := Parent(p), Last(p);
      ghost var r := RemoveSpec.Case22(Sub(t, q), d);
      AtRoot(t, q);
      PathSplit(p);
      SubStep(t, q, d);
      t' := FarRedCase(pcur, pFarNephew, t, p);
      ReplaceSub(t, q, r);
      LoweredAt(t', q, d);
      if q != [] {
        ReplaceTop(t, q, r);
      }
      if proot == pcur.parent {
        proot := pcur.parent.parent;
      }
    }

    /**
     * Cases 2.1 to 2.4 of removeFixup (rbtree.c:248-287) under a BLACK
     * brother: `stop` when the loop ends (cases 2.2 and 2.3), and `t'` the
     * tree with the parent's subtree rewritten as `RemoveSpec.Case2` says.
     */
    method BlackBrother(pcur: TreeNode, ghost t: Tree<TreeNode>, ghost p: Path) returns (stop: bool, ghost t': Tree<TreeNode>)
      requires Linked(t) && proot == t.node && ValidPath(t, p) && p != [] && Sub(t, p).node == pcur
      requires ValidPath(t, Parent(p)) && Sub(t, Parent(p)).Node? && Child(Sub(t, Parent(p)), Flip(Last(p))).Node?
      modifies this`proot, Objs(t)
      ensures t' == Replace(t, Parent(p), RemoveSpec.Case2(Sub(t, Parent(p)), Last(p)).sub)
      ensures stop <==> RemoveSpec.Case2(Sub(t, Parent(p)), Last(p)).Stop?
      ensures Linked(t') && Objs(t') == Objs(t) && proot == t'.node
      ensures ValidPath(t', Parent(p)) && (!stop ==> pcur.parent == Sub(t', Parent(p)).node)
    {
      ghost var q, d := Parent(p), Last(p);
      ghost var t1 := NearRedStep(pcur, t, p);
      ghost var ps1 := Sub(t1, q);
      FixupAround(t1, p);
      ghost var x;
      var pFarNephew := GetFarNephew(pcur);
      if pFarNephew.color == Red {
        x := RemoveSpec.Case22(ps1, d);
        t' := FarRedFix(pcur, pFarNephew, t1, p);
        stop := true;
      } else if pcur.parent.color == Red {
        x := RemoveSpec.Case23(ps1, d);
        t' := ParentRedCase(pcur, t1, p);
        stop := true;
      } else {
        x := RemoveSpec.Case24(ps1, d);
        t' := ClimbCase(pcur, t1, p);
        stop := false;
      }
      ReplaceReplace(t, q, ps1, x);
      ReplaceSub(t, q, x);
      if q != [] {
        ReplaceTop(t1, q, x);
      }
    }

    /**
     * One iteration of the loop of removeFixup (rbtree.c:236-287) with
     * `pcur` at `p`, one BLACK node short: it does what
     * `RemoveSpec.RemoveStep` says, ending the loop (`stop`) or going on at
     * the parent.
     */
    method FixupStep(pcur: TreeNode, ghost t: Tree<TreeNode>, ghost p: Path, ghost h: int, ghost H: int)
      returns (stop: bool, ghost t': Tree<TreeNode>)
      requires Linked(t) && proot == t.node && RemoveSpec.Deficit(t, p, h, H) && p != [] && Sub(t, p).node == pcur
      modifies this`proot, Objs(t)
      ensures Linked(t') && Objs(t') == Objs(t) && proot == t'.node
      ensures RemoveSpec.RemoveStep(t, p) == if stop then Done(t') else Next(t', Parent(p))
      ensures !stop ==> ValidPath(t', Parent(p)) && pcur.parent == Sub(t', Parent(p)).node
    {
      ghost var q, d := Parent(p), Last(p);
      RemoveSpec.ParentSplit(t, p, h, H);
      ghost var ps := Sub(t, q);
      FixupAround(t, p);
      var pbrother := GetBrother(pcur);
      if pbrother.color == Red {
        // case 1; the rest of the iteration runs with `pcur` one level lower
        ghost var r := RemoveSpec.Case1(ps, d);
        RemoveSpec.Case1Valid(ps, d, h);
        RemoveSpec.Case1Stops(ps, d);
        PrefixValid(t, p);
        ghost var t1 := BrotherRedFix(pcur, pbrother, t, p);
        ReplaceSub(t, q, r);
        LoweredAt(t1, q, d);
        assert Parent(p + [d]) == p && Last(p + [d]) == d;
        assert Child(Child(r, d), d) == Child(ps, d);
        stop, t' := BlackBrother(pcur, t1, p + [d]);
        ghost var x := RemoveSpec.Case2(Child(r, d), d).sub;
        ReplaceChild(t1, q, d, x);
        ReplaceReplace(t, q, r, WithChild(r, d, x));
      } else {
        stop, t' := BlackBrother(pcur, t, p);
      }
    }

    /**
     * removeFixup (rbtree.c:231-289) from `pnode`, the node at `p`, one
     * BLACK node short: the loop runs until `pcur` is the root, and the
     * fields end up spelling out `RemoveSpec.RemoveFixup(t0, p)`, with
     * `proot` on its root.
     */
    method RemoveFixup(pnode: TreeNode, ghost t0: Tree<TreeNode>, ghost p0: Path, ghost h0: int, ghost H: int)
      returns (ghost r: Tree<TreeNode>)
      requires Linked(t0) && proot == t0.node && RemoveSpec.Deficit(t0, p0, h0, H) && Sub(t0, p0).node == pnode
      modifies this`proot, Objs(t0)
      ensures r == RemoveSpec.RemoveFixup(t0, p0) && Linked(r) && proot == r.node && Objs(r) == Objs(t0)
    {
      var pcur := pnode;
      ghost var t, p, h := t0, p0, h0;
      ghost var R := RemoveSpec.RemoveFixup(t0, p0);
      while pcur != proot
        invariant Linked(t) && proot == t.node && Objs(t) == Objs(t0)
        invariant RemoveSpec.Deficit(t, p, h, H) && Sub(t, p).node == pcur
        invariant RemoveSpec.RemoveFixup(t, p) == R
        decreases |p|
      {
        AtRoot(t, p);
        RemoveSpec.RemoveStepValid(t, p, h, H);
        ghost var t1;
        var stop;
        stop, t1 := FixupStep(pcur, t, p, h, H);
        if stop {
          // the loop ends here (rbtree.c:273, 283)
          r := t1;
          return;
        }
        pcur := pcur.parent;
        t, p, h := t1, Parent(p), h + 1;
      }
      AtRoot(t, p);
      r := t;
    }

    // -------------------------------------------------------------------
    // removeElement

    /**
     * Cases 2 and 3 of removeElement (rbtree.c:317-355) on `pcur`, the
     * node to take out, found at `q`, the `RemoveSpec.Target` of the key's
     * path `p` in `t`, once case 1 has left the fields spelling out `t0`:
     * a RED node becomes a leaf node, a BLACK one with an inner child
     * takes that child's key, a lone BLACK root empties the tree, and any
     * other BLACK node becomes a leaf node from which removeFixup runs.
     */
    method TakeOut(pcur: TreeNode, ghost t: Tree<TreeNode>, ghost p: Path, ghost t0: Tree<TreeNode>, ghost q: Path)
      requires IsRB(t) && ValidPath(t, p) && Sub(t, p).Node? && size == |InOrder(t)|
      requires q == RemoveSpec.Target(t, p) && t0 == Replace(t, p, Sub(t, p).(key := Sub(t, q).key))
      requires Linked(t0) && proot == t0.node && Objs(t0) == Objs(t)
      requires ValidPath(t0, q) && Sub(t0, q) == Sub(t, q) && Sub(t0, q).node == pcur
      modifies this, Objs(t0)
      ensures Valid() && size == old(size) - 1
      ensures proot == null <==> q == [] && RemoveSpec.Short(Sub(t, q))
      ensures proot != null ==>
        T == if RemoveSpec.Short(Sub(t, q)) then RemoveSpec.RemoveFixup(RemoveSpec.Unlink(t, p), q) else RemoveSpec.Unlink(t, p)
    {
      ghost var x := Sub(t, q);
      NodeAt(t0, q);
      InnerAt(t0, q);
      NodeAt(t0, q + [Left]);
      NodeAt(t0, q + [Right]);
      AtRoot(t0, q);
      if pcur.color == Red || !IsLeaf(pcur.lchild) || !IsLeaf(pcur.rchild) {
        // cases 2 and 3.1
        TakeInner(pcur, t, p, t0, q);
      } else if pcur == proot {
        // case 3.2.1: the last key goes; rbtree.c releases the node
        assert t == x && InOrder(t) == [x.key];
        ChangeToLeaf(pcur);
        proot := null;
        size := 0;
      } else {
        // case 3.2.2
        TakeShort(pcur, t, p, t0, q);
      }
    }

    /** Cases 2 and 3.1 of removeElement: no removeFixup, the tree stays balanced. */
    method TakeInner(pcur: TreeNode, ghost t: Tree<TreeNode>, ghost p: Path, ghost t0: Tree<TreeNode>, ghost q: Path)
      requires IsRB(t) && ValidPath(t, p) && Sub(t, p).Node? && size == |InOrder(t)|
      requires q == RemoveSpec.Target(t, p) && t0 == Replace(t, p, Sub(t, p).(key := Sub(t, q).key))
      requires Linked(t0) && proot == t0.node && Objs(t0) == Objs(t)
      requires ValidPath(t0, q) && Sub(t0, q) == Sub(t, q) && Sub(t0, q).node == pcur
      requires !RemoveSpec.Short(Sub(t, q))
      modifies this, Objs(t0)
      ensures Valid() && size == old(size) - 1 && proot != null && T == RemoveSpec.Unlink(t, p)
    {
      ghost var x := Sub(t, q);
      ghost var u := RemoveSpec.Unlink(t, p);
      RemoveSpec.UnlinkAt(t, p);
      RemoveSpec.UnlinkValid(t, p);
      if q != [] {
        ReplaceTop(t0, q, RemoveSpec.Detach(x));
      } else {
        assert x == t && x.color == Black;
      }
      ghost var r := Unhook(pcur, t0, q);
      size := size - 1;
      T := u;
    }

    /** Case 3.2.2 of removeElement: a BLACK node with two leaf children, not the root. */
    method TakeShort(pcur: TreeNode, ghost t: Tree<TreeNode>, ghost p: Path, ghost t0: Tree<TreeNode>, ghost q: Path)
      requires IsRB(t) && ValidPath(t, p) && Sub(t, p).Node? && size == |InOrder(t)|
      requires q == RemoveSpec.Target(t, p) && t0 == Replace(t, p, Sub(t, p).(key := Sub(t, q).key))
      requires Linked(t0) && proot == t0.node && Objs(t0) == Objs(t)
      requires ValidPath(t0, q) && Sub(t0, q) == Sub(t, q) && Sub(t0, q).node == pcur
      requires RemoveSpec.Short(Sub(t, q)) && q != []
      modifies this, Objs(t0)
      ensures T == RemoveSpec.RemoveFixup(RemoveSpec.Unlink(t, p), q)
      ensures proot == T.node && Linked(T) && IsRB(T) && size == |InOrder(T)| == old(size) - 1
    {
      RemoveSpec.ShortUnlink(t, p);
      ghost var u := Shorten(pcur, t, p, t0, q);
      Rebalance(pcur, u, q, BH(Sub(t, q)) - 1, BH(t));
    }

    /** removeFixup from `pcur` at `q`, one BLACK node short in `u`, and one key fewer. */
    method Rebalance(pcur: TreeNode, ghost u: Tree<TreeNode>, ghost q: Path, ghost h: int, ghost H: int)
      requires Linked(u) && proot == u.node && RemoveSpec.Deficit(u, q, h, H) && Sub(u, q).node == pcur
      requires IsRB(RemoveSpec.RemoveFixup(u, q)) && |InOrder(RemoveSpec.RemoveFixup(u, q))| + 1 == size
      modifies this, Objs(u)
      ensures T == RemoveSpec.RemoveFixup(u, q) && size == old(size) - 1
      ensures proot == T.node && Linked(T) && IsRB(T) && size == |InOrder(T)|
    {
      T := RemoveFixup(pcur, u, q, h, H);
      size := size - 1;
    }

    /**
     * removeElement (rbtree.c:292-356): nothing happens on an empty tree
     * or a missing key; otherwise the key is taken out as
     * `RemoveSpec.Remove` says, which leaves a valid red-black tree with
     * one key fewer, or no root node once the last key is gone.
     */
    method RemoveElement(target: int)
      requires Valid()
      modifies this, Objs(T)
      ensures Valid()
      ensures Elements() == old(Elements()) - {target}
      ensures target !in old(Elements()) ==> proot == old(proot) && T == old(T) && size == old(size)
      ensures target in old(Elements()) ==> size == old(size) - 1
      ensures old(proot) != null ==> (proot == null <==> RemoveSpec.Remove(old(T), target).None?)
      ensures old(proot) != null && proot != null ==> RemoveSpec.Remove(old(T), target) == Some(T)
    {
      if proot == null {
        return;
      }
      var pcur;
      ghost var p;
      assert allocated(Objs(T));
      pcur, p := Search(target);
      NodeAt(T, p);
      if IsLeaf(pcur) {
        // the key is missing
        RemoveSpec.RemoveAbsent(T, target);
        return;
      }
      ghost var t := T;
      RemoveSpec.RemovePresent(t, target);
      ghost var t0, q;
      assert allocated(Objs(t));
      pcur, t0, q := ToTarget(pcur, t, p);
      TakeOut(pcur, t, p, t0, q);
    }
}
}
