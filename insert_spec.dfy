/**
 * insertElement and insertFixup of rbtree.c, on tree values.
 *
 * `InsertFixup(t, p)` is the loop of rbtree.c:152-205 with `pcur` at path
 * `p`: each call is one iteration, and the node `ptree->proot` is always the
 * root of `t` (rbtree.c:191-192 keeps it so). Each case acts on the subtree
 * of the grandparent (or parent) of `pcur` and is put back with `Replace`.
 */
module InsertSpec {
  import opened RedBlack

  /** rbtree.c:222-225: the reached leaf node becomes a RED node holding `k` over two new leaf nodes. */
  function Grow<N>(leaf: N, k: int, a: N, b: N): Tree<N>
  {
    Node(leaf, Red, k, Leaf(a), Leaf(b))
  }

  /** Case 3.1 on the grandparent's subtree: parent and uncle turn BLACK, the grandparent RED. */
  function RecolorUp<N>(g: Tree<N>): Tree<N>
    requires g.Node?
  {
    g.(color := Red, left := Recolor(g.left, Black), right := Recolor(g.right, Black))
  }

  /**
   * Case 3.2 on the grandparent's subtree, `pcur` and its parent both on
   * side `d`: grandparent RED, parent BLACK, then rotate the grandparent
   * away from `d` (rightRotate when both are left children).
   */
  function LineRotate<N>(g: Tree<N>, d: Dir): Tree<N>
    requires g.Node?
  {
    Rotate(WithChild(g.(color := Red), d, Recolor(Child(g, d), Black)), Flip(d))
  }

  function Measure(p: Path): nat
  {
    |p| + (if |p| >= 2 && p[|p| - 1] != p[|p| - 2] then 1 else 0)
  }

  lemma ParentPath(p: Path, d: Dir)
    ensures p + [d] != [] && Parent(p + [d]) == p && Last(p + [d]) == d
  {
  }

  /**
   * One iteration of the loop of insertFixup with `pcur` at `p`. It leaves
   * the loop when `pcur` is not RED, in case 1 (`pcur` is the root and turns
   * BLACK), in case 2 (BLACK parent) and after case 3.2; it goes on at the
   * grandparent after case 3.1 and at the old parent after case 3.3.
   */
  function InsertStep<N>(t: Tree<N>, p: Path): (s: Step<N>)
    requires ValidPath(t, p)
    ensures s.Next? ==> ValidPath(s.tree, s.at) && Measure(s.at) < Measure(p)
  {
    if ColorOf(Sub(t, p)) != Red then Done(t)
    else if p == [] then Done(Recolor(t, Black))
    else
      PrefixValid(t, p);
      var pp := Parent(p);
      if ColorOf(Sub(t, pp)) == Black then Done(t)
      else if pp == [] then
        // a RED root: rbtree.c:172-173 would read through a NULL grandparent;
        // no tree that satisfies the invariants gets here
        Done(t)
      else
        PrefixValid(t, pp);
        var g, d, dp := Parent(pp), Last(p), Last(pp);
        var gs := Sub(t, g);
        if ColorOf(Child(gs, Flip(dp))) == Red then
          ReplaceSub(t, g, RecolorUp(gs));
          Next(Replace(t, g, RecolorUp(gs)), g)
        else if d == dp then
          Done(Replace(t, g, LineRotate(gs, d)))
        else
          var t' := Replace(t, pp, Rotate(Sub(t, pp), Flip(d)));
          ReplaceSub(t, pp, Rotate(Sub(t, pp), Flip(d)));
          SubStep(t', pp, dp);
          ParentPath(pp, dp);
          Next(t', pp + [dp])
  }

  /** The whole loop of insertFixup (rbtree.c:152-205) from `pcur` at `p`. */
  function InsertFixup<N>(t: Tree<N>, p: Path): Tree<N>
    requires ValidPath(t, p)
    decreases Measure(p)
  {
    match InsertStep(t, p)
    case Done(r) => r
    case Next(t', p') => InsertFixup(t', p')
  }

  // ---------------------------------------------------------------------
  // insertFixup keeps the keys, their order and the set of nodes

  lemma RecolorUpSame<N>(g: Tree<N>)
    requires g.Node?
    ensures Same(g, RecolorUp(g))
  {
    var g1 := WithChild(g, Left, Recolor(g.left, Black));
    var g2 := WithChild(g1, Right, Recolor(g.right, Black));
    RecolorSame(g.left, Black);
    WithChildSame(g, Left, Recolor(g.left, Black));
    RecolorSame(g.right, Black);
    WithChildSame(g1, Right, Recolor(g.right, Black));
    RecolorSame(g2, Red);
    assert RecolorUp(g) == Recolor(g2, Red);
  }

  lemma LineRotateSame<N>(g: Tree<N>, d: Dir)
    requires g.Node?
    ensures Same(g, LineRotate(g, d))
  {
    var g1 := Recolor(g, Red);
    var g2 := WithChild(g1, d, Recolor(Child(g, d), Black));
    RecolorSame(g, Red);
    RecolorSame(Child(g, d), Black);
    WithChildSame(g1, d, Recolor(Child(g, d), Black));
    RotateSame(g2, Flip(d));
    assert LineRotate(g, d) == Rotate(g2, Flip(d));
  }

  /** Each iteration keeps the keys in order and the set of nodes. */
  lemma InsertStepSame<N>(t: Tree<N>, p: Path)
    requires ValidPath(t, p)
    ensures Same(t, InsertStep(t, p).tree)
  {
    if ColorOf(Sub(t, p)) == Red && p != [] {
      PrefixValid(t, p);
      var pp := Parent(p);
      if ColorOf(Sub(t, pp)) == Red && pp != [] {
        PrefixValid(t, pp);
        var g, d, dp := Parent(pp), Last(p), Last(pp);
        var gs := Sub(t, g);
        if ColorOf(Child(gs, Flip(dp))) == Red {
          RecolorUpSame(gs);
          ReplaceSame(t, g, RecolorUp(gs));
        } else if d == dp {
          LineRotateSame(gs, d);
          ReplaceSame(t, g, LineRotate(gs, d));
        } else {
          RotateSame(Sub(t, pp), Flip(d));
          ReplaceSame(t, pp, Rotate(Sub(t, pp), Flip(d)));
        }
      }
    }
  }

  /** insertFixup only rearranges: same keys in the same order, same nodes. */
  lemma {:induction false} InsertFixupSame<N>(t: Tree<N>, p: Path)
    requires ValidPath(t, p)
    ensures Same(t, InsertFixup(t, p))
    decreases Measure(p)
  {
    InsertStepSame(t, p);
    match InsertStep(t, p)
    case Done(r) =>
    case Next(t', p') =>
      InsertFixupSame(t', p');
      SameTrans(t, t', InsertFixup(t', p'));
  }

  // ---------------------------------------------------------------------
  // insertFixup restores the colouring invariants

  /**
   * The state at the head of each iteration of insertFixup, with `pcur` at
   * `p`: `pcur` is RED and its subtree has no RED-RED pair, the rest of the
   * tree has none once `pcur` counts as BLACK, every path meets `H` BLACK
   * nodes, and the root is BLACK unless `pcur` is the root.
   */
  predicate FixupInv<N>(t: Tree<N>, p: Path, H: int)
  {
    ValidPath(t, p) && ColorOf(Sub(t, p)) == Red && NoRedRed(Sub(t, p)) &&
    RedCtx(t, p, Black) && BlackHeight(t, H) && (p != [] ==> ColorOf(t) == Black)
  }

  /**
   * The grandparent's subtree when insertFixup reaches case 3: a BLACK
   * grandparent, a RED parent on side `dp`, a RED `pcur` on side `d` of the
   * parent, and no other RED-RED pair.
   */
  predicate GrandPre<N>(g: Tree<N>, dp: Dir, d: Dir)
  {
    g.Node? && g.color == Black && Child(g, dp).Node? && Child(g, dp).color == Red &&
    var x, y := Child(Child(g, dp), d), Child(Child(g, dp), Flip(d));
    ColorOf(x) == Red && NoRedRed(x) && ColorOf(y) == Black && NoRedRed(y) &&
    NoRedRed(Child(g, Flip(dp)))
  }

  /** The invariant seen from the grandparent of `pcur`. */
  lemma GrandSplit<N>(t: Tree<N>, p: Path, H: int)
    requires FixupInv(t, p, H) && |p| >= 2
    requires ValidPath(t, Parent(p)) && ColorOf(Sub(t, Parent(p))) == Red
    ensures ValidPath(t, Parent(Parent(p)))
    ensures var g := Parent(Parent(p)); var gs := Sub(t, g);
      GrandPre(gs, Last(Parent(p)), Last(p)) && RedCtx(t, g, Black) &&
      BHCtx(t, g, BH(gs), H) && BlackHeight(gs, BH(gs))
  {
    var pp := Parent(p);
    PrefixValid(t, p);
    PrefixValid(t, pp);
    var g, d, dp := Parent(pp), Last(p), Last(pp);
    PathSplit(p);
    PathSplit(pp);
    assert p == g + [dp, d];
    RedCtxAppend(t, g, [dp, d], Black);
    var gs := Sub(t, g);
    assert RedCtx(gs, [dp, d], Black);
    assert RedCtx(Child(gs, dp), [d], Black);
    BHSplit(t, g, H);
  }

  /** The invariant at `g + [dp, d]` after the grandparent's subtree is replaced. */
  lemma GrandJoin<N>(t: Tree<N>, g: Path, s: Tree<N>, dp: Dir, d: Dir, h: int, H: int)
    requires ValidPath(t, g) && RedCtx(t, g, Black) && BHCtx(t, g, h, H)
    requires GrandPre(s, dp, d) && BlackHeight(s, h)
    requires g != [] ==> ColorOf(t) == Black
    ensures FixupInv(Replace(t, g, s), g + [dp, d], H)
  {
    var t' := Replace(t, g, s);
    ReplaceSub(t, g, s);
    RedReplace(t, g, s);
    BHReplace(t, g, s, h, H);
    if g != [] {
      ReplaceColor(t, g, s);
    }
    assert ValidPath(s, [dp, d]);
    SubAppend(t', g, [dp, d]);
    RedCtxAppend(t', g, [dp, d], Black);
    assert RedCtx(Child(s, dp), [d], Black);
    assert RedCtx(s, [dp, d], Black);
    assert Sub(s, [dp, d]) == Sub(Child(s, dp), [d]) == Child(Child(s, dp), d);
  }

  /** Case 3.1 on the grandparent's subtree: the RED moves two levels up. */
  lemma RecolorUpValid<N>(gs: Tree<N>, dp: Dir, d: Dir, h: int)
    requires GrandPre(gs, dp, d) && BlackHeight(gs, h) && ColorOf(Child(gs, Flip(dp))) == Red
    ensures ColorOf(RecolorUp(gs)) == Red && NoRedRed(RecolorUp(gs)) && BlackHeight(RecolorUp(gs), h)
  {
  }

  /** Case 3.2 on the grandparent's subtree: a BLACK top over two RED nodes. */
  lemma LineRotateValid<N>(gs: Tree<N>, d: Dir, h: int)
    requires GrandPre(gs, d, d) && BlackHeight(gs, h) && ColorOf(Child(gs, Flip(d))) == Black
    ensures ColorOf(LineRotate(gs, d)) == Black && NoRedRed(LineRotate(gs, d))
    ensures BlackHeight(LineRotate(gs, d), h)
  {
  }

  /** Case 3.3 on the grandparent's subtree: the zig-zag becomes a line. */
  lemma ZigZagValid<N>(gs: Tree<N>, dp: Dir, d: Dir, h: int)
    requires GrandPre(gs, dp, d) && d != dp && BlackHeight(gs, h)
    requires ColorOf(Child(gs, Flip(dp))) == Black
    ensures var s := WithChild(gs, dp, Rotate(Child(gs, dp), Flip(d)));
      GrandPre(s, dp, dp) && BlackHeight(s, h) && ColorOf(Child(s, Flip(dp))) == Black
  {
    var pa := Child(gs, dp);
    var x := Child(pa, d);
    var r := Rotate(pa, Flip(d));
    assert BlackHeight(pa, h - 1) && BlackHeight(x, h - 1);
    assert BlackHeight(Child(x, Left), h - 1) && BlackHeight(Child(x, Right), h - 1);
    assert BlackHeight(Child(r, dp), h - 1);
    assert BlackHeight(r, h - 1);
  }

  /** One iteration either leaves a valid colouring or keeps the invariant at the next `pcur`. */
  lemma InsertStepValid<N>(t: Tree<N>, p: Path, H: int)
    requires FixupInv(t, p, H)
    ensures match InsertStep(t, p)
      case Done(r) => ColorOf(r) == Black && NoRedRed(r) && (BlackHeight(r, H) || BlackHeight(r, H + 1))
      case Next(t', p') => FixupInv(t', p', H)
  {
    if p == [] {
      assert BlackHeight(Recolor(t, Black), H + 1);
    } else {
      PrefixValid(t, p);
      var pp := Parent(p);
      if ColorOf(Sub(t, pp)) == Black {
        PathSplit(p);
        RedCtxAppend(t, pp, [Last(p)], Black);
        RedCtxAppend(t, pp, [Last(p)], Red);
        assert RedCtx(Sub(t, pp), [Last(p)], Red);
        RedSplit(t, p);
      } else if pp != [] {
        GrandSplit(t, p, H);
        PrefixValid(t, pp);
        var g, d, dp := Parent(pp), Last(p), Last(pp);
        var gs := Sub(t, g);
        var h := BH(gs);
        if ColorOf(Child(gs, Flip(dp))) == Red {
          RecolorUpValid(gs, dp, d, h);
          ReplaceSub(t, g, RecolorUp(gs));
          RedReplace(t, g, RecolorUp(gs));
          BHReplace(t, g, RecolorUp(gs), h, H);
          if g != [] {
            ReplaceColor(t, g, RecolorUp(gs));
          }
        } else if d == dp {
          LineRotateValid(gs, d, h);
          RedReplace(t, g, LineRotate(gs, d));
          BHReplace(t, g, LineRotate(gs, d), h, H);
          if g != [] {
            ReplaceColor(t, g, LineRotate(gs, d));
          }
        } else {
          ZigZagValid(gs, dp, d, h);
          var x := Rotate(Sub(t, pp), Flip(d));
          PathSplit(pp);
          ReplaceAppend(t, g, [dp], x);
          assert Replace(gs, [dp], x) == WithChild(gs, dp, x);
          GrandJoin(t, g, WithChild(gs, dp, x), dp, dp, h, H);
          assert pp + [dp] == g + [dp, dp];
        }
      }
    }
  }

  lemma {:induction false} InsertFixupValid<N>(t: Tree<N>, p: Path, H: int)
    requires FixupInv(t, p, H)
    ensures var r := InsertFixup(t, p);
      ColorOf(r) == Black && NoRedRed(r) && (BlackHeight(r, H) || BlackHeight(r, H + 1))
    decreases Measure(p)
  {
    InsertStepValid(t, p, H);
    match InsertStep(t, p)
    case Done(r) =>
    case Next(t', p') => InsertFixupValid(t', p', H);
  }

  // ---------------------------------------------------------------------
  // insertElement

  /**
   * insertElement (rbtree.c:208-229) on a tree with a root node: search for
   * `k`; a node holding `k` leaves the tree as it is; otherwise the reached
   * leaf node grows into a RED node over the new leaf nodes `a` and `b`
   * (addLeafChildren) and insertFixup runs from it.
   */
  function Insert<N>(t: Tree<N>, k: int, a: N, b: N): Tree<N>
  {
    var p := Descend(t, k);
    if Sub(t, p).Node? then t
    else
      ReplaceSub(t, p, Grow(Sub(t, p).node, k, a, b));
      InsertFixup(Replace(t, p, Grow(Sub(t, p).node, k, a, b)), p)
  }

  /** Putting a one-key subtree at the end of the search for an absent `k` keeps the order. */
  lemma {:induction false} GrowOrdered<N>(t: Tree<N>, k: int, s: Tree<N>)
    requires Ordered(t) && k !in Keys(t) && InOrder(s) == [k] && Keys(s) == {k}
    ensures Ordered(Replace(t, Descend(t, k), s))
    ensures Keys(Replace(t, Descend(t, k), s)) == Keys(t) + {k}
    decreases t
  {
    if t.Node? {
      var d := if k > t.key then Right else Left;
      var c := Child(t, d);
      var q := Descend(c, k);
      OrderedNode(t);
      GrowOrdered(c, k, s);
      assert Descend(t, k) == [d] + q;
      assert ([d] + q)[0] == d && ([d] + q)[1..] == q;
      var t' := WithChild(t, d, Replace(c, q, s));
      assert Replace(t, Descend(t, k), s) == t';
      OrderedNode(t');
    }
  }

  /** The tree after the search and the growing step, before insertFixup runs. */
  function Grown<N>(t: Tree<N>, k: int, a: N, b: N): Tree<N>
  {
    var p := Descend(t, k);
    Replace(t, p, Grow(Sub(t, p).node, k, a, b))
  }

  /** The growing step sets up the invariant of insertFixup at the new node. */
  lemma GrowInv<N>(t: Tree<N>, k: int, a: N, b: N)
    requires IsRB(t) && k !in Keys(t)
    ensures FixupInv(Grown(t, k, a, b), Descend(t, k), BH(t))
  {
    var p := Descend(t, k);
    DescendFinds(t, k);
    var s := Grow(Sub(t, p).node, k, a, b);
    ReplaceSub(t, p, s);
    RedSplit(t, p);
    RedReplace(t, p, s);
    BHSplit(t, p, BH(t));
    assert BH(Sub(t, p)) == 0;
    assert BlackHeight(s, 0);
    BHReplace(t, p, s, 0, BH(t));
    if p != [] {
      ReplaceColor(t, p, s);
    }
  }

  /** The growing step adds `k` in order, one key-holding node and the two new leaf nodes. */
  lemma GrowKeys<N>(t: Tree<N>, k: int, a: N, b: N)
    requires Ordered(t) && k !in Keys(t)
    ensures var t' := Grown(t, k, a, b);
      Ordered(t') && Keys(t') == Keys(t) + {k} && |InOrder(t')| == |InOrder(t)| + 1
  {
    var p := Descend(t, k);
    DescendFinds(t, k);
    var s := Grow(Sub(t, p).node, k, a, b);
    GrowOrdered(t, k, s);
    InOrderReplace(t, p, s);
    InOrderSplit(t, p);
  }

  /** Growing a leaf node adds exactly the two new leaf nodes. */
  lemma GrowObjs<N>(t: Tree<N>, p: Path, k: int, a: N, b: N)
    requires ValidPath(t, p) && Sub(t, p).Leaf?
    ensures var t' := Replace(t, p, Grow(Sub(t, p).node, k, a, b));
      Objs(t') == Objs(t) + {a, b} &&
      (Distinct(t) && a != b && a !in Objs(t) && b !in Objs(t) ==> Distinct(t'))
  {
    var x := Sub(t, p).node;
    var s := Grow(x, k, a, b);
    ObjsReplace(t, p, s);
    assert Objs(s) == {x, a, b} && Objs(Sub(t, p)) == {x};
    if Distinct(t) && a != b && a !in Objs(t) && b !in Objs(t) {
      assert x != a && x != b;
      assert Distinct(Leaf(a)) && Distinct(Leaf(b));
      assert Distinct(s);
    }
  }

  /** insertElement with a key that is not yet in the tree. */
  lemma InsertFresh<N>(t: Tree<N>, k: int, a: N, b: N)
    requires IsRB(t) && k !in Keys(t)
    ensures var r := Insert(t, k, a, b);
      IsRB(r) && Keys(r) == Keys(t) + {k} && |InOrder(r)| == |InOrder(t)| + 1 &&
      Objs(r) == Objs(t) + {a, b} &&
      (Distinct(t) && a != b && a !in Objs(t) && b !in Objs(t) ==> Distinct(r))
  {
    var p := Descend(t, k);
    DescendFinds(t, k);
    var t' := Grown(t, k, a, b);
    GrowInv(t, k, a, b);
    GrowKeys(t, k, a, b);
    GrowObjs(t, p, k, a, b);
    InsertFixupSame(t', p);
    InsertFixupValid(t', p, BH(t));
    var r := InsertFixup(t', p);
    assert r == Insert(t, k, a, b);
    if BlackHeight(r, BH(t)) {
      BlackHeightIsBH(r, BH(t));
    } else {
      BlackHeightIsBH(r, BH(t) + 1);
    }
    SameKeys(r, t');
  }

  /**
   * insertElement on a valid tree: the result is valid and holds the old
   * keys and `k`; it is the same tree when `k` was present, and otherwise
   * has one more key-holding node and exactly the two new leaf nodes more.
   */
  lemma InsertValid<N>(t: Tree<N>, k: int, a: N, b: N)
    requires IsRB(t)
    ensures var r := Insert(t, k, a, b);
      IsRB(r) && Keys(r) == Keys(t) + {k} &&
      (k in Keys(t) ==> r == t) &&
      (k !in Keys(t) ==> |InOrder(r)| == |InOrder(t)| + 1 && Objs(r) == Objs(t) + {a, b}) &&
      (Distinct(t) && a != b && a !in Objs(t) && b !in Objs(t) ==> Distinct(r))
  {
    DescendFinds(t, k);
    if k !in Keys(t) {
      InsertFresh(t, k, a, b);
    }
  }
}
