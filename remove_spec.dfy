/**
 * removeElement and removeFixup of rbtree.c, on tree values.
 *
 * `RemoveFixup(t, p)` is the loop of rbtree.c:231-289 with `pcur` at path
 * `p`: each call is one iteration. The loop runs until `pcur` is the root of
 * the tree; the cases act on the subtree of the parent of `pcur` and are put
 * back with `Replace`, so that the root of the result is always the root of
 * the tree (rbtree.c itself leaves `proot` behind after a rotation at the
 * root, see the module AsWritten).
 */
module RemoveSpec {
  import opened RedBlack

  // ---------------------------------------------------------------------
  // The cases of removeFixup on the subtree `ps` of the parent of `pcur`,
  // with `pcur` on side `d` of it

  /** Case 1 (rbtree.c:240-246): parent RED, brother BLACK, rotate the parent toward `pcur`. */
  function Case1<N>(ps: Tree<N>, d: Dir): (r: Tree<N>)
    requires ps.Node? && Child(ps, Flip(d)).Node?
    ensures r.Node? && Child(r, d).Node?
  {
    Rotate(WithChild(ps.(color := Red), Flip(d), Recolor(Child(ps, Flip(d)), Black)), d)
  }

  /** Case 2.1 (rbtree.c:251-258): near nephew BLACK, brother RED, rotate the brother away from `pcur`. */
  function Case21<N>(ps: Tree<N>, d: Dir): (r: Tree<N>)
    requires ps.Node? && Child(ps, Flip(d)).Node? && Child(Child(ps, Flip(d)), d).Node?
    ensures r.Node? && Child(r, Flip(d)).Node?
  {
    var b := Child(ps, Flip(d));
    WithChild(ps, Flip(d), Rotate(WithChild(b.(color := Red), d, Recolor(Child(b, d), Black)), Flip(d)))
  }

  /**
   * Case 2.2 (rbtree.c:262-273): parent and brother swap colours, the
   * parent is rotated toward `pcur` and the far nephew turns BLACK.
   */
  function Case22<N>(ps: Tree<N>, d: Dir): Tree<N>
    requires ps.Node? && Child(ps, Flip(d)).Node?
  {
    var b := Child(ps, Flip(d));
    Rotate(WithChild(ps.(color := b.color), Flip(d),
                     WithChild(b.(color := ps.color), Flip(d), Recolor(Child(b, Flip(d)), Black))), d)
  }

  /** Case 2.3 (rbtree.c:277-283): the parent turns BLACK and the brother RED. */
  function Case23<N>(ps: Tree<N>, d: Dir): Tree<N>
    requires ps.Node?
  {
    WithChild(ps.(color := Black), Flip(d), Recolor(Child(ps, Flip(d)), Red))
  }

  /**
   * Case 2.4 (rbtree.c:285-287) as it is meant: the brother turns RED, and
   * the parent, one BLACK node short on every path, becomes `pcur`.
   */
  function Case24<N>(ps: Tree<N>, d: Dir): Tree<N>
    requires ps.Node?
  {
    WithChild(ps, Flip(d), Recolor(Child(ps, Flip(d)), Red))
  }

  /** The end of one iteration at the parent: stop, or go on with the parent as `pcur`. */
  datatype Local<N> = Stop(sub: Tree<N>) | Up(sub: Tree<N>)

  /** The cases of a BLACK brother (rbtree.c:248-287), in the order the loop body tries them. */
  function Case2<N>(ps: Tree<N>, d: Dir): Local<N>
    requires ps.Node?
  {
    var b := Child(ps, Flip(d));
    if b.Leaf? then
      // the nephews of a leaf node are NULL in rbtree.c; no valid tree gets here
      Stop(ps)
    else
      var ps1 := if ColorOf(Child(b, d)) == Red then Case21(ps, d) else ps;
      if ColorOf(Child(Child(ps1, Flip(d)), Flip(d))) == Red then Stop(Case22(ps1, d))
      else if ps1.color == Red then Stop(Case23(ps1, d))
      else Up(Case24(ps1, d))
  }

  /**
   * One iteration of the loop of removeFixup with `pcur` at `p`; the loop
   * ends at the root. A RED brother is handled by case 1, after which the
   * rest of the body runs one level lower, with the old parent still the
   * parent of `pcur`; that parent is then RED, so the iteration ends there.
   */
  function RemoveStep<N>(t: Tree<N>, p: Path): (s: Step<N>)
    requires ValidPath(t, p)
    ensures s.Next? ==> ValidPath(s.tree, s.at) && |s.at| < |p|
  {
    if p == [] then Done(t)
    else
      PrefixValid(t, p);
      var q, d := Parent(p), Last(p);
      var ps := Sub(t, q);
      if ColorOf(Child(ps, Flip(d))) == Red then
        var r := Case1(ps, d);
        Done(Replace(t, q, WithChild(r, d, Case2(Child(r, d), d).sub)))
      else
        match Case2(ps, d)
        case Stop(ps') => Done(Replace(t, q, ps'))
        case Up(ps') =>
          ReplaceSub(t, q, ps');
          Next(Replace(t, q, ps'), q)
  }

  /**
   * After case 1 the parent of `pcur` is RED, so the rest of the
   * iteration always ends the loop (by case 2.2 or 2.3): case 2.4 is never
   * reached from case 1.
   */
  lemma Case1Stops<N>(ps: Tree<N>, d: Dir)
    requires ps.Node? && Child(ps, Flip(d)).Node?
    ensures Case2(Child(Case1(ps, d), d), d).Stop?
  {
    var c := Child(Case1(ps, d), d);
    assert c.color == Red;
  }

  /** The whole loop of removeFixup (rbtree.c:231-289) from `pcur` at `p`. */
  function RemoveFixup<N>(t: Tree<N>, p: Path): Tree<N>
    requires ValidPath(t, p)
    decreases |p|
  {
    match RemoveStep(t, p)
    case Done(r) => r
    case Next(t', p') => RemoveFixup(t', p')
  }

  // ---------------------------------------------------------------------
  // removeFixup only rearranges

  lemma Case1Same<N>(ps: Tree<N>, d: Dir)
    requires ps.Node? && Child(ps, Flip(d)).Node?
    ensures Same(ps, Case1(ps, d))
  {
    var p1 := Recolor(ps, Red);
    var p2 := WithChild(p1, Flip(d), Recolor(Child(ps, Flip(d)), Black));
    RecolorSame(ps, Red);
    RecolorSame(Child(ps, Flip(d)), Black);
    WithChildSame(p1, Flip(d), Recolor(Child(ps, Flip(d)), Black));
    RotateSame(p2, d);
    assert Case1(ps, d) == Rotate(p2, d);
  }

  lemma Case21Same<N>(ps: Tree<N>, d: Dir)
    requires ps.Node? && Child(ps, Flip(d)).Node? && Child(Child(ps, Flip(d)), d).Node?
    ensures Same(ps, Case21(ps, d))
  {
    var b := Child(ps, Flip(d));
    var b1 := Recolor(b, Red);
    var b2 := WithChild(b1, d, Recolor(Child(b, d), Black));
    RecolorSame(b, Red);
    RecolorSame(Child(b, d), Black);
    WithChildSame(b1, d, Recolor(Child(b, d), Black));
    RotateSame(b2, Flip(d));
    WithChildSame(ps, Flip(d), Rotate(b2, Flip(d)));
    assert Case21(ps, d) == WithChild(ps, Flip(d), Rotate(b2, Flip(d)));
  }

  lemma Case22Same<N>(ps: Tree<N>, d: Dir)
    requires ps.Node? && Child(ps, Flip(d)).Node?
    ensures Same(ps, Case22(ps, d))
  {
    var b := Child(ps, Flip(d));
    var b1 := Recolor(b, ps.color);
    var b2 := WithChild(b1, Flip(d), Recolor(Child(b, Flip(d)), Black));
    RecolorSame(b, ps.color);
    RecolorSame(Child(b, Flip(d)), Black);
    WithChildSame(b1, Flip(d), Recolor(Child(b, Flip(d)), Black));
    var p1 := Recolor(ps, b.color);
    RecolorSame(ps, b.color);
    WithChildSame(p1, Flip(d), b2);
    RotateSame(WithChild(p1, Flip(d), b2), d);
    assert Case22(ps, d) == Rotate(WithChild(p1, Flip(d), b2), d);
  }

  lemma Case23Same<N>(ps: Tree<N>, d: Dir)
    requires ps.Node?
    ensures Same(ps, Case23(ps, d))
  {
    var p1 := Recolor(ps, Black);
    RecolorSame(ps, Black);
    RecolorSame(Child(ps, Flip(d)), Red);
    WithChildSame(p1, Flip(d), Recolor(Child(ps, Flip(d)), Red));
  }

  lemma Case24Same<N>(ps: Tree<N>, d: Dir)
    requires ps.Node?
    ensures Same(ps, Case24(ps, d))
  {
    RecolorSame(Child(ps, Flip(d)), Red);
    WithChildSame(ps, Flip(d), Recolor(Child(ps, Flip(d)), Red));
  }

  lemma Case2Same<N>(ps: Tree<N>, d: Dir)
    requires ps.Node?
    ensures Same(ps, Case2(ps, d).sub)
  {
    var b := Child(ps, Flip(d));
    if b.Node? {
      var ps1 := if ColorOf(Child(b, d)) == Red then Case21(ps, d) else ps;
      if ColorOf(Child(b, d)) == Red {
        Case21Same(ps, d);
      }
      if ColorOf(Child(Child(ps1, Flip(d)), Flip(d))) == Red {
        Case22Same(ps1, d);
        SameTrans(ps, ps1, Case22(ps1, d));
      } else if ps1.color == Red {
        Case23Same(ps1, d);
        SameTrans(ps, ps1, Case23(ps1, d));
      } else {
        Case24Same(ps1, d);
        SameTrans(ps, ps1, Case24(ps1, d));
      }
    }
  }

  lemma RemoveStepSame<N>(t: Tree<N>, p: Path)
    requires ValidPath(t, p)
    ensures Same(t, RemoveStep(t, p).tree)
  {
    if p != [] {
      PrefixValid(t, p);
      var q, d := Parent(p), Last(p);
      var ps := Sub(t, q);
      if ColorOf(Child(ps, Flip(d))) == Red {
        var r := Case1(ps, d);
        Case1Same(ps, d);
        Case2Same(Child(r, d), d);
        WithChildSame(r, d, Case2(Child(r, d), d).sub);
        SameTrans(ps, r, WithChild(r, d, Case2(Child(r, d), d).sub));
        ReplaceSame(t, q, WithChild(r, d, Case2(Child(r, d), d).sub));
      } else {
        Case2Same(ps, d);
        ReplaceSame(t, q, Case2(ps, d).sub);
      }
    }
  }

  /** removeFixup only rearranges: same keys in the same order, same nodes. */
  lemma {:induction false} RemoveFixupSame<N>(t: Tree<N>, p: Path)
    requires ValidPath(t, p)
    ensures Same(t, RemoveFixup(t, p))
    decreases |p|
  {
    RemoveStepSame(t, p);
    match RemoveStep(t, p)
    case Done(r) =>
    case Next(t', p') =>
      RemoveFixupSame(t', p');
      SameTrans(t, t', RemoveFixup(t', p'));
  }

  // ---------------------------------------------------------------------
  // removeFixup restores the colouring invariants

  /**
   * The state at the head of each iteration of removeFixup, with `pcur` at
   * `p`: the subtree of `pcur` has a BLACK top and meets `h` BLACK nodes on
   * every path, one fewer than the rest of the tree expects of it; no RED
   * node has a RED child; the root is BLACK.
   */
  predicate Deficit<N>(t: Tree<N>, p: Path, h: int, H: int)
  {
    ValidPath(t, p) && ColorOf(Sub(t, p)) == Black && BlackHeight(Sub(t, p), h) &&
    BHCtx(t, p, h + 1, H) && NoRedRed(t) && ColorOf(t) == Black
  }

  /** The parent's subtree at the head of an iteration, `pcur` on side `d` one BLACK node short. */
  predicate ParentPre<N>(ps: Tree<N>, d: Dir, h: int)
  {
    ps.Node? && Child(ps, Flip(d)).Node? &&
    var c, b := Child(ps, d), Child(ps, Flip(d));
    ColorOf(c) == Black && BlackHeight(c, h) && NoRedRed(c) &&
    BlackHeight(b, h + 1) && NoRedRed(b) && (ps.color == Red ==> ColorOf(b) == Black)
  }

  /** The parent's subtree after an iteration that stops: balanced again, top no more RED than before. */
  predicate StopPost<N>(ps: Tree<N>, x: Tree<N>, h: int)
    requires ps.Node?
  {
    NoRedRed(x) && BlackHeight(x, h + 1 + BlackCount(ps.color)) &&
    (ColorOf(x) == Black || ColorOf(x) == ps.color)
  }

  /** The parent's subtree after case 2.4: valid inside, one BLACK node short as a whole. */
  predicate UpPost<N>(x: Tree<N>, h: int)
  {
    ColorOf(x) == Black && NoRedRed(x) && BlackHeight(x, h + 1)
  }

  /** What case 2.2 needs: a BLACK brother whose far child is RED. */
  predicate FarRedPre<N>(ps: Tree<N>, d: Dir, h: int)
  {
    ps.Node? && Child(ps, Flip(d)).Node? &&
    var c, b := Child(ps, d), Child(ps, Flip(d));
    var n, f := Child(b, d), Child(b, Flip(d));
    BlackHeight(c, h) && NoRedRed(c) && b.color == Black &&
    BlackHeight(n, h) && NoRedRed(n) &&
    f.Node? && f.color == Red &&
    BlackHeight(f.left, h) && BlackHeight(f.right, h) && NoRedRed(f.left) && NoRedRed(f.right)
  }

  lemma Case22Valid<N>(ps: Tree<N>, d: Dir, h: int)
    requires FarRedPre(ps, d, h)
    ensures StopPost(ps, Case22(ps, d), h)
  {
  }

  lemma Case21Valid<N>(ps: Tree<N>, d: Dir, h: int)
    requires ParentPre(ps, d, h) && ColorOf(Child(ps, Flip(d))) == Black
    requires ColorOf(Child(Child(ps, Flip(d)), d)) == Red
    ensures FarRedPre(Case21(ps, d), d, h) && Case21(ps, d).color == ps.color
  {
    var b := Child(ps, Flip(d));
    var n, f := Child(b, d), Child(b, Flip(d));
    assert BlackHeight(n, h) && BlackHeight(f, h) && NoRedRed(n) && NoRedRed(f);
    assert BlackHeight(Child(n, d), h) && BlackHeight(Child(n, Flip(d)), h);
    assert NoRedRed(Child(n, d)) && NoRedRed(Child(n, Flip(d)));
    var r := Case21(ps, d);
    var b' := Child(r, Flip(d));
    assert Child(b', d) == Child(n, d);
    assert Child(b', Flip(d)) == WithChild(b.(color := Red), d, Child(n, Flip(d)));
  }

  lemma Case23Valid<N>(ps: Tree<N>, d: Dir, h: int)
    requires ParentPre(ps, d, h) && ps.color == Red && ColorOf(Child(ps, Flip(d))) == Black
    requires ColorOf(Child(Child(ps, Flip(d)), d)) == Black
    requires ColorOf(Child(Child(ps, Flip(d)), Flip(d))) == Black
    ensures StopPost(ps, Case23(ps, d), h)
  {
  }

  lemma Case24Valid<N>(ps: Tree<N>, d: Dir, h: int)
    requires ParentPre(ps, d, h) && ps.color == Black && ColorOf(Child(ps, Flip(d))) == Black
    requires ColorOf(Child(Child(ps, Flip(d)), d)) == Black
    requires ColorOf(Child(Child(ps, Flip(d)), Flip(d))) == Black
    ensures UpPost(Case24(ps, d), h)
  {
  }

  /** The BLACK-brother cases stop with a valid parent subtree, or pass the shortage one level up. */
  lemma Case2Valid<N>(ps: Tree<N>, d: Dir, h: int)
    requires ParentPre(ps, d, h) && ColorOf(Child(ps, Flip(d))) == Black
    ensures Case2(ps, d).Stop? ==> StopPost(ps, Case2(ps, d).sub, h)
    ensures Case2(ps, d).Up? ==> ps.color == Black && UpPost(Case2(ps, d).sub, h)
  {
    var b := Child(ps, Flip(d));
    BlackHeightNonNeg(Child(ps, d), h);
    BlackHeightNonNeg(b, h + 1);
    if ColorOf(Child(b, d)) == Red {
      Case21Valid(ps, d, h);
      Case22Valid(Case21(ps, d), d, h);
    } else if ColorOf(Child(b, Flip(d))) == Red {
      var f := Child(b, Flip(d));
      assert BlackHeight(f, h) && NoRedRed(f);
      assert FarRedPre(ps, d, h);
      Case22Valid(ps, d, h);
    } else if ps.color == Red {
      Case23Valid(ps, d, h);
    } else {
      Case24Valid(ps, d, h);
    }
  }

  lemma Case1Valid<N>(ps: Tree<N>, d: Dir, h: int)
    requires ParentPre(ps, d, h) && ColorOf(Child(ps, Flip(d))) == Red
    ensures var r := Case1(ps, d);
      ps.color == Black && r.color == Black && Child(r, d).color == Red &&
      ParentPre(Child(r, d), d, h) &&
      BlackHeight(Child(r, Flip(d)), h + 1) && NoRedRed(Child(r, Flip(d)))
  {
    var b := Child(ps, Flip(d));
    BlackHeightNonNeg(Child(ps, d), h);
    BlackHeightNonNeg(Child(b, d), h + 1);
  }

  /** A whole iteration, seen at the parent of `pcur`. */
  lemma ParentValid<N>(ps: Tree<N>, d: Dir, h: int)
    requires ParentPre(ps, d, h)
    ensures ColorOf(Child(ps, Flip(d))) == Red ==>
      var r := Case1(ps, d);
      StopPost(ps, WithChild(r, d, Case2(Child(r, d), d).sub), h)
    ensures ColorOf(Child(ps, Flip(d))) == Black && Case2(ps, d).Stop? ==>
      StopPost(ps, Case2(ps, d).sub, h)
    ensures ColorOf(Child(ps, Flip(d))) == Black && Case2(ps, d).Up? ==>
      ps.color == Black && UpPost(Case2(ps, d).sub, h)
  {
    if ColorOf(Child(ps, Flip(d))) == Red {
      Case1Valid(ps, d, h);
      var r := Case1(ps, d);
      Case2Valid(Child(r, d), d, h);
    } else {
      Case2Valid(ps, d, h);
    }
  }

  /** The parent's subtree at the head of an iteration, from the invariant on the whole tree. */
  lemma ParentSplit<N>(t: Tree<N>, p: Path, h: int, H: int)
    requires Deficit(t, p, h, H) && p != []
    ensures ValidPath(t, Parent(p))
    ensures var ps := Sub(t, Parent(p));
      ParentPre(ps, Last(p), h) && RedCtx(t, Parent(p), ps.color) &&
      BHCtx(t, Parent(p), h + 1 + BlackCount(ps.color), H)
  {
    var q, d := Parent(p), Last(p);
    PrefixValid(t, p);
    PathSplit(p);
    BHCtxAppend(t, q, d, h + 1, H);
    RedSplit(t, q);
    var ps := Sub(t, q);
    BlackHeightNonNeg(Sub(t, p), h);
    BlackHeightNonNeg(Child(ps, Flip(d)), h + 1);
  }

  /** Putting back a parent's subtree that `StopPost` describes gives a valid colouring. */
  lemma StopJoin<N>(t: Tree<N>, q: Path, x: Tree<N>, h: int, H: int)
    requires ValidPath(t, q) && Sub(t, q).Node? && ColorOf(t) == Black
    requires RedCtx(t, q, Sub(t, q).color) && BHCtx(t, q, h + 1 + BlackCount(Sub(t, q).color), H)
    requires StopPost(Sub(t, q), x, h)
    requires q == [] ==> ColorOf(x) == Black
    ensures var r := Replace(t, q, x); NoRedRed(r) && ColorOf(r) == Black && BlackHeight(r, H)
  {
    if ColorOf(x) != Sub(t, q).color {
      RedCtxBlack(t, q);
    }
    RedReplace(t, q, x);
    BHReplace(t, q, x, h + 1 + BlackCount(Sub(t, q).color), H);
    if q != [] {
      ReplaceColor(t, q, x);
    }
  }

  /** One iteration either leaves a valid colouring or keeps the invariant one level up. */
  lemma RemoveStepValid<N>(t: Tree<N>, p: Path, h: int, H: int)
    requires Deficit(t, p, h, H)
    ensures RemoveStep(t, p).Done? ==>
      var r := RemoveStep(t, p).tree;
      NoRedRed(r) && ColorOf(r) == Black && (BlackHeight(r, H) || BlackHeight(r, H - 1))
    ensures RemoveStep(t, p).Next? ==> Deficit(RemoveStep(t, p).tree, RemoveStep(t, p).at, h + 1, H)
  {
    if p == [] {
      assert BlackHeight(t, H - 1);
    } else {
      ParentSplit(t, p, h, H);
      var q, d := Parent(p), Last(p);
      var ps := Sub(t, q);
      ParentValid(ps, d, h);
      if q == [] {
        assert ps.color == Black;
      }
      if ColorOf(Child(ps, Flip(d))) == Red {
        var r := Case1(ps, d);
        StopJoin(t, q, WithChild(r, d, Case2(Child(r, d), d).sub), h, H);
      } else if Case2(ps, d).Stop? {
        StopJoin(t, q, Case2(ps, d).sub, h, H);
      } else {
        var x := Case2(ps, d).sub;
        ReplaceSub(t, q, x);
        RedReplace(t, q, x);
        BHReplace(t, q, x, h + 2, H);
        if q != [] {
          ReplaceColor(t, q, x);
        }
      }
    }
  }

  /** removeFixup from a one-BLACK-short `pcur` ends with a valid colouring. */
  lemma {:induction false} RemoveFixupValid<N>(t: Tree<N>, p: Path, h: int, H: int)
    requires Deficit(t, p, h, H)
    ensures var r := RemoveFixup(t, p);
      NoRedRed(r) && ColorOf(r) == Black && (BlackHeight(r, H) || BlackHeight(r, H - 1))
    decreases |p|
  {
    RemoveStepValid(t, p, h, H);
    match RemoveStep(t, p)
    case Done(r) =>
    case Next(t', p') => RemoveFixupValid(t', p', h + 1, H);
  }

  // ---------------------------------------------------------------------
  // removeElement

  /**
   * The successor search of rbtree.c:306-314, from the right child: the
   * path down the left spine to the node whose left child is a leaf node.
   */
  function Leftmost<N>(t: Tree<N>): (p: Path)
    requires t.Node?
    ensures ValidPath(t, p) && Sub(t, p).Node? && Sub(t, p).left.Leaf?
    ensures Before(t, p) == []
    decreases t
  {
    if t.left.Leaf? then []
    else
      var q := Leftmost(t.left);
      assert ([Left] + q)[0] == Left && ([Left] + q)[1..] == q;
      [Left] + q
  }

  /** One step down the left spine. */
  lemma LeftmostStep<N>(x: Tree<N>)
    requires x.Node? && x.left.Node?
    ensures Leftmost(x) == [Left] + Leftmost(x.left)
  {
  }

  /**
   * What removeElement does to the node `x` it takes out once `x` has a
   * leaf child: a RED node becomes a leaf node (case 2, rbtree.c:319-324);
   * a BLACK node with a non-leaf child, the left one if both are, takes
   * that child's key and the child becomes a leaf node (case 3.1,
   * rbtree.c:329-338); a BLACK node with two leaf children becomes a leaf
   * node (case 3.2, rbtree.c:342-355).
   */
  function Detach<N>(x: Tree<N>): Tree<N>
    requires x.Node?
  {
    if x.color == Red then Leaf(x.node)
    else if x.left.Node? then x.(key := x.left.key, left := Leaf(x.left.node))
    else if x.right.Node? then x.(key := x.right.key, right := Leaf(x.right.node))
    else Leaf(x.node)
  }

  /** Case 3.2: the node taken out is BLACK with two leaf children, so removeFixup must run. */
  predicate Short<N>(x: Tree<N>)
    requires x.Node?
  {
    x.color == Black && x.left.Leaf? && x.right.Leaf?
  }

  /**
   * Where removeElement takes a node out for the key at `p`: the node itself
   * when it has a leaf child, else its successor (rbtree.c:304-315).
   */
  function Target<N>(t: Tree<N>, p: Path): (q: Path)
    requires ValidPath(t, p) && Sub(t, p).Node?
    ensures ValidPath(t, q) && Sub(t, q).Node?
    ensures Sub(t, q).left.Leaf? || Sub(t, q).right.Leaf?
  {
    var n := Sub(t, p);
    if n.left.Node? && n.right.Node? then
      var l := Leftmost(n.right);
      SubAppend(n, [Right], l);
      SubAppend(t, p, [Right] + l);
      p + ([Right] + l)
    else p
  }

  /**
   * The tree once removeElement has taken out the key at `p`, before
   * removeFixup: with two non-leaf children the node at `p` takes its
   * successor's key (rbtree.c:312) and the successor is detached instead.
   */
  function Unlink<N>(t: Tree<N>, p: Path): (r: Tree<N>)
    requires ValidPath(t, p) && Sub(t, p).Node?
    ensures ValidPath(r, Target(t, p))
  {
    var q := Target(t, p);
    var t0 := Replace(t, p, Sub(t, p).(key := Sub(t, q).key));
    KeySame(t, p, q, Sub(t, q).key);
    ReplaceSub(t0, q, Detach(Sub(t0, q)));
    Replace(t0, q, Detach(Sub(t0, q)))
  }

  /** `Unlink` as the two writes removeElement makes: the key copy at `p`, then `Detach` at the target. */
  lemma UnlinkAt<N>(t: Tree<N>, p: Path)
    requires ValidPath(t, p) && Sub(t, p).Node?
    ensures var q := Target(t, p); var t0 := Replace(t, p, Sub(t, p).(key := Sub(t, q).key));
      ValidPath(t0, q) && Sub(t0, q) == Sub(t, q) && Unlink(t, p) == Replace(t0, q, Detach(Sub(t, q)))
  {
    var q := Target(t, p);
    KeySame(t, p, q, Sub(t, q).key);
  }

  /**
   * removeElement (rbtree.c:292-356) on a tree with a root node: `None` when
   * the tree loses its last key-holding node (ptree->proot becomes NULL),
   * otherwise the new tree; a missing `k` leaves the tree as it is.
   */
  function Remove<N>(t: Tree<N>, k: int): Option<Tree<N>>
  {
    var p := Descend(t, k);
    if Sub(t, p).Leaf? then Some(t)
    else
      var q := Target(t, p);
      if !Short(Sub(t, q)) then Some(Unlink(t, p))
      else if q == [] then None
      else Some(RemoveFixup(Unlink(t, p), q))
  }

  /** Copying a key into the node at `p` changes nothing that removeElement looks at below it. */
  lemma KeySame<N>(t: Tree<N>, p: Path, q: Path, m: int)
    requires ValidPath(t, p) && Sub(t, p).Node? && ValidPath(t, q)
    requires q == p || (|q| > |p| && q[..|p|] == p)
    ensures var t0 := Replace(t, p, Sub(t, p).(key := m));
      ValidPath(t0, q) && (q != p ==> Sub(t0, q) == Sub(t, q)) &&
      (q == p ==> Sub(t0, q) == Sub(t, p).(key := m))
  {
    var t0 := Replace(t, p, Sub(t, p).(key := m));
    ReplaceSub(t, p, Sub(t, p).(key := m));
    if q != p {
      var r := q[|p|..];
      assert q == p + r;
      SubAppend(t, p, r);
      SubAppend(t0, p, r);
      assert r[0] == Left ==> Child(Sub(t0, p), r[0]) == Child(Sub(t, p), r[0]);
      assert Sub(Sub(t0, p), r) == Sub(Child(Sub(t, p), r[0]), r[1..]);
    }
  }

  // ---------------------------------------------------------------------
  // removeElement keeps the tree a valid red-black search tree.

  /** Dropping one element of a strictly increasing sequence keeps it so and loses just that key. */
  lemma DropOne(a: seq<int>, k: int, b: seq<int>)
    requires StrictlyIncreasing(a + [k] + b)
    ensures StrictlyIncreasing(a + b)
    ensures forall x :: x in a + b <==> x in a + [k] + b && x != k
  {
    StrictlyIncreasingConcat(a + [k], b);
    StrictlyIncreasingConcat(a, [k]);
    StrictlyIncreasingConcat(a, b);
    forall i, j | 0 <= i < |a| && 0 <= j < |b| ensures a[i] < b[j] {
      assert (a + [k])[i] == a[i];
    }
    forall x | x in a + [k] + b
      ensures x in a + b <==> x != k
    {
      if x in a {
        var i :| 0 <= i < |a| && a[i] == x;
        assert (a + [k])[i] == x && (a + [k])[|a|] == k;
      } else if x in b {
        var j :| 0 <= j < |b| && b[j] == x;
        assert (a + [k])[|a|] == k;
      }
    }
  }

  /**
   * A node with a leaf child in a red-black subtree of black height `h`:
   * a RED one has two leaf children, a BLACK one at most one RED child
   * whose own children are leaves.
   */
  lemma LowNode<N>(x: Tree<N>, h: int)
    requires x.Node? && BlackHeight(x, h) && NoRedRed(x) && (x.left.Leaf? || x.right.Leaf?)
    ensures h == BlackCount(x.color)
    ensures x.color == Red ==> x.left.Leaf? && x.right.Leaf?
    ensures x.left.Node? ==> x.left.color == Red && x.left.left.Leaf? && x.left.right.Leaf?
    ensures x.right.Node? ==> x.right.color == Red && x.right.left.Leaf? && x.right.right.Leaf?
  {
    assert BlackHeight(x.left, h - BlackCount(x.color)) && BlackHeight(x.right, h - BlackCount(x.color));
    forall c | c == x.left || c == x.right
      ensures c.Node? ==> c.color == Red && c.left.Leaf? && c.right.Leaf?
    {
      ZeroBlack(c);
      if c.Node? {
        ZeroBlack(c.left);
        ZeroBlack(c.right);
      }
    }
  }

  /** A key-holding node of black height 0 is RED. */
  lemma ZeroBlack<N>(t: Tree<N>)
    requires BlackHeight(t, 0)
    ensures t.Node? ==> t.color == Red
  {
    if t.Node? {
      BlackHeightNonNeg(t.left, -BlackCount(t.color));
    }
  }

  /**
   * Detaching the node taken out: its keys lose the node's own, it stays
   * valid and BLACK, and its black height drops by one exactly in case 3.2.
   */
  lemma DetachValid<N>(x: Tree<N>, h: int)
    requires x.Node? && BlackHeight(x, h) && NoRedRed(x) && (x.left.Leaf? || x.right.Leaf?)
    ensures var y := Detach(x);
      InOrder(y) == InOrder(x.left) + InOrder(x.right) && NoRedRed(y) && ColorOf(y) == Black &&
      BlackHeight(y, if Short(x) then h - 1 else h) &&
      Objs(y) <= Objs(x) && (Distinct(x) ==> Distinct(y))
  {
    LowNode(x, h);
    var y := Detach(x);
    if x.color == Black && x.left.Node? {
      assert InOrder(x.left) == [x.left.key];
    } else if x.color == Black && x.right.Node? {
      assert InOrder(x.right) == [x.right.key];
    }
  }

  /** The tree with a key copied in keeps its colours, black height and nodes. */
  lemma CopyKey<N>(t: Tree<N>, p: Path, m: int, H: int)
    requires ValidPath(t, p) && Sub(t, p).Node?
    ensures var t0 := Replace(t, p, Sub(t, p).(key := m));
      (NoRedRed(t0) <==> NoRedRed(t)) && (BlackHeight(t0, H) <==> BlackHeight(t, H)) &&
      ColorOf(t0) == ColorOf(t) && Objs(t0) == Objs(t) && (Distinct(t) ==> Distinct(t0))
  {
    var n := Sub(t, p);
    var s := n.(key := m);
    var t0 := Replace(t, p, s);
    RedReplace(t, p, s);
    RedSplit(t, p);
    assert NoRedRed(s) == NoRedRed(n) && Objs(s) == Objs(n) && Distinct(s) == Distinct(n);
    ObjsReplace(t, p, s);
    ReplaceSub(t, p, s);
    if BlackHeight(t, H) {
      BHSplit(t, p, H);
      assert BlackHeight(s, BH(n));
      BHReplace(t, p, s, BH(n), H);
    }
    if BlackHeight(t0, H) {
      BHSplit(t0, p, H);
      assert BlackHeight(n, BH(s));
      BHReplace(t0, p, n, BH(s), H);
      ReplaceReplace(t, p, s, n);
      ReplaceSelf(t, p);
    }
    if p != [] { ReplaceColor(t, p, s); }
  }

  /**
   * The successor case below the node: moving the leftmost key of the right
   * subtree up and detaching its node keeps the in-order keys but that one.
   */
  lemma SuccessorKeys<N>(n: Tree<N>, l: Path, D: Tree<N>)
    requires n.Node? && ValidPath(n.right, l) && Sub(n.right, l).Node? && Before(n.right, l) == []
    requires Sub(n.right, l).left.Leaf? && InOrder(D) == InOrder(Sub(n.right, l).right)
    ensures InOrder(n.(key := Sub(n.right, l).key, right := Replace(n.right, l, D))) ==
      InOrder(n.left) + InOrder(n.right)
  {
    InOrderReplace(n.right, l, D);
    InOrderSplit(n.right, l);
  }

  /** Target at `p`: the node there is detached. */
  lemma UnlinkShapeA<N>(t: Tree<N>, p: Path)
    requires ValidPath(t, p) && Sub(t, p).Node? && Target(t, p) == p
    ensures Unlink(t, p) == Replace(t, p, Detach(Sub(t, p)))
  {
    var n := Sub(t, p);
    var s0 := n.(key := n.key);
    assert s0 == n;
    ReplaceSelf(t, p);
  }

  /** Target below `p`: the successor's key moves up and its node is detached. */
  lemma UnlinkShapeB<N>(t: Tree<N>, p: Path)
    requires ValidPath(t, p) && Sub(t, p).Node? && Target(t, p) != p
    ensures var n, q := Sub(t, p), Target(t, p);
      var x := Sub(t, q);
      var l := Leftmost(n.right);
      n.right.Node? && Sub(n.right, l) == x &&
      Unlink(t, p) == Replace(t, p, n.(key := x.key, right := Replace(n.right, l, Detach(x))))
  {
    var n, q := Sub(t, p), Target(t, p);
    var l := Leftmost(n.right);
    TargetBelow(t, p);
    var x := Sub(n.right, l);
    var s0 := n.(key := x.key);
    var t0 := Replace(t, p, s0);
    KeySame(t, p, q, x.key);
    assert Sub(t0, q) == x;
    var D := Detach(x);
    ReplaceSub(t, p, s0);
    ReplaceAppend(t0, p, [Right] + l, D);
    var s1 := Replace(s0, [Right] + l, D);
    assert s1 == s0.(right := Replace(n.right, l, D));
    ReplaceReplace(t, p, s0, s1);
  }

  /** Where the target lies when it is not `p` itself: at the leftmost node of the right subtree. */
  lemma TargetBelow<N>(t: Tree<N>, p: Path)
    requires ValidPath(t, p) && Sub(t, p).Node? && Target(t, p) != p
    ensures var n := Sub(t, p); var l := Leftmost(n.right);
      n.right.Node? && ValidPath(n.right, l) && Target(t, p) == p + ([Right] + l) &&
      ValidPath(Sub(t, p), [Right] + l) && Sub(n.right, l) == Sub(t, Target(t, p)) &&
      Sub(Sub(t, p), [Right] + l) == Sub(n.right, l)
  {
    var n, q := Sub(t, p), Target(t, p);
    var l := Leftmost(n.right);
    assert q == p + ([Right] + l);
    SubAppend(t, p, [Right] + l);
    assert ([Right] + l)[0] == Right && ([Right] + l)[1..] == l;
  }

  /**
   * What removeElement's unlinking does to the keys: exactly the key at `p`
   * is gone and the others stay in order.
   */
  lemma UnlinkKeys<N>(t: Tree<N>, p: Path, H: int)
    requires ValidPath(t, p) && Sub(t, p).Node? && NoRedRed(t) && BlackHeight(t, H)
    ensures var n := Sub(t, p);
      InOrder(Unlink(t, p)) == Before(t, p) + InOrder(n.left) + InOrder(n.right) + After(t, p)
  {
    var q := Target(t, p);
    var x := Sub(t, q);
    RedSplit(t, q);
    BHSplit(t, q, H);
    DetachValid(x, BH(x));
    if q == p {
      UnlinkShapeA(t, p);
      InOrderReplace(t, p, Detach(x));
    } else {
      UnlinkKeysBelow(t, p, Detach(x));
    }
  }

  /** UnlinkKeys when the successor is taken out. */
  lemma UnlinkKeysBelow<N>(t: Tree<N>, p: Path, D: Tree<N>)
    requires ValidPath(t, p) && Sub(t, p).Node? && Target(t, p) != p
    requires D == Detach(Sub(t, Target(t, p)))
    requires InOrder(D) == InOrder(Sub(t, Target(t, p)).left) + InOrder(Sub(t, Target(t, p)).right)
    ensures var n := Sub(t, p);
      InOrder(Unlink(t, p)) == Before(t, p) + InOrder(n.left) + InOrder(n.right) + After(t, p)
  {
    var n, x := Sub(t, p), Sub(t, Target(t, p));
    UnlinkShapeB(t, p);
    var l := Leftmost(n.right);
    var s1 := n.(key := x.key, right := Replace(n.right, l, D));
    SuccessorKeys(n, l, D);
    InOrderReplace(t, p, s1);
  }

  /** The unlinking adds no node identity and keeps them distinct. */
  lemma UnlinkObjs<N>(t: Tree<N>, p: Path, H: int)
    requires ValidPath(t, p) && Sub(t, p).Node? && NoRedRed(t) && BlackHeight(t, H)
    ensures Objs(Unlink(t, p)) <= Objs(t) && (Distinct(t) ==> Distinct(Unlink(t, p)))
  {
    var n, q := Sub(t, p), Target(t, p);
    var m := Sub(t, q).key;
    var t0 := Replace(t, p, n.(key := m));
    KeySame(t, p, q, m);
    var x := Sub(t0, q);
    CopyKey(t, p, m, H);
    RedSplit(t0, q);
    BHSplit(t0, q, H);
    DetachValid(x, BH(x));
    ObjsReplace(t0, q, Detach(x));
    ObjsReplace(t0, q, x);
  }

  /**
   * What removeElement's unlinking does to the colours: a valid tree stays
   * valid unless a BLACK node with two leaf children was taken out below
   * the root, in which case removeFixup's precondition holds there.
   */
  lemma UnlinkColors<N>(t: Tree<N>, p: Path, H: int)
    requires ValidPath(t, p) && Sub(t, p).Node? && NoRedRed(t) && BlackHeight(t, H) && ColorOf(t) == Black
    ensures var q, r := Target(t, p), Unlink(t, p);
      (!Short(Sub(t, q)) ==> NoRedRed(r) && ColorOf(r) == Black && BlackHeight(r, H)) &&
      (Short(Sub(t, q)) && q != [] ==> Deficit(r, q, BH(Sub(t, q)) - 1, H))
  {
    var n, q := Sub(t, p), Target(t, p);
    var m := Sub(t, q).key;
    var t0 := Replace(t, p, n.(key := m));
    KeySame(t, p, q, m);
    var x := Sub(t0, q);
    assert Short(x) == Short(Sub(t, q));
    var D := Detach(x);
    var h := BH(x);
    CopyKey(t, p, m, H);
    RedSplit(t0, q);
    BHSplit(t0, q, H);
    DetachValid(x, h);
    if ColorOf(x) == Red {
      RedCtxBlack(t0, q);
    }
    RedReplace(t0, q, D);
    ReplaceSub(t0, q, D);
    if q != [] {
      ReplaceColor(t0, q, D);
    }
    if Short(x) {
      BHReplace(t0, q, D, h, H);
    } else {
      BHReplace(t0, q, D, h, H);
    }
  }

  /** removeElement of a missing key leaves the tree as it is (rbtree.c:301-302). */
  lemma RemoveAbsent<N>(t: Tree<N>, k: int)
    requires Ordered(t) && k !in Keys(t)
    ensures Remove(t, k) == Some(t)
  {
    DescendFinds(t, k);
  }

  /**
   * removeElement of a present key on a valid tree: the tree becomes empty
   * (ptree->proot is NULL) exactly when `k` was its only key; otherwise the
   * result is a valid red-black search tree holding the other keys, one
   * key-holding node fewer, and no node identity that was not there.
   */
  lemma RemovePresent<N>(t: Tree<N>, k: int)
    requires IsRB(t) && k in Keys(t)
    ensures Remove(t, k).None? <==> InOrder(t) == [k]
    ensures Remove(t, k).Some? ==>
      var r := Remove(t, k).value;
      IsRB(r) && Keys(r) == Keys(t) - {k} && |InOrder(r)| == |InOrder(t)| - 1 &&
      Objs(r) <= Objs(t) && (Distinct(t) ==> Distinct(r))
  {
    DescendFinds(t, k);
    var p := Descend(t, k);
    var n, q := Sub(t, p), Target(t, p);
    if !Short(Sub(t, q)) {
      assert Remove(t, k) == Some(Unlink(t, p));
      UnlinkValid(t, p);
    } else if q == [] {
      assert Remove(t, k) == None;
      assert p == [];
      assert InOrder(t) == [k];
    } else {
      assert Remove(t, k) == Some(RemoveFixup(Unlink(t, p), q));
      UnlinkValid(t, p);
    }
    if InOrder(t) == [k] {
      assert InOrder(t.left) == [] && InOrder(t.right) == [];
      assert t.left.Leaf? && t.right.Leaf?;
      assert p == [];
    }
  }

  /** Unlinking the node at `p` drops its key and keeps the order. */
  lemma UnlinkOrdered<N>(t: Tree<N>, p: Path)
    requires IsRB(t) && ValidPath(t, p) && Sub(t, p).Node?
    ensures var k, u := Sub(t, p).key, Unlink(t, p);
      Ordered(u) && Keys(u) == Keys(t) - {k} && |InOrder(u)| == |InOrder(t)| - 1
  {
    var n := Sub(t, p);
    UnlinkKeys(t, p, BH(t));
    InOrderSplit(t, p);
    assert InOrder(n) == InOrder(n.left) + [n.key] + InOrder(n.right);
    DropKey(t, Unlink(t, p), Before(t, p), InOrder(n.left), n.key, InOrder(n.right), After(t, p));
  }

  /** A tree whose in-order keys are another's minus one keeps order and loses just that key. */
  lemma DropKey<N>(t: Tree<N>, u: Tree<N>, bf: seq<int>, l: seq<int>, k: int, m: seq<int>, af: seq<int>)
    requires Ordered(t) && InOrder(t) == bf + (l + [k] + m) + af && InOrder(u) == bf + l + m + af
    ensures Ordered(u) && Keys(u) == Keys(t) - {k} && |InOrder(u)| == |InOrder(t)| - 1
  {
    var a, b := bf + l, m + af;
    assert InOrder(t) == a + [k] + b;
    assert InOrder(u) == a + b;
    DropOne(a, k, b);
    KeysInOrder(t);
    KeysInOrder(u);
    forall x ensures x in Keys(u) <==> x in Keys(t) - {k} {
    }
  }

  /** RemovePresent once the key is found at `p`. */
  lemma UnlinkValid<N>(t: Tree<N>, p: Path)
    requires IsRB(t) && ValidPath(t, p) && Sub(t, p).Node?
    requires Target(t, p) != [] || !Short(Sub(t, Target(t, p)))
    ensures var k, q := Sub(t, p).key, Target(t, p);
      var r := if Short(Sub(t, q)) then RemoveFixup(Unlink(t, p), q) else Unlink(t, p);
      IsRB(r) && Keys(r) == Keys(t) - {k} && |InOrder(r)| == |InOrder(t)| - 1 &&
      Objs(r) <= Objs(t) && (Distinct(t) ==> Distinct(r))
  {
    var q := Target(t, p);
    var H := BH(t);
    var u := Unlink(t, p);
    UnlinkOrdered(t, p);
    UnlinkObjs(t, p, H);
    UnlinkColors(t, p, H);
    if !Short(Sub(t, q)) {
      BlackHeightIsBH(u, H);
    } else {
      RemoveFixupRB(u, q, BH(Sub(t, q)) - 1, H);
    }
  }

  /**
   * Case 3.2.2 of removeElement on values: the BLACK node with two leaf
   * children at the target becomes a leaf, one BLACK node short, from
   * which removeFixup leaves a red-black tree with one key fewer.
   */
  lemma ShortUnlink<N>(t: Tree<N>, p: Path)
    requires IsRB(t) && ValidPath(t, p) && Sub(t, p).Node?
    requires Target(t, p) != [] && Short(Sub(t, Target(t, p)))
    ensures var q, x, u := Target(t, p), Sub(t, Target(t, p)), Unlink(t, p);
      var t0 := Replace(t, p, Sub(t, p).(key := x.key));
      ValidPath(t0, q) && u == Replace(t0, q, Leaf(x.node)) && u.node == t.node &&
      Deficit(u, q, BH(x) - 1, BH(t)) && Sub(u, q) == Leaf(x.node) && Objs(u) <= Objs(t) &&
      (Distinct(t) ==> Distinct(u)) &&
      var r := RemoveFixup(u, q);
      IsRB(r) && Keys(r) == Keys(t) - {Sub(t, p).key} && |InOrder(r)| == |InOrder(t)| - 1 && Objs(r) == Objs(u)
  {
    var q, x := Target(t, p), Sub(t, Target(t, p));
    var t0 := Replace(t, p, Sub(t, p).(key := x.key));
    UnlinkAt(t, p);
    UnlinkColors(t, p, BH(t));
    UnlinkObjs(t, p, BH(t));
    UnlinkValid(t, p);
    ReplaceSub(t0, q, Leaf(x.node));
    ReplaceTop(t0, q, Leaf(x.node));
    RemoveFixupSame(Unlink(t, p), q);
  }

  /** removeFixup from a node one BLACK node short leaves a red-black tree of the same keys and nodes. */
  lemma RemoveFixupRB<N>(u: Tree<N>, q: Path, h: int, H: int)
    requires Deficit(u, q, h, H) && Ordered(u)
    ensures var r := RemoveFixup(u, q);
      IsRB(r) && Same(u, r) && Keys(r) == Keys(u)
  {
    RemoveFixupValid(u, q, h, H);
    RemoveFixupSame(u, q);
    var r := RemoveFixup(u, q);
    SameKeys(u, r);
    if BlackHeight(r, H) { BlackHeightIsBH(r, H); } else { BlackHeightIsBH(r, H - 1); }
  }
}
