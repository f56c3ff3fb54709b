/**
 * The writes of removeFixup and removeElement (rbtree.c:231-356) on the
 * nodes of a linked tree. Each case of removeFixup acts on the subtree of
 * the parent of `pcur`; its writes are followed as edits of that subtree
 * value, and a lemma shows that the edits give the case of RemoveSpec.
 */
module Removal {
  import opened RedBlack
  import opened Nodes
  import RemoveSpec

  // ---------------------------------------------------------------------
  // Writes inside the subtree at `q`

  /** A write at `q + r` into a tree whose subtree at `q` is `A` is the write of `Replace(A, r, s)` at `q`. */
  lemma ReplaceInside<N>(t: Tree<N>, q: Path, A: Tree<N>, r: Path, s: Tree<N>)
    requires ValidPath(t, q) && ValidPath(A, r)
    ensures ValidPath(Replace(t, q, A), q + r) && Sub(Replace(t, q, A), q + r) == Sub(A, r)
    ensures Replace(Replace(t, q, A), q + r, s) == Replace(t, q, Replace(A, r, s))
  {
    var t1 := Replace(t, q, A);
    ReplaceSub(t, q, A);
    SubAppend(t1, q, r);
    ReplaceAppend(t1, q, r, s);
    ReplaceReplace(t, q, A, Replace(A, r, s));
  }

  /** The grandchild of `t` on sides `a` then `b`, and a write there. */
  lemma TwoDown<N>(t: Tree<N>, a: Dir, b: Dir, s: Tree<N>)
    requires t.Node? && Child(t, a).Node?
    ensures ValidPath(t, [a, b]) && Sub(t, [a, b]) == Child(Child(t, a), b)
    ensures Replace(t, [a, b], s) == WithChild(t, a, WithChild(Child(t, a), b, s))
  {
    var c, ab, bs: Path := Child(t, a), [a, b], [b];
    var e: Path := bs[1..];
    assert ab[0] == a && ab[1..] == bs && bs[0] == b && e == [];
    assert ValidPath(Child(c, b), e) && ValidPath(c, bs) && ValidPath(t, ab);
    assert Sub(c, bs) == Sub(Child(c, b), e) == Child(c, b);
    assert Sub(t, ab) == Sub(c, bs);
    assert Replace(c, bs, s) == WithChild(c, b, Replace(Child(c, b), e, s)) == WithChild(c, b, s);
    assert Replace(t, ab, s) == WithChild(t, a, Replace(c, bs, s));
  }

  /** The colour write `x->color = c` on the inner node at `r` of the subtree `A` standing at `q`. */
  method PaintIn(x: TreeNode, c: Color, ghost t: Tree<TreeNode>, ghost q: Path, ghost A: Tree<TreeNode>, ghost r: Path)
    requires ValidPath(t, q) && ValidPath(A, r) && Sub(A, r).Node? && Sub(A, r).node == x
    requires Linked(Replace(t, q, A)) && Objs(Replace(t, q, A)) == Objs(t)
    modifies x
    ensures var A' := Replace(A, r, Recolor(Sub(A, r), c));
      Linked(Replace(t, q, A')) && Objs(Replace(t, q, A')) == Objs(t)
    ensures x.parent == old(x.parent) && x.lchild == old(x.lchild) && x.rchild == old(x.rchild) && x.color == c
  {
    ghost var s := Recolor(Sub(A, r), c);
    ReplaceInside(t, q, A, r, s);
    Paint(x, c, Replace(t, q, A), q + r);
    RecolorSame(Sub(A, r), c);
    ReplaceSame(Replace(t, q, A), q + r, s);
  }

  /**
   * leftRotate (`left`) or rightRotate on the inner node at `r` of the
   * subtree `A` standing at `q`; `d` is the direction of the rotation.
   */
  method RotateIn(x: TreeNode, left: bool, ghost d: Dir, ghost t: Tree<TreeNode>, ghost q: Path, ghost A: Tree<TreeNode>, ghost r: Path)
    requires left <==> d == Left
    requires ValidPath(t, q) && ValidPath(A, r) && Sub(A, r).Node? && Sub(A, r).node == x
    requires Child(Sub(A, r), Flip(d)).Node?
    requires Linked(Replace(t, q, A)) && Objs(Replace(t, q, A)) == Objs(t)
    modifies Objs(t)
    ensures var A' := Replace(A, r, Rotate(Sub(A, r), d));
      Linked(Replace(t, q, A')) && Objs(Replace(t, q, A')) == Objs(t)
  {
    ghost var s := Rotate(Sub(A, r), d);
    ReplaceInside(t, q, A, r, s);
    if left {
      LeftRotateAt(x, Replace(t, q, A), q + r);
    } else {
      RightRotateAt(x, Replace(t, q, A), q + r);
    }
    RotateSame(Sub(A, r), d);
    ReplaceSame(Replace(t, q, A), q + r, s);
  }

  // ---------------------------------------------------------------------
  // The cases of removeFixup as sequences of writes

  /** What an iteration of removeFixup reads around `pcur`, the node at `p`. */
  lemma FixupAround(t: Tree<TreeNode>, p: Path)
    requires Linked(t) && ValidPath(t, p) && p != []
    requires ValidPath(t, Parent(p)) && Sub(t, Parent(p)).Node? && Child(Sub(t, Parent(p)), Flip(Last(p))).Node?
    ensures var q, d := Parent(p), Last(p); var ps := Sub(t, q); var b := Child(ps, Flip(d));
      var x := Sub(t, p).node;
      p == q + [d] && x.parent == ps.node && x.parent.color == ps.color && (IsLeftChild(x) <==> d == Left) &&
      x.parent in Objs(t) && b.node in Objs(t) && Child(b, d).node in Objs(t) && Child(b, Flip(d)).node in Objs(t) &&
      GetBrother(x) == b.node && b.node.color == b.color &&
      GetNearNephew(x) == Child(b, d).node && GetNearNephew(x).color == ColorOf(Child(b, d)) &&
      GetFarNephew(x) == Child(b, Flip(d)).node && GetFarNephew(x).color == ColorOf(Child(b, Flip(d)))
  {
    var q, d := Parent(p), Last(p);
    PathSplit(p);
    NodeAt(t, p);
    NodeAt(t, q);
    IsLeftChildAt(t, p);
    BrotherAt(t, p);
    NephewsAt(t, p);
    var qb := q + [Flip(d)];
    SubStep(t, q, Flip(d));
    InnerAt(t, qb);
    NodeAt(t, qb);
    NodeAt(t, qb + [Left]);
    NodeAt(t, qb + [Right]);
  }

  /**
   * The writes of case 1 (rbtree.c:240-246) on a RED brother: the parent
   * turns RED, the brother BLACK, and the parent is rotated toward `pcur`.
   */
  method BrotherRedCase(pcur: TreeNode, pbrother: TreeNode, ghost t: Tree<TreeNode>, ghost p: Path)
    returns (ghost t': Tree<TreeNode>)
    requires Linked(t) && ValidPath(t, p) && p != [] && Sub(t, p).node == pcur
    requires ValidPath(t, Parent(p)) && Sub(t, Parent(p)).Node?
    requires Child(Sub(t, Parent(p)), Flip(Last(p))).Node? && Child(Sub(t, Parent(p)), Flip(Last(p))).node == pbrother
    modifies Objs(t)
    ensures t' == Replace(t, Parent(p), RemoveSpec.Case1(Sub(t, Parent(p)), Last(p)))
    ensures Linked(t') && Objs(t') == Objs(t)
  {
    ghost var q, d := Parent(p), Last(p);
    ghost var ps := Sub(t, q);
    FixupAround(t, p);
    ReplaceSelf(t, q);
    PaintIn(pcur.parent, Red, t, q, ps, []);
    ghost var A1 := Recolor(ps, Red);
    PaintIn(pbrother, Black, t, q, A1, [Flip(d)]);
    ghost var A2 := WithChild(A1, Flip(d), Recolor(Child(ps, Flip(d)), Black));
    RotateIn(pcur.parent, IsLeftChild(pcur), d, t, q, A2, []);
    t' := Replace(t, q, Rotate(A2, d));
  }

  /**
   * The writes of case 2.1 (rbtree.c:251-258) on a RED near nephew: the
   * nephew turns BLACK, the brother RED, and the brother is rotated away
   * from `pcur`.
   */
  method NearRedCase(pcur: TreeNode, pNearNephew: TreeNode, ghost t: Tree<TreeNode>, ghost p: Path)
    returns (ghost t': Tree<TreeNode>)
    requires Linked(t) && ValidPath(t, p) && p != [] && Sub(t, p).node == pcur
    requires ValidPath(t, Parent(p)) && Sub(t, Parent(p)).Node? && Child(Sub(t, Parent(p)), Flip(Last(p))).Node?
    requires var b := Child(Sub(t, Parent(p)), Flip(Last(p)));
      ColorOf(Child(b, Last(p))) == Red && Child(b, Last(p)).node == pNearNephew
    modifies Objs(t)
    ensures t' == Replace(t, Parent(p), RemoveSpec.Case21(Sub(t, Parent(p)), Last(p)))
    ensures Linked(t') && Objs(t') == Objs(t)
  {
    ghost var q, d := Parent(p), Last(p);
    ghost var ps := Sub(t, q);
    ghost var b := Child(ps, Flip(d));
    FixupAround(t, p);
    ReplaceSelf(t, q);
    var pbrother := GetBrother(pcur);
    TwoDown(ps, Flip(d), d, Recolor(Child(b, d), Black));
    PaintIn(pNearNephew, Black, t, q, ps, [Flip(d), d]);
    ghost var A1 := WithChild(ps, Flip(d), WithChild(b, d, Recolor(Child(b, d), Black)));
    PaintIn(pbrother, Red, t, q, A1, [Flip(d)]);
    ghost var A2 := WithChild(ps, Flip(d), WithChild(b.(color := Red), d, Recolor(Child(b, d), Black)));
    RotateIn(pbrother, !IsLeftChild(pcur), Flip(d), t, q, A2, [Flip(d)]);
    t' := Replace(t, q, WithChild(ps, Flip(d), Rotate(Child(A2, Flip(d)), Flip(d))));
  }

  /**
   * The writes of case 2.2 (rbtree.c:262-273) on a RED far nephew: parent
   * and brother swap colours, the parent is rotated toward `pcur`, and the
   * far nephew turns BLACK.
   */
  method FarRedCase(pcur: TreeNode, pFarNephew: TreeNode, ghost t: Tree<TreeNode>, ghost p: Path)
    returns (ghost t': Tree<TreeNode>)
    requires Linked(t) && ValidPath(t, p) && p != [] && Sub(t, p).node == pcur
    requires ValidPath(t, Parent(p)) && Sub(t, Parent(p)).Node? && Child(Sub(t, Parent(p)), Flip(Last(p))).Node?
    requires var b := Child(Sub(t, Parent(p)), Flip(Last(p)));
      ColorOf(Child(b, Flip(Last(p)))) == Red && Child(b, Flip(Last(p))).node == pFarNephew
    modifies Objs(t)
    ensures t' == Replace(t, Parent(p), RemoveSpec.Case22(Sub(t, Parent(p)), Last(p)))
    ensures Linked(t') && Objs(t') == Objs(t)
  {
    ghost var q, d := Parent(p), Last(p);
    ghost var ps := Sub(t, q);
    ghost var b := Child(ps, Flip(d));
    FixupAround(t, p);
    ReplaceSelf(t, q);
    var pbrother := GetBrother(pcur);
    var tmpcolor := pcur.parent.color;
    PaintIn(pcur.parent, pbrother.color, t, q, ps, []);
    ghost var A1 := ps.(color := b.color);
    PaintIn(pbrother, tmpcolor, t, q, A1, [Flip(d)]);
    ghost var A2 := WithChild(A1, Flip(d), b.(color := ps.color));
    RotateIn(pcur.parent, IsLeftChild(pcur), d, t, q, A2, []);
    ghost var A3 := Rotate(A2, d);
    PaintIn(pFarNephew, Black, t, q, A3, [Flip(d)]);
    t' := Replace(t, q, WithChild(A3, Flip(d), Recolor(Child(b, Flip(d)), Black)));
  }

  /** The writes of case 2.3 (rbtree.c:277-283) under a RED parent: the parent turns BLACK and the brother RED. */
  method ParentRedCase(pcur: TreeNode, ghost t: Tree<TreeNode>, ghost p: Path) returns (ghost t': Tree<TreeNode>)
    requires Linked(t) && ValidPath(t, p) && p != [] && Sub(t, p).node == pcur
    requires ValidPath(t, Parent(p)) && Sub(t, Parent(p)).Node? && Child(Sub(t, Parent(p)), Flip(Last(p))).Node?
    modifies Objs(t)
    ensures t' == Replace(t, Parent(p), RemoveSpec.Case23(Sub(t, Parent(p)), Last(p)))
    ensures Linked(t') && Objs(t') == Objs(t)
  {
    ghost var q, d := Parent(p), Last(p);
    ghost var ps := Sub(t, q);
    FixupAround(t, p);
    ReplaceSelf(t, q);
    var pbrother := GetBrother(pcur);
    PaintIn(pcur.parent, Black, t, q, ps, []);
    ghost var A1 := ps.(color := Black);
    PaintIn(pbrother, Red, t, q, A1, [Flip(d)]);
    t' := Replace(t, q, WithChild(A1, Flip(d), Recolor(Child(ps, Flip(d)), Red)));
  }

  /**
   * Case 2.4 (rbtree.c:285-287) as it is meant: the brother turns RED
   * (the write rbtree.c leaves out, see AsWritten) and the loop goes on
   * at the parent, whose node and links are untouched.
   */
  method ClimbCase(pcur: TreeNode, ghost t: Tree<TreeNode>, ghost p: Path) returns (ghost t': Tree<TreeNode>)
    requires Linked(t) && ValidPath(t, p) && p != [] && Sub(t, p).node == pcur
    requires ValidPath(t, Parent(p)) && Sub(t, Parent(p)).Node? && Child(Sub(t, Parent(p)), Flip(Last(p))).Node?
    modifies Objs(t)
    ensures t' == Replace(t, Parent(p), RemoveSpec.Case24(Sub(t, Parent(p)), Last(p)))
    ensures Linked(t') && Objs(t') == Objs(t)
    ensures pcur.parent == Sub(t, Parent(p)).node
  {
    ghost var q, d := Parent(p), Last(p);
    ghost var ps := Sub(t, q);
    FixupAround(t, p);
    ReplaceSelf(t, q);
    var pbrother := GetBrother(pcur);
    PaintIn(pbrother, Red, t, q, ps, [Flip(d)]);
    t' := Replace(t, q, WithChild(ps, Flip(d), Recolor(Child(ps, Flip(d)), Red)));
  }

  /** Below the node at `q`, on side `d` twice: the parent links of the two nodes there. */
  lemma LoweredAt(t: Tree<TreeNode>, q: Path, d: Dir)
    requires Linked(t) && ValidPath(t, q) && Sub(t, q).Node? && Child(Sub(t, q), d).Node?
    ensures var pa := Child(Sub(t, q), d);
      ValidPath(t, q + [d]) && Sub(t, q + [d]) == pa && pa.node.parent == Sub(t, q).node &&
      ValidPath(t, q + [d] + [d]) && Sub(t, q + [d] + [d]) == Child(pa, d) && Child(pa, d).node.parent == pa.node
  {
    SubStep(t, q, d);
    NodeAt(t, q + [d]);
    SubStep(t, q + [d], d);
    NodeAt(t, q + [d] + [d]);
  }

  /**
   * The test of case 2.1 (rbtree.c:250-252) and its writes when the near
   * nephew is RED; `t'` holds the parent's subtree that cases 2.2 to 2.4
   * then look at.
   */
  method NearRedStep(pcur: TreeNode, ghost t: Tree<TreeNode>, ghost p: Path) returns (ghost t': Tree<TreeNode>)
    requires Linked(t) && ValidPath(t, p) && p != [] && Sub(t, p).node == pcur
    requires ValidPath(t, Parent(p)) && Sub(t, Parent(p)).Node? && Child(Sub(t, Parent(p)), Flip(Last(p))).Node?
    modifies Objs(t)
    ensures var q, d := Parent(p), Last(p); var ps := Sub(t, q);
      var ps1 := if ColorOf(Child(Child(ps, Flip(d)), d)) == Red then RemoveSpec.Case21(ps, d) else ps;
      t' == Replace(t, q, ps1) && ValidPath(t', q) && Sub(t', q) == ps1 && Child(ps1, Flip(d)).Node? &&
      ValidPath(t', p) && Sub(t', p).node == pcur && t'.node == t.node
    ensures Linked(t') && Objs(t') == Objs(t)
  {
    ghost var q, d := Parent(p), Last(p);
    ghost var ps := Sub(t, q);
    FixupAround(t, p);
    ReplaceSelf(t, q);
    SubStep(t, q, d);
    var pNearNephew := GetNearNephew(pcur);
    if pNearNephew.color == Red {
      t' := NearRedCase(pcur, pNearNephew, t, p);
    } else {
      t' := t;
    }
    ghost var ps1 := if ColorOf(Child(Child(ps, Flip(d)), d)) == Red then RemoveSpec.Case21(ps, d) else ps;
    assert t' == Replace(t, q, ps1);
    ReplaceSub(t, q, ps1);
    SubStep(t', q, d);
    assert Child(ps1, d) == Child(ps, d);
    if q != [] {
      ReplaceTop(t, q, ps1);
    }
  }

  // ---------------------------------------------------------------------
  // removeElement

  /** The left child of the inner node at `s`, as the fields give it. */
  lemma LeftChildAt(t: Tree<TreeNode>, s: Path)
    requires Linked(t) && ValidPath(t, s) && Sub(t, s).Node?
    ensures ValidPath(t, s + [Left]) && Sub(t, s + [Left]) == Sub(t, s).left
    ensures Sub(t, s).node.lchild == Sub(t, s).left.node && (Sub(t, s).node.lchild.isLeaf <==> Sub(t, s).left.Leaf?)
  {
    InnerAt(t, s);
    NodeAt(t, s + [Left]);
  }

  /** One step of the successor search past the node at `s`, whose left child is an inner node. */
  lemma SuccessorStep(t: Tree<TreeNode>, s: Path, l: Path)
    requires Linked(t) && ValidPath(t, s) && Sub(t, s).Node? && Sub(t, s).left.Node?
    requires l == s + RemoveSpec.Leftmost(Sub(t, s))
    ensures ValidPath(t, s + [Left]) && Sub(t, s + [Left]) == Sub(t, s).left && Sub(t, s + [Left]) < Sub(t, s)
    ensures l == (s + [Left]) + RemoveSpec.Leftmost(Sub(t, s + [Left]))
  {
    SubStep(t, s, Left);
    RemoveSpec.LeftmostStep(Sub(t, s));
    PathShift(s, Left, RemoveSpec.Leftmost(Sub(t, s).left));
  }

  /**
   * The successor search of removeElement (rbtree.c:306-310) from the
   * node at `p`, whose children are both inner nodes: one step right,
   * then left down to a node whose left child is a leaf node; that node
   * is where `RemoveSpec.Target` says the removal happens.
   */
  method Successor(pcur: TreeNode, ghost t: Tree<TreeNode>, ghost p: Path) returns (psucc: TreeNode, ghost s: Path)
    requires Linked(t) && ValidPath(t, p) && Sub(t, p).Node? && Sub(t, p).node == pcur
    requires Sub(t, p).left.Node? && Sub(t, p).right.Node?
    ensures s == RemoveSpec.Target(t, p) && Sub(t, s).node == psucc && psucc.value == Sub(t, s).key
  {
    ghost var l := RemoveSpec.Target(t, p);
    InnerAt(t, p);
    PathShift(p, Right, RemoveSpec.Leftmost(Sub(t, p).right));
    psucc := pcur.rchild;
    s := p + [Right];
    LeftChildAt(t, s);
    while !IsLeaf(psucc.lchild)
      invariant Linked(t) && ValidPath(t, s) && Sub(t, s).Node? && Sub(t, s).node == psucc
      invariant psucc.lchild == Sub(t, s).left.node && (psucc.lchild.isLeaf <==> Sub(t, s).left.Leaf?)
      invariant l == s + RemoveSpec.Leftmost(Sub(t, s))
      decreases Sub(t, s)
    {
      SuccessorStep(t, s, l);
      psucc := psucc.lchild;
      s := s + [Left];
      LeftChildAt(t, s);
    }
    assert s + [] == s;
    InnerAt(t, s);
  }

  /**
   * Case 1 of removeElement (rbtree.c:304-315): a node with two inner
   * children takes the key of its successor, which becomes the node to
   * take out; otherwise the node itself is. `x` is that node, at `q`, the
   * `RemoveSpec.Target` of `p`, in the tree `t'` the fields then spell out.
   */
  method ToTarget(pcur: TreeNode, ghost t: Tree<TreeNode>, ghost p: Path) returns (x: TreeNode, ghost t': Tree<TreeNode>, ghost q: Path)
    requires Linked(t) && ValidPath(t, p) && Sub(t, p).Node? && Sub(t, p).node == pcur
    modifies pcur
    ensures q == RemoveSpec.Target(t, p) && t' == Replace(t, p, Sub(t, p).(key := Sub(t, q).key))
    ensures Linked(t') && ValidPath(t', q) && Sub(t', q) == Sub(t, q) && Sub(t', q).node == x
    ensures Objs(t') == Objs(t) && t'.node == t.node
  {
    ghost var n := Sub(t, p);
    InnerAt(t, p);
    NodeAt(t, p + [Left]);
    NodeAt(t, p + [Right]);
    ObjsReplace(t, p, n);
    if !IsLeaf(pcur.lchild) && !IsLeaf(pcur.rchild) {
      var psucc;
      assert allocated(Objs(t));
      psucc, q := Successor(pcur, t, p);
      RemoveSpec.TargetBelow(t, p);
      assert q[..|p|] == p;
      RemoveSpec.KeySame(t, p, q, psucc.value);
      ObjsReplace(t, p, n.(key := psucc.value));
      Rekey(pcur, psucc.value, t, p);
      x := psucc;
    } else {
      q := p;
      x := pcur;
      assert n.(key := n.key) == n;
      ReplaceSelf(t, p);
    }
    t' := Replace(t, p, n.(key := Sub(t, q).key));
    if p != [] {
      ReplaceTop(t, p, n.(key := Sub(t, q).key));
    }
  }

  /**
   * Case 3.1 of removeElement (rbtree.c:329-338): the BLACK node at `q`
   * with one inner child (the left one when both would do) takes that
   * child's key, and the child becomes a leaf node.
   */
  method DropChild(pcur: TreeNode, ghost t: Tree<TreeNode>, ghost q: Path) returns (ghost t': Tree<TreeNode>)
    requires Linked(t) && ValidPath(t, q) && Sub(t, q).Node? && Sub(t, q).node == pcur && Sub(t, q).color == Black
    requires Sub(t, q).left.Node? || Sub(t, q).right.Node?
    modifies Objs(t)
    ensures t' == Replace(t, q, RemoveSpec.Detach(Sub(t, q))) && Linked(t')
  {
    ghost var x := Sub(t, q);
    InnerAt(t, q);
    NodeAt(t, q);
    NodeAt(t, q + [Left]);
    NodeAt(t, q + [Right]);
    var pchild := pcur.rchild;
    ghost var side := Right;
    if !IsLeaf(pcur.lchild) {
      pchild := pcur.lchild;
      side := Left;
    }
    ghost var c := Child(x, side);
    InnerAt(t, q + [side]);
    NodeAt(t, q + [side]);
    ghost var x1 := x.(key := c.key);
    ReplaceSub(t, q, x1);
    ghost var t1 := Replace(t, q, x1);
    ReplaceChild(t1, q, side, Leaf(c.node));
    Rekey(pcur, pchild.value, t, q);
    ChangeToLeafAt(pchild, t1, q + [side]);
    ReplaceReplace(t, q, x1, WithChild(x1, side, Leaf(c.node)));
    t' := Replace(t, q, RemoveSpec.Detach(x));
  }

  /**
   * Cases 2 and 3.1 of removeElement (rbtree.c:317-333): a RED node with
   * two leaf children becomes a leaf node; a BLACK one with an inner child
   * takes that child's key and the child becomes a leaf node.
   */
  method Unhook(pcur: TreeNode, ghost t: Tree<TreeNode>, ghost q: Path) returns (ghost t': Tree<TreeNode>)
    requires Linked(t) && ValidPath(t, q) && Sub(t, q).Node? && Sub(t, q).node == pcur
    requires Sub(t, q).left.Leaf? || Sub(t, q).right.Leaf?
    requires !RemoveSpec.Short(Sub(t, q))
    modifies Objs(t)
    ensures t' == Replace(t, q, RemoveSpec.Detach(Sub(t, q))) && Linked(t')
  {
    NodeAt(t, q);
    if pcur.color == Red {
      ChangeToLeafAt(pcur, t, q);
      t' := Replace(t, q, Leaf(pcur));
    } else {
      t' := DropChild(pcur, t, q);
    }
  }

  /**
   * The write of case 3.2.2 of removeElement (rbtree.c:341-352): the BLACK
   * node with two leaf children becomes a leaf node, one BLACK node short,
   * which leaves the tree `RemoveSpec.Unlink` gives.
   */
  method Shorten(pcur: TreeNode, ghost t: Tree<TreeNode>, ghost p: Path, ghost t0: Tree<TreeNode>, ghost q: Path)
    returns (ghost u: Tree<TreeNode>)
    requires IsRB(t) && ValidPath(t, p) && Sub(t, p).Node?
    requires q == RemoveSpec.Target(t, p) && t0 == Replace(t, p, Sub(t, p).(key := Sub(t, q).key))
    requires Linked(t0) && Objs(t0) == Objs(t)
    requires ValidPath(t0, q) && Sub(t0, q) == Sub(t, q) && Sub(t0, q).node == pcur
    requires RemoveSpec.Short(Sub(t, q)) && q != []
    modifies Objs(t0)
    ensures u == RemoveSpec.Unlink(t, p) && Linked(u) && u.node == t0.node && Objs(u) <= Objs(t0)
    ensures RemoveSpec.Deficit(u, q, BH(Sub(t, q)) - 1, BH(t)) && Sub(u, q).node == pcur
  {
    RemoveSpec.ShortUnlink(t, p);
    NodeAt(t0, q);
    ChangeToLeafAt(pcur, t0, q);
    u := Replace(t0, q, Leaf(pcur));
  }
}
