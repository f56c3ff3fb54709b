/**
 * rbtree.c as it is written, on tree values whose nodes carry their
 * identities. Three things differ from the intended behaviour of the
 * modules InsertSpec and RemoveSpec:
 *  - ptree->proot is a node identity, and removeFixup never moves it when it
 *    rotates the node it names (rbtree.c:245, 269);
 *  - case 2.4 of removeFixup moves up without recolouring the brother
 *    (rbtree.c:285-287);
 *  - insertElement dereferences a NULL proot (rbtree.c:211-212), which
 *    removeElement leaves behind once the last key is gone (rbtree.c:342-348).
 * A run that dereferences NULL ends in `Crash`.
 */
module AsWritten {
  import opened RedBlack
  import InsertSpec
  import RemoveSpec

  datatype Outcome<T> = Ok(value: T) | Crash

  /**
   * What rbtree.c's struct RBTree leads to: `top` is the tree hanging from
   * the node whose parent is NULL, `proot` the node ptree->proot names (or
   * NULL), `size` the counter ptree->size. Once `proot` is NULL, `top` is
   * not looked at again.
   */
  datatype Heap<N> = Heap(top: Tree<N>, proot: Option<N>, size: int)

  /** newRBTree (rbtree.c:17-30): one BLACK leaf node, which proot names. */
  function NewHeap<N>(root: N): (h: Heap<N>)
    ensures h.top.Leaf? && h.proot == Some(h.top.node) && h.size == 0
  {
    Heap(Leaf(root), Some(root), 0)
  }

  /** The path to the node `x`, if it is in `t`. */
  function Locate<N(==)>(t: Tree<N>, x: N): (r: Option<Path>)
    ensures r.Some? ==> ValidPath(t, r.value) && Sub(t, r.value).node == x
    ensures r.None? ==> x !in Objs(t)
    decreases t
  {
    if t.node == x then Some([])
    else if t.Leaf? then None
    else match Locate(t.left, x)
      case Some(p) =>
        assert ([Left] + p)[0] == Left && ([Left] + p)[1..] == p;
        Some([Left] + p)
      case None =>
        match Locate(t.right, x)
        case Some(p) =>
          assert ([Right] + p)[0] == Right && ([Right] + p)[1..] == p;
          Some([Right] + p)
        case None => None
  }

  /** One iteration of a fix-up loop as written: leave it (with proot), go on at a path, or crash. */
  datatype Turn<N> = Halt(tree: Tree<N>, root: N) | Go(tree: Tree<N>, at: Path) | Fault

  // ---------------------------------------------------------------------
  // insertElement as written

  /**
   * One iteration of insertFixup (rbtree.c:155-204) with `pcur` at `p` and
   * proot naming `root`. Case 1 compares `pcur` with proot; a RED `pcur`
   * with no parent, or a RED parent with no parent, is read through NULL.
   */
  function AwInsertStep<N(==)>(t: Tree<N>, p: Path, root: N): (s: Turn<N>)
    requires ValidPath(t, p)
    ensures s.Go? ==> ValidPath(s.tree, s.at) && InsertSpec.Measure(s.at) < InsertSpec.Measure(p)
  {
    var x := Sub(t, p);
    if ColorOf(x) != Red then Halt(t, root)
    else if x.node == root then Halt(Replace(t, p, Recolor(x, Black)), root)
    else if p == [] then Fault
    else
      PrefixValid(t, p);
      var pp := Parent(p);
      if ColorOf(Sub(t, pp)) == Black then Halt(t, root)
      else if pp == [] then Fault
      else
        PrefixValid(t, pp);
        var g, d, dp := Parent(pp), Last(p), Last(pp);
        var gs := Sub(t, g);
        if ColorOf(Child(gs, Flip(dp))) == Red then
          ReplaceSub(t, g, InsertSpec.RecolorUp(gs));
          Go(Replace(t, g, InsertSpec.RecolorUp(gs)), g)
        else if d == dp then
          var r := InsertSpec.LineRotate(gs, d);
          // rbtree.c:191-192: proot follows a rotation of the node it names
          Halt(Replace(t, g, r), if root == gs.node then r.node else root)
        else
          var t' := Replace(t, pp, Rotate(Sub(t, pp), Flip(d)));
          ReplaceSub(t, pp, Rotate(Sub(t, pp), Flip(d)));
          SubStep(t', pp, dp);
          InsertSpec.ParentPath(pp, dp);
          Go(t', pp + [dp])
  }

  function AwInsertFixup<N(==)>(t: Tree<N>, p: Path, root: N): Outcome<(Tree<N>, N)>
    requires ValidPath(t, p)
    decreases InsertSpec.Measure(p)
  {
    match AwInsertStep(t, p, root)
    case Halt(r, root') => Ok((r, root'))
    case Go(t', p') => AwInsertFixup(t', p', root)
    case Fault => Crash
  }

  /**
   * insertElement (rbtree.c:208-229) as written, `a` and `b` the two new
   * leaf nodes: the search starts at proot, which may be NULL.
   */
  function AwInsert<N(==)>(h: Heap<N>, k: int, a: N, b: N): Outcome<Heap<N>>
  {
    if h.proot.None? then Crash
    else match Locate(h.top, h.proot.value)
      // proot always names a node of the tree while it is not NULL
      case None => Crash
      case Some(pr) =>
        var t := h.top;
        var p := pr + Descend(Sub(t, pr), k);
        SubAppend(t, pr, Descend(Sub(t, pr), k));
        if Sub(t, p).Node? then Ok(h)
        else
          var t1 := Replace(t, p, InsertSpec.Grow(Sub(t, p).node, k, a, b));
          ReplaceSub(t, p, InsertSpec.Grow(Sub(t, p).node, k, a, b));
          match AwInsertFixup(t1, p, h.proot.value)
          case Crash => Crash
          case Ok((t2, root)) => Ok(Heap(t2, Some(root), h.size + 1))
  }

  // ---------------------------------------------------------------------
  // removeElement as written

  /**
   * The cases of a BLACK brother (rbtree.c:248-287) as written: case 2.4
   * only moves up. A leaf brother has NULL children, which the nephew
   * getters read through.
   */
  function AwCase2<N>(ps: Tree<N>, d: Dir): Option<RemoveSpec.Local<N>>
    requires ps.Node?
  {
    var b := Child(ps, Flip(d));
    if b.Leaf? then None
    else
      var ps1 := if ColorOf(Child(b, d)) == Red then RemoveSpec.Case21(ps, d) else ps;
      if ColorOf(Child(Child(ps1, Flip(d)), Flip(d))) == Red then Some(RemoveSpec.Stop(RemoveSpec.Case22(ps1, d)))
      else if ps1.color == Red then Some(RemoveSpec.Stop(RemoveSpec.Case23(ps1, d)))
      else Some(RemoveSpec.Up(ps1))
  }

  /**
   * One iteration of removeFixup (rbtree.c:235-288) with `pcur` at `p`:
   * the loop runs while `pcur` is not the node proot names, and proot stays
   * where it is through every rotation.
   */
  function AwRemoveStep<N(==)>(t: Tree<N>, p: Path, root: N): (s: Turn<N>)
    requires ValidPath(t, p)
    ensures s.Go? ==> ValidPath(s.tree, s.at) && |s.at| < |p|
  {
    if Sub(t, p).node == root then Halt(t, root)
    else if p == [] then Fault
    else
      PrefixValid(t, p);
      var q, d := Parent(p), Last(p);
      var ps := Sub(t, q);
      if ColorOf(Child(ps, Flip(d))) == Red then
        var r := RemoveSpec.Case1(ps, d);
        // the old parent is RED after case 1, so the rest of the body ends in case 2.2 or 2.3
        match AwCase2(Child(r, d), d)
        case None => Fault
        case Some(l) => Halt(Replace(t, q, WithChild(r, d, l.sub)), root)
      else
        match AwCase2(ps, d)
        case None => Fault
        case Some(l) =>
          if l.Stop? then Halt(Replace(t, q, l.sub), root)
          else
            ReplaceSub(t, q, l.sub);
            Go(Replace(t, q, l.sub), q)
  }

  function AwRemoveFixup<N(==)>(t: Tree<N>, p: Path, root: N): Outcome<Tree<N>>
    requires ValidPath(t, p)
    decreases |p|
  {
    match AwRemoveStep(t, p, root)
    case Halt(r, _) => Ok(r)
    case Go(t', p') => AwRemoveFixup(t', p', root)
    case Fault => Crash
  }

  /**
   * removeElement (rbtree.c:292-356) as written: the search starts at
   * proot; the lone-root case compares the node taken out with proot.
   */
  function AwRemove<N(==)>(h: Heap<N>, k: int): Outcome<Heap<N>>
  {
    if h.proot.None? then Ok(h)
    else match Locate(h.top, h.proot.value)
      // proot always names a node of the tree while it is not NULL
      case None => Crash
      case Some(pr) =>
        var t := h.top;
        var p := pr + Descend(Sub(t, pr), k);
        SubAppend(t, pr, Descend(Sub(t, pr), k));
        if Sub(t, p).Leaf? then Ok(h)
        else
          var q := RemoveSpec.Target(t, p);
          var u := RemoveSpec.Unlink(t, p);
          if !RemoveSpec.Short(Sub(t, q)) then Ok(Heap(u, h.proot, h.size - 1))
          else if Sub(t, q).node == h.proot.value then Ok(Heap(u, None, 0))
          else match AwRemoveFixup(u, q, h.proot.value)
            case Crash => Crash
            case Ok(r) => Ok(Heap(r, h.proot, h.size - 1))
  }

  // ---------------------------------------------------------------------
  // The three discrepancies on small inputs. Node identities are numbers:
  // newRBTree makes node 0, and insertElement of key k makes leaf nodes
  // 2k and 2k+1.

  function InsertAll(h: Outcome<Heap<int>>, ks: seq<int>): Outcome<Heap<int>>
    decreases ks
  {
    if ks == [] || h.Crash? then h
    else InsertAll(AwInsert(h.value, ks[0], 2 * ks[0], 2 * ks[0] + 1), ks[1..])
  }

  /** The heaps after newRBTree and insertElement of 2, then 1, then 3, then 4. */
  function Built(n: nat): Heap<int>
    requires n <= 4
  {
    if n == 0 then NewHeap(0)
    else if n == 1 then Heap(Node(0, Black, 2, Leaf(4), Leaf(5)), Some(0), 1)
    else if n == 2 then Heap(Node(0, Black, 2, Node(4, Red, 1, Leaf(2), Leaf(3)), Leaf(5)), Some(0), 2)
    else if n == 3 then
      Heap(Node(0, Black, 2, Node(4, Red, 1, Leaf(2), Leaf(3)), Node(5, Red, 3, Leaf(6), Leaf(7))), Some(0), 3)
    else
      Heap(Node(0, Black, 2, Node(4, Black, 1, Leaf(2), Leaf(3)),
                Node(5, Black, 3, Leaf(6), Node(7, Red, 4, Leaf(8), Leaf(9)))), Some(0), 4)
  }

  lemma Insert2()
    ensures AwInsert(Built(0), 2, 4, 5) == Ok(Built(1))
  {
  }

  lemma Insert1()
    ensures AwInsert(Built(1), 1, 2, 3) == Ok(Built(2))
  {
    var t := Built(2).top;
    assert Locate(Built(1).top, 0) == Some([]);
    assert Descend(Built(1).top, 1) == [Left];
    assert [] + [Left] == [Left];
    assert Replace(Built(1).top, [Left], InsertSpec.Grow(4, 1, 2, 3)) == t;
    assert Parent([Left]) == [];
    assert AwInsertStep(t, [Left], 0) == Halt(t, 0);
  }

  lemma Insert3()
    ensures AwInsert(Built(2), 3, 6, 7) == Ok(Built(3))
  {
    var t := Built(3).top;
    assert Locate(Built(2).top, 0) == Some([]);
    assert Descend(Built(2).top, 3) == [Right];
    assert [] + [Right] == [Right];
    assert Replace(Built(2).top, [Right], InsertSpec.Grow(5, 3, 6, 7)) == t;
    assert Parent([Right]) == [];
    assert AwInsertStep(t, [Right], 0) == Halt(t, 0);
  }

  lemma Insert4()
    ensures AwInsert(Built(3), 4, 8, 9) == Ok(Built(4))
  {
    var t := Node(0, Black, 2, Node(4, Red, 1, Leaf(2), Leaf(3)),
                  Node(5, Red, 3, Leaf(6), Node(7, Red, 4, Leaf(8), Leaf(9))));
    var t' := Node(0, Red, 2, Node(4, Black, 1, Leaf(2), Leaf(3)),
                  Node(5, Black, 3, Leaf(6), Node(7, Red, 4, Leaf(8), Leaf(9))));
    assert Locate(Built(3).top, 0) == Some([]);
    assert Descend(Built(3).top, 4) == [Right, Right];
    assert [] + [Right, Right] == [Right, Right];
    assert Replace(Built(3).top, [Right, Right], InsertSpec.Grow(7, 4, 8, 9)) == t;
    assert Parent([Right, Right]) == [Right] && Parent([Right]) == [];
    assert AwInsertStep(t, [Right, Right], 0) == Go(t', []);
    assert AwInsertStep(t', [], 0) == Halt(Built(4).top, 0);
    assert AwInsertFixup(t, [Right, Right], 0) == Ok((Built(4).top, 0));
  }

  /** newRBTree, then insertElement of 2, 1, 3 and 4. */
  lemma Inserted()
    ensures InsertAll(Ok(NewHeap(0)), [2, 1, 3, 4]) == Ok(Built(4))
  {
    Insert2();
    Insert1();
    Insert3();
    Insert4();
    assert InsertAll(Ok(Built(0)), [2, 1, 3, 4]) == InsertAll(Ok(Built(1)), [1, 3, 4]);
    assert InsertAll(Ok(Built(1)), [1, 3, 4]) == InsertAll(Ok(Built(2)), [3, 4]);
    assert InsertAll(Ok(Built(2)), [3, 4]) == InsertAll(Ok(Built(3)), [4]);
    assert InsertAll(Ok(Built(3)), [4]) == InsertAll(Ok(Built(4)), []);
  }

  /** removeElement of 4 from the heap `Built(4)`: a RED node with two leaf children goes (case 2). */
  lemma Remove4()
    ensures AwRemove(Built(4), 4) ==
      Ok(Heap(Node(0, Black, 2, Node(4, Black, 1, Leaf(2), Leaf(3)), Node(5, Black, 3, Leaf(6), Leaf(7))), Some(0), 3))
  {
    var t := Built(4).top;
    assert Locate(t, 0) == Some([]);
    assert Descend(t, 4) == [Right, Right];
    assert [] + [Right, Right] == [Right, Right];
    assert RemoveSpec.Target(t, [Right, Right]) == [Right, Right];
    assert RemoveSpec.Unlink(t, [Right, Right]) == Replace(t, [Right, Right], Leaf(7));
  }

  /**
   * Case 2.4 as written: removeElement of 1 after 4 leaves node 2 with one
   * BLACK node on its right paths and none on its left ones.
   */
  lemma Unbalanced()
    ensures var h := Heap(Node(0, Black, 2, Node(4, Black, 1, Leaf(2), Leaf(3)),
                               Node(5, Black, 3, Leaf(6), Leaf(7))), Some(0), 3);
      var r := Node(0, Black, 2, Leaf(4), Node(5, Black, 3, Leaf(6), Leaf(7)));
      AwRemove(h, 1) == Ok(Heap(r, Some(0), 2)) && !Balanced(r)
  {
    var t := Node(0, Black, 2, Node(4, Black, 1, Leaf(2), Leaf(3)), Node(5, Black, 3, Leaf(6), Leaf(7)));
    var r := Node(0, Black, 2, Leaf(4), Node(5, Black, 3, Leaf(6), Leaf(7)));
    assert Locate(t, 0) == Some([]);
    assert Descend(t, 1) == [Left];
    assert [] + [Left] == [Left];
    assert RemoveSpec.Target(t, [Left]) == [Left];
    assert RemoveSpec.Unlink(t, [Left]) == r;
    assert Parent([Left]) == [] && Last([Left]) == Left;
    assert AwCase2(r, Left) == Some(RemoveSpec.Up(r));
    assert AwRemoveStep(r, [Left], 0) == Go(r, []);
    assert AwRemoveFixup(r, [Left], 0) == Ok(r);
    assert !BlackHeight(r, 1);
  }

  /** The same removal with case 2.4 as it is meant: the brother turns RED and the tree is valid. */
  lemma Rebalanced()
    ensures var t := Node(0, Black, 2, Node(4, Black, 1, Leaf(2), Leaf(3)), Node(5, Black, 3, Leaf(6), Leaf(7)));
      var r := Node(0, Black, 2, Leaf(4), Node(5, Red, 3, Leaf(6), Leaf(7)));
      RemoveSpec.Remove(t, 1) == Some(r) && IsRB(r)
  {
    var t := Node(0, Black, 2, Node(4, Black, 1, Leaf(2), Leaf(3)), Node(5, Black, 3, Leaf(6), Leaf(7)));
    var u := Node(0, Black, 2, Leaf(4), Node(5, Black, 3, Leaf(6), Leaf(7)));
    var r := Node(0, Black, 2, Leaf(4), Node(5, Red, 3, Leaf(6), Leaf(7)));
    assert Descend(t, 1) == [Left];
    assert RemoveSpec.Target(t, [Left]) == [Left];
    assert RemoveSpec.Unlink(t, [Left]) == u;
    assert Parent([Left]) == [] && Last([Left]) == Left;
    assert RemoveSpec.Case2(u, Left) == RemoveSpec.Up(r);
    assert RemoveSpec.RemoveStep(u, [Left]) == Next(r, []);
    assert RemoveSpec.RemoveFixup(u, [Left]) == r;
    assert BlackHeight(r, 1);
    assert InOrder(r) == [2, 3];
  }

  /** The tree after removeElement of 1 from `Built(4)`: case 2.2 has rotated node 2 under node 3. */
  function Rotated(): Tree<int>
  {
    Node(5, Black, 3, Node(0, Black, 2, Leaf(4), Leaf(6)), Node(7, Black, 4, Leaf(8), Leaf(9)))
  }

  /** removeElement of 1 from `Built(4)`: the tree is right, but proot still names node 2. */
  lemma StaleRoot()
    ensures AwRemove(Built(4), 1) == Ok(Heap(Rotated(), Some(0), 3))
    ensures Rotated().node != 0 && IsRB(Rotated())
  {
    var t := Built(4).top;
    var u := Node(0, Black, 2, Leaf(4), Node(5, Black, 3, Leaf(6), Node(7, Red, 4, Leaf(8), Leaf(9))));
    assert Locate(t, 0) == Some([]);
    assert Descend(t, 1) == [Left];
    assert [] + [Left] == [Left];
    assert RemoveSpec.Target(t, [Left]) == [Left];
    assert RemoveSpec.Unlink(t, [Left]) == u;
    assert Parent([Left]) == [] && Last([Left]) == Left;
    assert RemoveSpec.Case22(u, Left) == Rotated();
    assert AwCase2(u, Left) == Some(RemoveSpec.Stop(Rotated()));
    assert AwRemoveStep(u, [Left], 0) == Halt(Rotated(), 0);
    RotatedIsRB();
  }

  /** `Rotated()` is a valid red-black tree holding 2, 3 and 4. */
  lemma RotatedIsRB()
    ensures IsRB(Rotated()) && InOrder(Rotated()) == [2, 3, 4]
  {
    var t := Rotated();
    assert InOrder(t.left) == [2] && InOrder(t.right) == [4];
    assert BH(t) == 2 && BlackHeight(t.left, 1) && BlackHeight(t.right, 1);
  }

  /**
   * removeElement of 4 next starts at the stale proot, node 2, whose right
   * child is a leaf: 4 stays in the tree and nothing changes.
   */
  lemma LostKey()
    ensures AwRemove(Heap(Rotated(), Some(0), 3), 4) == Ok(Heap(Rotated(), Some(0), 3))
    ensures 4 in Keys(Rotated())
  {
    var t := Rotated();
    assert Locate(t.left, 0) == Some([]);
    assert [Left] + [] == [Left];
    assert Locate(t, 0) == Some([Left]);
    assert Descend(Sub(t, [Left]), 4) == [Right];
    assert [Left] + [Right] == [Left, Right];
    assert Sub(t, [Left, Right]) == Leaf(6);
  }

  /**
   * A valid tree holding 1 to 5 whose root has a RED brother for the node
   * holding 1: removeElement of 1 runs case 1 of removeFixup at the root.
   */
  function Brothered(): Tree<int>
  {
    Node(0, Black, 2, Node(1, Black, 1, Leaf(2), Leaf(3)),
         Node(4, Red, 4, Node(5, Black, 3, Leaf(6), Leaf(7)), Node(8, Black, 5, Leaf(9), Leaf(10))))
  }

  /** The tree after removeElement of 1 from `Brothered()`: case 1 has rotated node 0 under node 4. */
  function Lowered(): Tree<int>
  {
    Node(4, Black, 4, Node(0, Black, 2, Leaf(1), Node(5, Red, 3, Leaf(6), Leaf(7))), Node(8, Black, 5, Leaf(9), Leaf(10)))
  }

  /** `Brothered()` is a valid red-black tree holding 1 to 5. */
  lemma BrotheredIsRB()
    ensures IsRB(Brothered()) && InOrder(Brothered()) == [1, 2, 3, 4, 5]
  {
    var t := Brothered();
    assert InOrder(t.left) == [1] && InOrder(t.right) == [3, 4, 5];
    assert BlackHeight(t.left, 1) && BlackHeight(t.right, 1);
  }

  /**
   * Case 1 as written (rbtree.c:245): removeElement of 1 from
   * `Brothered()` rotates node 0, which proot names, under node 4, and
   * proot stays on node 0.
   */
  lemma StaleAfterCase1()
    ensures AwRemove(Heap(Brothered(), Some(0), 5), 1) == Ok(Heap(Lowered(), Some(0), 4))
    ensures Lowered().node != 0
  {
    var t := Brothered();
    var u := Node(0, Black, 2, Leaf(1), t.right);
    assert Locate(t, 0) == Some([]);
    assert Descend(t, 1) == [Left];
    assert [] + [Left] == [Left];
    assert RemoveSpec.Target(t, [Left]) == [Left];
    assert RemoveSpec.Unlink(t, [Left]) == u;
    assert Parent([Left]) == [] && Last([Left]) == Left;
    var r := RemoveSpec.Case1(u, Left);
    assert r == Node(4, Black, 4, Node(0, Red, 2, Leaf(1), Node(5, Black, 3, Leaf(6), Leaf(7))),
                     Node(8, Black, 5, Leaf(9), Leaf(10)));
    assert AwCase2(Child(r, Left), Left) == Some(RemoveSpec.Stop(Lowered().left));
    assert AwRemoveStep(u, [Left], 0) == Halt(Lowered(), 0);
  }

  /**
   * After that, removeElement of 5 starts at the stale proot, below the
   * real root, reaches a leaf and leaves 5 in the tree.
   */
  lemma LostAfterCase1()
    ensures 5 in Keys(Lowered())
    ensures AwRemove(Heap(Lowered(), Some(0), 4), 5) == Ok(Heap(Lowered(), Some(0), 4))
  {
    var l := Lowered();
    assert Locate(l.left, 0) == Some([]);
    assert [Left] + [] == [Left];
    assert Locate(l, 0) == Some([Left]);
    assert Descend(Sub(l, [Left]), 5) == [Right, Right];
    assert [Left] + [Right, Right] == [Left, Right, Right];
    assert Sub(l, [Left, Right, Right]) == Leaf(7);
  }

  /** `Lowered()` is a valid red-black tree holding 2 to 5. */
  lemma LoweredIsRB()
    ensures IsRB(Lowered()) && InOrder(Lowered()) == [2, 3, 4, 5]
  {
    var t := Lowered();
    assert InOrder(t.left) == [2, 3] && InOrder(t.right) == [5];
    assert BlackHeight(t.left, 1) && BlackHeight(t.right, 1);
  }

  /** With proot kept at the root, removeElement of 5 finds it in the same tree. */
  lemma FoundAfterCase1()
    ensures RemoveSpec.Remove(Lowered(), 5).Some?
    ensures Keys(RemoveSpec.Remove(Lowered(), 5).value) == {2, 3, 4}
  {
    var t := Lowered();
    assert Keys(t.left) == {2, 3} && Keys(t.right) == {5} && Keys(t) == {2, 3, 4, 5};
    LoweredIsRB();
    RemoveSpec.RemovePresent(t, 5);
  }

  /** With proot kept at the root, removeElement of 4 finds it in the same tree. */
  lemma KeyFound()
    ensures RemoveSpec.Remove(Rotated(), 4).Some?
    ensures Keys(RemoveSpec.Remove(Rotated(), 4).value) == {2, 3}
  {
    StaleRoot();
    RemoveSpec.RemovePresent(Rotated(), 4);
  }

  /**
   * newRBTree, insertElement of 5 and removeElement of 5 leave proot NULL
   * (case 3.2.1); the next insertElement reads through it.
   */
  lemma NullRoot()
    ensures AwInsert(NewHeap(0), 5, 10, 11) == Ok(Heap(Node(0, Black, 5, Leaf(10), Leaf(11)), Some(0), 1))
    ensures AwRemove(Heap(Node(0, Black, 5, Leaf(10), Leaf(11)), Some(0), 1), 5) == Ok(Heap(Leaf(0), None, 0))
    ensures AwInsert(Heap(Leaf(0), None, 0), 7, 14, 15) == Crash
  {
    var t := Node(0, Black, 5, Leaf(10), Leaf(11));
    assert Locate(t, 0) == Some([]);
    assert Descend(t, 5) == [];
    assert RemoveSpec.Target(t, []) == [];
    assert RemoveSpec.Unlink(t, []) == Leaf(0);
  }
}
