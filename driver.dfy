/**
 * The run of the driver test.c on the value model: newRBTree, then
 * insertElement of the 17 values of test.c:8, then removeElement of the 6
 * values of test.c:9. Node identities are numbers: newRBTree makes node 0
 * and insertElement of key k makes leaf nodes 2k and 2k+1.
 */
module Driver {
  import opened RedBlack
  import InsertSpec
  import RemoveSpec

  /** The values test.c:8 inserts, in order. */
  const Data: seq<int> := [13, 2, 5, 2, 1, 7, 1, 3, 4, 9, 12, 2, 31, 17, 10, 7, 7]

  /** The values test.c:9 removes, in order. */
  const RData: seq<int> := [8, 7, 6, 2, 13, 9]

  /** insertElement of each of `ks` in turn. */
  function InsertAll(t: Tree<int>, ks: seq<int>): Tree<int>
    decreases ks
  {
    if ks == [] then t
    else InsertAll(InsertSpec.Insert(t, ks[0], 2 * ks[0], 2 * ks[0] + 1), ks[1..])
  }

  /** removeElement of each of `ks` in turn; `None` once the tree has lost its last key. */
  function RemoveAll(t: Tree<int>, ks: seq<int>): Option<Tree<int>>
    decreases ks
  {
    if ks == [] then Some(t)
    else match RemoveSpec.Remove(t, ks[0])
      case None => None
      case Some(u) => RemoveAll(u, ks[1..])
  }


  /** The tree after 0 insertElement calls of test.c. */
  function Inserted0(): Tree<int>
  {
    Leaf(0)
  }

  /** The tree after 1 insertElement call of test.c. */
  function Inserted1(): Tree<int>
  {
    Node(0, Black, 13, Leaf(26), Leaf(27))
  }

  /** The tree after 2 insertElement calls of test.c. */
  function Inserted2(): Tree<int>
  {
    Node(0, Black, 13, Node(26, Red, 2, Leaf(4), Leaf(5)), Leaf(27))
  }

  /** The tree after 3 insertElement calls of test.c. */
  function Inserted3(): Tree<int>
  {
    Node(5, Black, 5, Node(26, Red, 2, Leaf(4), Leaf(10)), Node(0, Red, 13, Leaf(11), Leaf(27)))
  }

  /** The tree after 4 insertElement calls of test.c. */
  function Inserted4(): Tree<int>
  {
    Node(5, Black, 5, Node(26, Red, 2, Leaf(4), Leaf(10)), Node(0, Red, 13, Leaf(11), Leaf(27)))
  }

  /** The tree after 5 insertElement calls of test.c. */
  function Inserted5(): Tree<int>
  {
    Node(5, Black, 5,
         Node(26, Black, 2, Node(4, Red, 1, Leaf(2), Leaf(3)), Leaf(10)),
         Node(0, Black, 13, Leaf(11), Leaf(27)))
  }

  /** The tree after 6 insertElement calls of test.c. */
  function Inserted6(): Tree<int>
  {
    Node(5, Black, 5,
         Node(26, Black, 2, Node(4, Red, 1, Leaf(2), Leaf(3)), Leaf(10)),
         Node(0, Black, 13, Node(11, Red, 7, Leaf(14), Leaf(15)), Leaf(27)))
  }

  /** The tree after 7 insertElement calls of test.c. */
  function Inserted7(): Tree<int>
  {
    Node(5, Black, 5,
         Node(26, Black, 2, Node(4, Red, 1, Leaf(2), Leaf(3)), Leaf(10)),
         Node(0, Black, 13, Node(11, Red, 7, Leaf(14), Leaf(15)), Leaf(27)))
  }

  /** The tree after 8 insertElement calls of test.c. */
  function Inserted8(): Tree<int>
  {
    Node(5, Black, 5,
         Node(26, Black, 2, Node(4, Red, 1, Leaf(2), Leaf(3)), Node(10, Red, 3, Leaf(6), Leaf(7))),
         Node(0, Black, 13, Node(11, Red, 7, Leaf(14), Leaf(15)), Leaf(27)))
  }

  /** The tree after 9 insertElement calls of test.c. */
  function Inserted9(): Tree<int>
  {
    Node(5, Black, 5,
         Node(26, Red, 2,
              Node(4, Black, 1, Leaf(2), Leaf(3)),
              Node(10, Black, 3, Leaf(6), Node(7, Red, 4, Leaf(8), Leaf(9)))),
         Node(0, Black, 13, Node(11, Red, 7, Leaf(14), Leaf(15)), Leaf(27)))
  }

  /** The tree after 10 insertElement calls of test.c. */
  function Inserted10(): Tree<int>
  {
    Node(5, Black, 5,
         Node(26, Red, 2,
              Node(4, Black, 1, Leaf(2), Leaf(3)),
              Node(10, Black, 3, Leaf(6), Node(7, Red, 4, Leaf(8), Leaf(9)))),
         Node(15, Black, 9,
              Node(11, Red, 7, Leaf(14), Leaf(18)),
              Node(0, Red, 13, Leaf(19), Leaf(27))))
  }

  /** The tree after 11 insertElement calls of test.c. */
  function Inserted11(): Tree<int>
  {
    Node(5, Black, 5,
         Node(26, Red, 2,
              Node(4, Black, 1, Leaf(2), Leaf(3)),
              Node(10, Black, 3, Leaf(6), Node(7, Red, 4, Leaf(8), Leaf(9)))),
         Node(15, Red, 9,
              Node(11, Black, 7, Leaf(14), Leaf(18)),
              Node(0, Black, 13, Node(19, Red, 12, Leaf(24), Leaf(25)), Leaf(27))))
  }

  /** The tree after 12 insertElement calls of test.c. */
  function Inserted12(): Tree<int>
  {
    Node(5, Black, 5,
         Node(26, Red, 2,
              Node(4, Black, 1, Leaf(2), Leaf(3)),
              Node(10, Black, 3, Leaf(6), Node(7, Red, 4, Leaf(8), Leaf(9)))),
         Node(15, Red, 9,
              Node(11, Black, 7, Leaf(14), Leaf(18)),
              Node(0, Black, 13, Node(19, Red, 12, Leaf(24), Leaf(25)), Leaf(27))))
  }

  /** The tree after 13 insertElement calls of test.c. */
  function Inserted13(): Tree<int>
  {
    Node(5, Black, 5,
         Node(26, Red, 2,
              Node(4, Black, 1, Leaf(2), Leaf(3)),
              Node(10, Black, 3, Leaf(6), Node(7, Red, 4, Leaf(8), Leaf(9)))),
         Node(15, Red, 9,
              Node(11, Black, 7, Leaf(14), Leaf(18)),
              Node(0, Black, 13,
                   Node(19, Red, 12, Leaf(24), Leaf(25)),
                   Node(27, Red, 31, Leaf(62), Leaf(63)))))
  }

  /** The tree after 14 insertElement calls of test.c. */
  function Inserted14(): Tree<int>
  {
    Node(5, Black, 5,
         Node(26, Black, 2,
              Node(4, Black, 1, Leaf(2), Leaf(3)),
              Node(10, Black, 3, Leaf(6), Node(7, Red, 4, Leaf(8), Leaf(9)))),
         Node(15, Black, 9,
              Node(11, Black, 7, Leaf(14), Leaf(18)),
              Node(0, Red, 13,
                   Node(19, Black, 12, Leaf(24), Leaf(25)),
                   Node(27, Black, 31, Node(62, Red, 17, Leaf(34), Leaf(35)), Leaf(63)))))
  }

  /** The tree after 15 insertElement calls of test.c. */
  function Inserted15(): Tree<int>
  {
    Node(5, Black, 5,
         Node(26, Black, 2,
              Node(4, Black, 1, Leaf(2), Leaf(3)),
              Node(10, Black, 3, Leaf(6), Node(7, Red, 4, Leaf(8), Leaf(9)))),
         Node(15, Black, 9,
              Node(11, Black, 7, Leaf(14), Leaf(18)),
              Node(0, Red, 13,
                   Node(19, Black, 12, Node(24, Red, 10, Leaf(20), Leaf(21)), Leaf(25)),
                   Node(27, Black, 31, Node(62, Red, 17, Leaf(34), Leaf(35)), Leaf(63)))))
  }

  /** The tree after 16 insertElement calls of test.c. */
  function Inserted16(): Tree<int>
  {
    Node(5, Black, 5,
         Node(26, Black, 2,
              Node(4, Black, 1, Leaf(2), Leaf(3)),
              Node(10, Black, 3, Leaf(6), Node(7, Red, 4, Leaf(8), Leaf(9)))),
         Node(15, Black, 9,
              Node(11, Black, 7, Leaf(14), Leaf(18)),
              Node(0, Red, 13,
                   Node(19, Black, 12, Node(24, Red, 10, Leaf(20), Leaf(21)), Leaf(25)),
                   Node(27, Black, 31, Node(62, Red, 17, Leaf(34), Leaf(35)), Leaf(63)))))
  }

  /** The tree after 17 insertElement calls of test.c. */
  function Inserted17(): Tree<int>
  {
    Node(5, Black, 5,
         Node(26, Black, 2,
              Node(4, Black, 1, Leaf(2), Leaf(3)),
              Node(10, Black, 3, Leaf(6), Node(7, Red, 4, Leaf(8), Leaf(9)))),
         Node(15, Black, 9,
              Node(11, Black, 7, Leaf(14), Leaf(18)),
              Node(0, Red, 13,
                   Node(19, Black, 12, Node(24, Red, 10, Leaf(20), Leaf(21)), Leaf(25)),
                   Node(27, Black, 31, Node(62, Red, 17, Leaf(34), Leaf(35)), Leaf(63)))))
  }

  /** insertElement of 13. */
  lemma Insert1()
    ensures InsertSpec.Insert(Inserted0(), 13, 26, 27) == Inserted1()
  {
    var t := Inserted0();
    assert Descend(t, 13) == [];
    var t1 := Node(0, Red, 13, Leaf(26), Leaf(27));
    assert Replace(t, [], InsertSpec.Grow(0, 13, 26, 27)) == t1;
    assert InsertSpec.InsertStep(t1, []) == Done(Inserted1());
    assert InsertSpec.InsertFixup(t1, []) == Inserted1();
  }

  /** insertElement of 2. */
  lemma Insert2()
    ensures InsertSpec.Insert(Inserted1(), 2, 4, 5) == Inserted2()
  {
    var t := Inserted1();
    assert Descend(t.left, 2) == [];
    assert Descend(t, 2) == [Left];
    var t1 := Node(0, Black, 13, Node(26, Red, 2, Leaf(4), Leaf(5)), Leaf(27));
    assert Replace(t, [Left], InsertSpec.Grow(26, 2, 4, 5)) == t1;
    assert Parent([Left]) == [];
    assert InsertSpec.InsertStep(t1, [Left]) == Done(Inserted2());
    assert InsertSpec.InsertFixup(t1, [Left]) == Inserted2();
  }

  /** insertElement of 5. */
  lemma Insert3()
    ensures InsertSpec.Insert(Inserted2(), 5, 10, 11) == Inserted3()
  {
    var t := Inserted2();
    assert Descend(t.left.right, 5) == [];
    assert Descend(t.left, 5) == [Right];
    assert Descend(t, 5) == [Left, Right];
    var t1 := Node(0, Black, 13,
                   Node(26, Red, 2, Leaf(4), Node(5, Red, 5, Leaf(10), Leaf(11))),
                   Leaf(27));
    assert Replace(t, [Left, Right], InsertSpec.Grow(5, 5, 10, 11)) == t1;
    assert Parent([Left, Left]) == [Left];
    assert Parent([Left, Right]) == [Left];
    assert Parent([Left]) == [];
    var s1 := Node(0, Black, 13,
                   Node(5, Red, 5, Node(26, Red, 2, Leaf(4), Leaf(10)), Leaf(11)),
                   Leaf(27));
    assert InsertSpec.InsertStep(t1, [Left, Right]) == Next(s1, [Left, Left]);
    assert InsertSpec.InsertStep(s1, [Left, Left]) == Done(Inserted3());
    assert InsertSpec.InsertFixup(s1, [Left, Left]) == Inserted3();
    assert InsertSpec.InsertFixup(t1, [Left, Right]) == Inserted3();
  }

  /** insertElement of 2, which the tree already holds. */
  lemma Insert4()
    ensures InsertSpec.Insert(Inserted3(), 2, 4, 5) == Inserted4()
  {
    var t := Inserted3();
    assert Descend(t.left, 2) == [];
    assert Descend(t, 2) == [Left];
  }

  /** insertElement of 1. */
  lemma Insert5()
    ensures InsertSpec.Insert(Inserted4(), 1, 2, 3) == Inserted5()
  {
    var t := Inserted4();
    assert Descend(t.left.left, 1) == [];
    assert Descend(t.left, 1) == [Left];
    assert Descend(t, 1) == [Left, Left];
    var t1 := Node(5, Black, 5,
                   Node(26, Red, 2, Node(4, Red, 1, Leaf(2), Leaf(3)), Leaf(10)),
                   Node(0, Red, 13, Leaf(11), Leaf(27)));
    assert Replace(t, [Left, Left], InsertSpec.Grow(4, 1, 2, 3)) == t1;
    assert Parent([Left, Left]) == [Left] && Parent([Left]) == [];
    var s1 := Node(5, Red, 5,
                   Node(26, Black, 2, Node(4, Red, 1, Leaf(2), Leaf(3)), Leaf(10)),
                   Node(0, Black, 13, Leaf(11), Leaf(27)));
    assert InsertSpec.InsertStep(t1, [Left, Left]) == Next(s1, []);
    assert InsertSpec.InsertStep(s1, []) == Done(Inserted5());
    assert InsertSpec.InsertFixup(s1, []) == Inserted5();
    assert InsertSpec.InsertFixup(t1, [Left, Left]) == Inserted5();
  }

  /** insertElement of 7. */
  lemma Insert6()
    ensures InsertSpec.Insert(Inserted5(), 7, 14, 15) == Inserted6()
  {
    var t := Inserted5();
    assert Descend(t.right.left, 7) == [];
    assert Descend(t.right, 7) == [Left];
    assert Descend(t, 7) == [Right, Left];
    var t1 := Node(5, Black, 5,
                   Node(26, Black, 2, Node(4, Red, 1, Leaf(2), Leaf(3)), Leaf(10)),
                   Node(0, Black, 13, Node(11, Red, 7, Leaf(14), Leaf(15)), Leaf(27)));
    assert Replace(t, [Right, Left], InsertSpec.Grow(11, 7, 14, 15)) == t1;
    assert Parent([Right, Left]) == [Right] && Parent([Right]) == [];
    assert InsertSpec.InsertStep(t1, [Right, Left]) == Done(Inserted6());
    assert InsertSpec.InsertFixup(t1, [Right, Left]) == Inserted6();
  }

  /** insertElement of 1, which the tree already holds. */
  lemma Insert7()
    ensures InsertSpec.Insert(Inserted6(), 1, 2, 3) == Inserted7()
  {
    var t := Inserted6();
    assert Descend(t.left.left, 1) == [];
    assert Descend(t.left, 1) == [Left];
    assert Descend(t, 1) == [Left, Left];
  }

  /** insertElement of 3. */
  lemma Insert8()
    ensures InsertSpec.Insert(Inserted7(), 3, 6, 7) == Inserted8()
  {
    var t := Inserted7();
    assert Descend(t.left.right, 3) == [];
    assert Descend(t.left, 3) == [Right];
    assert Descend(t, 3) == [Left, Right];
    var t1 := Node(5, Black, 5,
                   Node(26, Black, 2,
                        Node(4, Red, 1, Leaf(2), Leaf(3)),
                        Node(10, Red, 3, Leaf(6), Leaf(7))),
                   Node(0, Black, 13, Node(11, Red, 7, Leaf(14), Leaf(15)), Leaf(27)));
    assert Replace(t, [Left, Right], InsertSpec.Grow(10, 3, 6, 7)) == t1;
    assert Parent([Left, Right]) == [Left] && Parent([Left]) == [];
    assert InsertSpec.InsertStep(t1, [Left, Right]) == Done(Inserted8());
    assert InsertSpec.InsertFixup(t1, [Left, Right]) == Inserted8();
  }

  /** insertElement of 4. */
  lemma Insert9()
    ensures InsertSpec.Insert(Inserted8(), 4, 8, 9) == Inserted9()
  {
    var t := Inserted8();
    assert Descend(t.left.right.right, 4) == [];
    assert Descend(t.left.right, 4) == [Right];
    assert Descend(t.left, 4) == [Right, Right];
    assert Descend(t, 4) == [Left, Right, Right];
    var t1 := Node(5, Black, 5,
                   Node(26, Black, 2,
                        Node(4, Red, 1, Leaf(2), Leaf(3)),
                        Node(10, Red, 3, Leaf(6), Node(7, Red, 4, Leaf(8), Leaf(9)))),
                   Node(0, Black, 13, Node(11, Red, 7, Leaf(14), Leaf(15)), Leaf(27)));
    assert Replace(t, [Left, Right, Right], InsertSpec.Grow(7, 4, 8, 9)) == t1;
    assert Parent([Left, Right, Right]) == [Left, Right];
    assert Parent([Left, Right]) == [Left];
    assert Parent([Left]) == [];
    var s1 := Node(5, Black, 5,
                   Node(26, Red, 2,
                        Node(4, Black, 1, Leaf(2), Leaf(3)),
                        Node(10, Black, 3, Leaf(6), Node(7, Red, 4, Leaf(8), Leaf(9)))),
                   Node(0, Black, 13, Node(11, Red, 7, Leaf(14), Leaf(15)), Leaf(27)));
    assert InsertSpec.InsertStep(t1, [Left, Right, Right]) == Next(s1, [Left]);
    assert InsertSpec.InsertStep(s1, [Left]) == Done(Inserted9());
    assert InsertSpec.InsertFixup(s1, [Left]) == Inserted9();
    assert InsertSpec.InsertFixup(t1, [Left, Right, Right]) == Inserted9();
  }

  /** insertElement of 9. */
  lemma Insert10()
    ensures InsertSpec.Insert(Inserted9(), 9, 18, 19) == Inserted10()
  {
    var t := Inserted9();
    assert Descend(t.right.left.right, 9) == [];
    assert Descend(t.right.left, 9) == [Right];
    assert Descend(t.right, 9) == [Left, Right];
    assert Descend(t, 9) == [Right, Left, Right];
    var t1 := Node(5, Black, 5,
                   Node(26, Red, 2,
                        Node(4, Black, 1, Leaf(2), Leaf(3)),
                        Node(10, Black, 3, Leaf(6), Node(7, Red, 4, Leaf(8), Leaf(9)))),
                   Node(0, Black, 13,
                        Node(11, Red, 7, Leaf(14), Node(15, Red, 9, Leaf(18), Leaf(19))),
                        Leaf(27)));
    assert Replace(t, [Right, Left, Right], InsertSpec.Grow(15, 9, 18, 19)) == t1;
    assert Parent([Right, Left, Left]) == [Right, Left];
    assert Parent([Right, Left, Right]) == [Right, Left];
    assert Parent([Right, Left]) == [Right];
    assert Parent([Right]) == [];
    var s1 := Node(5, Black, 5,
                   Node(26, Red, 2,
                        Node(4, Black, 1, Leaf(2), Leaf(3)),
                        Node(10, Black, 3, Leaf(6), Node(7, Red, 4, Leaf(8), Leaf(9)))),
                   Node(0, Black, 13,
                        Node(15, Red, 9, Node(11, Red, 7, Leaf(14), Leaf(18)), Leaf(19)),
                        Leaf(27)));
    assert InsertSpec.InsertStep(t1, [Right, Left, Right]) == Next(s1, [Right, Left, Left]);
    assert InsertSpec.InsertStep(s1, [Right, Left, Left]) == Done(Inserted10());
    assert InsertSpec.InsertFixup(s1, [Right, Left, Left]) == Inserted10();
    assert InsertSpec.InsertFixup(t1, [Right, Left, Right]) == Inserted10();
  }

  /** insertElement of 12. */
  lemma Insert11()
    ensures InsertSpec.Insert(Inserted10(), 12, 24, 25) == Inserted11()
  {
    var t := Inserted10();
    assert Descend(t.right.right.left, 12) == [];
    assert Descend(t.right.right, 12) == [Left];
    assert Descend(t.right, 12) == [Right, Left];
    assert Descend(t, 12) == [Right, Right, Left];
    var t1 := Node(5, Black, 5,
                   Node(26, Red, 2,
                        Node(4, Black, 1, Leaf(2), Leaf(3)),
                        Node(10, Black, 3, Leaf(6), Node(7, Red, 4, Leaf(8), Leaf(9)))),
                   Node(15, Black, 9,
                        Node(11, Red, 7, Leaf(14), Leaf(18)),
                        Node(0, Red, 13, Node(19, Red, 12, Leaf(24), Leaf(25)), Leaf(27))));
    assert Replace(t, [Right, Right, Left], InsertSpec.Grow(19, 12, 24, 25)) == t1;
    assert Parent([Right, Right, Left]) == [Right, Right];
    assert Parent([Right, Right]) == [Right];
    assert Parent([Right]) == [];
    var s1 := Node(5, Black, 5,
                   Node(26, Red, 2,
                        Node(4, Black, 1, Leaf(2), Leaf(3)),
                        Node(10, Black, 3, Leaf(6), Node(7, Red, 4, Leaf(8), Leaf(9)))),
                   Node(15, Red, 9,
                        Node(11, Black, 7, Leaf(14), Leaf(18)),
                        Node(0, Black, 13, Node(19, Red, 12, Leaf(24), Leaf(25)), Leaf(27))));
    assert InsertSpec.InsertStep(t1, [Right, Right, Left]) == Next(s1, [Right]);
    assert InsertSpec.InsertStep(s1, [Right]) == Done(Inserted11());
    assert InsertSpec.InsertFixup(s1, [Right]) == Inserted11();
    assert InsertSpec.InsertFixup(t1, [Right, Right, Left]) == Inserted11();
  }

  /** insertElement of 2, which the tree already holds. */
  lemma Insert12()
    ensures InsertSpec.Insert(Inserted11(), 2, 4, 5) == Inserted12()
  {
    var t := Inserted11();
    assert Descend(t.left, 2) == [];
    assert Descend(t, 2) == [Left];
  }

  /** insertElement of 31. */
  lemma Insert13()
    ensures InsertSpec.Insert(Inserted12(), 31, 62, 63) == Inserted13()
  {
    var t := Inserted12();
    assert Descend(t.right.right.right, 31) == [];
    assert Descend(t.right.right, 31) == [Right];
    assert Descend(t.right, 31) == [Right, Right];
    assert Descend(t, 31) == [Right, Right, Right];
    var t1 := Node(5, Black, 5,
                   Node(26, Red, 2,
                        Node(4, Black, 1, Leaf(2), Leaf(3)),
                        Node(10, Black, 3, Leaf(6), Node(7, Red, 4, Leaf(8), Leaf(9)))),
                   Node(15, Red, 9,
                        Node(11, Black, 7, Leaf(14), Leaf(18)),
                        Node(0, Black, 13,
                             Node(19, Red, 12, Leaf(24), Leaf(25)),
                             Node(27, Red, 31, Leaf(62), Leaf(63)))));
    assert Replace(t, [Right, Right, Right], InsertSpec.Grow(27, 31, 62, 63)) == t1;
    assert Parent([Right, Right, Right]) == [Right, Right];
    assert Parent([Right, Right]) == [Right];
    assert Parent([Right]) == [];
    assert InsertSpec.InsertStep(t1, [Right, Right, Right]) == Done(Inserted13());
    assert InsertSpec.InsertFixup(t1, [Right, Right, Right]) == Inserted13();
  }

  /** insertElement of 17. */
  lemma Insert14()
    ensures InsertSpec.Insert(Inserted13(), 17, 34, 35) == Inserted14()
  {
    var t := Inserted13();
    assert Descend(t.right.right.right.left, 17) == [];
    assert Descend(t.right.right.right, 17) == [Left];
    assert Descend(t.right.right, 17) == [Right, Left];
    assert Descend(t.right, 17) == [Right, Right, Left];
    assert Descend(t, 17) == [Right, Right, Right, Left];
    var t1 := Node(5, Black, 5,
                   Node(26, Red, 2,
                        Node(4, Black, 1, Leaf(2), Leaf(3)),
                        Node(10, Black, 3, Leaf(6), Node(7, Red, 4, Leaf(8), Leaf(9)))),
                   Node(15, Red, 9,
                        Node(11, Black, 7, Leaf(14), Leaf(18)),
                        Node(0, Black, 13,
                             Node(19, Red, 12, Leaf(24), Leaf(25)),
                             Node(27, Red, 31, Node(62, Red, 17, Leaf(34), Leaf(35)), Leaf(63)))));
    assert Replace(t, [Right, Right, Right, Left], InsertSpec.Grow(62, 17, 34, 35)) == t1;
    assert Parent([Right, Right, Right, Left]) == [Right, Right, Right];
    assert Parent([Right, Right, Right]) == [Right, Right];
    assert Parent([Right, Right]) == [Right];
    assert Parent([Right]) == [];
    var s1 := Node(5, Black, 5,
                   Node(26, Red, 2,
                        Node(4, Black, 1, Leaf(2), Leaf(3)),
                        Node(10, Black, 3, Leaf(6), Node(7, Red, 4, Leaf(8), Leaf(9)))),
                   Node(15, Red, 9,
                        Node(11, Black, 7, Leaf(14), Leaf(18)),
                        Node(0, Red, 13,
                             Node(19, Black, 12, Leaf(24), Leaf(25)),
                             Node(27, Black, 31, Node(62, Red, 17, Leaf(34), Leaf(35)), Leaf(63)))));
    var s2 := Node(5, Red, 5,
                   Node(26, Black, 2,
                        Node(4, Black, 1, Leaf(2), Leaf(3)),
                        Node(10, Black, 3, Leaf(6), Node(7, Red, 4, Leaf(8), Leaf(9)))),
                   Node(15, Black, 9,
                        Node(11, Black, 7, Leaf(14), Leaf(18)),
                        Node(0, Red, 13,
                             Node(19, Black, 12, Leaf(24), Leaf(25)),
                             Node(27, Black, 31, Node(62, Red, 17, Leaf(34), Leaf(35)), Leaf(63)))));
    assert InsertSpec.InsertStep(t1, [Right, Right, Right, Left]) == Next(s1, [Right, Right]);
    assert InsertSpec.InsertStep(s1, [Right, Right]) == Next(s2, []);
    assert InsertSpec.InsertStep(s2, []) == Done(Inserted14());
    assert InsertSpec.InsertFixup(s2, []) == Inserted14();
    assert InsertSpec.InsertFixup(s1, [Right, Right]) == Inserted14();
    assert InsertSpec.InsertFixup(t1, [Right, Right, Right, Left]) == Inserted14();
  }

  /** insertElement of 10. */
  lemma Insert15()
    ensures InsertSpec.Insert(Inserted14(), 10, 20, 21) == Inserted15()
  {
    var t := Inserted14();
    assert Descend(t.right.right.left.left, 10) == [];
    assert Descend(t.right.right.left, 10) == [Left];
    assert Descend(t.right.right, 10) == [Left, Left];
    assert Descend(t.right, 10) == [Right, Left, Left];
    assert Descend(t, 10) == [Right, Right, Left, Left];
    var t1 := Node(5, Black, 5,
                   Node(26, Black, 2,
                        Node(4, Black, 1, Leaf(2), Leaf(3)),
                        Node(10, Black, 3, Leaf(6), Node(7, Red, 4, Leaf(8), Leaf(9)))),
                   Node(15, Black, 9,
                        Node(11, Black, 7, Leaf(14), Leaf(18)),
                        Node(0, Red, 13,
                             Node(19, Black, 12, Node(24, Red, 10, Leaf(20), Leaf(21)), Leaf(25)),
                             Node(27, Black, 31, Node(62, Red, 17, Leaf(34), Leaf(35)), Leaf(63)))));
    assert Replace(t, [Right, Right, Left, Left], InsertSpec.Grow(24, 10, 20, 21)) == t1;
    assert Parent([Right, Right, Left, Left]) == [Right, Right, Left];
    assert Parent([Right, Right, Left]) == [Right, Right];
    assert Parent([Right, Right]) == [Right];
    assert Parent([Right]) == [];
    assert InsertSpec.InsertStep(t1, [Right, Right, Left, Left]) == Done(Inserted15());
    assert InsertSpec.InsertFixup(t1, [Right, Right, Left, Left]) == Inserted15();
  }

  /** insertElement of 7, which the tree already holds. */
  lemma Insert16()
    ensures InsertSpec.Insert(Inserted15(), 7, 14, 15) == Inserted16()
  {
    var t := Inserted15();
    assert Descend(t.right.left, 7) == [];
    assert Descend(t.right, 7) == [Left];
    assert Descend(t, 7) == [Right, Left];
  }

  /** insertElement of 7, which the tree already holds. */
  lemma Insert17()
    ensures InsertSpec.Insert(Inserted16(), 7, 14, 15) == Inserted17()
  {
    var t := Inserted16();
    assert Descend(t.right.left, 7) == [];
    assert Descend(t.right, 7) == [Left];
    assert Descend(t, 7) == [Right, Left];
  }

  /** The tree after 1 removeElement call of test.c. */
  function Removed1(): Tree<int>
  {
    Node(5, Black, 5,
         Node(26, Black, 2,
              Node(4, Black, 1, Leaf(2), Leaf(3)),
              Node(10, Black, 3, Leaf(6), Node(7, Red, 4, Leaf(8), Leaf(9)))),
         Node(15, Black, 9,
              Node(11, Black, 7, Leaf(14), Leaf(18)),
              Node(0, Red, 13,
                   Node(19, Black, 12, Node(24, Red, 10, Leaf(20), Leaf(21)), Leaf(25)),
                   Node(27, Black, 31, Node(62, Red, 17, Leaf(34), Leaf(35)), Leaf(63)))))
  }

  /** The tree after 2 removeElement calls of test.c. */
  function Removed2(): Tree<int>
  {
    Node(5, Black, 5,
         Node(26, Black, 2,
              Node(4, Black, 1, Leaf(2), Leaf(3)),
              Node(10, Black, 3, Leaf(6), Node(7, Red, 4, Leaf(8), Leaf(9)))),
         Node(0, Black, 13,
              Node(24, Red, 10,
                   Node(15, Black, 9, Leaf(11), Leaf(20)),
                   Node(19, Black, 12, Leaf(21), Leaf(25))),
              Node(27, Black, 31, Node(62, Red, 17, Leaf(34), Leaf(35)), Leaf(63))))
  }

  /** The tree after 3 removeElement calls of test.c. */
  function Removed3(): Tree<int>
  {
    Node(5, Black, 5,
         Node(26, Black, 2,
              Node(4, Black, 1, Leaf(2), Leaf(3)),
              Node(10, Black, 3, Leaf(6), Node(7, Red, 4, Leaf(8), Leaf(9)))),
         Node(0, Black, 13,
              Node(24, Red, 10,
                   Node(15, Black, 9, Leaf(11), Leaf(20)),
                   Node(19, Black, 12, Leaf(21), Leaf(25))),
              Node(27, Black, 31, Node(62, Red, 17, Leaf(34), Leaf(35)), Leaf(63))))
  }

  /** The tree after 4 removeElement calls of test.c. */
  function Removed4(): Tree<int>
  {
    Node(5, Black, 5,
         Node(26, Black, 3,
              Node(4, Black, 1, Leaf(2), Leaf(3)),
              Node(10, Black, 4, Leaf(6), Leaf(7))),
         Node(0, Black, 13,
              Node(24, Red, 10,
                   Node(15, Black, 9, Leaf(11), Leaf(20)),
                   Node(19, Black, 12, Leaf(21), Leaf(25))),
              Node(27, Black, 31, Node(62, Red, 17, Leaf(34), Leaf(35)), Leaf(63))))
  }

  /** The tree after 5 removeElement calls of test.c. */
  function Removed5(): Tree<int>
  {
    Node(5, Black, 5,
         Node(26, Black, 3,
              Node(4, Black, 1, Leaf(2), Leaf(3)),
              Node(10, Black, 4, Leaf(6), Leaf(7))),
         Node(0, Black, 17,
              Node(24, Red, 10,
                   Node(15, Black, 9, Leaf(11), Leaf(20)),
                   Node(19, Black, 12, Leaf(21), Leaf(25))),
              Node(27, Black, 31, Leaf(62), Leaf(63))))
  }

  /** The tree after 6 removeElement calls of test.c. */
  function Removed6(): Tree<int>
  {
    Node(5, Black, 5,
         Node(26, Black, 3,
              Node(4, Black, 1, Leaf(2), Leaf(3)),
              Node(10, Black, 4, Leaf(6), Leaf(7))),
         Node(0, Black, 17,
              Node(24, Black, 10, Leaf(15), Node(19, Red, 12, Leaf(21), Leaf(25))),
              Node(27, Black, 31, Leaf(62), Leaf(63))))
  }

  /** removeElement of 8, which the tree does not hold. */
  lemma Remove1()
    ensures RemoveSpec.Remove(Inserted17(), 8) == Some(Removed1())
  {
    var t := Inserted17();
    assert Descend(t.right.left.right, 8) == [];
    assert Descend(t.right.left, 8) == [Right];
    assert Descend(t.right, 8) == [Left, Right];
    assert Descend(t, 8) == [Right, Left, Right];
  }

  /** removeElement of 7. */
  lemma Remove2()
    ensures RemoveSpec.Remove(Removed1(), 7) == Some(Removed2())
  {
    var t := Removed1();
    assert Descend(t.right.left, 7) == [];
    assert Descend(t.right, 7) == [Left];
    assert Descend(t, 7) == [Right, Left];
    assert RemoveSpec.Target(t, [Right, Left]) == [Right, Left];
    var u := Node(5, Black, 5,
                  Node(26, Black, 2,
                       Node(4, Black, 1, Leaf(2), Leaf(3)),
                       Node(10, Black, 3, Leaf(6), Node(7, Red, 4, Leaf(8), Leaf(9)))),
                  Node(15, Black, 9,
                       Leaf(11),
                       Node(0, Red, 13,
                            Node(19, Black, 12, Node(24, Red, 10, Leaf(20), Leaf(21)), Leaf(25)),
                            Node(27, Black, 31, Node(62, Red, 17, Leaf(34), Leaf(35)), Leaf(63)))));
    assert RemoveSpec.Unlink(t, [Right, Left]) == u;
    assert Parent([Right, Left]) == [Right] && Parent([Right]) == [];
    assert RemoveSpec.RemoveStep(u, [Right, Left]) == Done(Removed2());
    assert RemoveSpec.RemoveFixup(u, [Right, Left]) == Removed2();
  }

  /** removeElement of 6, which the tree does not hold. */
  lemma Remove3()
    ensures RemoveSpec.Remove(Removed2(), 6) == Some(Removed3())
  {
    var t := Removed2();
    assert Descend(t.right.left.left.left, 6) == [];
    assert Descend(t.right.left.left, 6) == [Left];
    assert Descend(t.right.left, 6) == [Left, Left];
    assert Descend(t.right, 6) == [Left, Left, Left];
    assert Descend(t, 6) == [Right, Left, Left, Left];
  }

  /** removeElement of 2. */
  lemma Remove4()
    ensures RemoveSpec.Remove(Removed3(), 2) == Some(Removed4())
  {
    var t := Removed3();
    assert Descend(t.left, 2) == [];
    assert Descend(t, 2) == [Left];
    assert RemoveSpec.Leftmost(t.left.right) == [];
    assert [Left] + ([Right] + []) == [Left, Right];
    assert RemoveSpec.Target(t, [Left]) == [Left, Right];
    var u := Node(5, Black, 5,
                  Node(26, Black, 3,
                       Node(4, Black, 1, Leaf(2), Leaf(3)),
                       Node(10, Black, 4, Leaf(6), Leaf(7))),
                  Node(0, Black, 13,
                       Node(24, Red, 10,
                            Node(15, Black, 9, Leaf(11), Leaf(20)),
                            Node(19, Black, 12, Leaf(21), Leaf(25))),
                       Node(27, Black, 31, Node(62, Red, 17, Leaf(34), Leaf(35)), Leaf(63))));
    assert RemoveSpec.Unlink(t, [Left]) == u;
  }

  /** removeElement of 13. */
  lemma Remove5()
    ensures RemoveSpec.Remove(Removed4(), 13) == Some(Removed5())
  {
    var t := Removed4();
    assert Descend(t.right, 13) == [];
    assert Descend(t, 13) == [Right];
    assert RemoveSpec.Leftmost(t.right.right.left) == [];
    assert RemoveSpec.Leftmost(t.right.right) == [Left];
    assert [Right] + ([Right] + [Left]) == [Right, Right, Left];
    assert RemoveSpec.Target(t, [Right]) == [Right, Right, Left];
    var u := Node(5, Black, 5,
                  Node(26, Black, 3,
                       Node(4, Black, 1, Leaf(2), Leaf(3)),
                       Node(10, Black, 4, Leaf(6), Leaf(7))),
                  Node(0, Black, 17,
                       Node(24, Red, 10,
                            Node(15, Black, 9, Leaf(11), Leaf(20)),
                            Node(19, Black, 12, Leaf(21), Leaf(25))),
                       Node(27, Black, 31, Leaf(62), Leaf(63))));
    assert RemoveSpec.Unlink(t, [Right]) == u;
  }

  /** removeElement of 9. */
  lemma Remove6()
    ensures RemoveSpec.Remove(Removed5(), 9) == Some(Removed6())
  {
    var t := Removed5();
    assert Descend(t.right.left.left, 9) == [];
    assert Descend(t.right.left, 9) == [Left];
    assert Descend(t.right, 9) == [Left, Left];
    assert Descend(t, 9) == [Right, Left, Left];
    assert RemoveSpec.Target(t, [Right, Left, Left]) == [Right, Left, Left];
    var u := Node(5, Black, 5,
                  Node(26, Black, 3,
                       Node(4, Black, 1, Leaf(2), Leaf(3)),
                       Node(10, Black, 4, Leaf(6), Leaf(7))),
                  Node(0, Black, 17,
                       Node(24, Red, 10, Leaf(15), Node(19, Black, 12, Leaf(21), Leaf(25))),
                       Node(27, Black, 31, Leaf(62), Leaf(63))));
    assert RemoveSpec.Unlink(t, [Right, Left, Left]) == u;
    assert Parent([Right, Left, Left]) == [Right, Left];
    assert Parent([Right, Left]) == [Right];
    assert Parent([Right]) == [];
    assert RemoveSpec.RemoveStep(u, [Right, Left, Left]) == Done(Removed6());
    assert RemoveSpec.RemoveFixup(u, [Right, Left, Left]) == Removed6();
  }

  /** The insertElement calls of test.c:8 from the `i`-th on leave the tree `Inserted17()`. */
  lemma InsertsFrom16()
    ensures InsertAll(Inserted16(), Data[16..]) == Inserted17()
  {
    Insert17();
    assert Data[17..] == [];
    assert Data[16..][0] == 7 && Data[16..][1..] == Data[17..];
  }

  lemma InsertsFrom15()
    ensures InsertAll(Inserted15(), Data[15..]) == Inserted17()
  {
    Insert16();
    InsertsFrom16();
    assert Data[15..][0] == 7 && Data[15..][1..] == Data[16..];
  }

  lemma InsertsFrom14()
    ensures InsertAll(Inserted14(), Data[14..]) == Inserted17()
  {
    Insert15();
    InsertsFrom15();
    assert Data[14..][0] == 10 && Data[14..][1..] == Data[15..];
  }

  lemma InsertsFrom13()
    ensures InsertAll(Inserted13(), Data[13..]) == Inserted17()
  {
    Insert14();
    InsertsFrom14();
    assert Data[13..][0] == 17 && Data[13..][1..] == Data[14..];
  }

  lemma InsertsFrom12()
    ensures InsertAll(Inserted12(), Data[12..]) == Inserted17()
  {
    Insert13();
    InsertsFrom13();
    assert Data[12..][0] == 31 && Data[12..][1..] == Data[13..];
  }

  lemma InsertsFrom11()
    ensures InsertAll(Inserted11(), Data[11..]) == Inserted17()
  {
    Insert12();
    InsertsFrom12();
    assert Data[11..][0] == 2 && Data[11..][1..] == Data[12..];
  }

  lemma InsertsFrom10()
    ensures InsertAll(Inserted10(), Data[10..]) == Inserted17()
  {
    Insert11();
    InsertsFrom11();
    assert Data[10..][0] == 12 && Data[10..][1..] == Data[11..];
  }

  lemma InsertsFrom9()
    ensures InsertAll(Inserted9(), Data[9..]) == Inserted17()
  {
    Insert10();
    InsertsFrom10();
    assert Data[9..][0] == 9 && Data[9..][1..] == Data[10..];
  }

  lemma InsertsFrom8()
    ensures InsertAll(Inserted8(), Data[8..]) == Inserted17()
  {
    Insert9();
    InsertsFrom9();
    assert Data[8..][0] == 4 && Data[8..][1..] == Data[9..];
  }

  lemma InsertsFrom7()
    ensures InsertAll(Inserted7(), Data[7..]) == Inserted17()
  {
    Insert8();
    InsertsFrom8();
    assert Data[7..][0] == 3 && Data[7..][1..] == Data[8..];
  }

  lemma InsertsFrom6()
    ensures InsertAll(Inserted6(), Data[6..]) == Inserted17()
  {
    Insert7();
    InsertsFrom7();
    assert Data[6..][0] == 1 && Data[6..][1..] == Data[7..];
  }

  lemma InsertsFrom5()
    ensures InsertAll(Inserted5(), Data[5..]) == Inserted17()
  {
    Insert6();
    InsertsFrom6();
    assert Data[5..][0] == 7 && Data[5..][1..] == Data[6..];
  }

  lemma InsertsFrom4()
    ensures InsertAll(Inserted4(), Data[4..]) == Inserted17()
  {
    Insert5();
    InsertsFrom5();
    assert Data[4..][0] == 1 && Data[4..][1..] == Data[5..];
  }

  lemma InsertsFrom3()
    ensures InsertAll(Inserted3(), Data[3..]) == Inserted17()
  {
    Insert4();
    InsertsFrom4();
    assert Data[3..][0] == 2 && Data[3..][1..] == Data[4..];
  }

  lemma InsertsFrom2()
    ensures InsertAll(Inserted2(), Data[2..]) == Inserted17()
  {
    Insert3();
    InsertsFrom3();
    assert Data[2..][0] == 5 && Data[2..][1..] == Data[3..];
  }

  lemma InsertsFrom1()
    ensures InsertAll(Inserted1(), Data[1..]) == Inserted17()
  {
    Insert2();
    InsertsFrom2();
    assert Data[1..][0] == 2 && Data[1..][1..] == Data[2..];
  }

  lemma InsertsFrom0()
    ensures InsertAll(Inserted0(), Data[0..]) == Inserted17()
  {
    Insert1();
    InsertsFrom1();
    assert Data[0..][0] == 13 && Data[0..][1..] == Data[1..];
  }

  /** The removeElement calls of test.c:9 from the `i`-th on leave the tree `Removed6()`. */
  lemma RemovesFrom5()
    ensures RemoveAll(Removed5(), RData[5..]) == Some(Removed6())
  {
    Remove6();
    assert RData[6..] == [];
    assert RData[5..][0] == 9 && RData[5..][1..] == RData[6..];
  }

  lemma RemovesFrom4()
    ensures RemoveAll(Removed4(), RData[4..]) == Some(Removed6())
  {
    Remove5();
    RemovesFrom5();
    assert RData[4..][0] == 13 && RData[4..][1..] == RData[5..];
  }

  lemma RemovesFrom3()
    ensures RemoveAll(Removed3(), RData[3..]) == Some(Removed6())
  {
    Remove4();
    RemovesFrom4();
    assert RData[3..][0] == 2 && RData[3..][1..] == RData[4..];
  }

  lemma RemovesFrom2()
    ensures RemoveAll(Removed2(), RData[2..]) == Some(Removed6())
  {
    Remove3();
    RemovesFrom3();
    assert RData[2..][0] == 6 && RData[2..][1..] == RData[3..];
  }

  lemma RemovesFrom1()
    ensures RemoveAll(Removed1(), RData[1..]) == Some(Removed6())
  {
    Remove2();
    RemovesFrom2();
    assert RData[1..][0] == 7 && RData[1..][1..] == RData[2..];
  }

  lemma RemovesFrom0()
    ensures RemoveAll(Inserted17(), RData[0..]) == Some(Removed6())
  {
    Remove1();
    RemovesFrom1();
    assert RData[0..][0] == 8 && RData[0..][1..] == RData[1..];
  }

  /** The keys `Inserted17()` holds, in order: the 12 distinct values of test.c:8. */
  lemma InsertedKeys()
    ensures InOrder(Inserted17()) == [1, 2, 3, 4, 5, 7, 9, 10, 12, 13, 17, 31]
  {
    var t := Inserted17();
    assert InOrder(t.left.right) == [3, 4];
    assert InOrder(t.left) == [1, 2, 3, 4];
    assert InOrder(t.right.right.left) == [10, 12];
    assert InOrder(t.right.right.right) == [17, 31];
    assert InOrder(t.right.right) == [10, 12, 13, 17, 31];
    assert InOrder(t.right) == [7, 9, 10, 12, 13, 17, 31];
    assert InOrder(t) == [1, 2, 3, 4, 5, 7, 9, 10, 12, 13, 17, 31];
  }

  /** The keys `Removed6()` holds, in order. */
  lemma RemovedKeys()
    ensures InOrder(Removed6()) == [1, 3, 4, 5, 10, 12, 17, 31]
  {
    var t := Removed6();
    assert InOrder(t.left) == [1, 3, 4];
    assert InOrder(t.right.left) == [10, 12];
    assert InOrder(t.right) == [10, 12, 17, 31];
    assert InOrder(t) == [1, 3, 4, 5, 10, 12, 17, 31];
  }

  /**
   * test.c: after the 17 insertElement calls the tree holds the 12
   * distinct values in order, so ptree->size is 12; after the 6
   * removeElement calls, of which 4 find their value, it holds 8.
   */
  lemma TestRun()
    ensures InsertAll(Inserted0(), Data) == Inserted17()
    ensures InOrder(Inserted17()) == [1, 2, 3, 4, 5, 7, 9, 10, 12, 13, 17, 31]
    ensures RemoveAll(Inserted17(), RData) == Some(Removed6())
    ensures InOrder(Removed6()) == [1, 3, 4, 5, 10, 12, 17, 31]
  {
    InsertsFrom0();
    assert Data[0..] == Data;
    RemovesFrom0();
    assert RData[0..] == RData;
    InsertedKeys();
    RemovedKeys();
  }
}
