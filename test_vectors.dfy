/**
  The expected outputs of RedBlackTreeTests.cpp, stated on the model:
  each insertion sequence yields the tree whose renderings the tests
  compare against, and the class reproduces them through its own
  methods.
 */
module TestVectors {
  import opened BinaryTrees
  import opened RedBlackModel
  import opened Rendering

  /** A BLACK node and a RED node, for writing expected trees. */
  function B(l: RBTree, k: int, r: RBTree): RBTree
  {
    Node(l, Entry(Black, k), r)
  }

  function Rd(l: RBTree, k: int, r: RBTree): RBTree
  {
    Node(l, Entry(Red, k), r)
  }

  /** A RED leaf node. */
  function RLeaf(k: int): RBTree
  {
    Rd(Leaf, k, Leaf)
  }

  // ---------------------------------------------------------------------
  // Single insertions

  lemma InsertIntoEmpty(k: int)
    ensures Insert(Leaf, k) == Ok(B(Leaf, k, Leaf))
  {
  }

  lemma InsertSmallerSecond()
    ensures Insert(B(Leaf, 30, Leaf), 15) == Ok(B(RLeaf(15), 30, Leaf))
  {
  }

  lemma InsertLargerSecond()
    ensures Insert(B(Leaf, 30, Leaf), 45) == Ok(B(Leaf, 30, RLeaf(45)))
  {
  }

  /** 30, 15, 10: parent and new node both left children, black uncle. */
  lemma InsertLeftLeft()
    ensures Insert(B(RLeaf(15), 30, Leaf), 10) == Ok(B(RLeaf(10), 15, RLeaf(30)))
  {
    var t := B(RLeaf(15), 30, Leaf);
    assert DescentPath(t, 10) == [L, L];
    assert Place(t, 10) == B(Rd(RLeaf(10), 15, Leaf), 30, Leaf);
  }

  /** 30, 15, 25: the new node is the right child of a left parent. */
  lemma InsertLeftRight25()
    ensures Insert(B(RLeaf(15), 30, Leaf), 25) == Ok(B(RLeaf(15), 25, RLeaf(30)))
  {
    var t := B(RLeaf(15), 30, Leaf);
    assert DescentPath(t, 25) == [L, R];
    var t1 := B(Rd(Leaf, 15, RLeaf(25)), 30, Leaf);
    assert Place(t, 25) == t1;
    assert RotateFromLeft(t1, R) == B(RLeaf(15), 25, RLeaf(30));
    assert FixUp(t1, [L, R]) == FixUp(B(RLeaf(15), 25, RLeaf(30)), [L]);
    assert [L][..0] == [];
  }

  /** 30, 15, 20: the same shape as 30, 15, 25. */
  lemma InsertLeftRight20()
    ensures Insert(B(RLeaf(15), 30, Leaf), 20) == Ok(B(RLeaf(15), 20, RLeaf(30)))
  {
    var t := B(RLeaf(15), 30, Leaf);
    assert DescentPath(t, 20) == [L, R];
    var t1 := B(Rd(Leaf, 15, RLeaf(20)), 30, Leaf);
    assert Place(t, 20) == t1;
    assert RotateFromLeft(t1, R) == B(RLeaf(15), 20, RLeaf(30));
    assert FixUp(t1, [L, R]) == FixUp(B(RLeaf(15), 20, RLeaf(30)), [L]);
    assert [L][..0] == [];
  }

  /** 30, 45, 60: parent and new node both right children. */
  lemma InsertRightRight()
    ensures Insert(B(Leaf, 30, RLeaf(45)), 60) == Ok(B(RLeaf(30), 45, RLeaf(60)))
  {
    var t := B(Leaf, 30, RLeaf(45));
    assert DescentPath(t, 60) == [R, R];
    assert Place(t, 60) == B(Leaf, 30, Rd(Leaf, 45, RLeaf(60)));
  }

  /** A third key on the other side: both children RED. */
  lemma InsertThirdOpposite(t: RBTree, k: int)
    requires t == B(RLeaf(15), 30, Leaf) && k == 45
    ensures Insert(t, k) == Ok(B(RLeaf(15), 30, RLeaf(45)))
  {
    assert DescentPath(t, k) == [R];
    assert Place(t, k) == B(RLeaf(15), 30, RLeaf(45));
  }

  /** 30, 15, 45, 10: a red uncle; the recoloured root is painted BLACK again. */
  lemma InsertRedUncle()
    ensures Insert(B(RLeaf(15), 30, RLeaf(45)), 10) == Ok(B(B(RLeaf(10), 15, Leaf), 30, B(Leaf, 45, Leaf)))
  {
    var t := B(RLeaf(15), 30, RLeaf(45));
    assert DescentPath(t, 10) == [L, L];
    var t1 := B(Rd(RLeaf(10), 15, Leaf), 30, RLeaf(45));
    assert Place(t, 10) == t1;
    assert FixUp(t1, [L, L]) == FixUp(Rd(B(RLeaf(10), 15, Leaf), 30, B(Leaf, 45, Leaf)), []);
  }

  lemma InsertUnderBlack25()
    ensures Insert(B(B(RLeaf(10), 15, Leaf), 30, B(Leaf, 45, Leaf)), 25)
         == Ok(B(B(RLeaf(10), 15, RLeaf(25)), 30, B(Leaf, 45, Leaf)))
  {
    var t := B(B(RLeaf(10), 15, Leaf), 30, B(Leaf, 45, Leaf));
    assert DescentPath(t, 25) == [L, R];
    var t1 := B(B(RLeaf(10), 15, RLeaf(25)), 30, B(Leaf, 45, Leaf));
    assert Place(t, 25) == t1;
    assert [L, R][..1] == [L];
    assert !IsRed(At(t1, [L]));
    assert FixUp(t1, [L, R]) == t1;
  }

  // ---------------------------------------------------------------------
  // TestToStrings: 12, 11, 15, 5, 13, 7

  lemma InsertToStrings11()
    ensures Insert(B(Leaf, 12, Leaf), 11) == Ok(B(RLeaf(11), 12, Leaf))
  {
  }

  lemma InsertToStrings15()
    ensures Insert(B(RLeaf(11), 12, Leaf), 15) == Ok(B(RLeaf(11), 12, RLeaf(15)))
  {
    var t := B(RLeaf(11), 12, Leaf);
    assert DescentPath(t, 15) == [R];
    assert Place(t, 15) == B(RLeaf(11), 12, RLeaf(15));
  }

  lemma InsertToStrings5()
    ensures Insert(B(RLeaf(11), 12, RLeaf(15)), 5) == Ok(B(B(RLeaf(5), 11, Leaf), 12, B(Leaf, 15, Leaf)))
  {
    var t := B(RLeaf(11), 12, RLeaf(15));
    assert DescentPath(t, 5) == [L, L];
    var t1 := B(Rd(RLeaf(5), 11, Leaf), 12, RLeaf(15));
    assert Place(t, 5) == t1;
    assert FixUp(t1, [L, L]) == FixUp(Rd(B(RLeaf(5), 11, Leaf), 12, B(Leaf, 15, Leaf)), []);
  }

  lemma InsertToStrings13()
    ensures Insert(B(B(RLeaf(5), 11, Leaf), 12, B(Leaf, 15, Leaf)), 13)
         == Ok(B(B(RLeaf(5), 11, Leaf), 12, B(RLeaf(13), 15, Leaf)))
  {
    var t := B(B(RLeaf(5), 11, Leaf), 12, B(Leaf, 15, Leaf));
    assert DescentPath(t, 13) == [R, L];
    var t1 := B(B(RLeaf(5), 11, Leaf), 12, B(RLeaf(13), 15, Leaf));
    assert Place(t, 13) == t1;
    assert [R, L][..1] == [R];
    assert !IsRed(At(t1, [R]));
    assert FixUp(t1, [R, L]) == t1;
  }

  /** 7 goes right of 5 under 11: an inner rotation at 5, then a rotation at 11. */
  lemma InsertToStrings7()
    ensures Insert(B(B(RLeaf(5), 11, Leaf), 12, B(RLeaf(13), 15, Leaf)), 7)
         == Ok(B(B(RLeaf(5), 7, RLeaf(11)), 12, B(RLeaf(13), 15, Leaf)))
  {
    var t := B(B(RLeaf(5), 11, Leaf), 12, B(RLeaf(13), 15, Leaf));
    assert DescentPath(t, 7) == [L, L, R];
    var t1 := B(B(Rd(Leaf, 5, RLeaf(7)), 11, Leaf), 12, B(RLeaf(13), 15, Leaf));
    assert Place(t, 7) == t1;
    var t2 := B(B(RLeaf(5), 7, RLeaf(11)), 12, B(RLeaf(13), 15, Leaf));
    assert [L, L, R][..2] == [L, L] && [L, L, R][..1] == [L];
    assert RotateFromLeft(At(t1, [L]), R) == B(RLeaf(5), 7, RLeaf(11));
    assert ReplaceAt(t1, [L], B(RLeaf(5), 7, RLeaf(11))) == t2;
    assert IsRed(At(t1, [L, L])) && !IsRed(At(t1, [L]).right) && [L] + [L] == [L, L];
    assert FixUp(t1, [L, L, R]) == FixUp(t2, [L, L]);
    assert [L, L][..1] == [L];
    assert FixUp(t2, [L, L]) == t2;
  }

  // ---------------------------------------------------------------------
  // TestCopyConstructor: 11, 23, 9, 52, 31, 4, then 200 into the original

  lemma InsertCopy23()
    ensures Insert(B(Leaf, 11, Leaf), 23) == Ok(B(Leaf, 11, RLeaf(23)))
  {
  }

  lemma InsertCopy9()
    ensures Insert(B(Leaf, 11, RLeaf(23)), 9) == Ok(B(RLeaf(9), 11, RLeaf(23)))
  {
    var t := B(Leaf, 11, RLeaf(23));
    assert DescentPath(t, 9) == [L];
    assert Place(t, 9) == B(RLeaf(9), 11, RLeaf(23));
  }

  lemma InsertCopy52()
    ensures Insert(B(RLeaf(9), 11, RLeaf(23)), 52) == Ok(B(B(Leaf, 9, Leaf), 11, B(Leaf, 23, RLeaf(52))))
  {
    var t := B(RLeaf(9), 11, RLeaf(23));
    assert DescentPath(t, 52) == [R, R];
    var t1 := B(RLeaf(9), 11, Rd(Leaf, 23, RLeaf(52)));
    assert Place(t, 52) == t1;
    assert FixUp(t1, [R, R]) == FixUp(Rd(B(Leaf, 9, Leaf), 11, B(Leaf, 23, RLeaf(52))), []);
  }

  /** 31 goes left of 52 under 23: an inner rotation at 52, then a rotation at 23. */
  lemma InsertCopy31()
    ensures Insert(B(B(Leaf, 9, Leaf), 11, B(Leaf, 23, RLeaf(52))), 31)
         == Ok(B(B(Leaf, 9, Leaf), 11, B(RLeaf(23), 31, RLeaf(52))))
  {
    var t := B(B(Leaf, 9, Leaf), 11, B(Leaf, 23, RLeaf(52)));
    assert DescentPath(t, 31) == [R, R, L];
    var t1 := B(B(Leaf, 9, Leaf), 11, B(Leaf, 23, Rd(RLeaf(31), 52, Leaf)));
    assert Place(t, 31) == t1;
    var t2 := B(B(Leaf, 9, Leaf), 11, B(RLeaf(23), 31, RLeaf(52)));
    assert [R, R, L][..2] == [R, R] && [R, R, L][..1] == [R];
    assert RotateFromRight(At(t1, [R]), L) == B(RLeaf(23), 31, RLeaf(52));
    assert ReplaceAt(t1, [R], B(RLeaf(23), 31, RLeaf(52))) == t2;
    assert IsRed(At(t1, [R, R])) && !IsRed(At(t1, [R]).left) && [R] + [R] == [R, R];
    assert FixUp(t1, [R, R, L]) == FixUp(t2, [R, R]);
    assert [R, R][..1] == [R];
    assert FixUp(t2, [R, R]) == t2;
  }

  lemma InsertCopy4()
    ensures Insert(B(B(Leaf, 9, Leaf), 11, B(RLeaf(23), 31, RLeaf(52))), 4)
         == Ok(B(B(RLeaf(4), 9, Leaf), 11, B(RLeaf(23), 31, RLeaf(52))))
  {
    var t := B(B(Leaf, 9, Leaf), 11, B(RLeaf(23), 31, RLeaf(52)));
    assert DescentPath(t, 4) == [L, L];
    var t1 := B(B(RLeaf(4), 9, Leaf), 11, B(RLeaf(23), 31, RLeaf(52)));
    assert Place(t, 4) == t1;
    assert [L, L][..1] == [L];
    assert !IsRed(At(t1, [L]));
    assert FixUp(t1, [L, L]) == t1;
  }

  /** 200 under 52: a red uncle, recoloured below the BLACK root. */
  lemma InsertCopy200()
    ensures Insert(B(B(RLeaf(4), 9, Leaf), 11, B(RLeaf(23), 31, RLeaf(52))), 200)
         == Ok(B(B(RLeaf(4), 9, Leaf), 11, Rd(B(Leaf, 23, Leaf), 31, B(Leaf, 52, RLeaf(200)))))
  {
    var t := B(B(RLeaf(4), 9, Leaf), 11, B(RLeaf(23), 31, RLeaf(52)));
    assert DescentPath(t, 200) == [R, R, R];
    var t1 := B(B(RLeaf(4), 9, Leaf), 11, B(RLeaf(23), 31, Rd(Leaf, 52, RLeaf(200))));
    assert Place(t, 200) == t1;
    var t2 := B(B(RLeaf(4), 9, Leaf), 11, Rd(B(Leaf, 23, Leaf), 31, B(Leaf, 52, RLeaf(200))));
    assert [R, R, R][..2] == [R, R] && [R, R, R][..1] == [R];
    assert Recolor(At(t1, [R])) == Rd(B(Leaf, 23, Leaf), 31, B(Leaf, 52, RLeaf(200)));
    assert ReplaceAt(t1, [R], Rd(B(Leaf, 23, Leaf), 31, B(Leaf, 52, RLeaf(200)))) == t2;
    assert FixUp(t1, [R, R, R]) == FixUp(t2, [R]);
    assert [R][..0] == [];
    assert FixUp(t2, [R]) == t2;
  }

  // ---------------------------------------------------------------------
  // Whole insertion sequences and their renderings

  lemma {:induction false} InsertAllStep(t: RBTree, k: int, ks: seq<int>, t': RBTree)
    requires !IsRed(t) && Insert(t, k) == Ok(t')
    ensures !IsRed(t') && InsertAll(t, [k] + ks) == InsertAll(t', ks)
  {
    assert ([k] + ks)[0] == k && ([k] + ks)[1..] == ks;
  }

  /** The same step inside a longer run: insertion `i` of `ks` takes `t` to `t'`. */
  lemma InsertAllAt(t: RBTree, ks: seq<int>, i: nat, t': RBTree)
    requires i < |ks| && !IsRed(t) && Insert(t, ks[i]) == Ok(t')
    ensures !IsRed(t') && InsertAll(t, ks[i..]) == InsertAll(t', ks[i + 1..])
  {
    assert ks[i..][0] == ks[i] && ks[i..][1..] == ks[i + 1..];
  }

  /** TestInsertFirstNode and TestInsertSecondNode: 30, then 15 or 45. */
  lemma FirstAndSecondNode()
    ensures InsertAll(Leaf, [30]) == Ok(B(Leaf, 30, Leaf))
    ensures InsertAll(Leaf, [30, 15]) == Ok(B(RLeaf(15), 30, Leaf))
    ensures InsertAll(Leaf, [30, 45]) == Ok(B(Leaf, 30, RLeaf(45)))
  {
    InsertIntoEmpty(30);
    InsertSmallerSecond();
    InsertLargerSecond();
    assert [30, 15] == [30] + [15] && [30, 45] == [30] + [45] && [30] == [30] + [];
    InsertAllStep(Leaf, 30, [], B(Leaf, 30, Leaf));
    InsertAllStep(Leaf, 30, [15], B(Leaf, 30, Leaf));
    InsertAllStep(B(Leaf, 30, Leaf), 15, [], B(RLeaf(15), 30, Leaf));
    InsertAllStep(Leaf, 30, [45], B(Leaf, 30, Leaf));
    InsertAllStep(B(Leaf, 30, Leaf), 45, [], B(Leaf, 30, RLeaf(45)));
  }

  /** The renderings of the one- and two-node trees. */
  lemma FirstAndSecondNodeStrings()
    ensures PrefixString(B(Leaf, 30, Leaf)) == InfixString(B(Leaf, 30, Leaf)) == " B30 "
    ensures PrefixString(B(RLeaf(15), 30, Leaf)) == " B30  R15 "
    ensures PrefixString(B(Leaf, 30, RLeaf(45))) == " B30  R45 "
  {
  }

  /** TestInsertThirdNode, left-left: 30, 15, 10. */
  lemma ThirdNodeLeftLeft()
    ensures InsertAll(Leaf, [30, 15, 10]) == Ok(B(RLeaf(10), 15, RLeaf(30)))
  {
    InsertIntoEmpty(30);
    InsertSmallerSecond();
    InsertLeftLeft();
    assert [30, 15, 10] == [30] + [15, 10] && [15, 10] == [15] + [10] && [10] == [10] + [];
    InsertAllStep(Leaf, 30, [15, 10], B(Leaf, 30, Leaf));
    InsertAllStep(B(Leaf, 30, Leaf), 15, [10], B(RLeaf(15), 30, Leaf));
    InsertAllStep(B(RLeaf(15), 30, Leaf), 10, [], B(RLeaf(10), 15, RLeaf(30)));
  }

  /** TestInsertThirdNode, right-left: 30, 15, 25. */
  lemma ThirdNodeRightLeft()
    ensures InsertAll(Leaf, [30, 15, 25]) == Ok(B(RLeaf(15), 25, RLeaf(30)))
  {
    InsertIntoEmpty(30);
    InsertSmallerSecond();
    InsertLeftRight25();
    assert [30, 15, 25] == [30] + [15, 25] && [15, 25] == [15] + [25] && [25] == [25] + [];
    InsertAllStep(Leaf, 30, [15, 25], B(Leaf, 30, Leaf));
    InsertAllStep(B(Leaf, 30, Leaf), 15, [25], B(RLeaf(15), 30, Leaf));
    InsertAllStep(B(RLeaf(15), 30, Leaf), 25, [], B(RLeaf(15), 25, RLeaf(30)));
  }

  /** TestInsertThirdNode, left-right: 30, 15, 20. */
  lemma ThirdNodeLeftRight()
    ensures InsertAll(Leaf, [30, 15, 20]) == Ok(B(RLeaf(15), 20, RLeaf(30)))
  {
    InsertIntoEmpty(30);
    InsertSmallerSecond();
    InsertLeftRight20();
    assert [30, 15, 20] == [30] + [15, 20] && [15, 20] == [15] + [20] && [20] == [20] + [];
    InsertAllStep(Leaf, 30, [15, 20], B(Leaf, 30, Leaf));
    InsertAllStep(B(Leaf, 30, Leaf), 15, [20], B(RLeaf(15), 30, Leaf));
    InsertAllStep(B(RLeaf(15), 30, Leaf), 20, [], B(RLeaf(15), 20, RLeaf(30)));
  }

  /** TestInsertThirdNode, right-right: 30, 45, 60. */
  lemma ThirdNodeRightRight()
    ensures InsertAll(Leaf, [30, 45, 60]) == Ok(B(RLeaf(30), 45, RLeaf(60)))
  {
    InsertIntoEmpty(30);
    InsertLargerSecond();
    InsertRightRight();
    assert [30, 45, 60] == [30] + [45, 60] && [45, 60] == [45] + [60] && [60] == [60] + [];
    InsertAllStep(Leaf, 30, [45, 60], B(Leaf, 30, Leaf));
    InsertAllStep(B(Leaf, 30, Leaf), 45, [60], B(Leaf, 30, RLeaf(45)));
    InsertAllStep(B(Leaf, 30, RLeaf(45)), 60, [], B(RLeaf(30), 45, RLeaf(60)));
  }

  /** TestInsertFifthNode: 30, 15, 45, 10, 25. */
  lemma FifthNode(ks: seq<int>)
    requires |ks| == 5 && ks[0] == 30 && ks[1] == 15 && ks[2] == 45 && ks[3] == 10 && ks[4] == 25
    ensures InsertAll(Leaf, ks) == Ok(B(B(RLeaf(10), 15, RLeaf(25)), 30, B(Leaf, 45, Leaf)))
  {
    var t1 := B(Leaf, 30, Leaf);
    var t2 := B(RLeaf(15), 30, Leaf);
    var t3 := B(RLeaf(15), 30, RLeaf(45));
    var t4 := B(B(RLeaf(10), 15, Leaf), 30, B(Leaf, 45, Leaf));
    InsertIntoEmpty(30);
    InsertSmallerSecond();
    InsertThirdOpposite(t2, 45);
    InsertRedUncle();
    InsertUnderBlack25();
    assert ks[0..] == ks && ks[5..] == [];
    InsertAllAt(Leaf, ks, 0, t1);
    InsertAllAt(t1, ks, 1, t2);
    InsertAllAt(t2, ks, 2, t3);
    InsertAllAt(t3, ks, 3, t4);
    InsertAllAt(t4, ks, 4, B(B(RLeaf(10), 15, RLeaf(25)), 30, B(Leaf, 45, Leaf)));
  }

  /** The tree TestToStrings builds. */
  function ToStringsTree(): RBTree
  {
    B(B(RLeaf(5), 7, RLeaf(11)), 12, B(RLeaf(13), 15, Leaf))
  }

  /** TestToStrings: 12, 11, 15, 5, 13, 7. */
  lemma ToStrings(ks: seq<int>)
    requires |ks| == 6 && ks[0] == 12 && ks[1] == 11 && ks[2] == 15 && ks[3] == 5 && ks[4] == 13 && ks[5] == 7
    ensures InsertAll(Leaf, ks) == Ok(ToStringsTree())
  {
    var t1 := B(Leaf, 12, Leaf);
    var t2 := B(RLeaf(11), 12, Leaf);
    var t3 := B(RLeaf(11), 12, RLeaf(15));
    var t4 := B(B(RLeaf(5), 11, Leaf), 12, B(Leaf, 15, Leaf));
    var t5 := B(B(RLeaf(5), 11, Leaf), 12, B(RLeaf(13), 15, Leaf));
    InsertIntoEmpty(12);
    InsertToStrings11();
    InsertToStrings15();
    InsertToStrings5();
    InsertToStrings13();
    InsertToStrings7();
    assert ks[0..] == ks && ks[6..] == [];
    InsertAllAt(Leaf, ks, 0, t1);
    InsertAllAt(t1, ks, 1, t2);
    InsertAllAt(t2, ks, 2, t3);
    InsertAllAt(t3, ks, 3, t4);
    InsertAllAt(t4, ks, 4, t5);
    InsertAllAt(t5, ks, 5, ToStringsTree());
  }

  /** The tree TestCopyConstructor builds before the copy. */
  function CopiedTree(): RBTree
  {
    B(B(RLeaf(4), 9, Leaf), 11, B(RLeaf(23), 31, RLeaf(52)))
  }

  /** TestCopyConstructor: 11, 23, 9, 52, 31, 4. */
  lemma Copied(ks: seq<int>)
    requires |ks| == 6 && ks[0] == 11 && ks[1] == 23 && ks[2] == 9 && ks[3] == 52 && ks[4] == 31 && ks[5] == 4
    ensures InsertAll(Leaf, ks) == Ok(CopiedTree())
  {
    var t1 := B(Leaf, 11, Leaf);
    var t2 := B(Leaf, 11, RLeaf(23));
    var t3 := B(RLeaf(9), 11, RLeaf(23));
    var t4 := B(B(Leaf, 9, Leaf), 11, B(Leaf, 23, RLeaf(52)));
    var t5 := B(B(Leaf, 9, Leaf), 11, B(RLeaf(23), 31, RLeaf(52)));
    InsertIntoEmpty(11);
    InsertCopy23();
    InsertCopy9();
    InsertCopy52();
    InsertCopy31();
    InsertCopy4();
    assert ks[0..] == ks && ks[6..] == [];
    InsertAllAt(Leaf, ks, 0, t1);
    InsertAllAt(t1, ks, 1, t2);
    InsertAllAt(t2, ks, 2, t3);
    InsertAllAt(t3, ks, 3, t4);
    InsertAllAt(t4, ks, 4, t5);
    InsertAllAt(t5, ks, 5, CopiedTree());
  }

  // ---------------------------------------------------------------------
  // The renderings the tests compare against

  /** The prefix rendering of ThirdNodeLeftLeft. */
  lemma ThirdNodeLeftLeftPrefixString()
    ensures PrefixString(B(RLeaf(10), 15, RLeaf(30))) == " B15  R10  R30 "
  {
    assert PrefixString(RLeaf(10)) == " R10 ";
    assert PrefixString(RLeaf(30)) == " R30 ";
    assert Token(Entry(Black, 15)) == " B15 ";
    assert " B15 " + " R10 " == " B15  R10 ";
    assert " B15  R10 " + " R30 " == " B15  R10  R30 ";
  }

  /** The prefix rendering of ThirdNodeRightLeft. */
  lemma ThirdNodeRightLeftPrefixString()
    ensures PrefixString(B(RLeaf(15), 25, RLeaf(30))) == " B25  R15  R30 "
  {
    assert PrefixString(RLeaf(15)) == " R15 ";
    assert PrefixString(RLeaf(30)) == " R30 ";
    assert Token(Entry(Black, 25)) == " B25 ";
    assert " B25 " + " R15 " == " B25  R15 ";
    assert " B25  R15 " + " R30 " == " B25  R15  R30 ";
  }

  /** The prefix rendering of ThirdNodeLeftRight. */
  lemma ThirdNodeLeftRightPrefixString()
    ensures PrefixString(B(RLeaf(15), 20, RLeaf(30))) == " B20  R15  R30 "
  {
    assert PrefixString(RLeaf(15)) == " R15 ";
    assert PrefixString(RLeaf(30)) == " R30 ";
    assert Token(Entry(Black, 20)) == " B20 ";
    assert " B20 " + " R15 " == " B20  R15 ";
    assert " B20  R15 " + " R30 " == " B20  R15  R30 ";
  }

  /** The prefix rendering of ThirdNodeRightRight. */
  lemma ThirdNodeRightRightPrefixString()
    ensures PrefixString(B(RLeaf(30), 45, RLeaf(60))) == " B45  R30  R60 "
  {
    assert PrefixString(RLeaf(30)) == " R30 ";
    assert PrefixString(RLeaf(60)) == " R60 ";
    assert Token(Entry(Black, 45)) == " B45 ";
    assert " B45 " + " R30 " == " B45  R30 ";
    assert " B45  R30 " + " R60 " == " B45  R30  R60 ";
  }

  lemma FifthNodePrefixStringL()
    ensures PrefixString(B(RLeaf(10), 15, RLeaf(25))) == " B15  R10  R25 "
  {
    assert PrefixString(RLeaf(10)) == " R10 ";
    assert PrefixString(RLeaf(25)) == " R25 ";
    assert Token(Entry(Black, 15)) == " B15 ";
    assert " B15 " + " R10 " == " B15  R10 ";
    assert " B15  R10 " + " R25 " == " B15  R10  R25 ";
  }

  /** The prefix rendering of FifthNode. */
  lemma FifthNodePrefixString()
    ensures PrefixString(B(B(RLeaf(10), 15, RLeaf(25)), 30, B(Leaf, 45, Leaf))) == " B30  B15  R10  R25  B45 "
  {
    FifthNodePrefixStringL();
    assert PrefixString(B(Leaf, 45, Leaf)) == " B45 ";
    assert Token(Entry(Black, 30)) == " B30 ";
    assert " B30 " + " B15  R10  R25 " == " B30  B15  R10  R25 ";
    assert " B30  B15  R10  R25 " + " B45 " == " B30  B15  R10  R25  B45 ";
  }

  lemma ToStringsPrefixStringL()
    ensures PrefixString(B(RLeaf(5), 7, RLeaf(11))) == " B7  R5  R11 "
  {
    assert PrefixString(RLeaf(5)) == " R5 ";
    assert PrefixString(RLeaf(11)) == " R11 ";
    assert Token(Entry(Black, 7)) == " B7 ";
    assert " B7 " + " R5 " == " B7  R5 ";
    assert " B7  R5 " + " R11 " == " B7  R5  R11 ";
  }

  lemma ToStringsPrefixStringR()
    ensures PrefixString(B(RLeaf(13), 15, Leaf)) == " B15  R13 "
  {
    assert PrefixString(RLeaf(13)) == " R13 ";
    assert Token(Entry(Black, 15)) == " B15 ";
    assert " B15 " + " R13 " == " B15  R13 ";
  }

  /** The prefix rendering of ToStrings. */
  lemma ToStringsPrefixString()
    ensures PrefixString(B(B(RLeaf(5), 7, RLeaf(11)), 12, B(RLeaf(13), 15, Leaf))) == " B12  B7  R5  R11  B15  R13 "
  {
    ToStringsPrefixStringL();
    ToStringsPrefixStringR();
    assert Token(Entry(Black, 12)) == " B12 ";
    assert " B12 " + " B7  R5  R11 " == " B12  B7  R5  R11 ";
    assert " B12  B7  R5  R11 " + " B15  R13 " == " B12  B7  R5  R11  B15  R13 ";
  }

  lemma ToStringsInfixStringL()
    ensures InfixString(B(RLeaf(5), 7, RLeaf(11))) == " R5  B7  R11 "
  {
    assert InfixString(RLeaf(5)) == " R5 ";
    assert InfixString(RLeaf(11)) == " R11 ";
    assert Token(Entry(Black, 7)) == " B7 ";
    assert " R5 " + " B7 " == " R5  B7 ";
    assert " R5  B7 " + " R11 " == " R5  B7  R11 ";
  }

  lemma ToStringsInfixStringR()
    ensures InfixString(B(RLeaf(13), 15, Leaf)) == " R13  B15 "
  {
    assert InfixString(RLeaf(13)) == " R13 ";
    assert Token(Entry(Black, 15)) == " B15 ";
    assert " R13 " + " B15 " == " R13  B15 ";
  }

  /** The infix rendering of ToStrings. */
  lemma ToStringsInfixString()
    ensures InfixString(B(B(RLeaf(5), 7, RLeaf(11)), 12, B(RLeaf(13), 15, Leaf))) == " R5  B7  R11  B12  R13  B15 "
  {
    ToStringsInfixStringL();
    ToStringsInfixStringR();
    assert Token(Entry(Black, 12)) == " B12 ";
    assert " R5  B7  R11 " + " B12 " == " R5  B7  R11  B12 ";
    assert " R5  B7  R11  B12 " + " R13  B15 " == " R5  B7  R11  B12  R13  B15 ";
  }

  lemma ToStringsPostfixStringL()
    ensures PostfixString(B(RLeaf(5), 7, RLeaf(11))) == " R5  R11  B7 "
  {
    assert PostfixString(RLeaf(5)) == " R5 ";
    assert PostfixString(RLeaf(11)) == " R11 ";
    assert Token(Entry(Black, 7)) == " B7 ";
    assert " R5 " + " R11 " == " R5  R11 ";
    assert " R5  R11 " + " B7 " == " R5  R11  B7 ";
  }

  lemma ToStringsPostfixStringR()
    ensures PostfixString(B(RLeaf(13), 15, Leaf)) == " R13  B15 "
  {
    assert PostfixString(RLeaf(13)) == " R13 ";
    assert Token(Entry(Black, 15)) == " B15 ";
    assert " R13 " + " B15 " == " R13  B15 ";
  }

  /** The postfix rendering of ToStrings. */
  lemma ToStringsPostfixString()
    ensures PostfixString(B(B(RLeaf(5), 7, RLeaf(11)), 12, B(RLeaf(13), 15, Leaf))) == " R5  R11  B7  R13  B15  B12 "
  {
    ToStringsPostfixStringL();
    ToStringsPostfixStringR();
    assert Token(Entry(Black, 12)) == " B12 ";
    assert " R5  R11  B7 " + " R13  B15 " == " R5  R11  B7  R13  B15 ";
    assert " R5  R11  B7  R13  B15 " + " B12 " == " R5  R11  B7  R13  B15  B12 ";
  }

  lemma CopiedPrefixStringL()
    ensures PrefixString(B(RLeaf(4), 9, Leaf)) == " B9  R4 "
  {
    assert PrefixString(RLeaf(4)) == " R4 ";
    assert Token(Entry(Black, 9)) == " B9 ";
    assert " B9 " + " R4 " == " B9  R4 ";
  }

  lemma CopiedPrefixStringR()
    ensures PrefixString(B(RLeaf(23), 31, RLeaf(52))) == " B31  R23  R52 "
  {
    assert PrefixString(RLeaf(23)) == " R23 ";
    assert PrefixString(RLeaf(52)) == " R52 ";
    assert Token(Entry(Black, 31)) == " B31 ";
    assert " B31 " + " R23 " == " B31  R23 ";
    assert " B31  R23 " + " R52 " == " B31  R23  R52 ";
  }

  /** The prefix rendering of Copied. */
  lemma CopiedPrefixString()
    ensures PrefixString(B(B(RLeaf(4), 9, Leaf), 11, B(RLeaf(23), 31, RLeaf(52)))) == " B11  B9  R4  B31  R23  R52 "
  {
    CopiedPrefixStringL();
    CopiedPrefixStringR();
    assert Token(Entry(Black, 11)) == " B11 ";
    assert " B11 " + " B9  R4 " == " B11  B9  R4 ";
    assert " B11  B9  R4 " + " B31  R23  R52 " == " B11  B9  R4  B31  R23  R52 ";
  }

  lemma CopiedThen200PrefixStringRR()
    ensures PrefixString(B(Leaf, 52, RLeaf(200))) == " B52  R200 "
  {
    assert PrefixString(RLeaf(200)) == " R200 ";
    assert Token(Entry(Black, 52)) == " B52 ";
    assert " B52 " + " R200 " == " B52  R200 ";
  }

  lemma CopiedThen200PrefixStringR()
    ensures PrefixString(Rd(B(Leaf, 23, Leaf), 31, B(Leaf, 52, RLeaf(200)))) == " R31  B23  B52  R200 "
  {
    assert PrefixString(B(Leaf, 23, Leaf)) == " B23 ";
    CopiedThen200PrefixStringRR();
    assert Token(Entry(Red, 31)) == " R31 ";
    assert " R31 " + " B23 " == " R31  B23 ";
    assert " R31  B23 " + " B52  R200 " == " R31  B23  B52  R200 ";
  }

  /** The prefix rendering of CopiedThen200. */
  lemma CopiedThen200PrefixString()
    ensures PrefixString(B(B(RLeaf(4), 9, Leaf), 11, Rd(B(Leaf, 23, Leaf), 31, B(Leaf, 52, RLeaf(200))))) == " B11  B9  R4  R31  B23  B52  R200 "
  {
    CopiedPrefixStringL();
    CopiedThen200PrefixStringR();
    assert Token(Entry(Black, 11)) == " B11 ";
    assert " B11 " + " B9  R4 " == " B11  B9  R4 ";
    assert " B11  B9  R4 " + " R31  B23  B52  R200 " == " B11  B9  R4  R31  B23  B52  R200 ";
  }

  lemma SingleNodeString()
    ensures PrefixString(B(Leaf, 15, Leaf)) == " B15 "
  {
  }

  /** TestContains inserts nine distinct keys. */
  lemma ContainsKeysFresh()
    ensures AllFresh([40, 22, 15, 31, 55, 12, 17, 29, 34], {})
  {
  }

  lemma ToStringsKeys()
    ensures Keys(ToStringsTree()) == {5, 7, 11, 12, 13, 15}
  {
  }

  lemma CopyStringsDiffer()
    ensures " B11  B9  R4  B31  R23  R52 " != " B11  B9  R4  R31  B23  B52  R200 "
  {
    assert " B11  B9  R4  B31  R23  R52 "[14] != " B11  B9  R4  R31  B23  B52  R200 "[14];
  }
}
