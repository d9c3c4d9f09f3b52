/**
  The test functions of RedBlackTreeTests.cpp and
  RedBlackTreeTestsFirstStep.cpp replayed on the RedBlackTree class:
  each method builds its trees through the class's own constructors and
  Insert, and its postcondition is what the test asserts about them.
 */
module TestScenarios {
  import opened BinaryTrees
  import opened RedBlackModel
  import opened Rendering
  import opened RedBlackTrees
  import opened TestVectors

  /** TestSimpleConstructor: nothing to render, nothing counted. */
  method TestSimpleConstructor() returns (infix: string, size: nat)
    ensures infix == "" && size == 0
  {
    var rbt := new RedBlackTree();
    infix := rbt.ToInfixString();
    size := rbt.Size();
  }

  /** TestConstructor: the one-argument constructor's BLACK root. */
  method TestConstructor() returns (prefix: string, size: nat)
    ensures prefix == " B15 " && size == 1
  {
    var rbt := new RedBlackTree.WithRoot(15);
    SingleNodeString();
    prefix := rbt.ToPrefixString();
    size := rbt.Size();
  }

  /**
    The tests' runs of Insert calls: the keys of `ks` inserted one after
    another, stopping at the first that is already present (where the
    test would end with the exception).
   */
  method InsertEach(rbt: RedBlackTree, ks: seq<int>) returns (r: Result<()>)
    requires rbt.Valid()
    modifies rbt
    ensures rbt.Valid()
    ensures r.Ok? <==> InsertAll(old(rbt.Abs()), ks).Ok?
    ensures r.Ok? ==> InsertAll(old(rbt.Abs()), ks) == Ok(rbt.Abs())
  {
    var i := 0;
    while i < |ks|
      invariant 0 <= i <= |ks| && rbt.Valid()
      invariant InsertAll(old(rbt.Abs()), ks) == InsertAll(rbt.Abs(), ks[i..])
    {
      assert ks[i..] == [ks[i]] + ks[i + 1..];
      r := rbt.Insert(ks[i]);
      if r.Err? {
        return;
      }
      i := i + 1;
    }
    assert ks[i..] == [];
    r := Ok(());
  }

  /** TestInsertFirstNode (both files) and TestInsertSecondNode. */
  method TestInsertFirstAndSecondNode() returns (first: string, firstInfix: string, left: string, right: string)
    ensures first == firstInfix == " B30 "
    ensures left == " B30  R15 " && right == " B30  R45 "
  {
    FirstAndSecondNode();
    FirstAndSecondNodeStrings();
    var rbt := new RedBlackTree();
    var r := InsertEach(rbt, [30]);
    first := rbt.ToPrefixString();
    firstInfix := rbt.ToInfixString();
    rbt := new RedBlackTree();
    r := InsertEach(rbt, [30, 15]);
    left := rbt.ToPrefixString();
    rbt := new RedBlackTree();
    r := InsertEach(rbt, [30, 45]);
    right := rbt.ToPrefixString();
  }

  /** TestInsertThirdNode: the four shapes of a third insertion. */
  method TestInsertThirdNode() returns (leftLeft: string, rightLeft: string, leftRight: string, rightRight: string)
    ensures leftLeft == " B15  R10  R30 " && rightLeft == " B25  R15  R30 "
    ensures leftRight == " B20  R15  R30 " && rightRight == " B45  R30  R60 "
  {
    ThirdNodeLeftLeft();
    ThirdNodeRightLeft();
    ThirdNodeLeftRight();
    ThirdNodeRightRight();
    ThirdNodeLeftLeftPrefixString();
    ThirdNodeRightLeftPrefixString();
    ThirdNodeLeftRightPrefixString();
    ThirdNodeRightRightPrefixString();
    var rbt := new RedBlackTree();
    var r := InsertEach(rbt, [30, 15, 10]);
    leftLeft := rbt.ToPrefixString();
    rbt := new RedBlackTree();
    r := InsertEach(rbt, [30, 15, 25]);
    rightLeft := rbt.ToPrefixString();
    rbt := new RedBlackTree();
    r := InsertEach(rbt, [30, 15, 20]);
    leftRight := rbt.ToPrefixString();
    rbt := new RedBlackTree();
    r := InsertEach(rbt, [30, 45, 60]);
    rightRight := rbt.ToPrefixString();
  }

  /** TestInsertFifthNode. */
  method TestInsertFifthNode() returns (prefix: string)
    ensures prefix == " B30  B15  R10  R25  B45 "
  {
    FifthNode([30, 15, 45, 10, 25]);
    FifthNodePrefixString();
    var rbt := new RedBlackTree();
    var r := InsertEach(rbt, [30, 15, 45, 10, 25]);
    prefix := rbt.ToPrefixString();
  }

  /** TestToStrings: the three renderings of one six-node tree. */
  method TestToStrings() returns (prefix: string, infix: string, postfix: string)
    ensures prefix == " B12  B7  R5  R11  B15  R13 "
    ensures infix == " R5  B7  R11  B12  R13  B15 "
    ensures postfix == " R5  R11  B7  R13  B15  B12 "
  {
    ToStrings([12, 11, 15, 5, 13, 7]);
    ToStringsPrefixString();
    ToStringsInfixString();
    ToStringsPostfixString();
    var rbt := new RedBlackTree();
    var r := InsertEach(rbt, [12, 11, 15, 5, 13, 7]);
    prefix := rbt.ToPrefixString();
    infix := rbt.ToInfixString();
    postfix := rbt.ToPostfixString();
  }

  /** Insert into `rbt` leaves every other tree as it was. */
  method InsertBeside(rbt: RedBlackTree, other: RedBlackTree, k: int) returns (r: Result<()>)
    requires rbt.Valid() && other.Valid() && rbt != other
    modifies rbt
    ensures rbt.Valid() && other.Valid() && other.Abs() == old(other.Abs())
    ensures r.Err? <==> k in Keys(old(rbt.Abs()))
    ensures r.Ok? ==> Insert(old(rbt.Abs()), k) == Ok(rbt.Abs())
  {
    r := rbt.Insert(k);
  }

  /** The tree TestCopyConstructor copies, built by Insert. */
  method CopiedTreeObject() returns (rbt: RedBlackTree)
    ensures fresh(rbt) && rbt.Valid() && rbt.Abs() == CopiedTree()
  {
    Copied([11, 23, 9, 52, 31, 4]);
    rbt := new RedBlackTree();
    var r := InsertEach(rbt, [11, 23, 9, 52, 31, 4]);
  }

  /**
    TestCopyConstructor: the copy renders like the original, and a later
    insertion into the original leaves the copy as it was.
   */
  method TestCopyConstructor() returns (original: string, copied: string, originalAfter: string, copiedAfter: string)
    ensures original == copied == " B11  B9  R4  B31  R23  R52 "
    ensures originalAfter == " B11  B9  R4  R31  B23  B52  R200 "
    ensures copiedAfter == copied != originalAfter
  {
    InsertCopy200();
    CopiedPrefixString();
    CopiedThen200PrefixString();
    var rbt1 := CopiedTreeObject();
    original := rbt1.ToPrefixString();
    var rbt2 := new RedBlackTree.Copy(rbt1);
    copied := rbt2.ToPrefixString();
    var r := InsertBeside(rbt1, rbt2, 200);
    originalAfter := rbt1.ToPrefixString();
    copiedAfter := rbt2.ToPrefixString();
    CopyStringsDiffer();
  }

  /** TestContains on an empty tree, with GetMin and GetMax failing there. */
  method TestContainsEmpty() returns (found: bool, min: Result<int>, max: Result<int>)
    ensures !found && min == Err(EmptyTree) && max == Err(EmptyTree)
  {
    var rbt := new RedBlackTree();
    found := rbt.Contains(6);
    min := rbt.GetMin();
    max := rbt.GetMax();
  }

  /** A new tree with the keys of `ks` inserted in order; all of them are held when they are distinct. */
  method TreeOf(ks: seq<int>) returns (rbt: RedBlackTree)
    ensures fresh(rbt) && rbt.Valid()
    ensures AllFresh(ks, {}) ==> Keys(rbt.Abs()) == set k | k in ks
  {
    rbt := new RedBlackTree();
    var r := InsertEach(rbt, ks);
    InsertAllKeys(Leaf, ks);
  }

  /** The least and greatest members of {5, 7, 11, 12, 13, 15}. */
  lemma Ends(keys: set<int>, min: int, max: int)
    requires keys == {5, 7, 11, 12, 13, 15} && min in keys && max in keys
    requires forall k :: k in keys ==> min <= k <= max
    ensures min == 5 && max == 15
  {
    assert 5 in keys && 15 in keys;
  }

  /** TestContains after nine insertions: the last key inserted is found. */
  method TestContains() returns (found: bool)
    ensures found
  {
    ContainsKeysFresh();
    var rbt := TreeOf([40, 22, 15, 31, 55, 12, 17, 29, 34]);
    assert 34 in Keys(rbt.Abs());
    found := rbt.Contains(34);
  }

  /** GetMin and GetMax on the tree of TestToStrings: the keys at its two ends. */
  method TestGetMinimumMaximum() returns (min: Result<int>, max: Result<int>)
    ensures min == Ok(5) && max == Ok(15)
  {
    ToStrings([12, 11, 15, 5, 13, 7]);
    ToStringsKeys();
    var rbt := new RedBlackTree();
    var r := InsertEach(rbt, [12, 11, 15, 5, 13, 7]);
    min := rbt.GetMin();
    max := rbt.GetMax();
    Ends(Keys(rbt.Abs()), min.value, max.value);
  }
}
