/**
  The value-level model of the red-black tree of RedBlackTree.cpp:
  colours and keys on a binary tree, the insertion pipeline (plain
  binary-search-tree placement, then the CLRS fix-up loop, then the
  final root recolouring) and the queries, as functions.  The class in
  red_black_tree.dfy is proved to compute exactly these functions on
  its node arena.
 */
module RedBlackModel {
  import opened BinaryTrees

  /** COLOR_RED, COLOR_BLACK and COLOR_DOUBLE_BLACK; the last is reserved and never assigned. */
  datatype Color = Red | Black | DoubleBlack

  /** What one node holds besides its links. */
  datatype Entry = Entry(color: Color, key: int)

  type RBTree = Tree<Entry>

  /** The two `invalid_argument` throws: "Duplicate value" and "Tree is empty". */
  datatype Error = DuplicateValue | EmptyTree

  datatype Result<T> = Ok(value: T) | Err(error: Error)

  // ---------------------------------------------------------------------
  // Colours

  /** A red node (an absent child counts as black). */
  predicate IsRed(t: RBTree)
  {
    t.Node? && t.val.color == Red
  }

  function Paint(t: RBTree, c: Color): RBTree
  {
    match t
    case Leaf => Leaf
    case Node(l, e, r) => Node(l, e.(color := c), r)
  }

  /** Only COLOR_RED and COLOR_BLACK occur. */
  ghost predicate TwoColors(t: RBTree)
  {
    match t
    case Leaf => true
    case Node(l, e, r) => (e.color == Red || e.color == Black) && TwoColors(l) && TwoColors(r)
  }

  ghost predicate RootBlack(t: RBTree)
  {
    t.Leaf? || t.val.color == Black
  }

  /** No red node has a red child. */
  ghost predicate NoRedRed(t: RBTree)
  {
    match t
    case Leaf => true
    case Node(l, _, r) => NoRedRed(l) && NoRedRed(r) && (IsRed(t) ==> !IsRed(l) && !IsRed(r))
  }

  /** Black nodes on the leftmost root-to-null path. */
  ghost function BlackHeight(t: RBTree): nat
  {
    match t
    case Leaf => 0
    case Node(l, e, _) => BlackHeight(l) + (if e.color == Black then 1 else 0)
  }

  /** Every root-to-null path passes through the same number of black nodes. */
  ghost predicate Balanced(t: RBTree)
  {
    match t
    case Leaf => true
    case Node(l, _, r) => Balanced(l) && Balanced(r) && BlackHeight(l) == BlackHeight(r)
  }

  // ---------------------------------------------------------------------
  // Keys and search order

  function Keys(t: RBTree): set<int>
  {
    match t
    case Leaf => {}
    case Node(l, e, r) => Keys(l) + {e.key} + Keys(r)
  }

  /** Binary-search-tree order: smaller keys on the left, larger on the right (so no duplicates). */
  ghost predicate Ordered(t: RBTree)
  {
    match t
    case Leaf => true
    case Node(l, e, r) =>
      Ordered(l) && Ordered(r) &&
      (forall k :: k in Keys(l) ==> k < e.key) &&
      (forall k :: k in Keys(r) ==> e.key < k)
  }

  /** All the invariants a red-black tree keeps between public operations. */
  ghost predicate IsRedBlack(t: RBTree)
  {
    Ordered(t) && RootBlack(t) && NoRedRed(t) && Balanced(t) && TwoColors(t)
  }

  // ---------------------------------------------------------------------
  // Queries

  /** The key reached by going left as long as possible (GetMin's walk). */
  function Leftmost(t: RBTree): int
    requires t.Node?
  {
    if t.left.Leaf? then t.val.key else Leftmost(t.left)
  }

  /** The key reached by going right as long as possible (GetMax's walk). */
  function Rightmost(t: RBTree): int
    requires t.Node?
  {
    if t.right.Leaf? then t.val.key else Rightmost(t.right)
  }

  // ---------------------------------------------------------------------
  // Insertion

  /** BasicInsert's descent: left when the key is smaller, right otherwise, down to an absent child. */
  function DescentPath(t: RBTree, k: int): seq<Dir>
  {
    match t
    case Leaf => []
    case Node(l, e, r) => if k < e.key then [L] + DescentPath(l, k) else [R] + DescentPath(r, k)
  }

  /** BasicInsert: a BLACK root into an empty tree, otherwise a RED leaf where the descent stops. */
  function Place(t: RBTree, k: int): RBTree
  {
    if t.Leaf? then Node(Leaf, Entry(Black, k), Leaf)
    else ReplaceAt(t, DescentPath(t, k), Node(Leaf, Entry(Red, k), Leaf))
  }

  /** Fix-up, red uncle: parent and uncle become BLACK, the grandparent `g` RED. */
  function Recolor(g: RBTree): RBTree
    requires g.Node?
  {
    Node(Paint(g.left, Black), g.val.(color := Red), Paint(g.right, Black))
  }

  /**
    Fix-up, parent is the left child of `g`, uncle black or absent: when the
    node `dz` is the parent's right child, LeftRotate at the parent first;
    then the (new) parent becomes BLACK, `g` RED, and `g` is RightRotated.
   */
  function RotateFromLeft(g: RBTree, dz: Dir): RBTree
    requires g.Node? && g.left.Node? && Child(g.left, dz).Node?
  {
    var g1 := if dz == R then Node(RotateLeft(g.left), g.val, g.right) else g;
    RotateRight(Node(Paint(g1.left, Black), g1.val.(color := Red), g1.right))
  }

  /** The mirror image of RotateFromLeft: parent is the right child of `g`. */
  function RotateFromRight(g: RBTree, dz: Dir): RBTree
    requires g.Node? && g.right.Node? && Child(g.right, dz).Node?
  {
    var g1 := if dz == L then Node(g.left, g.val, RotateRight(g.right)) else g;
    RotateLeft(Node(g1.left, g1.val.(color := Red), Paint(g1.right, Black)))
  }

  /**
    The InsertFixUp loop on the whole tree `t`, with the current node at
    path `p`.  It runs while the node is not the root and its parent is
    RED; each iteration rewrites only the grandparent's subtree and moves
    the node to the grandparent (red uncle) or to the grandparent's
    position (rotation cases).  The root must not be red unless the node
    is the root, so that a red parent always has a parent of its own.
   */
  function FixUp(t: RBTree, p: seq<Dir>): (r: RBTree)
    requires At(t, p).Node?
    requires p == [] || !IsRed(t)
    ensures r.Node?
    decreases |p|
  {
    if p == [] || !IsRed(At(t, p[..|p| - 1])) then
      if t.Leaf? then LeafAt<Entry>(p); t else t
    else
      FixUpSplit(t, p);
      var g, dp, dz := p[..|p| - 2], p[|p| - 2], p[|p| - 1];
      var gt := At(t, g);
      if dp == L then
        if IsRed(gt.right) then
          FixUpRecolor(t, g);
          FixUp(ReplaceAt(t, g, Recolor(gt)), g)
        else
          FixUpRotate(t, g, RotateFromLeft(gt, dz), L);
          FixUp(ReplaceAt(t, g, RotateFromLeft(gt, dz)), g + [L])
      else
        if IsRed(gt.left) then
          FixUpRecolor(t, g);
          FixUp(ReplaceAt(t, g, Recolor(gt)), g)
        else
          FixUpRotate(t, g, RotateFromRight(gt, dz), R);
          FixUp(ReplaceAt(t, g, RotateFromRight(gt, dz)), g + [R])
  }

  /** Under a RED parent the node has a grandparent, which is a node. */
  lemma FixUpSplit(t: RBTree, p: seq<Dir>)
    requires At(t, p).Node? && p != [] && !IsRed(t) && IsRed(At(t, p[..|p| - 1]))
    ensures |p| >= 2
    ensures var g, dp, dz := p[..|p| - 2], p[|p| - 2], p[|p| - 1];
      At(t, g).Node? && Child(At(t, g), dp).Node? && Child(Child(At(t, g), dp), dz).Node?
  {
    var g, dp, dz := p[..|p| - 2], p[|p| - 2], p[|p| - 1];
    assert p == g + [dp, dz];
    AtTwoSteps(t, g, dp, dz);
  }

  lemma FixUpRecolor(t: RBTree, g: seq<Dir>)
    requires At(t, g).Node? && !IsRed(t)
    ensures At(ReplaceAt(t, g, Recolor(At(t, g))), g).Node?
    ensures g == [] || !IsRed(ReplaceAt(t, g, Recolor(At(t, g))))
  {
    NodeIsPos(t, g, L);
    AtReplace(t, g, Recolor(At(t, g)));
  }

  lemma FixUpRotate(t: RBTree, g: seq<Dir>, x: RBTree, d: Dir)
    requires At(t, g).Node? && !IsRed(t)
    requires x.Node? && Child(x, d).Node? && x.val.color == Black
    ensures At(ReplaceAt(t, g, x), g + [d]).Node?
    ensures !IsRed(ReplaceAt(t, g, x))
  {
    NodeIsPos(t, g, L);
    AtReplace(t, g, x);
    AtAppend(ReplaceAt(t, g, x), g, [d]);
    assert [d][1..] == [];
  }

  /** The fix-up loop stops when the node is the root or its parent is not RED. */
  lemma FixUpStops(t: RBTree, p: seq<Dir>)
    requires At(t, p).Node? && (p == [] || !IsRed(t))
    requires p == [] || !IsRed(At(t, p[..|p| - 1]))
    ensures FixUp(t, p) == t
  {
  }

  /**
    One iteration of the fix-up loop, the node at `g + [dp, dz]` under a
    RED parent: the grandparent exists, and the loop goes on with the
    red-uncle recolouring at `g` (continuing at `g`) or the rotation case
    (continuing at `g + [dp]`).
   */
  lemma FixUpStep(t: RBTree, g: seq<Dir>, dp: Dir, dz: Dir)
    requires At(t, g + [dp, dz]).Node? && !IsRed(t) && IsRed(At(t, g + [dp]))
    ensures At(t, g).Node? && Child(At(t, g), dp).Node? && Child(Child(At(t, g), dp), dz).Node?
    ensures At(t, g + [dp]) == Child(At(t, g), dp)
    ensures IsRed(Child(At(t, g), Opp(dp))) ==>
      At(ReplaceAt(t, g, Recolor(At(t, g))), g).Node? && (g == [] || !IsRed(ReplaceAt(t, g, Recolor(At(t, g))))) &&
      FixUp(t, g + [dp, dz]) == FixUp(ReplaceAt(t, g, Recolor(At(t, g))), g)
    ensures !IsRed(Child(At(t, g), Opp(dp))) ==>
      var x := if dp == L then RotateFromLeft(At(t, g), dz) else RotateFromRight(At(t, g), dz);
      At(ReplaceAt(t, g, x), g + [dp]).Node? && !IsRed(ReplaceAt(t, g, x)) &&
      FixUp(t, g + [dp, dz]) == FixUp(ReplaceAt(t, g, x), g + [dp])
  {
    var p := g + [dp, dz];
    assert p[..|p| - 1] == g + [dp] && p[..|p| - 2] == g && p[|p| - 2] == dp && p[|p| - 1] == dz;
    AtTwoSteps(t, g, dp, dz);
    var gt := At(t, g);
    if IsRed(Child(gt, Opp(dp))) {
      FixUpRecolor(t, g);
    } else {
      var x := if dp == L then RotateFromLeft(gt, dz) else RotateFromRight(gt, dz);
      FixUpRotate(t, g, x, dp);
    }
  }

  /**
    Insert: rejected when the key is present; otherwise BasicInsert, the
    fix-up loop from the new node, and the root recoloured BLACK.
   */
  function Insert(t: RBTree, k: int): (r: Result<RBTree>)
    requires !IsRed(t)
    ensures r.Ok? ==> r.value.Node? && r.value.val.color == Black
  {
    if k in Keys(t) then Err(DuplicateValue)
    else
      PlaceAt(t, k);
      Ok(Paint(FixUp(Place(t, k), DescentPath(t, k)), Black))
  }

  /** Inserting `ks` one after another into `t`, stopping at the first error. */
  function InsertAll(t: RBTree, ks: seq<int>): Result<RBTree>
    requires !IsRed(t)
    decreases |ks|
  {
    if ks == [] then Ok(t)
    else match Insert(t, ks[0])
      case Err(e) => Err(e)
      case Ok(t') => InsertAll(t', ks[1..])
  }

  // ---------------------------------------------------------------------
  // Lemmas: descent and placement

  /** The descent ends at an absent child. */
  lemma {:induction false} DescentPathEnds(t: RBTree, k: int)
    ensures IsPos(t, DescentPath(t, k)) && At(t, DescentPath(t, k)) == Leaf
  {
    match t
    case Leaf =>
    case Node(l, e, r) =>
      var c := if k < e.key then l else r;
      var p := DescentPath(c, k);
      DescentPathEnds(c, k);
      assert ([if k < e.key then L else R] + p)[1..] == p;
  }

  /** The placed node is at the end of the descent, and the root is only replaced in an empty tree. */
  lemma PlaceAt(t: RBTree, k: int)
    requires !IsRed(t)
    ensures At(Place(t, k), DescentPath(t, k)).Node?
    ensures At(Place(t, k), DescentPath(t, k)).val.key == k
    ensures DescentPath(t, k) == [] || !IsRed(Place(t, k))
  {
    if t.Node? {
      DescentPathEnds(t, k);
      AtReplace(t, DescentPath(t, k), Node(Leaf, Entry(Red, k), Leaf));
    }
  }

  /** Placing a key below a node places it in the subtree the descent enters. */
  lemma PlaceStep(t: RBTree, k: int, c: Color)
    requires t.Node?
    ensures ReplaceAt(t, DescentPath(t, k), Node(Leaf, Entry(c, k), Leaf)) ==
      if k < t.val.key then Node(ReplaceAt(t.left, DescentPath(t.left, k), Node(Leaf, Entry(c, k), Leaf)), t.val, t.right)
      else Node(t.left, t.val, ReplaceAt(t.right, DescentPath(t.right, k), Node(Leaf, Entry(c, k), Leaf)))
  {
    var d := if k < t.val.key then L else R;
    var p := DescentPath(Child(t, d), k);
    assert DescentPath(t, k) == [d] + p;
    assert ([d] + p)[0] == d && ([d] + p)[1..] == p;
  }

  /** Placement adds exactly the new key and keeps the search order. */
  lemma {:induction false} PlaceBelowKeys(t: RBTree, k: int, c: Color)
    requires Ordered(t) && k !in Keys(t)
    ensures Keys(ReplaceAt(t, DescentPath(t, k), Node(Leaf, Entry(c, k), Leaf))) == Keys(t) + {k}
    ensures Ordered(ReplaceAt(t, DescentPath(t, k), Node(Leaf, Entry(c, k), Leaf)))
  {
    match t
    case Leaf =>
    case Node(l, e, r) =>
      PlaceStep(t, k, c);
      if k < e.key {
        PlaceBelowKeys(l, k, c);
      } else {
        PlaceBelowKeys(r, k, c);
      }
  }

  /** BasicInsert adds exactly `k`, keeps the search order and never produces a red root. */
  lemma PlaceKeys(t: RBTree, k: int)
    requires Ordered(t) && k !in Keys(t)
    ensures Keys(Place(t, k)) == Keys(t) + {k}
    ensures Ordered(Place(t, k))
  {
    if t.Node? {
      PlaceBelowKeys(t, k, Red);
    }
  }

  // ---------------------------------------------------------------------
  // Lemmas: the fix-up loop keeps the keys and their order

  lemma PaintKeys(t: RBTree, c: Color)
    ensures Keys(Paint(t, c)) == Keys(t)
    ensures Ordered(Paint(t, c)) == Ordered(t)
  {
  }

  /** A rotation keeps the key set and the search order. */
  lemma RotateLeftOrdered(t: RBTree)
    requires t.Node? && t.right.Node? && Ordered(t)
    ensures Keys(RotateLeft(t)) == Keys(t)
    ensures Ordered(RotateLeft(t))
  {
    var a, x, b, y, c := t.left, t.val, t.right.left, t.right.val, t.right.right;
    assert y.key in Keys(t.right);
  }

  lemma RotateRightOrdered(t: RBTree)
    requires t.Node? && t.left.Node? && Ordered(t)
    ensures Keys(RotateRight(t)) == Keys(t)
    ensures Ordered(RotateRight(t))
  {
    var a, y, b, x, c := t.left.left, t.left.val, t.left.right, t.val, t.right;
    assert y.key in Keys(t.left);
  }

  /** Each fix-up step keeps the key set and the search order of the grandparent's subtree. */
  lemma StepOrdered(g: RBTree, dp: Dir, dz: Dir)
    requires g.Node? && Child(g, dp).Node? && Child(Child(g, dp), dz).Node? && Ordered(g)
    ensures Keys(Recolor(g)) == Keys(g) && Ordered(Recolor(g))
    ensures dp == L ==> Keys(RotateFromLeft(g, dz)) == Keys(g) && Ordered(RotateFromLeft(g, dz))
    ensures dp == R ==> Keys(RotateFromRight(g, dz)) == Keys(g) && Ordered(RotateFromRight(g, dz))
  {
    PaintKeys(g.left, Black);
    PaintKeys(g.right, Black);
    if dp == L {
      var g1 := if dz == R then Node(RotateLeft(g.left), g.val, g.right) else g;
      if dz == R {
        RotateLeftOrdered(g.left);
      }
      PaintKeys(g1.left, Black);
      RotateRightOrdered(Node(Paint(g1.left, Black), g1.val.(color := Red), g1.right));
    } else {
      var g1 := if dz == L then Node(g.left, g.val, RotateRight(g.right)) else g;
      if dz == L {
        RotateRightOrdered(g.right);
      }
      PaintKeys(g1.right, Black);
      RotateLeftOrdered(Node(g1.left, g1.val.(color := Red), Paint(g1.right, Black)));
    }
  }

  /** Replacing a subtree by one with the same keys in search order keeps the whole tree's. */
  lemma {:induction false} OrderedReplace(t: RBTree, p: seq<Dir>, x: RBTree)
    requires IsPos(t, p) && Ordered(t) && Ordered(x) && Keys(x) == Keys(At(t, p))
    ensures Keys(ReplaceAt(t, p, x)) == Keys(t)
    ensures Ordered(ReplaceAt(t, p, x))
    decreases p
  {
    if p != [] {
      OrderedReplace(Child(t, p[0]), p[1..], x);
    }
  }

  lemma {:induction false} OrderedAt(t: RBTree, p: seq<Dir>)
    requires Ordered(t)
    ensures Ordered(At(t, p))
    decreases p
  {
    if p != [] && t.Node? {
      OrderedAt(Child(t, p[0]), p[1..]);
    }
  }

  /** The fix-up loop changes colours and shape only: same keys, same search order. */
  lemma {:induction false} FixUpOrdered(t: RBTree, p: seq<Dir>)
    requires At(t, p).Node? && (p == [] || !IsRed(t))
    requires Ordered(t)
    ensures Keys(FixUp(t, p)) == Keys(t)
    ensures Ordered(FixUp(t, p))
    decreases |p|
  {
    if p == [] || !IsRed(At(t, p[..|p| - 1])) {
    } else {
      var g, dp, dz := p[..|p| - 2], p[|p| - 2], p[|p| - 1];
      assert p == g + [dp, dz];
      AtTwoSteps(t, g, dp, dz);
      NodeIsPos(t, g, dp);
      var gt := At(t, g);
      OrderedAt(t, g);
      StepOrdered(gt, dp, dz);
      var x := if dp == L then (if IsRed(gt.right) then Recolor(gt) else RotateFromLeft(gt, dz))
               else (if IsRed(gt.left) then Recolor(gt) else RotateFromRight(gt, dz));
      OrderedReplace(t, g, x);
      if dp == L {
        if IsRed(gt.right) {
          FixUpRecolor(t, g);
          FixUpOrdered(ReplaceAt(t, g, x), g);
        } else {
          FixUpRotate(t, g, x, L);
          FixUpOrdered(ReplaceAt(t, g, x), g + [L]);
        }
      } else {
        if IsRed(gt.left) {
          FixUpRecolor(t, g);
          FixUpOrdered(ReplaceAt(t, g, x), g);
        } else {
          FixUpRotate(t, g, x, R);
          FixUpOrdered(ReplaceAt(t, g, x), g + [R]);
        }
      }
    }
  }

  /** An ordered tree holds as many keys as nodes. */
  lemma {:induction false} OrderedCard(t: RBTree)
    requires Ordered(t)
    ensures |Keys(t)| == Size(t)
  {
    match t
    case Leaf =>
    case Node(l, e, r) =>
      OrderedCard(l);
      OrderedCard(r);
      forall k | k in Keys(l)
        ensures k !in Keys(r)
      {
      }
      assert e.key !in Keys(l) + Keys(r);
      assert Keys(t) == (Keys(l) + Keys(r)) + {e.key};
  }

  /**
    Insert rejects exactly the keys already present; otherwise the result
    holds the old keys plus the new one, in search order, one node more,
    under a BLACK root.
   */
  lemma InsertKeys(t: RBTree, k: int)
    requires Ordered(t) && !IsRed(t)
    ensures Insert(t, k) == Err(DuplicateValue) <==> k in Keys(t)
    ensures Insert(t, k).Ok? ==> Keys(Insert(t, k).value) == Keys(t) + {k}
    ensures Insert(t, k).Ok? ==> Ordered(Insert(t, k).value)
    ensures Insert(t, k).Ok? ==> Size(Insert(t, k).value) == Size(t) + 1
  {
    if k !in Keys(t) {
      PlaceKeys(t, k);
      PlaceAt(t, k);
      var f := FixUp(Place(t, k), DescentPath(t, k));
      FixUpOrdered(Place(t, k), DescentPath(t, k));
      PaintKeys(f, Black);
      OrderedCard(t);
      OrderedCard(Paint(f, Black));
    }
  }

  /** The keys of `ks` are distinct and none is in `present`. */
  ghost predicate AllFresh(ks: seq<int>, present: set<int>)
  {
    (forall i, j :: 0 <= i < j < |ks| ==> ks[i] != ks[j]) &&
    (forall i :: 0 <= i < |ks| ==> ks[i] !in present)
  }

  lemma AllFreshCons(ks: seq<int>, present: set<int>)
    requires ks != []
    ensures AllFresh(ks, present) <==> ks[0] !in present && AllFresh(ks[1..], present + {ks[0]})
  {
    var rest := ks[1..];
    if AllFresh(ks, present) {
      forall i | 0 <= i < |rest|
        ensures rest[i] !in present + {ks[0]}
      {
        assert rest[i] == ks[i + 1];
      }
      forall i, j | 0 <= i < j < |rest|
        ensures rest[i] != rest[j]
      {
        assert rest[i] == ks[i + 1] && rest[j] == ks[j + 1];
      }
    }
    if ks[0] !in present && AllFresh(rest, present + {ks[0]}) {
      forall i, j | 0 <= i < j < |ks|
        ensures ks[i] != ks[j]
      {
        assert ks[j] == rest[j - 1];
        if i > 0 {
          assert ks[i] == rest[i - 1];
        }
      }
      forall i | 0 <= i < |ks|
        ensures ks[i] !in present
      {
        if i > 0 {
          assert ks[i] == rest[i - 1];
        }
      }
    }
  }

  /**
    A run of insertions succeeds exactly when its keys are distinct and
    none is already present; the tree then holds the old keys and the
    new ones, one node per key, in search order.
   */
  lemma {:induction false} InsertAllKeys(t: RBTree, ks: seq<int>)
    requires Ordered(t) && !IsRed(t)
    ensures InsertAll(t, ks).Ok? <==> AllFresh(ks, Keys(t))
    ensures InsertAll(t, ks).Ok? ==>
      var t' := InsertAll(t, ks).value;
      Keys(t') == Keys(t) + (set k | k in ks) && Ordered(t') && Size(t') == Size(t) + |ks|
    decreases |ks|
  {
    if ks != [] {
      var k, rest := ks[0], ks[1..];
      InsertKeys(t, k);
      AllFreshCons(ks, Keys(t));
      if k !in Keys(t) {
        var t1 := Insert(t, k).value;
        InsertAllKeys(t1, rest);
        assert ks == [k] + rest;
        assert (set x | x in ks) == {k} + (set x | x in rest);
      }
    }
  }

  // ---------------------------------------------------------------------
  // Lemmas: the fix-up cases as the loop body performs them, statement by statement

  /**
    The rotation case with the parent on the left, in the order the loop
    body runs it: the optional LeftRotate at the parent (`t1`), the parent
    position painted BLACK (`t2`), the grandparent painted RED (`t3`),
    then RightRotate at the grandparent gives the case's rewrite.
   */
  lemma RotateFromLeftSteps(t0: RBTree, g: seq<Dir>, dz: Dir, t1: RBTree, t2: RBTree, t3: RBTree)
    requires At(t0, g).Node? && At(t0, g).left.Node? && Child(At(t0, g).left, dz).Node?
    requires dz == R ==> t1 == ReplaceAt(t0, g + [L], RotateLeft(At(t0, g).left))
    requires dz == L ==> t1 == t0
    requires t2 == ReplaceAt(t1, g + [L], Paint(At(t1, g + [L]), Black))
    requires t3 == ReplaceAt(t2, g, Paint(At(t2, g), Red))
    ensures At(t3, g).Node? && At(t3, g).left.Node?
    ensures ReplaceAt(t3, g, RotateRight(At(t3, g))) == ReplaceAt(t0, g, RotateFromLeft(At(t0, g), dz))
  {
    var gt := At(t0, g);
    NodeIsPos(t0, g, L);
    var g1 := if dz == R then Node(RotateLeft(gt.left), gt.val, gt.right) else gt;
    ReplaceAtSelf(t0, g);
    if dz == R {
      ReplaceBelow(t0, g, gt, [L], RotateLeft(gt.left));
      assert ReplaceAt(gt, [L], RotateLeft(gt.left)) == g1 by { assert ([L])[1..] == []; }
    }
    assert t1 == ReplaceAt(t0, g, g1);
    var g2 := Node(Paint(g1.left, Black), g1.val, g1.right);
    ReplaceBelow(t0, g, g1, [L], Paint(g1.left, Black));
    assert At(g1, [L]) == g1.left && ReplaceAt(g1, [L], Paint(g1.left, Black)) == g2 by { assert ([L])[1..] == []; }
    assert t2 == ReplaceAt(t0, g, g2);
    var g3 := Node(Paint(g1.left, Black), g1.val.(color := Red), g1.right);
    AtReplace(t0, g, g2);
    ReplaceTwice(t0, g, g2, g3);
    assert t3 == ReplaceAt(t0, g, g3);
    AtReplace(t0, g, g3);
    ReplaceTwice(t0, g, g3, RotateRight(g3));
  }

  /** The mirror image of RotateFromLeftSteps. */
  lemma RotateFromRightSteps(t0: RBTree, g: seq<Dir>, dz: Dir, t1: RBTree, t2: RBTree, t3: RBTree)
    requires At(t0, g).Node? && At(t0, g).right.Node? && Child(At(t0, g).right, dz).Node?
    requires dz == L ==> t1 == ReplaceAt(t0, g + [R], RotateRight(At(t0, g).right))
    requires dz == R ==> t1 == t0
    requires t2 == ReplaceAt(t1, g + [R], Paint(At(t1, g + [R]), Black))
    requires t3 == ReplaceAt(t2, g, Paint(At(t2, g), Red))
    ensures At(t3, g).Node? && At(t3, g).right.Node?
    ensures ReplaceAt(t3, g, RotateLeft(At(t3, g))) == ReplaceAt(t0, g, RotateFromRight(At(t0, g), dz))
  {
    var gt := At(t0, g);
    NodeIsPos(t0, g, R);
    var g1 := if dz == L then Node(gt.left, gt.val, RotateRight(gt.right)) else gt;
    ReplaceAtSelf(t0, g);
    if dz == L {
      ReplaceBelow(t0, g, gt, [R], RotateRight(gt.right));
      assert ReplaceAt(gt, [R], RotateRight(gt.right)) == g1 by { assert ([R])[1..] == []; }
    }
    assert t1 == ReplaceAt(t0, g, g1);
    var g2 := Node(g1.left, g1.val, Paint(g1.right, Black));
    ReplaceBelow(t0, g, g1, [R], Paint(g1.right, Black));
    assert At(g1, [R]) == g1.right && ReplaceAt(g1, [R], Paint(g1.right, Black)) == g2 by { assert ([R])[1..] == []; }
    assert t2 == ReplaceAt(t0, g, g2);
    var g3 := Node(g1.left, g1.val.(color := Red), Paint(g1.right, Black));
    AtReplace(t0, g, g2);
    ReplaceTwice(t0, g, g2, g3);
    assert t3 == ReplaceAt(t0, g, g3);
    AtReplace(t0, g, g3);
    ReplaceTwice(t0, g, g3, RotateLeft(g3));
  }

  // ---------------------------------------------------------------------
  // Lemmas: queries

  /** GetMin's walk ends at the smallest key. */
  lemma {:induction false} LeftmostIsMin(t: RBTree)
    requires t.Node? && Ordered(t)
    ensures Leftmost(t) in Keys(t)
    ensures forall k :: k in Keys(t) ==> Leftmost(t) <= k
  {
    if t.left.Node? {
      LeftmostIsMin(t.left);
    }
  }

  /** GetMax's walk ends at the largest key. */
  lemma {:induction false} RightmostIsMax(t: RBTree)
    requires t.Node? && Ordered(t)
    ensures Rightmost(t) in Keys(t)
    ensures forall k :: k in Keys(t) ==> k <= Rightmost(t)
  {
    if t.right.Node? {
      RightmostIsMax(t.right);
    }
  }
}
