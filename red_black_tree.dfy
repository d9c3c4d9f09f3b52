/**
  The RedBlackTree class of RedBlackTree.h / RedBlackTree.cpp.  Its nodes
  live in the arena `nodes`; `root` and every link is an index into it
  (Null for nullptr).  The ghost `shape` records which node sits where,
  and `Abs()` is the value-level tree of rb_model.dfy that the
  nodes hold.  Every public operation is proved to keep `Valid()` and to
  compute the corresponding function of that model.
 */
module RedBlackTrees {
  import opened BinaryTrees
  import opened RedBlackModel
  import opened Rendering
  import opened Arena
  import opened RedBlackInvariants

  /** IsNullNode is never set on any node. */
  ghost predicate NoNullNodes(nodes: seq<RBTNode>)
  {
    forall i :: 0 <= i < |nodes| ==> !nodes[i].isNullNode
  }

  /** The links from the shape's root form the shape, and every arena node occurs in it exactly once. */
  ghost predicate WellLinked(nodes: seq<RBTNode>, s: Shape)
  {
    Rep(nodes, RootPtr(s), Null, s) && Distinct(s) && Covers(Elems(s), |nodes|) && NoNullNodes(nodes)
  }

  /** Relinking nodes without changing their entries keeps a well-linked arena well linked. */
  lemma Relinked(a: seq<RBTNode>, b: seq<RBTNode>, s: Shape, s': Shape, r: Ptr)
    requires WellLinked(a, s) && SameEntries(a, b)
    requires Rep(b, r, Null, s') && Distinct(s') && Elems(s') == Elems(s)
    ensures WellLinked(b, s') && r == RootPtr(s')
  {
  }

  /**
    The arena edits of LeftRotate, one at a time (b1 .. b4, then b), on a
    well-linked arena: the result is well linked to the shape rotated at
    `q`, `r` is its root, and it holds the abstract tree rotated at `q`.
   */
  lemma LeftRotation(a: seq<RBTNode>, b1: seq<RBTNode>, b2: seq<RBTNode>, b3: seq<RBTNode>, b4: seq<RBTNode>, b: seq<RBTNode>,
                 s: Shape, q: seq<Dir>, r: Ptr, x: Ptr, y: Ptr, beta: Ptr, up: Ptr)
    requires WellLinked(a, s) && At(s, q).Node? && At(s, q).right.Node?
    requires x == At(s, q).val && y == At(s, q).right.val && beta == RootPtr(At(s, q).right.left)
    requires 0 <= x < |a| && 0 <= y < |a| && (beta != Null ==> 0 <= beta < |a|) && up == a[x].parent && -1 <= up < |a|
    requires b1 == SetRight(a, x, beta)
    requires b2 == if beta != Null then SetParent(b1, beta, x) else b1
    requires b3 == SetParent(b2, y, up)
    requires b4 == if up == Null then b3 else if a[up].left == x then SetLeft(b3, up, y) else SetRight(b3, up, y)
    requires b == SetParent(SetLeft(b4, y, x), x, y)
    requires up == Null ==> r == y
    requires up != Null ==> r == RootPtr(s)
    ensures WellLinked(b, ReplaceAt(s, q, RotateLeft(At(s, q)))) && r == RootPtr(ReplaceAt(s, q, RotateLeft(At(s, q))))
    ensures At(AbsOf(a, s), q).Node? && At(AbsOf(a, s), q).right.Node?
    ensures AbsOf(b, ReplaceAt(s, q, RotateLeft(At(s, q)))) == ReplaceAt(AbsOf(a, s), q, RotateLeft(At(AbsOf(a, s), q)))
  {
    var s' := ReplaceAt(s, q, RotateLeft(At(s, q)));
    RotateSetup(a, s, q, R);
    LeftRotateEdits(a, b1, b2, b3, b4, b, x, y, beta, up);
    RotateLeftAt(a, b, s, s', q, r, x, y, beta, up);
    Relinked(a, b, s, s', r);
  }

  /**
    The arena edits of RightRotate, one at a time (b1 .. b4, then b), on a
    well-linked arena: the result is well linked to the shape rotated at
    `q`, `r` is its root, and it holds the abstract tree rotated at `q`.
   */
  lemma RightRotation(a: seq<RBTNode>, b1: seq<RBTNode>, b2: seq<RBTNode>, b3: seq<RBTNode>, b4: seq<RBTNode>, b: seq<RBTNode>,
                 s: Shape, q: seq<Dir>, r: Ptr, x: Ptr, y: Ptr, beta: Ptr, up: Ptr)
    requires WellLinked(a, s) && At(s, q).Node? && At(s, q).left.Node?
    requires x == At(s, q).val && y == At(s, q).left.val && beta == RootPtr(At(s, q).left.right)
    requires 0 <= x < |a| && 0 <= y < |a| && (beta != Null ==> 0 <= beta < |a|) && up == a[x].parent && -1 <= up < |a|
    requires b1 == SetLeft(a, x, beta)
    requires b2 == if beta != Null then SetParent(b1, beta, x) else b1
    requires b3 == SetParent(b2, y, up)
    requires b4 == if up == Null then b3 else if a[up].right == x then SetRight(b3, up, y) else SetLeft(b3, up, y)
    requires b == SetParent(SetRight(b4, y, x), x, y)
    requires up == Null ==> r == y
    requires up != Null ==> r == RootPtr(s)
    ensures WellLinked(b, ReplaceAt(s, q, RotateRight(At(s, q)))) && r == RootPtr(ReplaceAt(s, q, RotateRight(At(s, q))))
    ensures At(AbsOf(a, s), q).Node? && At(AbsOf(a, s), q).left.Node?
    ensures AbsOf(b, ReplaceAt(s, q, RotateRight(At(s, q)))) == ReplaceAt(AbsOf(a, s), q, RotateRight(At(AbsOf(a, s), q)))
  {
    var s' := ReplaceAt(s, q, RotateRight(At(s, q)));
    RotateSetup(a, s, q, L);
    RightRotateEdits(a, b1, b2, b3, b4, b, x, y, beta, up);
    RotateRightAt(a, b, s, s', q, r, x, y, beta, up);
    Relinked(a, b, s, s', r);
  }

  /** Appending nodes to an arena keeps every subtree it represents, and its value. */
  lemma Grown(a: seq<RBTNode>, b: seq<RBTNode>, n: Ptr, p: Ptr, s: Shape)
    requires Rep(a, n, p, s) && |a| <= |b| && b[..|a|] == a
    ensures Rep(b, n, p, s) && AbsOf(b, s) == AbsOf(a, s)
  {
    RepInArena(a, n, p, s);
    forall i | 0 <= i < |a|
      ensures b[i] == a[i]
    {
      assert b[..|a|][i] == b[i];
    }
    RepFrame(a, b, n, p, s);
    AbsFrame(a, b, s);
  }

  /**
    CopyOf's `copy->left = CopyOf(...); if (copy->left) copy->left->parent = copy;`
    (or the same on the right): only `copy` and the copied subtree's root
    `c` change, and `c` gets `copy` as its parent; the subtree `sc` rooted
    at `c` then hangs under `copy` and keeps its value.
   */
  lemma Hang(a: seq<RBTNode>, b: seq<RBTNode>, copy: nat, c: Ptr, sc: Shape)
    requires copy < |a| == |b| && Rep(a, c, Null, sc) && Distinct(sc) && copy !in Elems(sc)
    requires forall i :: 0 <= i < |a| && i != copy && i != c ==> b[i] == a[i]
    requires c != Null ==> b[c] == a[c].(parent := copy)
    requires b[copy].data == a[copy].data && b[copy].color == a[copy].color && b[copy].isNullNode == a[copy].isNullNode
    ensures Rep(b, c, copy, sc) && AbsOf(b, sc) == AbsOf(a, sc) && SameEntries(a, b)
  {
    RepInArena(a, c, Null, sc);
    match sc
    case Leaf =>
    case Node(l, id, r) =>
      assert LinksAgree(a, b, Elems(l)) && LinksAgree(a, b, Elems(r));
      RepFrame(a, b, a[id].left, id, l);
      RepFrame(a, b, a[id].right, id, r);
      assert EntriesAgree(a, b, Elems(sc));
      AbsFrame(a, b, sc);
  }

  /** Hang, for the right link as CopyOf sets it (`h` after the link, `b` after the parent pointer). */
  lemma HangRight(a: seq<RBTNode>, h: seq<RBTNode>, b: seq<RBTNode>, copy: nat, c: Ptr, sc: Shape)
    requires copy < |a| && Rep(a, c, Null, sc) && Distinct(sc) && copy !in Elems(sc)
    requires h == SetRight(a, copy, c) && b == if c != Null then SetParent(h, c, copy) else h
    ensures Rep(b, c, copy, sc) && AbsOf(b, sc) == AbsOf(a, sc) && SameEntries(a, b)
    ensures |b| == |a| && b[copy] == a[copy].(right := c)
    ensures forall i :: 0 <= i < |a| && i != copy && i != c ==> b[i] == a[i]
  {
    RepInArena(a, c, Null, sc);
    if c != Null {
      assert c in Elems(sc);
    }
    Hang(a, b, copy, c, sc);
  }

  /** A node `lo` with a subtree on each side whose ids run on from it covers the ids from `lo` to `hi`. */
  lemma SpanJoin(l: set<nat>, c: nat, r: set<nat>, mid: nat, hi: nat)
    requires c + 1 <= mid <= hi && Span(l, c + 1, mid) && Span(r, mid, hi)
    ensures Span(l + {c} + r, c, hi) && c !in l && c !in r && l !! r
  {
  }

  /** The arena CopyOf leaves keeps what was there before it (`a0`). */
  lemma CopyPrefix(a0: seq<RBTNode>, a1: seq<RBTNode>, a2: seq<RBTNode>, a3: seq<RBTNode>, a4: seq<RBTNode>, b: seq<RBTNode>,
                   copy: nat, l: Ptr, r: Ptr)
    requires copy == |a0| && |a1| == |a0| + 1 && a1[..|a0|] == a0
    requires |a2| >= |a1| && a2[..|a1|] == a1
    requires |a3| == |a2| && (l == Null || l >= |a1|)
    requires forall i :: 0 <= i < |a2| && i != copy && i != l ==> a3[i] == a2[i]
    requires |a4| >= |a3| && a4[..|a3|] == a3
    requires |b| == |a4| && (r == Null || r >= |a3|)
    requires forall i :: 0 <= i < |a4| && i != copy && i != r ==> b[i] == a4[i]
    ensures |b| >= |a0| && b[..|a0|] == a0
  {
    forall i | 0 <= i < |a0|
      ensures b[i] == a0[i]
    {
      assert a1[..|a0|][i] == a1[i];
      assert a2[..|a1|][i] == a2[i];
      assert a4[..|a3|][i] == a4[i];
    }
  }

  /** The left copy, hung under `copy` in `a3`, survives the right copy (`a4`) and its hanging (`b`). */
  lemma CopyLeftKept(a3: seq<RBTNode>, a4: seq<RBTNode>, b: seq<RBTNode>, copy: nat, l: Ptr, r: Ptr, sl: Shape)
    requires Rep(a3, l, copy, sl) && copy !in Elems(sl)
    requires |a4| >= |a3| && a4[..|a3|] == a3 && (r == Null || r >= |a3|)
    requires |b| == |a4| && SameEntries(a4, b)
    requires forall i :: 0 <= i < |a4| && i != copy && i != r ==> b[i] == a4[i]
    ensures Rep(b, l, copy, sl) && AbsOf(b, sl) == AbsOf(a3, sl)
    ensures forall i :: i in Elems(sl) ==> i < |a3|
  {
    Grown(a3, a4, l, copy, sl);
    RepInArena(a3, l, copy, sl);
    assert LinksAgree(a4, b, Elems(sl));
    RepFrame(a4, b, l, copy, sl);
    assert EntriesAgree(a4, b, Elems(sl));
    AbsFrame(a4, b, sl);
  }

  /** The node CopyOf allocates, once its left link is set (`a3`), and the bounds of its left copy's root. */
  lemma CopyLeft(src: seq<RBTNode>, node: Ptr, a1: seq<RBTNode>, a2: seq<RBTNode>, a3: seq<RBTNode>, copy: nat, l: Ptr, sl: Shape)
    requires 0 <= node < |src| && copy + 1 == |a1|
    requires a1[copy] == NewNode(src[node].data, src[node].color).(isNullNode := src[node].isNullNode)
    requires |a2| >= |a1| && a2[..|a1|] == a1
    requires Rep(a2, l, Null, sl) && Span(Elems(sl), |a1|, |a2|)
    requires |a3| == |a2| && a3[copy] == a2[copy].(left := l)
    ensures a3[copy] == RBTNode(src[node].data, src[node].color, l, Null, Null, src[node].isNullNode)
    ensures l == Null || |a1| <= l < |a2|
  {
    assert a2[..|a1|][copy] == a2[copy];
    if l != Null {
      assert l in Elems(sl);
    }
  }

  /**
    The node CopyOf allocates, with its left copy hung under it (`a3`),
    its right copy (`a3` to `a4`) hung under it (`b`): a copy of the
    subtree `s` of `src`, rooted at the new node.
   */
  lemma CopyAssembled(src: seq<RBTNode>, node: Ptr, p: Ptr, s: Shape, a3: seq<RBTNode>, a4: seq<RBTNode>, b: seq<RBTNode>,
                      copy: nat, l: Ptr, r: Ptr, sl: Shape, sr: Shape)
    requires Rep(src, node, p, s) && node != Null
    requires copy < |a3| && a3[copy] == RBTNode(src[node].data, src[node].color, l, Null, Null, src[node].isNullNode)
    requires Rep(a3, l, copy, sl) && Distinct(sl) && Span(Elems(sl), copy + 1, |a3|) && AbsOf(a3, sl) == AbsOf(src, s.left)
    requires |a4| >= |a3| && a4[..|a3|] == a3
    requires Rep(a4, r, Null, sr) && Distinct(sr) && Span(Elems(sr), |a3|, |a4|) && AbsOf(a4, sr) == AbsOf(src, s.right)
    requires |b| == |a4| && Rep(b, r, copy, sr) && AbsOf(b, sr) == AbsOf(a4, sr) && SameEntries(a4, b)
    requires b[copy] == a4[copy].(right := r) && forall i :: 0 <= i < |a4| && i != copy && i != r ==> b[i] == a4[i]
    ensures r == Null || |a3| <= r < |a4|
    ensures Rep(b, copy, Null, Node(sl, copy, sr)) && Distinct(Node(sl, copy, sr)) && Span(Elems(Node(sl, copy, sr)), copy, |b|)
    ensures AbsOf(b, Node(sl, copy, sr)) == AbsOf(src, s)
  {
    if r != Null {
      assert r in Elems(sr);
    }
    CopyLeftKept(a3, a4, b, copy, l, r, sl);
    SpanJoin(Elems(sl), copy, Elems(sr), |a3|, |b|);
    assert a4[..|a3|][copy] == a4[copy];
    assert EntryOf(b, copy) == EntryOf(src, node);
  }

  /** A copy of a well-linked arena that fills a fresh arena is well linked, with as many nodes. */
  lemma CopyWellLinked(a: seq<RBTNode>, s: Shape, b: seq<RBTNode>, s': Shape, r: Ptr)
    requires WellLinked(a, s) && Ordered(AbsOf(a, s))
    requires Rep(b, r, Null, s') && Distinct(s') && Span(Elems(s'), 0, |b|) && AbsOf(b, s') == AbsOf(a, s)
    requires NoNullNodes(b)
    ensures WellLinked(b, s') && r == RootPtr(s') && |b| == |a|
  {
    NodeCount(a, s);
    assert Covers(Elems(s'), |b|);
    NodeCount(b, s');
  }

  /**
    The last steps of CopyOf (`copy->right = CopyOf(...); if (copy->right)
    copy->right->parent = copy;`, from `a4` through `h` to `b`) finish a
    copy of the subtree `s` of `src` rooted at the new node `copy`.
   */
  lemma CopyFinished(src: seq<RBTNode>, node: Ptr, p: Ptr, s: Shape, a3: seq<RBTNode>, a4: seq<RBTNode>, h: seq<RBTNode>, b: seq<RBTNode>,
                     copy: nat, l: Ptr, r: Ptr, sl: Shape, sr: Shape)
    requires Rep(src, node, p, s) && node != Null
    requires copy < |a3| && a3[copy] == RBTNode(src[node].data, src[node].color, l, Null, Null, src[node].isNullNode)
    requires Rep(a3, l, copy, sl) && Distinct(sl) && Span(Elems(sl), copy + 1, |a3|) && AbsOf(a3, sl) == AbsOf(src, s.left)
    requires |a4| >= |a3| && a4[..|a3|] == a3
    requires Rep(a4, r, Null, sr) && Distinct(sr) && Span(Elems(sr), |a3|, |a4|) && AbsOf(a4, sr) == AbsOf(src, s.right)
    requires h == SetRight(a4, copy, r) && b == if r != Null then SetParent(h, r, copy) else h
    ensures |b| == |a4| && SameEntries(a4, b) && (r == Null || |a3| <= r < |a4|)
    ensures forall i :: 0 <= i < |a4| && i != copy && i != r ==> b[i] == a4[i]
    ensures Rep(b, copy, Null, Node(sl, copy, sr)) && Distinct(Node(sl, copy, sr)) && Span(Elems(Node(sl, copy, sr)), copy, |b|)
    ensures AbsOf(b, Node(sl, copy, sr)) == AbsOf(src, s)
  {
    assert copy !in Elems(sr);
    assert a4[..|a3|][copy] == a4[copy];
    HangRight(a4, h, b, copy, r, sr);
    CopyAssembled(src, node, p, s, a3, a4, b, copy, l, r, sl, sr);
  }

  /** CopyOf copies the IsNullNode flags, so a copy of nodes without them has none. */
  lemma CopyNoNull(src: seq<RBTNode>, node: Ptr, a0: seq<RBTNode>, a1: seq<RBTNode>, a2: seq<RBTNode>, a3: seq<RBTNode>, a4: seq<RBTNode>, b: seq<RBTNode>)
    requires 0 <= node < |src| && a1 == a0 + [NewNode(src[node].data, src[node].color).(isNullNode := src[node].isNullNode)]
    requires NoNullNodes(src) && NoNullNodes(a1) ==> NoNullNodes(a2)
    requires SameEntries(a2, a3)
    requires NoNullNodes(src) && NoNullNodes(a3) ==> NoNullNodes(a4)
    requires SameEntries(a4, b)
    ensures NoNullNodes(src) && NoNullNodes(a0) ==> NoNullNodes(b)
  {
  }

  /** Number of keys of a well-linked arena: one per node. */
  lemma NodeCount(nodes: seq<RBTNode>, s: Shape)
    requires Distinct(s) && Covers(Elems(s), |nodes|) && Ordered(AbsOf(nodes, s))
    ensures |Keys(AbsOf(nodes, s))| == |nodes| == BinaryTrees.Size(AbsOf(nodes, s))
  {
    CoversCard(Elems(s), |nodes|);
    DistinctCard(s);
    AbsSize(nodes, s);
    OrderedCard(AbsOf(nodes, s));
  }

  /** BasicInsert into an empty tree: the detached node alone, painted BLACK, is the tree. */
  lemma PlantRoot(a: seq<RBTNode>, b: seq<RBTNode>, s: Shape, s1: Shape, node: nat)
    requires Rep(a, Null, Null, s) && NoNullNodes(a) && node + 1 == |a| && Covers(Elems(s), node)
    requires a[node] == NewNode(a[node].data, Red)
    requires b == SetColor(a, node, Black) && s1 == Node(Leaf, node, Leaf)
    ensures node == 0
    ensures Rep(b, node, Null, s1) && Distinct(s1) && Covers(Elems(s1), |b|) && NoNullNodes(b)
    ensures AbsOf(b, s1) == Place(AbsOf(a, s), a[node].data)
  {
    assert s == Leaf;
    CoversCard(Elems(s), node);
    assert AbsOf(b, Leaf) == Leaf && EntryOf(b, node) == Entry(Black, a[node].data);
  }

  /**
    BasicInsert below the node at `q`: the detached node becomes its
    child `d`, where the model's descent ends, and the tree then holds
    what Place says.
   */
  lemma PlantLeaf(a: seq<RBTNode>, b: seq<RBTNode>, s: Shape, s1: Shape, t: RBTree, q: seq<Dir>, d: Dir, node: nat)
    requires Rep(a, RootPtr(s), Null, s) && Distinct(s) && NoNullNodes(a) && node + 1 == |a| && Covers(Elems(s), node)
    requires a[node] == NewNode(a[node].data, Red)
    requires At(s, q).Node? && At(s, q + [d]).Leaf? && At(s, q).val < |a|
    requires t == AbsOf(a, s) && DescentPath(t, a[node].data) == q + [d]
    requires b == SetParent(if d == L then SetLeft(a, At(s, q).val, node) else SetRight(a, At(s, q).val, node), node, At(s, q).val)
    requires s1 == ReplaceAt(s, q + [d], Node(Leaf, node, Leaf))
    ensures Rep(b, RootPtr(s), Null, s1) && Distinct(s1) && Covers(Elems(s1), |b|) && NoNullNodes(b)
    ensures At(s1, q + [d]).Node? && At(s1, q + [d]).val == node
    ensures AbsOf(b, s1) == Place(t, a[node].data)
  {
    AttachLeaf(a, b, s, s1, q, d, node);
    NodeIsPos(s, q, d);
    AtReplace(s, q + [d], Node(Leaf, node, Leaf));
    assert EntryOf(a, node) == Entry(Red, a[node].data);
    assert t.Node?;
  }

  /** `new RBTNode{newData, COLOR_RED}`: one more node at the end of the arena, outside the tree. */
  lemma Allocate(a: seq<RBTNode>, b: seq<RBTNode>, s: Shape, k: int)
    requires WellLinked(a, s) && b == a + [NewNode(k, Red)]
    ensures Rep(b, RootPtr(s), Null, s) && NoNullNodes(b) && Covers(Elems(s), |a|)
    ensures AbsOf(b, s) == AbsOf(a, s)
  {
    RepInArena(a, RootPtr(s), Null, s);
    RepFrame(a, b, RootPtr(s), Null, s);
    AbsFrame(a, b, s);
  }

  /** What Insert promises about the tree it leaves. */
  lemma InsertResult(t: RBTree, k: int, t': RBTree)
    requires IsRedBlack(t) && RedBlackModel.Insert(t, k) == Ok(t')
    ensures IsRedBlack(t') && Keys(t') == Keys(t) + {k} && BinaryTrees.Size(t') == BinaryTrees.Size(t) + 1
  {
    InsertKeys(t, k);
    InsertRedBlack(t, k);
  }

  /** Changing colours only keeps an arena well linked. */
  lemma ColorsOnly(a: seq<RBTNode>, b: seq<RBTNode>, s: Shape)
    requires WellLinked(a, s) && |b| == |a|
    requires forall i :: 0 <= i < |a| ==> SameLinks(a[i], b[i]) && b[i].isNullNode == a[i].isNullNode
    ensures WellLinked(b, s)
  {
    RepInArena(a, RootPtr(s), Null, s);
    RepFrame(a, b, RootPtr(s), Null, s);
  }

  /** Painting the node at position `q` paints that subtree's root in the value-level tree. */
  lemma PaintAt(a: seq<RBTNode>, b: seq<RBTNode>, s: Shape, q: seq<Dir>, c: Color)
    requires WellLinked(a, s) && At(s, q).Node? && At(s, q).val < |a|
    requires b == SetColor(a, At(s, q).val, c)
    ensures WellLinked(b, s)
    ensures AbsOf(b, s) == ReplaceAt(AbsOf(a, s), q, Paint(At(AbsOf(a, s), q), c))
  {
    ColorsOnly(a, b, s);
    AbsRecolor(a, s, q, c);
    AbsAt(a, s, q);
  }

  /**
    The fix-up loop's condition at the node of position `q`: the node is
    the root exactly when `q` is empty, and otherwise its parent link is
    the node one step up, RED exactly when that subtree's root is.
   */
  lemma LoopGuard(a: seq<RBTNode>, s: Shape, q: seq<Dir>)
    requires WellLinked(a, s) && At(s, q).Node?
    ensures At(s, q).val < |a|
    ensures At(s, q).val == RootPtr(s) <==> q == []
    ensures q != [] ==>
      0 <= a[At(s, q).val].parent < |a| && At(s, q[..|q| - 1]).Node? &&
      a[At(s, q).val].parent == At(s, q[..|q| - 1]).val &&
      (a[a[At(s, q).val].parent].color == Red <==> IsRed(At(AbsOf(a, s), q[..|q| - 1])))
  {
    Position(a, s, q);
    if q != [] {
      AbsAt(a, s, q[..|q| - 1]);
    }
  }

  /**
    The family of the node at `g + [dp, dz]`: its parent at `g + [dp]`, its
    grandparent at `g` and its uncle, the grandparent's other child, with
    the links, sides and colours the fix-up loop reads.
   */
  lemma Family(a: seq<RBTNode>, s: Shape, g: seq<Dir>, dp: Dir, dz: Dir)
    requires WellLinked(a, s) && At(s, g + [dp, dz]).Node?
    ensures At(s, g).Node? && Child(At(s, g), dp).Node? && At(s, g + [dp]) == Child(At(s, g), dp)
    ensures var n, par, gp := At(s, g + [dp, dz]).val, At(s, g + [dp]).val, At(s, g).val;
      n < |a| && par < |a| && gp < |a| && a[n].parent == par && a[par].parent == gp &&
      IsLeftChild(a, par) == (dp == L) && IsRightChild(a, n) == (dz == R) && IsLeftChild(a, n) == (dz == L)
    ensures At(AbsOf(a, s), g) == AbsOf(a, At(s, g))
    ensures var gp := At(s, g).val;
      var uncle := if dp == L then a[gp].right else a[gp].left;
      uncle == RootPtr(Child(At(s, g), Opp(dp))) && (uncle != Null ==> 0 <= uncle < |a|) &&
      ((uncle != Null && a[uncle].color == Red) == IsRed(Child(At(AbsOf(a, s), g), Opp(dp))))
  {
    AtTwoSteps(s, g, dp, dz);
    assert g + [dp] + [dz] == g + [dp, dz];
    ChildSide(a, s, g, dp);
    ChildSide(a, s, g + [dp], dz);
    NodeLinks(a, s, g);
    AtChild(s, g, Opp(dp));
    AbsAt(a, s, g);
  }

  /**
    The node at `g + [dp, dz]`, its parent at `g + [dp]` and its
    grandparent at `g`: their links and sides, in the arena and in the
    value-level tree.
   */
  lemma Lineage(a: seq<RBTNode>, s: Shape, g: seq<Dir>, dp: Dir, dz: Dir)
    requires WellLinked(a, s) && At(s, g + [dp, dz]).Node?
    ensures At(s, g).Node? && Child(At(s, g), dp).Node? && At(s, g + [dp]) == Child(At(s, g), dp)
    ensures Child(At(s, g + [dp]), dz).Node? && At(s, g + [dp, dz]) == Child(At(s, g + [dp]), dz)
    ensures var n, par, gp := At(s, g + [dp, dz]).val, At(s, g + [dp]).val, At(s, g).val;
      n < |a| && par < |a| && gp < |a| && a[n].parent == par && a[par].parent == gp &&
      IsRightChild(a, n) == (dz == R) && IsLeftChild(a, n) == (dz == L)
    ensures var t := AbsOf(a, s);
      At(t, g).Node? && Child(At(t, g), dp).Node? && Child(Child(At(t, g), dp), dz).Node? &&
      At(t, g + [dp]) == Child(At(t, g), dp)
  {
    AtTwoSteps(s, g, dp, dz);
    assert g + [dp] + [dz] == g + [dp, dz];
    AtStep(s, g + [dp], dz);
    ChildSide(a, s, g, dp);
    ChildSide(a, s, g + [dp], dz);
    AbsAt(a, s, g + [dp, dz]);
    AtTwoSteps(AbsOf(a, s), g, dp, dz);
  }

  /**
    The rotation cases' recolouring: the node at `g + [dp]` painted BLACK
    (giving `t2`), then the node at `g` painted RED (giving `t3`).
   */
  lemma PaintPair(a: seq<RBTNode>, b: seq<RBTNode>, s: Shape, g: seq<Dir>, dp: Dir, t1: RBTree, t2: RBTree, t3: RBTree)
    requires WellLinked(a, s) && At(s, g).Node? && At(s, g + [dp]).Node?
    requires At(s, g).val < |a| && At(s, g + [dp]).val < |a|
    requires b == SetColor(SetColor(a, At(s, g + [dp]).val, Black), At(s, g).val, Red)
    requires t1 == AbsOf(a, s)
    requires t2 == ReplaceAt(t1, g + [dp], Paint(At(t1, g + [dp]), Black))
    requires t3 == ReplaceAt(t2, g, Paint(At(t2, g), Red))
    ensures WellLinked(b, s) && AbsOf(b, s) == t3
  {
    var a2 := SetColor(a, At(s, g + [dp]).val, Black);
    PaintAt(a, a2, s, g + [dp], Black);
    PaintAt(a2, b, s, g, Red);
  }

  /** The node at `g` and its children are nodes of the arena. */
  lemma FamilyInArena(a: seq<RBTNode>, s: Shape, g: seq<Dir>)
    requires Rep(a, RootPtr(s), Null, s) && At(s, g).Node?
    ensures At(s, g).val < |a|
    ensures At(s, g).left.Node? ==> At(s, g).left.val < |a|
    ensures At(s, g).right.Node? ==> At(s, g).right.val < |a|
  {
    NodeLinks(a, s, g);
    AtChild(s, g, L);
    AtChild(s, g, R);
  }

  /**
    The red-uncle case: the parent and the uncle painted BLACK and the
    grandparent RED is Recolor at the grandparent's position `g`.
   */
  lemma RecolorCase(a: seq<RBTNode>, b: seq<RBTNode>, s: Shape, g: seq<Dir>, dp: Dir)
    requires WellLinked(a, s) && At(s, g).Node? && At(s, g).left.Node? && At(s, g).right.Node?
    requires At(s, g).val < |a| && At(s, g).left.val < |a| && At(s, g).right.val < |a|
    requires b == SetColor(SetColor(SetColor(a, Child(At(s, g), dp).val, Black), Child(At(s, g), Opp(dp)).val, Black), At(s, g).val, Red)
    ensures WellLinked(b, s)
    ensures At(AbsOf(a, s), g) == AbsOf(a, At(s, g))
    ensures AbsOf(b, s) == ReplaceAt(AbsOf(a, s), g, Recolor(At(AbsOf(a, s), g)))
  {
    ColorsOnly(a, b, s);
    RecolorAt(a, s, g, Child(At(s, g), dp).val, Child(At(s, g), Opp(dp)).val);
  }

  class RedBlackTree {
    var nodes: seq<RBTNode>
    var root: Ptr
    var numItems: nat
    ghost var shape: Shape

    /** `root` is the root of `shape`, which the links form. */
    ghost predicate Linked()
      reads this`root, this`nodes, this`shape
    {
      root == RootPtr(shape) && WellLinked(nodes, shape)
    }

    ghost function Abs(): RBTree
      reads this`nodes, this`shape
    {
      AbsOf(nodes, shape)
    }

    ghost predicate Valid()
      reads this
    {
      Linked() && numItems == |nodes| && IsRedBlack(Abs())
    }

    /** RedBlackTree(): no root, no items. */
    constructor ()
      ensures Valid() && Abs() == Leaf && numItems == 0
    {
      nodes := [];
      root := Null;
      numItems := 0;
      shape := Leaf;
    }

    /**
      RedBlackTree(const RedBlackTree &rbt): the nodes of `rbt` copied into
      this tree's own arena; the copy holds the same tree and item count.
     */
    constructor Copy(rbt: RedBlackTree)
      requires rbt.Valid()
      ensures Valid() && Abs() == rbt.Abs() && numItems == rbt.numItems
    {
      nodes := [];
      root := Null;
      numItems := rbt.numItems;
      shape := Leaf;
      new;
      ghost var a, sa := rbt.nodes, rbt.shape;
      assert NoNullNodes(a) && NoNullNodes(nodes);
      ghost var s;
      root, s := CopyOf(rbt.nodes, rbt.root, Null, rbt.shape);
      shape := s;
      CopyWellLinked(a, sa, nodes, s, root);
    }

    /**
      CopyOf(node): a fresh node per node of the subtree of `src` rooted
      at `node`, appended to the arena in preorder, linked like the
      original; the copy's root has no parent.  Nothing already in the
      arena changes.
     */
    method CopyOf(src: seq<RBTNode>, node: Ptr, ghost p: Ptr, ghost s: Shape) returns (copy: Ptr, ghost s': Shape)
      requires Rep(src, node, p, s)
      modifies this`nodes
      ensures |nodes| >= old(|nodes|) && nodes[..old(|nodes|)] == old(nodes)
      ensures Rep(nodes, copy, Null, s') && Distinct(s') && Span(Elems(s'), old(|nodes|), |nodes|)
      ensures AbsOf(nodes, s') == AbsOf(src, s)
      ensures NoNullNodes(src) && NoNullNodes(old(nodes)) ==> NoNullNodes(nodes)
      decreases s
    {
      if node == Null {
        return Null, Leaf;
      }
      ghost var a0 := nodes;
      copy := |nodes|;
      nodes := nodes + [NewNode(src[node].data, src[node].color)];
      nodes := nodes[copy := nodes[copy].(isNullNode := src[node].isNullNode)];
      ghost var a1 := nodes;
      assert a1 == a0 + [NewNode(src[node].data, src[node].color).(isNullNode := src[node].isNullNode)];
      var l, sl := CopyOf(src, src[node].left, node, s.left);
      ghost var a2 := nodes;
      var ns := SetLeft(nodes, copy, l);
      if l != Null {
        ns := SetParent(ns, l, copy);
      }
      Hang(a2, ns, copy, l, sl);
      CopyLeft(src, node, a1, a2, ns, copy, l, sl);
      nodes := ns;
      ghost var a3 := nodes;
      var r, sr := CopyOf(src, src[node].right, node, s.right);
      ghost var a4 := nodes;
      ns := SetRight(nodes, copy, r);
      ghost var h := ns;
      if r != Null {
        ns := SetParent(ns, r, copy);
      }
      s' := Node(sl, copy as nat, sr);
      CopyFinished(src, node, p, s, a3, a4, h, ns, copy, l, r, sl, sr);
      CopyPrefix(a0, a1, a2, a3, a4, ns, copy, l, r);
      CopyNoNull(src, node, a0, a1, a2, a3, a4, ns);
      nodes := ns;
    }

    /** RedBlackTree(newData): a single BLACK root. */
    constructor WithRoot(newData: int)
      ensures Valid() && Abs() == Node(Leaf, Entry(Black, newData), Leaf) && numItems == 1
    {
      nodes := [NewNode(newData, Black)];
      root := 0;
      numItems := 1;
      shape := Node(Leaf, 0, Leaf);
      new;
      assert EntryOf(nodes, 0) == Entry(Black, newData);
      assert AbsOf(nodes, Leaf) == Leaf;
      assert Abs() == Node(AbsOf(nodes, Leaf), EntryOf(nodes, 0), AbsOf(nodes, Leaf));
      ghost var t := Abs();
      assert Keys(Leaf) == {} && !IsRed(t) && !IsRed(Leaf);
      assert IsRedBlack(t);
    }

    /** Size(): the item count, which is the number of keys held. */
    function Size(): (n: nat)
      reads this
      requires Valid()
      ensures n == |Keys(Abs())| == BinaryTrees.Size(Abs())
    {
      NodeCount(nodes, shape);
      numItems
    }

    /**
      ToInfixString(): every node's token, left subtree first; the keys
      appear in strictly ascending order.
     */
    function ToInfixString(): (r: string)
      reads this
      requires Valid()
      ensures r == InfixString(Abs()) == Render(Infix(Abs()))
      ensures Ascending(Infix(Abs())) && KeysOf(Infix(Abs())) == Keys(Abs())
      ensures r == "" <==> numItems == 0
    {
      InfixRendered(Abs());
      OrderedIffAscending(Abs());
      KeysInfix(Abs());
      EmptyRenderings(Abs());
      NodeCount(nodes, shape);
      InfixFrom(nodes, root, Null, shape)
    }

    /** ToPrefixString(): every node's token, node before its subtrees. */
    function ToPrefixString(): (r: string)
      reads this
      requires Valid()
      ensures r == PrefixString(Abs()) == Render(Preorder(Abs()))
      ensures r == "" <==> numItems == 0
    {
      PrefixRendered(Abs());
      EmptyRenderings(Abs());
      NodeCount(nodes, shape);
      PrefixFrom(nodes, root, Null, shape)
    }

    /** ToPostfixString(): every node's token, subtrees before the node. */
    function ToPostfixString(): (r: string)
      reads this
      requires Valid()
      ensures r == PostfixString(Abs()) == Render(Postorder(Abs()))
      ensures r == "" <==> numItems == 0
    {
      PostfixRendered(Abs());
      EmptyRenderings(Abs());
      NodeCount(nodes, shape);
      PostfixFrom(nodes, root, Null, shape)
    }

    /** Get: the node holding `data`, found by binary search from the root; Null when absent. */
    method Get(data: int) returns (found: Ptr)
      requires Valid()
      ensures found == Null <==> data !in Keys(Abs())
      ensures found != Null ==> 0 <= found < |nodes| && nodes[found].data == data
    {
      var curr := root;
      ghost var sub := shape;
      ghost var up := Null;
      while curr != Null
        invariant Rep(nodes, curr, up, sub) && Ordered(AbsOf(nodes, sub))
        invariant data in Keys(Abs()) <==> data in Keys(AbsOf(nodes, sub))
        decreases sub
      {
        if data == nodes[curr].data {
          return curr;
        }
        up := curr;
        if data < nodes[curr].data {
          sub := sub.left;
        } else {
          sub := sub.right;
        }
        curr := if data < nodes[curr].data then nodes[curr].left else nodes[curr].right;
      }
      return Null;
    }

    /** Contains: whether Get finds a node. */
    method Contains(data: int) returns (b: bool)
      requires Valid()
      ensures b <==> data in Keys(Abs())
    {
      var n := Get(data);
      b := n != Null;
    }

    /** GetMin: "Tree is empty" without a root, else the key of the leftmost node, the smallest. */
    method GetMin() returns (r: Result<int>)
      requires Valid()
      ensures r.Err? <==> Keys(Abs()) == {}
      ensures r.Err? ==> r.error == EmptyTree
      ensures r.Ok? ==> r.value in Keys(Abs()) && forall k :: k in Keys(Abs()) ==> r.value <= k
    {
      if root == Null {
        return Err(EmptyTree);
      }
      var curr := root;
      ghost var sub := shape;
      ghost var up := Null;
      while nodes[curr].left != Null
        invariant Rep(nodes, curr, up, sub) && sub.Node?
        invariant Leftmost(AbsOf(nodes, sub)) == Leftmost(Abs())
        decreases sub
      {
        up := curr;
        curr := nodes[curr].left;
        sub := sub.left;
      }
      LeftmostIsMin(Abs());
      return Ok(nodes[curr].data);
    }

    /** GetMax: "Tree is empty" without a root, else the key of the rightmost node, the largest. */
    method GetMax() returns (r: Result<int>)
      requires Valid()
      ensures r.Err? <==> Keys(Abs()) == {}
      ensures r.Err? ==> r.error == EmptyTree
      ensures r.Ok? ==> r.value in Keys(Abs()) && forall k :: k in Keys(Abs()) ==> k <= r.value
    {
      if root == Null {
        return Err(EmptyTree);
      }
      var curr := root;
      ghost var sub := shape;
      ghost var up := Null;
      while nodes[curr].right != Null
        invariant Rep(nodes, curr, up, sub) && sub.Node?
        invariant Rightmost(AbsOf(nodes, sub)) == Rightmost(Abs())
        decreases sub
      {
        up := curr;
        curr := nodes[curr].right;
        sub := sub.right;
      }
      RightmostIsMax(Abs());
      return Ok(nodes[curr].data);
    }

    /**
      Insert(newData): "Duplicate value" when the key is already present,
      with nothing changed; otherwise a new RED node holding the key is
      placed by BasicInsert, InsertFixUp restores the red-black
      properties from it, and the item count grows by one.
     */
    method Insert(newData: int) returns (r: Result<()>)
      requires Valid()
      modifies this
      ensures Valid()
      ensures r.Err? <==> newData in Keys(old(Abs()))
      ensures r.Err? ==> r.error == DuplicateValue && unchanged(this)
      ensures r.Ok? ==> RedBlackModel.Insert(old(Abs()), newData) == Ok(Abs()) && numItems == old(numItems) + 1
      ensures Keys(Abs()) == Keys(old(Abs())) + {newData}
    {
      var present := Contains(newData);
      if present {
        return Err(DuplicateValue);
      }
      AddNode(newData);
      numItems := numItems + 1;
      r := Ok(());
    }

    /**
      The allocation, BasicInsert and InsertFixUp steps of Insert, for a
      key not yet present; the item count is left to Insert.
     */
    method AddNode(newData: int)
      requires Valid() && newData !in Keys(Abs())
      modifies this
      ensures Linked() && numItems == old(numItems) && |nodes| == old(|nodes|) + 1
      ensures RedBlackModel.Insert(old(Abs()), newData) == Ok(Abs())
      ensures IsRedBlack(Abs()) && Keys(Abs()) == Keys(old(Abs())) + {newData}
    {
      ghost var t := Abs();
      NodeCount(nodes, shape);
      var newNode := |nodes|;
      Allocate(nodes, nodes + [NewNode(newData, Red)], shape, newData);
      nodes := nodes + [NewNode(newData, Red)];
      ghost var p := BasicInsert(newNode);
      PlaceAt(t, newData);
      InsertFixUp(newNode, p);
      ghost var t' := Abs();
      assert RedBlackModel.Insert(t, newData) == Ok(t');
      InsertResult(t, newData, t');
      NodeCount(nodes, shape);
    }

    /**
      The state Insert leaves for BasicInsert: the tree is linked, and one
      more node, the last of the arena, is a fresh RED RBTNode outside it.
     */
    ghost predicate Detached(node: Ptr)
      reads this`root, this`nodes, this`shape
    {
      Rep(nodes, root, Null, shape) && Distinct(shape) && NoNullNodes(nodes) &&
      0 <= node && node + 1 == |nodes| && Covers(Elems(shape), node) &&
      nodes[node] == NewNode(nodes[node].data, Red)
    }

    /**
      BasicInsert(node): into an empty tree the node becomes the BLACK
      root; otherwise the descent from the root (left when the new key is
      smaller, right otherwise) stops at an absent child, which becomes
      the node, and the node takes the last visited node as its parent.
      Returns (ghost) the node's position.
     */
    method BasicInsert(node: Ptr) returns (ghost p: seq<Dir>)
      requires Detached(node)
      modifies this
      ensures Linked() && numItems == old(numItems)
      ensures p == DescentPath(old(Abs()), old(nodes[node].data))
      ensures At(shape, p).Node? && At(shape, p).val == node
      ensures Abs() == Place(old(Abs()), old(nodes[node].data))
    {
      ghost var k := nodes[node].data;
      ghost var s := shape;
      ghost var a := nodes;
      ghost var t := Abs();
      if root == Null {
        nodes := SetColor(nodes, node, Black);
        root := node;
        shape := Node(Leaf, node, Leaf);
        PlantRoot(a, nodes, s, shape, node);
        return [];
      }
      assert root == RootPtr(s);
      var ns := nodes;
      var curr := root;
      ghost var q: seq<Dir> := [];
      ghost var d: Dir := L;
      while true
        invariant nodes == ns == a && shape == s && root == RootPtr(s) && numItems == old(numItems)
        invariant At(s, q).Node? && At(s, q).val == curr
        invariant q + DescentPath(AbsOf(a, At(s, q)), k) == DescentPath(t, k)
        decreases |DescentPath(AbsOf(a, At(s, q)), k)|
      {
        DescendStep(a, s, t, q, k);
        if ns[node].data < ns[curr].data {
          if ns[curr].left == Null {
            ns := SetLeft(ns, curr, node);
            d := L;
            break;
          }
          curr := ns[curr].left;
          q := q + [L];
        } else {
          if ns[curr].right == Null {
            ns := SetRight(ns, curr, node);
            d := R;
            break;
          }
          curr := ns[curr].right;
          q := q + [R];
        }
      }
      ns := SetParent(ns, node, curr);
      ghost var s1 := ReplaceAt(s, q + [d], Node(Leaf, node, Leaf));
      PlantLeaf(a, ns, s, s1, t, q, d, node);
      nodes := ns;
      shape := s1;
      p := q + [d];
    }

    /**
      InsertFixUp(node), `node` at position `p`: while the node is not the
      root and its parent is RED, recolour (red uncle: continue from the
      grandparent) or rotate (black or absent uncle); finally paint the
      root BLACK.  This is the model's FixUp followed by a BLACK root.
      Each case of the loop body is one of the three methods below.
     */
    method InsertFixUp(newNode: Ptr, ghost p: seq<Dir>)
      requires Linked() && At(shape, p).Node? && At(shape, p).val == newNode
      requires At(Abs(), p).Node? && (p == [] || !IsRed(Abs()))
      modifies this
      ensures Linked() && numItems == old(numItems)
      ensures Abs() == Paint(FixUp(old(Abs()), p), Black)
    {
      var node := newNode;
      ghost var q := p;
      LoopGuard(nodes, shape, q);
      while node != root && nodes[nodes[node].parent].color == Red
        invariant Linked() && numItems == old(numItems)
        invariant At(shape, q).Node? && At(shape, q).val == node
        invariant At(Abs(), q).Node? && (q == [] || !IsRed(Abs()))
        invariant FixUp(Abs(), q) == FixUp(old(Abs()), p)
        invariant 0 <= node < |nodes| && (node == root <==> q == [])
        invariant q != [] ==>
          0 <= nodes[node].parent < |nodes| && At(shape, q[..|q| - 1]).Node? &&
          nodes[node].parent == At(shape, q[..|q| - 1]).val &&
          (nodes[nodes[node].parent].color == Red <==> IsRed(At(Abs(), q[..|q| - 1])))
        decreases |q|
      {
        node, q := FixUpIteration(node, q);
        LoopGuard(nodes, shape, q);
      }
      FixUpStops(Abs(), q);
      ghost var a := nodes;
      nodes := SetColor(nodes, root, Black);
      PaintAt(a, nodes, shape, [], Black);
    }

    /**
      One iteration of InsertFixUp's loop, for the node at position `q`
      under a RED parent: the recolouring or the rotations, returning the
      node (and position) the loop goes on with.  The tree's FixUp from
      there is the FixUp it had from `q`.
     */
    method FixUpIteration(node: Ptr, ghost q: seq<Dir>) returns (next: Ptr, ghost q': seq<Dir>)
      requires Linked() && At(shape, q).Node? && At(shape, q).val == node
      requires q != [] && At(Abs(), q).Node? && !IsRed(Abs()) && IsRed(At(Abs(), q[..|q| - 1]))
      modifies this
      ensures Linked() && numItems == old(numItems)
      ensures At(shape, q').Node? && At(shape, q').val == next
      ensures At(Abs(), q').Node? && (q' == [] || !IsRed(Abs()))
      ensures FixUp(Abs(), q') == FixUp(old(Abs()), q) && |q'| < |q|
    {
      ghost var g, dp, dz := q[..|q| - 2], q[|q| - 2], q[|q| - 1];
      assert q == g + [dp, dz] && q[..|q| - 1] == g + [dp];
      FixUpStep(Abs(), g, dp, dz);
      Family(nodes, shape, g, dp, dz);
      var parent := nodes[node].parent;
      var grandparent := nodes[parent].parent;
      // The uncle is the grandparent's other child; the two red-uncle
      // branches of the source do the same thing, so they are one here.
      var uncle := if IsLeftChild(nodes, parent) then nodes[grandparent].right else nodes[grandparent].left;
      if uncle != Null && nodes[uncle].color == Red {
        RedUncleCase(parent, uncle, grandparent, g, dp);
        next := grandparent;
        q' := g;
      } else if IsLeftChild(nodes, parent) {
        next := LeftParentCase(node, grandparent, g, dz);
        q' := g + [L];
      } else {
        next := RightParentCase(node, grandparent, g, dz);
        q' := g + [R];
      }
    }

    /**
      The red-uncle case of InsertFixUp's loop: the parent and the uncle
      become BLACK and the grandparent, at position `g`, RED.
     */
    method RedUncleCase(parent: Ptr, uncle: Ptr, grandparent: Ptr, ghost g: seq<Dir>, ghost dp: Dir)
      requires Linked() && At(shape, g).Node? && At(shape, g).val == grandparent
      requires Child(At(shape, g), dp).Node? && Child(At(shape, g), dp).val == parent
      requires Child(At(shape, g), Opp(dp)).Node? && Child(At(shape, g), Opp(dp)).val == uncle
      modifies this
      ensures Linked() && numItems == old(numItems) && shape == old(shape)
      ensures At(old(Abs()), g).Node?
      ensures Abs() == ReplaceAt(old(Abs()), g, Recolor(At(old(Abs()), g)))
    {
      FamilyInArena(nodes, shape, g);
      var ns := nodes;
      ns := SetColor(ns, parent, Black);
      ns := SetColor(ns, uncle, Black);
      ns := SetColor(ns, grandparent, Red);
      RecolorCase(nodes, ns, shape, g, dp);
      nodes := ns;
    }

    /**
      The black-uncle case of InsertFixUp's loop with the parent a left
      child: a node `z` that is its parent's right child first moves up to
      the parent, which is LeftRotated; then the node's parent becomes
      BLACK, the grandparent RED, and the grandparent is RightRotated.
      Returns the node the loop goes on from.
     */
    method LeftParentCase(z: Ptr, grandparent: Ptr, ghost g: seq<Dir>, ghost dz: Dir) returns (node: Ptr)
      requires Linked() && At(shape, g + [L, dz]).Node? && At(shape, g + [L, dz]).val == z
      requires At(shape, g).Node? && At(shape, g).val == grandparent
      modifies this
      ensures Linked() && numItems == old(numItems)
      ensures At(old(Abs()), g).Node? && At(old(Abs()), g).left.Node? && Child(At(old(Abs()), g).left, dz).Node?
      ensures Abs() == ReplaceAt(old(Abs()), g, RotateFromLeft(At(old(Abs()), g), dz))
      ensures At(shape, g + [L]).Node? && At(shape, g + [L]).val == node
    {
      ghost var t0, s0 := Abs(), shape;
      Lineage(nodes, shape, g, L, dz);
      node := z;
      if IsRightChild(nodes, node) {
        node := nodes[node].parent;
        LeftRotate(node, g + [L]);
      }
      ghost var t1, s1 := Abs(), shape;
      InnerRotation(s0, g, L, dz, s1);
      Lineage(nodes, shape, g, L, L);
      var ns := nodes;
      ns := SetColor(ns, ns[node].parent, Black);
      ns := SetColor(ns, grandparent, Red);
      ghost var t2 := ReplaceAt(t1, g + [L], Paint(At(t1, g + [L]), Black));
      ghost var t3 := ReplaceAt(t2, g, Paint(At(t2, g), Red));
      PaintPair(nodes, ns, shape, g, L, t1, t2, t3);
      nodes := ns;
      RightRotate(grandparent, g);
      RotateFromLeftSteps(t0, g, dz, t1, t2, t3);
      OuterRotation(s1, g, L);
    }

    /** The mirror image of LeftParentCase: the parent is a right child. */
    method RightParentCase(z: Ptr, grandparent: Ptr, ghost g: seq<Dir>, ghost dz: Dir) returns (node: Ptr)
      requires Linked() && At(shape, g + [R, dz]).Node? && At(shape, g + [R, dz]).val == z
      requires At(shape, g).Node? && At(shape, g).val == grandparent
      modifies this
      ensures Linked() && numItems == old(numItems)
      ensures At(old(Abs()), g).Node? && At(old(Abs()), g).right.Node? && Child(At(old(Abs()), g).right, dz).Node?
      ensures Abs() == ReplaceAt(old(Abs()), g, RotateFromRight(At(old(Abs()), g), dz))
      ensures At(shape, g + [R]).Node? && At(shape, g + [R]).val == node
    {
      ghost var t0, s0 := Abs(), shape;
      Lineage(nodes, shape, g, R, dz);
      node := z;
      if IsLeftChild(nodes, node) {
        node := nodes[node].parent;
        RightRotate(node, g + [R]);
      }
      ghost var t1, s1 := Abs(), shape;
      InnerRotation(s0, g, R, dz, s1);
      Lineage(nodes, shape, g, R, R);
      var ns := nodes;
      ns := SetColor(ns, ns[node].parent, Black);
      ns := SetColor(ns, grandparent, Red);
      ghost var t2 := ReplaceAt(t1, g + [R], Paint(At(t1, g + [R]), Black));
      ghost var t3 := ReplaceAt(t2, g, Paint(At(t2, g), Red));
      PaintPair(nodes, ns, shape, g, R, t1, t2, t3);
      nodes := ns;
      LeftRotate(grandparent, g);
      RotateFromRightSteps(t0, g, dz, t1, t2, t3);
      OuterRotation(s1, g, R);
    }

    /**
      LeftRotate(x), `x` sitting at position `q` with a right child `y`:
      `y` takes `x`'s place under `x`'s parent (or as the root), `x`
      becomes `y`'s left child and takes `y`'s old left subtree.
     */
    method LeftRotate(x: Ptr, ghost q: seq<Dir>)
      requires Linked() && At(shape, q).Node? && At(shape, q).val == x && At(shape, q).right.Node?
      modifies this
      ensures Linked() && numItems == old(numItems)
      ensures shape == ReplaceAt(old(shape), q, RotateLeft(At(old(shape), q)))
      ensures At(old(Abs()), q).Node? && At(old(Abs()), q).right.Node?
      ensures Abs() == ReplaceAt(old(Abs()), q, RotateLeft(At(old(Abs()), q)))
    {
      ghost var a := nodes;
      RotateSetup(nodes, shape, q, R);
      var ns := nodes;
      var y := ns[x].right;
      ghost var beta, up := a[y].left, a[x].parent;
      ns := SetRight(ns, x, ns[y].left);
      ghost var b1 := ns;
      if ns[y].left != Null {
        ns := SetParent(ns, ns[y].left, x);
      }
      ghost var b2 := ns;
      ns := SetParent(ns, y, ns[x].parent);
      ghost var b3 := ns;
      assert ns[x].parent == up && (up != Null ==> ns[up] == a[up]);
      if ns[x].parent == Null {
        root := y;
      } else if IsLeftChild(ns, x) {
        ns := SetLeft(ns, ns[x].parent, y);
      } else {
        ns := SetRight(ns, ns[x].parent, y);
      }
      ghost var b4 := ns;
      ns := SetLeft(ns, y, x);
      ns := SetParent(ns, x, y);
      LeftRotation(a, b1, b2, b3, b4, ns, shape, q, root, x, y, beta, up);
      nodes, shape := ns, ReplaceAt(shape, q, RotateLeft(At(shape, q)));
    }

    /** RightRotate(x): the mirror image of LeftRotate. */
    method RightRotate(x: Ptr, ghost q: seq<Dir>)
      requires Linked() && At(shape, q).Node? && At(shape, q).val == x && At(shape, q).left.Node?
      modifies this
      ensures Linked() && numItems == old(numItems)
      ensures shape == ReplaceAt(old(shape), q, RotateRight(At(old(shape), q)))
      ensures At(old(Abs()), q).Node? && At(old(Abs()), q).left.Node?
      ensures Abs() == ReplaceAt(old(Abs()), q, RotateRight(At(old(Abs()), q)))
    {
      ghost var a := nodes;
      RotateSetup(nodes, shape, q, L);
      var ns := nodes;
      var y := ns[x].left;
      ghost var beta, up := a[y].right, a[x].parent;
      ns := SetLeft(ns, x, ns[y].right);
      ghost var b1 := ns;
      if ns[y].right != Null {
        ns := SetParent(ns, ns[y].right, x);
      }
      ghost var b2 := ns;
      ns := SetParent(ns, y, ns[x].parent);
      ghost var b3 := ns;
      assert ns[x].parent == up && (up != Null ==> ns[up] == a[up]);
      if ns[x].parent == Null {
        root := y;
      } else if IsRightChild(ns, x) {
        ns := SetRight(ns, ns[x].parent, y);
      } else {
        ns := SetLeft(ns, ns[x].parent, y);
      }
      ghost var b4 := ns;
      ns := SetRight(ns, y, x);
      ns := SetParent(ns, x, y);
      RightRotation(a, b1, b2, b3, b4, ns, shape, q, root, x, y, beta, up);
      nodes, shape := ns, ReplaceAt(shape, q, RotateRight(At(shape, q)));
    }
  }
}
