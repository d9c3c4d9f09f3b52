/**
  The nodes of RedBlackTree.h as records in an arena: a pointer is an
  index into the tree's sequence of nodes, and -1 is nullptr.  `Rep`
  says that the links starting at a pointer form a given ghost shape
  (a tree of node indices) with consistent parent links; `AbsOf` reads
  the colours and keys off that shape.  The lemmas here say what a
  change to a few nodes does to both.
 */
module Arena {
  import opened BinaryTrees
  import opened RedBlackModel
  import opened Rendering

  type Ptr = int

  const Null: Ptr := -1

  /** RBTNode: key, colour, the three links and the (never set) IsNullNode flag. */
  datatype RBTNode = RBTNode(data: int, color: Color, left: Ptr, right: Ptr, parent: Ptr, isNullNode: bool)

  /** The RBTNode(d, c) constructor: no links, not a null node. */
  function NewNode(d: int, c: Color): RBTNode
  {
    RBTNode(d, c, Null, Null, Null, false)
  }

  function SetLeft(nodes: seq<RBTNode>, i: Ptr, v: Ptr): seq<RBTNode>
    requires 0 <= i < |nodes|
  {
    nodes[i := nodes[i].(left := v)]
  }

  function SetRight(nodes: seq<RBTNode>, i: Ptr, v: Ptr): seq<RBTNode>
    requires 0 <= i < |nodes|
  {
    nodes[i := nodes[i].(right := v)]
  }

  function SetParent(nodes: seq<RBTNode>, i: Ptr, v: Ptr): seq<RBTNode>
    requires 0 <= i < |nodes|
  {
    nodes[i := nodes[i].(parent := v)]
  }

  function SetColor(nodes: seq<RBTNode>, i: Ptr, c: Color): seq<RBTNode>
    requires 0 <= i < |nodes|
  {
    nodes[i := nodes[i].(color := c)]
  }

  /** A tree of node indices: which node sits where. */
  type Shape = Tree<nat>

  function RootPtr(s: Shape): Ptr
  {
    if s.Leaf? then Null else s.val
  }

  /** The node indices of a shape are exactly the arena's indices 0 .. n-1. */
  ghost predicate Covers(ids: set<nat>, n: nat)
  {
    forall i: nat :: i in ids <==> i < n
  }

  /** `ids` are exactly the indices from `lo` up to (not including) `hi`. */
  ghost predicate Span(ids: set<nat>, lo: nat, hi: nat)
  {
    forall i: nat :: i in ids <==> lo <= i < hi
  }

  function RootSet(s: Shape): set<nat>
  {
    if s.Leaf? then {} else {s.val}
  }

  /** The node a pointer designates, as a set: empty for Null. */
  function PtrSet(p: Ptr): set<nat>
  {
    if p < 0 then {} else {p as nat}
  }

  /**
    The links from `n` down form the shape `s`: `n` is its root node,
    whose parent link is `parent`, and its children are linked the same
    way with `n` as their parent.
   */
  ghost predicate Rep(nodes: seq<RBTNode>, n: Ptr, parent: Ptr, s: Shape)
    decreases s
  {
    match s
    case Leaf => n == Null
    case Node(l, id, r) =>
      n == id && id < |nodes| && nodes[id].parent == parent &&
      Rep(nodes, nodes[id].left, id, l) && Rep(nodes, nodes[id].right, id, r)
  }

  /** Colour and key of an arena node (indices outside the arena never occur in a represented shape). */
  ghost function EntryOf(nodes: seq<RBTNode>, id: nat): Entry
  {
    if id < |nodes| then Entry(nodes[id].color, nodes[id].data) else Entry(Black, 0)
  }

  /** The value-level tree that the nodes of shape `s` hold. */
  ghost function AbsOf(nodes: seq<RBTNode>, s: Shape): RBTree
  {
    match s
    case Leaf => Leaf
    case Node(l, id, r) => Node(AbsOf(nodes, l), EntryOf(nodes, id), AbsOf(nodes, r))
  }

  ghost predicate SameLinks(m: RBTNode, n: RBTNode)
  {
    m.left == n.left && m.right == n.right && m.parent == n.parent
  }

  /** `a` and `b` hold the same links at every index in `ids`. */
  ghost predicate LinksAgree(a: seq<RBTNode>, b: seq<RBTNode>, ids: set<nat>)
  {
    forall i :: i in ids ==> i < |a| && i < |b| && SameLinks(a[i], b[i])
  }

  /** `a` and `b` hold the same colour and key at every index in `ids`. */
  ghost predicate EntriesAgree(a: seq<RBTNode>, b: seq<RBTNode>, ids: set<nat>)
  {
    forall i :: i in ids ==> EntryOf(a, i) == EntryOf(b, i)
  }

  /** Only links differ between `a` and `b`: same length, keys, colours and flags. */
  ghost predicate SameEntries(a: seq<RBTNode>, b: seq<RBTNode>)
  {
    |a| == |b| &&
    forall i :: 0 <= i < |a| ==> a[i].data == b[i].data && a[i].color == b[i].color && a[i].isNullNode == b[i].isNullNode
  }

  /** Every node of `a` except those in `changed` keeps its links in `b`. */
  ghost predicate LinksKeptExcept(a: seq<RBTNode>, b: seq<RBTNode>, changed: set<int>)
  {
    |a| == |b| && forall i :: 0 <= i < |a| && i !in changed ==> SameLinks(a[i], b[i])
  }

  /** The parent link the node at position `q` of `s` must hold, when the root's is `p`. */
  ghost function ParentPtr(s: Shape, q: seq<Dir>, p: Ptr): Ptr
    requires IsPos(s, q)
    decreases q
  {
    if q == [] then p else ParentPtr(Child(s, q[0]), q[1..], s.val)
  }

  // ---------------------------------------------------------------------
  // Member functions of RedBlackTree that only look at the nodes

  /** IsLeftChild: the node has a parent whose left link is the node. */
  function IsLeftChild(nodes: seq<RBTNode>, n: Ptr): bool
    requires 0 <= n < |nodes| && -1 <= nodes[n].parent < |nodes|
  {
    nodes[n].parent != Null && nodes[nodes[n].parent].left == n
  }

  /** IsRightChild: the node has a parent whose right link is the node. */
  function IsRightChild(nodes: seq<RBTNode>, n: Ptr): bool
    requires 0 <= n < |nodes| && -1 <= nodes[n].parent < |nodes|
  {
    nodes[n].parent != Null && nodes[nodes[n].parent].right == n
  }

  /** GetNodeString: the empty string for nullptr, otherwise the node's token. */
  function GetNodeString(nodes: seq<RBTNode>, n: Ptr): string
    requires n == Null || 0 <= n < |nodes|
  {
    if n == Null then "" else Token(Entry(nodes[n].color, nodes[n].data))
  }

  /** The static ToInfixString(n): left subtree, node, right subtree. */
  function InfixFrom(nodes: seq<RBTNode>, n: Ptr, ghost p: Ptr, ghost s: Shape): (r: string)
    requires Rep(nodes, n, p, s)
    ensures r == InfixString(AbsOf(nodes, s))
    decreases s
  {
    if n == Null then ""
    else InfixFrom(nodes, nodes[n].left, n, s.left) + GetNodeString(nodes, n) + InfixFrom(nodes, nodes[n].right, n, s.right)
  }

  /** The static ToPrefixString(n): node, left subtree, right subtree. */
  function PrefixFrom(nodes: seq<RBTNode>, n: Ptr, ghost p: Ptr, ghost s: Shape): (r: string)
    requires Rep(nodes, n, p, s)
    ensures r == PrefixString(AbsOf(nodes, s))
    decreases s
  {
    if n == Null then ""
    else GetNodeString(nodes, n) + PrefixFrom(nodes, nodes[n].left, n, s.left) + PrefixFrom(nodes, nodes[n].right, n, s.right)
  }

  /** The static ToPostfixString(n): left subtree, right subtree, node. */
  function PostfixFrom(nodes: seq<RBTNode>, n: Ptr, ghost p: Ptr, ghost s: Shape): (r: string)
    requires Rep(nodes, n, p, s)
    ensures r == PostfixString(AbsOf(nodes, s))
    decreases s
  {
    if n == Null then ""
    else PostfixFrom(nodes, nodes[n].left, n, s.left) + PostfixFrom(nodes, nodes[n].right, n, s.right) + GetNodeString(nodes, n)
  }

  // ---------------------------------------------------------------------
  // Lemmas: what a change to the arena does not change

  /** Links elsewhere do not matter to a represented subtree. */
  lemma {:induction false} RepFrame(a: seq<RBTNode>, b: seq<RBTNode>, n: Ptr, p: Ptr, s: Shape)
    requires Rep(a, n, p, s) && LinksAgree(a, b, Elems(s))
    ensures Rep(b, n, p, s)
    decreases s
  {
    match s
    case Leaf =>
    case Node(l, id, r) =>
      RepFrame(a, b, a[id].left, id, l);
      RepFrame(a, b, a[id].right, id, r);
  }

  /** Colours and keys elsewhere do not matter to a subtree's value. */
  lemma {:induction false} AbsFrame(a: seq<RBTNode>, b: seq<RBTNode>, s: Shape)
    requires EntriesAgree(a, b, Elems(s))
    ensures AbsOf(a, s) == AbsOf(b, s)
    decreases s
  {
    match s
    case Leaf =>
    case Node(l, id, r) =>
      AbsFrame(a, b, l);
      AbsFrame(a, b, r);
  }

  lemma {:induction false} RepInArena(nodes: seq<RBTNode>, n: Ptr, p: Ptr, s: Shape)
    requires Rep(nodes, n, p, s)
    ensures forall i :: i in Elems(s) ==> i < |nodes|
    decreases s
  {
    match s
    case Leaf =>
    case Node(l, id, r) =>
      RepInArena(nodes, nodes[id].left, id, l);
      RepInArena(nodes, nodes[id].right, id, r);
  }

  // ---------------------------------------------------------------------
  // Lemmas: navigating a represented shape

  /** The node at any position is represented with its parent link. */
  lemma {:induction false} RepAt(nodes: seq<RBTNode>, s: Shape, p: Ptr, q: seq<Dir>)
    requires Rep(nodes, RootPtr(s), p, s) && IsPos(s, q)
    ensures Rep(nodes, RootPtr(At(s, q)), ParentPtr(s, q, p), At(s, q))
    decreases q
  {
    if q != [] {
      RepAt(nodes, Child(s, q[0]), s.val, q[1..]);
    }
  }

  /** The parent link of a child position is its parent's index. */
  lemma {:induction false} ParentPtrChild(s: Shape, q: seq<Dir>, p: Ptr, d: Dir)
    requires At(s, q).Node?
    ensures IsPos(s, q + [d]) && ParentPtr(s, q + [d], p) == At(s, q).val
    decreases q
  {
    NodeIsPos(s, q, d);
    if q == [] {
      assert ([d])[1..] == [];
    } else {
      assert (q + [d])[0] == q[0] && (q + [d])[1..] == q[1..] + [d];
      ParentPtrChild(Child(s, q[0]), q[1..], s.val, d);
    }
  }

  /** Following a path in the shape and in the value-level tree agree. */
  lemma {:induction false} AbsAt(nodes: seq<RBTNode>, s: Shape, q: seq<Dir>)
    ensures At(AbsOf(nodes, s), q) == AbsOf(nodes, At(s, q))
    decreases q
  {
    if q != [] && s.Node? {
      AbsAt(nodes, Child(s, q[0]), q[1..]);
    }
  }

  lemma {:induction false} AbsReplace(nodes: seq<RBTNode>, s: Shape, q: seq<Dir>, x: Shape)
    ensures AbsOf(nodes, ReplaceAt(s, q, x)) == ReplaceAt(AbsOf(nodes, s), q, AbsOf(nodes, x))
    decreases q
  {
    if q != [] && s.Node? {
      AbsReplace(nodes, Child(s, q[0]), q[1..], x);
    }
  }

  lemma AbsRotateLeft(nodes: seq<RBTNode>, s: Shape)
    requires s.Node? && s.right.Node?
    ensures AbsOf(nodes, s).Node? && AbsOf(nodes, s).right.Node?
    ensures AbsOf(nodes, RotateLeft(s)) == RotateLeft(AbsOf(nodes, s))
  {
  }

  lemma AbsRotateRight(nodes: seq<RBTNode>, s: Shape)
    requires s.Node? && s.left.Node?
    ensures AbsOf(nodes, s).Node? && AbsOf(nodes, s).left.Node?
    ensures AbsOf(nodes, RotateRight(s)) == RotateRight(AbsOf(nodes, s))
  {
  }

  /** A node below the root is not the root. */
  lemma BelowRoot(s: Shape, q: seq<Dir>)
    requires Distinct(s) && q != [] && At(s, q).Node?
    ensures At(s, q).val != s.val
  {
    var c := Child(s, q[0]);
    ElemsAt(c, q[1..]);
  }

  /** IsLeftChild and IsRightChild tell the last step of the node's path. */
  lemma ChildSide(nodes: seq<RBTNode>, s: Shape, q: seq<Dir>, d: Dir)
    requires Rep(nodes, RootPtr(s), Null, s) && Distinct(s) && At(s, q).Node? && At(s, q + [d]).Node?
    ensures var n := At(s, q + [d]).val;
      n < |nodes| && nodes[n].parent == At(s, q).val && 0 <= nodes[n].parent < |nodes| &&
      IsLeftChild(nodes, n) == (d == L) && IsRightChild(nodes, n) == (d == R)
  {
    AtStep(s, q, d);
    var sq := At(s, q);
    NodeIsPos(s, q, d);
    RepAt(nodes, s, Null, q);
    RepAt(nodes, s, Null, q + [d]);
    ParentPtrChild(s, q, Null, d);
    DistinctAt(s, q);
    var sib := Child(sq, Opp(d));
    assert sq.val !in Elems(sib);
    assert Child(sq, d).val !in Elems(sib);
  }

  /** The root has no parent, so it is neither a left nor a right child. */
  lemma RootSide(nodes: seq<RBTNode>, s: Shape)
    requires Rep(nodes, RootPtr(s), Null, s) && s.Node?
    ensures !IsLeftChild(nodes, s.val) && !IsRightChild(nodes, s.val)
  {
  }

  // ---------------------------------------------------------------------
  // Lemmas: changing a few nodes

  /** Recolouring one node paints that node in the value-level tree and nothing else. */
  lemma {:induction false} AbsRecolor(a: seq<RBTNode>, s: Shape, q: seq<Dir>, c: Color)
    requires Distinct(s) && At(s, q).Node? && At(s, q).val < |a|
    ensures AbsOf(SetColor(a, At(s, q).val, c), s) == ReplaceAt(AbsOf(a, s), q, Paint(AbsOf(a, At(s, q)), c))
    decreases q
  {
    var id := At(s, q).val;
    var b := SetColor(a, id, c);
    if q == [] {
      AbsFrame(a, b, s.left);
      AbsFrame(a, b, s.right);
    } else {
      var d := q[0];
      BelowRoot(s, q);
      ElemsAt(Child(s, d), q[1..]);
      AbsFrame(a, b, Child(s, Opp(d)));
      AbsRecolor(a, Child(s, d), q[1..], c);
    }
  }

  /**
    Relinking below the node at position `q`: if `b` keeps the links of
    every node outside the subtree at `q + [d]` except the node at `q`,
    that node keeps its parent and other child and now links to the root
    of the new subtree `x` on side `d`, and `x` is represented in `b`
    below it, then `b` represents the tree with `x` spliced in.
   */
  lemma {:induction false} RepSplice(a: seq<RBTNode>, b: seq<RBTNode>, s: Shape, p: Ptr, q: seq<Dir>, d: Dir, x: Shape)
    requires Rep(a, RootPtr(s), p, s) && Distinct(s) && At(s, q).Node?
    requires LinksAgree(a, b, Elems(s) - Elems(At(s, q + [d])) - {At(s, q).val})
    requires var n := At(s, q).val;
      n < |a| && n < |b| && b[n].parent == a[n].parent &&
      (if d == L then b[n].left == RootPtr(x) && b[n].right == a[n].right
       else b[n].right == RootPtr(x) && b[n].left == a[n].left)
    requires Rep(b, RootPtr(x), At(s, q).val, x)
    ensures Rep(b, RootPtr(s), p, ReplaceAt(s, q + [d], x))
    decreases q
  {
    if q == [] {
      assert q + [d] == [d] && ([d])[1..] == [];
      var other := Child(s, Opp(d));
      assert At(s, q + [d]) == Child(s, d);
      assert Elems(Child(s, d)) !! Elems(other);
      assert Rep(a, if d == L then a[s.val].right else a[s.val].left, s.val, other);
      LinksAgreeSub(a, b, Elems(s) - Elems(At(s, q + [d])) - {At(s, q).val}, Elems(other));
      RepFrame(a, b, if d == L then a[s.val].right else a[s.val].left, s.val, other);
    } else {
      var e := q[0];
      var c := Child(s, e);
      var other := Child(s, Opp(e));
      var ids := Elems(s) - Elems(At(s, q + [d])) - {At(s, q).val};
      SpliceStep(s, q, d);
      assert s.val in ids;
      LinksAgreeSub(a, b, ids, Elems(other));
      RepFrame(a, b, if e == L then a[s.val].right else a[s.val].left, s.val, other);
      LinksAgreeSub(a, b, ids, Elems(c) - Elems(At(c, q[1..] + [d])) - {At(c, q[1..]).val});
      RepSplice(a, b, c, s.val, q[1..], d, x);
      assert ReplaceAt(s, q + [d], x) == if e == L then Node(ReplaceAt(c, q[1..] + [d], x), s.val, s.right)
        else Node(s.left, s.val, ReplaceAt(c, q[1..] + [d], x));
    }
  }

  lemma LinksAgreeSub(a: seq<RBTNode>, b: seq<RBTNode>, ids: set<nat>, sub: set<nat>)
    requires LinksAgree(a, b, ids) && sub <= ids
    ensures LinksAgree(a, b, sub)
  {
  }

  /** The facts RepSplice needs to descend one step. */
  lemma SpliceStep(s: Shape, q: seq<Dir>, d: Dir)
    requires Distinct(s) && q != [] && At(s, q).Node?
    ensures s.Node?
    ensures var c := Child(s, q[0]);
      At(c, q[1..]) == At(s, q) && At(c, q[1..] + [d]) == At(s, q + [d]) &&
      (q + [d])[0] == q[0] && (q + [d])[1..] == q[1..] + [d] &&
      Elems(c) <= Elems(s) && Elems(Child(s, Opp(q[0]))) <= Elems(s) &&
      Elems(Child(s, Opp(q[0]))) !! Elems(c) &&
      s.val !in Elems(c) && s.val !in Elems(Child(s, Opp(q[0]))) &&
      s.val != At(s, q).val && Elems(At(s, q + [d])) <= Elems(c) && At(s, q).val in Elems(c)
  {
    var e := q[0];
    var c := Child(s, e);
    assert (q + [d])[0] == e && (q + [d])[1..] == q[1..] + [d];
    AtChild(s, q, d);
    BelowRoot(s, q);
    ElemsAt(c, q[1..] + [d]);
    ElemsAt(c, q[1..]);
  }

  /**
    The links a LeftRotate leaves behind: `y`, the right child of `x`,
    takes `x`'s parent; `x` becomes `y`'s left child; `y`'s old left
    subtree becomes `x`'s right subtree.
   */
  lemma RotateLeftLinks(a: seq<RBTNode>, b: seq<RBTNode>, sx: Shape, p: Ptr)
    requires Rep(a, RootPtr(sx), p, sx) && Distinct(sx) && sx.Node? && sx.right.Node?
    requires var x, y, beta := sx.val, sx.right.val, RootPtr(sx.right.left);
      LinksAgree(a, b, Elems(sx) - {x, y} - RootSet(sx.right.left)) &&
      x < |a| && y < |a| && x < |b| && y < |b| &&
      b[x].left == a[x].left && b[x].right == beta && b[x].parent == y &&
      b[y].left == x && b[y].right == a[y].right && b[y].parent == p &&
      (beta != Null ==> 0 <= beta < |a| && beta < |b| && b[beta].left == a[beta].left && b[beta].right == a[beta].right && b[beta].parent == x)
    ensures Rep(b, RootPtr(RotateLeft(sx)), p, RotateLeft(sx))
  {
    var alpha, x, beta, y, gamma := sx.left, sx.val, sx.right.left, sx.right.val, sx.right.right;
    var ids := Elems(sx) - {x, y} - RootSet(beta);
    assert Rep(a, y, x, sx.right);
    assert Distinct(sx.right);
    assert Elems(alpha) <= ids;
    assert Elems(gamma) <= ids;
    LinksAgreeSub(a, b, ids, Elems(alpha));
    LinksAgreeSub(a, b, ids, Elems(gamma));
    RepFrame(a, b, a[x].left, x, alpha);
    RepFrame(a, b, a[y].right, y, gamma);
    if beta.Node? {
      assert Rep(a, a[y].left, y, beta);
      assert Distinct(beta);
      assert Elems(beta.left) <= ids && Elems(beta.right) <= ids;
      LinksAgreeSub(a, b, ids, Elems(beta.left));
      LinksAgreeSub(a, b, ids, Elems(beta.right));
      RepFrame(a, b, a[beta.val].left, beta.val, beta.left);
      RepFrame(a, b, a[beta.val].right, beta.val, beta.right);
    }
  }

  /** The mirror image of RotateLeftLinks. */
  lemma RotateRightLinks(a: seq<RBTNode>, b: seq<RBTNode>, sx: Shape, p: Ptr)
    requires Rep(a, RootPtr(sx), p, sx) && Distinct(sx) && sx.Node? && sx.left.Node?
    requires var x, y, beta := sx.val, sx.left.val, RootPtr(sx.left.right);
      LinksAgree(a, b, Elems(sx) - {x, y} - RootSet(sx.left.right)) &&
      x < |a| && y < |a| && x < |b| && y < |b| &&
      b[x].right == a[x].right && b[x].left == beta && b[x].parent == y &&
      b[y].right == x && b[y].left == a[y].left && b[y].parent == p &&
      (beta != Null ==> 0 <= beta < |a| && beta < |b| && b[beta].left == a[beta].left && b[beta].right == a[beta].right && b[beta].parent == x)
    ensures Rep(b, RootPtr(RotateRight(sx)), p, RotateRight(sx))
  {
    var alpha, y, beta, x, gamma := sx.left.left, sx.left.val, sx.left.right, sx.val, sx.right;
    var ids := Elems(sx) - {x, y} - RootSet(beta);
    assert Rep(a, y, x, sx.left);
    assert Distinct(sx.left);
    assert Elems(alpha) <= ids;
    assert Elems(gamma) <= ids;
    LinksAgreeSub(a, b, ids, Elems(alpha));
    LinksAgreeSub(a, b, ids, Elems(gamma));
    RepFrame(a, b, a[y].left, y, alpha);
    RepFrame(a, b, a[x].right, x, gamma);
    if beta.Node? {
      assert Rep(a, a[y].right, y, beta);
      assert Distinct(beta);
      assert Elems(beta.left) <= ids && Elems(beta.right) <= ids;
      LinksAgreeSub(a, b, ids, Elems(beta.left));
      LinksAgreeSub(a, b, ids, Elems(beta.right));
      RepFrame(a, b, a[beta.val].left, beta.val, beta.left);
      RepFrame(a, b, a[beta.val].right, beta.val, beta.right);
    }
  }

  /** The links around the node at position `q`, as Rep fixes them. */
  lemma NodeLinks(a: seq<RBTNode>, s: Shape, q: seq<Dir>)
    requires Rep(a, RootPtr(s), Null, s) && At(s, q).Node?
    ensures IsPos(s, q)
    ensures var n := At(s, q).val;
      n < |a| && a[n].left == RootPtr(At(s, q + [L])) && a[n].right == RootPtr(At(s, q + [R])) &&
      a[n].parent == ParentPtr(s, q, Null) &&
      (a[n].left != Null ==> a[n].left < |a|) && (a[n].right != Null ==> a[n].right < |a|)
  {
    NodeIsPos(s, q, L);
    RepAt(a, s, Null, q);
    AtChild(s, q, L);
    AtChild(s, q, R);
  }

  /** The parent link of a node below the root is its parent's index; the root's is Null. */
  lemma ParentLink(a: seq<RBTNode>, s: Shape, q: seq<Dir>, d: Dir)
    requires Rep(a, RootPtr(s), Null, s) && At(s, q).Node? && At(s, q + [d]).Node?
    ensures At(s, q + [d]).val < |a| && a[At(s, q + [d]).val].parent == At(s, q).val
  {
    ParentPtrChild(s, q, Null, d);
    NodeLinks(a, s, q + [d]);
  }

  lemma RootLink(a: seq<RBTNode>, s: Shape)
    requires Rep(a, RootPtr(s), Null, s) && s.Node?
    ensures s.val < |a| && a[s.val].parent == Null
  {
  }

  /**
    The arena `b` is `a` after LeftRotate's edits at `x`: its right child
    `y` takes x's place under x's parent `up` (or none), `x` becomes y's
    left child and takes y's old left subtree `beta`; no other node changes.
   */
  ghost predicate LeftRotated(a: seq<RBTNode>, b: seq<RBTNode>, x: Ptr, y: Ptr, beta: Ptr, up: Ptr)
    requires 0 <= x < |a| && 0 <= y < |a| && (beta != Null ==> 0 <= beta < |a|) && -1 <= up < |a|
  {
    |b| == |a| &&
    (forall i :: 0 <= i < |a| && i != x && i != y && i != beta && i != up ==> b[i] == a[i]) &&
    b[x] == a[x].(right := beta, parent := y) && b[y] == a[y].(left := x, parent := up) &&
    (beta != Null ==> b[beta] == a[beta].(parent := x)) &&
    (up != Null ==> b[up] == if a[up].left == x then a[up].(left := y) else a[up].(right := y))
  }

  /**
    The arena edits LeftRotate makes, one at a time (b1 .. b4, then b), leave
    the links LeftRotated describes.
   */
  lemma LeftRotateEdits(a: seq<RBTNode>, b1: seq<RBTNode>, b2: seq<RBTNode>, b3: seq<RBTNode>, b4: seq<RBTNode>, b: seq<RBTNode>,
                        x: Ptr, y: Ptr, beta: Ptr, up: Ptr)
    requires 0 <= x < |a| && 0 <= y < |a| && (beta != Null ==> 0 <= beta < |a|) && -1 <= up < |a|
    requires x != y && beta != x && beta != y && up != x && up != y && (up != Null ==> up != beta)
    requires b1 == SetRight(a, x, beta)
    requires b2 == if beta != Null then SetParent(b1, beta, x) else b1
    requires b3 == SetParent(b2, y, up)
    requires b4 == if up == Null then b3 else if a[up].left == x then SetLeft(b3, up, y) else SetRight(b3, up, y)
    requires b == SetParent(SetLeft(b4, y, x), x, y)
    ensures LeftRotated(a, b, x, y, beta, up)
  {
  }

  /** The mirror image of LeftRotateEdits. */
  lemma RightRotateEdits(a: seq<RBTNode>, b1: seq<RBTNode>, b2: seq<RBTNode>, b3: seq<RBTNode>, b4: seq<RBTNode>, b: seq<RBTNode>,
                         x: Ptr, y: Ptr, beta: Ptr, up: Ptr)
    requires 0 <= x < |a| && 0 <= y < |a| && (beta != Null ==> 0 <= beta < |a|) && -1 <= up < |a|
    requires x != y && beta != x && beta != y && up != x && up != y && (up != Null ==> up != beta)
    requires b1 == SetLeft(a, x, beta)
    requires b2 == if beta != Null then SetParent(b1, beta, x) else b1
    requires b3 == SetParent(b2, y, up)
    requires b4 == if up == Null then b3 else if a[up].right == x then SetRight(b3, up, y) else SetLeft(b3, up, y)
    requires b == SetParent(SetRight(b4, y, x), x, y)
    ensures RightRotated(a, b, x, y, beta, up)
  {
  }

  /** The mirror image of LeftRotated, for RightRotate. */
  ghost predicate RightRotated(a: seq<RBTNode>, b: seq<RBTNode>, x: Ptr, y: Ptr, beta: Ptr, up: Ptr)
    requires 0 <= x < |a| && 0 <= y < |a| && (beta != Null ==> 0 <= beta < |a|) && -1 <= up < |a|
  {
    |b| == |a| &&
    (forall i :: 0 <= i < |a| && i != x && i != y && i != beta && i != up ==> b[i] == a[i]) &&
    b[x] == a[x].(left := beta, parent := y) && b[y] == a[y].(right := x, parent := up) &&
    (beta != Null ==> b[beta] == a[beta].(parent := x)) &&
    (up != Null ==> b[up] == if a[up].right == x then a[up].(right := y) else a[up].(left := y))
  }

  /**
    LeftRotate at the node `x` at position `q`, from the links it leaves:
    `y` (x's right child) and `beta` (y's left subtree's root, maybe Null)
    are relinked as RotateLeftLinks says, x's old parent (if any) now
    points to `y` where it pointed to `x`, and `r` is the root pointer.
    The arena then represents the shape rotated at `q`, with the same
    values rotated at `q`.
   */
  lemma RotateLeftAt(a: seq<RBTNode>, b: seq<RBTNode>, s: Shape, s': Shape, q: seq<Dir>, r: Ptr, x: Ptr, y: Ptr, beta: Ptr, up: Ptr)
    requires Rep(a, RootPtr(s), Null, s) && Distinct(s) && At(s, q).Node? && At(s, q).right.Node?
    requires x == At(s, q).val && y == At(s, q).right.val && beta == RootPtr(At(s, q).right.left)
    requires 0 <= x < |a| && 0 <= y < |a| && (beta != Null ==> 0 <= beta < |a|) && up == a[x].parent && -1 <= up < |a|
    requires LeftRotated(a, b, x, y, beta, up)
    requires up == Null ==> r == y
    requires up != Null ==> r == RootPtr(s)
    ensures At(AbsOf(a, s), q).Node? && At(AbsOf(a, s), q).right.Node?
    requires s' == ReplaceAt(s, q, RotateLeft(At(s, q)))
    ensures SameEntries(a, b)
    ensures Rep(b, r, Null, s') && Distinct(s') && Elems(s') == Elems(s)
    ensures AbsOf(b, s') == ReplaceAt(AbsOf(a, s), q, RotateLeft(At(AbsOf(a, s), q)))
  {
    var sx := At(s, q);
    var rot := RotateLeft(sx);
    RotateLeftSubtree(a, b, s, q, x, y, beta, up);
    NodeIsPos(s, q, L);
    DistinctAt(s, q);
    ElemsAt(s, q);
    InfixRotateLeft(sx);
    DistinctRotateLeft(sx);
    DistinctReplace(s, q, rot);
    ElemsReplace(s, q, rot);
    if q == [] {
      assert up == Null;
    } else {
      SpliceLeft(a, b, s, q, rot, up);
      ReplaceKeepsRoot(s, q, rot);
    }
    AbsRotation(a, b, s, s', q, rot);
    AbsRotateLeft(a, sx);
    AbsAt(a, s, q);
  }

  /** The subtree part of RotateLeftAt: the relinked nodes represent the rotated subtree under `up`. */
  lemma RotateLeftSubtree(a: seq<RBTNode>, b: seq<RBTNode>, s: Shape, q: seq<Dir>, x: Ptr, y: Ptr, beta: Ptr, up: Ptr)
    requires Rep(a, RootPtr(s), Null, s) && Distinct(s) && At(s, q).Node? && At(s, q).right.Node?
    requires x == At(s, q).val && y == At(s, q).right.val && beta == RootPtr(At(s, q).right.left)
    requires 0 <= x < |a| && 0 <= y < |a| && (beta != Null ==> 0 <= beta < |a|) && up == a[x].parent && -1 <= up < |a|
    requires LeftRotated(a, b, x, y, beta, up)
    ensures SameEntries(a, b) && Rep(b, y, up, RotateLeft(At(s, q)))
    ensures x < |a| == |b| && (up != Null ==> 0 <= up)
    ensures LinksAgree(a, b, Elems(s) - Elems(At(s, q)) - PtrSet(up))
  {
    var sx := At(s, q);
    RotateSetup(a, s, q, R);
    RotationEdits(a, b, R, x, y, beta, up);
    NodeIsPos(s, q, L);
    RepAt(a, s, Null, q);
    DistinctAt(s, q);
    ElemsAt(s, q);
    assert Rep(a, y, x, sx.right);
    assert up !in Elems(sx) by {
      if up != Null {
        ParentOutside(a, s, q);
      }
    }
    RepInArena(a, x, up, sx);
    assert LinksAgree(a, b, Elems(sx) - {sx.val, sx.right.val} - RootSet(sx.right.left));
    RotateLeftLinks(a, b, sx, up);
    RepInArena(a, RootPtr(s), Null, s);
  }


  /**
    Hanging a rotated subtree `rot` back under the parent `up` of the
    position `q` it came from (the parent's link that pointed to the old
    subtree root now points to rot's root) gives the whole shape with `rot`
    at `q`.
   */
  lemma SpliceLeft(a: seq<RBTNode>, b: seq<RBTNode>, s: Shape, q: seq<Dir>, rot: Shape, up: Ptr)
    requires Rep(a, RootPtr(s), Null, s) && Distinct(s) && q != [] && At(s, q).Node? && rot.Node?
    requires At(s, q).val < |a| == |b| && up == a[At(s, q).val].parent && -1 <= up < |a|
    requires LinksAgree(a, b, Elems(s) - Elems(At(s, q)) - PtrSet(up))
    requires up != Null ==> b[up] == if a[up].left == At(s, q).val then a[up].(left := rot.val) else a[up].(right := rot.val)
    requires Rep(b, rot.val, up, rot)
    ensures up != Null && Rep(b, RootPtr(s), Null, ReplaceAt(s, q, rot))
  {
    var q0, d := q[..|q| - 1], q[|q| - 1];
    assert q == q0 + [d];
    AtStep(s, q0, d);
    ParentLink(a, s, q0, d);
    ChildSide(a, s, q0, d);
    assert up == At(s, q0).val;
    assert LinksAgree(a, b, Elems(s) - Elems(At(s, q0 + [d])) - {At(s, q0).val});
    RepSplice(a, b, s, Null, q0, d, rot);
  }

  /** SpliceLeft for RightRotate, whose relinking tests the parent's right link first. */
  lemma SpliceRight(a: seq<RBTNode>, b: seq<RBTNode>, s: Shape, q: seq<Dir>, rot: Shape, up: Ptr)
    requires Rep(a, RootPtr(s), Null, s) && Distinct(s) && q != [] && At(s, q).Node? && rot.Node?
    requires At(s, q).val < |a| == |b| && up == a[At(s, q).val].parent && -1 <= up < |a|
    requires LinksAgree(a, b, Elems(s) - Elems(At(s, q)) - PtrSet(up))
    requires up != Null ==> b[up] == if a[up].right == At(s, q).val then a[up].(right := rot.val) else a[up].(left := rot.val)
    requires Rep(b, rot.val, up, rot)
    ensures up != Null && Rep(b, RootPtr(s), Null, ReplaceAt(s, q, rot))
  {
    var q0, d := q[..|q| - 1], q[|q| - 1];
    assert q == q0 + [d];
    AtStep(s, q0, d);
    ParentLink(a, s, q0, d);
    ChildSide(a, s, q0, d);
    assert up == At(s, q0).val;
    assert LinksAgree(a, b, Elems(s) - Elems(At(s, q0 + [d])) - {At(s, q0).val});
    RepSplice(a, b, s, Null, q0, d, rot);
  }

  /** Relinking that keeps every entry and the set of nodes keeps the abstraction, with the new subtree at `q`. */
  lemma AbsRotation(a: seq<RBTNode>, b: seq<RBTNode>, s: Shape, s': Shape, q: seq<Dir>, rot: Shape)
    requires Rep(a, RootPtr(s), Null, s) && SameEntries(a, b) && s' == ReplaceAt(s, q, rot) && Elems(s') == Elems(s)
    ensures AbsOf(b, s') == ReplaceAt(AbsOf(a, s), q, AbsOf(a, rot))
  {
    RepInArena(a, RootPtr(s), Null, s);
    AbsFrame(a, b, s');
    AbsReplace(a, s, q, rot);
  }

  /** The mirror image of RotateLeftAt. */
  lemma RotateRightAt(a: seq<RBTNode>, b: seq<RBTNode>, s: Shape, s': Shape, q: seq<Dir>, r: Ptr, x: Ptr, y: Ptr, beta: Ptr, up: Ptr)
    requires Rep(a, RootPtr(s), Null, s) && Distinct(s) && At(s, q).Node? && At(s, q).left.Node?
    requires x == At(s, q).val && y == At(s, q).left.val && beta == RootPtr(At(s, q).left.right)
    requires 0 <= x < |a| && 0 <= y < |a| && (beta != Null ==> 0 <= beta < |a|) && up == a[x].parent && -1 <= up < |a|
    requires RightRotated(a, b, x, y, beta, up)
    requires up == Null ==> r == y
    requires up != Null ==> r == RootPtr(s)
    ensures At(AbsOf(a, s), q).Node? && At(AbsOf(a, s), q).left.Node?
    requires s' == ReplaceAt(s, q, RotateRight(At(s, q)))
    ensures SameEntries(a, b)
    ensures Rep(b, r, Null, s') && Distinct(s') && Elems(s') == Elems(s)
    ensures AbsOf(b, s') == ReplaceAt(AbsOf(a, s), q, RotateRight(At(AbsOf(a, s), q)))
  {
    var sx := At(s, q);
    var rot := RotateRight(sx);
    RotateRightSubtree(a, b, s, q, x, y, beta, up);
    NodeIsPos(s, q, L);
    DistinctAt(s, q);
    ElemsAt(s, q);
    InfixRotateRight(sx);
    DistinctRotateRight(sx);
    DistinctReplace(s, q, rot);
    ElemsReplace(s, q, rot);
    if q == [] {
      assert up == Null;
    } else {
      SpliceRight(a, b, s, q, rot, up);
      ReplaceKeepsRoot(s, q, rot);
    }
    AbsRotation(a, b, s, s', q, rot);
    AbsRotateRight(a, sx);
    AbsAt(a, s, q);
  }

  /** The subtree part of RotateRightAt: the relinked nodes represent the rotated subtree under `up`. */
  lemma RotateRightSubtree(a: seq<RBTNode>, b: seq<RBTNode>, s: Shape, q: seq<Dir>, x: Ptr, y: Ptr, beta: Ptr, up: Ptr)
    requires Rep(a, RootPtr(s), Null, s) && Distinct(s) && At(s, q).Node? && At(s, q).left.Node?
    requires x == At(s, q).val && y == At(s, q).left.val && beta == RootPtr(At(s, q).left.right)
    requires 0 <= x < |a| && 0 <= y < |a| && (beta != Null ==> 0 <= beta < |a|) && up == a[x].parent && -1 <= up < |a|
    requires RightRotated(a, b, x, y, beta, up)
    ensures SameEntries(a, b) && Rep(b, y, up, RotateRight(At(s, q)))
    ensures x < |a| == |b| && (up != Null ==> 0 <= up)
    ensures LinksAgree(a, b, Elems(s) - Elems(At(s, q)) - PtrSet(up))
  {
    var sx := At(s, q);
    RotateSetup(a, s, q, L);
    RotationEdits(a, b, L, x, y, beta, up);
    NodeIsPos(s, q, L);
    RepAt(a, s, Null, q);
    DistinctAt(s, q);
    ElemsAt(s, q);
    assert Rep(a, y, x, sx.left);
    assert up !in Elems(sx) by {
      if up != Null {
        ParentOutside(a, s, q);
      }
    }
    RepInArena(a, x, up, sx);
    assert LinksAgree(a, b, Elems(sx) - {sx.val, sx.left.val} - RootSet(sx.left.right));
    RotateRightLinks(a, b, sx, up);
    RepInArena(a, RootPtr(s), Null, s);
  }


  /** A node's parent lies outside the node's subtree. */
  lemma ParentOutside(a: seq<RBTNode>, s: Shape, q: seq<Dir>)
    requires Rep(a, RootPtr(s), Null, s) && Distinct(s) && At(s, q).Node? && At(s, q).val < |a|
    requires a[At(s, q).val].parent != Null
    ensures a[At(s, q).val].parent !in Elems(At(s, q))
  {
    NodeLinks(a, s, q);
    if q == [] {
    } else {
      var q0, d := q[..|q| - 1], q[|q| - 1];
      assert q == q0 + [d];
      AtStep(s, q0, d);
      ParentLink(a, s, q0, d);
      DistinctAt(s, q0);
      var sq := At(s, q0);
      assert sq.val !in Elems(Child(sq, d));
    }
  }

  /**
    BasicInsert's attachment: the fresh node `n` (the last of the arena,
    without links) becomes child `d` of the node at position `q`, where
    there was no child, and takes that node as its parent.
   */
  lemma AttachLeaf(a: seq<RBTNode>, b: seq<RBTNode>, s: Shape, s': Shape, q: seq<Dir>, d: Dir, n: nat)
    requires Rep(a, RootPtr(s), Null, s) && Distinct(s) && At(s, q).Node? && At(s, q + [d]).Leaf?
    requires n + 1 == |a| && Covers(Elems(s), n)
    requires a[n].left == Null && a[n].right == Null
    requires At(s, q).val < |a|
    requires b == SetParent(if d == L then SetLeft(a, At(s, q).val, n) else SetRight(a, At(s, q).val, n), n, At(s, q).val)
    requires s' == ReplaceAt(s, q + [d], Node(Leaf, n, Leaf))
    ensures Rep(b, RootPtr(s), Null, s') && Distinct(s') && Covers(Elems(s'), |a|)
    ensures AbsOf(b, s') == ReplaceAt(AbsOf(a, s), q + [d], Node(Leaf, EntryOf(a, n), Leaf))
  {
    var p := At(s, q).val;
    assert n !in Elems(s);
    ElemsAt(s, q);
    assert p in Elems(s) && p != n;
    AttachRep(a, b, s, q, d, n, p);
    AttachAbs(a, b, s, s', q, d, n);
  }

  lemma AttachRep(a: seq<RBTNode>, b: seq<RBTNode>, s: Shape, q: seq<Dir>, d: Dir, n: nat, p: nat)
    requires Rep(a, RootPtr(s), Null, s) && Distinct(s) && At(s, q).Node? && At(s, q + [d]).Leaf?
    requires n < |a| && n !in Elems(s) && a[n].left == Null && a[n].right == Null
    requires p == At(s, q).val && p < |a| && p != n
    requires |b| == |a| && b[n] == a[n].(parent := p)
    requires b[p] == if d == L then a[p].(left := n) else a[p].(right := n)
    requires forall i :: 0 <= i < |a| && i != p && i != n ==> b[i] == a[i]
    ensures Rep(b, RootPtr(s), Null, ReplaceAt(s, q + [d], Node(Leaf, n, Leaf)))
  {
    var x := Node(Leaf, n, Leaf);
    NodeLinks(a, s, q);
    NodeIsPos(s, q, d);
    AtChild(s, q, d);
    RepInArena(a, RootPtr(s), Null, s);
    var ids := Elems(s) - Elems(At(s, q + [d])) - {p};
    forall i | i in ids
      ensures i < |a| && i < |b| && SameLinks(a[i], b[i])
    {
      assert i != p && i != n;
    }
    assert LinksAgree(a, b, ids);
    assert Rep(b, n, p, x);
    RepSplice(a, b, s, Null, q, d, x);
  }

  lemma AttachAbs(a: seq<RBTNode>, b: seq<RBTNode>, s: Shape, s': Shape, q: seq<Dir>, d: Dir, n: nat)
    requires Distinct(s) && At(s, q).Node? && At(s, q + [d]).Leaf?
    requires n + 1 == |a| && Covers(Elems(s), n) && |b| == |a|
    requires forall i :: 0 <= i < |a| ==> b[i].data == a[i].data && b[i].color == a[i].color
    requires s' == ReplaceAt(s, q + [d], Node(Leaf, n, Leaf))
    ensures Distinct(s') && Covers(Elems(s'), |a|)
    ensures AbsOf(b, s') == ReplaceAt(AbsOf(a, s), q + [d], Node(Leaf, EntryOf(a, n), Leaf))
  {
    var x := Node(Leaf, n, Leaf);
    assert n !in Elems(s);
    NodeIsPos(s, q, d);
    ElemsReplace(s, q + [d], x);
    AtChild(s, q, d);
    assert Elems(At(s, q + [d])) == {};
    assert Elems(s') == Elems(s) + {n};
    CoversAdd(Elems(s), n);
    DistinctReplace(s, q + [d], x);
    AbsFrame(a, b, s);
    AbsReplace(b, s, q + [d], x);
  }

  /**
    One step of BasicInsert's descent at the node of position `q`, whose
    key decides the direction `d` (left when `k` is smaller): the link it
    follows on side `d` is the root of the subtree at `q + [d]`, which is
    either absent, so that the model's descent ends at `q + [d]`, or the
    next node on that descent, with a shorter rest to go.
   */
  lemma DescendStep(a: seq<RBTNode>, s: Shape, t: RBTree, q: seq<Dir>, k: int)
    requires Rep(a, RootPtr(s), Null, s) && At(s, q).Node? && t == AbsOf(a, s)
    requires q + DescentPath(AbsOf(a, At(s, q)), k) == DescentPath(t, k)
    ensures At(s, q).val < |a|
    ensures var n := At(s, q).val;
      var d := if k < a[n].data then L else R;
      var c := if d == L then a[n].left else a[n].right;
      (c == Null ==> At(s, q + [d]).Leaf? && DescentPath(t, k) == q + [d]) &&
      (c != Null ==>
         0 <= c < |a| && At(s, q + [d]).Node? && At(s, q + [d]).val == c &&
         (q + [d]) + DescentPath(AbsOf(a, At(s, q + [d])), k) == DescentPath(t, k) &&
         |DescentPath(AbsOf(a, At(s, q + [d])), k)| < |DescentPath(AbsOf(a, At(s, q)), k)|)
  {
    NodeLinks(a, s, q);
    var n := At(s, q).val;
    var d := if k < a[n].data then L else R;
    AtChild(s, q, d);
    NodeIsPos(s, q, d);
    var rest := DescentPath(AbsOf(a, At(s, q + [d])), k);
    assert DescentPath(AbsOf(a, At(s, q)), k) == [d] + rest;
    assert (q + [d]) + rest == q + ([d] + rest);
  }

  /** Where a node sits: the root exactly when its path is empty, else below its parent. */
  lemma Position(a: seq<RBTNode>, s: Shape, q: seq<Dir>)
    requires Rep(a, RootPtr(s), Null, s) && Distinct(s) && At(s, q).Node?
    ensures At(s, q).val < |a|
    ensures At(s, q).val == RootPtr(s) <==> q == []
    ensures q != [] ==> At(s, q[..|q| - 1]).Node?
    ensures q != [] ==> 0 <= a[At(s, q).val].parent < |a| && a[At(s, q).val].parent == At(s, q[..|q| - 1]).val
  {
    NodeLinks(a, s, q);
    if q != [] {
      BelowRoot(s, q);
      var q0, d := q[..|q| - 1], q[|q| - 1];
      assert q == q0 + [d];
      AtStep(s, q0, d);
      ParentLink(a, s, q0, d);
      NodeLinks(a, s, q0);
    }
  }

  /** Colours and keys outside the subtree at `g` are kept: only that subtree's value changes. */
  lemma {:induction false} AbsLocal(a: seq<RBTNode>, b: seq<RBTNode>, s: Shape, g: seq<Dir>)
    requires IsPos(s, g) && Distinct(s)
    requires EntriesAgree(a, b, Elems(s) - Elems(At(s, g)))
    ensures AbsOf(b, s) == ReplaceAt(AbsOf(a, s), g, AbsOf(b, At(s, g)))
    decreases g
  {
    if g != [] {
      var e := g[0];
      var c := Child(s, e);
      ElemsAt(c, g[1..]);
      assert At(s, g) == At(c, g[1..]);
      AbsFrame(a, b, Child(s, Opp(e)));
      AbsLocal(a, b, c, g[1..]);
    }
  }

  /**
    The red-uncle case: both children of the node at `g` painted BLACK (in
    either order) and that node painted RED is Recolor at `g`.
   */
  lemma RecolorAt(a: seq<RBTNode>, s: Shape, g: seq<Dir>, first: nat, second: nat)
    requires Distinct(s) && At(s, g).Node? && At(s, g).left.Node? && At(s, g).right.Node?
    requires {first, second} == {At(s, g).left.val, At(s, g).right.val}
    requires first < |a| && second < |a| && At(s, g).val < |a|
    ensures At(AbsOf(a, s), g) == AbsOf(a, At(s, g))
    ensures AbsOf(SetColor(SetColor(SetColor(a, first, Black), second, Black), At(s, g).val, Red), s) ==
      ReplaceAt(AbsOf(a, s), g, Recolor(At(AbsOf(a, s), g)))
  {
    var b := SetColor(SetColor(SetColor(a, first, Black), second, Black), At(s, g).val, Red);
    AbsAt(a, s, g);
    NodeIsPos(s, g, L);
    DistinctAt(s, g);
    RecolorSubtree(a, b, At(s, g), first, second);
    AbsLocal(a, b, s, g);
  }

  /** The three colour changes of the red-uncle case, on the grandparent's subtree `sg`. */
  lemma RecolorSubtree(a: seq<RBTNode>, b: seq<RBTNode>, sg: Shape, first: nat, second: nat)
    requires Distinct(sg) && sg.Node? && sg.left.Node? && sg.right.Node?
    requires {first, second} == {sg.left.val, sg.right.val}
    requires first < |a| && second < |a| && sg.val < |a|
    requires b == SetColor(SetColor(SetColor(a, first, Black), second, Black), sg.val, Red)
    ensures AbsOf(b, sg) == Recolor(AbsOf(a, sg))
    ensures forall i :: i !in Elems(sg) ==> EntryOf(a, i) == EntryOf(b, i)
  {
    var l, g, r := sg.left, sg.val, sg.right;
    RecolorEntries(a, b, g, l.val, r.val, first, second);
    assert Distinct(l) && Distinct(r);
    assert EntriesAgree(a, b, Elems(l.left) + Elems(l.right) + Elems(r.left) + Elems(r.right));
    AbsFrame(a, b, l.left);
    AbsFrame(a, b, l.right);
    AbsFrame(a, b, r.left);
    AbsFrame(a, b, r.right);
  }

  /** Painting `first` and `second` BLACK and then `g` RED, on three distinct nodes. */
  lemma RecolorEntries(a: seq<RBTNode>, b: seq<RBTNode>, g: nat, pl: nat, pr: nat, first: nat, second: nat)
    requires g != pl && g != pr && pl != pr && {first, second} == {pl, pr}
    requires first < |a| && second < |a| && g < |a|
    requires b == SetColor(SetColor(SetColor(a, first, Black), second, Black), g, Red)
    ensures EntryOf(b, g) == EntryOf(a, g).(color := Red)
    ensures EntryOf(b, pl) == EntryOf(a, pl).(color := Black) && EntryOf(b, pr) == EntryOf(a, pr).(color := Black)
    ensures forall i :: i != g && i != pl && i != pr ==> EntryOf(a, i) == EntryOf(b, i)
  {
  }

  /** The nodes a rotation at `q` touches, toward side `d`, as Rep and Distinct fix them. */
  lemma RotateSetup(a: seq<RBTNode>, s: Shape, q: seq<Dir>, d: Dir)
    requires Rep(a, RootPtr(s), Null, s) && Distinct(s) && At(s, q).Node? && Child(At(s, q), d).Node?
    ensures var sx := At(s, q);
      var x, y, beta := sx.val, Child(sx, d).val, RootPtr(Child(Child(sx, d), Opp(d)));
      x < |a| && y < |a| && (beta != Null ==> 0 <= beta < |a|) &&
      (if d == R then a[x].right == y && a[y].left == beta else a[x].left == y && a[y].right == beta) &&
      -1 <= a[x].parent < |a| && x != y && beta != x && beta != y &&
      a[x].parent != x && a[x].parent != y && (a[x].parent != Null ==> a[x].parent != beta)
  {
    RotateLinks(a, s, q, d);
    RotateDistinct(a, s, q, d);
  }

  /** The links RotateSetup names, read off the shape. */
  lemma RotateLinks(a: seq<RBTNode>, s: Shape, q: seq<Dir>, d: Dir)
    requires Rep(a, RootPtr(s), Null, s) && Distinct(s) && At(s, q).Node? && Child(At(s, q), d).Node?
    ensures var sx := At(s, q);
      var x, y, beta := sx.val, Child(sx, d).val, RootPtr(Child(Child(sx, d), Opp(d)));
      x < |a| && y < |a| && (beta != Null ==> 0 <= beta < |a|) &&
      (if d == R then a[x].right == y && a[y].left == beta else a[x].left == y && a[y].right == beta) &&
      -1 <= a[x].parent < |a|
  {
    NodeLinks(a, s, q);
    AtChild(s, q, d);
    NodeLinks(a, s, q + [d]);
    AtChild(s, q + [d], Opp(d));
    Position(a, s, q);
  }

  /** The nodes RotateSetup names are pairwise distinct, from the shape's distinctness. */
  lemma RotateDistinct(a: seq<RBTNode>, s: Shape, q: seq<Dir>, d: Dir)
    requires Rep(a, RootPtr(s), Null, s) && Distinct(s) && At(s, q).Node? && Child(At(s, q), d).Node?
    ensures var sx := At(s, q);
      var x, y, beta := sx.val, Child(sx, d).val, RootPtr(Child(Child(sx, d), Opp(d)));
      x < |a| && x != y && beta != x && beta != y &&
      a[x].parent != x && a[x].parent != y && (a[x].parent != Null ==> a[x].parent != beta)
  {
    var sx := At(s, q);
    Position(a, s, q);
    DistinctAt(s, q);
    assert Distinct(Child(sx, d));
    if a[sx.val].parent != Null {
      ParentOutside(a, s, q);
    }
  }


  lemma CoversAdd(ids: set<nat>, n: nat)
    requires Covers(ids, n)
    ensures Covers(ids + {n}, n + 1)
  {
  }

  /** An arena covered by a shape with distinct nodes has as many nodes as the shape. */
  lemma {:induction false} CoversCard(ids: set<nat>, n: nat)
    requires Covers(ids, n)
    ensures |ids| == n
    decreases n
  {
    if n > 0 {
      assert n - 1 in ids;
      CoversCard(ids - {n - 1}, n - 1);
    }
  }

  lemma {:induction false} AbsSize(nodes: seq<RBTNode>, s: Shape)
    ensures Size(AbsOf(nodes, s)) == Size(s)
    decreases s
  {
    match s
    case Leaf =>
    case Node(l, _, r) =>
      AbsSize(nodes, l);
      AbsSize(nodes, r);
  }

  /**
    The edits a rotation makes, one record update per touched node (`x`,
    its child `y` on side `d`, y's inner child `beta`, x's parent `up`),
    seen as: same entries, and every other node's links kept.
   */
  lemma RotationEdits(a: seq<RBTNode>, b: seq<RBTNode>, d: Dir, x: Ptr, y: Ptr, beta: Ptr, up: Ptr)
    requires 0 <= x < |a| && 0 <= y < |a| && (beta != Null ==> 0 <= beta < |a|) && -1 <= up < |a|
    requires x != y && beta != x && beta != y && up != x && up != y && (up != Null ==> up != beta)
    requires |b| == |a|
    requires forall i :: 0 <= i < |a| && i != x && i != y && i != beta && i != up ==> b[i] == a[i]
    requires if d == R then b[x] == a[x].(right := beta, parent := y) && b[y] == a[y].(left := x, parent := up)
             else b[x] == a[x].(left := beta, parent := y) && b[y] == a[y].(right := x, parent := up)
    requires beta != Null ==> b[beta] == a[beta].(parent := x)
    requires up != Null ==> b[up] == a[up].(left := y) || b[up] == a[up].(right := y)
    ensures SameEntries(a, b)
    ensures LinksKeptExcept(a, b, {x, y, beta, up})
  {
  }
}
