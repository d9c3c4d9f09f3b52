/**
  Binary trees with a value at every node, addressed by paths of
  left/right steps from the root.  Both the abstract red-black tree
  (values are colour/key entries) and the ghost shape of the node arena
  (values are node indices) are trees of this kind.
 */
module BinaryTrees {

  datatype Dir = L | R

  datatype Tree<A> = Leaf | Node(left: Tree<A>, val: A, right: Tree<A>)

  function Opp(d: Dir): Dir
  {
    if d == L then R else L
  }

  function Child<A>(t: Tree<A>, d: Dir): Tree<A>
    requires t.Node?
  {
    if d == L then t.left else t.right
  }

  /** The subtree reached by following `p` from the root (a leaf once the path leaves the tree). */
  function At<A>(t: Tree<A>, p: seq<Dir>): Tree<A>
    decreases p
  {
    if p == [] then t
    else match t
      case Leaf => Leaf
      case Node(l, _, r) => At(if p[0] == L then l else r, p[1..])
  }

  /** `p` names a position of `t`: a node, or an absent child of a node. */
  predicate IsPos<A>(t: Tree<A>, p: seq<Dir>)
    decreases p
  {
    p == [] || (t.Node? && IsPos(Child(t, p[0]), p[1..]))
  }

  /** `t` with the subtree at position `p` replaced by `s`. */
  function ReplaceAt<A>(t: Tree<A>, p: seq<Dir>, s: Tree<A>): Tree<A>
    decreases p
  {
    if p == [] then s
    else match t
      case Leaf => Leaf
      case Node(l, v, r) =>
        if p[0] == L then Node(ReplaceAt(l, p[1..], s), v, r)
        else Node(l, v, ReplaceAt(r, p[1..], s))
  }

  /** Promote the right child: (a x (b y c)) becomes ((a x b) y c). */
  function RotateLeft<A>(t: Tree<A>): Tree<A>
    requires t.Node? && t.right.Node?
  {
    Node(Node(t.left, t.val, t.right.left), t.right.val, t.right.right)
  }

  /** Promote the left child: ((a y b) x c) becomes (a y (b x c)). */
  function RotateRight<A>(t: Tree<A>): Tree<A>
    requires t.Node? && t.left.Node?
  {
    Node(t.left.left, t.left.val, Node(t.left.right, t.val, t.right))
  }

  function Size<A>(t: Tree<A>): nat
  {
    match t
    case Leaf => 0
    case Node(l, _, r) => Size(l) + 1 + Size(r)
  }

  function Elems<A>(t: Tree<A>): set<A>
  {
    match t
    case Leaf => {}
    case Node(l, v, r) => Elems(l) + {v} + Elems(r)
  }

  /** No value occurs at two nodes. */
  ghost predicate Distinct<A>(t: Tree<A>)
  {
    match t
    case Leaf => true
    case Node(l, v, r) =>
      Distinct(l) && Distinct(r) && v !in Elems(l) && v !in Elems(r) && Elems(l) !! Elems(r)
  }

  /** The values in symmetric (left, node, right) order. */
  function Infix<A>(t: Tree<A>): seq<A>
  {
    match t
    case Leaf => []
    case Node(l, v, r) => Infix(l) + [v] + Infix(r)
  }

  /** The values in (node, left, right) order. */
  function Preorder<A>(t: Tree<A>): seq<A>
  {
    match t
    case Leaf => []
    case Node(l, v, r) => [v] + Preorder(l) + Preorder(r)
  }

  /** The values in (left, right, node) order. */
  function Postorder<A>(t: Tree<A>): seq<A>
  {
    match t
    case Leaf => []
    case Node(l, v, r) => Postorder(l) + Postorder(r) + [v]
  }

  // ---------------------------------------------------------------------
  // Paths

  lemma {:induction false} AtAppend<A>(t: Tree<A>, p: seq<Dir>, q: seq<Dir>)
    ensures At(t, p + q) == At(At(t, p), q)
    decreases p
  {
    if p == [] {
      assert p + q == q;
    } else if t.Node? {
      assert (p + q)[0] == p[0] && (p + q)[1..] == p[1..] + q;
      AtAppend(Child(t, p[0]), p[1..], q);
    }
  }

  lemma {:induction false} ReplaceAtAppend<A>(t: Tree<A>, p: seq<Dir>, q: seq<Dir>, s: Tree<A>)
    ensures ReplaceAt(t, p + q, s) == ReplaceAt(t, p, ReplaceAt(At(t, p), q, s))
    decreases p
  {
    if p == [] {
      assert p + q == q;
    } else if t.Node? {
      assert (p + q)[0] == p[0] && (p + q)[1..] == p[1..] + q;
      ReplaceAtAppend(Child(t, p[0]), p[1..], q, s);
    }
  }

  /** A node path is a position, and so is every extension by one step. */
  lemma {:induction false} NodeIsPos<A>(t: Tree<A>, p: seq<Dir>, d: Dir)
    requires At(t, p).Node?
    ensures IsPos(t, p) && IsPos(t, p + [d])
    decreases p
  {
    if p == [] {
      assert IsPos(Child(t, d), []);
      assert ([d])[1..] == [];
    } else {
      assert (p + [d])[0] == p[0] && (p + [d])[1..] == p[1..] + [d];
      NodeIsPos(Child(t, p[0]), p[1..], d);
    }
  }

  /** The prefix of a node path leads to a node. */
  lemma {:induction false} AtPrefix<A>(t: Tree<A>, p: seq<Dir>, q: seq<Dir>)
    requires At(t, p + q).Node?
    ensures At(t, p).Node?
  {
    AtAppend(t, p, q);
    if At(t, p).Leaf? {
      LeafAt<A>(q);
    }
  }

  lemma {:induction false} LeafAt<A>(q: seq<Dir>)
    ensures At<A>(Leaf, q) == Leaf
  {
    if q != [] {
      LeafAt<A>(q[1..]);
    }
  }

  /** One step down from a node. */
  lemma AtChild<A>(t: Tree<A>, p: seq<Dir>, d: Dir)
    requires At(t, p).Node?
    ensures At(t, p + [d]) == Child(At(t, p), d)
  {
    AtAppend(t, p, [d]);
    assert [d][1..] == [];
  }

  /** A node path goes through a node at every step. */
  lemma AtStep<A>(t: Tree<A>, p: seq<Dir>, d: Dir)
    requires At(t, p + [d]).Node?
    ensures At(t, p).Node? && At(t, p + [d]) == Child(At(t, p), d)
  {
    AtPrefix(t, p, [d]);
    AtChild(t, p, d);
  }

  /** The last two steps of a node path go through two nodes. */
  lemma AtTwoSteps<A>(t: Tree<A>, p: seq<Dir>, a: Dir, b: Dir)
    requires At(t, p + [a, b]).Node?
    ensures At(t, p).Node? && Child(At(t, p), a).Node? && Child(Child(At(t, p), a), b).Node?
    ensures At(t, p + [a]) == Child(At(t, p), a)
    ensures At(t, p + [a, b]) == Child(Child(At(t, p), a), b)
  {
    AtAppend(t, p, [a, b]);
    AtAppend(t, p, [a]);
    AtPrefix(t, p, [a, b]);
    var u := At(t, p);
    assert [a, b][1..] == [b];
    assert [b][1..] == [];
    assert [a][1..] == [];
    assert At(u, [a, b]) == At(Child(u, a), [b]);
    assert At(Child(u, a), [b]) == At(Child(Child(u, a), b), []);
  }

  /** Replacing at a position puts the new subtree there. */
  lemma {:induction false} AtReplace<A>(t: Tree<A>, p: seq<Dir>, s: Tree<A>)
    requires IsPos(t, p)
    ensures At(ReplaceAt(t, p, s), p) == s
    ensures IsPos(ReplaceAt(t, p, s), p)
    decreases p
  {
    if p != [] {
      AtReplace(Child(t, p[0]), p[1..], s);
    }
  }

  /** Replacing a subtree by itself changes nothing. */
  lemma {:induction false} ReplaceAtSelf<A>(t: Tree<A>, p: seq<Dir>)
    ensures ReplaceAt(t, p, At(t, p)) == t
    decreases p
  {
    if p != [] && t.Node? {
      ReplaceAtSelf(Child(t, p[0]), p[1..]);
    }
  }

  /** Replacing below a non-empty path keeps the root value. */
  lemma ReplaceKeepsRoot<A>(t: Tree<A>, p: seq<Dir>, s: Tree<A>)
    requires t.Node? && p != []
    ensures ReplaceAt(t, p, s).Node? && ReplaceAt(t, p, s).val == t.val
  {
  }

  // ---------------------------------------------------------------------
  // Rotations

  /** The two rotations undo each other. */
  lemma RotateRightUndoesLeft<A>(t: Tree<A>)
    requires t.Node? && t.right.Node?
    ensures RotateLeft(t).left.Node?
    ensures RotateRight(RotateLeft(t)) == t
  {
  }

  lemma RotateLeftUndoesRight<A>(t: Tree<A>)
    requires t.Node? && t.left.Node?
    ensures RotateRight(t).right.Node?
    ensures RotateLeft(RotateRight(t)) == t
  {
  }

  /** Rotations keep the symmetric order, and so the values and the size. */
  lemma {:induction false} InfixRotateLeft<A>(t: Tree<A>)
    requires t.Node? && t.right.Node?
    ensures Infix(RotateLeft(t)) == Infix(t)
    ensures Elems(RotateLeft(t)) == Elems(t)
    ensures Size(RotateLeft(t)) == Size(t)
  {
    var a, x, b, y, c := t.left, t.val, t.right.left, t.right.val, t.right.right;
    assert Infix(t) == Infix(a) + [x] + (Infix(b) + [y] + Infix(c));
    assert Infix(RotateLeft(t)) == (Infix(a) + [x] + Infix(b)) + [y] + Infix(c);
  }

  lemma {:induction false} InfixRotateRight<A>(t: Tree<A>)
    requires t.Node? && t.left.Node?
    ensures Infix(RotateRight(t)) == Infix(t)
    ensures Elems(RotateRight(t)) == Elems(t)
    ensures Size(RotateRight(t)) == Size(t)
  {
    var a, y, b, x, c := t.left.left, t.left.val, t.left.right, t.val, t.right;
    assert Infix(t) == (Infix(a) + [y] + Infix(b)) + [x] + Infix(c);
    assert Infix(RotateRight(t)) == Infix(a) + [y] + (Infix(b) + [x] + Infix(c));
  }

  lemma {:induction false} DistinctRotateLeft<A>(t: Tree<A>)
    requires t.Node? && t.right.Node? && Distinct(t)
    ensures Distinct(RotateLeft(t))
  {
    var a, x, b, y, c := t.left, t.val, t.right.left, t.right.val, t.right.right;
    assert Elems(Node(a, x, b)) == Elems(a) + {x} + Elems(b);
  }

  lemma {:induction false} DistinctRotateRight<A>(t: Tree<A>)
    requires t.Node? && t.left.Node? && Distinct(t)
    ensures Distinct(RotateRight(t))
  {
    var a, y, b, x, c := t.left.left, t.left.val, t.left.right, t.val, t.right;
    assert Elems(Node(b, x, c)) == Elems(b) + {x} + Elems(c);
  }

  // ---------------------------------------------------------------------
  // Counting and distinctness

  /** In a tree with distinct values, there are as many values as nodes. */
  lemma {:induction false} DistinctCard<A>(t: Tree<A>)
    requires Distinct(t)
    ensures |Elems(t)| == Size(t)
  {
    match t
    case Leaf =>
    case Node(l, v, r) =>
      DistinctCard(l);
      DistinctCard(r);
      assert Elems(t) == (Elems(l) + Elems(r)) + {v};
  }

  lemma {:induction false} ElemsAt<A>(t: Tree<A>, p: seq<Dir>)
    ensures Elems(At(t, p)) <= Elems(t)
    decreases p
  {
    if p != [] && t.Node? {
      ElemsAt(Child(t, p[0]), p[1..]);
    }
  }

  lemma {:induction false} DistinctAt<A>(t: Tree<A>, p: seq<Dir>)
    requires Distinct(t)
    ensures Distinct(At(t, p))
    decreases p
  {
    if p != [] && t.Node? {
      DistinctAt(Child(t, p[0]), p[1..]);
    }
  }

  /** The values of a tree after replacing the subtree at `p`. */
  lemma {:induction false} ElemsReplace<A>(t: Tree<A>, p: seq<Dir>, s: Tree<A>)
    requires IsPos(t, p) && Distinct(t)
    ensures Elems(ReplaceAt(t, p, s)) == (Elems(t) - Elems(At(t, p))) + Elems(s)
    decreases p
  {
    if p != [] {
      var c := Child(t, p[0]);
      ElemsReplace(c, p[1..], s);
      ElemsAt(c, p[1..]);
    }
  }

  /**
    Replacing a subtree by one with fresh or recycled values keeps the
    values distinct, as long as the new values do not clash with the
    rest of the tree.
   */
  lemma {:induction false} DistinctReplace<A>(t: Tree<A>, p: seq<Dir>, s: Tree<A>)
    requires IsPos(t, p) && Distinct(t) && Distinct(s)
    requires Elems(s) !! (Elems(t) - Elems(At(t, p)))
    ensures Distinct(ReplaceAt(t, p, s))
    decreases p
  {
    if p != [] {
      var c := Child(t, p[0]);
      ElemsReplace(c, p[1..], s);
      ElemsAt(c, p[1..]);
      DistinctReplace(c, p[1..], s);
    }
  }

  /** Replacing by a subtree with the same symmetric order keeps the symmetric order. */
  lemma {:induction false} InfixReplace<A>(t: Tree<A>, p: seq<Dir>, s: Tree<A>)
    requires IsPos(t, p) && Infix(s) == Infix(At(t, p))
    ensures Infix(ReplaceAt(t, p, s)) == Infix(t)
    decreases p
  {
    if p != [] {
      InfixReplace(Child(t, p[0]), p[1..], s);
    }
  }

  lemma {:induction false} SizeInfix<A>(t: Tree<A>)
    ensures |Infix(t)| == Size(t)
  {
    match t
    case Leaf =>
    case Node(l, _, r) =>
      SizeInfix(l);
      SizeInfix(r);
  }

  /** A second replacement at the same position overrides the first. */
  lemma {:induction false} ReplaceTwice<A>(t: Tree<A>, p: seq<Dir>, x: Tree<A>, y: Tree<A>)
    requires IsPos(t, p)
    ensures ReplaceAt(ReplaceAt(t, p, x), p, y) == ReplaceAt(t, p, y)
    decreases p
  {
    if p != [] {
      ReplaceTwice(Child(t, p[0]), p[1..], x, y);
    }
  }

  /** Reading or replacing below a replaced position works inside the new subtree. */
  lemma ReplaceBelow<A>(t: Tree<A>, p: seq<Dir>, h: Tree<A>, q: seq<Dir>, x: Tree<A>)
    requires IsPos(t, p)
    ensures At(ReplaceAt(t, p, h), p + q) == At(h, q)
    ensures ReplaceAt(ReplaceAt(t, p, h), p + q, x) == ReplaceAt(t, p, ReplaceAt(h, q, x))
  {
    var t1 := ReplaceAt(t, p, h);
    AtReplace(t, p, h);
    AtAppend(t1, p, q);
    ReplaceAtAppend(t1, p, q, x);
    ReplaceTwice(t, p, h, ReplaceAt(h, q, x));
  }

  /**
    The optional first rotation of an insertion fix-up, at the child `dp`
    of `g`, taken when the grandchild `dz` lies on the other side: `g`
    keeps its value, and the node then two steps down on side `dp` is the
    grandchild (no rotation) or the child (after the rotation).
   */
  lemma InnerRotation<A>(s0: Tree<A>, g: seq<Dir>, dp: Dir, dz: Dir, s1: Tree<A>)
    requires At(s0, g).Node? && Child(At(s0, g), dp).Node? && Child(Child(At(s0, g), dp), dz).Node?
    requires At(s0, g + [dp]) == Child(At(s0, g), dp)
    requires dz != dp ==> s1 == ReplaceAt(s0, g + [dp], if dp == L then RotateLeft(At(s0, g + [dp])) else RotateRight(At(s0, g + [dp])))
    requires dz == dp ==> s1 == s0
    ensures At(s1, g).Node? && At(s1, g).val == At(s0, g).val
    ensures Child(At(s1, g), dp).Node? && At(s1, g + [dp]) == Child(At(s1, g), dp)
    ensures At(s1, g + [dp, dp]).Node?
    ensures At(s1, g + [dp, dp]).val == if dz == dp then At(s0, g + [dp, dp]).val else At(s0, g + [dp]).val
  {
    var gt := At(s0, g);
    NodeIsPos(s0, g, dp);
    var gt1 := gt;
    if dz != dp {
      var rot := if dp == L then RotateLeft(gt.left) else RotateRight(gt.right);
      gt1 := if dp == L then Node(rot, gt.val, gt.right) else Node(gt.left, gt.val, rot);
      ReplaceBelow(s0, g, gt, [dp], rot);
      ReplaceAtSelf(s0, g);
      assert ReplaceAt(gt, [dp], rot) == gt1 by { assert ([dp])[1..] == []; }
      assert s1 == ReplaceAt(s0, g, gt1);
      AtReplace(s0, g, gt1);
    }
    AtChild(s1, g, dp);
    AtChild(s1, g + [dp], dp);
    assert g + [dp] + [dp] == g + [dp, dp];
  }

  /**
    The closing rotation of an insertion fix-up at `g`, promoting the child
    on side `dp`: the child's own `dp` subtree moves up one level.
   */
  lemma OuterRotation<A>(s: Tree<A>, g: seq<Dir>, dp: Dir)
    requires At(s, g).Node? && Child(At(s, g), dp).Node?
    ensures At(ReplaceAt(s, g, if dp == L then RotateRight(At(s, g)) else RotateLeft(At(s, g))), g + [dp]) ==
      At(s, g + [dp, dp])
  {
    var gt := At(s, g);
    var rot := if dp == L then RotateRight(gt) else RotateLeft(gt);
    NodeIsPos(s, g, dp);
    ReplaceBelow(s, g, rot, [dp], rot);
    assert At(rot, [dp]) == Child(rot, dp) by { assert ([dp])[1..] == []; }
    AtChild(s, g, dp);
    AtChild(s, g + [dp], dp);
    assert g + [dp] + [dp] == g + [dp, dp];
  }
}
