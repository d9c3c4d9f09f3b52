/**
  The red-black properties through insertion: BasicInsert may leave one
  RED node under a RED parent, each fix-up step either removes that
  violation or moves it two levels up, and the final root recolouring
  removes it at the root.  Black heights never change along the way.
 */
module RedBlackInvariants {
  import opened BinaryTrees
  import opened RedBlackModel

  /**
    No red node has a red child, except that the node at `p` may be RED
    under a RED parent (the one violation the fix-up loop tolerates).
   */
  ghost predicate RedRedOnlyAt(t: RBTree, p: seq<Dir>)
    decreases p
  {
    if p == [] then NoRedRed(t)
    else match t
      case Leaf => true
      case Node(_, _, _) =>
        var c, o := Child(t, p[0]), Child(t, Opp(p[0]));
        RedRedOnlyAt(c, p[1..]) && NoRedRed(o) &&
        (IsRed(t) ==> !IsRed(o) && (|p| > 1 ==> !IsRed(c)))
  }

  // ---------------------------------------------------------------------
  // Colours and black heights under subtree replacement

  lemma {:induction false} TwoColorsAt(t: RBTree, p: seq<Dir>)
    requires TwoColors(t)
    ensures TwoColors(At(t, p))
    decreases p
  {
    if p != [] && t.Node? {
      TwoColorsAt(Child(t, p[0]), p[1..]);
    }
  }

  lemma {:induction false} TwoColorsReplace(t: RBTree, p: seq<Dir>, x: RBTree)
    requires TwoColors(t) && TwoColors(x)
    ensures TwoColors(ReplaceAt(t, p, x))
    decreases p
  {
    if p != [] && t.Node? {
      TwoColorsReplace(Child(t, p[0]), p[1..], x);
    }
  }

  lemma {:induction false} BalancedAt(t: RBTree, p: seq<Dir>)
    requires Balanced(t)
    ensures Balanced(At(t, p))
    decreases p
  {
    if p != [] && t.Node? {
      BalancedAt(Child(t, p[0]), p[1..]);
    }
  }

  /** A balanced subtree of the same black height leaves the tree balanced, at the same black height. */
  lemma {:induction false} BalancedReplace(t: RBTree, p: seq<Dir>, x: RBTree)
    requires IsPos(t, p) && Balanced(t) && Balanced(x) && BlackHeight(x) == BlackHeight(At(t, p))
    ensures Balanced(ReplaceAt(t, p, x)) && BlackHeight(ReplaceAt(t, p, x)) == BlackHeight(t)
    decreases p
  {
    if p != [] {
      BalancedReplace(Child(t, p[0]), p[1..], x);
    }
  }

  // ---------------------------------------------------------------------
  // The tolerated violation

  /** Without any red-red pair, every position satisfies RedRedOnlyAt. */
  lemma {:induction false} NoRedRedOnlyAt(t: RBTree, p: seq<Dir>)
    requires NoRedRed(t)
    ensures RedRedOnlyAt(t, p)
    decreases p
  {
    if p != [] && t.Node? {
      NoRedRedOnlyAt(Child(t, p[0]), p[1..]);
    }
  }

  /** BasicInsert's new node, put at a position of a tree without red-red pairs, is the only possible violation. */
  lemma {:induction false} PlaceOnlyAt(t: RBTree, p: seq<Dir>, x: RBTree)
    requires IsPos(t, p) && NoRedRed(t) && NoRedRed(x)
    ensures RedRedOnlyAt(ReplaceAt(t, p, x), p)
    decreases p
  {
    if p != [] {
      var c := Child(t, p[0]);
      PlaceOnlyAt(c, p[1..], x);
      if |p| > 1 {
        ReplaceKeepsRoot(c, p[1..], x);
      }
    }
  }

  /** The violation allowed at `g + q` is, within the subtree at `g`, allowed at `q`. */
  lemma {:induction false} OnlyAtBelow(t: RBTree, g: seq<Dir>, q: seq<Dir>)
    requires RedRedOnlyAt(t, g + q) && IsPos(t, g)
    ensures RedRedOnlyAt(At(t, g), q)
    decreases g
  {
    if g != [] {
      assert (g + q)[0] == g[0] && (g + q)[1..] == g[1..] + q;
      OnlyAtBelow(Child(t, g[0]), g[1..], q);
    } else {
      assert g + q == q;
    }
  }

  /**
    Replacing the subtree at `g`, strictly above the allowed violation,
    by one without red-red pairs leaves at most a violation at `g`.
   */
  lemma {:induction false} OnlyAtReplace(t: RBTree, g: seq<Dir>, q: seq<Dir>, x: RBTree)
    requires RedRedOnlyAt(t, g + q) && q != [] && At(t, g).Node? && NoRedRed(x)
    ensures RedRedOnlyAt(ReplaceAt(t, g, x), g)
    decreases g
  {
    if g != [] {
      var c := Child(t, g[0]);
      assert (g + q)[0] == g[0] && (g + q)[1..] == g[1..] + q;
      OnlyAtReplace(c, g[1..], q, x);
      if |g| > 1 {
        assert At(t, g) == At(c, g[1..]);
        ReplaceKeepsRoot(c, g[1..], x);
      }
    } else {
      assert g + q == q;
    }
  }

  /**
    When the node at `p` is not RED, or its parent is not RED, the
    allowed violation is not there, and no red node has a red child.
   */
  lemma {:induction false} OnlyAtResolved(t: RBTree, p: seq<Dir>)
    requires RedRedOnlyAt(t, p)
    requires p == [] || !IsRed(At(t, p)) || !IsRed(At(t, p[..|p| - 1]))
    ensures NoRedRed(t)
    decreases p
  {
    if p != [] && t.Node? {
      var c, rest := Child(t, p[0]), p[1..];
      assert At(t, p) == At(c, rest);
      if rest != [] {
        assert p[..|p| - 1] == [p[0]] + rest[..|rest| - 1];
        assert At(t, p[..|p| - 1]) == At(c, rest[..|rest| - 1]);
      }
      OnlyAtResolved(c, rest);
    }
  }

  // ---------------------------------------------------------------------
  // One fix-up step on the grandparent's subtree

  /**
    The situation the fix-up loop body meets at the grandparent `g`: the
    parent on side `dp` and the node on side `dz` below it are both RED,
    and that is the only red-red pair in `g`'s subtree.
   */
  ghost predicate Violated(g: RBTree, dp: Dir, dz: Dir)
  {
    g.Node? && Child(g, dp).Node? && Child(Child(g, dp), dz).Node? &&
    Balanced(g) && TwoColors(g) &&
    g.val.color == Black && IsRed(Child(g, dp)) && IsRed(Child(Child(g, dp), dz)) &&
    NoRedRed(Child(g, Opp(dp))) && NoRedRed(Child(Child(g, dp), dz)) &&
    NoRedRed(Child(Child(g, dp), Opp(dz))) && !IsRed(Child(Child(g, dp), Opp(dz)))
  }

  /** The loop body finds its situation in every subtree where the only violation is two levels down. */
  lemma ViolatedAt(g: RBTree, dp: Dir, dz: Dir)
    requires RedRedOnlyAt(g, [dp, dz]) && Balanced(g) && TwoColors(g)
    requires g.Node? && Child(g, dp).Node? && Child(Child(g, dp), dz).Node?
    requires IsRed(Child(g, dp)) && IsRed(Child(Child(g, dp), dz))
    ensures Violated(g, dp, dz)
  {
    assert [dp, dz][0] == dp && [dp, dz][1..] == [dz] && [dz][0] == dz && [dz][1..] == [];
    assert RedRedOnlyAt(Child(g, dp), [dz]);
    assert RedRedOnlyAt(Child(Child(g, dp), dz), []);
  }

  /** A RED node over two non-red, equally black, valid subtrees. */
  lemma RedNode(l: RBTree, e: Entry, r: RBTree)
    requires e.color == Red && !IsRed(l) && !IsRed(r) && NoRedRed(l) && NoRedRed(r)
    requires Balanced(l) && Balanced(r) && BlackHeight(l) == BlackHeight(r) && TwoColors(l) && TwoColors(r)
    ensures IsRed(Node(l, e, r)) && NoRedRed(Node(l, e, r)) && TwoColors(Node(l, e, r))
    ensures Balanced(Node(l, e, r)) && BlackHeight(Node(l, e, r)) == BlackHeight(l)
  {
  }

  /** A BLACK node over two equally black, valid subtrees. */
  lemma BlackNode(l: RBTree, e: Entry, r: RBTree)
    requires e.color == Black && NoRedRed(l) && NoRedRed(r)
    requires Balanced(l) && Balanced(r) && BlackHeight(l) == BlackHeight(r) && TwoColors(l) && TwoColors(r)
    ensures !IsRed(Node(l, e, r)) && NoRedRed(Node(l, e, r)) && TwoColors(Node(l, e, r))
    ensures Balanced(Node(l, e, r)) && BlackHeight(Node(l, e, r)) == BlackHeight(l) + 1
  {
  }

  /** Red uncle: Recolor removes the violation below `g`, makes `g` RED and keeps the black height. */
  lemma RecolorRedBlack(g: RBTree, dp: Dir, dz: Dir)
    requires Violated(g, dp, dz) && IsRed(Child(g, Opp(dp)))
    ensures IsRed(Recolor(g)) && NoRedRed(Recolor(g)) && TwoColors(Recolor(g))
    ensures Balanced(Recolor(g)) && BlackHeight(Recolor(g)) == BlackHeight(g)
  {
    var l, r := g.left, g.right;
    assert TwoColors(l) && TwoColors(r) && Balanced(l) && Balanced(r) && BlackHeight(l) == BlackHeight(r);
    assert IsRed(l) && IsRed(r);
    assert NoRedRed(l.left) && NoRedRed(l.right) && NoRedRed(r.left) && NoRedRed(r.right) by {
      var p, u := Child(g, dp), Child(g, Opp(dp));
      assert {p.left, p.right} == {Child(p, dz), Child(p, Opp(dz))};
      assert NoRedRed(u.left) && NoRedRed(u.right);
    }
    assert TwoColors(l.left) && TwoColors(l.right) && TwoColors(r.left) && TwoColors(r.right);
    BlackNode(l.left, l.val.(color := Black), l.right);
    BlackNode(r.left, r.val.(color := Black), r.right);
    assert Recolor(g) == Node(Paint(l, Black), g.val.(color := Red), Paint(r, Black));
  }

  /** Black uncle, parent on the left: RotateFromLeft leaves a BLACK root with a RED left child and no violation. */
  lemma RotateFromLeftRedBlack(g: RBTree, dz: Dir)
    requires Violated(g, L, dz) && !IsRed(g.right)
    ensures !IsRed(RotateFromLeft(g, dz)) && IsRed(RotateFromLeft(g, dz).left)
    ensures NoRedRed(RotateFromLeft(g, dz)) && TwoColors(RotateFromLeft(g, dz))
    ensures Balanced(RotateFromLeft(g, dz)) && BlackHeight(RotateFromLeft(g, dz)) == BlackHeight(g)
  {
    var p, u := g.left, g.right;
    assert TwoColors(p) && TwoColors(u) && Balanced(p) && Balanced(u) && BlackHeight(p) == BlackHeight(u);
    assert TwoColors(p.left) && TwoColors(p.right) && Balanced(p.left) && Balanced(p.right);
    assert BlackHeight(p) == BlackHeight(p.left) == BlackHeight(p.right);
    if dz == L {
      var z, s := p.left, p.right;
      assert Child(p, dz) == z && Child(p, Opp(dz)) == s;
      RedNode(s, g.val.(color := Red), u);
      var right := Node(s, g.val.(color := Red), u);
      BlackNode(z, p.val.(color := Black), right);
      assert RotateFromLeft(g, dz) == Node(z, p.val.(color := Black), right);
    } else {
      var a, z := p.left, p.right;
      assert Child(p, dz) == z && Child(p, Opp(dz)) == a;
      var b, c := z.left, z.right;
      assert TwoColors(b) && TwoColors(c) && Balanced(b) && Balanced(c) && NoRedRed(b) && NoRedRed(c);
      assert !IsRed(b) && !IsRed(c);
      assert BlackHeight(z) == BlackHeight(b) == BlackHeight(c);
      RedNode(a, p.val, b);
      RedNode(c, g.val.(color := Red), u);
      var left, right := Node(a, p.val, b), Node(c, g.val.(color := Red), u);
      BlackNode(left, z.val.(color := Black), right);
      assert RotateFromLeft(g, dz) == Node(left, z.val.(color := Black), right);
    }
  }

  /** The mirror image of RotateFromLeftRedBlack. */
  lemma RotateFromRightRedBlack(g: RBTree, dz: Dir)
    requires Violated(g, R, dz) && !IsRed(g.left)
    ensures !IsRed(RotateFromRight(g, dz)) && IsRed(RotateFromRight(g, dz).right)
    ensures NoRedRed(RotateFromRight(g, dz)) && TwoColors(RotateFromRight(g, dz))
    ensures Balanced(RotateFromRight(g, dz)) && BlackHeight(RotateFromRight(g, dz)) == BlackHeight(g)
  {
    var u, p := g.left, g.right;
    assert TwoColors(p) && TwoColors(u) && Balanced(p) && Balanced(u) && BlackHeight(p) == BlackHeight(u);
    assert TwoColors(p.left) && TwoColors(p.right) && Balanced(p.left) && Balanced(p.right);
    assert BlackHeight(p) == BlackHeight(p.left) == BlackHeight(p.right);
    if dz == R {
      var s, z := p.left, p.right;
      assert Child(p, dz) == z && Child(p, Opp(dz)) == s;
      RedNode(u, g.val.(color := Red), s);
      var left := Node(u, g.val.(color := Red), s);
      BlackNode(left, p.val.(color := Black), z);
      assert RotateFromRight(g, dz) == Node(left, p.val.(color := Black), z);
    } else {
      var z, c := p.left, p.right;
      assert Child(p, dz) == z && Child(p, Opp(dz)) == c;
      var a, b := z.left, z.right;
      assert TwoColors(a) && TwoColors(b) && Balanced(a) && Balanced(b) && NoRedRed(a) && NoRedRed(b);
      assert !IsRed(a) && !IsRed(b);
      assert BlackHeight(z) == BlackHeight(a) == BlackHeight(b);
      RedNode(u, g.val.(color := Red), a);
      RedNode(b, p.val, c);
      var left, right := Node(u, g.val.(color := Red), a), Node(b, p.val, c);
      BlackNode(left, z.val.(color := Black), right);
      assert RotateFromRight(g, dz) == Node(left, z.val.(color := Black), right);
    }
  }

  // ---------------------------------------------------------------------
  // The whole loop and Insert

  /**
    The fix-up loop, started with at most one violation, at the RED node
    it starts from, ends with no red node under a red parent, every
    root-to-null path as black as before, and only RED and BLACK.
   */
  lemma {:induction false} FixUpRedBlack(t: RBTree, p: seq<Dir>)
    requires At(t, p).Node? && (p == [] || !IsRed(t))
    requires TwoColors(t) && Balanced(t) && RedRedOnlyAt(t, p) && (p != [] ==> IsRed(At(t, p)))
    ensures TwoColors(FixUp(t, p)) && Balanced(FixUp(t, p)) && NoRedRed(FixUp(t, p))
    decreases |p|
  {
    if p == [] || !IsRed(At(t, p[..|p| - 1])) {
      OnlyAtResolved(t, p);
    } else {
      var g, dp, dz := p[..|p| - 2], p[|p| - 2], p[|p| - 1];
      assert p == g + [dp, dz] && p[..|p| - 1] == g + [dp];
      AtTwoSteps(t, g, dp, dz);
      NodeIsPos(t, g, dp);
      var gt := At(t, g);
      OnlyAtBelow(t, g, [dp, dz]);
      BalancedAt(t, g);
      TwoColorsAt(t, g);
      ViolatedAt(gt, dp, dz);
      FixUpStep(t, g, dp, dz);
      if IsRed(Child(gt, Opp(dp))) {
        var x := Recolor(gt);
        RecolorRedBlack(gt, dp, dz);
        var t' := ReplaceAt(t, g, x);
        TwoColorsReplace(t, g, x);
        BalancedReplace(t, g, x);
        OnlyAtReplace(t, g, [dp, dz], x);
        AtReplace(t, g, x);
        FixUpRedBlack(t', g);
      } else {
        var x := if dp == L then RotateFromLeft(gt, dz) else RotateFromRight(gt, dz);
        if dp == L {
          RotateFromLeftRedBlack(gt, dz);
        } else {
          RotateFromRightRedBlack(gt, dz);
        }
        var t' := ReplaceAt(t, g, x);
        TwoColorsReplace(t, g, x);
        BalancedReplace(t, g, x);
        OnlyAtReplace(t, g, [dp, dz], x);
        AtReplace(t, g, x);
        OnlyAtResolved(t', g);
        NoRedRedOnlyAt(t', g + [dp]);
        AtChild(t', g, dp);
        FixUpRedBlack(t', g + [dp]);
      }
    }
  }

  /** Painting the root BLACK keeps all the red-black properties and makes the root BLACK. */
  lemma PaintRootBlack(t: RBTree)
    requires TwoColors(t) && Balanced(t) && NoRedRed(t)
    ensures TwoColors(Paint(t, Black)) && Balanced(Paint(t, Black)) && NoRedRed(Paint(t, Black))
    ensures RootBlack(Paint(t, Black))
  {
  }

  /**
    Insert keeps a red-black tree a red-black tree: search order, BLACK
    root, no red node with a red child, equal black counts on all
    root-to-null paths, only RED and BLACK.
   */
  lemma InsertRedBlack(t: RBTree, k: int)
    requires IsRedBlack(t)
    ensures Insert(t, k).Ok? ==> IsRedBlack(Insert(t, k).value)
  {
    if k !in Keys(t) {
      InsertKeys(t, k);
      var p := DescentPath(t, k);
      var t1 := Place(t, k);
      PlaceAt(t, k);
      if t.Leaf? {
        assert p == [];
      } else {
        var leaf := Node(Leaf, Entry(Red, k), Leaf);
        DescentPathEnds(t, k);
        TwoColorsReplace(t, p, leaf);
        BalancedReplace(t, p, leaf);
        PlaceOnlyAt(t, p, leaf);
        AtReplace(t, p, leaf);
      }
      FixUpRedBlack(t1, p);
      PaintRootBlack(FixUp(t1, p));
    }
  }
}
