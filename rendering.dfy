/**
  The three traversal renderings of RedBlackTree.cpp on the value-level
  model: every node is the token " " + "R" or "B" + its key in decimal +
  " ", concatenated in infix, prefix or postfix order.
 */
module Rendering {
  import opened BinaryTrees
  import opened RedBlackModel

  function DigitChar(d: nat): char
    requires d < 10
  {
    ('0' as int + d) as char
  }

  predicate IsDigit(c: char)
  {
    '0' <= c <= '9'
  }

  predicate AllDigits(s: string)
  {
    forall i :: 0 <= i < |s| ==> IsDigit(s[i])
  }

  /** Reading a decimal numeral back, most significant digit first. */
  function DigitsValue(s: string): nat
    requires AllDigits(s)
    decreases |s|
  {
    if s == [] then 0
    else DigitsValue(s[..|s| - 1]) * 10 + (s[|s| - 1] as int - '0' as int)
  }

  /** Reading an optionally signed decimal numeral back. */
  function SignedValue(s: string): int
    requires s != [] && (s[0] == '-' ==> AllDigits(s[1..])) && (s[0] != '-' ==> AllDigits(s))
  {
    if s[0] == '-' then -(DigitsValue(s[1..]) as int) else DigitsValue(s)
  }

  /** Decimal digits of `n`, most significant first, no leading zeros. */
  function NatToString(n: nat): string
    decreases n
  {
    if n < 10 then [DigitChar(n)] else NatToString(n / 10) + [DigitChar(n % 10)]
  }

  /** What `operator<<` writes for an `int`: a minus sign for negatives, then the digits. */
  function IntToString(n: int): string
  {
    if n < 0 then "-" + NatToString(-n) else NatToString(n)
  }

  /** GetNodeString: anything but COLOR_RED is written "B". */
  function Token(e: Entry): string
  {
    " " + (if e.color == Red then "R" else "B") + IntToString(e.key) + " "
  }

  function InfixString(t: RBTree): string
  {
    match t
    case Leaf => ""
    case Node(l, e, r) => InfixString(l) + Token(e) + InfixString(r)
  }

  function PrefixString(t: RBTree): string
  {
    match t
    case Leaf => ""
    case Node(l, e, r) => Token(e) + PrefixString(l) + PrefixString(r)
  }

  function PostfixString(t: RBTree): string
  {
    match t
    case Leaf => ""
    case Node(l, e, r) => PostfixString(l) + PostfixString(r) + Token(e)
  }

  /** The tokens of a sequence of entries, concatenated in order. */
  function Render(es: seq<Entry>): string
  {
    if es == [] then "" else Token(es[0]) + Render(es[1..])
  }

  ghost predicate Ascending(es: seq<Entry>)
  {
    forall i, j :: 0 <= i < j < |es| ==> es[i].key < es[j].key
  }

  /** The keys of a sequence of entries. */
  function KeysOf(es: seq<Entry>): set<int>
  {
    set e | e in es :: e.key
  }

  // ---------------------------------------------------------------------
  // Lemmas: numerals

  /**
    NatToString writes a numeral: digits only, no leading zero unless it
    is "0" itself, and reading it back gives the number.
   */
  lemma {:induction false} NatToStringNumeral(n: nat)
    ensures AllDigits(NatToString(n)) && NatToString(n) != []
    ensures DigitsValue(NatToString(n)) == n
    ensures NatToString(n)[0] == '0' <==> n == 0
    decreases n
  {
    var s := NatToString(n);
    if n < 10 {
      assert s[..|s| - 1] == [];
    } else {
      NatToStringNumeral(n / 10);
      assert s[..|s| - 1] == NatToString(n / 10);
      assert s[0] == NatToString(n / 10)[0];
    }
  }

  /** IntToString is read back by SignedValue; only negative numbers get a sign. */
  lemma IntToStringRoundTrip(n: int)
    ensures var s := IntToString(n);
      s != [] && (s[0] == '-' <==> n < 0) &&
      (s[0] == '-' ==> AllDigits(s[1..])) && (s[0] != '-' ==> AllDigits(s)) &&
      SignedValue(s) == n
  {
    var s := IntToString(n);
    if n < 0 {
      NatToStringNumeral(-n);
      assert s[0] == '-' && s[1..] == NatToString(-n);
    } else {
      NatToStringNumeral(n);
      assert s == NatToString(n) && IsDigit(s[0]);
    }
  }

  // ---------------------------------------------------------------------
  // Lemmas: renderings as token sequences

  /** Rendering distributes over concatenation. */
  lemma {:induction false} RenderAppend(a: seq<Entry>, b: seq<Entry>)
    ensures Render(a + b) == Render(a) + Render(b)
    decreases |a|
  {
    if a == [] {
      assert a + b == b;
    } else {
      assert (a + b)[1..] == a[1..] + b;
      RenderAppend(a[1..], b);
    }
  }

  lemma RenderOne(e: Entry)
    ensures Render([e]) == Token(e)
  {
    assert [e][1..] == [];
  }

  /** The infix string is the tokens of the entries in symmetric order. */
  lemma {:induction false} InfixRendered(t: RBTree)
    ensures InfixString(t) == Render(Infix(t))
  {
    match t
    case Leaf =>
    case Node(l, e, r) =>
      InfixRendered(l);
      InfixRendered(r);
      RenderOne(e);
      RenderAppend(Infix(l), [e]);
      RenderAppend(Infix(l) + [e], Infix(r));
  }

  /** The prefix string is the tokens of the entries in preorder. */
  lemma {:induction false} PrefixRendered(t: RBTree)
    ensures PrefixString(t) == Render(Preorder(t))
  {
    match t
    case Leaf =>
    case Node(l, e, r) =>
      PrefixRendered(l);
      PrefixRendered(r);
      RenderOne(e);
      RenderAppend([e], Preorder(l));
      RenderAppend([e] + Preorder(l), Preorder(r));
  }

  /** The postfix string is the tokens of the entries in postorder. */
  lemma {:induction false} PostfixRendered(t: RBTree)
    ensures PostfixString(t) == Render(Postorder(t))
  {
    match t
    case Leaf =>
    case Node(l, e, r) =>
      PostfixRendered(l);
      PostfixRendered(r);
      RenderOne(e);
      RenderAppend(Postorder(l), Postorder(r));
      RenderAppend(Postorder(l) + Postorder(r), [e]);
  }

  /** Every traversal renders nothing exactly for the empty tree. */
  lemma EmptyRenderings(t: RBTree)
    ensures InfixString(t) == "" <==> t == Leaf
    ensures PrefixString(t) == "" <==> t == Leaf
    ensures PostfixString(t) == "" <==> t == Leaf
  {
    if t.Node? {
      assert |Token(t.val)| > 0;
      assert |InfixString(t)| >= |Token(t.val)|;
      assert |PrefixString(t)| >= |Token(t.val)|;
      assert |PostfixString(t)| >= |Token(t.val)|;
    }
  }

  // ---------------------------------------------------------------------
  // Lemmas: search order is ascending infix order

  /** The symmetric-order sequence holds exactly the keys of the tree. */
  lemma {:induction false} KeysInfix(t: RBTree)
    ensures KeysOf(Infix(t)) == Keys(t)
  {
    match t
    case Leaf =>
    case Node(l, e, r) =>
      KeysInfix(l);
      KeysInfix(r);
      var s := Infix(l) + [e] + Infix(r);
      forall k | k in KeysOf(s)
        ensures k in Keys(t)
      {
        var x :| x in s && x.key == k;
        assert x in Infix(l) || x == e || x in Infix(r);
      }
      forall k | k in Keys(t)
        ensures k in KeysOf(s)
      {
        if k in Keys(l) {
          var x :| x in Infix(l) && x.key == k;
          assert x in s;
        } else if k in Keys(r) {
          var x :| x in Infix(r) && x.key == k;
          assert x in s;
        } else {
          assert e in s;
        }
      }
  }

  /** The keys on either side of a pivot, separated by it. */
  ghost predicate Separated(a: seq<Entry>, e: Entry, b: seq<Entry>)
  {
    (forall k :: k in KeysOf(a) ==> k < e.key) && (forall k :: k in KeysOf(b) ==> e.key < k)
  }

  lemma AscendingSplits(a: seq<Entry>, e: Entry, b: seq<Entry>)
    requires Ascending(a + [e] + b)
    ensures Ascending(a) && Ascending(b) && Separated(a, e, b)
  {
    var s := a + [e] + b;
    var m := |a|;
    forall i, j | 0 <= i < j < |a|
      ensures a[i].key < a[j].key
    {
      assert s[i] == a[i] && s[j] == a[j];
    }
    forall i, j | 0 <= i < j < |b|
      ensures b[i].key < b[j].key
    {
      assert s[m + 1 + i] == b[i] && s[m + 1 + j] == b[j];
    }
    forall k | k in KeysOf(a)
      ensures k < e.key
    {
      var x :| x in a && x.key == k;
      var i :| 0 <= i < m && a[i] == x;
      assert s[i] == x && s[m] == e;
    }
    forall k | k in KeysOf(b)
      ensures e.key < k
    {
      var x :| x in b && x.key == k;
      var i :| 0 <= i < |b| && b[i] == x;
      assert s[m + 1 + i] == x && s[m] == e;
    }
  }

  lemma AscendingJoins(a: seq<Entry>, e: Entry, b: seq<Entry>)
    requires Ascending(a) && Ascending(b) && Separated(a, e, b)
    ensures Ascending(a + [e] + b)
  {
    var s := a + [e] + b;
    var m := |a|;
    forall i, j | 0 <= i < j < |s|
      ensures s[i].key < s[j].key
    {
      if j < m {
        assert s[i] == a[i] && s[j] == a[j];
      } else if m < i {
        assert s[i] == b[i - m - 1] && s[j] == b[j - m - 1];
      } else {
        if i < m {
          assert s[i] == a[i];
          assert s[i].key in KeysOf(a);
        } else {
          assert s[i] == e;
        }
        if m < j {
          assert s[j] == b[j - m - 1];
          assert s[j].key in KeysOf(b);
        } else {
          assert s[j] == e;
        }
      }
    }
  }

  /**
    A tree is in search order exactly when its symmetric-order entries
    have strictly ascending keys, which is what ToInfixString shows.
   */
  lemma {:induction false} OrderedIffAscending(t: RBTree)
    ensures Ordered(t) <==> Ascending(Infix(t))
  {
    match t
    case Leaf =>
    case Node(l, e, r) =>
      OrderedIffAscending(l);
      OrderedIffAscending(r);
      KeysInfix(l);
      KeysInfix(r);
      if Ordered(t) {
        AscendingJoins(Infix(l), e, Infix(r));
      }
      if Ascending(Infix(t)) {
        AscendingSplits(Infix(l), e, Infix(r));
      }
  }
}
