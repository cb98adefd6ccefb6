/** The bit-length identity: the total `setCodes` accumulates, frequency
    times code length summed over the leaves, is the length of the encoding
    of the input the tree was built from. */
module HuffmanLength {
  import opened HuffmanTree
  import opened HuffmanCodec

  /** The code length of `x` for the subtree `c` whose root lies `d` bits
      below the tree's root; 0 for a symbol the subtree does not hold. */
  function SymbolCost(c: Tree, d: nat, x: Byte): nat {
    if x in Symbols(c) then CodeLength(d + |Path(c, x)|) else 0
  }

  /** The code lengths of the symbols of `s`, summed. */
  function PathCost(c: Tree, d: nat, s: seq<Byte>): nat {
    if s == [] then 0 else SymbolCost(c, d, s[0]) + PathCost(c, d, s[1..])
  }

  lemma {:induction false} InAlphabetTail(t: Tree, s: seq<Byte>)
    requires s != [] && InAlphabet(t, s)
    ensures InAlphabet(t, s[1..])
  {
    forall i | 0 <= i < |s| - 1
      ensures s[1..][i] in Symbols(t)
    {
      assert s[1..][i] == s[i + 1];
    }
  }

  /** The encoding is as long as the code lengths of its symbols add up to. */
  lemma {:induction false} EncodedLength(t: Tree, s: seq<Byte>)
    requires InAlphabet(t, s)
    ensures |EncodeWith(t, s)| == PathCost(t, 0, s)
  {
    if s != [] {
      InAlphabetTail(t, s);
      EncodedLength(t, s[1..]);
    }
  }

  lemma {:induction false} PathCostAppend(c: Tree, d: nat, a: seq<Byte>, b: seq<Byte>)
    ensures PathCost(c, d, a + b) == PathCost(c, d, a) + PathCost(c, d, b)
  {
    if a == [] {
      assert a + b == b;
    } else {
      assert (a + b)[0] == a[0];
      assert (a + b)[1..] == a[1..] + b;
      PathCostAppend(c, d, a[1..], b);
    }
  }

  /** Taking the symbol at index `k` out of the sum leaves the sum over the
      rest. */
  lemma {:induction false} PathCostRemove(c: Tree, d: nat, s: seq<Byte>, k: nat)
    requires k < |s|
    ensures PathCost(c, d, s) == SymbolCost(c, d, s[k]) + PathCost(c, d, s[..k] + s[k + 1..])
  {
    var rest := s[..k] + s[k + 1..];
    if k == 0 {
      assert rest == s[1..];
    } else {
      var tail := s[1..];
      PathCostRemove(c, d, tail, k - 1);
      assert rest == [s[0]] + (tail[..k - 1] + tail[k..]);
      assert rest[1..] == tail[..k - 1] + tail[k..];
    }
  }

  /** Symbols of the left subtree only: their paths from the node are one
      bit longer than from the left child. */
  lemma {:induction false} PathCostLeft(c: Tree, d: nat, s: seq<Byte>)
    requires c.Node? && Symbols(c.left) !! Symbols(c.right) && InAlphabet(c.left, s)
    ensures PathCost(c, d, s) == PathCost(c.left, d + 1, s)
  {
    if s != [] {
      assert s[0] !in Symbols(c.right);
      InAlphabetTail(c.left, s);
      PathCostLeft(c, d, s[1..]);
    }
  }

  /** Symbols of the right subtree: their paths from the node are one bit
      longer than from the right child. */
  lemma {:induction false} PathCostRight(c: Tree, d: nat, s: seq<Byte>)
    requires c.Node? && InAlphabet(c.right, s)
    ensures PathCost(c, d, s) == PathCost(c.right, d + 1, s)
  {
    if s != [] {
      InAlphabetTail(c.right, s);
      PathCostRight(c, d, s[1..]);
    }
  }

  lemma {:induction false} PathCostRepeat(c: Tree, d: nat, n: nat)
    requires c.Leaf?
    ensures PathCost(c, d, Repeat(c.symbol, n)) == n * CodeLength(d)
  {
    if n > 0 {
      assert Repeat(c.symbol, n)[1..] == Repeat(c.symbol, n - 1);
      PathCostRepeat(c, d, n - 1);
    }
  }

  lemma {:induction false} OccurrencesInAlphabet(c: Tree)
    ensures InAlphabet(c, Occurrences(c))
  {
    match c
    case Leaf(_, _) =>
    case Node(l, r, _) =>
      OccurrencesInAlphabet(l);
      OccurrencesInAlphabet(r);
      var o := Occurrences(c);
      forall i | 0 <= i < |o|
        ensures o[i] in Symbols(c)
      {
        if i < |Occurrences(l)| {
          assert o[i] == Occurrences(l)[i];
        } else {
          assert o[i] == Occurrences(r)[i - |Occurrences(l)|];
        }
      }
  }

  /** In a tree without repeated leaves, the code lengths summed over the
      occurrences are what `setCodes` accumulates. */
  lemma {:induction false} CostIsPathCost(c: Tree, d: nat)
    requires UniqueLeaves(c)
    ensures PathCost(c, d, Occurrences(c)) == CostAt(c, d)
  {
    match c
    case Leaf(b, f) =>
      PathCostRepeat(c, d, f);
    case Node(l, r, _) =>
      UniqueLeavesSplit(c);
      OccurrencesInAlphabet(l);
      OccurrencesInAlphabet(r);
      CostIsPathCost(l, d + 1);
      CostIsPathCost(r, d + 1);
      PathCostLeft(c, d, Occurrences(l));
      PathCostRight(c, d, Occurrences(r));
      PathCostAppend(c, d, Occurrences(l), Occurrences(r));
  }

  /** Equal multisets stay equal when the head of one and a matching
      element of the other are taken out. */
  lemma MultisetRemoveMatching(a: seq<Byte>, b: seq<Byte>, k: nat)
    requires multiset(a) == multiset(b) && a != [] && k < |b| && b[k] == a[0]
    ensures multiset(a[1..]) == multiset(b[..k] + b[k + 1..])
  {
    var x := a[0];
    var rest := b[..k] + b[k + 1..];
    assert multiset(b) == multiset(b[..k]) + multiset{x} + multiset(b[k + 1..]) by {
      assert b == b[..k] + [x] + b[k + 1..];
    }
    assert multiset(a) == multiset{x} + multiset(a[1..]) by {
      assert a == [x] + a[1..];
    }
    assert multiset(rest) == multiset(b[..k]) + multiset(b[k + 1..]);
    forall y
      ensures multiset(a[1..])[y] == multiset(rest)[y]
    {
      assert multiset(a)[y] == multiset(b)[y];
    }
  }

  /** The summed code length does not depend on the order of the symbols. */
  lemma {:induction false} PathCostPermutation(c: Tree, d: nat, a: seq<Byte>, b: seq<Byte>)
    requires multiset(a) == multiset(b)
    ensures PathCost(c, d, a) == PathCost(c, d, b)
  {
    if a != [] {
      assert a[0] in multiset(b);
      var k :| 0 <= k < |b| && b[k] == a[0];
      PathCostRemove(c, d, b, k);
      MultisetRemoveMatching(a, b, k);
      PathCostPermutation(c, d, a[1..], b[..k] + b[k + 1..]);
    } else {
      assert b == [];
    }
  }

  /** The bit-length identity: for a tree without repeated leaves whose
      occurrences are the input up to order, the encoding of the input is
      exactly as long as the frequency-times-code-length total. */
  lemma BitLengthIdentity(t: Tree, s: seq<Byte>)
    requires UniqueLeaves(t) && multiset(Occurrences(t)) == multiset(s)
    ensures InAlphabet(t, s)
    ensures |EncodeWith(t, s)| == CostAt(t, 0)
  {
    OccurrencesInAlphabet(t);
    forall i | 0 <= i < |s|
      ensures s[i] in Symbols(t)
    {
      assert s[i] in multiset(Occurrences(t));
    }
    CostIsPathCost(t, 0);
    PathCostPermutation(t, 0, Occurrences(t), s);
    EncodedLength(t, s);
  }
}
