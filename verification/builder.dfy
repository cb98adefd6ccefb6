/** Building the tree: the working list of roots starts as one leaf per
    occurring byte, and the two lightest roots are merged until one remains. */
module HuffmanBuild {
  import opened HuffmanTree

  /** The working list with the element at index `k` taken out; the other
      elements keep their order. */
  function Remove(s: seq<Tree>, k: nat): (r: seq<Tree>)
    requires k < |s|
    ensures |r| == |s| - 1
    ensures forall j :: 0 <= j < |r| ==> r[j] == if j < k then s[j] else s[j + 1]
  {
    s[..k] + s[k + 1..]
  }

  /** The index `removeSmallest` settles on: its scan keeps the first node
      seen and replaces it only by a strictly lighter one, so this is the
      first index of minimum frequency. */
  function MinIndex(s: seq<Tree>): (k: nat)
    requires |s| > 0
    ensures k < |s|
    ensures forall j :: 0 <= j < |s| ==> s[k].freq <= s[j].freq
    ensures forall j :: 0 <= j < k ==> s[k].freq < s[j].freq
  {
    if |s| == 1 then 0
    else
      var k := MinIndex(s[..|s| - 1]);
      if s[|s| - 1].freq < s[k].freq then |s| - 1 else k
  }

  /** One round of the merge loop: take out the lightest root, then the
      lightest of the rest, and append their parent at the end of the list. */
  function MergeStep(roots: seq<Tree>): (next: seq<Tree>)
    requires |roots| > 1
    ensures |next| == |roots| - 1
  {
    var k1 := MinIndex(roots);
    var rest1 := Remove(roots, k1);
    var k2 := MinIndex(rest1);
    var rest2 := Remove(rest1, k2);
    rest2 + [Node(roots[k1], rest1[k2], roots[k1].freq + rest1[k2].freq)]
  }

  /** The tree the merge loop ends with, as a function of the working list;
      a list of two or more roots always ends in an internal node. */
  function Build(roots: seq<Tree>): (t: Tree)
    requires |roots| > 0
    ensures |roots| > 1 ==> t.Node?
    decreases |roots|
  {
    if |roots| == 1 then roots[0] else Build(MergeStep(roots))
  }

  /** `f` of every tree of the list, concatenated in list order. */
  function Flatten(roots: seq<Tree>, f: Tree -> seq<Byte>): seq<Byte> {
    if roots == [] then [] else Flatten(roots[..|roots| - 1], f) + f(roots[|roots| - 1])
  }

  ghost predicate AllWellFormed(roots: seq<Tree>) {
    forall i :: 0 <= i < |roots| ==> WellFormed(roots[i])
  }

  /** Taking a tree out of the list takes exactly its own part out of the
      flattened list, up to order. */
  lemma {:induction false} FlattenRemove(s: seq<Tree>, k: nat, f: Tree -> seq<Byte>)
    requires k < |s|
    ensures multiset(Flatten(s, f)) == multiset(Flatten(Remove(s, k), f)) + multiset(f(s[k]))
  {
    var last := |s| - 1;
    var init := s[..last];
    if k == last {
      assert Remove(s, k) == init;
    } else {
      var r := Remove(s, k);
      assert r[..|r| - 1] == Remove(init, k);
      assert r[|r| - 1] == s[last];
      FlattenRemove(init, k, f);
    }
  }

  /** One round keeps every tree well formed: the new parent's frequency is
      the sum of its children's. */
  lemma MergeStepWellFormed(roots: seq<Tree>)
    requires |roots| > 1 && AllWellFormed(roots)
    ensures AllWellFormed(MergeStep(roots))
  {
    var k1 := MinIndex(roots);
    var rest1 := Remove(roots, k1);
    var k2 := MinIndex(rest1);
    var rest2 := Remove(rest1, k2);
    var parent := Node(roots[k1], rest1[k2], roots[k1].freq + rest1[k2].freq);
    RemoveWellFormed(roots, k1);
    RemoveWellFormed(rest1, k2);
    assert WellFormed(parent);
    var next := rest2 + [parent];
    assert MergeStep(roots) == next;
    forall i | 0 <= i < |next|
      ensures WellFormed(next[i])
    {
      if i < |rest2| {
        assert next[i] == rest2[i];
      }
    }
  }

  /** One round keeps, up to order, what the list flattens to under `f`,
      for any `f` that flattens a parent into its two children. */
  lemma {:induction false} MergeStepFlatten(roots: seq<Tree>, f: Tree -> seq<Byte>)
    requires |roots| > 1
    requires forall l, r, n :: f(Node(l, r, n)) == f(l) + f(r)
    ensures multiset(Flatten(MergeStep(roots), f)) == multiset(Flatten(roots, f))
  {
    var k1 := MinIndex(roots);
    var rest1 := Remove(roots, k1);
    var k2 := MinIndex(rest1);
    var rest2 := Remove(rest1, k2);
    var parent := Node(roots[k1], rest1[k2], roots[k1].freq + rest1[k2].freq);
    assert MergeStep(roots) == rest2 + [parent];
    FlattenSnoc(rest2, parent, f);
    FlattenRemove(roots, k1, f);
    FlattenRemove(rest1, k2, f);
  }

  /** What the merge loop keeps, over all its rounds: every tree well formed,
      and the multisets of occurrences and of leaf symbols across the list. */
  lemma {:induction false} BuildPreserves(roots: seq<Tree>)
    requires |roots| > 0 && AllWellFormed(roots)
    ensures WellFormed(Build(roots))
    ensures multiset(Occurrences(Build(roots))) == multiset(Flatten(roots, Occurrences))
    ensures multiset(LeafSymbols(Build(roots))) == multiset(Flatten(roots, LeafSymbols))
    decreases |roots|
  {
    if |roots| == 1 {
      assert roots[..0] == [];
    } else {
      MergeStepWellFormed(roots);
      MergeStepFlatten(roots, Occurrences);
      MergeStepFlatten(roots, LeafSymbols);
      BuildPreserves(MergeStep(roots));
    }
  }

  lemma RemoveWellFormed(s: seq<Tree>, k: nat)
    requires k < |s| && AllWellFormed(s)
    ensures AllWellFormed(Remove(s, k))
  {
    var r := Remove(s, k);
    forall j | 0 <= j < |r|
      ensures WellFormed(r[j])
    {
      if j < k {
        assert r[j] == s[j];
      } else {
        assert r[j] == s[j + 1];
      }
    }
  }

  /** The root's frequency is the total number of occurrences in the list. */
  lemma BuildWeight(roots: seq<Tree>)
    requires |roots| > 0 && AllWellFormed(roots)
    ensures Build(roots).freq == |Flatten(roots, Occurrences)|
  {
    BuildPreserves(roots);
    WeightIsOccurrences(Build(roots));
    assert |multiset(Occurrences(Build(roots)))| == |multiset(Flatten(roots, Occurrences))|;
  }

  lemma {:induction false} FlattenSnoc(roots: seq<Tree>, t: Tree, f: Tree -> seq<Byte>)
    ensures multiset(Flatten(roots + [t], f)) == multiset(Flatten(roots, f)) + multiset(f(t))
  {
    var next := roots + [t];
    assert next[..|next| - 1] == roots;
  }

  lemma {:induction false} MultisetRepeat(b: Byte, n: nat)
    ensures forall x: Byte :: multiset(Repeat<Byte>(b, n))[x] == if x == b then n else 0
  {
    if n > 0 {
      assert Repeat<Byte>(b, n) == [b] + Repeat<Byte>(b, n - 1);
      MultisetRepeat(b, n - 1);
    }
  }

  /** `removeSmallest`: a linear scan for the first node of least frequency,
      which is then taken out of the list. */
  method RemoveSmallest(roots: seq<Tree>) returns (smallest: Tree, rest: seq<Tree>)
    requires |roots| > 0
    ensures smallest == roots[MinIndex(roots)] && rest == Remove(roots, MinIndex(roots))
    ensures |rest| == |roots| - 1
    ensures forall j :: 0 <= j < |rest| ==> smallest.freq <= rest[j].freq
  {
    var k := 0;
    for i := 1 to |roots|
      invariant k == MinIndex(roots[..i])
    {
      assert roots[..i + 1][..i] == roots[..i];
      if roots[i].freq < roots[k].freq {
        k := i;
      }
    }
    assert roots[..|roots|] == roots;
    smallest := roots[k];
    rest := roots[..k] + roots[k + 1..];
    assert rest == Remove(roots, k);
    forall j | 0 <= j < |rest|
      ensures smallest.freq <= rest[j].freq
    {
      assert rest[j] == roots[if j < k then j else j + 1];
    }
  }

  /** A frequency table: 256 non-negative counts, slot `b + 128` for byte `b`. */
  predicate IsFrequencyTable(f: seq<int>) {
    |f| == 256 && forall i :: 0 <= i < 256 ==> f[i] >= 0
  }

  /** Leaves in strictly ascending symbol order. */
  ghost predicate Ascending(r: seq<Tree>) {
    forall j, k :: 0 <= j < k < |r| ==> r[j].Leaf? && r[k].Leaf? && r[j].symbol < r[k].symbol
  }

  /** One leaf for each of the first `n` slots of `f` whose count is positive,
      in slot order. */
  function LeavesBelow(f: seq<int>, n: nat): (r: seq<Tree>)
    requires IsFrequencyTable(f) && n <= 256
    ensures forall k :: 0 <= k < |r| ==> r[k].Leaf? && r[k].freq > 0
  {
    if n == 0 then []
    else LeavesBelow(f, n - 1) + if f[n - 1] > 0 then [Leaf(SymbolAt(n - 1), f[n - 1])] else []
  }

  /** The list holds leaves, each carrying the positive count of its own
      slot, below slot `n`. */
  lemma {:induction false} LeavesBelowLeaves(f: seq<int>, n: nat)
    requires IsFrequencyTable(f) && n <= 256
    ensures forall t :: t in LeavesBelow(f, n) ==>
      t.Leaf? && t.freq > 0 && Slot(t.symbol) < n && f[Slot(t.symbol)] == t.freq
  {
    if n > 0 {
      LeavesBelowLeaves(f, n - 1);
      var r := LeavesBelow(f, n - 1);
      if f[n - 1] > 0 {
        var leaf := Leaf(SymbolAt(n - 1), f[n - 1]);
        assert LeavesBelow(f, n) == r + [leaf];
        forall t | t in r + [leaf]
          ensures t.Leaf? && t.freq > 0 && Slot(t.symbol) < n && f[Slot(t.symbol)] == t.freq
        {
          if t != leaf {
            assert t in r;
          }
        }
      } else {
        assert LeavesBelow(f, n) == r;
      }
    }
  }

  /** The leaves below slot `n` come in strictly ascending symbol order. */
  lemma {:induction false} LeavesBelowAscending(f: seq<int>, n: nat)
    requires IsFrequencyTable(f) && n <= 256
    ensures Ascending(LeavesBelow(f, n))
  {
    if n > 0 {
      LeavesBelowAscending(f, n - 1);
      LeavesBelowLeaves(f, n - 1);
      var r := LeavesBelow(f, n - 1);
      if f[n - 1] > 0 {
        var leaf := Leaf(SymbolAt(n - 1), f[n - 1]);
        var r' := r + [leaf];
        assert LeavesBelow(f, n) == r';
        forall j, k | 0 <= j < k < |r'|
          ensures r'[j].Leaf? && r'[k].Leaf? && r'[j].symbol < r'[k].symbol
        {
          assert r'[j] == r[j] && r[j] in r;
          if k < |r| {
            assert r'[k] == r[k];
          }
        }
      } else {
        assert LeavesBelow(f, n) == r;
      }
    }
  }

  /** A slot below `n` has a positive count exactly when its leaf is listed. */
  lemma {:induction false} LeavesBelowComplete(f: seq<int>, n: nat)
    requires IsFrequencyTable(f) && n <= 256
    ensures forall i :: 0 <= i < n ==> (f[i] > 0 <==> Leaf(SymbolAt(i), f[i]) in LeavesBelow(f, n))
  {
    if n > 0 {
      LeavesBelowComplete(f, n - 1);
      LeavesBelowLeaves(f, n - 1);
      var r := LeavesBelow(f, n - 1);
      assert Leaf(SymbolAt(n - 1), f[n - 1]) !in r;
      if f[n - 1] > 0 {
        assert LeavesBelow(f, n) == r + [Leaf(SymbolAt(n - 1), f[n - 1])];
      } else {
        assert LeavesBelow(f, n) == r;
      }
    }
  }

  /** What the leaves below slot `n` flatten to under `g`, slot by slot:
      for each slot of positive count, what `g` makes of its leaf. */
  function FlatBelow(f: seq<int>, n: nat, g: Tree -> seq<Byte>): seq<Byte>
    requires IsFrequencyTable(f) && n <= 256
  {
    if n == 0 then []
    else FlatBelow(f, n - 1, g) + if f[n - 1] > 0 then g(Leaf(SymbolAt(n - 1), f[n - 1])) else []
  }

  /** Flattening the initial list under `g` gives `FlatBelow`. */
  lemma {:induction false} FlattenLeavesBelow(f: seq<int>, n: nat, g: Tree -> seq<Byte>)
    requires IsFrequencyTable(f) && n <= 256
    ensures Flatten(LeavesBelow(f, n), g) == FlatBelow(f, n, g)
  {
    if n > 0 {
      FlattenLeavesBelow(f, n - 1, g);
      var r := LeavesBelow(f, n - 1);
      if f[n - 1] > 0 {
        var leaf := Leaf(SymbolAt(n - 1), f[n - 1]);
        assert LeavesBelow(f, n) == r + [leaf];
        assert (r + [leaf])[..|r|] == r;
      } else {
        assert LeavesBelow(f, n) == r;
        assert FlatBelow(f, n, g) == FlatBelow(f, n - 1, g) + [];
      }
    }
  }

  /** The slots below `n` contribute the symbol of slot `i` as often as its
      count says when `i` lies below `n`, and not at all otherwise. */
  lemma {:induction false} FlatBelowCount(f: seq<int>, n: nat, i: nat)
    requires IsFrequencyTable(f) && n <= 256 && i < 256
    ensures multiset(FlatBelow(f, n, Occurrences))[SymbolAt(i)] == if i < n then f[i] else 0
  {
    if n > 0 {
      FlatBelowCount(f, n - 1, i);
      var a, b, x := FlatBelow(f, n - 1, Occurrences), SymbolAt(n - 1), SymbolAt(i);
      var t := if f[n - 1] > 0 then Occurrences(Leaf(b, f[n - 1])) else [];
      assert FlatBelow(f, n, Occurrences) == a + t;
      assert multiset(a + t)[x] == multiset(a)[x] + multiset(t)[x];
      SlotOccurrences(b, f[n - 1], x);
      if i != n - 1 {
        assert x != b;
      }
    }
  }

  /** What one slot of count `c` adds to the occurrences of symbol `x`. */
  lemma SlotOccurrences(b: Byte, c: int, x: Byte)
    requires c >= 0
    ensures multiset(if c > 0 then Occurrences(Leaf(b, c)) else [])[x] == if x == b then c else 0
  {
    MultisetRepeat(b, c);
  }

  /** The slots below `n` contribute the symbol of slot `i` once when `i`
      lies below `n` and has a positive count, and not at all otherwise. */
  lemma {:induction false} FlatBelowLeafCount(f: seq<int>, n: nat, i: nat)
    requires IsFrequencyTable(f) && n <= 256 && i < 256
    ensures multiset(FlatBelow(f, n, LeafSymbols))[SymbolAt(i)] == if i < n && f[i] > 0 then 1 else 0
  {
    if n > 0 {
      FlatBelowLeafCount(f, n - 1, i);
      var a, b, x := FlatBelow(f, n - 1, LeafSymbols), SymbolAt(n - 1), SymbolAt(i);
      var t := if f[n - 1] > 0 then LeafSymbols(Leaf(b, f[n - 1])) else [];
      assert FlatBelow(f, n, LeafSymbols) == a + t;
      assert multiset(a + t)[x] == multiset(a)[x] + multiset(t)[x];
      SlotLeafSymbols(b, f[n - 1], x);
      if i != n - 1 {
        assert x != b;
      }
    }
  }

  /** What one slot of count `c` adds to the leaf symbols equal to `x`. */
  lemma SlotLeafSymbols(b: Byte, c: int, x: Byte)
    requires c >= 0
    ensures multiset(if c > 0 then LeafSymbols(Leaf(b, c)) else [])[x] == if c > 0 && x == b then 1 else 0
  {
    if c > 0 {
      assert LeafSymbols(Leaf(b, c)) == [b];
    }
  }

  /** Flattened, the list holds the symbol of slot `i` as often as its count
      says when `i` lies below `n`, and not at all otherwise. */
lemma {:induction false} LeavesBelowCount(f: seq<int>, n: nat, i: nat)
    requires IsFrequencyTable(f) && n <= 256 && i < 256
    ensures multiset(Flatten(LeavesBelow(f, n), Occurrences))[SymbolAt(i)] ==
            if i < n then f[i] else 0
  {
    FlattenLeavesBelow(f, n, Occurrences);
    FlatBelowCount(f, n, i);
  }

  /** Flattened to leaf symbols, the list holds the symbol of slot `i` once
      when `i` lies below `n` and has a positive count, and not at all
      otherwise. */
  lemma {:induction false} LeavesBelowLeafCount(f: seq<int>, n: nat, i: nat)
    requires IsFrequencyTable(f) && n <= 256 && i < 256
    ensures multiset(Flatten(LeavesBelow(f, n), LeafSymbols))[SymbolAt(i)] ==
            if i < n && f[i] > 0 then 1 else 0
  {
    FlattenLeavesBelow(f, n, LeafSymbols);
    FlatBelowLeafCount(f, n, i);
  }

  /** The loop that starts the working list: one leaf per table slot of
      positive count, in ascending slot order (the lemmas above state what
      the list holds). */
  method InitialRoots(leaves: array<int>) returns (roots: seq<Tree>)
    requires IsFrequencyTable(leaves[..])
    ensures roots == LeavesBelow(leaves[..], 256)
  {
    roots := [];
    for i := 0 to 256
      invariant roots == LeavesBelow(leaves[..], i)
    {
      if leaves[i] > 0 {
        roots := roots + [Leaf(SymbolAt(i), leaves[i])];
      }
    }
  }

  /** One pass of the merge loop's body: remove the two lightest roots and
      append their parent. */
  method MergeRound(work: seq<Tree>) returns (next: seq<Tree>)
    requires |work| > 1
    ensures next == MergeStep(work)
    ensures |next| == |work| - 1
    ensures var parent := next[|next| - 1];
      && parent.Node?
      && parent.freq == parent.left.freq + parent.right.freq
      && parent.left.freq <= parent.right.freq
      && forall j :: 0 <= j < |next| - 1 ==> parent.right.freq <= next[j].freq
  {
    var least1, rest1 := RemoveSmallest(work);
    var least2, rest2 := RemoveSmallest(rest1);
    next := rest2 + [Node(least1, least2, least1.freq + least2.freq)];
  }

  /** The merge loop of the constructor: while more than one root remains,
      merge the two lightest. */
  method BuildTree(roots: seq<Tree>) returns (root: Tree)
    requires |roots| > 0
    ensures root == Build(roots)
  {
    var work := roots;
    while |work| > 1
      invariant |work| > 0
      invariant Build(work) == Build(roots)
      decreases |work|
    {
      work := MergeRound(work);
    }
    root := work[0];
  }

  /** The tree the constructor builds from a table with at least one
      positive count: well formed, without repeated leaves, holding every
      byte as often as its slot counts, and as heavy as all counts together. */
  lemma BuildFromTable(f: seq<int>, i: nat)
    requires IsFrequencyTable(f) && i < 256 && f[i] > 0
    ensures LeavesBelow(f, 256) != []
    ensures WellFormed(Build(LeavesBelow(f, 256)))
    ensures UniqueLeaves(Build(LeavesBelow(f, 256)))
    ensures forall j :: 0 <= j < 256 ==> multiset(Occurrences(Build(LeavesBelow(f, 256))))[SymbolAt(j)] == f[j]
  {
    var roots := LeavesBelow(f, 256);
    LeavesBelowComplete(f, 256);
    LeavesBelowLeaves(f, 256);
    assert AllWellFormed(roots) by {
      forall k | 0 <= k < |roots|
        ensures WellFormed(roots[k])
      {
        assert roots[k] in roots;
      }
    }
    BuildPreserves(roots);
    var t := Build(roots);
    forall j | 0 <= j < 256
      ensures multiset(Occurrences(t))[SymbolAt(j)] == f[j]
    {
      LeavesBelowCount(f, 256, j);
    }
    forall x: Byte
      ensures multiset(LeafSymbols(t))[x] <= 1
    {
      LeavesBelowLeafCount(f, 256, Slot(x));
    }
  }
}
