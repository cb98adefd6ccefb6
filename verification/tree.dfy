/** The Huffman coding tree over the 256 Java byte values, the root-to-leaf
    paths that become codes, and the facts about paths that make the code
    prefix-free. */
module HuffmanTree {

  /** A Java `byte`: the symbol alphabet, -128..127. Tables indexed by a
      symbol use the slot `b + 128`. */
  type Byte = b: int | -128 <= b < 128

  /** One code bit: 0 means "go left", 1 means "go right". */
  type Bit = v: int | 0 <= v < 2

  datatype Option<T> = None | Some(value: T)

  /** A leaf carries a symbol and how often it occurred; an internal node
      carries its two children and (when well formed) the sum of their
      frequencies. */
  datatype Tree =
    | Leaf(symbol: Byte, freq: nat)
    | Node(left: Tree, right: Tree, freq: nat)

  /** The symbol stored in table slot `i` (the inverse of `b + 128`). */
  function SymbolAt(i: int): (b: Byte)
    requires 0 <= i < 256
    ensures b as int + 128 == i
  {
    i - 128
  }

  /** The table slot of symbol `b`, as Java's `b + 128`. */
  function Slot(b: Byte): (i: nat)
    ensures i < 256 && SymbolAt(i) == b
  {
    b as int + 128
  }

  function Repeat<T>(x: T, n: nat): (r: seq<T>)
    ensures |r| == n
    ensures forall i :: 0 <= i < n ==> r[i] == x
  {
    if n == 0 then [] else [x] + Repeat(x, n - 1)
  }

  /** The symbols at the leaves of `t`. */
  function Symbols(t: Tree): set<Byte> {
    match t
    case Leaf(b, _) => {b}
    case Node(l, r, _) => Symbols(l) + Symbols(r)
  }

  /** The leaf symbols of `t` from left to right, with repetitions. */
  function LeafSymbols(t: Tree): seq<Byte> {
    match t
    case Leaf(b, _) => [b]
    case Node(l, r, _) => LeafSymbols(l) + LeafSymbols(r)
  }

  /** Every leaf contributes its symbol as many times as its frequency says:
      for the final tree this is the input buffer up to reordering. */
  function Occurrences(t: Tree): seq<Byte> {
    match t
    case Leaf(b, f) => Repeat<Byte>(b, f)
    case Node(l, r, _) => Occurrences(l) + Occurrences(r)
  }

  /** Leaves have a positive frequency and every internal node's frequency
      is the sum of its children's. */
  ghost predicate WellFormed(t: Tree) {
    match t
    case Leaf(_, f) => f > 0
    case Node(l, r, f) => f == l.freq + r.freq && WellFormed(l) && WellFormed(r)
  }

  /** No symbol sits at two leaves. */
  ghost predicate UniqueLeaves(t: Tree) {
    forall x :: multiset(LeafSymbols(t))[x] <= 1
  }

  /** The root-to-leaf path of `b`, 0 for left and 1 for right. When a symbol
      were to sit on both sides, the right one wins, as the later write of
      `setCodes` would. Only a tree that is a lone leaf has empty paths. */
  function Path(t: Tree, b: Byte): (p: seq<Bit>)
    requires b in Symbols(t)
    ensures p == [] <==> t.Leaf?
  {
    match t
    case Leaf(_, _) => []
    case Node(l, r, _) =>
      if b in Symbols(r) then [1] + Path(r, b) else [0] + Path(l, b)
  }

  /** `addBit`: a fresh code one longer than `code`, ending in `value`. */
  function AddBit(code: seq<Bit>, value: Bit): (r: seq<Bit>)
    ensures |r| == |code| + 1
    ensures r[..|code|] == code && r[|code|] == value
  {
    if |code| == 0 then [value] else code + [value]
  }

  /** The length of the code of a leaf `k` bits below the root: a root that
      is itself a leaf still gets one bit. */
  function CodeLength(k: nat): (n: nat)
    ensures n >= 1 && (k > 0 ==> n == k)
  {
    if k == 0 then 1 else k
  }

  /** The code a leaf receives for the path `p` that reaches it: a root that
      is itself a leaf has the empty path and gets the code [0]. */
  function LeafCode(p: seq<Bit>): (c: seq<Bit>)
    ensures |c| == CodeLength(|p|)
    ensures |p| > 0 ==> c == p
    ensures |p| == 0 ==> c == [0]
  {
    if |p| == 0 then AddBit(p, 0) else p
  }

  /** The code of symbol `b` in the tree rooted at `t`. */
  function CodeOf(t: Tree, b: Byte): seq<Bit>
    requires b in Symbols(t)
  {
    LeafCode(Path(t, b))
  }

  /** The sum over the leaves of `t` of frequency times code length, for a
      subtree whose root lies `depth` bits below the tree's root. */
  function CostAt(t: Tree, depth: nat): (c: nat)
    ensures WellFormed(t) ==> c >= t.freq
  {
    match t
    case Leaf(_, f) => f * CodeLength(depth)
    case Node(l, r, _) => CostAt(l, depth + 1) + CostAt(r, depth + 1)
  }

  /** The subtree reached by walking the bits of `p` from `t`; None when the
      walk tries to step below a leaf. */
  function Follow(t: Tree, p: seq<Bit>): Option<Tree> {
    if p == [] then Some(t)
    else match t
      case Leaf(_, _) => None
      case Node(l, r, _) => Follow(if p[0] == 0 then l else r, p[1..])
  }

  /** True when every element of `s` is a symbol of `t`. */
  predicate InAlphabet(t: Tree, s: seq<Byte>) {
    forall i :: 0 <= i < |s| ==> s[i] in Symbols(t)
  }

  lemma {:induction false} PathReachesLeaf(t: Tree, b: Byte)
    requires b in Symbols(t)
    ensures Follow(t, Path(t, b)).Some?
    ensures Follow(t, Path(t, b)).value.Leaf?
    ensures Follow(t, Path(t, b)).value.symbol == b
  {
    match t
    case Leaf(_, _) =>
    case Node(l, r, _) =>
      if b in Symbols(r) {
        PathReachesLeaf(r, b);
        assert ([1] + Path(r, b))[1..] == Path(r, b);
      } else {
        PathReachesLeaf(l, b);
        assert ([0] + Path(l, b))[1..] == Path(l, b);
      }
  }

  /** Two different symbols never have paths one of which extends the other. */
  lemma {:induction false} PathsPrefixFree(t: Tree, b: Byte, c: Byte)
    requires b in Symbols(t) && c in Symbols(t) && b != c
    ensures !(Path(t, b) <= Path(t, c))
  {
    match t
    case Leaf(_, _) =>
    case Node(l, r, _) =>
      var pb, pc := Path(t, b), Path(t, c);
      if pb <= pc {
        assert pb[0] == pc[0];
        if b in Symbols(r) {
          assert c in Symbols(r);
          assert pb[1..] <= pc[1..];
          PathsPrefixFree(r, b, c);
        } else {
          assert c !in Symbols(r);
          assert pb[1..] <= pc[1..];
          PathsPrefixFree(l, b, c);
        }
      }
  }

  /** The code table of a tree is prefix-free: no symbol's code starts
      another symbol's code, the lone-leaf code [0] included. */
  lemma CodesPrefixFree(t: Tree, b: Byte, c: Byte)
    requires b in Symbols(t) && c in Symbols(t) && b != c
    ensures !(CodeOf(t, b) <= CodeOf(t, c))
  {
    if t.Node? {
      PathsPrefixFree(t, b, c);
    }
  }

  lemma {:induction false} LeafSymbolsAreSymbols(t: Tree)
    ensures forall x :: x in LeafSymbols(t) <==> x in Symbols(t)
  {
    match t
    case Leaf(_, _) =>
    case Node(l, r, _) =>
      LeafSymbolsAreSymbols(l);
      LeafSymbolsAreSymbols(r);
  }

  /** In a tree without repeated leaves the two subtrees of a node share no
      symbol, and each is again without repeated leaves. */
  lemma UniqueLeavesSplit(t: Tree)
    requires t.Node? && UniqueLeaves(t)
    ensures Symbols(t.left) !! Symbols(t.right)
    ensures UniqueLeaves(t.left) && UniqueLeaves(t.right)
  {
    LeafSymbolsAreSymbols(t.left);
    LeafSymbolsAreSymbols(t.right);
    var ml, mr := multiset(LeafSymbols(t.left)), multiset(LeafSymbols(t.right));
    assert multiset(LeafSymbols(t)) == ml + mr;
    forall x | x in Symbols(t.left)
      ensures x !in Symbols(t.right)
    {
      assert multiset(LeafSymbols(t))[x] <= 1;
    }
    forall x
      ensures ml[x] <= 1 && mr[x] <= 1
    {
      assert multiset(LeafSymbols(t))[x] <= 1;
    }
  }

  /** A well-formed tree's frequency counts its occurrences, and its symbols
      are exactly the values that occur. */
  lemma {:induction false} WeightIsOccurrences(t: Tree)
    requires WellFormed(t)
    ensures t.freq == |Occurrences(t)|
    ensures forall x :: x in Occurrences(t) <==> x in Symbols(t)
  {
    match t
    case Leaf(b, f) =>
      assert Occurrences(t)[0] == b;
    case Node(l, r, _) =>
      WeightIsOccurrences(l);
      WeightIsOccurrences(r);
  }
}
