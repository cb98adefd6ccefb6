/** Encoding bytes into the concatenation of their codes and decoding a bit
    sequence by walking the tree, with the error cases of the Java code. */
module HuffmanCodec {
  import opened HuffmanTree

  /** `UnknownSymbol`: a byte without a code (the Java code dereferences a
      null code array). `IndexOutOfBounds`: more output than the buffer of
      `originalLength` slots holds (the Java code indexes past the array). */
  datatype Error = UnknownSymbol | IndexOutOfBounds

  datatype Result<T> = Ok(value: T) | Err(error: Error)

  /** `p` in front of a successful result; errors pass through. */
  function Prepend(p: seq<Bit>, r: Result<seq<Bit>>): Result<seq<Bit>> {
    match r
    case Ok(v) => Ok(p + v)
    case Err(e) => Err(e)
  }

  /** The `code` fields of the 256 leaf slots once `setCodes` has run on
      `root`: the code of every symbol of the tree, and none for the rest. */
  function CodeTable(root: Option<Tree>): (table: seq<Option<seq<Bit>>>)
    ensures |table| == 256
    ensures forall i :: 0 <= i < 256 ==>
      (table[i].Some? <==> root.Some? && SymbolAt(i) in Symbols(root.value))
  {
    seq(256, i requires 0 <= i < 256 =>
      if root.Some? && SymbolAt(i) in Symbols(root.value)
      then Some(CodeOf(root.value, SymbolAt(i)))
      else None)
  }

  /** `encode`, with the one-byte-per-symbol packing replaced by the bit
      sequence itself: each byte in turn is looked up in the table (missing
      code: `UnknownSymbol`) and takes one of `room` output slots (none
      left: `IndexOutOfBounds`). */
  function Encoding(table: seq<Option<seq<Bit>>>, data: seq<Byte>, room: nat): (r: Result<seq<Bit>>)
    requires |table| == 256
    ensures r.Ok? <==> |data| <= room && forall i :: 0 <= i < |data| ==> table[Slot(data[i])].Some?
  {
    if data == [] then Ok([])
    else match table[Slot(data[0])]
      case None => Err(UnknownSymbol)
      case Some(c) =>
        if room == 0 then Err(IndexOutOfBounds)
        else Prepend(c, Encoding(table, data[1..], room - 1))
  }

  /** The concatenation of the codes of `s` in the tree `t`. */
  function EncodeWith(t: Tree, s: seq<Byte>): seq<Bit>
    requires InAlphabet(t, s)
  {
    if s == [] then [] else CodeOf(t, s[0]) + EncodeWith(t, s[1..])
  }

  /** The symbols the decoding loop emits for `bits`, standing at `curr`:
      each bit steps left (0) or right (1); reaching a leaf emits its symbol
      and goes back to the root. Bits left over after the last leaf emit
      nothing. At most one symbol is emitted per bit, and each is a symbol
      of the tree. */
  function Walk(root: Tree, curr: Tree, bits: seq<Bit>): (r: seq<Byte>)
    requires root.Node? && curr.Node?
    ensures |r| <= |bits|
    ensures forall x :: x in r ==> x in Symbols(curr) || x in Symbols(root)
    decreases |bits|
  {
    if bits == [] then []
    else
      var next := if bits[0] == 0 then curr.left else curr.right;
      if next.Leaf? then [next.symbol] + Walk(root, root, bits[1..])
      else Walk(root, next, bits[1..])
  }

  /** One step of the decoding loop at bit `i`, with `done` emitted so far:
      the bit picks a child; a leaf is emitted and the walk restarts at the
      root. */
  lemma WalkAdvance(root: Tree, curr: Tree, bits: seq<Bit>, i: nat, done: seq<Byte>)
    requires root.Node? && curr.Node? && i < |bits|
    requires Walk(root, root, bits) == done + Walk(root, curr, bits[i..])
    ensures var next := if bits[i] == 0 then curr.left else curr.right;
      if next.Leaf?
      then Walk(root, root, bits) == (done + [next.symbol]) + Walk(root, root, bits[i + 1..])
      else Walk(root, root, bits) == done + Walk(root, next, bits[i + 1..])
  {
    assert bits[i..][1..] == bits[i + 1..];
  }

  /** `decode` into an output buffer of `n` zero-initialised slots. A lone
      leaf fills the buffer with its symbol whatever the bits; otherwise the
      walk's symbols fill the buffer from the front, too many of them is
      `IndexOutOfBounds`, and unwritten slots stay 0. A codec without a tree
      returns the untouched buffer. */
  function Decoding(root: Option<Tree>, n: nat, bits: seq<Bit>): (r: Result<seq<Byte>>)
    ensures r.Ok? ==> |r.value| == n
    ensures r.Err? ==> root.Some? && root.value.Node? && |Walk(root.value, root.value, bits)| > n
  {
    match root
    case None => Ok(Repeat<Byte>(0, n))
    case Some(t) =>
      if t.Leaf? then Ok(Repeat(t.symbol, n))
      else
        var syms := Walk(t, t, bits);
        if |syms| > n then Err(IndexOutOfBounds) else Ok(syms + Repeat<Byte>(0, n - |syms|))
  }

  /** Two different symbols of the table never have codes one of which
      starts the other. */
  lemma CodeTablePrefixFree(root: Option<Tree>, i: nat, j: nat)
    requires i < 256 && j < 256 && i != j
    requires CodeTable(root)[i].Some? && CodeTable(root)[j].Some?
    ensures !(CodeTable(root)[i].value <= CodeTable(root)[j].value)
  {
    CodesPrefixFree(root.value, SymbolAt(i), SymbolAt(j));
  }

  /** Encoding with the table of `t` is the concatenation of codes when every
      byte has a code and fits; a byte without a code fails with
      `UnknownSymbol`, too many bytes with `IndexOutOfBounds`. */
  lemma {:induction false} EncodingByTree(t: Tree, s: seq<Byte>, room: nat)
    ensures InAlphabet(t, s) && |s| <= room ==>
      Encoding(CodeTable(Some(t)), s, room) == Ok(EncodeWith(t, s))
    ensures !InAlphabet(t, s) && |s| <= room ==>
      Encoding(CodeTable(Some(t)), s, room) == Err(UnknownSymbol)
    ensures InAlphabet(t, s) && |s| > room ==>
      Encoding(CodeTable(Some(t)), s, room) == Err(IndexOutOfBounds)
  {
    if s != [] {
      var table := CodeTable(Some(t));
      var tail := s[1..];
      assert InAlphabet(t, s) ==> InAlphabet(t, tail) by {
        if InAlphabet(t, s) {
          forall i | 0 <= i < |tail|
            ensures tail[i] in Symbols(t)
          {
            assert tail[i] == s[i + 1];
          }
        }
      }
      assert (s[0] in Symbols(t) && !InAlphabet(t, tail)) ==> !InAlphabet(t, s) by {
        if s[0] in Symbols(t) && !InAlphabet(t, tail) {
          var i :| 0 <= i < |tail| && tail[i] !in Symbols(t);
          assert s[i + 1] == tail[i];
        }
      }
      assert SymbolAt(Slot(s[0])) == s[0];
      if room > 0 {
        EncodingByTree(t, tail, room - 1);
      }
    }
  }

  /** Walking the path of `b` from `c` emits `b` and leaves the walk at the
      root for whatever follows. */
  lemma {:induction false} WalkPath(root: Tree, c: Tree, b: Byte, rest: seq<Bit>)
    requires root.Node? && c.Node? && b in Symbols(c)
    ensures Walk(root, c, Path(c, b) + rest) == [b] + Walk(root, root, rest)
  {
    var p := Path(c, b) + rest;
    var next := if b in Symbols(c.right) then c.right else c.left;
    assert p[0] == (if b in Symbols(c.right) then 1 else 0);
    assert p[1..] == Path(next, b) + rest;
    if next.Node? {
      WalkPath(root, next, b, rest);
    }
  }

  /** Decoding walks back exactly the symbols a tree with at least two
      leaves encoded. */
  lemma {:induction false} WalkEncoded(t: Tree, s: seq<Byte>)
    requires t.Node? && InAlphabet(t, s)
    ensures Walk(t, t, EncodeWith(t, s)) == s
  {
    if s != [] {
      var tail := s[1..];
      assert InAlphabet(t, tail) by {
        forall i | 0 <= i < |tail|
          ensures tail[i] in Symbols(t)
        {
          assert tail[i] == s[i + 1];
        }
      }
      WalkPath(t, t, s[0], EncodeWith(t, tail));
      WalkEncoded(t, tail);
    }
  }

  /** The round trip `main` checks: decoding, into a buffer as long as the
      input, the encoding of any input over the tree's symbols gives the
      input back. */
  lemma RoundTrip(t: Tree, s: seq<Byte>)
    requires InAlphabet(t, s)
    ensures Decoding(Some(t), |s|, EncodeWith(t, s)) == Ok(s)
  {
    if t.Node? {
      WalkEncoded(t, s);
      assert s + Repeat<Byte>(0, 0) == s;
    } else {
      assert s == Repeat(t.symbol, |s|);
    }
  }
}
