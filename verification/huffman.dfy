/** The codec object: it counts the bytes of its input, builds the tree,
    derives the codes into its leaf table, and encodes and decodes with them. */
module Huffman {
  import opened HuffmanTree
  import opened HuffmanBuild
  import opened HuffmanCodec
  import opened HuffmanLength

  /** The counting loop of the constructor: one increment of the slot
      `b + 128` per byte `b`, starting from a table of zeros. */
  method CountInto(frequency: array<int>, original: seq<Byte>)
    requires frequency.Length == 256
    requires forall j :: 0 <= j < 256 ==> frequency[j] == 0
    modifies frequency
    ensures forall j :: 0 <= j < 256 ==> frequency[j] == multiset(original)[SymbolAt(j)]
  {
    for i := 0 to |original|
      invariant forall j :: 0 <= j < 256 ==> frequency[j] == multiset(original[..i])[SymbolAt(j)]
    {
      var b := original[i];
      assert original[..i + 1] == original[..i] + [b];
      frequency[Slot(b)] := frequency[Slot(b)] + 1;
    }
    assert original[..|original|] == original;
  }

  class Huffman {
    /** The `frequency` fields of the 256 leaf slots; slot `b + 128` counts
        byte `b`. */
    const frequency: array<int>
    /** The `code` fields of the 256 leaf slots; None where the field is
        still null. */
    const code: array<Option<seq<Bit>>>
    /** The root of the coding tree; None for an empty input. */
    var root: Option<Tree>
    /** Frequency times code length, summed over the leaves. */
    var hCodeLength: int
    var originalLength: int
    /** The input the codec was built from. */
    ghost var source: seq<Byte>

    /** The state the constructor leaves behind: the counts of the input; the
        tree the merge loop builds from the leaves of those counts, which is
        well formed, without repeated leaves and holds the input up to order;
        its code table; and its weighted code length. */
    ghost predicate Valid()
      reads this, frequency, code
    {
      && frequency.Length == 256
      && code.Length == 256
      && ValidState(frequency[..], code[..], root, hCodeLength, originalLength, source)
    }

    /** Builds the codec for `original`: counting, the initial list of
        leaves, the merge loop, and the codes. */
    constructor (original: seq<Byte>)
      ensures Valid() && source == original
      ensures forall i :: 0 <= i < 256 ==> frequency[i] == multiset(original)[SymbolAt(i)]
      ensures root.Some? ==> root.value.freq == |original|
    {
      frequency := new int[256](_ => 0);
      code := new Option<seq<Bit>>[256](_ => None);
      root := None;
      hCodeLength := 0;
      originalLength := 0;
      source := original;
      new;
      if |original| == 0 {
        assert code[..] == CodeTable(None);
        return;
      }
      CountInto(frequency, original);
      ghost var counts := frequency[..];
      assert forall i :: 0 <= i < 256 ==> counts[i] == multiset(original)[SymbolAt(i)];
      var t := GrowTree(frequency, original);
      root := Some(t);
      SetRootCodes(t);
      originalLength := |original|;
      assert frequency[..] == counts;
    }

    /** The root of a valid codec is the tree the merge loop builds from the
        leaves of its counts. */
    lemma GreedyTree()
      requires Valid() && root.Some?
      ensures root.value == Build(LeavesBelow(frequency[..], 256))
    {
    }

    /** The constructor's call of `setCodes` on the root with an empty code,
        over a table of nulls: the table becomes the tree's code table and
        `hCodeLength` its weighted code length. */
    method SetRootCodes(t: Tree)
      requires code.Length == 256 && hCodeLength == 0
      requires forall i :: 0 <= i < 256 ==> code[i] == None
      modifies code, this`hCodeLength
      ensures code[..] == CodeTable(Some(t))
      ensures hCodeLength == CostAt(t, 0)
    {
      SetCodes(t, []);
      CodesFromRoot(t, code[..]);
    }

    /** `setCodes`: every symbol below `node` gets the code `prefix` followed
        by its path from `node` (a lone root leaf: [0]), and the weighted code
        length of the subtree is added to `hCodeLength`. A symbol on both
        sides keeps the code of the right, written last. */
    method SetCodes(node: Tree, prefix: seq<Bit>)
      requires code.Length == 256
      modifies code, this`hCodeLength
      ensures forall i :: 0 <= i < 256 ==>
        code[i] == if SymbolAt(i) in Symbols(node)
                   then Some(LeafCode(prefix + Path(node, SymbolAt(i))))
                   else old(code[i])
      ensures hCodeLength == old(hCodeLength) + CostAt(node, |prefix|)
      decreases node
    {
      match node
      case Leaf(b, f) =>
        var c := prefix;
        if |c| == 0 {
          c := AddBit(c, 0);
        }
        assert prefix + [] == prefix;
        code[Slot(b)] := Some(c);
        hCodeLength := hCodeLength + f * |c|;
      case Node(l, r, _) =>
        assert AddBit(prefix, 0) == prefix + [0];
        assert AddBit(prefix, 1) == prefix + [1];
        SetCodes(l, AddBit(prefix, 0));
        SetCodes(r, AddBit(prefix, 1));
        forall i | 0 <= i < 256 && SymbolAt(i) in Symbols(node)
          ensures code[i] == Some(LeafCode(prefix + Path(node, SymbolAt(i))))
        {
          var x := SymbolAt(i);
          if x in Symbols(r) {
            assert prefix + Path(node, x) == AddBit(prefix, 1) + Path(r, x);
          } else {
            assert prefix + Path(node, x) == AddBit(prefix, 0) + Path(l, x);
          }
        }
    }

    /** `bitLength`: the number of bits of the encoding of the input. */
    function BitLength(): (n: int)
      requires Valid()
      reads this, frequency, code
      ensures Encoding(code[..], source, originalLength).Ok?
      ensures n == |Encoding(code[..], source, originalLength).value|
    {
      SourceRoundTrip();
      hCodeLength
    }

    /** `encode`, producing the concatenation of the codes: a byte without a
        code fails with `UnknownSymbol`, and more bytes than the input had
        with `IndexOutOfBounds`. */
    method Encode(data: seq<Byte>) returns (r: Result<seq<Bit>>)
      requires Valid()
      ensures r == Encoding(code[..], data, originalLength)
    {
      r := EncodeTable(code, originalLength, data);
    }

    /** `decode` with the codec's tree and output length. */
    method Decode(bits: seq<Bit>) returns (r: Result<seq<Byte>>)
      requires Valid()
      ensures r == Decoding(root, originalLength, bits)
    {
      if root.None? {
        var output := new Byte[originalLength](_ => 0);
        assert output[..] == Repeat<Byte>(0, originalLength);
        return Ok(output[..]);
      }
      r := DecodeWith(root.value, originalLength, bits);
    }

    /** The round trip `main` checks, on the codec's own input: encoding the
        input succeeds with `bitLength` bits, and decoding them gives the
        input back. */
    lemma SourceRoundTrip()
      requires Valid()
      ensures Encoding(code[..], source, originalLength).Ok?
      ensures |Encoding(code[..], source, originalLength).value| == hCodeLength
      ensures Decoding(root, originalLength, Encoding(code[..], source, originalLength).value) == Ok(source)
    {
      if root.Some? {
        var t := root.value;
        BitLengthIdentity(t, source);
        EncodingByTree(t, source, originalLength);
        RoundTrip(t, source);
      }
    }
  }

  /** The body of `encode` for the code table `code` and an output buffer of
      `room` slots: each byte in turn appends its code. */
  method EncodeTable(code: array<Option<seq<Bit>>>, room: nat, data: seq<Byte>) returns (r: Result<seq<Bit>>)
    requires code.Length == 256
    ensures r == Encoding(code[..], data, room)
  {
    var bits: seq<Bit> := [];
    var index := 0;
    PrependNothing(Encoding(code[..], data, room));
    assert data[0..] == data;
    while index < |data|
      invariant 0 <= index <= |data| && index <= room
      invariant Encoding(code[..], data, room) == Prepend(bits, Encoding(code[..], data[index..], room - index))
    {
      var input := data[index];
      EncodingAdvance(code[..], data, room, index, bits);
      match code[Slot(input)]
      case None =>
        return Err(UnknownSymbol);
      case Some(c) =>
        if index == room {
          return Err(IndexOutOfBounds);
        }
        bits := bits + c;
      index := index + 1;
    }
    assert data[index..] == [];
    assert bits + [] == bits;
    return Ok(bits);
  }

  /** The body of `decode` for the tree `t` and an output buffer of `n`
      slots: a lone leaf fills the buffer with its symbol; otherwise the bits
      walk the tree from the root, and each leaf reached writes the next slot
      and returns the walk to the root. */
  method DecodeWith(t: Tree, n: nat, bits: seq<Bit>) returns (r: Result<seq<Byte>>)
    ensures r == Decoding(Some(t), n, bits)
  {
    if t.Leaf? {
      var filled := Fill(t.symbol, n);
      return Ok(filled);
    }
    var output := new Byte[n](_ => 0);
    var curr := t;
    var index := 0;
    for i := 0 to |bits|
      invariant curr.Node? && 0 <= index <= n
      invariant Walk(t, t, bits) == output[..index] + Walk(t, curr, bits[i..])
      invariant forall k :: index <= k < n ==> output[k] == 0
    {
      WalkAdvance(t, curr, bits, i, output[..index]);
      curr := if bits[i] == 0 then curr.left else curr.right;
      if curr.Leaf? {
        if index == n {
          return Err(IndexOutOfBounds);
        }
        output[index] := curr.symbol;
        assert output[..index + 1] == output[..index] + [curr.symbol];
        index := index + 1;
        curr := t;
      }
    }
    assert bits[|bits|..] == [];
    DecodedBuffer(t, n, bits, output[..], index);
    return Ok(output[..]);
  }

  /** A buffer of `n` slots holding the walk's symbols in front and zeros
      behind is what `decode` returns. */
  lemma DecodedBuffer(t: Tree, n: nat, bits: seq<Bit>, out: seq<Byte>, index: nat)
    requires t.Node? && index <= n && |out| == n
    requires Walk(t, t, bits) == out[..index]
    requires forall k :: index <= k < n ==> out[k] == 0
    ensures Decoding(Some(t), n, bits) == Ok(out)
  {
    assert out == out[..index] + Repeat<Byte>(0, n - index);
  }

  /** The lone-leaf branch of `decode`: every one of the `n` output slots
      gets the leaf's symbol. */
  method Fill(symbol: Byte, n: nat) returns (s: seq<Byte>)
    ensures s == Repeat(symbol, n)
  {
    var output := new Byte[n](_ => 0);
    for i := 0 to n
      invariant forall k :: 0 <= k < i ==> output[k] == symbol
    {
      output[i] := symbol;
    }
    s := output[..];
  }

  /** The codec's state as values: `counts` are the counts of `source`;
      `root` is absent exactly for an empty input and otherwise is the tree
      grown from the counts; `table` is its code table; `cost` its weighted
      code length; and `n` the input length. */
  ghost predicate ValidState(counts: seq<int>, table: seq<Option<seq<Bit>>>, root: Option<Tree>,
                             cost: int, n: int, source: seq<Byte>)
  {
    && |counts| == 256
    && n == |source|
    && (forall i :: 0 <= i < 256 ==> counts[i] == multiset(source)[SymbolAt(i)])
    && (root.None? <==> source == [])
    && (root.Some? ==> GrownFrom(counts, source, root.value))
    && table == CodeTable(root)
    && cost == if root.Some? then CostAt(root.value, 0) else 0
  }

  /** `t` is the tree the merge loop builds from the leaves of the counts
      `counts` of `original` (`Build` of `LeavesBelow(counts, 256)`): well
      formed, without repeated leaves, holding `original` up to order, and as
      heavy as it is long. The equation is stated for every list equal to the
      initial list, so that `Build` is only unfolded where a goal asks for it;
      `Huffman.GreedyTree` states it directly. */
  ghost predicate GrownFrom(counts: seq<int>, original: seq<Byte>, t: Tree) {
    && IsFrequencyTable(counts)
    && LeavesBelow(counts, 256) != []
    && (forall roots | roots == LeavesBelow(counts, 256) :: t == Build(roots))
    && WellFormed(t)
    && UniqueLeaves(t)
    && multiset(Occurrences(t)) == multiset(original)
    && t.freq == |original|
  }

  /** The list of leaves and the merge loop of the constructor, over the
      counts of a non-empty input. */
  method GrowTree(frequency: array<int>, ghost original: seq<Byte>) returns (t: Tree)
    requires frequency.Length == 256 && original != []
    requires forall j :: 0 <= j < 256 ==> frequency[j] == multiset(original)[SymbolAt(j)]
    ensures GrownFrom(frequency[..], original, t)
  {
    TreeOfInput(frequency[..], original);
    var roots := InitialRoots(frequency);
    t := BuildTree(roots);
  }

  /** The table `setCodes` leaves behind, started from the root with an
      empty prefix over a table of nulls, is the code table of the tree. */
  lemma CodesFromRoot(t: Tree, table: seq<Option<seq<Bit>>>)
    requires |table| == 256
    requires forall i :: 0 <= i < 256 ==>
      table[i] == if SymbolAt(i) in Symbols(t) then Some(LeafCode([] + Path(t, SymbolAt(i)))) else None
    ensures table == CodeTable(Some(t))
  {
    forall i | 0 <= i < 256 && SymbolAt(i) in Symbols(t)
      ensures table[i] == CodeTable(Some(t))[i]
    {
      assert [] + Path(t, SymbolAt(i)) == Path(t, SymbolAt(i));
    }
  }

  lemma PrependNothing(r: Result<seq<Bit>>)
    ensures Prepend([], r) == r
  {
    if r.Ok? {
      assert [] + r.value == r.value;
    }
  }

  lemma PrependTwice(p: seq<Bit>, q: seq<Bit>, r: Result<seq<Bit>>)
    ensures Prepend(p, Prepend(q, r)) == Prepend(p + q, r)
  {
    if r.Ok? {
      assert p + (q + r.value) == (p + q) + r.value;
    }
  }

  /** One step of the encoding loop at byte `index`, with `bits` produced so
      far: a byte without a code fails, a byte past the room fails, and
      otherwise its code is appended. */
  lemma EncodingAdvance(table: seq<Option<seq<Bit>>>, data: seq<Byte>, room: nat, index: nat, bits: seq<Bit>)
    requires |table| == 256 && index < |data| && index <= room
    requires Encoding(table, data, room) == Prepend(bits, Encoding(table, data[index..], room - index))
    ensures match table[Slot(data[index])]
      case None => Encoding(table, data, room) == Err(UnknownSymbol)
      case Some(c) =>
        if index == room then Encoding(table, data, room) == Err(IndexOutOfBounds)
        else Encoding(table, data, room) == Prepend(bits + c, Encoding(table, data[index + 1..], room - index - 1))
  {
    assert data[index..][1..] == data[index + 1..];
    if table[Slot(data[index])].Some? && index < room {
      PrependTwice(bits, table[Slot(data[index])].value, Encoding(table, data[index + 1..], room - index - 1));
    }
  }

  /** The tree the constructor builds from the counts of a non-empty input:
      well formed, without repeated leaves, and holding the input up to
      order. */
  lemma TreeOfInput(f: seq<int>, original: seq<Byte>)
    requires |f| == 256 && original != []
    requires forall j :: 0 <= j < 256 ==> f[j] == multiset(original)[SymbolAt(j)]
    ensures IsFrequencyTable(f) && LeavesBelow(f, 256) != []
    ensures WellFormed(Build(LeavesBelow(f, 256)))
    ensures UniqueLeaves(Build(LeavesBelow(f, 256)))
    ensures multiset(Occurrences(Build(LeavesBelow(f, 256)))) == multiset(original)
    ensures Build(LeavesBelow(f, 256)).freq == |original|
  {
    assert original[0] in multiset(original);
    BuildFromTable(f, Slot(original[0]));
    var t := Build(LeavesBelow(f, 256));
    forall x: Byte
      ensures multiset(Occurrences(t))[x] == multiset(original)[x]
    {
      assert SymbolAt(Slot(x)) == x;
    }
    assert multiset(Occurrences(t)) == multiset(original);
    WeightIsOccurrences(t);
  }

  /** What `main` does with its input: build the codec, encode the input,
      decode the bits; the decoded bytes equal the input, and the encoding is
      `bitLength` bits long. */
  method EncodeDecode(original: seq<Byte>)
    returns (encoded: Result<seq<Bit>>, decoded: Result<seq<Byte>>, length: int)
    ensures encoded.Ok? && |encoded.value| == length
    ensures decoded == Ok(original)
  {
    var h := new Huffman(original);
    h.SourceRoundTrip();
    encoded := h.Encode(original);
    decoded := h.Decode(encoded.value);
    length := h.BitLength();
  }
}
