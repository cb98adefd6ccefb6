# Huffman codec over Java bytes

A model of `src/Huffman.java`. This is a Huffman codec that does the following:
- counts how often each of the 256 byte values occurs in its input;
- builds a coding tree by repeatedly merging the two lightest roots of a working list;
- derives each byte's code from its root-to-leaf path;
- encodes and decodes with those codes.

The model is split into five modules:

- `HuffmanTree` (`tree.dfy`): the symbol alphabet and the tree.
  - A Java `byte`, -128..127, stored in table slot `b + 128`.
  - The tree is the datatype `Leaf(symbol, freq) | Node(left, right, freq)`.
  - Root-to-leaf paths, where 0 means left and 1 means right.
  - `addBit`, and the code each leaf receives.
  - The weighted code length `setCodes` accumulates.
  - Prefix-freeness of the codes.
- `HuffmanBuild` (`builder.dfy`): the constructor's tree building.
  - The initial working list of leaves.
  - `removeSmallest`.
  - The merge loop, specified by the functions `MinIndex`, `MergeStep` and `Build`.
  - The invariants the loop keeps: every node's frequency is the sum of its children's, and the multiset of occurrences is unchanged.
- `HuffmanCodec` (`codec.dfy`): encoding and decoding on bit sequences.
  - The two Java failure modes become `Result` errors:
    - a byte without a code, where Java dereferences a null code;
    - more symbols than the `originalLength`-slot buffer holds, where Java indexes past an array.
  - The round trip `decode(encode(x)) == x`.
- `HuffmanLength` (`length.dfy`): the bit-length identity. The sum over the leaves of frequency × code length equals the length of the encoding of the input the tree was built from.
- `Huffman` (`huffman.dfy`): the codec object.
  - A class with the 256-slot `frequency` and `code` tables, `root`, `hCodeLength` and `originalLength`.
  - The constructor, `setCodes`, `bitLength`, `encode` and `decode`.
  - The predicate `Valid`, which states the codec's state after the constructor: the counts of the input; the tree `Build` makes from the initial list of leaves of those counts, with its properties; the code table of that tree; and its weighted code length.
  - `EncodeDecode`, the round trip that `main` performs.

The encoder's output is the explicit bit sequence: the concatenation of the symbols' codes. The decoder consumes exactly that sequence. `bitLength` is the length of this sequence.

A bit stream that ends in the middle of a code, or one that holds fewer symbols than `originalLength`, is not an error, neither in the Java program nor in the model. The walk stops at the last complete code. The output buffer keeps its remaining slots at 0 (src/Huffman.java:171, 195), so the decoder returns the decoded symbols followed by zeros.

## Model

| member | source | states |
|---|---|---|
| HuffmanTree.SymbolAt | src/Huffman.java:38 | the symbol of leaf slot `i` is the byte whose slot is `i` (slot = byte + 128) |
| HuffmanTree.Slot | src/Huffman.java:49 | every byte has a slot in 0..255, and the slot's symbol is that byte again |
| HuffmanTree.AddBit | src/Huffman.java:95-103 | the new code is one bit longer, starts with the old code and ends with the given bit |
| HuffmanTree.CodeLength | src/Huffman.java:80-83 | a code is at least one bit long and is exactly as long as a non-empty path |
| HuffmanTree.LeafCode | src/Huffman.java:80-81 | a leaf's code is its path when the path is not empty; an empty path (a root that is a leaf) gets the one-bit code [0]; the code is `CodeLength` of the path long |
| HuffmanTree.Path | src/Huffman.java:86-87 | the path of a symbol is empty exactly when the tree is a lone leaf |
| HuffmanTree.CostAt | src/Huffman.java:83 | in a well-formed tree, the frequency × code length total is at least the root frequency, because every code has at least one bit |
| HuffmanTree.PathReachesLeaf | src/Huffman.java:79-87 | following a symbol's path (0 left, 1 right) from the root ends at a leaf holding that symbol |
| HuffmanTree.PathsPrefixFree | src/Huffman.java:86-87 | the path of one symbol is never a prefix of the path of another symbol |
| HuffmanTree.CodesPrefixFree | src/Huffman.java:75-88 | no symbol's code is a prefix of a different symbol's code, the lone-leaf code [0] included |
| HuffmanTree.UniqueLeavesSplit | src/Huffman.java:59-67 | in a tree without repeated leaves, the two subtrees of a node share no symbol and have no repeated leaves themselves |
| HuffmanTree.WeightIsOccurrences | src/Huffman.java:65 | in a tree where each node's frequency is its children's sum, the root frequency is the number of occurrences, and the symbols that occur are exactly the leaves' symbols |
| HuffmanBuild.Remove | src/Huffman.java:113 | removing one element shortens the list by one, and the other elements keep their order |
| HuffmanBuild.MinIndex | src/Huffman.java:106-112 | the scan settles on an index of minimum frequency, and every earlier element is strictly heavier (the first minimum on ties) |
| HuffmanBuild.RemoveSmallest | src/Huffman.java:106-115 | returns the first minimum-frequency node and the list without it; the list shrinks by one, and the returned frequency is at most every remaining frequency |
| HuffmanBuild.Build | src/Huffman.java:59-68 | from a working list of two or more roots, the loop ends with a node (a merged tree, not one of the initial leaves) |
| HuffmanBuild.MergeStep | src/Huffman.java:59-67 | each round of the merge loop shrinks the working list by exactly one |
| HuffmanBuild.MergeRound | src/Huffman.java:60-66 | the appended parent holds the two lightest roots: its left child is no heavier than its right child, its right child is no heavier than any remaining root, and its frequency is their sum |
| HuffmanBuild.BuildTree | src/Huffman.java:59-68 | the merge loop ends with the single root that `Build` defines |
| HuffmanBuild.FlattenRemove | src/Huffman.java:113 | taking a root out of the list takes exactly its own occurrences out of the list's multiset |
| HuffmanBuild.MergeStepWellFormed | src/Huffman.java:62-66 | a merge round keeps every root well formed: the new parent's frequency is the sum of its children's |
| HuffmanBuild.MergeStepFlatten | src/Huffman.java:59-67 | a merge round keeps the multiset of what the list holds (occurrences, and leaf symbols) |
| HuffmanBuild.BuildPreserves | src/Huffman.java:59-68 | the final root is well formed and holds, up to order, the occurrences and the leaf symbols of the initial list |
| HuffmanBuild.BuildWeight | src/Huffman.java:65-68 | the final root's frequency is the total of all occurrences in the initial list |
| HuffmanBuild.LeavesBelow | src/Huffman.java:53-58 | every element of the initial list is a leaf with a positive frequency |
| HuffmanBuild.InitialRoots | src/Huffman.java:53-58 | the loop produces the list of leaves for every slot with a positive count, in slot order |
| HuffmanBuild.LeavesBelowLeaves | src/Huffman.java:54-57 | the initial list holds only leaves; each has a positive frequency equal to its own slot's count |
| HuffmanBuild.LeavesBelowAscending | src/Huffman.java:54-57 | the initial list is in strictly ascending symbol order |
| HuffmanBuild.LeavesBelowComplete | src/Huffman.java:55-56 | a slot's leaf is in the initial list if and only if its count is positive |
| HuffmanBuild.LeavesBelowCount | src/Huffman.java:53-58 | all occurrences in the initial list, taken together, hold each byte as often as its slot counts |
| HuffmanBuild.LeavesBelowLeafCount | src/Huffman.java:53-58 | the initial list holds one leaf per byte with a positive count and no leaf for any other byte |
| HuffmanBuild.BuildFromTable | src/Huffman.java:53-68 | from a table with a positive count, the built tree is well formed, has no repeated leaves, and holds every byte exactly as often as its slot counts |
| HuffmanCodec.CodeTable | src/Huffman.java:75-88 | after `setCodes`, a slot has a code exactly when its byte is a symbol of the tree |
| HuffmanCodec.CodeTablePrefixFree | src/Huffman.java:81 | no code in the table is a prefix of the code of another slot |
| HuffmanCodec.Encoding | src/Huffman.java:133-146 | encoding succeeds exactly when the data has at most `originalLength` bytes and every byte has a code |
| HuffmanCodec.Walk | src/Huffman.java:183-194 | the walk emits at most one symbol per bit, and only symbols of the tree |
| HuffmanCodec.EncodingByTree | src/Huffman.java:133-146 | encoding gives the concatenation of codes when every byte has a code and fits; a byte without a code gives `UnknownSymbol`; too many bytes give `IndexOutOfBounds` |
| HuffmanCodec.Decoding | src/Huffman.java:169-196 | a successful decode is `originalLength` bytes long; decoding fails only for a tree of at least two leaves whose walk emits more symbols than the buffer holds |
| HuffmanCodec.WalkPath | src/Huffman.java:183-193 | walking a symbol's path emits that symbol and returns to the root for the remaining bits |
| HuffmanCodec.WalkEncoded | src/Huffman.java:183-194 | for a tree of at least two leaves, walking the concatenated codes of any input emits exactly that input |
| HuffmanCodec.RoundTrip | src/Huffman.java:204-208 | decoding, with a buffer as long as the input, the encoding of any input over the tree's symbols gives the input back; this covers the lone-leaf case |
| HuffmanLength.EncodedLength | src/Huffman.java:133-146 | the encoding is as long as the code lengths of its symbols added up |
| HuffmanLength.CostIsPathCost | src/Huffman.java:83 | in a tree without repeated leaves, the frequency × code length total equals the code lengths summed over all occurrences |
| HuffmanLength.PathCostPermutation | src/Huffman.java:83 | the summed code length does not depend on the order of the symbols |
| HuffmanLength.BitLengthIdentity | src/Huffman.java:83 | for a tree without repeated leaves holding the input up to order, every input byte has a code, and the encoding is exactly frequency × code length, summed over the leaves |
| Huffman.CountInto | src/Huffman.java:47-51 | after counting, slot `b + 128` holds the number of occurrences of `b` (0 for an absent byte) |
| Huffman.Huffman.constructor | src/Huffman.java:32-73 | leaves the codec valid: the counts of the input; no tree for an empty input, and otherwise the tree `Build` makes from the initial list of leaves of the counts, which is well formed, has no repeated leaves, holds the input up to order and whose root frequency is the input length; the tree's code table; the weighted code length |
| Huffman.Huffman.GreedyTree | src/Huffman.java:53-68 | the root of a valid codec is `Build` of the initial list of leaves of its counts |
| Huffman.Huffman.SetRootCodes | src/Huffman.java:70 | `setCodes` from the root with an empty code, over a table of nulls, leaves the tree's code table and its weighted code length |
| Huffman.Huffman.SetCodes | src/Huffman.java:75-88 | every symbol below the node gets the prefix followed by its path (a lone root leaf gets [0]); other slots are unchanged; `hCodeLength` grows by the subtree's frequency × code length total |
| Huffman.Huffman.BitLength | src/Huffman.java:122-124 | `bitLength` is the length of the encoding of the codec's own input, and that encoding succeeds |
| Huffman.Huffman.Encode | src/Huffman.java:133-146 | the method computes `Encoding` of the data with the codec's table and room for `originalLength` symbols |
| Huffman.EncodeTable | src/Huffman.java:134-145 | the loop computes `Encoding` of the data with the given table and room |
| Huffman.EncodingAdvance | src/Huffman.java:136-143 | one step of the loop: a byte without a code fails with `UnknownSymbol`, a byte past the buffer fails with `IndexOutOfBounds`, and otherwise its code is appended and the rest is encoded with one slot less |
| Huffman.Huffman.Decode | src/Huffman.java:169-196 | the method computes `Decoding` of the bits with the codec's tree and output length |
| Huffman.Huffman.SourceRoundTrip | src/Huffman.java:204-209 | on a valid codec, encoding the input succeeds with `hCodeLength` bits, and decoding them gives the input back |
| Huffman.DecodeWith | src/Huffman.java:171-195 | the fill loop (lone leaf) and the walk loop compute `Decoding` for the tree and the buffer length |
| Huffman.Fill | src/Huffman.java:174-178 | the lone-leaf loop fills every one of the `originalLength` slots with the leaf's symbol |
| HuffmanCodec.WalkAdvance | src/Huffman.java:184-193 | one bit of the walk: going to a leaf emits its symbol and returns to the root; going to a node continues from there |
| Huffman.DecodedBuffer | src/Huffman.java:171-195 | a buffer holding the walk's symbols followed by zeros is what `decode` returns |
| Huffman.GrowTree | src/Huffman.java:53-68 | the tree built from the counts of a non-empty input is `Build` of their initial list of leaves; it is well formed, has no repeated leaves, holds the input up to order, and its root frequency is the input length |
| Huffman.TreeOfInput | src/Huffman.java:47-68 | the counts of a non-empty input form a frequency table with a non-empty initial list; the built tree holds the input up to order and weighs its length |
| Huffman.EncodeDecode | src/Huffman.java:201-209 | for any input, the encoding succeeds and is `bitLength` bits long, and decoding it gives the input back |

## Left out

- `encode`'s packing of one byte per symbol and `getByteArray`'s conversion through `Integer.toBinaryString` (src/Huffman.java:138-142, 150-161) are lossy: they drop leading zero bits and mishandle codes longer than 8 bits. The model encodes to the bit sequence itself and decodes from it, so there is no storage-unit packing.
- `main`'s console output (src/Huffman.java:202-211) is not modelled. Its round trip and `bitLength` call are `Huffman.EncodeDecode`.
- Huffman.Huffman.Decode: on a codec built from an empty input, Java dereferences the null root and throws. The model returns the untouched buffer of `originalLength` (= 0) zeros, i.e. empty output.
- The `root == null` test of `setCodes` (src/Huffman.java:76-78) is unreachable in a tree whose internal nodes always have two children, so the model has no null node.
- The `codeLength` field (src/Huffman.java:82) is not modelled, because it always equals the length of `code`. The redundant `symbol` write of the counting loop (src/Huffman.java:50) is not modelled either, because the slot already holds that symbol.
- Huffman.Huffman.SetCodes, Huffman.CountInto: `int` frequencies and `hCodeLength` are modelled as unbounded integers, so the model has no 32-bit overflow for inputs of more than 2^31 bytes or very large weighted lengths.
- Nodes are values rather than objects. The `LinkedList` and the object identity that `roots.remove(smallest)` relies on become a sequence with removal by index. Removing the first occurrence of the smallest object is the same as removing at the index of the first minimum.
