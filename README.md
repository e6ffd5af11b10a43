# Huffman coding core of `nen`

This project is a Dafny model of the Huffman coding engine of the `nen` image compressor. The
compressor reads the raw bytes of an image and counts each byte value (`build_frequency_table`).
It builds a code tree (`build_huffman_tree`): a list of nodes is repeatedly stable-sorted by
frequency, the two first nodes are popped and merged, and the merged node is appended. It then
derives a codebook from the tree (`build_huffman_codes`: left is `0`, right is `1`, and only
leaves get codes) and concatenates the codes of the input bytes (`encode_data`). The decompressor
(`decode_data`) inverts the codebook. It then reads the bits one at a time into a buffer,
emitting a byte and clearing the buffer whenever the buffer equals a code.

Modules, one per part of the core:

- `Common` (common.dfy): bytes, `Result`/`Option`, and facts about sequences without repetitions.
- `Frequency` (frequency.dfy): the `Counter` as a sequence of `(symbol, count)` entries in
  first-occurrence order, built by counting the bytes left to right.
- `HuffmanTree` (tree.dfy): the `Node` class as an immutable datatype
  `Leaf(sym, freq) | Node(freq, left, right)`, with measures of trees and forests.
- `TreeBuilder` (builder.dfy): Python's stable sort as the function `SortByFreq`, one loop round
  as `HuffmanStep`, the loop as `Huffman`, and the loop itself as the method `BuildHuffmanTree`
  over a local node list.
- `Codebook` (codebook.dfy): the codebook as a function from a tree and a prefix to a map.
- `Encoder` (encoder.dfy): the encoding loop as the method `EncodeData`, proved against the
  function `Encoded`.
- `Decoder` (decoder.dfy): the reverse codebook, the decoding loop as the method `DecodeData`, and
  its specification, a left fold `Run` of the one-bit step `Feed` over the bits.
- `Pipeline` (pipeline.dfy): the parts chained as compression and decompression use them.

Bits are `seq<bool>` (`false` for `'0'`, `true` for `'1'`). They stand for the bitarrays and for
the `'0'`/`'1'` strings of the source. Everything is a function of its inputs, so equal inputs
give equal trees, codebooks and encodings.

## Model

| member | source | states |
|---|---|---|
| HuffmanTree.Tree | nen/compress.py:8-16 | a node is a leaf with a symbol and a frequency, or a merged node without symbol, with a frequency and two children; merged nodes built by the loop weigh as much as their children (MergeFrontWellFormed, HuffmanShape) |
| Frequency.Tally | nen/compress.py:19 | counting one byte: its entry gains one, or a new entry with count one goes last (TallySymbols, TallyCounts, TallyTotal) |
| Frequency.BuildFrequencyTable | nen/compress.py:18-19 | the table is empty exactly when the data is empty |
| Frequency.TallySymbols | nen/compress.py:18-19 | counting one more byte keeps the symbols, and appends the byte at the end if it is new |
| Frequency.TallyCounts | nen/compress.py:18-19 | counting one more byte adds one to that byte's entry (a new entry starts at one) and leaves the other counts unchanged |
| Frequency.TallyTotal | nen/compress.py:18-19 | counting one more byte adds one to the total count |
| Frequency.FrequencyTableKeys | nen/compress.py:18-19 | the table lists each distinct byte of the data exactly once, and no other byte |
| Frequency.FrequencyTableCounts | nen/compress.py:18-19 | each entry's count is the number of occurrences of its byte, and the counts sum to the data length |
| Frequency.FrequencyTableOrder | nen/compress.py:18-19 | the table lists symbols in the order of their first occurrence in the data |
| TreeBuilder.SortByFreq | nen/compress.py:25 | `nodes.sort(key=freq)`: keeps the length; SortSpec proves it sorted and a permutation, SortPullsFirstMin proves it stable (earliest minimum first) |
| TreeBuilder.InsertSorted | nen/compress.py:25 | inserting into a frequency-sorted list keeps it sorted; the inserted node or the old head comes first |
| TreeBuilder.InsertPermutes | nen/compress.py:25 | insertion adds the node to the list's multiset of nodes and changes nothing else |
| TreeBuilder.SortSpec | nen/compress.py:25 | the sort returns a permutation of the node list with non-decreasing frequencies |
| TreeBuilder.FirstMinIndexIsFirstMin | nen/compress.py:25-26 | the chosen position holds a node of least frequency, and every earlier node is strictly heavier |
| TreeBuilder.SortPullsFirstMin | nen/compress.py:25-26 | the stable sort puts first the earliest node of least frequency, then the stable sort of the rest: ties go to the earlier list position |
| TreeBuilder.MinimalPair | nen/compress.py:25-31 | a round merges the earliest least-frequency node with the earliest least-frequency node of the rest; the other nodes stay in stable order and the merged node goes last |
| TreeBuilder.InitialForest | nen/compress.py:22 | one leaf per table entry, in table order (InitialForestShape) |
| TreeBuilder.MergeFront | nen/compress.py:26-31 | the two `pop(0)` calls and the `append` of their merge (MergeFrontPreserves, MergeFrontWellFormed) |
| TreeBuilder.HuffmanStep | nen/compress.py:25-31 | one loop round: sort, then merge the two first nodes (MinimalPair, StepPreserves) |
| TreeBuilder.Huffman | nen/compress.py:24-33 | rounds until one node is left, which is returned (HuffmanShape, TreeOfTable; BuildHuffmanTree is proved equal to it) |
| TreeBuilder.MergeFrontPreserves | nen/compress.py:26-31 | popping two nodes and appending their merge shrinks the list by one, keeps total weight and leaves, and adds one merged node |
| TreeBuilder.MergeFrontWellFormed | nen/compress.py:28-30 | the merged node's frequency is the sum of its children's, so well-formedness is kept |
| TreeBuilder.SortPreserves | nen/compress.py:25 | sorting keeps the forest's total weight, leaves and merged-node count |
| TreeBuilder.StepPreserves | nen/compress.py:25-31 | each round removes one node, keeps total frequency and leaves, adds one merged node, and keeps every tree well formed |
| TreeBuilder.HuffmanShape | nen/compress.py:24-33 | the final tree is well formed, weighs the forest's total, carries the forest's leaves, and has one merged node per round |
| TreeBuilder.InitialForestShape | nen/compress.py:22 | the initial list has one leaf per table entry, in table order, with the entry's count as frequency |
| TreeBuilder.TreeOfTable | nen/compress.py:21-33 | the tree of a non-empty table weighs the total count, has each table symbol at exactly one leaf, and has one merged node fewer than leaves |
| TreeBuilder.BuildHuffmanTree | nen/compress.py:21-33 | the loop returns the tree that repeated rounds produce, with the shape stated by TreeOfTable; an empty table is excluded because `nodes[0]` fails on it |
| Codebook.BuildHuffmanCodes | nen/compress.py:35-41 | the codebook's keys are exactly the tree's leaf symbols; merged nodes get no entry |
| Codebook.CodeIsPath | nen/compress.py:35-41 | each code is the prefix followed by the path of `0`s (left) and `1`s (right) that leads to a leaf of that symbol |
| Codebook.PathsAreCodes | nen/compress.py:35-41 | when no symbol labels two leaves, every root-to-leaf path is the code of its leaf |
| Codebook.LeafPathsPrefixFree | nen/compress.py:35-41 | a path that ends at a leaf is not a proper prefix of another such path |
| Codebook.CodesPrefixFree | nen/compress.py:35-41 | no code is a prefix of the code of another symbol |
| Codebook.CodesNonEmpty | nen/compress.py:35-41 | in a tree with a merged root every code is non-empty |
| Codebook.SingleLeafCodebook | nen/compress.py:35-38 | a single-leaf tree gives its symbol the empty code |
| Codebook.CodebookSize | nen/compress.py:35-41 | with distinct leaf symbols there is exactly one entry per leaf |
| Encoder.Encoded | nen/compress.py:43-47 | the codes of the bytes, concatenated in input order (EncodedSnoc, EncodedLength; EncodeData is proved equal to it) |
| Encoder.EncodeData | nen/compress.py:43-47 | the result is the concatenation of the codes of the bytes in input order; a byte without a code is the error (the KeyError), naming the first such byte |
| Encoder.EncodedSnoc | nen/compress.py:45-46 | one more byte extends the encoding by that byte's code |
| Encoder.TallyWeighted | nen/compress.py:18-19 | counting one more byte adds its code length to the table's weighted code length |
| Encoder.EncodedLength | nen/compress.py:43-47 | the encoding's length is the sum over the frequency table of count times code length |
| Decoder.KeyWithCode | nen/decompress.py:8 | the chosen byte has the given code, and no larger byte has it |
| Decoder.BuildReverseCodebook | nen/decompress.py:8 | the reverse codebook's keys are the codes, and each code maps to a byte that has that code |
| Decoder.ReverseInverts | nen/decompress.py:8 | when no two bytes share a code, the reverse codebook inverts the codebook |
| Decoder.Feed | nen/decompress.py:11-15 | one loop iteration: the bit joins the buffer, and a buffer equal to a code emits its byte and is cleared (DecodeOneCode, RunNoMatch, EmptyCodeNeverMatched) |
| Decoder.Run | nen/decompress.py:11-15 | the loop over all bits in order (RunAppend, BitsAccounted, OutputGrows) |
| Decoder.Decoded | nen/decompress.py:7-16 | the bytes emitted from an empty state with the reverse codebook (RoundTrip, TrailingBitsDropped; DecodeData is proved equal to it) |
| Decoder.DecodeData | nen/decompress.py:7-16 | the loop's output is the fold of the one-bit step over all bits, in order |
| Decoder.RunAppend | nen/decompress.py:11-12 | bits are consumed strictly in order: reading `a + b` is reading `a`, then `b` |
| Decoder.BitsAccounted | nen/decompress.py:11-15 | every bit read is in the code of exactly one emitted byte or in the trailing buffer, in order |
| Decoder.OutputGrows | nen/decompress.py:13-14 | emitted bytes are never changed, and each bit emits at most one byte |
| Decoder.RunNoMatch | nen/decompress.py:12-13 | while no buffer content is a code, bits only pile up in the buffer |
| Decoder.EmptyCodeNeverMatched | nen/decompress.py:12-13 | the buffer is never empty when it is looked up, so an empty code is never matched: decoding with any reverse codebook equals decoding with its empty-code entry removed |
| Decoder.OnlyEmptyCodeEmitsNothing | nen/decompress.py:12-13 | with the empty code as the only code, nothing is emitted and every bit stays in the buffer |
| Decoder.NoProperPrefixIsCode | nen/decompress.py:13 | in a prefix-free codebook the buffer matches no code before a whole code has been read |
| Decoder.DecodeOneCode | nen/decompress.py:11-15 | from an empty buffer, reading one code of a prefix-free codebook emits its byte and clears the buffer |
| Decoder.DecodeCodes | nen/decompress.py:11-15 | reading the codes of a sequence of bytes emits those bytes, in order, after the earlier output |
| Decoder.RoundTrip | nen/decompress.py:7-16 | for a prefix-free codebook with non-empty codes, decoding the encoding returns the data |
| Decoder.TrailingBitsDropped | nen/decompress.py:11-16 | trailing bits none of whose prefixes is a code are dropped without an error |
| Pipeline.TreeForShape | nen/compress.py:18-33 | the tree built for non-empty data is well formed, its root weighs the length of the data, and it has one leaf per distinct byte and one merged node fewer |
| Pipeline.CodesCoverInput | nen/compress.py:35-47 | the codebook built for the data has a code for every input byte, and exactly one code per distinct byte |
| Pipeline.TwoSymbols | nen/compress.py:18-19 | two different bytes in the data give a table of at least two entries |
| Pipeline.CompressDecompressRoundTrip | nen/decompress.py:7-16 | for data with two different bytes, decoding the encoding with the codebook built for the data returns the data |
| Pipeline.OneSymbolTable | nen/compress.py:18-19 | data of one repeated byte has a one-entry table for that byte |
| Pipeline.EncodedEmptyCodes | nen/compress.py:43-47 | bytes whose codes are empty encode to no bits |
| Pipeline.SingleSymbolInput | nen/compress.py:33-47 | for data of one repeated byte the codebook is that byte with the empty code, the encoding is empty, and every bit string decodes to nothing |

## Left out

- Image reading and writing (PIL), the PostgreSQL storage, the command-line entry points, timing
  and printing are input/output around the core; they are not modelled.
- Serialisation: pickling of the codebook and the repacking of the bitarray into bytes are library
  calls. Bits are modelled as an exact `seq<bool>`, so the up to seven padding bits that repacking
  can add are not modelled. `Decoder.TrailingBitsDropped` states what happens to such trailing bits
  when they complete no code.
- The shared default codebook: `build_huffman_codes` defaults to one dictionary shared by every call
  that omits it. The model builds a fresh map per call, so codes of an earlier image cannot leak into
  a later codebook.
- Decoder.BuildReverseCodebook: where two bytes share a code, Python keeps the byte inserted last.
  The model keeps the largest byte, because a map has no insertion order. No codebook built from a
  tree of distinct leaves has shared codes (`Codebook.CodesPrefixFree`).
- TreeBuilder.BuildHuffmanTree: an empty table makes the source raise an IndexError at `nodes[0]`.
  The model requires a non-empty table instead of modelling the exception.
- The nodes' `left`/`right` fields are set after construction in the source. The model builds merged
  nodes with their children in one step; nothing observes the node in between.
- `Node.__lt__` is never used by the sort (the sort has a key), so it is not modelled.
- Optimality of the code (minimum weighted path length) is not proved. `TreeBuilder.MinimalPair`
  states that each round merges two lightest nodes, and `Encoder.EncodedLength` gives the encoded
  length as the weighted code length.
- Bytes are `int` values in 0..255, with no fixed-width arithmetic; counts and frequencies are
  unbounded, as Python's integers are.
