/** The core chained as `huffman_compress` and `huffman_decompress` use it: count the bytes, build
    the tree, derive the codebook, encode, and decode with the same codebook. */
module Pipeline {
  import opened Common
  import opened Frequency
  import opened HuffmanTree
  import opened TreeBuilder
  import opened Codebook
  import opened Encoder
  import opened Decoder

  /** The tree built for non-empty `data`. */
  function TreeFor(data: seq<Byte>): Tree
    requires data != []
  {
    Huffman(InitialForest(BuildFrequencyTable(data)))
  }

  /** The codebook derived for non-empty `data`, starting from the empty prefix. */
  function CodesFor(data: seq<Byte>): Codebook
    requires data != []
  {
    BuildHuffmanCodes(TreeFor(data), [])
  }

  /** The tree built for `data` is well formed, its root weighs the length of `data`, and it has
      one leaf per distinct byte and one merged node fewer. */
  lemma TreeForShape(data: seq<Byte>)
    requires data != []
    ensures WellFormed(TreeFor(data)) && TreeFor(data).freq == |data|
    ensures |LeafSymbols(TreeFor(data))| == |BuildFrequencyTable(data)|
    ensures InternalCount(TreeFor(data)) == |LeafSymbols(TreeFor(data))| - 1
  {
    FrequencyTableCounts(data);
    TreeOfTable(BuildFrequencyTable(data));
  }

  /** Every byte of the input gets a code, and there is one code per distinct byte. */
  lemma CodesCoverInput(data: seq<Byte>)
    requires data != []
    ensures AllCoded(data, CodesFor(data))
    ensures forall b :: b in CodesFor(data) <==> b in data
    ensures |CodesFor(data)| == |BuildFrequencyTable(data)|
  {
    var table := BuildFrequencyTable(data);
    FrequencyTableKeys(data);
    TreeOfTable(table);
    var leaves := LeafSymbols(TreeFor(data));
    forall b ensures b in CodesFor(data) <==> b in data {
      assert b in leaves <==> b in multiset(leaves);
      assert b in Symbols(table) <==> b in multiset(Symbols(table));
    }
    CodebookSize(TreeFor(data));
  }

  /** Two different bytes in the input give a table of at least two entries. */
  lemma TwoSymbols(data: seq<Byte>, i: nat, j: nat)
    requires i < |data| && j < |data| && data[i] != data[j]
    ensures |BuildFrequencyTable(data)| >= 2
  {
    var syms := Symbols(BuildFrequencyTable(data));
    FrequencyTableKeys(data);
    assert data[i] in syms && data[j] in syms;
  }

  /** Round trip of the whole core: when the input holds at least two different bytes, decoding
      its encoding with the codebook built for it gives the input back. */
  lemma CompressDecompressRoundTrip(data: seq<Byte>, i: nat, j: nat)
    requires i < |data| && j < |data| && data[i] != data[j]
    ensures AllCoded(data, CodesFor(data))
    ensures Decoded(Encoded(data, CodesFor(data)), CodesFor(data)) == data
  {
    var table := BuildFrequencyTable(data);
    TwoSymbols(data, i, j);
    TreeOfTable(table);
    var t := TreeFor(data);
    assert t.Node?;
    CodesCoverInput(data);
    CodesPrefixFree(t);
    CodesNonEmpty(t);
    RoundTrip(data, CodesFor(data));
  }

  /** An input made of one repeated byte has a one-entry table. */
  lemma OneSymbolTable(data: seq<Byte>)
    requires data != [] && forall i :: 0 <= i < |data| ==> data[i] == data[0]
    ensures |BuildFrequencyTable(data)| == 1 && BuildFrequencyTable(data)[0].sym == data[0]
  {
    var syms := Symbols(BuildFrequencyTable(data));
    FrequencyTableKeys(data);
    assert syms[0] in data;
    var k :| 0 <= k < |data| && data[k] == syms[0];
  }

  /** Bytes whose codes are all empty encode to nothing. */
  lemma {:induction false} EncodedEmptyCodes(data: seq<Byte>, cb: Codebook)
    requires AllCoded(data, cb) && forall i :: 0 <= i < |data| ==> cb[data[i]] == []
    ensures Encoded(data, cb) == []
  {
    if data != [] {
      assert AllCoded(data[1..], cb) && forall i :: 0 <= i < |data[1..]| ==> cb[data[1..][i]] == [] by {
        forall i | 0 <= i < |data[1..]| ensures data[1..][i] == data[i + 1] {
        }
      }
      EncodedEmptyCodes(data[1..], cb);
    }
  }

  /** An input made of one repeated byte: the tree is a single leaf, whose code is empty, so the
      encoding is empty, and since the decoder never looks up an empty buffer, every bit string
      decodes to nothing; the input does not come back. */
  lemma SingleSymbolInput(data: seq<Byte>)
    requires data != [] && forall i :: 0 <= i < |data| ==> data[i] == data[0]
    ensures CodesFor(data) == map[data[0] := []]
    ensures Encoded(data, CodesFor(data)) == []
    ensures forall bits :: Decoded(bits, CodesFor(data)) == []
  {
    var table := BuildFrequencyTable(data);
    OneSymbolTable(data);
    var t := TreeFor(data);
    assert t == Leaf(table[0].sym, table[0].count);
    SingleLeafCodebook(t);
    var cb := CodesFor(data);
    EncodedEmptyCodes(data, cb);
    forall bits ensures Decoded(bits, cb) == [] {
      OnlyEmptyCodeEmitsNothing(BuildReverseCodebook(cb), DecoderState([], []), bits);
    }
  }
}
