/** The encoder: `encode_data` (nen/compress.py:43-47). */
module Encoder {
  import opened Common
  import opened Frequency
  import opened Codebook

  /** Every byte of `data` has a code. */
  predicate AllCoded(data: seq<Byte>, cb: Codebook) {
    forall i :: 0 <= i < |data| ==> data[i] in cb
  }

  /** The codes of the bytes of `data`, one after the other in input order. */
  function Encoded(data: seq<Byte>, cb: Codebook): Code
    requires AllCoded(data, cb)
  {
    if data == [] then [] else cb[data[0]] + Encoded(data[1..], cb)
  }

  /** Encoding a longer input extends the encoding by the code of the new last byte. */
  lemma {:induction false} EncodedSnoc(data: seq<Byte>, b: Byte, cb: Codebook)
    requires AllCoded(data, cb) && b in cb
    ensures AllCoded(data + [b], cb)
    ensures Encoded(data + [b], cb) == Encoded(data, cb) + cb[b]
  {
    if data != [] {
      assert (data + [b])[1..] == data[1..] + [b];
      EncodedSnoc(data[1..], b, cb);
    } else {
      assert [b][1..] == [];
    }
  }

  /** The loop of the source: extends a bit buffer with the code of each byte in turn. A byte
      without a code raises the source's KeyError; here it is the error result, naming the
      first such byte. */
  method EncodeData(data: seq<Byte>, cb: Codebook) returns (r: Result<Code, Byte>)
    ensures r.Ok? <==> AllCoded(data, cb)
    ensures r.Ok? ==> r.value == Encoded(data, cb)
    ensures r.Err? ==> exists k :: 0 <= k < |data| && data[k] == r.error && r.error !in cb && AllCoded(data[..k], cb)
  {
    var bits: Code := [];
    for i := 0 to |data|
      invariant AllCoded(data[..i], cb)
      invariant bits == Encoded(data[..i], cb)
    {
      if data[i] !in cb {
        return Err(data[i]);
      }
      assert data[..i + 1] == data[..i] + [data[i]];
      EncodedSnoc(data[..i], data[i], cb);
      bits := bits + cb[data[i]];
    }
    assert data[..|data|] == data;
    return Ok(bits);
  }

  /** The code length of each table entry, weighted by its count (a symbol without a code weighs nothing). */
  function WeightedLength(table: FrequencyTable, cb: Codebook): nat {
    if table == [] then 0
    else table[0].count * (if table[0].sym in cb then |cb[table[0].sym]| else 0) + WeightedLength(table[1..], cb)
  }

  /** Counting one more `b` adds the length of its code to the weighted length. */
  lemma {:induction false} TallyWeighted(table: FrequencyTable, b: Byte, cb: Codebook)
    requires b in cb
    ensures WeightedLength(Tally(table, b), cb) == WeightedLength(table, cb) + |cb[b]|
  {
    if table != [] && table[0].sym != b {
      TallyWeighted(table[1..], b, cb);
      assert Tally(table, b)[1..] == Tally(table[1..], b);
    } else if table != [] {
      assert Tally(table, b)[1..] == table[1..];
    }
  }

  /** The encoding is as long as the sum, over the frequency table of the input, of each
      symbol's count times the length of its code. */
  lemma {:induction false} EncodedLength(data: seq<Byte>, cb: Codebook)
    requires AllCoded(data, cb)
    ensures |Encoded(data, cb)| == WeightedLength(BuildFrequencyTable(data), cb)
  {
    if data != [] {
      var p, b := data[..|data| - 1], data[|data| - 1];
      assert data == p + [b];
      assert AllCoded(p, cb) by {
        forall i | 0 <= i < |p| ensures p[i] in cb {
          assert p[i] == data[i];
        }
      }
      EncodedLength(p, cb);
      EncodedSnoc(p, b, cb);
      TallyWeighted(BuildFrequencyTable(p), b, cb);
    }
  }
}
