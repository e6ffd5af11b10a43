/** The decoder: `decode_data` (nen/decompress.py:7-16). */
module Decoder {
  import opened Common
  import opened Codebook
  import opened Encoder

  type ReverseCodebook = map<Code, Byte>

  /** A byte whose code is `c`, at most `k`: the largest such byte. */
  function KeyWithCode(cb: Codebook, c: Code, k: Byte): (b: Byte)
    requires exists b: Byte :: b <= k && b in cb && cb[b] == c
    ensures b <= k && b in cb && cb[b] == c
    ensures forall b': Byte :: b < b' <= k && b' in cb ==> cb[b'] != c
    decreases k
  {
    if k in cb && cb[k] == c then k else KeyWithCode(cb, c, k - 1)
  }

  /** `{v: k for k, v in huffman_codes.items()}`: every code mapped back to a byte that has it.
      When two bytes share a code, the largest byte is kept. */
  function BuildReverseCodebook(cb: Codebook): (rev: ReverseCodebook)
    ensures rev.Keys == cb.Values
    ensures forall c :: c in rev ==> rev[c] in cb && cb[rev[c]] == c
  {
    map c | c in cb.Values :: KeyWithCode(cb, c, 255)
  }

  /** No two bytes share a code. */
  predicate Injective(cb: Codebook) {
    forall b1, b2 :: b1 in cb && b2 in cb && b1 != b2 ==> cb[b1] != cb[b2]
  }

  /** Without shared codes, the reverse codebook inverts the codebook. */
  lemma ReverseInverts(cb: Codebook)
    requires Injective(cb)
    ensures forall b :: b in cb ==> cb[b] in BuildReverseCodebook(cb) && BuildReverseCodebook(cb)[cb[b]] == b
  {
    var rev := BuildReverseCodebook(cb);
    forall b | b in cb ensures cb[b] in rev && rev[cb[b]] == b {
      assert cb[b] in cb.Values;
    }
  }

  /** The decoder's variables between two bits: the bytes emitted so far and the bits read
      since the last emission. */
  datatype DecoderState = DecoderState(decoded: seq<Byte>, buffer: Code)

  /** One iteration of the loop: the bit joins the buffer; if the buffer is now a code, its byte
      is emitted and the buffer is cleared. */
  function Feed(rev: ReverseCodebook, st: DecoderState, bit: bool): DecoderState {
    var buffer := st.buffer + [bit];
    if buffer in rev then DecoderState(st.decoded + [rev[buffer]], []) else DecoderState(st.decoded, buffer)
  }

  /** The loop over all bits, one at a time in order. */
  function Run(rev: ReverseCodebook, st: DecoderState, bits: Code): DecoderState
    decreases |bits|
  {
    if bits == [] then st else Feed(rev, Run(rev, st, bits[..|bits| - 1]), bits[|bits| - 1])
  }

  /** What `decode_data` returns for `bits`. */
  function Decoded(bits: Code, cb: Codebook): seq<Byte> {
    Run(BuildReverseCodebook(cb), DecoderState([], []), bits).decoded
  }

  method DecodeData(bits: Code, cb: Codebook) returns (decoded: seq<Byte>)
    ensures decoded == Decoded(bits, cb)
  {
    var rev := BuildReverseCodebook(cb);
    decoded := [];
    var buffer: Code := [];
    for i := 0 to |bits|
      invariant DecoderState(decoded, buffer) == Run(rev, DecoderState([], []), bits[..i])
    {
      assert bits[..i + 1][..i] == bits[..i];
      buffer := buffer + [bits[i]];
      if buffer in rev {
        decoded := decoded + [rev[buffer]];
        buffer := [];
      }
    }
    assert bits[..|bits|] == bits;
  }

  /** Reading `a` then `b` is reading `a + b`. */
  lemma {:induction false} RunAppend(rev: ReverseCodebook, st: DecoderState, a: Code, b: Code)
    ensures Run(rev, st, a + b) == Run(rev, Run(rev, st, a), b)
  {
    if b == [] {
      assert a + b == a;
    } else {
      var b' := b[..|b| - 1];
      assert (a + b)[..|a + b| - 1] == a + b';
      RunAppend(rev, st, a, b');
    }
  }

  /** Each bit is either part of the code of an emitted byte or still in the buffer: the codes of
      the emitted bytes followed by the buffer are exactly the bits read. */
  lemma {:induction false} BitsAccounted(cb: Codebook, bits: Code)
    ensures var st := Run(BuildReverseCodebook(cb), DecoderState([], []), bits);
      AllCoded(st.decoded, cb) && Encoded(st.decoded, cb) + st.buffer == bits
  {
    if bits != [] {
      var rev := BuildReverseCodebook(cb);
      var p := bits[..|bits| - 1];
      var st := Run(rev, DecoderState([], []), p);
      BitsAccounted(cb, p);
      assert bits == p + [bits[|bits| - 1]];
      var buffer := st.buffer + [bits[|bits| - 1]];
      if buffer in rev {
        EncodedSnoc(st.decoded, rev[buffer], cb);
      }
    }
  }

  /** The output only grows: bytes once emitted are never changed, and each bit emits at most one byte. */
  lemma {:induction false} OutputGrows(rev: ReverseCodebook, st: DecoderState, bits: Code)
    ensures st.decoded <= Run(rev, st, bits).decoded
    ensures |Run(rev, st, bits).decoded| <= |st.decoded| + |bits|
  {
    if bits != [] {
      OutputGrows(rev, st, bits[..|bits| - 1]);
    }
  }

  /** While no buffer content along the way is a code, the bits only pile up in the buffer. */
  lemma {:induction false} RunNoMatch(rev: ReverseCodebook, st: DecoderState, bits: Code)
    requires forall k :: 0 < k <= |bits| ==> st.buffer + bits[..k] !in rev
    ensures Run(rev, st, bits) == DecoderState(st.decoded, st.buffer + bits)
  {
    if bits != [] {
      var p := bits[..|bits| - 1];
      forall k | 0 < k <= |p| ensures st.buffer + p[..k] !in rev {
        assert p[..k] == bits[..k];
      }
      RunNoMatch(rev, st, p);
      assert bits[..|bits|] == bits;
      assert st.buffer + bits == (st.buffer + p) + [bits[|bits| - 1]];
    }
  }

  /** The buffer is never empty when it is looked up, so an empty code is never matched:
      decoding behaves as if the reverse codebook had no entry for the empty code. */
  lemma {:induction false} EmptyCodeNeverMatched(rev: ReverseCodebook, st: DecoderState, bits: Code)
    ensures Run(rev, st, bits) == Run(rev - {[]}, st, bits)
    decreases |bits|
  {
    if bits != [] {
      EmptyCodeNeverMatched(rev, st, bits[..|bits| - 1]);
    }
  }

  /** A reverse codebook whose only code is the empty one never emits anything: the bits pile up
      in the buffer. */
  lemma OnlyEmptyCodeEmitsNothing(rev: ReverseCodebook, st: DecoderState, bits: Code)
    requires forall c :: c in rev ==> c == []
    ensures Run(rev, st, bits) == DecoderState(st.decoded, st.buffer + bits)
  {
    EmptyCodeNeverMatched(rev, st, bits);
    assert rev - {[]} == map[];
    RunNoMatch(rev - {[]}, st, bits);
  }

  /** In a prefix-free codebook no proper prefix of a code is a code. */
  lemma NoProperPrefixIsCode(cb: Codebook, b: Byte, k: nat)
    requires PrefixFree(cb) && b in cb && k < |cb[b]|
    ensures cb[b][..k] !in BuildReverseCodebook(cb)
  {
  }

  /** With an empty buffer, reading the code of `b` from a prefix-free codebook without empty
      codes emits exactly `b` and leaves the buffer empty. */
  lemma DecodeOneCode(cb: Codebook, decoded: seq<Byte>, b: Byte)
    requires PrefixFree(cb) && NonEmptyCodes(cb) && b in cb
    ensures Run(BuildReverseCodebook(cb), DecoderState(decoded, []), cb[b]) == DecoderState(decoded + [b], [])
  {
    var rev := BuildReverseCodebook(cb);
    var c := cb[b];
    var p := c[..|c| - 1];
    assert p + [c[|c| - 1]] == c;
    var st := DecoderState(decoded, []);
    forall k | 0 < k <= |p| ensures st.buffer + p[..k] !in rev {
      assert st.buffer + p[..k] == c[..k];
      NoProperPrefixIsCode(cb, b, k);
    }
    RunNoMatch(rev, st, p);
    assert st.buffer + p == p;
    assert Run(rev, st, c) == Feed(rev, Run(rev, st, p), c[|c| - 1]);
    ReverseInverts(cb);
  }

  /** Reading the code of the first byte, then the codes of the others. */
  lemma DecodeFirstCode(cb: Codebook, decoded: seq<Byte>, data: seq<Byte>)
    requires PrefixFree(cb) && NonEmptyCodes(cb) && AllCoded(data, cb) && data != []
    ensures AllCoded(data[1..], cb)
    ensures Run(BuildReverseCodebook(cb), DecoderState(decoded, []), Encoded(data, cb))
         == Run(BuildReverseCodebook(cb), DecoderState(decoded + [data[0]], []), Encoded(data[1..], cb))
  {
    var rev := BuildReverseCodebook(cb);
    var rest := data[1..];
    assert AllCoded(rest, cb) by {
      forall i | 0 <= i < |rest| ensures rest[i] in cb {
        assert rest[i] == data[i + 1];
      }
    }
    assert Encoded(data, cb) == cb[data[0]] + Encoded(rest, cb);
    RunAppend(rev, DecoderState(decoded, []), cb[data[0]], Encoded(rest, cb));
    DecodeOneCode(cb, decoded, data[0]);
  }

  /** Decoding the codes of `data` emits `data` after whatever was emitted before. */
  lemma {:induction false} DecodeCodes(cb: Codebook, decoded: seq<Byte>, data: seq<Byte>)
    requires PrefixFree(cb) && NonEmptyCodes(cb) && AllCoded(data, cb)
    ensures Run(BuildReverseCodebook(cb), DecoderState(decoded, []), Encoded(data, cb)) == DecoderState(decoded + data, [])
    decreases |data|
  {
    if data == [] {
      assert decoded + data == decoded;
    } else {
      assert decoded + [data[0]] + data[1..] == decoded + data;
      DecodeFirstCode(cb, decoded, data);
      DecodeCodes(cb, decoded + [data[0]], data[1..]);
    }
  }

  /** Round trip: with a prefix-free codebook whose codes are non-empty, decoding the encoding
      of `data` gives back `data`. */
  lemma RoundTrip(data: seq<Byte>, cb: Codebook)
    requires PrefixFree(cb) && NonEmptyCodes(cb) && AllCoded(data, cb)
    ensures Decoded(Encoded(data, cb), cb) == data
  {
    DecodeCodes(cb, [], data);
  }

  /** Trailing bits none of whose non-empty prefixes is a code are dropped without an error. */
  lemma TrailingBitsDropped(data: seq<Byte>, cb: Codebook, tail: Code)
    requires PrefixFree(cb) && NonEmptyCodes(cb) && AllCoded(data, cb)
    requires forall k :: 0 < k <= |tail| ==> tail[..k] !in cb.Values
    ensures Decoded(Encoded(data, cb) + tail, cb) == data
  {
    var rev := BuildReverseCodebook(cb);
    var init := DecoderState([], []);
    RunAppend(rev, init, Encoded(data, cb), tail);
    DecodeCodes(cb, [], data);
    assert [] + data == data;
    forall k | 0 < k <= |tail| ensures DecoderState(data, []).buffer + tail[..k] !in rev {
      assert [] + tail[..k] == tail[..k];
    }
    RunNoMatch(rev, DecoderState(data, []), tail);
  }
}
