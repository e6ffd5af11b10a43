/** The codebook: `build_huffman_codes` (nen/compress.py:35-41), which maps every leaf symbol to
    the path from the root to its leaf, `false` for a step left ('0') and `true` for a step right ('1'). */
module Codebook {
  import opened Common
  import opened HuffmanTree

  /** A code word; the bits replace the '0'/'1' characters of the source's strings. */
  type Code = seq<bool>

  type Codebook = map<Byte, Code>

  /** The codes of the leaves below `t`, each prefixed by `prefix`, the path from the root to `t`.
      Merged nodes record nothing; the right subtree is walked after the left one, so a symbol
      at two leaves keeps the code of the later leaf, as the source's dictionary does. */
  function BuildHuffmanCodes(t: Tree, prefix: Code): (cb: Codebook)
    ensures cb.Keys == Elements(LeafSymbols(t))
  {
    match t
    case Leaf(s, _) => map[s := prefix]
    case Node(_, l, r) => BuildHuffmanCodes(l, prefix + [false]) + BuildHuffmanCodes(r, prefix + [true])
  }

  /** The symbol of the leaf reached from `t` by following `path`, if the path ends exactly at a leaf. */
  function LeafAt(t: Tree, path: Code): Option<Byte> {
    match t
    case Leaf(s, _) => if path == [] then Some(s) else None
    case Node(_, l, r) =>
      if path == [] then None
      else if path[0] then LeafAt(r, path[1..])
      else LeafAt(l, path[1..])
  }

  /** No code is a prefix of the code of another symbol (in particular no two codes are equal). */
  predicate PrefixFree(cb: Codebook) {
    forall b1, b2 :: b1 in cb && b2 in cb && b1 != b2 ==> !(cb[b1] <= cb[b2])
  }

  predicate NonEmptyCodes(cb: Codebook) {
    forall b :: b in cb ==> cb[b] != []
  }

  /** A leaf reached by a path carries one of the tree's leaf symbols. */
  lemma {:induction false} LeafAtIsLeaf(t: Tree, path: Code)
    requires LeafAt(t, path).Some?
    ensures LeafAt(t, path).value in LeafSymbols(t)
  {
    match t
    case Leaf(_, _) =>
    case Node(_, l, r) =>
      if path[0] {
        LeafAtIsLeaf(r, path[1..]);
      } else {
        LeafAtIsLeaf(l, path[1..]);
      }
  }

  /** The code of `b` is `prefix` followed by a path that leads from `t` to a leaf of `b`. */
  lemma {:induction false} CodeIsPath(t: Tree, prefix: Code, b: Byte)
    requires b in BuildHuffmanCodes(t, prefix)
    ensures var c := BuildHuffmanCodes(t, prefix)[b];
      prefix <= c && LeafAt(t, c[|prefix|..]) == Some(b)
  {
    match t
    case Leaf(_, _) =>
    case Node(_, l, r) =>
      var c := BuildHuffmanCodes(t, prefix)[b];
      var cr := BuildHuffmanCodes(r, prefix + [true]);
      var step := b in cr;
      var child := if step then r else l;
      var p := prefix + [step];
      assert c == BuildHuffmanCodes(child, p)[b];
      CodeIsPath(child, p, b);
      assert c[|prefix|..][0] == step;
      assert c[|prefix|..][1..] == c[|p|..];
  }

  /** Conversely, when no symbol labels two leaves, every root-to-leaf path is the code of its leaf. */
  lemma {:induction false} PathsAreCodes(t: Tree, prefix: Code, path: Code)
    requires Distinct(LeafSymbols(t)) && LeafAt(t, path).Some?
    ensures var cb := BuildHuffmanCodes(t, prefix);
      LeafAt(t, path).value in cb && cb[LeafAt(t, path).value] == prefix + path
  {
    match t
    case Leaf(_, _) =>
    case Node(_, l, r) =>
      var s := LeafAt(t, path).value;
      var ls, rs := LeafSymbols(l), LeafSymbols(r);
      assert Distinct(ls) && Distinct(rs) by {
        forall i, j | 0 <= i < j < |ls| ensures ls[i] != ls[j] {
          assert ls[i] == LeafSymbols(t)[i] && ls[j] == LeafSymbols(t)[j];
        }
        forall i, j | 0 <= i < j < |rs| ensures rs[i] != rs[j] {
          assert rs[i] == LeafSymbols(t)[|ls| + i] && rs[j] == LeafSymbols(t)[|ls| + j];
        }
      }
      assert prefix + path == (prefix + [path[0]]) + path[1..];
      if path[0] {
        PathsAreCodes(r, prefix + [true], path[1..]);
      } else {
        PathsAreCodes(l, prefix + [false], path[1..]);
        LeafAtIsLeaf(l, path[1..]);
        assert s !in rs by {
          var i :| 0 <= i < |ls| && ls[i] == s;
          forall j | 0 <= j < |rs| ensures rs[j] != s {
            assert ls[i] == LeafSymbols(t)[i] && rs[j] == LeafSymbols(t)[|ls| + j];
          }
        }
      }
  }

  /** A path that ends at a leaf cannot be extended to another path that ends at a leaf. */
  lemma {:induction false} LeafPathsPrefixFree(t: Tree, p: Code, q: Code)
    requires LeafAt(t, p).Some? && LeafAt(t, q).Some? && p <= q
    ensures p == q
  {
    match t
    case Leaf(_, _) =>
    case Node(_, l, r) =>
      assert p[1..] <= q[1..];
      LeafPathsPrefixFree(if p[0] then r else l, p[1..], q[1..]);
  }

  /** A single-leaf tree gives its symbol the empty code. */
  lemma SingleLeafCodebook(t: Tree)
    requires t.Leaf?
    ensures BuildHuffmanCodes(t, []) == map[t.sym := []]
  {
  }

  /** In a tree with merged nodes every code is non-empty. */
  lemma CodesNonEmpty(t: Tree)
    requires t.Node?
    ensures NonEmptyCodes(BuildHuffmanCodes(t, []))
  {
    var cb := BuildHuffmanCodes(t, []);
    forall b | b in cb ensures cb[b] != [] {
      CodeIsPath(t, [], b);
      assert cb[b][0..] == cb[b];
      assert LeafAt(t, []) == None;
    }
  }

  /** The codes of a tree form a prefix-free code. */
  lemma CodesPrefixFree(t: Tree)
    ensures PrefixFree(BuildHuffmanCodes(t, []))
  {
    var cb := BuildHuffmanCodes(t, []);
    forall b1, b2 | b1 in cb && b2 in cb && b1 != b2 ensures !(cb[b1] <= cb[b2]) {
      CodeIsPath(t, [], b1);
      CodeIsPath(t, [], b2);
      assert cb[b1][0..] == cb[b1] && cb[b2][0..] == cb[b2];
      if cb[b1] <= cb[b2] {
        LeafPathsPrefixFree(t, cb[b1], cb[b2]);
      }
    }
  }

  /** With no repeated leaf symbol, the codebook has exactly one entry per leaf. */
  lemma CodebookSize(t: Tree)
    requires Distinct(LeafSymbols(t))
    ensures |BuildHuffmanCodes(t, [])| == |LeafSymbols(t)|
  {
    DistinctCardinality(LeafSymbols(t));
    assert |BuildHuffmanCodes(t, [])| == |BuildHuffmanCodes(t, []).Keys|;
  }
}
