/** The code tree: the `Node` class of nen/compress.py:8-16, as an immutable value. */
module HuffmanTree {
  import opened Common

  /** A leaf carries a symbol (`char` in the source) and its count; a merged node has no symbol
      (`char is None`), a frequency, and two children. */
  datatype Tree = Leaf(sym: Byte, freq: nat) | Node(freq: nat, left: Tree, right: Tree)

  /** Every merged node weighs as much as its two children together. */
  predicate WellFormed(t: Tree) {
    match t
    case Leaf(_, _) => true
    case Node(f, l, r) => f == l.freq + r.freq && WellFormed(l) && WellFormed(r)
  }

  /** The symbols at the leaves, left to right. */
  function LeafSymbols(t: Tree): seq<Byte> {
    match t
    case Leaf(s, _) => [s]
    case Node(_, l, r) => LeafSymbols(l) + LeafSymbols(r)
  }

  /** The number of merged (internal) nodes. */
  function InternalCount(t: Tree): nat {
    match t
    case Leaf(_, _) => 0
    case Node(_, l, r) => 1 + InternalCount(l) + InternalCount(r)
  }

  /** Sum of the frequencies of the trees of a forest. */
  function ForestWeight(f: seq<Tree>): nat {
    if f == [] then 0 else f[0].freq + ForestWeight(f[1..])
  }

  /** The leaf symbols of all trees of a forest, tree after tree. */
  function ForestLeaves(f: seq<Tree>): seq<Byte> {
    if f == [] then [] else LeafSymbols(f[0]) + ForestLeaves(f[1..])
  }

  /** The number of merged nodes in all trees of a forest. */
  function ForestInternal(f: seq<Tree>): nat {
    if f == [] then 0 else InternalCount(f[0]) + ForestInternal(f[1..])
  }

  predicate AllWellFormed(f: seq<Tree>) {
    forall t :: t in f ==> WellFormed(t)
  }

  /** Appending a tree to a forest adds its weight, its leaves and its merged nodes. */
  lemma {:induction false} ForestAppend(f: seq<Tree>, t: Tree)
    ensures ForestWeight(f + [t]) == ForestWeight(f) + t.freq
    ensures ForestLeaves(f + [t]) == ForestLeaves(f) + LeafSymbols(t)
    ensures ForestInternal(f + [t]) == ForestInternal(f) + InternalCount(t)
  {
    if f != [] {
      assert (f + [t])[1..] == f[1..] + [t];
      ForestAppend(f[1..], t);
    } else {
      assert [t][1..] == [];
    }
  }

  /** A forest with one more tree in front. */
  lemma ForestCons(t: Tree, f: seq<Tree>)
    ensures ForestWeight([t] + f) == t.freq + ForestWeight(f)
    ensures ForestLeaves([t] + f) == LeafSymbols(t) + ForestLeaves(f)
    ensures ForestInternal([t] + f) == InternalCount(t) + ForestInternal(f)
  {
    assert ([t] + f)[1..] == f;
  }

  /** A forest of at least two trees, split into its first two trees and the rest. */
  lemma ForestFrontTwo(f: seq<Tree>)
    requires |f| >= 2
    ensures ForestWeight(f) == f[0].freq + f[1].freq + ForestWeight(f[2..])
    ensures ForestLeaves(f) == LeafSymbols(f[0]) + LeafSymbols(f[1]) + ForestLeaves(f[2..])
    ensures ForestInternal(f) == InternalCount(f[0]) + InternalCount(f[1]) + ForestInternal(f[2..])
  {
    var a, b, rest := f[0], f[1], f[2..];
    assert f == [a] + ([b] + rest);
    ForestCons(b, rest);
    ForestCons(a, [b] + rest);
    assert LeafSymbols(a) + (LeafSymbols(b) + ForestLeaves(rest))
        == LeafSymbols(a) + LeafSymbols(b) + ForestLeaves(rest);
  }
}
