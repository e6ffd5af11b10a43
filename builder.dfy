/** Tree construction: `build_huffman_tree` (nen/compress.py:21-33). The forest is a list that is
    stable-sorted by frequency on every round, loses its two first nodes, and gains their merge at the end. */
module TreeBuilder {
  import opened Common
  import opened Frequency
  import opened HuffmanTree

  predicate SortedByFreq(s: seq<Tree>) {
    forall i, j :: 0 <= i < j < |s| ==> s[i].freq <= s[j].freq
  }

  /** Inserts `x` in front of the first node that is not lighter than it. */
  function InsertByFreq(x: Tree, s: seq<Tree>): (r: seq<Tree>)
    ensures |r| == |s| + 1
  {
    if s == [] || x.freq <= s[0].freq then [x] + s else [s[0]] + InsertByFreq(x, s[1..])
  }

  /** `nodes.sort(key=lambda node: node.freq)`: Python's sort is stable, so nodes of equal
      frequency keep their relative order (see SortPullsFirstMin). */
  function SortByFreq(s: seq<Tree>): (r: seq<Tree>)
    ensures |r| == |s|
  {
    if s == [] then [] else InsertByFreq(s[0], SortByFreq(s[1..]))
  }

  /** Inserting adds exactly `x` to the forest. */
  lemma {:induction false} InsertPermutes(x: Tree, s: seq<Tree>)
    ensures multiset(InsertByFreq(x, s)) == multiset{x} + multiset(s)
  {
    if s != [] && x.freq > s[0].freq {
      InsertPermutes(x, s[1..]);
      assert s == [s[0]] + s[1..];
    }
  }

  /** Inserting into a sorted forest keeps it sorted. */
  lemma {:induction false} InsertSorted(x: Tree, s: seq<Tree>)
    requires SortedByFreq(s)
    ensures InsertByFreq(x, s)[0] == x || (s != [] && InsertByFreq(x, s)[0] == s[0])
    ensures SortedByFreq(InsertByFreq(x, s))
  {
    if s != [] && x.freq > s[0].freq {
      var rest := InsertByFreq(x, s[1..]);
      InsertSorted(x, s[1..]);
      var r := [s[0]] + rest;
      assert r == InsertByFreq(x, s);
      assert s[0].freq <= rest[0].freq;
      forall i, j | 0 <= i < j < |r| ensures r[i].freq <= r[j].freq {
        assert r[j] == rest[j - 1];
        if i > 0 {
          assert r[i] == rest[i - 1];
        } else {
          assert rest[0].freq <= rest[j - 1].freq;
        }
      }
    }
  }

  /** The sort returns a rearrangement of the forest in which frequencies never decrease. */
  lemma {:induction false} SortSpec(s: seq<Tree>)
    ensures SortedByFreq(SortByFreq(s)) && multiset(SortByFreq(s)) == multiset(s)
  {
    if s != [] {
      SortSpec(s[1..]);
      InsertPermutes(s[0], SortByFreq(s[1..]));
      InsertSorted(s[0], SortByFreq(s[1..]));
      assert s == [s[0]] + s[1..];
    }
  }

  /** The position of the first node of least frequency. */
  function FirstMinIndex(s: seq<Tree>): (i: nat)
    requires |s| > 0
    ensures i < |s|
  {
    if |s| == 1 then 0
    else
      var j := FirstMinIndex(s[1..]);
      if s[0].freq <= s[1..][j].freq then 0 else j + 1
  }

  /** No node is lighter than the one at FirstMinIndex, and every node before it is heavier. */
  lemma {:induction false} FirstMinIndexIsFirstMin(s: seq<Tree>)
    requires |s| > 0
    ensures forall k :: 0 <= k < |s| ==> s[FirstMinIndex(s)].freq <= s[k].freq
    ensures forall k :: 0 <= k < FirstMinIndex(s) ==> s[FirstMinIndex(s)].freq < s[k].freq
  {
    if |s| > 1 {
      FirstMinIndexIsFirstMin(s[1..]);
    }
  }

  function RemoveAt(s: seq<Tree>, i: nat): seq<Tree>
    requires i < |s|
  {
    s[..i] + s[i + 1..]
  }

  /** Removing a position other than the first keeps the first node in front. */
  lemma RemoveAtTail(s: seq<Tree>, i: nat)
    requires 0 < i < |s|
    ensures RemoveAt(s, i) == [s[0]] + RemoveAt(s[1..], i - 1)
  {
  }

  /** A node no heavier than the first goes in front. */
  lemma InsertInFront(x: Tree, s: seq<Tree>)
    requires s == [] || x.freq <= s[0].freq
    ensures InsertByFreq(x, s) == [x] + s
  {
  }

  /** Inserting a node in front of a lighter node passes over it. */
  lemma InsertPastLighter(x: Tree, y: Tree, s: seq<Tree>)
    requires y.freq < x.freq
    ensures InsertByFreq(x, [y] + s) == [y] + InsertByFreq(x, s)
  {
    assert ([y] + s)[1..] == s;
  }

  /** The stable sort puts first the earliest node of least frequency, followed by the stable
      sort of the others: ties between equal frequencies go to the earlier list position. */
  lemma {:induction false} SortPullsFirstMin(s: seq<Tree>)
    requires |s| > 0
    ensures SortByFreq(s) == [s[FirstMinIndex(s)]] + SortByFreq(RemoveAt(s, FirstMinIndex(s)))
  {
    var i := FirstMinIndex(s);
    FirstMinIndexIsFirstMin(s);
    if |s| == 1 {
      assert RemoveAt(s, i) == [];
    } else if i == 0 {
      assert RemoveAt(s, 0) == s[1..];
      SortSpec(s[1..]);
      var r := SortByFreq(s[1..]);
      assert r[0] in multiset(s[1..]);
      InsertInFront(s[0], r);
    } else {
      var t := s[1..];
      assert FirstMinIndex(t) == i - 1;
      SortPullsFirstMin(t);
      RemoveAtTail(s, i);
      InsertPastLighter(s[0], s[i], SortByFreq(RemoveAt(t, i - 1)));
    }
  }

  /** `[Node(char, freq) for char, freq in freq_table.items()]`. */
  function InitialForest(table: FrequencyTable): seq<Tree> {
    seq(|table|, i requires 0 <= i < |table| => Leaf(table[i].sym, table[i].count))
  }

  /** One round of the loop body (nen/compress.py:25-31): sort, then merge the two first nodes. */
  function HuffmanStep(nodes: seq<Tree>): seq<Tree>
    requires |nodes| >= 2
  {
    MergeFront(SortByFreq(nodes))
  }

  /** Pops the two first nodes and appends their merge, a node without symbol whose
      frequency is the sum of theirs (nen/compress.py:26-31). */
  function MergeFront(s: seq<Tree>): seq<Tree>
    requires |s| >= 2
  {
    var left, right := s[0], s[1];
    s[2..] + [Node(left.freq + right.freq, left, right)]
  }

  /** The tree the loop returns from a forest: rounds until one node is left. */
  function Huffman(nodes: seq<Tree>): Tree
    requires |nodes| >= 1
    decreases |nodes|
  {
    if |nodes| == 1 then nodes[0] else Huffman(HuffmanStep(nodes))
  }

  /** MergeFront on two named nodes followed by the rest. */
  lemma MergeFrontOf(x: Tree, y: Tree, c: seq<Tree>)
    ensures MergeFront([x] + ([y] + c)) == c + [Node(x.freq + y.freq, x, y)]
  {
    assert ([x] + ([y] + c))[2..] == c;
  }

  /** The two nodes a round merges are the earliest node of least frequency and, among the
      rest, again the earliest node of least frequency; the other nodes stay in stable-sorted order
      and the merged node goes last. */
  lemma MinimalPair(nodes: seq<Tree>, i: nat, j: nat)
    requires |nodes| >= 2
    requires i == FirstMinIndex(nodes) && j == FirstMinIndex(RemoveAt(nodes, i))
    ensures HuffmanStep(nodes) ==
              SortByFreq(RemoveAt(RemoveAt(nodes, i), j))
              + [Node(nodes[i].freq + RemoveAt(nodes, i)[j].freq, nodes[i], RemoveAt(nodes, i)[j])]
  {
    var rest := RemoveAt(nodes, i);
    SortPullsFirstMin(nodes);
    SortPullsFirstMin(rest);
    StepOfSorted(nodes, nodes[i], SortByFreq(rest), rest[j], SortByFreq(RemoveAt(rest, j)));
  }

  /** A round on a forest whose sort begins with `x` and `y`. */
  lemma StepOfSorted(nodes: seq<Tree>, x: Tree, tail: seq<Tree>, y: Tree, others: seq<Tree>)
    requires |nodes| >= 2
    requires SortByFreq(nodes) == [x] + tail
    requires tail == [y] + others
    ensures HuffmanStep(nodes) == others + [Node(x.freq + y.freq, x, y)]
  {
    MergeFrontOf(x, y, others);
  }

  /** Insertion adds the weight of the inserted tree to the forest. */
  lemma {:induction false} InsertWeight(x: Tree, s: seq<Tree>)
    ensures ForestWeight(InsertByFreq(x, s)) == x.freq + ForestWeight(s)
  {
    if s == [] || x.freq <= s[0].freq {
      ForestCons(x, s);
    } else {
      var h, tail := s[0], s[1..];
      var rest := InsertByFreq(x, tail);
      assert s == [h] + tail;
      assert InsertByFreq(x, s) == [h] + rest;
      InsertWeight(x, tail);
      ForestCons(h, rest);
      ForestCons(h, tail);
    }
  }

  /** Insertion adds the leaves of the inserted tree to the forest's leaves (as a multiset). */
  lemma {:induction false} InsertLeaves(x: Tree, s: seq<Tree>)
    ensures multiset(ForestLeaves(InsertByFreq(x, s))) == multiset(LeafSymbols(x)) + multiset(ForestLeaves(s))
  {
    if s == [] || x.freq <= s[0].freq {
      ForestCons(x, s);
    } else {
      var h, tail := s[0], s[1..];
      var rest := InsertByFreq(x, tail);
      assert s == [h] + tail;
      assert InsertByFreq(x, s) == [h] + rest;
      InsertLeaves(x, tail);
      ForestCons(h, rest);
      ForestCons(h, tail);
      var a, r, t := LeafSymbols(h), ForestLeaves(rest), ForestLeaves(tail);
      assert multiset(a + r) == multiset(a) + multiset(r);
      assert multiset(a + t) == multiset(a) + multiset(t);
    }
  }

  /** Insertion adds the merged nodes of the inserted tree to the forest's. */
  lemma {:induction false} InsertInternal(x: Tree, s: seq<Tree>)
    ensures ForestInternal(InsertByFreq(x, s)) == InternalCount(x) + ForestInternal(s)
  {
    if s == [] || x.freq <= s[0].freq {
      ForestCons(x, s);
    } else {
      var h, tail := s[0], s[1..];
      var rest := InsertByFreq(x, tail);
      assert s == [h] + tail;
      assert InsertByFreq(x, s) == [h] + rest;
      InsertInternal(x, tail);
      ForestCons(h, rest);
      ForestCons(h, tail);
    }
  }

  /** Sorting keeps weight, leaves (as a multiset) and merged-node count of the forest. */
  lemma {:induction false} SortPreserves(s: seq<Tree>)
    ensures ForestWeight(SortByFreq(s)) == ForestWeight(s)
    ensures multiset(ForestLeaves(SortByFreq(s))) == multiset(ForestLeaves(s))
    ensures ForestInternal(SortByFreq(s)) == ForestInternal(s)
  {
    if s != [] {
      SortPreserves(s[1..]);
      InsertWeight(s[0], SortByFreq(s[1..]));
      InsertLeaves(s[0], SortByFreq(s[1..]));
      InsertInternal(s[0], SortByFreq(s[1..]));
    }
  }

  /** Merging the two first nodes keeps weight and leaves and adds one merged node. */
  lemma MergeFrontPreserves(s: seq<Tree>)
    requires |s| >= 2
    ensures |MergeFront(s)| == |s| - 1
    ensures ForestWeight(MergeFront(s)) == ForestWeight(s)
    ensures multiset(ForestLeaves(MergeFront(s))) == multiset(ForestLeaves(s))
    ensures ForestInternal(MergeFront(s)) == ForestInternal(s) + 1
  {
    var merged := Node(s[0].freq + s[1].freq, s[0], s[1]);
    var rest := s[2..];
    assert MergeFront(s) == rest + [merged];
    ForestAppend(rest, merged);
    ForestFrontTwo(s);
    var a, b, c := LeafSymbols(s[0]), LeafSymbols(s[1]), ForestLeaves(rest);
    assert ForestLeaves(MergeFront(s)) == c + (a + b);
    assert ForestLeaves(s) == a + b + c;
    assert multiset(c + (a + b)) == multiset(a + b + c);
  }

  /** Merging two well-formed trees gives a well-formed tree. */
  lemma MergeFrontWellFormed(s: seq<Tree>)
    requires |s| >= 2 && AllWellFormed(s)
    ensures AllWellFormed(MergeFront(s))
  {
    var merged := Node(s[0].freq + s[1].freq, s[0], s[1]);
    assert s[0] in s && s[1] in s;
    forall t | t in MergeFront(s) ensures WellFormed(t) {
      if t != merged {
        assert t in s[2..];
      }
    }
  }

  /** Each round removes exactly one node from the forest, adds one merged node, and keeps the
      total frequency and the leaves; every tree stays well formed. */
  lemma StepPreserves(nodes: seq<Tree>)
    requires |nodes| >= 2
    ensures |HuffmanStep(nodes)| == |nodes| - 1
    ensures ForestWeight(HuffmanStep(nodes)) == ForestWeight(nodes)
    ensures multiset(ForestLeaves(HuffmanStep(nodes))) == multiset(ForestLeaves(nodes))
    ensures ForestInternal(HuffmanStep(nodes)) == ForestInternal(nodes) + 1
    ensures AllWellFormed(nodes) ==> AllWellFormed(HuffmanStep(nodes))
  {
    SortPreserves(nodes);
    SortSpec(nodes);
    var s := SortByFreq(nodes);
    assert AllWellFormed(nodes) ==> AllWellFormed(s) by {
      forall t | t in s ensures t in nodes {
        assert t in multiset(s);
      }
    }
    MergeFrontPreserves(s);
    if AllWellFormed(nodes) {
      MergeFrontWellFormed(s);
    }
  }

  /** The tree built from a forest of well-formed trees is well formed, weighs what the forest
      weighs, has the forest's leaves, and has one merged node more per round. */
  lemma {:induction false} HuffmanShape(nodes: seq<Tree>)
    requires |nodes| >= 1 && AllWellFormed(nodes)
    ensures WellFormed(Huffman(nodes))
    ensures Huffman(nodes).freq == ForestWeight(nodes)
    ensures multiset(LeafSymbols(Huffman(nodes))) == multiset(ForestLeaves(nodes))
    ensures InternalCount(Huffman(nodes)) == ForestInternal(nodes) + |nodes| - 1
    decreases |nodes|
  {
    if |nodes| == 1 {
      assert nodes[0] in nodes;
      assert nodes[1..] == [];
    } else {
      StepPreserves(nodes);
      HuffmanShape(HuffmanStep(nodes));
    }
  }

  /** The starting forest: one leaf per table entry, in table order. */
  lemma {:induction false} InitialForestShape(table: FrequencyTable)
    ensures |InitialForest(table)| == |table|
    ensures AllWellFormed(InitialForest(table))
    ensures ForestWeight(InitialForest(table)) == TotalCount(table)
    ensures ForestLeaves(InitialForest(table)) == Symbols(table)
    ensures ForestInternal(InitialForest(table)) == 0
  {
    if table != [] {
      InitialForestShape(table[1..]);
      assert InitialForest(table)[1..] == InitialForest(table[1..]);
      assert Symbols(table) == [table[0].sym] + Symbols(table[1..]);
    }
  }

  /** What the loop's invariants say of its last, one-tree forest, said of that tree. */
  lemma SingleTreeForest(nodes: seq<Tree>, table: FrequencyTable)
    requires |nodes| == 1 && AllWellFormed(nodes)
    requires multiset(ForestLeaves(nodes)) == multiset(Symbols(table))
    ensures WellFormed(nodes[0])
    ensures ForestWeight(nodes) == nodes[0].freq && ForestInternal(nodes) == InternalCount(nodes[0])
    ensures multiset(LeafSymbols(nodes[0])) == multiset(Symbols(table))
    ensures |LeafSymbols(nodes[0])| == |table|
    ensures Distinct(Symbols(table)) ==> Distinct(LeafSymbols(nodes[0]))
  {
    assert nodes[0] in nodes && nodes[1..] == [];
    assert ForestLeaves(nodes) == LeafSymbols(nodes[0]);
    assert |multiset(LeafSymbols(nodes[0]))| == |multiset(Symbols(table))|;
    if Distinct(Symbols(table)) {
      DistinctPermutation(Symbols(table), LeafSymbols(nodes[0]));
    }
  }

  /** The tree built from a non-empty table weighs the total count, carries each table symbol at
      one leaf, and has one merged node fewer than leaves. */
  lemma TreeOfTable(table: FrequencyTable)
    requires |table| > 0
    ensures var root := Huffman(InitialForest(table));
      && WellFormed(root)
      && root.freq == TotalCount(table)
      && multiset(LeafSymbols(root)) == multiset(Symbols(table))
      && |LeafSymbols(root)| == |table| && InternalCount(root) == |table| - 1
      && (Distinct(Symbols(table)) ==> Distinct(LeafSymbols(root)))
  {
    InitialForestShape(table);
    HuffmanShape(InitialForest(table));
    SingleTreeForest([Huffman(InitialForest(table))], table);
  }

  /** `build_huffman_tree`: the loop of nen/compress.py:24-31 over a list of nodes. An empty table
      makes the source fail at `nodes[0]`, so a non-empty table is required. */
  method BuildHuffmanTree(table: FrequencyTable) returns (root: Tree)
    requires |table| > 0
    ensures root == Huffman(InitialForest(table))
    ensures WellFormed(root)
    ensures root.freq == TotalCount(table)
    ensures multiset(LeafSymbols(root)) == multiset(Symbols(table))
    ensures |LeafSymbols(root)| == |table| && InternalCount(root) == |table| - 1
    ensures Distinct(Symbols(table)) ==> Distinct(LeafSymbols(root))
  {
    var nodes := InitialForest(table);
    while |nodes| > 1
      invariant 1 <= |nodes|
      invariant Huffman(nodes) == Huffman(InitialForest(table))
      decreases |nodes|
    {
      var sorted := SortByFreq(nodes);
      var left, right := sorted[0], sorted[1];      // the two `pop(0)` calls
      nodes := sorted[2..] + [Node(left.freq + right.freq, left, right)];
    }
    root := nodes[0];
    TreeOfTable(table);
  }
}
