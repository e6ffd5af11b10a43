/** The frequency table: Python's `Counter` over the input bytes (nen/compress.py:18-19). */
module Frequency {
  import opened Common

  /** One `(symbol, count)` item of the counter. */
  datatype Entry = Entry(sym: Byte, count: nat)

  /** The counter's items in its iteration order, which is the order in which symbols first occur. */
  type FrequencyTable = seq<Entry>

  /** The table's symbols, in table order. */
  function Symbols(table: FrequencyTable): seq<Byte> {
    seq(|table|, i requires 0 <= i < |table| => table[i].sym)
  }

  /** The sum of all counts. */
  function TotalCount(table: FrequencyTable): nat {
    if table == [] then 0 else table[0].count + TotalCount(table[1..])
  }

  /** Counts one more occurrence of `b`: bumps its entry, or appends a new entry with count 1. */
  function Tally(table: FrequencyTable, b: Byte): FrequencyTable {
    if table == [] then [Entry(b, 1)]
    else if table[0].sym == b then [Entry(b, table[0].count + 1)] + table[1..]
    else [table[0]] + Tally(table[1..], b)
  }

  /** `Counter(data)`: the bytes are counted one after the other, left to right. */
  function BuildFrequencyTable(data: seq<Byte>): (table: FrequencyTable)
    ensures table == [] <==> data == []
  {
    if data == [] then [] else Tally(BuildFrequencyTable(data[..|data| - 1]), data[|data| - 1])
  }

  /** The symbols of a table with one more entry in front. */
  lemma SymbolsCons(e: Entry, table: FrequencyTable)
    ensures Symbols([e] + table) == [e.sym] + Symbols(table)
  {
  }

  /** A tally keeps the symbols of the table, appending `b` if it is new. */
  lemma {:induction false} TallySymbols(table: FrequencyTable, b: Byte)
    ensures Symbols(Tally(table, b)) == (if b in Symbols(table) then Symbols(table) else Symbols(table) + [b])
  {
    if table == [] {
      assert Symbols([Entry(b, 1)]) == [b];
    } else {
      var h, tail := table[0], table[1..];
      assert table == [h] + tail;
      SymbolsCons(h, tail);
      if h.sym == b {
        SymbolsCons(Entry(b, h.count + 1), tail);
      } else {
        TallySymbols(tail, b);
        SymbolsCons(h, Tally(tail, b));
        assert b in Symbols(table) <==> b in Symbols(tail);
        assert [h.sym] + (Symbols(tail) + [b]) == ([h.sym] + Symbols(tail)) + [b];
      }
    }
  }

  /** A tally adds one to the entry of `b` (a new entry starts from zero) and leaves the others. */
  lemma {:induction false} TallyCounts(table: FrequencyTable, b: Byte)
    requires Distinct(Symbols(table))
    ensures var r := Tally(table, b);
      forall i :: 0 <= i < |r| ==>
        r[i].count == (if i < |table| then table[i].count else 0) + (if r[i].sym == b then 1 else 0)
  {
    var r := Tally(table, b);
    if table == [] {
    } else if table[0].sym == b {
      forall i | 0 < i < |r| ensures r[i].sym != b {
        assert Symbols(table)[0] == b && Symbols(table)[i] == r[i].sym;
      }
    } else {
      var tail := table[1..];
      assert Symbols(tail) == Symbols(table)[1..];
      TallyCounts(tail, b);
      var rt := Tally(tail, b);
      forall i | 0 < i < |r|
        ensures r[i].count == (if i < |table| then table[i].count else 0) + (if r[i].sym == b then 1 else 0)
      {
        assert r[i] == rt[i - 1];
      }
    }
  }

  /** A tally adds one to the total count. */
  lemma {:induction false} TallyTotal(table: FrequencyTable, b: Byte)
    ensures TotalCount(Tally(table, b)) == TotalCount(table) + 1
  {
    if table != [] && table[0].sym != b {
      TallyTotal(table[1..], b);
      assert Tally(table, b)[1..] == Tally(table[1..], b);
    } else if table != [] {
      assert Tally(table, b)[1..] == table[1..];
    }
  }

  /** The table's symbols are the distinct bytes of `data`, each listed once. */
  lemma {:induction false} FrequencyTableKeys(data: seq<Byte>)
    ensures var table := BuildFrequencyTable(data);
      && Distinct(Symbols(table))
      && (forall b :: b in Symbols(table) <==> b in data)
  {
    if data != [] {
      var p, b := data[..|data| - 1], data[|data| - 1];
      assert data == p + [b];
      var t := BuildFrequencyTable(p);
      FrequencyTableKeys(p);
      TallySymbols(t, b);
      var syms := Symbols(BuildFrequencyTable(data));
      if b !in Symbols(t) {
        forall i, j | 0 <= i < j < |syms| ensures syms[i] != syms[j] {
          assert syms[i] == Symbols(t)[i];
          if j < |t| {
            assert syms[j] == Symbols(t)[j];
          }
        }
      }
      forall c ensures c in syms <==> c in data {
        assert c in data <==> c in p || c == b;
      }
    }
  }

  /** Each entry counts the occurrences of its symbol, and the counts add up to the length of `data`. */
  lemma {:induction false} FrequencyTableCounts(data: seq<Byte>)
    ensures var table := BuildFrequencyTable(data);
      && (forall i :: 0 <= i < |table| ==> table[i].count == multiset(data)[table[i].sym])
      && TotalCount(table) == |data|
  {
    if data != [] {
      var p, b := data[..|data| - 1], data[|data| - 1];
      assert data == p + [b];
      var t := BuildFrequencyTable(p);
      var table := BuildFrequencyTable(data);
      FrequencyTableKeys(p);
      FrequencyTableCounts(p);
      TallySymbols(t, b);
      TallyCounts(t, b);
      TallyTotal(t, b);
      assert multiset(data) == multiset(p) + multiset{b};
      forall i | 0 <= i < |table| ensures table[i].count == multiset(data)[table[i].sym] {
        assert table[i].sym == Symbols(table)[i];
        if i < |t| {
          assert t[i].sym == Symbols(t)[i] == Symbols(table)[i];
        } else {
          assert b !in p;
        }
      }
    }
  }

  /** `syms` lists symbols in the order of their first occurrence in `data`: a symbol listed
      before another occurs before every occurrence of the other. */
  predicate FirstOccurrenceOrder(syms: seq<Byte>, data: seq<Byte>) {
    forall i, j, k :: 0 <= i < j < |syms| && 0 <= k < |data| && data[k] == syms[j] ==> syms[i] in data[..k]
  }

  /** Reading one more byte keeps first-occurrence order when a new byte goes last. */
  lemma OrderSnoc(syms: seq<Byte>, p: seq<Byte>, b: Byte)
    requires FirstOccurrenceOrder(syms, p) && forall c :: c in syms <==> c in p
    ensures FirstOccurrenceOrder(if b in syms then syms else syms + [b], p + [b])
  {
    var syms' := if b in syms then syms else syms + [b];
    var data := p + [b];
    forall i, j, k | 0 <= i < j < |syms'| && 0 <= k < |data| && data[k] == syms'[j]
      ensures syms'[i] in data[..k]
    {
      if k < |p| {
        assert data[..k] == p[..k] && data[k] == p[k];
        assert syms'[j] in p;
        assert syms'[i] == syms[i] && syms'[j] == syms[j];
      } else {
        assert data[..k] == p;
        assert syms'[i] == syms[i];
      }
    }
  }

  /** The table lists its symbols in the order in which they first occur in `data`. */
  lemma {:induction false} FrequencyTableOrder(data: seq<Byte>)
    ensures FirstOccurrenceOrder(Symbols(BuildFrequencyTable(data)), data)
  {
    if data != [] {
      var p, b := data[..|data| - 1], data[|data| - 1];
      assert data == p + [b];
      FrequencyTableKeys(p);
      FrequencyTableOrder(p);
      TallySymbols(BuildFrequencyTable(p), b);
      OrderSnoc(Symbols(BuildFrequencyTable(p)), p, b);
    }
  }
}
