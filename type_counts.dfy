/**
 * The frequency table behind the event-type bar chart: the `type` column's
 * `value_counts()`, turned into a two-column table of `(type, count)` rows.
 */
module TypeCounts {
  import opened Prepare

  /** One row of the frequency table. */
  datatype TypeCount = TypeCount(eventType: string, count: nat)

  /** How many entries of `types` equal `t`. */
  function Occurrences(types: seq<string>, t: string): (n: nat)
    ensures n <= |types|
    ensures n == 0 <==> t !in types
  {
    if types == [] then 0
    else (if types[0] == t then 1 else 0) + Occurrences(types[1..], t)
  }

  /** The occurrence count is the multiplicity of `t` in the multiset of
      labels, so it does not depend on the order of the rows. */
  lemma {:induction false} OccurrencesIsMultiplicity(types: seq<string>, t: string)
    ensures Occurrences(types, t) == multiset(types)[t]
  {
    if types != [] {
      OccurrencesIsMultiplicity(types[1..], t);
      assert types == [types[0]] + types[1..];
    }
  }

  /** `types` with every `t` removed; the other labels keep their counts. */
  function Without(types: seq<string>, t: string): (rest: seq<string>)
    ensures t !in rest
    ensures |rest| == |types| - Occurrences(types, t)
    ensures forall u :: u != t ==> Occurrences(rest, u) == Occurrences(types, u)
  {
    if types == [] then []
    else if types[0] == t then Without(types[1..], t)
    else [types[0]] + Without(types[1..], t)
  }

  /** The labels in a table are pairwise different. */
  predicate DistinctTypes(rows: seq<TypeCount>) {
    forall i, j :: 0 <= i < j < |rows| ==> rows[i].eventType != rows[j].eventType
  }

  /** Counts never increase from one row to a later one. */
  predicate NonIncreasing(rows: seq<TypeCount>) {
    forall i, j :: 0 <= i < j < |rows| ==> rows[i].count >= rows[j].count
  }

  function SumCounts(rows: seq<TypeCount>): nat {
    if rows == [] then 0 else rows[0].count + SumCounts(rows[1..])
  }

  /** The distinct labels of `types`, in order of first appearance, each with
      the number of times it occurs. */
  function Tally(types: seq<string>): (rows: seq<TypeCount>)
    ensures IsTally(types, rows)
    decreases |types|
  {
    if types == [] then []
    else
      var t := types[0];
      var rest := Without(types[1..], t);
      TallyStep(types, rest, Tally(rest));
      [TypeCount(t, Occurrences(types, t))] + Tally(rest)
  }

  /** The facts `Tally` promises about `rows` as the tally of `types`. */
  predicate IsTally(types: seq<string>, rows: seq<TypeCount>) {
    && DistinctTypes(rows)
    && (forall i :: 0 <= i < |rows| ==>
          rows[i].eventType in types && rows[i].count == Occurrences(types, rows[i].eventType))
    && (forall t :: t in types ==> TypeCount(t, Occurrences(types, t)) in rows)
    && SumCounts(rows) == |types|
    && |rows| == |set t | t in types|
  }

  /** The inductive step of `Tally`: the head label with its count, in front
      of the tally of the remaining labels, is the tally of all the labels. */
  lemma TallyStep(types: seq<string>, rest: seq<string>, tail: seq<TypeCount>)
    requires types != [] && rest == Without(types[1..], types[0])
    requires IsTally(rest, tail)
    ensures IsTally(types, [TypeCount(types[0], Occurrences(types, types[0]))] + tail)
  {
    var x := types[0];
    var head := TypeCount(x, Occurrences(types, x));
    var rows := [head] + tail;
    TallyStepLabels(types, rest, tail);
    TallyStepDistinct(head, tail);
    TallyStepRows(head, tail, types);
    TallyStepCover(types, rest, tail);
    TallyStepSize(types, rest);
    assert SumCounts(rows) == |types| by {
      assert rows[1..] == tail;
      assert Occurrences(types, x) == 1 + Occurrences(types[1..], x);
    }
  }

  lemma TallyStepDistinct(head: TypeCount, tail: seq<TypeCount>)
    requires DistinctTypes(tail)
    requires forall i :: 0 <= i < |tail| ==> tail[i].eventType != head.eventType
    ensures DistinctTypes([head] + tail)
  {
    var rows := [head] + tail;
    forall i, j | 0 <= i < j < |rows| ensures rows[i].eventType != rows[j].eventType {
      assert rows[j] == tail[j - 1];
      if i > 0 { assert rows[i] == tail[i - 1]; }
    }
  }

  lemma TallyStepRows(head: TypeCount, tail: seq<TypeCount>, types: seq<string>)
    requires head.eventType in types && head.count == Occurrences(types, head.eventType)
    requires forall i :: 0 <= i < |tail| ==>
               tail[i].eventType in types && tail[i].count == Occurrences(types, tail[i].eventType)
    ensures var rows := [head] + tail;
            forall i :: 0 <= i < |rows| ==>
              rows[i].eventType in types && rows[i].count == Occurrences(types, rows[i].eventType)
  {
    var rows := [head] + tail;
    forall i | 0 <= i < |rows|
      ensures rows[i].eventType in types && rows[i].count == Occurrences(types, rows[i].eventType)
    {
      if i > 0 { assert rows[i] == tail[i - 1]; }
    }
  }

  lemma TallyStepLabels(types: seq<string>, rest: seq<string>, tail: seq<TypeCount>)
    requires types != [] && rest == Without(types[1..], types[0])
    requires IsTally(rest, tail)
    ensures forall i :: 0 <= i < |tail| ==>
              tail[i].eventType in types && tail[i].eventType != types[0]
              && tail[i].count == Occurrences(types, tail[i].eventType)
  {
    var x := types[0];
    forall i | 0 <= i < |tail|
      ensures tail[i].eventType in types && tail[i].eventType != x
              && tail[i].count == Occurrences(types, tail[i].eventType)
    {
      var u := tail[i].eventType;
      assert u in rest;
      assert Occurrences(rest, u) == Occurrences(types[1..], u) > 0;
      assert u in types[1..];
    }
  }

  lemma TallyStepCover(types: seq<string>, rest: seq<string>, tail: seq<TypeCount>)
    requires types != [] && rest == Without(types[1..], types[0])
    requires IsTally(rest, tail)
    ensures forall t :: t in types ==> TypeCount(t, Occurrences(types, t)) in [TypeCount(types[0], Occurrences(types, types[0]))] + tail
  {
    forall t | t in types && t != types[0] ensures TypeCount(t, Occurrences(types, t)) in tail {
      assert t in types[1..];
      assert Occurrences(rest, t) == Occurrences(types[1..], t) > 0;
    }
  }

  lemma TallyStepSize(types: seq<string>, rest: seq<string>)
    requires types != [] && rest == Without(types[1..], types[0])
    ensures (set t | t in types) == {types[0]} + (set t | t in rest)
    ensures types[0] !in (set t | t in rest)
  {
    var x := types[0];
    forall t | t in types && t != x ensures t in rest {
      assert t in types[1..];
      assert Occurrences(rest, t) == Occurrences(types[1..], t) > 0;
    }
    forall t | t in rest ensures t in types {
      assert Occurrences(types[1..], t) == Occurrences(rest, t) > 0;
    }
  }

  /** In a table sorted by count, no row counts more than the first. */
  lemma HeadIsLargest(rows: seq<TypeCount>)
    requires NonIncreasing(rows) && rows != []
    ensures forall q :: q in rows ==> q.count <= rows[0].count
  {
    forall q | q in rows ensures q.count <= rows[0].count {
      var k :| 0 <= k < |rows| && rows[k] == q;
    }
  }

  /** Puts `row` into a table sorted by non-increasing count, ahead of every
      row whose count it equals. */
  function InsertByCount(row: TypeCount, rows: seq<TypeCount>): (r: seq<TypeCount>)
    requires NonIncreasing(rows)
    ensures |r| == |rows| + 1
    ensures forall q :: q in r <==> q == row || q in rows
    ensures NonIncreasing(r)
  {
    if rows == [] || row.count >= rows[0].count then [row] + rows
    else
      var tail := InsertByCount(row, rows[1..]);
      HeadIsLargest(rows);
      assert rows == [rows[0]] + rows[1..];
      assert forall k :: 0 <= k < |tail| ==> tail[k] in tail && tail[k].count <= rows[0].count;
      [rows[0]] + tail
  }

  /** Orders a table by non-increasing count (`value_counts`' default sort). */
  function SortByCount(rows: seq<TypeCount>): (r: seq<TypeCount>)
    ensures |r| == |rows|
    ensures forall q :: q in r <==> q in rows
    ensures NonIncreasing(r)
  {
    if rows == [] then [] else InsertByCount(rows[0], SortByCount(rows[1..]))
  }

  /** Inserting adds exactly the one row: the result is a permutation of
      `rows` with `row` added. */
  lemma {:induction false} InsertByCountPermutes(row: TypeCount, rows: seq<TypeCount>)
    requires NonIncreasing(rows)
    ensures multiset(InsertByCount(row, rows)) == multiset(rows) + multiset{row}
  {
    if rows != [] && row.count < rows[0].count {
      InsertByCountPermutes(row, rows[1..]);
      assert rows == [rows[0]] + rows[1..];
    }
  }

  /** Sorting only reorders: the result is a permutation of its input. */
  lemma {:induction false} SortByCountPermutes(rows: seq<TypeCount>)
    ensures multiset(SortByCount(rows)) == multiset(rows)
  {
    if rows != [] {
      SortByCountPermutes(rows[1..]);
      InsertByCountPermutes(rows[0], SortByCount(rows[1..]));
      assert rows == [rows[0]] + rows[1..];
    }
  }

  /** Inserting adds the row's count to the total. */
  lemma {:induction false} InsertByCountSum(row: TypeCount, rows: seq<TypeCount>)
    requires NonIncreasing(rows)
    ensures SumCounts(InsertByCount(row, rows)) == row.count + SumCounts(rows)
  {
    if rows != [] && row.count < rows[0].count {
      InsertByCountSum(row, rows[1..]);
    }
  }

  /** Inserting a row with a new label keeps the labels distinct. */
  lemma {:induction false} InsertByCountDistinct(row: TypeCount, rows: seq<TypeCount>)
    requires NonIncreasing(rows) && DistinctTypes(rows)
    requires forall q :: q in rows ==> q.eventType != row.eventType
    ensures DistinctTypes(InsertByCount(row, rows))
  {
    if rows != [] && row.count < rows[0].count {
      InsertByCountDistinct(row, rows[1..]);
      var tail := InsertByCount(row, rows[1..]);
      forall q | q in tail ensures q.eventType != rows[0].eventType {
        if q != row {
          var k :| 0 <= k < |rows[1..]| && rows[1..][k] == q;
          assert rows[k + 1] == q;
        }
      }
    }
  }

  /** Sorting keeps the total. */
  lemma {:induction false} SortByCountSum(rows: seq<TypeCount>)
    ensures SumCounts(SortByCount(rows)) == SumCounts(rows)
  {
    if rows != [] {
      SortByCountSum(rows[1..]);
      InsertByCountSum(rows[0], SortByCount(rows[1..]));
    }
  }

  /** Sorting keeps the labels distinct. */
  lemma {:induction false} SortByCountDistinct(rows: seq<TypeCount>)
    requires DistinctTypes(rows)
    ensures DistinctTypes(SortByCount(rows))
  {
    if rows != [] {
      SortByCountDistinct(rows[1..]);
      forall q | q in SortByCount(rows[1..]) ensures q.eventType != rows[0].eventType {
        var k :| 0 <= k < |rows[1..]| && rows[1..][k] == q;
        assert rows[k + 1] == q;
      }
      InsertByCountDistinct(rows[0], SortByCount(rows[1..]));
    }
  }

  /** `value_counts()` followed by `reset_index()`: one row per distinct
      label, with its number of occurrences, most frequent first. The counts
      are at least one and add up to the number of labels, and the table is
      empty exactly when there are no labels. */
  function ValueCounts(types: seq<string>): (table: seq<TypeCount>)
    ensures DistinctTypes(table)
    ensures forall i :: 0 <= i < |table| ==>
              && table[i].eventType in types
              && table[i].count == Occurrences(types, table[i].eventType)
              && table[i].count >= 1
    ensures forall t :: t in types ==> TypeCount(t, Occurrences(types, t)) in table
    ensures NonIncreasing(table)
    ensures SumCounts(table) == |types|
    ensures |table| == |set t | t in types|
    ensures table == [] <==> types == []
  {
    var tally := Tally(types);
    SortByCountSum(tally);
    SortByCountDistinct(tally);
    var table := SortByCount(tally);
    forall i | 0 <= i < |table|
      ensures table[i].eventType in types && table[i].count == Occurrences(types, table[i].eventType)
    {
      assert table[i] in tally;
    }
    table
  }

  /** The table depends only on how often each label occurs, not on the order
      of the rows: reordered input gives the same rows (up to the order of
      tied counts, which the table leaves open). */
  lemma ValueCountsOrderIndependent(types: seq<string>, shuffled: seq<string>)
    requires multiset(shuffled) == multiset(types)
    ensures forall row :: row in ValueCounts(shuffled) <==> row in ValueCounts(types)
    ensures |ValueCounts(shuffled)| == |ValueCounts(types)|
  {
    forall t ensures Occurrences(shuffled, t) == Occurrences(types, t) && (t in shuffled <==> t in types) {
      OccurrencesIsMultiplicity(shuffled, t);
      OccurrencesIsMultiplicity(types, t);
    }
    assert (set t | t in shuffled) == (set t | t in types);
    forall row | row in ValueCounts(shuffled) ensures row in ValueCounts(types) {
      assert row == TypeCount(row.eventType, Occurrences(types, row.eventType));
    }
    forall row | row in ValueCounts(types) ensures row in ValueCounts(shuffled) {
      assert row == TypeCount(row.eventType, Occurrences(shuffled, row.eventType));
    }
  }

  /** Two labels, one twice and one once: two rows, the more frequent first. */
  lemma ValueCountsTwoLabels(a: string, b: string)
    requires a != b
    ensures ValueCounts([a, a, b]) == [TypeCount(a, 2), TypeCount(b, 1)]
  {
    var types := [a, a, b];
    TwoLabelsCounted(a, b);
    var table := ValueCounts(types);
    assert |table| == 2;
    assert TypeCount(a, 2) in table && TypeCount(b, 1) in table;
    assert table[0].count >= table[1].count;
  }

  lemma TwoLabelsCounted(a: string, b: string)
    requires a != b
    ensures Occurrences([a, a, b], a) == 2 && Occurrences([a, a, b], b) == 1
    ensures (set t | t in [a, a, b]) == {a, b}
    ensures forall t :: t in [a, a, b] <==> t == a || t == b
  {
    var types := [a, a, b];
    assert types[1..] == [a, b] && types[1..][1..] == [b] && [b][1..] == [];
  }

  /** The event-type column of the prepared table. */
  function TypeColumn(table: seq<PreparedQuake>): seq<string> {
    seq(|table|, i requires 0 <= i < |table| => table[i].quake.eventType)
  }

  /** The data of the event-type bar chart: one bar per event type present in
      the table, its height the number of rows of that type (so at least one),
      the tallest first, the heights adding up to the number of rows. */
  function EventTypeCounts(table: seq<PreparedQuake>): (bars: seq<TypeCount>)
    ensures DistinctTypes(bars) && NonIncreasing(bars)
    ensures forall j :: 0 <= j < |bars| ==>
              bars[j].count == Occurrences(TypeColumn(table), bars[j].eventType) && bars[j].count >= 1
    ensures forall i :: 0 <= i < |table| ==>
              var t := table[i].quake.eventType;
              TypeCount(t, Occurrences(TypeColumn(table), t)) in bars
    ensures SumCounts(bars) == |table|
    ensures bars == [] <==> table == []
  {
    var bars := ValueCounts(TypeColumn(table));
    forall i | 0 <= i < |table|
      ensures TypeCount(table[i].quake.eventType, Occurrences(TypeColumn(table), table[i].quake.eventType)) in bars
    {
      EventTypeRowCovered(table, i);
    }
    bars
  }

  /** Every row's event type is in the column, so it has its bar. */
  lemma EventTypeRowCovered(table: seq<PreparedQuake>, i: nat)
    requires i < |table|
    ensures var t := table[i].quake.eventType;
            TypeCount(t, Occurrences(TypeColumn(table), t)) in ValueCounts(TypeColumn(table))
  {
    assert TypeColumn(table)[i] == table[i].quake.eventType;
  }
}
