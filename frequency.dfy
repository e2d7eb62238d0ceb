/**
 * pandas' `Series.value_counts()` and `.head(k)` over a column of optional strings.
 * Missing cells are not counted (value_counts drops NaN). The order among values with
 * equal counts is not specified by the scripts, so the specifications below
 * (IsValueCounts, IsTopTable) leave it free; ValueCounts and Top compute one such table.
 */
module Frequency {
  import opened Wrappers

  /** One line of a frequency table: a distinct value and the number of cells holding it. */
  datatype Entry = Entry(value: string, count: nat)

  /** Number of cells of `col` that hold `v`. */
  function Count(col: seq<Option<string>>, v: string): (n: nat)
    ensures n == multiset(col)[Some(v)]
    ensures n > 0 <==> Some(v) in col
  {
    if col == [] then 0
    else
      assert col == col[..|col| - 1] + [col[|col| - 1]];
      Count(col[..|col| - 1], v) + (if col[|col| - 1] == Some(v) then 1 else 0)
  }

  /** Number of cells of `col` that are not missing. */
  function Present(col: seq<Option<string>>): (n: nat)
    ensures n <= |col|
    ensures n == |col| <==> forall i :: 0 <= i < |col| ==> col[i].Some?
    ensures n == 0 <==> forall i :: 0 <= i < |col| ==> col[i].None?
  {
    if col == [] then 0
    else
      var init := col[..|col| - 1];
      assert forall i :: 0 <= i < |init| ==> init[i] == col[i];
      Present(init) + (if col[|col| - 1].Some? then 1 else 0)
  }

  /** The distinct values of `col`, in order of first appearance. */
  function Distinct(col: seq<Option<string>>): (d: seq<string>)
    ensures forall i, j :: 0 <= i < j < |d| ==> d[i] != d[j]
    ensures forall v :: v in d <==> Some(v) in col
  {
    if col == [] then []
    else
      var init := col[..|col| - 1];
      assert col == init + [col[|col| - 1]];
      var d := Distinct(init);
      match col[|col| - 1]
      case Some(v) => if v in d then d else d + [v]
      case None => d
  }

  predicate DistinctValues(t: seq<Entry>) {
    forall i, j :: 0 <= i < j < |t| ==> t[i].value != t[j].value
  }

  ghost predicate NonIncreasing(t: seq<Entry>) {
    forall i, j :: 0 <= i < j < |t| ==> t[i].count >= t[j].count
  }

  /** Every line of `t` is a distinct value occurring in `col` with its exact count. */
  ghost predicate Tabulates(col: seq<Option<string>>, t: seq<Entry>) {
    && DistinctValues(t)
    && forall e :: e in t ==> 0 < e.count == Count(col, e.value)
  }

  /** Every value occurring in `col` has its line in `t`. */
  ghost predicate Covers(col: seq<Option<string>>, t: seq<Entry>) {
    forall v :: Count(col, v) > 0 ==> Entry(v, Count(col, v)) in t
  }

  /** `t` is a possible result of `col.value_counts()`: all values, exact counts, most frequent first. */
  ghost predicate IsValueCounts(col: seq<Option<string>>, t: seq<Entry>) {
    Tabulates(col, t) && Covers(col, t) && NonIncreasing(t)
  }

  /**
   * `t` is a possible result of `col.value_counts().head(k)`: at most `k` distinct values with
   * exact counts, most frequent first; a value left out only when the table is full, and then it
   * occurs no more often than the last value listed.
   */
  ghost predicate IsTopTable(col: seq<Option<string>>, k: nat, t: seq<Entry>) {
    && |t| <= k
    && Tabulates(col, t)
    && NonIncreasing(t)
    && forall v :: Count(col, v) > 0 && Entry(v, Count(col, v)) !in t ==>
         |t| == k && (k == 0 || Count(col, v) <= t[k - 1].count)
  }

  /** The distinct values of `col` with their counts, in order of first appearance. */
  function Tally(col: seq<Option<string>>): (t: seq<Entry>)
    ensures Tabulates(col, t) && Covers(col, t)
  {
    var d := Distinct(col);
    var t := seq(|d|, i requires 0 <= i < |d| => Entry(d[i], Count(col, d[i])));
    assert forall v :: v in d ==> Entry(v, Count(col, v)) in t by {
      forall v | v in d ensures Entry(v, Count(col, v)) in t {
        var i :| 0 <= i < |d| && d[i] == v;
        assert t[i] == Entry(v, Count(col, v));
      }
    }
    t
  }

  /** Inserts `e` into a table sorted by decreasing count, after every line counting at least as much. */
  function InsertByCount(e: Entry, t: seq<Entry>): (r: seq<Entry>)
    ensures multiset(r) == multiset(t) + multiset{e}
    ensures forall x :: x in r <==> x == e || x in t
  {
    if t == [] || t[0].count < e.count then [e] + t
    else
      assert t == [t[0]] + t[1..];
      [t[0]] + InsertByCount(e, t[1..])
  }

  /** Inserting into a table sorted by decreasing count keeps it sorted. */
  lemma {:induction false} InsertKeepsOrder(e: Entry, t: seq<Entry>)
    requires NonIncreasing(t)
    ensures NonIncreasing(InsertByCount(e, t))
  {
    if t == [] || t[0].count < e.count {
      assert forall j :: 0 <= j < |t| ==> t[j].count <= t[0].count;
    } else {
      var tail := t[1..];
      assert forall x :: x in tail ==> x.count <= t[0].count;
      InsertKeepsOrder(e, tail);
      var rest := InsertByCount(e, tail);
      var r := [t[0]] + rest;
      assert r == InsertByCount(e, t);
      assert forall j :: 1 <= j < |r| ==> r[j] == rest[j - 1] && r[j] in rest;
    }
  }

  /** Inserting a value not yet in the table keeps the values distinct. */
  lemma {:induction false} InsertKeepsDistinct(e: Entry, t: seq<Entry>)
    requires DistinctValues(t)
    requires forall x :: x in t ==> x.value != e.value
    ensures DistinctValues(InsertByCount(e, t))
  {
    if t != [] && t[0].count >= e.count {
      var tail := t[1..];
      InsertKeepsDistinct(e, tail);
      var rest := InsertByCount(e, tail);
      assert InsertByCount(e, t) == [t[0]] + rest;
      forall x | x in rest ensures x.value != t[0].value {
        if x != e {
          var j :| 0 <= j < |tail| && tail[j] == x;
          assert t[j + 1] == x;
        }
      }
    }
  }

  /** Sorts a table by decreasing count (insertion sort); ties end up in some order. */
  function SortByCount(t: seq<Entry>): (r: seq<Entry>)
    ensures NonIncreasing(r)
    ensures multiset(r) == multiset(t)
    ensures forall x :: x in r <==> x in t
  {
    if t == [] then []
    else
      assert t == [t[0]] + t[1..];
      var sorted := SortByCount(t[1..]);
      InsertKeepsOrder(t[0], sorted);
      InsertByCount(t[0], sorted)
  }

  /** Sorting keeps the values of a table distinct. */
  lemma {:induction false} SortKeepsDistinct(t: seq<Entry>)
    requires DistinctValues(t)
    ensures DistinctValues(SortByCount(t))
  {
    if t != [] {
      var tail := t[1..];
      assert forall x :: x in tail ==> x.value != t[0].value;
      SortKeepsDistinct(tail);
      InsertKeepsDistinct(t[0], SortByCount(tail));
    }
  }

  /** `col.value_counts()` */
  function ValueCounts(col: seq<Option<string>>): (t: seq<Entry>)
    ensures IsValueCounts(col, t)
  {
    var tally := Tally(col);
    SortKeepsDistinct(tally);
    SortByCount(tally)
  }

  /** The head of length `k` of any value_counts table is a top-`k` table, whatever the order of ties. */
  lemma HeadOfValueCounts(col: seq<Option<string>>, k: nat, t: seq<Entry>)
    requires IsValueCounts(col, t)
    ensures IsTopTable(col, k, t[..if k < |t| then k else |t|])
  {
    var m := if k < |t| then k else |t|;
    var head := t[..m];
    forall v | Count(col, v) > 0 && Entry(v, Count(col, v)) !in head
      ensures |head| == k && (k == 0 || Count(col, v) <= head[k - 1].count)
    {
      var j :| 0 <= j < |t| && t[j] == Entry(v, Count(col, v));
    }
  }

  /** `col.value_counts().head(k)` */
  function Top(col: seq<Option<string>>, k: nat): (t: seq<Entry>)
    ensures IsTopTable(col, k, t)
  {
    var all := ValueCounts(col);
    HeadOfValueCounts(col, k, all);
    all[..if k < |all| then k else |all|]
  }

  /** The values a table lists. */
  ghost function ValuesOf(t: seq<Entry>): set<string> {
    set e | e in t :: e.value
  }

  /** The distinct values occurring in `col` (what `nunique()` counts). */
  ghost function PresentValues(col: seq<Option<string>>): set<string> {
    set x | x in col && x.Some? :: x.value
  }

  /** A table with distinct values lists as many values as it has lines. */
  lemma {:induction false} DistinctValuesCard(t: seq<Entry>)
    requires DistinctValues(t)
    ensures |ValuesOf(t)| == |t|
  {
    if t != [] {
      var init := t[..|t| - 1];
      var last := t[|t| - 1];
      assert t == init + [last];
      DistinctValuesCard(init);
      assert ValuesOf(t) == ValuesOf(init) + {last.value};
      assert last.value !in ValuesOf(init);
    }
  }

  /**
   * value_counts is determined up to the order of equal counts: two valid tables of one column
   * hold the same lines and have the same length, which is the number of distinct values.
   */
  lemma ValueCountsUpToOrder(col: seq<Option<string>>, t1: seq<Entry>, t2: seq<Entry>)
    requires IsValueCounts(col, t1) && IsValueCounts(col, t2)
    ensures forall e :: e in t1 <==> e in t2
    ensures |t1| == |t2| == |PresentValues(col)|
  {
    forall e | e in t1 ensures e in t2 {
      assert Count(col, e.value) > 0;
    }
    forall e | e in t2 ensures e in t1 {
      assert Count(col, e.value) > 0;
    }
    assert ValuesOf(t1) == ValuesOf(t2) == PresentValues(col) by {
      ListsEveryValue(col, t1);
      ListsEveryValue(col, t2);
    }
    DistinctValuesCard(t1);
    DistinctValuesCard(t2);
  }

  /** A complete tally lists exactly the values present in the column. */
  lemma ListsEveryValue(col: seq<Option<string>>, t: seq<Entry>)
    requires Tabulates(col, t) && Covers(col, t)
    ensures ValuesOf(t) == PresentValues(col)
  {
    forall v | v in PresentValues(col) ensures v in ValuesOf(t) {
      assert Count(col, v) > 0;
      assert Entry(v, Count(col, v)) in t;
    }
    forall v | v in ValuesOf(t) ensures v in PresentValues(col) {
      var e :| e in t && e.value == v;
      assert Some(v) in col;
    }
  }

  /** A top-`k` table has exactly `k` lines, or one per distinct value when there are fewer. */
  lemma TopTableSize(col: seq<Option<string>>, k: nat, t: seq<Entry>)
    requires IsTopTable(col, k, t)
    ensures |t| == if k < |PresentValues(col)| then k else |PresentValues(col)|
  {
    DistinctValuesCard(t);
    assert ValuesOf(t) <= PresentValues(col) by {
      forall v | v in ValuesOf(t) ensures v in PresentValues(col) {
        var e :| e in t && e.value == v;
        assert Some(v) in col;
      }
    }
    var listed, present := ValuesOf(t), PresentValues(col);
    assert present == listed + (present - listed);
    assert |present| == |listed| + |present - listed|;
    if |t| < k {
      forall v | v in PresentValues(col) ensures v in ValuesOf(t) {
        assert Count(col, v) > 0;
        assert Entry(v, Count(col, v)) in t;
      }
      assert ValuesOf(t) == PresentValues(col);
    }
  }

  /** Sum of the counts of a table. */
  function SumCounts(t: seq<Entry>): nat {
    if t == [] then 0 else SumCounts(t[..|t| - 1]) + t[|t| - 1].count
  }

  /** `col` with every cell holding `v` made missing. */
  ghost function Erase(col: seq<Option<string>>, v: string): (c: seq<Option<string>>)
    ensures |c| == |col|
    ensures forall w :: Count(c, w) == if w == v then 0 else Count(col, w)
    ensures Present(c) + Count(col, v) == Present(col)
  {
    if col == [] then []
    else
      var init := Erase(col[..|col| - 1], v);
      var last := if col[|col| - 1] == Some(v) then None else col[|col| - 1];
      assert (init + [last])[..|col| - 1] == init;
      init + [last]
  }

  /** The counts of a complete tally add up to the number of cells that are not missing. */
  lemma {:induction false} TallySum(col: seq<Option<string>>, t: seq<Entry>)
    requires Tabulates(col, t) && Covers(col, t)
    ensures SumCounts(t) == Present(col)
    decreases |t|
  {
    if t == [] {
      forall i | 0 <= i < |col| ensures col[i].None? {
        assert col[i] in col;
        assert col[i].Some? ==> Count(col, col[i].value) > 0;
      }
    } else {
      var e := t[|t| - 1];
      var init := t[..|t| - 1];
      var rest := Erase(col, e.value);
      assert t == init + [e];
      TabulatesWithoutLast(col, t);
      CoversWithoutLast(col, t);
      TallySum(rest, init);
    }
  }

  /** Dropping the last line of a tally leaves a tally of the column with that value erased. */
  lemma TabulatesWithoutLast(col: seq<Option<string>>, t: seq<Entry>)
    requires Tabulates(col, t) && t != []
    ensures Tabulates(Erase(col, t[|t| - 1].value), t[..|t| - 1])
  {
    var init := t[..|t| - 1];
    var rest := Erase(col, t[|t| - 1].value);
    forall x | x in init ensures 0 < x.count == Count(rest, x.value) {
      var i :| 0 <= i < |init| && init[i] == x;
      assert t[i] == x;
    }
  }

  /** Dropping the last line of a covering tally leaves one that covers the column with that value erased. */
  lemma CoversWithoutLast(col: seq<Option<string>>, t: seq<Entry>)
    requires Covers(col, t) && t != []
    ensures Covers(Erase(col, t[|t| - 1].value), t[..|t| - 1])
  {
    var e := t[|t| - 1];
    var init := t[..|t| - 1];
    var rest := Erase(col, e.value);
    assert t == init + [e];
    forall w | Count(rest, w) > 0 ensures Entry(w, Count(rest, w)) in init {
      assert Entry(w, Count(col, w)) in t;
    }
  }

  /** Every value listed in a tally occurs in the column. */
  lemma ListedValuesOccur(col: seq<Option<string>>, t: seq<Entry>)
    requires Tabulates(col, t)
    ensures forall e :: e in t ==> Some(e.value) in col
  {
  }

  /** When no cell of `col` is missing, the counts of any value_counts table add up to the number of rows. */
  lemma CountsCoverEveryRow(col: seq<Option<string>>, t: seq<Entry>)
    requires IsValueCounts(col, t)
    requires forall i :: 0 <= i < |col| ==> col[i].Some?
    ensures SumCounts(t) == |col|
  {
    TallySum(col, t);
  }
}
