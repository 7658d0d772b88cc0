/** Aggregation of the extracted entries: the daily table of counts per day and name, its
    anonymised column labels, the running totals, the weekly totals and the leaderboard
    of weekly winners. */
module Tables {
  import opened TextUtil
  import opened Calendar
  import opened Ordering
  import opened Tags

  /** A table of counts: row labels (day numbers), column labels (names) and one row of
      cells per row label, one cell per column label. */
  datatype Table = Table(rows: seq<int>, cols: seq<string>, cells: seq<seq<nat>>)

  predicate Shaped(t: Table)
  {
    |t.cells| == |t.rows| && forall i :: 0 <= i < |t.cells| ==> |t.cells[i]| == |t.cols|
  }

  /** What an entry adds to a sum: its count, or nothing for NaN (`np.sum` skips NaN). */
  function Amount(e: Entry): nat
  {
    match e.count
    case Some(n) => n
    case None => 0
  }

  /** The calendar day of an entry; the time of day is dropped (`TimeGrouper(freq='d')`). */
  function Day(e: Entry): int
  {
    DayNumber(e.time)
  }

  /** The total of the entries for `name` on `day`. */
  function CellSum(es: seq<Entry>, day: int, name: string): nat
  {
    if es == [] then 0
    else
      var e := es[|es| - 1];
      CellSum(es[..|es| - 1], day, name) + (if Day(e) == day && e.name == name then Amount(e) else 0)
  }

  /** The total of the entries for `name` on `day` or before. */
  function SumUpTo(es: seq<Entry>, day: int, name: string): nat
  {
    if es == [] then 0
    else
      var e := es[|es| - 1];
      SumUpTo(es[..|es| - 1], day, name) + (if Day(e) <= day && e.name == name then Amount(e) else 0)
  }

  /** The total of all entries for `name`. */
  function NameSum(es: seq<Entry>, name: string): nat
  {
    if es == [] then 0
    else
      var e := es[|es| - 1];
      NameSum(es[..|es| - 1], name) + (if e.name == name then Amount(e) else 0)
  }

  /** Some entry falls on `day` under `name`: the pair is a group of the `groupby`. */
  predicate HasGroup(es: seq<Entry>, day: int, name: string)
  {
    exists i :: 0 <= i < |es| && Day(es[i]) == day && es[i].name == name
  }

  /** A (day, name) pair without entries sums to 0, which is what `fillna(0)` puts there. */
  lemma {:induction false} EmptyGroupSumsToZero(es: seq<Entry>, day: int, name: string)
    requires !HasGroup(es, day, name)
    ensures CellSum(es, day, name) == 0
  {
    if es != [] {
      var init := es[..|es| - 1];
      assert forall i :: 0 <= i < |init| ==> init[i] == es[i];
      EmptyGroupSumsToZero(init, day, name);
      assert Day(es[|es| - 1]) != day || es[|es| - 1].name != name;
    }
  }

  function Days(es: seq<Entry>): (ds: seq<int>)
    ensures |ds| == |es| && forall i :: 0 <= i < |es| ==> ds[i] == Day(es[i])
  {
    seq(|es|, i requires 0 <= i < |es| => Day(es[i]))
  }

  function Names(es: seq<Entry>): (ns: seq<string>)
    ensures |ns| == |es| && forall i :: 0 <= i < |es| ==> ns[i] == es[i].name
  {
    seq(|es|, i requires 0 <= i < |es| => es[i].name)
  }

  /** The row labels of the daily table: the days that have entries, ascending, once each. */
  function DayKeys(es: seq<Entry>): (rows: seq<int>)
    ensures StrictlySorted(rows, IntLess)
    ensures forall d :: d in rows <==> d in Days(es)
  {
    IntIsStrictTotalOrder();
    SortedKeysSorted(Days(es), IntLess);
    SortedKeys(Days(es), IntLess)
  }

  /** The column labels of the daily table: the names that have entries, in string order,
      once each. */
  function NameKeys(es: seq<Entry>): (cols: seq<string>)
    ensures StrictlySorted(cols, LexLess)
    ensures forall n :: n in cols <==> n in Names(es)
  {
    LexIsStrictTotalOrder();
    SortedKeysSorted(Names(es), LexLess);
    SortedKeys(Names(es), LexLess)
  }

  /** `groupby([day, 'Name']).aggregate(np.sum).unstack()`: one cell per row label and
      column label, the sum of that group, NaN (`None`) where the pair is not a group. */
  function Unstack(es: seq<Entry>, rows: seq<int>, cols: seq<string>): (g: seq<seq<Option<nat>>>)
    ensures |g| == |rows| && forall i :: 0 <= i < |g| ==> |g[i]| == |cols|
    ensures forall i, j :: 0 <= i < |rows| && 0 <= j < |cols| ==>
      (g[i][j].Some? <==> exists k :: 0 <= k < |es| && Day(es[k]) == rows[i] && es[k].name == cols[j])
    ensures forall i, j :: 0 <= i < |rows| && 0 <= j < |cols| && g[i][j].Some? ==>
      g[i][j].value == CellSum(es, rows[i], cols[j])
  {
    seq(|rows|, i requires 0 <= i < |rows| =>
      seq(|cols|, j requires 0 <= j < |cols| =>
        if HasGroup(es, rows[i], cols[j]) then Some(CellSum(es, rows[i], cols[j])) else None))
  }

  /** `fillna(value=0)`: every NaN cell becomes 0, every other cell keeps its value. */
  function FillNa(g: seq<seq<Option<nat>>>): (cells: seq<seq<nat>>)
    ensures |cells| == |g|
    ensures forall i :: 0 <= i < |g| ==> |cells[i]| == |g[i]|
    ensures forall i, j :: 0 <= i < |g| && 0 <= j < |g[i]| ==>
      cells[i][j] == (if g[i][j].Some? then g[i][j].value else 0)
  {
    seq(|g|, i requires 0 <= i < |g| =>
      seq(|g[i]|, j requires 0 <= j < |g[i]| => match g[i][j] case Some(n) => n case None => 0))
  }

  /** The daily table before anonymisation: every (day, name) cell holds the total of that
      day's entries for that name, 0 where there are none. */
  function Daily(es: seq<Entry>): (t: Table)
    ensures Shaped(t) && t.rows == DayKeys(es) && t.cols == NameKeys(es)
    ensures forall i, j :: 0 <= i < |t.rows| && 0 <= j < |t.cols| ==>
      t.cells[i][j] == CellSum(es, t.rows[i], t.cols[j])
  {
    var rows, cols := DayKeys(es), NameKeys(es);
    var t := Table(rows, cols, FillNa(Unstack(es, rows, cols)));
    assert forall i, j :: 0 <= i < |rows| && 0 <= j < |cols| && !HasGroup(es, rows[i], cols[j]) ==>
      CellSum(es, rows[i], cols[j]) == 0 by {
      forall i, j | 0 <= i < |rows| && 0 <= j < |cols| && !HasGroup(es, rows[i], cols[j])
        ensures CellSum(es, rows[i], cols[j]) == 0
      {
        EmptyGroupSumsToZero(es, rows[i], cols[j]);
      }
    }
    t
  }

  /** The anonymisation table of `replace_names`. */
  const Anonymization: map<string, string> := map[
    "CYHSM" := "Markus", "Simon Malik" := "Simon", "Robert Skotschi" := "Robert",
    "Jannis Pl\U{f6}ger" := "Jannis", "Manu" := "Manuel"]

  function Rename(m: map<string, string>, name: string): string
  {
    if name in m then m[name] else name
  }

  /** `df.rename(columns=m)`: each column label listed in `m` is replaced by its display
      name; rows, cells and the other labels stay as they are. */
  function RenameColumns(t: Table, m: map<string, string>): (r: Table)
    ensures r.rows == t.rows && r.cells == t.cells && |r.cols| == |t.cols|
    ensures forall j :: 0 <= j < |t.cols| && t.cols[j] !in m ==> r.cols[j] == t.cols[j]
    ensures forall j :: 0 <= j < |t.cols| && t.cols[j] in m ==> r.cols[j] == m[t.cols[j]]
    ensures Shaped(t) <==> Shaped(r)
  {
    Table(t.rows, seq(|t.cols|, j requires 0 <= j < |t.cols| => Rename(m, t.cols[j])), t.cells)
  }

  /** `replace_names`: the anonymisation table applied to the column labels. */
  function ReplaceNames(t: Table): (r: Table)
    ensures r.rows == t.rows && r.cells == t.cells && |r.cols| == |t.cols|
    ensures forall j :: 0 <= j < |t.cols| ==> r.cols[j] == Rename(Anonymization, t.cols[j])
    ensures forall j :: 0 <= j < |r.cols| ==> r.cols[j] !in Anonymization
  {
    RenameColumns(t, Anonymization)
  }

  /** No display name is itself a real name in the table, so anonymising twice is the same
      as anonymising once. */
  lemma ReplaceNamesIdempotent(t: Table)
    ensures ReplaceNames(ReplaceNames(t)) == ReplaceNames(t)
  {
    var once := ReplaceNames(t);
    var twice := ReplaceNames(once);
    forall j | 0 <= j < |t.cols| ensures twice.cols[j] == once.cols[j] {
      assert once.cols[j] !in Anonymization;
    }
  }

  /** A table whose labels are all unlisted is not changed by anonymisation. */
  lemma ReplaceNamesUnlisted(t: Table)
    requires forall j :: 0 <= j < |t.cols| ==> t.cols[j] !in Anonymization
    ensures ReplaceNames(t) == t
  {
    assert ReplaceNames(t).cols == t.cols;
  }

  /** The sum of column `j` over the first `n` rows of `cells`. */
  function ColumnSum(cells: seq<seq<nat>>, j: nat, n: nat): nat
    requires n <= |cells| && forall i :: 0 <= i < n ==> j < |cells[i]|
  {
    if n == 0 then 0 else ColumnSum(cells, j, n - 1) + cells[n - 1][j]
  }

  /** `cumsum()`: each cell becomes the sum of its column down to and including its row. */
  function Cumulative(t: Table): (r: Table)
    requires Shaped(t)
    ensures Shaped(r) && r.rows == t.rows && r.cols == t.cols
    ensures forall i, j :: 0 <= i < |t.rows| && 0 <= j < |t.cols| ==> r.cells[i][j] == ColumnSum(t.cells, j, i + 1)
  {
    var cells := seq(|t.rows|, i requires 0 <= i < |t.rows| => RunningRow(t, i));
    assert forall i :: 0 <= i < |t.rows| ==> cells[i] == RunningRow(t, i);
    Table(t.rows, t.cols, cells)
  }

  /** The running totals of row `i`: each column summed down to and including that row. */
  function RunningRow(t: Table, i: nat): (row: seq<nat>)
    requires Shaped(t) && i < |t.rows|
    ensures |row| == |t.cols|
    ensures forall j :: 0 <= j < |t.cols| ==> row[j] == ColumnSum(t.cells, j, i + 1)
  {
    seq(|t.cols|, j requires 0 <= j < |t.cols| => ColumnSum(t.cells, j, i + 1))
  }

  /** The running totals never decrease down a column, because counts are not negative. */
  lemma {:induction false} CumulativeNonDecreasing(t: Table, i: nat, k: nat, j: nat)
    requires Shaped(t) && i <= k < |t.rows| && j < |t.cols|
    ensures Cumulative(t).cells[i][j] <= Cumulative(t).cells[k][j]
    decreases k - i
  {
    if i < k {
      CumulativeNonDecreasing(t, i, k - 1, j);
      assert Cumulative(t).cells[k][j] == Cumulative(t).cells[k - 1][j] + t.cells[k][j];
    }
  }

  /** Each running total is the one above it plus the day's own cell, so the differences of
      consecutive running totals give the daily table back. */
  lemma CumulativeDifferences(t: Table, i: nat, j: nat)
    requires Shaped(t) && i < |t.rows| && j < |t.cols|
    ensures Cumulative(t).cells[i][j] == (if i == 0 then 0 else Cumulative(t).cells[i - 1][j]) + t.cells[i][j]
  {
    assert ColumnSum(t.cells, j, i + 1) == ColumnSum(t.cells, j, i) + t.cells[i][j];
  }

  /** The sum over the first `n` row labels of the entries' totals on that day. */
  function RowsSum(es: seq<Entry>, rows: seq<int>, n: nat, name: string): nat
    requires n <= |rows|
  {
    if n == 0 then 0 else RowsSum(es, rows, n - 1, name) + CellSum(es, rows[n - 1], name)
  }

  /** Without entries every day's total is 0. */
  lemma {:induction false} RowsSumNoEntries(rows: seq<int>, n: nat, name: string)
    requires n <= |rows|
    ensures RowsSum([], rows, n, name) == 0
  {
    if n > 0 {
      RowsSumNoEntries(rows, n - 1, name);
    }
  }

  /** In strictly ascending labels, a label `d` is among the first `i + 1` exactly when it
      is at most the label at `i`. */
  lemma InPrefix(rows: seq<int>, i: nat, d: int)
    requires StrictlySorted(rows, IntLess) && i < |rows| && d in rows
    ensures d in rows[..i + 1] <==> d <= rows[i]
  {
    var p :| 0 <= p < |rows| && rows[p] == d;
    var s := rows[..i + 1];
    if p <= i {
      assert s[p] == d;
      assert p < i ==> IntLess(rows[p], rows[i]);
    } else {
      assert IntLess(rows[i], rows[p]);
      forall q | 0 <= q < |s| ensures s[q] != d {
        assert IntLess(rows[q], rows[p]);
      }
    }
  }

  /** One more entry adds its amount to the sum over the first `n` distinct row labels
      exactly when its day is one of them. */
  lemma {:induction false} RowsSumLast(es: seq<Entry>, rows: seq<int>, n: nat, name: string)
    requires es != [] && n <= |rows| && StrictlySorted(rows, IntLess)
    ensures var e := es[|es| - 1];
      RowsSum(es, rows, n, name)
      == RowsSum(es[..|es| - 1], rows, n, name) + (if Day(e) in rows[..n] && e.name == name then Amount(e) else 0)
  {
    if n > 0 {
      RowsSumLast(es, rows, n - 1, name);
      assert rows[..n] == rows[..n - 1] + [rows[n - 1]];
      var s := rows[..n - 1];
      forall q | 0 <= q < |s| ensures s[q] != rows[n - 1] {
        assert IntLess(rows[q], rows[n - 1]);
      }
    }
  }

  /** With strictly ascending row labels that hold every entry's day, summing the daily
      totals over the rows up to row `i` is summing the entries up to that row's day. */
  lemma {:induction false} RowsSumUpTo(es: seq<Entry>, rows: seq<int>, i: nat, name: string)
    requires StrictlySorted(rows, IntLess) && i < |rows|
    requires forall k :: 0 <= k < |es| ==> Day(es[k]) in rows
    ensures RowsSum(es, rows, i + 1, name) == SumUpTo(es, rows[i], name)
  {
    if es != [] {
      var init, e := es[..|es| - 1], es[|es| - 1];
      assert forall k :: 0 <= k < |init| ==> init[k] == es[k];
      RowsSumUpTo(init, rows, i, name);
      RowsSumLast(es, rows, i + 1, name);
      assert Day(es[|es| - 1]) in rows;
      InPrefix(rows, i, Day(e));
      assert RowsSum(es, rows, i + 1, name)
          == RowsSum(init, rows, i + 1, name) + (if Day(e) <= rows[i] && e.name == name then Amount(e) else 0);
      assert SumUpTo(es, rows[i], name)
          == SumUpTo(init, rows[i], name) + (if Day(e) <= rows[i] && e.name == name then Amount(e) else 0);
    } else {
      RowsSumNoEntries(rows, i + 1, name);
    }
  }

  /** When every cell of column `j` is its day's total, the first `n` cells sum to the
      entries' totals over the first `n` row labels. */
  lemma {:induction false} ColumnSumIsRowsSum(es: seq<Entry>, t: Table, n: nat, j: nat)
    requires Shaped(t) && n <= |t.rows| && j < |t.cols|
    requires forall i :: 0 <= i < |t.rows| ==> t.cells[i][j] == CellSum(es, t.rows[i], t.cols[j])
    ensures ColumnSum(t.cells, j, n) == RowsSum(es, t.rows, n, t.cols[j])
  {
    if n > 0 {
      ColumnSumIsRowsSum(es, t, n - 1, j);
    }
  }

  /** The running total in row `i` of column `j` is the total of that column's name over
      every entry on that row's day or before. */
  lemma CumulativeIsSumUpTo(es: seq<Entry>, i: nat, j: nat)
    requires i < |Daily(es).rows| && j < |Daily(es).cols|
    ensures Cumulative(Daily(es)).cells[i][j] == SumUpTo(es, Daily(es).rows[i], Daily(es).cols[j])
  {
    var t := Daily(es);
    ColumnSumIsRowsSum(es, t, i + 1, j);
    forall k | 0 <= k < |es| ensures Day(es[k]) in t.rows {
      assert Days(es)[k] in t.rows;
    }
    RowsSumUpTo(es, t.rows, i, t.cols[j]);
  }

  /** On the last day every entry is counted: `SumUpTo` there is the name's total. */
  lemma {:induction false} SumUpToAll(es: seq<Entry>, day: int, name: string)
    requires forall k :: 0 <= k < |es| ==> Day(es[k]) <= day
    ensures SumUpTo(es, day, name) == NameSum(es, name)
  {
    if es != [] {
      var init := es[..|es| - 1];
      assert forall k :: 0 <= k < |init| ==> init[k] == es[k];
      SumUpToAll(init, day, name);
    }
  }

  /** Each column of the daily table sums to the total of its name over all entries: the
      table neither loses nor invents counts. */
  lemma DailyConserves(es: seq<Entry>, j: nat)
    requires j < |Daily(es).cols|
    ensures ColumnSum(Daily(es).cells, j, |Daily(es).rows|) == NameSum(es, Daily(es).cols[j])
  {
    var t := Daily(es);
    assert t.cols[j] in Names(es);
    assert Days(es)[0] in t.rows;
    var last := |t.rows| - 1;
    CumulativeIsSumUpTo(es, last, j);
    forall k | 0 <= k < |es| ensures Day(es[k]) <= t.rows[last] {
      assert Days(es)[k] in t.rows;
      InPrefix(t.rows, last, Day(es[k]));
      assert t.rows[..last + 1] == t.rows;
    }
    SumUpToAll(es, t.rows[last], t.cols[j]);
  }

  function MinOf(s: seq<int>): (m: int)
    requires s != []
    ensures m in s && forall x :: x in s ==> m <= x
  {
    if |s| == 1 then s[0]
    else
      var m := MinOf(s[1..]);
      assert s == [s[0]] + s[1..];
      if s[0] <= m then s[0] else m
  }

  function MaxOf(s: seq<int>): (m: int)
    requires s != []
    ensures m in s && forall x :: x in s ==> x <= m
  {
    if |s| == 1 then s[0]
    else
      var m := MaxOf(s[1..]);
      assert s == [s[0]] + s[1..];
      if s[0] >= m then s[0] else m
  }

  /** The week of the earliest row label (0 for a table without rows). */
  function FirstWeek(t: Table): int
  {
    if t.rows == [] then 0 else WeekIndex(MinOf(t.rows))
  }

  /** The number of weeks from the earliest row label's week to the latest one's. */
  function WeekCount(t: Table): (n: nat)
    ensures t.rows == [] <==> n == 0
  {
    if t.rows == [] then 0
    else
      WeekIndexMonotone(MinOf(t.rows), MaxOf(t.rows));
      WeekIndex(MaxOf(t.rows)) - WeekIndex(MinOf(t.rows)) + 1
  }

  /** The sum of column `j` over those of the first `n` rows whose day falls in `week`. */
  function WeekCell(t: Table, n: nat, week: int, j: nat): nat
    requires Shaped(t) && n <= |t.rows| && j < |t.cols|
  {
    if n == 0 then 0
    else WeekCell(t, n - 1, week, j) + (if WeekIndex(t.rows[n - 1]) == week then t.cells[n - 1][j] else 0)
  }

  /** The cells of one week: each column summed over the days of that week. */
  function WeekRow(t: Table, week: int): (row: seq<nat>)
    requires Shaped(t)
    ensures |row| == |t.cols|
    ensures forall j :: 0 <= j < |t.cols| ==> row[j] == WeekCell(t, |t.rows|, week, j)
  {
    seq(|t.cols|, j requires 0 <= j < |t.cols| => WeekCell(t, |t.rows|, week, j))
  }

  /** `groupby(TimeGrouper(freq='w')).aggregate(np.sum)`: one row per week from the week
      of the earliest day to the week of the latest, labelled with the week's Sunday;
      each cell sums its column over the days of that week, 0 for a week without days. */
  function Weekly(t: Table): (r: Table)
    requires Shaped(t)
    ensures Shaped(r) && r.cols == t.cols && |r.rows| == WeekCount(t)
    ensures forall k :: 0 <= k < |r.rows| ==> r.rows[k] == WeekEnd(FirstWeek(t) + k)
    ensures forall k, j :: 0 <= k < |r.rows| && 0 <= j < |t.cols| ==>
      r.cells[k][j] == WeekCell(t, |t.rows|, FirstWeek(t) + k, j)
  {
    var lo, n := FirstWeek(t), WeekCount(t);
    var cells := seq(n, k requires 0 <= k < n => WeekRow(t, lo + k));
    assert forall k :: 0 <= k < n ==> cells[k] == WeekRow(t, lo + k);
    Table(seq(n, k requires 0 <= k < n => WeekEnd(lo + k)), t.cols, cells)
  }

  /** Every row label lies in one of the weeks of the weekly table. */
  lemma WeeklyCoversEveryDay(t: Table, i: nat)
    requires i < |t.rows|
    ensures FirstWeek(t) <= WeekIndex(t.rows[i]) < FirstWeek(t) + WeekCount(t)
  {
    assert t.rows[i] in t.rows;
    WeekIndexMonotone(MinOf(t.rows), t.rows[i]);
    WeekIndexMonotone(t.rows[i], MaxOf(t.rows));
  }

  /** The sum over the `cnt` weeks from `lo` of column `j`'s weekly sums over the first
      `n` rows. */
  function WeekSpan(t: Table, lo: int, cnt: nat, n: nat, j: nat): nat
    requires Shaped(t) && n <= |t.rows| && j < |t.cols|
  {
    if cnt == 0 then 0 else WeekSpan(t, lo, cnt - 1, n, j) + WeekCell(t, n, lo + cnt - 1, j)
  }

  lemma {:induction false} WeekSpanNoRows(t: Table, lo: int, cnt: nat, j: nat)
    requires Shaped(t) && j < |t.cols|
    ensures WeekSpan(t, lo, cnt, 0, j) == 0
  {
    if cnt > 0 {
      WeekSpanNoRows(t, lo, cnt - 1, j);
    }
  }

  /** One more row adds its cell to exactly the week it falls in, if that week is counted. */
  lemma {:induction false} WeekSpanStep(t: Table, lo: int, cnt: nat, n: nat, j: nat)
    requires Shaped(t) && n < |t.rows| && j < |t.cols|
    ensures WeekSpan(t, lo, cnt, n + 1, j)
         == WeekSpan(t, lo, cnt, n, j) + (if lo <= WeekIndex(t.rows[n]) < lo + cnt then t.cells[n][j] else 0)
  {
    if cnt > 0 {
      WeekSpanStep(t, lo, cnt - 1, n, j);
    }
  }

  /** When the counted weeks hold every row, the weekly sums add up to the column sum. */
  lemma {:induction false} WeekSpanTotal(t: Table, lo: int, cnt: nat, n: nat, j: nat)
    requires Shaped(t) && n <= |t.rows| && j < |t.cols|
    requires forall i :: 0 <= i < n ==> lo <= WeekIndex(t.rows[i]) < lo + cnt
    ensures WeekSpan(t, lo, cnt, n, j) == ColumnSum(t.cells, j, n)
  {
    if n > 0 {
      WeekSpanTotal(t, lo, cnt, n - 1, j);
      WeekSpanStep(t, lo, cnt, n - 1, j);
    } else {
      WeekSpanNoRows(t, lo, cnt, j);
    }
  }

  lemma {:induction false} WeeklyColumn(t: Table, k: nat, j: nat)
    requires Shaped(t) && k <= WeekCount(t) && j < |t.cols|
    ensures ColumnSum(Weekly(t).cells, j, k) == WeekSpan(t, FirstWeek(t), k, |t.rows|, j)
  {
    if k > 0 {
      WeeklyColumn(t, k - 1, j);
    }
  }

  /** Re-bucketing by week conserves every column's total. */
  lemma WeeklyConserves(t: Table, j: nat)
    requires Shaped(t) && j < |t.cols|
    ensures ColumnSum(Weekly(t).cells, j, |Weekly(t).rows|) == ColumnSum(t.cells, j, |t.rows|)
  {
    WeeklyColumn(t, WeekCount(t), j);
    forall i | 0 <= i < |t.rows|
      ensures FirstWeek(t) <= WeekIndex(t.rows[i]) < FirstWeek(t) + WeekCount(t)
    {
      WeeklyCoversEveryDay(t, i);
    }
    WeekSpanTotal(t, FirstWeek(t), WeekCount(t), |t.rows|, j);
  }

  /** Position `p` holds the row's largest value and every earlier value is smaller. */
  predicate FirstMaximum(row: seq<nat>, p: nat)
  {
    && p < |row|
    && (forall k :: 0 <= k < |row| ==> row[k] <= row[p])
    && (forall k :: 0 <= k < p ==> row[k] < row[p])
  }

  /** `idxmax`: the position of the first largest value of a row. */
  function ArgMax(row: seq<nat>): (r: nat)
    requires row != []
    ensures FirstMaximum(row, r)
  {
    if |row| == 1 then 0
    else
      var r := ArgMax(row[..|row| - 1]);
      if row[|row| - 1] > row[r] then |row| - 1 else r
  }

  /** Only one position holds the largest value with every earlier value smaller. */
  lemma ArgMaxUnique(row: seq<nat>, p: nat)
    requires FirstMaximum(row, p)
    ensures ArgMax(row) == p
  {
    var r := ArgMax(row);
    assert !(r < p) by {
      assert row[p] <= row[r];
    }
    assert !(p < r) by {
      assert row[r] <= row[p];
    }
  }

  /** Week `r` is won by `w`: the label of the first column holding the week's largest
      total. */
  predicate WonBy(t: Table, r: nat, w: string)
    requires Shaped(t) && r < |t.rows|
  {
    exists p: nat :: FirstMaximum(t.cells[r], p) && p < |t.cols| && w == t.cols[p]
  }

  /** The label `idxmax` gives week `r`. */
  function Winner(t: Table, r: nat): (w: string)
    requires Shaped(t) && r < |t.rows| && t.cols != []
    ensures WonBy(t, r, w)
  {
    var p := ArgMax(t.cells[r]);
    assert FirstMaximum(t.cells[r], p) && p < |t.cols|;
    t.cols[p]
  }

  /** `df_weekly.idxmax(axis=1)`: the label of each week's winner, the first column
      holding the week's largest total. */
  function Winners(t: Table): (ws: seq<string>)
    requires Shaped(t) && (t.cols != [] || t.rows == [])
    ensures |ws| == |t.rows|
    ensures forall r :: 0 <= r < |ws| ==> ws[r] in t.cols && WonBy(t, r, ws[r])
  {
    seq(|t.rows|, r requires 0 <= r < |t.rows| => Winner(t, r))
  }

  function CountOf<T(==)>(s: seq<T>, x: T): nat
  {
    if s == [] then 0 else CountOf(s[..|s| - 1], x) + (if s[|s| - 1] == x then 1 else 0)
  }

  lemma {:induction false} CountOfAbsent<T>(s: seq<T>, x: T)
    ensures x !in s ==> CountOf(s, x) == 0
  {
    if s != [] && x !in s {
      CountOfAbsent(s[..|s| - 1], x);
    }
  }

  /** `value_counts()`: each label that occurs, with how often it occurs. */
  function ValueCounts(ws: seq<string>): (m: map<string, nat>)
    ensures forall x :: x in m <==> x in ws
    ensures forall x :: x in m ==> m[x] == CountOf(ws, x)
  {
    if ws == [] then map[]
    else
      var init, w := ws[..|ws| - 1], ws[|ws| - 1];
      assert ws == init + [w];
      var m := ValueCounts(init);
      CountOfAbsent(init, w);
      m[w := (if w in m then m[w] else 0) + 1]
  }

  /** One row of the leaderboard: a column label and the weeks it won. */
  datatype Standing = Standing(name: string, points: nat)

  function TotalPoints(board: seq<Standing>): nat
  {
    if board == [] then 0 else TotalPoints(board[..|board| - 1]) + board[|board| - 1].points
  }

  predicate Distinct<T(==)>(s: seq<T>)
  {
    forall i, j :: 0 <= i < j < |s| ==> s[i] != s[j]
  }

  /** The points of labels `cols` for winners `ws`, added up. */
  function TallySum(cols: seq<string>, ws: seq<string>): nat
  {
    if cols == [] then 0 else TallySum(cols[..|cols| - 1], ws) + CountOf(ws, cols[|cols| - 1])
  }

  /** One more winner adds one point to every column carrying its label. */
  lemma {:induction false} TallyAppend(cols: seq<string>, ws: seq<string>, w: string)
    ensures TallySum(cols, ws + [w]) == TallySum(cols, ws) + CountOf(cols, w)
  {
    assert (ws + [w])[..|ws|] == ws;
    if cols != [] {
      TallyAppend(cols[..|cols| - 1], ws, w);
    }
  }

  /** A label that occurs in distinct labels occurs once. */
  lemma {:induction false} CountOfDistinct(cols: seq<string>, w: string)
    requires Distinct(cols) && w in cols
    ensures CountOf(cols, w) == 1
  {
    var init := cols[..|cols| - 1];
    if cols[|cols| - 1] == w {
      assert w !in init by {
        forall q | 0 <= q < |init| ensures init[q] != w {
          assert init[q] == cols[q];
        }
      }
      CountOfAbsent(init, w);
    } else {
      assert cols == init + [cols[|cols| - 1]];
      CountOfDistinct(init, w);
    }
  }

  /** With distinct labels, each winner gives exactly one point, so the points add up to
      the number of winners. */
  lemma {:induction false} TallyTotal(cols: seq<string>, ws: seq<string>)
    requires Distinct(cols)
    requires forall r :: 0 <= r < |ws| ==> ws[r] in cols
    ensures TallySum(cols, ws) == |ws|
  {
    if ws == [] {
      TallyNoWinners(cols);
    } else {
      var init := ws[..|ws| - 1];
      assert ws == init + [ws[|ws| - 1]];
      TallyTotal(cols, init);
      TallyAppend(cols, init, ws[|ws| - 1]);
      CountOfDistinct(cols, ws[|ws| - 1]);
    }
  }

  lemma {:induction false} TallyNoWinners(cols: seq<string>)
    ensures TallySum(cols, []) == 0
  {
    if cols != [] {
      TallyNoWinners(cols[..|cols| - 1]);
    }
  }

  /** A board whose points are the tallies of its labels totals their sum. */
  lemma {:induction false} TotalPointsIsTally(board: seq<Standing>, cols: seq<string>, ws: seq<string>)
    requires |board| == |cols|
    requires forall j :: 0 <= j < |board| ==> board[j].points == CountOf(ws, cols[j])
    ensures TotalPoints(board) == TallySum(cols, ws)
  {
    if board != [] {
      TotalPointsIsTally(board[..|board| - 1], cols[..|cols| - 1], ws);
    }
  }

  /** `create_leaderboard`: the winners' labels are counted, the counts are laid out along
      the weekly table's columns, labels that never won get 0, and the points become
      integers. `winning_point` is never used, so every win is worth one point. */
  method CreateLeaderboard(weekly: Table) returns (board: seq<Standing>)
    requires Shaped(weekly) && (weekly.cols != [] || weekly.rows == [])
    ensures |board| == |weekly.cols|
    ensures forall j :: 0 <= j < |board| ==> board[j].name == weekly.cols[j]
    ensures forall j :: 0 <= j < |board| ==> board[j].points == CountOf(Winners(weekly), weekly.cols[j])
    ensures Distinct(weekly.cols) ==> TotalPoints(board) == |weekly.rows|
  {
    var winners := Winners(weekly);
    board := Tabulate(weekly.cols, winners);
  }

  /** The tally half of `create_leaderboard`: `value_counts` of the winners, laid out along
      the columns with `fillna(0)`. */
  method Tabulate(cols: seq<string>, winners: seq<string>) returns (board: seq<Standing>)
    requires forall r :: 0 <= r < |winners| ==> winners[r] in cols
    ensures |board| == |cols|
    ensures forall j :: 0 <= j < |board| ==> board[j].name == cols[j]
    ensures forall j :: 0 <= j < |board| ==> board[j].points == CountOf(winners, cols[j])
    ensures Distinct(cols) ==> TotalPoints(board) == |winners|
  {
    var points := ValueCounts(winners);
    var column := seq(|cols|, j requires 0 <= j < |cols| =>
      if cols[j] in points then Some(points[cols[j]]) else None);
    board := seq(|column|, j requires 0 <= j < |column| =>
      Standing(cols[j], match column[j] case Some(n) => n case None => 0));
    BoardPoints(board, cols, winners);
  }

  /** Reading each column's count off `value_counts`, 0 when absent, gives its number of
      wins; with distinct labels, winners all among the columns, that is one point a week. */
  lemma BoardPoints(board: seq<Standing>, cols: seq<string>, ws: seq<string>)
    requires |board| == |cols|
    requires forall j :: 0 <= j < |board| ==>
      board[j].points == (if cols[j] in ValueCounts(ws) then ValueCounts(ws)[cols[j]] else 0)
    requires forall r :: 0 <= r < |ws| ==> ws[r] in cols
    ensures forall j :: 0 <= j < |board| ==> board[j].points == CountOf(ws, cols[j])
    ensures Distinct(cols) ==> TotalPoints(board) == |ws|
  {
    forall j | 0 <= j < |board| ensures board[j].points == CountOf(ws, cols[j]) {
      if cols[j] !in ValueCounts(ws) {
        CountOfAbsent(ws, cols[j]);
      }
    }
    TotalPointsIsTally(board, cols, ws);
    if Distinct(cols) {
      TallyTotal(cols, ws);
    }
  }

  /** `count_over_days`: the daily table with anonymised column labels, its running totals
      and its weekly totals. Column `j` of all three belongs to the `j`-th name in string
      order, displayed under its anonymised label. */
  method CountOverDays(es: seq<Entry>) returns (daily: Table, cumulative: Table, weekly: Table)
    ensures daily == ReplaceNames(Daily(es))
    ensures cumulative == Cumulative(daily)
    ensures weekly == Weekly(daily)
    ensures Shaped(daily) && daily.rows == DayKeys(es) && |daily.cols| == |NameKeys(es)|
    ensures Shaped(cumulative) && cumulative.rows == daily.rows && cumulative.cols == daily.cols
    ensures Shaped(weekly) && |weekly.cols| == |daily.cols|
    ensures forall i, j :: 0 <= i < |daily.rows| && 0 <= j < |daily.cols| ==>
      cumulative.cells[i][j] == SumUpTo(es, daily.rows[i], NameKeys(es)[j])
    ensures forall j :: 0 <= j < |weekly.cols| ==>
      ColumnSum(weekly.cells, j, |weekly.rows|) == NameSum(es, NameKeys(es)[j])
  {
    daily := ReplaceNames(Daily(es));
    cumulative := Cumulative(daily);
    weekly := Weekly(daily);
    AnonymisedTotals(es);
  }

  /** The anonymised daily table keeps the days and the number of names; its running totals
      are the entry totals up to each day and its weekly columns sum to the names' totals. */
  lemma AnonymisedTotals(es: seq<Entry>)
    ensures var daily := ReplaceNames(Daily(es));
      var cumulative, weekly := Cumulative(daily), Weekly(daily);
      && Shaped(daily) && daily.rows == DayKeys(es) && |daily.cols| == |NameKeys(es)|
      && Shaped(cumulative) && cumulative.rows == daily.rows && cumulative.cols == daily.cols
      && Shaped(weekly) && |weekly.cols| == |daily.cols|
      && (forall i, j :: 0 <= i < |daily.rows| && 0 <= j < |daily.cols| ==>
            cumulative.cells[i][j] == SumUpTo(es, daily.rows[i], NameKeys(es)[j]))
      && (forall j :: 0 <= j < |weekly.cols| ==>
            ColumnSum(weekly.cells, j, |weekly.rows|) == NameSum(es, NameKeys(es)[j]))
  {
    var rows, names := DayKeys(es), NameKeys(es);
    forall i, j | 0 <= i < |rows| && 0 <= j < |names|
      ensures Cumulative(ReplaceNames(Daily(es))).cells[i][j] == SumUpTo(es, rows[i], names[j])
    {
      AnonymisedCumulative(es, i, j);
    }
    forall j | 0 <= j < |names|
      ensures var w := Weekly(ReplaceNames(Daily(es))); ColumnSum(w.cells, j, |w.rows|) == NameSum(es, names[j])
    {
      AnonymisedWeeklyConserves(es, j);
    }
  }

  /** Anonymising the labels leaves the running totals as they were. */
  lemma AnonymisedCumulative(es: seq<Entry>, i: nat, j: nat)
    requires i < |Daily(es).rows| && j < |Daily(es).cols|
    ensures Cumulative(ReplaceNames(Daily(es))).cells[i][j] == SumUpTo(es, Daily(es).rows[i], Daily(es).cols[j])
  {
    var t := Daily(es);
    CumulativeIsSumUpTo(es, i, j);
    assert ReplaceNames(t).cells == t.cells;
    assert Cumulative(ReplaceNames(t)).cells[i][j] == ColumnSum(t.cells, j, i + 1);
  }

  /** Anonymising the labels leaves the weekly column totals equal to the names' totals. */
  lemma AnonymisedWeeklyConserves(es: seq<Entry>, j: nat)
    requires j < |Daily(es).cols|
    ensures var w := Weekly(ReplaceNames(Daily(es)));
      ColumnSum(w.cells, j, |w.rows|) == NameSum(es, Daily(es).cols[j])
  {
    var t := Daily(es);
    WeeklyConserves(ReplaceNames(t), j);
    DailyConserves(es, j);
    assert ReplaceNames(t).cells == t.cells && ReplaceNames(t).rows == t.rows;
  }

  /** A log without entries gives tables without rows or columns. */
  lemma NoEntriesNoTables()
    ensures Daily([]).rows == [] && Daily([]).cols == []
    ensures Cumulative(ReplaceNames(Daily([]))).rows == []
    ensures Weekly(ReplaceNames(Daily([]))).rows == [] && Weekly(ReplaceNames(Daily([]))).cols == []
  {
    assert Days([]) == [] && Names([]) == [];
  }
}
