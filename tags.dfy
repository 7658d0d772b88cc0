/** Tag extraction from the parsed log: `#<digits>` gives the sender's count for that
    message, and `#<name>#<digits>` gives a count booked under `<name>`. */
module Tags {
  import opened TextUtil
  import opened Calendar
  import opened ChatParser

  /** A cell of the value column: the message text before extraction, the extracted
      count after it. */
  datatype Cell = Text(text: string) | Count(n: nat)

  /** One row of a frame: its index label, its timestamp, its sender and its value cell. */
  datatype Row = Row(index: nat, time: Timestamp, sender: string, value: Cell)

  /** One extracted observation. `count` is `None` where pandas holds NaN: a name-value
      tag whose digits are empty (`#Manu#`). */
  datatype Entry = Entry(index: nat, time: Timestamp, name: string, count: Option<nat>)

  /** A leftmost match of `#(\w*)#(\d*)`: where it starts, the name and the count. */
  datatype NameValue = NameValue(at: nat, name: string, count: Option<nat>)

  /** Position of the first `c` in `s`. */
  function IndexOf(s: string, c: char): (r: Option<nat>)
    ensures r.None? <==> c !in s
    ensures r.Some? ==> r.value < |s| && s[r.value] == c && c !in s[..r.value]
  {
    if s == [] then None
    else if s[0] == c then Some(0)
    else
      match IndexOf(s[1..], c)
      case None => None
      case Some(i) =>
        assert s[..i + 1] == [s[0]] + s[1..][..i];
        Some(i + 1)
  }

  lemma IndexOfAt(s: string, c: char, k: nat)
    requires k < |s| && s[k] == c && c !in s[..k]
    ensures IndexOf(s, c) == Some(k)
  {
    assert c in s;
  }

  /** Position `i` of `message` holds its first `#`. */
  predicate FirstHashAt(message: string, i: nat)
  {
    i < |message| && message[i] == '#' && '#' !in message[..i]
  }

  /** The value of the digit run `#(\d*)` captures after the first `#`, as
      `pd.to_numeric` reads it: an empty capture is NaN and `dropna` drops it. */
  function TagCount(message: string): (r: Option<nat>)
    ensures '#' !in message ==> r.None?
    ensures forall i: nat :: FirstHashAt(message, i) ==>
      && (r.Some? <==> i + 1 < |message| && IsDigit(message[i + 1]))
      && (r.Some? ==> r.value == DecimalValue(DigitPrefix(message[i + 1..])))
  {
    match IndexOf(message, '#')
    case None => None
    case Some(i) =>
      var d := DigitPrefix(message[i + 1..]);
      assert d != [] ==> d[0] == message[i + 1];
      if d == [] then None else Some(DecimalValue(d))
  }

  /** The first `#` followed by digits `d` gives their value, leading zeros and all. */
  lemma TagCountOf(pre: string, d: string, rest: string)
    requires '#' !in pre
    requires AllDigits(d) && d != []
    requires rest == [] || !IsDigit(rest[0])
    ensures TagCount(pre + "#" + d + rest) == Some(DecimalValue(d))
  {
    var m := pre + "#" + d + rest;
    assert m[..|pre|] == pre;
    IndexOfAt(m, '#', |pre|);
    assert m[|pre| + 1..] == d + rest;
    DigitPrefixOf(d, rest);
  }

  /** The count written as the decimal of `n` after the first `#` reads back as `n`. */
  lemma TagCountDecimal(pre: string, n: nat, rest: string)
    requires '#' !in pre
    requires rest == [] || !IsDigit(rest[0])
    ensures TagCount(pre + "#" + Decimal(n) + rest) == Some(n)
  {
    TagCountOf(pre, Decimal(n), rest);
    DecimalRoundTrip(n);
  }

  /** No entry for a message without `#`. */
  lemma TagCountNoHash(message: string)
    requires '#' !in message
    ensures TagCount(message) == None
  {
  }

  /** No entry for a message whose first `#` is not followed by a digit (such as
      `#Manu#190`). */
  lemma TagCountNoDigit(pre: string, rest: string)
    requires '#' !in pre
    requires rest == [] || !IsDigit(rest[0])
    ensures TagCount(pre + "#" + rest) == None
  {
    var m := pre + "#" + rest;
    assert m[..|pre|] == pre;
    IndexOfAt(m, '#', |pre|);
    assert m[|pre| + 1..] == rest;
  }

  /** A run of word characters closed by a `#`: what `(\w*)#` needs after the first `#`. */
  predicate ClosedName(tail: string)
  {
    var w := WordPrefix(tail);
    |w| < |tail| && tail[|w|] == '#'
  }

  /** A `#` at `k`, a run of word characters, then another `#`: where `#(\w*)#` matches. */
  predicate NameValueShapeAt(m: string, k: nat)
  {
    k < |m| && m[k] == '#' && ClosedName(m[k + 1..])
  }

  /** The greedy digit run after the closing `#`, as `pd.to_numeric` reads it (NaN when
      empty). */
  function CountAfterName(tail: string): Option<nat>
    requires ClosedName(tail)
  {
    var d := DigitPrefix(tail[|WordPrefix(tail)| + 1..]);
    if d == [] then None else Some(DecimalValue(d))
  }

  /** The match of `#(\w*)#(\d*)` starting at `k`: the greedy word run is the name, the
      greedy digit run after the second `#` the count. */
  function MatchAt(m: string, k: nat): NameValue
    requires NameValueShapeAt(m, k)
  {
    NameValue(k, WordPrefix(m[k + 1..]), CountAfterName(m[k + 1..]))
  }

  /** The search for `#(\w*)#(\d*)` from position `from` on. */
  function NameValueFrom(m: string, from: nat): (r: Option<NameValue>)
    decreases |m| - from
    ensures r.Some? ==> from <= r.value.at && NameValueShapeAt(m, r.value.at) && r.value == MatchAt(m, r.value.at)
    ensures r.Some? ==> forall k: nat :: from <= k < r.value.at ==> !NameValueShapeAt(m, k)
    ensures r.None? ==> forall k: nat :: from <= k ==> !NameValueShapeAt(m, k)
  {
    if from >= |m| then None
    else if NameValueShapeAt(m, from) then Some(MatchAt(m, from))
    else NameValueFrom(m, from + 1)
  }

  /** `str.extract('#(\w*)#(\d*)')` on one message: the leftmost match, if any. */
  function FindNameValue(m: string): (r: Option<NameValue>)
    ensures r.Some? ==> NameValueShapeAt(m, r.value.at) && r.value == MatchAt(m, r.value.at)
    ensures r.Some? ==> forall k: nat :: k < r.value.at ==> !NameValueShapeAt(m, k)
    ensures r.None? ==> forall k: nat :: !NameValueShapeAt(m, k)
  {
    NameValueFrom(m, 0)
  }

  /** No match can start inside a prefix without `#`. */
  lemma NoShapeBefore(m: string, k: nat)
    requires k <= |m| && '#' !in m[..k]
    ensures forall j: nat :: j < k ==> !NameValueShapeAt(m, j)
  {
    forall j: nat | j < k ensures !NameValueShapeAt(m, j) {
      assert m[..k][j] == m[j];
    }
  }

  /** What follows the first `#` when it is `name`, a `#` and the digits `d`. */
  lemma ClosedNameOf(name: string, d: string, rest: string)
    requires AllWordChars(name) && AllDigits(d)
    requires rest == [] || !IsDigit(rest[0])
    ensures ClosedName(name + ("#" + (d + rest)))
    ensures WordPrefix(name + ("#" + (d + rest))) == name
    ensures CountAfterName(name + ("#" + (d + rest))) == if d == [] then None else Some(DecimalValue(d))
  {
    var tail := name + ("#" + (d + rest));
    WordPrefixOf(name, "#" + (d + rest));
    assert tail[|name|] == '#';
    assert tail[|name| + 1..] == d + rest;
    DigitPrefixOf(d, rest);
  }

  /** The match at `k` when `name`, a `#` and the digits `d` follow the `#` at `k`. */
  lemma MatchAtOf(m: string, k: nat, name: string, d: string, rest: string)
    requires k < |m| && m[k] == '#' && m[k + 1..] == name + ("#" + (d + rest))
    requires AllWordChars(name) && AllDigits(d)
    requires rest == [] || !IsDigit(rest[0])
    ensures NameValueShapeAt(m, k)
    ensures MatchAt(m, k) == NameValue(k, name, if d == [] then None else Some(DecimalValue(d)))
  {
    ClosedNameOf(name, d, rest);
  }

  /** With no `#` before it, a match at `k` is the one the search reports. */
  lemma FindNameValueAt(m: string, k: nat)
    requires NameValueShapeAt(m, k) && '#' !in m[..k]
    ensures FindNameValue(m) == Some(MatchAt(m, k))
  {
    NoShapeBefore(m, k);
  }

  /** `#name#digits` after a text without `#` reads as that name and that count; empty
      digits give NaN. */
  lemma NameValueOf(pre: string, name: string, d: string, rest: string)
    requires '#' !in pre
    requires AllWordChars(name) && AllDigits(d)
    requires rest == [] || !IsDigit(rest[0])
    ensures FindNameValue(pre + "#" + name + "#" + d + rest)
         == Some(NameValue(|pre|, name, if d == [] then None else Some(DecimalValue(d))))
  {
    var m := pre + "#" + name + "#" + d + rest;
    var k := |pre|;
    assert m[..k] == pre && m[k] == '#';
    assert m[k + 1..] == name + ("#" + (d + rest));
    MatchAtOf(m, k, name, d, rest);
    FindNameValueAt(m, k);
  }

  /** What `str.extract('#(\d*)')` and `dropna` leave of one row: the row with its count,
      or nothing. */
  function TaggedRow(row: Row): (r: seq<Row>)
    ensures |r| <= 1
    ensures r != [] <==> row.value.Text? && TagCount(row.value.text).Some?
    ensures r != [] ==> r[0] == row.(value := Count(TagCount(row.value.text).value))
  {
    match row.value
    case Text(m) => (match TagCount(m) case Some(n) => [row.(value := Count(n))] case None => [])
    case Count(_) => []
  }

  /** The value column after `extract_hashtags`: rows whose message has a single tag,
      the message replaced by its count; `dropna` drops the others. */
  function TaggedRows(rows: seq<Row>): (r: seq<Row>)
    ensures |r| <= |rows|
    ensures forall i :: 0 <= i < |r| ==> r[i].value.Count?
  {
    if rows == [] then []
    else TaggedRows(rows[..|rows| - 1]) + TaggedRow(rows[|rows| - 1])
  }

  /** One more row adds what it keeps at the end. */
  lemma TaggedRowsSnoc(rows: seq<Row>, row: Row)
    ensures TaggedRows(rows + [row]) == TaggedRows(rows) + TaggedRow(row)
  {
    var all := rows + [row];
    assert all[..|all| - 1] == rows && all[|all| - 1] == row;
  }

  /** Extraction works row by row, so the rows kept from two stretches of the frame are
      those of the first followed by those of the second. */
  lemma {:induction false} TaggedRowsAppend(a: seq<Row>, b: seq<Row>)
    ensures TaggedRows(a + b) == TaggedRows(a) + TaggedRows(b)
  {
    if b == [] {
      assert a + b == a;
    } else {
      var b', last := b[..|b| - 1], b[|b| - 1];
      assert b == b' + [last];
      assert a + b == (a + b') + [last];
      TaggedRowsSnoc(a + b', last);
      TaggedRowsSnoc(b', last);
      TaggedRowsAppend(a, b');
      ConcatAssociative(TaggedRows(a), TaggedRows(b'), TaggedRow(last));
    }
  }

  /** A row whose message has a single tag survives with its count in place of the message,
      and every surviving row is such a row. */
  lemma {:induction false} TaggedRowsMembers(rows: seq<Row>)
    ensures forall row :: row in rows && row.value.Text? && TagCount(row.value.text).Some? ==>
      row.(value := Count(TagCount(row.value.text).value)) in TaggedRows(rows)
    ensures forall x :: x in TaggedRows(rows) ==> exists row :: row in rows && TaggedRow(row) == [x]
  {
    if rows != [] {
      var init, last := rows[..|rows| - 1], rows[|rows| - 1];
      assert rows == init + [last];
      TaggedRowsSnoc(init, last);
      TaggedRowsMembers(init);
      forall x | x in TaggedRows(rows)
        ensures exists row :: row in rows && TaggedRow(row) == [x]
      {
        if x in TaggedRows(init) {
          var row :| row in init && TaggedRow(row) == [x];
          assert row in rows;
        } else {
          assert last in rows && TaggedRow(last) == [x];
        }
      }
    }
  }

  /** The single-tag entries of the tagged rows, booked under each row's sender. */
  function SingleTagEntries(rows: seq<Row>): (es: seq<Entry>)
    ensures |es| == |rows|
    ensures forall i :: 0 <= i < |es| ==> es[i].index == rows[i].index && es[i].time == rows[i].time
    ensures forall i :: 0 <= i < |es| ==>
      es[i].name == rows[i].sender && es[i].count == (if rows[i].value.Count? then Some(rows[i].value.n) else None)
  {
    seq(|rows|, i requires 0 <= i < |rows| =>
      Entry(rows[i].index, rows[i].time, rows[i].sender, if rows[i].value.Count? then Some(rows[i].value.n) else None))
  }

  /** The entry `str.extract('#(\w*)#(\d*)')` and `dropna` leave for one row, if any. */
  function PairEntry(row: Row): (es: seq<Entry>)
    ensures |es| <= 1
    ensures forall k :: 0 <= k < |es| ==> es[k].index == row.index
    ensures es != [] <==> row.value.Text? && FindNameValue(row.value.text).Some?
    ensures es != [] ==>
      var nv := FindNameValue(row.value.text).value;
      es[0] == Entry(row.index, row.time, nv.name, nv.count)
  {
    match row.value
    case Text(m) => (match FindNameValue(m) case Some(nv) => [Entry(row.index, row.time, nv.name, nv.count)] case None => [])
    case Count(_) => []
  }

  /** `extract_name_value_pairs`: one entry per message with a `#name#digits` match,
      under that name. */
  function NameValueEntries(rows: seq<Row>): (es: seq<Entry>)
    ensures |es| <= |rows|
  {
    if rows == [] then []
    else NameValueEntries(rows[..|rows| - 1]) + PairEntry(rows[|rows| - 1])
  }

  /** One more row adds its pair entry, if any, at the end. */
  lemma NameValueEntriesSnoc(rows: seq<Row>, row: Row)
    ensures NameValueEntries(rows + [row]) == NameValueEntries(rows) + PairEntry(row)
  {
    var all := rows + [row];
    assert all[..|all| - 1] == rows && all[|all| - 1] == row;
  }

  /** The pairs read from two stretches of the frame are those of the first followed by
      those of the second. */
  lemma {:induction false} NameValueEntriesAppend(a: seq<Row>, b: seq<Row>)
    ensures NameValueEntries(a + b) == NameValueEntries(a) + NameValueEntries(b)
  {
    if b == [] {
      assert a + b == a;
    } else {
      var b', last := b[..|b| - 1], b[|b| - 1];
      assert b == b' + [last];
      assert a + b == (a + b') + [last];
      NameValueEntriesSnoc(a + b', last);
      NameValueEntriesSnoc(b', last);
      NameValueEntriesAppend(a, b');
      ConcatAssociative(NameValueEntries(a), NameValueEntries(b'), PairEntry(last));
    }
  }

  /** An entry is read from the frame exactly when some row's message gives it as its
      `#name#digits` match. */
  lemma {:induction false} NameValueEntriesMembers(rows: seq<Row>)
    ensures forall x :: x in NameValueEntries(rows) <==> exists row :: row in rows && PairEntry(row) == [x]
  {
    if rows != [] {
      var init, last := rows[..|rows| - 1], rows[|rows| - 1];
      assert rows == init + [last];
      NameValueEntriesSnoc(init, last);
      NameValueEntriesMembers(init);
      forall x
        ensures x in NameValueEntries(rows) <==> exists row :: row in rows && PairEntry(row) == [x]
      {
        if x in NameValueEntries(rows) {
          if x in NameValueEntries(init) {
            var row :| row in init && PairEntry(row) == [x];
            assert row in rows;
          } else {
            assert last in rows && PairEntry(last) == [x];
          }
        }
      }
    }
  }

  predicate LabelsSorted(es: seq<Entry>)
  {
    forall i, j :: 0 <= i < j < |es| ==> es[i].index <= es[j].index
  }

  /** `pd.concat([...]).sort_index()`: the two sorted entry lists merged by row index;
      for one index the single-tag entry comes first. */
  function Merge(a: seq<Entry>, b: seq<Entry>): (r: seq<Entry>)
    decreases |a| + |b|
    ensures multiset(r) == multiset(a) + multiset(b)
  {
    if a == [] then b
    else if b == [] then a
    else if a[0].index <= b[0].index then
      assert a == [a[0]] + a[1..];
      [a[0]] + Merge(a[1..], b)
    else
      assert b == [b[0]] + b[1..];
      [b[0]] + Merge(a, b[1..])
  }

  predicate AllFrom(es: seq<Entry>, low: nat)
  {
    forall i :: 0 <= i < |es| ==> low <= es[i].index
  }

  lemma MergeFrom(a: seq<Entry>, b: seq<Entry>, low: nat)
    requires AllFrom(a, low) && AllFrom(b, low)
    ensures AllFrom(Merge(a, b), low)
  {
    var r := Merge(a, b);
    forall i | 0 <= i < |r| ensures low <= r[i].index {
      assert r[i] in multiset(r);
      if r[i] in multiset(a) {
        var j :| 0 <= j < |a| && a[j] == r[i];
      } else {
        assert r[i] in multiset(b);
        var j :| 0 <= j < |b| && b[j] == r[i];
      }
    }
  }

  /** Merging two lists sorted by row index gives a list sorted by row index. */
  lemma {:induction false} MergeSorted(a: seq<Entry>, b: seq<Entry>)
    requires LabelsSorted(a) && LabelsSorted(b)
    ensures LabelsSorted(Merge(a, b))
    decreases |a| + |b|
  {
    if a != [] && b != [] {
      if a[0].index <= b[0].index {
        MergeSorted(a[1..], b);
        MergeFrom(a[1..], b, a[0].index);
      } else {
        MergeSorted(a, b[1..]);
        MergeFrom(a, b[1..], b[0].index);
      }
    }
  }

  /** What one row contributes: its single-tag entry under the sender, then its
      name-value entry under the tagged name, each when present. */
  function RowEntries(row: Row): seq<Entry>
  {
    SingleTagEntries(TaggedRow(row)) + PairEntry(row)
  }

  /** The contributions of the rows, row after row. */
  function FrameEntries(rows: seq<Row>): seq<Entry>
  {
    if rows == [] then [] else FrameEntries(rows[..|rows| - 1]) + RowEntries(rows[|rows| - 1])
  }

  lemma SingleTagEntriesAppend(a: seq<Row>, b: seq<Row>)
    ensures SingleTagEntries(a + b) == SingleTagEntries(a) + SingleTagEntries(b)
  {
    assert |SingleTagEntries(a + b)| == |SingleTagEntries(a) + SingleTagEntries(b)|;
  }

  /** Adding `x'` and `y'` to two lists whose elements together are those of `f` adds
      them to `f`. */
  lemma MultisetRegroup<T>(x: seq<T>, x': seq<T>, y: seq<T>, y': seq<T>, f: seq<T>)
    requires multiset(x) + multiset(y) == multiset(f)
    ensures multiset(x + x') + multiset(y + y') == multiset(f + (x' + y'))
  {
  }

  /** The last row adds its contribution to each kind of entry and to the row-by-row list. */
  lemma EntriesSnoc(rows: seq<Row>)
    requires rows != []
    ensures var init, last := rows[..|rows| - 1], rows[|rows| - 1];
      && SingleTagEntries(TaggedRows(rows)) == SingleTagEntries(TaggedRows(init)) + SingleTagEntries(TaggedRow(last))
      && NameValueEntries(rows) == NameValueEntries(init) + PairEntry(last)
      && FrameEntries(rows) == FrameEntries(init) + RowEntries(last)
  {
    var init, last := rows[..|rows| - 1], rows[|rows| - 1];
    assert rows == init + [last];
    TaggedRowsSnoc(init, last);
    SingleTagEntriesAppend(TaggedRows(init), TaggedRow(last));
    NameValueEntriesSnoc(init, last);
  }

  /** Both kinds of entries together are the rows' contributions, row by row. */
  lemma {:induction false} EntriesRowByRow(rows: seq<Row>)
    ensures multiset(SingleTagEntries(TaggedRows(rows))) + multiset(NameValueEntries(rows))
         == multiset(FrameEntries(rows))
  {
    if rows != [] {
      var init, last := rows[..|rows| - 1], rows[|rows| - 1];
      EntriesSnoc(rows);
      EntriesRowByRow(init);
      MultisetRegroup(SingleTagEntries(TaggedRows(init)), SingleTagEntries(TaggedRow(last)),
        NameValueEntries(init), PairEntry(last), FrameEntries(init));
    }
  }

  /** `extract_hashtags` as a value: single-tag entries and name-value entries, merged;
      these are every row's contributions, each once. */
  function Extracted(rows: seq<Row>): (es: seq<Entry>)
    ensures multiset(es) == multiset(FrameEntries(rows))
  {
    EntriesRowByRow(rows);
    Merge(SingleTagEntries(TaggedRows(rows)), NameValueEntries(rows))
  }

  /** A data frame whose value column is relabelled and whose rows are dropped in place.
      `column` is the label of the value column, `None` for a frame without columns. */
  class Frame {
    var column: Option<string>
    var rows: seq<Row>

    /** `pd.DataFrame(parsed_df)`: one row per record, labelled 0, 1, ... and so in label
        order; an empty list of records gives a frame without columns. */
    constructor (records: seq<Record>)
      ensures records != [] ==> column == Some("Message")
      ensures records == [] ==> column == None
      ensures |rows| == |records| && RowsSorted(rows)
      ensures forall i :: 0 <= i < |rows| ==>
        rows[i] == Row(i, records[i].time, records[i].sender, Text(records[i].message))
    {
      column := if records == [] then None else Some("Message");
      rows := seq(|records|, i requires 0 <= i < |records| =>
        Row(i, records[i].time, records[i].sender, Text(records[i].message)));
    }
  }

  /** `extract_hashtags(df)`: the name-value pairs are read first; then the caller's frame
      has its `Message` column renamed to `Pushups`, each message replaced by its single
      tag's count and the rows without one dropped; the result merges both kinds in
      label order. A frame without a `Message` column is a `KeyError` in `df['Message']`. */
  method ExtractHashtags(df: Frame) returns (entries: seq<Entry>)
    requires df.column == Some("Message")
    requires RowsSorted(df.rows)
    requires forall i :: 0 <= i < |df.rows| ==> df.rows[i].value.Text?
    modifies df
    ensures df.column == Some("Pushups")
    ensures df.rows == TaggedRows(old(df.rows))
    ensures entries == Extracted(old(df.rows))
    ensures LabelsSorted(entries)
  {
    ExtractedInOrder(df.rows);
    var nameValue := NameValueEntries(df.rows);
    df.column := Some("Pushups");
    df.rows := TaggedRows(df.rows);
    entries := Merge(SingleTagEntries(df.rows), nameValue);
  }

  /** Rows in index order keep that order through extraction, so the merged entries are
      in row order. */
  predicate RowsSorted(rows: seq<Row>)
  {
    forall i, j :: 0 <= i < j < |rows| ==> rows[i].index < rows[j].index
  }

  lemma {:induction false} TaggedRowsInOrder(rows: seq<Row>)
    requires RowsSorted(rows)
    ensures RowsSorted(TaggedRows(rows))
    ensures rows != [] ==>
      forall i :: 0 <= i < |TaggedRows(rows)| ==> TaggedRows(rows)[i].index <= rows[|rows| - 1].index
  {
    if rows != [] {
      var init, last := rows[..|rows| - 1], rows[|rows| - 1];
      assert RowsSorted(init);
      TaggedRowsInOrder(init);
      var pre, tail := TaggedRows(init), TaggedRow(last);
      assert forall k :: 0 <= k < |pre| ==> pre[k].index < last.index by {
        if init != [] {
          assert init[|init| - 1].index < last.index;
        }
      }
      assert TaggedRows(rows) == pre + tail;
    }
  }

  lemma {:induction false} NameValueEntriesInOrder(rows: seq<Row>)
    requires RowsSorted(rows)
    ensures LabelsSorted(NameValueEntries(rows))
    ensures rows != [] ==>
      forall i :: 0 <= i < |NameValueEntries(rows)| ==> NameValueEntries(rows)[i].index <= rows[|rows| - 1].index
  {
    if rows != [] {
      var init, last := rows[..|rows| - 1], rows[|rows| - 1];
      assert RowsSorted(init);
      NameValueEntriesInOrder(init);
      var pre, tail := NameValueEntries(init), PairEntry(last);
      assert forall k :: 0 <= k < |pre| ==> pre[k].index < last.index by {
        if init != [] {
          assert init[|init| - 1].index < last.index;
        }
      }
      assert NameValueEntries(rows) == pre + tail;
    }
  }

  /** The entries of a frame in index order come out in index order. */
  lemma ExtractedInOrder(rows: seq<Row>)
    requires RowsSorted(rows)
    ensures LabelsSorted(Extracted(rows))
    ensures multiset(Extracted(rows)) == multiset(SingleTagEntries(TaggedRows(rows))) + multiset(NameValueEntries(rows))
  {
    TaggedRowsInOrder(rows);
    NameValueEntriesInOrder(rows);
    MergeSorted(SingleTagEntries(TaggedRows(rows)), NameValueEntries(rows));
  }

  /** A single message row gives its single-tag entry, if any, then its name-value
      entry, if any. */
  lemma ExtractedOneRow(row: Row)
    requires row.value.Text?
    ensures Extracted([row]) ==
      (match TagCount(row.value.text)
       case Some(n) => [Entry(row.index, row.time, row.sender, Some(n))]
       case None => [])
      + (match FindNameValue(row.value.text)
         case Some(nv) => [Entry(row.index, row.time, nv.name, nv.count)]
         case None => [])
  {
    var rows := [row];
    assert rows[..0] == [];
    assert TaggedRows(rows) == TaggedRow(row);
    assert NameValueEntries(rows) == PairEntry(row);
    var single := SingleTagEntries(TaggedRow(row));
    assert single == match TagCount(row.value.text)
       case Some(n) => [Entry(row.index, row.time, row.sender, Some(n))]
       case None => [];
    MergeAtOneIndex(single, PairEntry(row), row.index);
  }

  /** At most one entry on each side, all at the same index: the single-tag entry first. */
  lemma MergeAtOneIndex(a: seq<Entry>, b: seq<Entry>, index: nat)
    requires |a| <= 1 && |b| <= 1
    requires forall k :: 0 <= k < |a| ==> a[k].index == index
    requires forall k :: 0 <= k < |b| ==> b[k].index == index
    ensures Merge(a, b) == a + b
  {
    if a != [] && b != [] {
      assert a[0].index <= b[0].index;
      var rest := a[1..];
      assert rest == [];
      assert Merge(rest, b) == b;
      assert a == [a[0]];
    }
  }

  /** One message can give both kinds of match. In `#a#b...` the single tag reads `a`,
      a count for the sender, whatever follows. */
  lemma BothTagFormsSingle(a: nat, db: string)
    ensures TagCount("#" + Decimal(a) + "#" + db) == Some(a)
  {
    var e: string := [];
    assert "#" + Decimal(a) + "#" + db == e + "#" + Decimal(a) + ("#" + db);
    TagCountDecimal(e, a, "#" + db);
  }

  /** In `#a#b` the name-value pair also reads `b` for a participant whose name is the
      digits of `a`: `#20#30` counts 20 for the sender and 30 for `20`. */
  lemma BothTagFormsPair(a: nat, b: nat)
    ensures FindNameValue("#" + Decimal(a) + "#" + Decimal(b)) == Some(NameValue(0, Decimal(a), Some(b)))
  {
    var da, db := Decimal(a), Decimal(b);
    var e: string := [];
    assert "#" + da + "#" + db == e + "#" + da + "#" + db + e;
    assert AllWordChars(da);
    NameValueOf(e, da, db, e);
    DecimalRoundTrip(b);
  }

  /** A message `#name#n` whose name does not start with a digit has no single tag, only
      the pair giving `n` to `name` (for example `#Manu#190`). */
  lemma OverrideTag(name: string, n: nat)
    requires name != [] && AllWordChars(name) && !IsDigit(name[0])
    ensures TagCount("#" + name + "#" + Decimal(n)) == None
    ensures FindNameValue("#" + name + "#" + Decimal(n)) == Some(NameValue(0, name, Some(n)))
  {
    var d := Decimal(n);
    var e: string := [];
    assert "#" + name + "#" + d == e + "#" + (name + "#" + d);
    TagCountNoDigit(e, name + "#" + d);
    assert "#" + name + "#" + d == e + "#" + name + "#" + d + e;
    NameValueOf(e, name, d, e);
    DecimalRoundTrip(n);
  }
}
