/** The chat-log parser: one exported line `dd.mm.yy, HH:MM - Sender: message` becomes a
    timestamp, a sender and a message; the log keeps the lines whose message is not empty. */
module ChatParser {
  import opened TextUtil
  import opened Calendar

  /** What `parse_line` returns: `(time, sender, message)`, or `(None, None, '')` when the
      date text does not parse. */
  datatype ParsedLine = ParsedLine(time: Option<DateTime>, sender: Option<string>, message: string)

  /** One row of the parsed log (`Datetime`, `Sender`, `Message`). */
  datatype Record = Record(time: Timestamp, sender: string, message: string)

  const MessageSep := ": "
  const SenderSep := " - "

  /** `parse_line`: partition at the first `": "`, partition the prefix at the first
      `" - "`, and convert the date text. */
  function ParseLine(line: string): (p: ParsedLine)
    ensures p.time.None? ==> p == ParsedLine(None, None, "")
    ensures p.message != "" ==> p.time.Some?
    ensures p.time.Some? ==> p.sender.Some? && Valid(p.time.value)
  {
    var outer := Partition(line, MessageSep);
    var inner := Partition(outer.head, SenderSep);
    match ParseDate(inner.head)
    case None => ParsedLine(None, None, "")
    case Some(t) => ParsedLine(Some(t), Some(inner.tail), outer.tail)
  }

  /** A line that parses is its timestamp's text followed by `" - " + sender` (left out
      when there is no `" - "`, with an empty sender) and `": " + message` (left out when
      there is no `": "`, with an empty message). */
  lemma ParseLineShape(line: string)
    requires ParseLine(line).time.Some?
    ensures var p := ParseLine(line);
      var t, s, m := p.time.value, p.sender.value, p.message;
      || line == Format(t) + SenderSep + s + MessageSep + m
      || (s == "" && line == Format(t) + MessageSep + m)
      || (m == "" && line == Format(t) + SenderSep + s)
      || (s == "" && m == "" && line == Format(t))
  {
  }

  /** The message is the text after the first `": "` of the line (it may hold further
      `": "`); a line without `": "` has an empty message, whatever its date. */
  lemma MessageAfterFirstSeparator(line: string)
    ensures ParseLine(line).time.Some? && Find(line, MessageSep).Some? ==>
      ParseLine(line).message == line[Find(line, MessageSep).value + 2..]
    ensures Find(line, MessageSep).None? ==> ParseLine(line).message == ""
  {
    if Find(line, MessageSep).Some? {
      PartitionAt(line, MessageSep, Find(line, MessageSep).value);
    }
  }

  /** Within the prefix, the date text ends at the first `" - "` and the sender is
      everything after it, later `" - "` included. */
  lemma SenderAfterFirstDash(line: string, k: nat, j: nat)
    requires Find(line, MessageSep) == Some(k)
    requires Find(line[..k], SenderSep) == Some(j)
    ensures ParseLine(line).time == ParseDate(line[..j])
    ensures ParseLine(line).time.Some? ==> ParseLine(line).sender == Some(line[j + 3..k])
  {
    var outer := Partition(line, MessageSep);
    PartitionAt(line, MessageSep, k);
    PartitionAt(line[..k], SenderSep, j);
    assert line[..k][..j] == line[..j];
  }

  /** Partitioning at the first occurrence `k` cuts the string at `k`. */
  lemma PartitionAt(s: string, sep: string, k: nat)
    requires |sep| > 0 && Find(s, sep) == Some(k)
    ensures Partition(s, sep) == Parts(s[..k], true, s[k + |sep|..])
  {
    assert !Absent(s, sep);
  }

  /** A line whose date text fails to parse yields `(None, None, '')`. */
  lemma RejectsBadDate(line: string, date: string)
    requires date == Partition(Partition(line, MessageSep).head, SenderSep).head
    requires ParseDate(date).None?
    ensures ParseLine(line) == ParsedLine(None, None, "")
  {
  }

  /** The shape of a formatted timestamp that the separators care about: fifteen
      characters, no `-`, a `:` only between hour and minute, and digits at the end. */
  predicate DateShaped(f: string)
  {
    && |f| == 15
    && (forall i :: 0 <= i < 15 ==> f[i] != '-' && (f[i] == ':' ==> i == 12))
    && IsDigit(f[13]) && IsDigit(f[14])
  }

  lemma FormatIsDateShaped(t: DateTime)
    requires Valid(t)
    ensures DateShaped(Format(t))
  {
  }

  /** In `f + " - " + sender + ": " + message` the first `": "` is the one after the sender. */
  lemma FirstMessageSep(f: string, sender: string, message: string)
    requires DateShaped(f) && Absent(sender, MessageSep)
    ensures Find(f + SenderSep + sender + MessageSep + message, MessageSep) == Some(|f| + 3 + |sender|)
  {
    var line := f + SenderSep + sender + MessageSep + message;
    var k := |f| + 3 + |sender|;
    assert line[k..k + 2] == MessageSep;
    forall i: nat | i < k
      ensures !OccursAt(line, MessageSep, i)
    {
      NoMessageSepBefore(f, sender, message, i);
    }
    FindIsFirst(line, MessageSep, k);
  }

  lemma NoMessageSepBefore(f: string, sender: string, message: string, i: nat)
    requires DateShaped(f) && Absent(sender, MessageSep)
    requires i < |f| + 3 + |sender|
    ensures !OccursAt(f + SenderSep + sender + MessageSep + message, MessageSep, i)
  {
    var line := f + SenderSep + sender + MessageSep + message;
    var k := |f| + 3 + |sender|;
    assert line[i..i + 2] == [line[i], line[i + 1]];
    if i < 15 {
      assert line[i] == f[i];
      if i == 12 { assert line[i + 1] == f[13]; }
    } else if i < 18 {
      assert line[i] == SenderSep[i - 15];
    } else if i + 1 < k {
      assert line[i..i + 2] == sender[i - 18..i - 16];
      assert !OccursAt(sender, MessageSep, i - 18);
    } else {
      assert line[i + 1] == ':';
    }
  }

  /** In `f + " - " + sender` the first `" - "` is the one after the date. */
  lemma FirstSenderSep(f: string, sender: string)
    requires DateShaped(f)
    ensures Find(f + SenderSep + sender, SenderSep) == Some(15)
  {
    var prefix := f + SenderSep + sender;
    assert prefix[15..18] == SenderSep;
    forall i: nat | i < 15
      ensures !OccursAt(prefix, SenderSep, i)
    {
      assert prefix[i..i + 3][0] == prefix[i] && prefix[i..i + 3][1] == prefix[i + 1];
      if i < 14 { assert prefix[i + 1] == f[i + 1]; } else { assert prefix[i] == f[i]; }
    }
    FindIsFirst(prefix, SenderSep, 15);
  }

  /** Formatting a valid timestamp, a sender free of `": "` and any message into a line,
      and parsing it back, gives the three parts back. */
  lemma RoundTrip(t: DateTime, sender: string, message: string)
    requires Valid(t)
    requires Absent(sender, MessageSep)
    ensures ParseLine(Format(t) + SenderSep + sender + MessageSep + message)
         == ParsedLine(Some(t), Some(sender), message)
  {
    var f := Format(t);
    var prefix := f + SenderSep + sender;
    var line := prefix + MessageSep + message;
    FormatIsDateShaped(t);
    FirstMessageSep(f, sender, message);
    PartitionAt(line, MessageSep, |prefix|);
    assert line[..|prefix|] == prefix && line[|prefix| + 2..] == message;
    FirstSenderSep(f, sender);
    PartitionAt(prefix, SenderSep, 15);
    assert prefix[..15] == f && prefix[18..] == sender;
    ParseFormat(t);
  }

  /** `r` is what the line `s` says, read off its first `": "` and the first `" - "`
      before it: the message is everything after the `": "`, the date text is what comes
      before the `" - "` (the whole prefix when there is none) and parses to the record's
      time, and the sender lies between the two (empty when there is no `" - "`). */
  predicate RecordOf(s: string, r: Record)
  {
    && Find(s, MessageSep).Some?
    && var k := Find(s, MessageSep).value;
       && r.message == s[k + 2..]
       && match Find(s[..k], SenderSep)
          case Some(j) => ParseDate(s[..j]) == Some(r.time) && r.sender == s[j + 3..k]
          case None => ParseDate(s[..k]) == Some(r.time) && r.sender == ""
  }

  /** A line with a non-empty message parses into the record `RecordOf` describes. */
  lemma ParsedRecord(s: string)
    requires ParseLine(s).message != ""
    ensures var p := ParseLine(s); RecordOf(s, Record(p.time.value, p.sender.value, p.message))
  {
    MessageAfterFirstSeparator(s);
    var k := Find(s, MessageSep).value;
    PartitionAt(s, MessageSep, k);
    match Find(s[..k], SenderSep)
    case Some(j) => SenderAfterFirstDash(s, k, j);
    case None =>
  }

  /** The records a single exported line contributes: its parse when the message is not
      empty, nothing otherwise. */
  function Keep(line: string): (rs: seq<Record>)
    ensures |rs| <= 1
    ensures rs != [] <==> ParseLine(RStrip(line)).message != ""
    ensures rs != [] ==> RecordOf(RStrip(line), rs[0])
  {
    var p := ParseLine(RStrip(line));
    if p.message == "" then []
    else
      ParsedRecord(RStrip(line));
      [Record(p.time.value, p.sender.value, p.message)]
  }

  /** Every record of a parsed log carries a non-empty message. */
  predicate WellFormed(rs: seq<Record>)
  {
    forall i :: 0 <= i < |rs| ==> rs[i].message != ""
  }

  /** The parsed log: the records of the lines, in line order. */
  function ParseLog(lines: seq<string>): (rs: seq<Record>)
    ensures |rs| <= |lines| && WellFormed(rs)
  {
    if lines == [] then []
    else ParseLog(lines[..|lines| - 1]) + Keep(lines[|lines| - 1])
  }

  /** `parse_chat_log` over the lines of the file: each line is right-stripped and parsed;
      a line with an empty message is skipped, every other one is appended. */
  method ParseChatLog(lines: seq<string>) returns (records: seq<Record>)
    ensures records == ParseLog(lines)
  {
    records := [];
    for i := 0 to |lines|
      invariant records == ParseLog(lines[..i])
    {
      var p := ParseLine(RStrip(lines[i]));
      assert ParseLog(lines[..i + 1]) == ParseLog(lines[..i]) + Keep(lines[i]) by {
        assert lines[..i + 1][..i] == lines[..i];
      }
      if p.message == "" {
        continue;
      }
      records := records + [Record(p.time.value, p.sender.value, p.message)];
    }
    assert lines[..|lines|] == lines;
  }

  /** One more line adds its own records at the end of the log. */
  lemma ParseLogSnoc(lines: seq<string>, line: string)
    ensures ParseLog(lines + [line]) == ParseLog(lines) + Keep(line)
  {
    var all := lines + [line];
    assert all[..|all| - 1] == lines && all[|all| - 1] == line;
  }

  /** The log of consecutive stretches of lines is the concatenation of their logs, so
      records keep the order of their lines. */
  lemma {:induction false} ParseLogAppend(a: seq<string>, b: seq<string>)
    ensures ParseLog(a + b) == ParseLog(a) + ParseLog(b)
  {
    if b == [] {
      assert a + b == a;
    } else {
      var b', last := b[..|b| - 1], b[|b| - 1];
      assert b == b' + [last];
      assert a + b == (a + b') + [last];
      ParseLogSnoc(a + b', last);
      ParseLogSnoc(b', last);
      ParseLogAppend(a, b');
      ConcatAssociative(ParseLog(a), ParseLog(b'), Keep(last));
    }
  }

  /** The number of lines whose parsed message is not empty. */
  function CountKept(lines: seq<string>): nat
  {
    if lines == [] then 0
    else CountKept(lines[..|lines| - 1]) + (if ParseLine(RStrip(lines[|lines| - 1])).message != "" then 1 else 0)
  }

  /** Exactly one record per line with a non-empty message. */
  lemma {:induction false} ParseLogSize(lines: seq<string>)
    ensures |ParseLog(lines)| == CountKept(lines)
  {
    if lines != [] {
      ParseLogSize(lines[..|lines| - 1]);
    }
  }

  /** Every record of the log is the record of one of the lines, and so is what that
      line says (`Keep`'s `RecordOf`). */
  lemma {:induction false} ParseLogRecords(lines: seq<string>)
    ensures forall r :: r in ParseLog(lines) ==> exists line :: line in lines && r in Keep(line)
  {
    if lines != [] {
      var init, last := lines[..|lines| - 1], lines[|lines| - 1];
      assert lines == init + [last];
      ParseLogSnoc(init, last);
      ParseLogRecords(init);
      forall r | r in ParseLog(lines)
        ensures exists line :: line in lines && r in Keep(line)
      {
        if r in ParseLog(init) {
          var line :| line in init && r in Keep(line);
          assert line in lines;
        } else {
          assert last in lines && r in Keep(last);
        }
      }
    }
  }

  /** Trailing whitespace is stripped before parsing, so a message made only of
      whitespace leaves the line without `": "` and the line is skipped. */
  lemma {:induction false} BlankMessageSkipped(head: string, blank: string)
    requires Absent(head, MessageSep)
    requires AllSpace(blank)
    ensures Keep(head + MessageSep + blank) == []
  {
    var line := head + MessageSep + blank;
    assert line == (head + ":") + ([' '] + blank);
    assert AllSpace([' '] + blank);
    RStripSpaceSuffix(head + ":", [' '] + blank);
    var stripped := RStrip(line);
    assert stripped == head + ":";
    forall k: nat | k <= |stripped|
      ensures !OccursAt(stripped, MessageSep, k)
    {
      if k + 2 <= |head| {
        assert stripped[k..k + 2] == head[k..k + 2];
        assert !OccursAt(head, MessageSep, k);
      } else if k + 2 == |stripped| {
        assert stripped[k + 1] == ':';
      }
    }
    MessageAfterFirstSeparator(stripped);
  }

  /** A continuation line of a multi-line message does not start with a date, so it is
      dropped; and a line without `": "` is dropped even when its date is valid. */
  lemma NoSeparatorSkipped(t: DateTime, sender: string)
    requires Valid(t)
    requires Absent(Format(t) + SenderSep + sender, MessageSep)
    ensures Keep(Format(t) + SenderSep + sender) == []
  {
    var line := Format(t) + SenderSep + sender;
    var s := RStrip(line);
    forall k: nat | k <= |s|
      ensures !OccursAt(s, MessageSep, k)
    {
      if k + 2 <= |s| {
        assert s[k..k + 2] == line[k..k + 2];
        assert !OccursAt(line, MessageSep, k);
      }
    }
    MessageAfterFirstSeparator(s);
  }
}
