# pushup: chat-log push-up tally, modelled in Dafny

The pushup scripts read a chat export in which friends report their push-ups. Each
line looks like `dd.mm.yy, HH:MM - Sender: message`. A message counts as a report
in two cases:

- it carries `#<digits>`, a count for the sender;
- it carries `#<name>#<digits>`, a count booked for `<name>`.

The scripts then total the counts per day and per participant. They anonymise the
participant labels and compute running totals and weekly totals. Finally they award
one leaderboard point per week to that week's winner.

This project models that pipeline and proves properties of it. It is organised as
follows.

- `text.dfy` (module `TextUtil`): the string toolkit the scripts rely on. It covers
  `str.partition`, `str.rstrip()`, the regular-expression classes `\d` and `\w`,
  greedy digit and word runs, and decimal values.
- `calendar.dfy` (module `Calendar`): timestamps in the format `%d.%m.%y, %H:%M`.
  It defines when such a timestamp is a real calendar day and time, and parses and
  formats it. It also numbers days and Monday-to-Sunday weeks for the aggregation.
- `chat_parser.dfy` (module `ChatParser`): `parse_line` (a pure function) and
  `parse_chat_log` (a method with the source's loop and its `continue`).
- `ordering.dfy` (module `Ordering`): the sorted, duplicate-free group keys that
  pandas produces. It includes Python's string order.
- `tags.dfy` (module `Tags`): `extract_hashtags` and `extract_name_value_pairs`.
  - The frame that `extract_hashtags` changes in place is a class whose fields the
    method updates: the column is renamed, values are replaced and rows are dropped.
  - The regular-expression searches are functions with leftmost-match contracts.
- `tables.dfy` (module `Tables`): `count_over_days` with `replace_names`, the
  cumulative sum and the weekly sum, and `create_leaderboard`.

## Model

| member | source | states |
|---|---|---|
| TextUtil.Partition | wa_parser.py:45-46 | `str.partition`: when the separator is absent, the whole string is the head and the tail is empty; otherwise the string is head + separator + tail and the head holds no earlier separator |
| TextUtil.RStrip | wa_parser.py:22 | the result is a prefix of the line, only whitespace was removed, and it does not end in whitespace |
| TextUtil.RStripSpaceSuffix | wa_parser.py:22 | appending whitespace to a line does not change what is parsed |
| TextUtil.DecimalRoundTrip | pushup.py:50-51 | reading the decimal spelling of `n` back gives `n` |
| Calendar.FullYear | wa_parser.py:50 | `%y` maps two digits to 1969..2068, keeping the last two digits |
| Calendar.ParseDate | wa_parser.py:49-52 | a date text that parses names a valid day and time, and formatting it gives the same text back |
| Calendar.ParseFormat | wa_parser.py:50 | every valid timestamp is parsed back from its own text |
| Calendar.DayNumber | pushup.py:22 | `TimeGrouper(freq='d')` keys a timestamp by its calendar day alone: every timestamp has the day number of its own midnight; the two-digit years give day numbers from -362 (1 January 1969) to 36162 (31 December 2068) |
| Calendar.SameDay | pushup.py:22 | two timestamps of the same date fall into the same daily group, whatever their times of day |
| Calendar.WeekIndex | pushup.py:31 | the week of a day number is the `w` with `7 * w <= d < 7 * w + 7`, the seven days from Monday `7 * w` to Sunday `7 * w + 6` |
| Calendar.WeekEnd | pushup.py:31 | the label of a week is its Sunday: a day of that week that is the sixth after a Monday |
| Calendar.NextDay | pushup.py:22 | consecutive calendar days get consecutive day numbers, across month and year ends and leap days |
| Calendar.WeekAnchors | pushup.py:31 | day 0 is 29 December 1969, Monday 1 January 2018 is day `7 * 2505` and Sunday 7 January 2018 is `WeekEnd(2505)`, so the day numbering puts weeks from Monday to Sunday, the weeks of `freq='w'` |
| Calendar.SameWeek | pushup.py:31 | days in the same week are less than seven days apart and end on or before the week's Sunday |
| ChatParser.ParseLine | wa_parser.py:35-53 | an unparsable date gives `(None, None, '')`; a non-empty message implies a valid time and a sender |
| ChatParser.ParseLineShape | wa_parser.py:45-46 | a line that parses is the timestamp text, then `' - ' + sender` and `': ' + message`, each part absent only when its separator is |
| ChatParser.MessageAfterFirstSeparator | wa_parser.py:45 | the message is exactly the text after the first `': '`; a line without `': '` has an empty message |
| ChatParser.SenderAfterFirstDash | wa_parser.py:46 | the date is the text before the first `' - '` and the sender is everything after it up to the first `': '` |
| ChatParser.RejectsBadDate | wa_parser.py:49-52 | a date text that does not parse makes the line `(None, None, '')` |
| ChatParser.RoundTrip | wa_parser.py:45-53 | formatting a valid timestamp, a sender without `': '` and any message into a line and parsing it gives all three back |
| ChatParser.ParsedRecord | wa_parser.py:45-53 | a parsed line with a non-empty message is read off its first `': '` and the first `' - '` before it: message after the `': '`, date text before the `' - '` (the whole prefix without one) parsing to the time, sender in between (empty without a `' - '`) |
| ChatParser.Keep | wa_parser.py:22-31 | a line contributes one record exactly when its stripped parse has a non-empty message, and that record holds the stripped line's time, sender and message as `ParsedRecord` describes |
| ChatParser.ParseChatLog | wa_parser.py:19-32 | the loop's records are the records of the lines, in line order; every record has a non-empty message |
| ChatParser.ParseLog | wa_parser.py:21-31 | the log of the lines, line by line: no more records than lines, and every record carries a non-empty message |
| ChatParser.ParseLogAppend | wa_parser.py:21-31 | the log of two stretches of lines is the log of the first followed by the log of the second |
| ChatParser.ParseLogRecords | wa_parser.py:21-31 | every record of the log is the record `Keep` takes from one of the lines, so it says what that line says |
| ChatParser.ParseLogSize | wa_parser.py:21-31 | there is exactly one record per line whose message is not empty |
| ChatParser.BlankMessageSkipped | wa_parser.py:22-29 | a line whose message is only whitespace is skipped, because stripping removes the `': '` |
| ChatParser.NoSeparatorSkipped | wa_parser.py:22-29 | a line with a valid date and sender but no `': '` is skipped |
| Tags.TagCountOf | pushup.py:50-51 | the digits right after the first `#` give the count, leading zeros included |
| Tags.TagCountDecimal | pushup.py:50-51 | a count written after the first `#` is read back as that count |
| Tags.TagCountNoHash | pushup.py:50-52 | a message without `#` gives no single-tag count |
| Tags.TagCountNoDigit | pushup.py:50-52 | a message whose first `#` is not followed by a digit gives no single-tag count |
| Tags.FindNameValue | pushup.py:70 | the name-value match is the leftmost position where `#`, a word run and `#` occur; no match means no such position exists |
| Tags.FindNameValueAt | pushup.py:70 | a match with no `#` before it is the one reported |
| Tags.NameValueOf | pushup.py:70-73 | in `#name#digits` after text without `#`, the name is the word run and the count is the digits (NaN when there are none) |
| Tags.TagCount | pushup.py:50-51 | `#(\d*)` after the first `#`: no `#` gives no count; otherwise there is a count exactly when a digit follows that `#`, and it is the value of the greedy digit run there |
| Tags.OverrideTag | pushup.py:60-75 | `#name#n` with a name not starting with a digit gives no single tag and gives `n` to `name` |
| Tags.BothTagFormsSingle | pushup.py:50-51 | in `#a#...` the single tag reads `a` |
| Tags.BothTagFormsPair | pushup.py:70-73 | in `#a#b` the name-value pair gives `b` to the name spelled by `a`'s digits |
| Tags.TaggedRow | pushup.py:50-52 | a row survives exactly when its message has a single-tag count, and then it is the same row with the count in place of the message |
| Tags.TaggedRows | pushup.py:50-52 | after extraction every remaining row holds a count and no rows are added |
| Tags.TaggedRowsAppend | pushup.py:50-52 | the rows kept from two stretches of the frame are those of the first followed by those of the second, so order is kept |
| Tags.TaggedRowsMembers | pushup.py:50-52 | every row with a single-tag count survives with that count, and every surviving row comes from such a row |
| Tags.SingleTagEntries | pushup.py:50-55 | each surviving row becomes one entry with its own label, time and sender and its count |
| Tags.PairEntry | pushup.py:70-73 | a row gives a name-value entry exactly when its message has a `#name#digits` match, and the entry holds the row's label and time with that match's name and count |
| Tags.NameValueEntries | pushup.py:60-75 | `extract_name_value_pairs` keeps at most one entry per row |
| Tags.NameValueEntriesAppend | pushup.py:60-75 | the pairs read from two stretches of the frame are those of the first followed by those of the second, so order is kept |
| Tags.NameValueEntriesMembers | pushup.py:60-75 | an entry is extracted exactly when some row's message gives it as its `#name#digits` match |
| Tags.EntriesRowByRow | pushup.py:47-55 | the single-tag entries and the name-value entries together are, with multiplicity, each row's single-tag entry and then its pair entry |
| Tags.Extracted | pushup.py:47-55 | the merged entries are, with multiplicity, every row's contributions: its single-tag entry under the sender and its pair entry under the tagged name |
| Tags.Frame.constructor | wa_parser.py:32 | the frame has one row per record, labelled 0, 1, ... and so in label order, with the message in the `Message` column; an empty list of records gives a frame without columns |
| Tags.ExtractHashtags | pushup.py:36-57 | on a frame with a `Message` column and rows in label order, the caller's frame gets its column renamed to `Pushups` and keeps only the rows with a single tag, each holding its count; the result merges those with the name-value entries, in label order |
| Tags.Merge | pushup.py:55 | concatenating and sorting loses and invents no entries (the multiset is the union) |
| Tags.MergeSorted | pushup.py:55 | merging two lists ordered by row label gives a list ordered by row label |
| Tags.ExtractedInOrder | pushup.py:55 | the entries of a frame in row order come out ordered by row label, and they are exactly the single-tag and name-value entries |
| Tags.ExtractedOneRow | pushup.py:47-55 | one message yields its single-tag entry, if any, followed by its name-value entry, if any |
| Tables.EmptyGroupSumsToZero | pushup.py:22-24 | a (day, name) pair without entries sums to 0, the value `fillna` puts there |
| Tables.DayKeys | pushup.py:22-23 | the row labels are the days that have entries, strictly ascending |
| Tables.NameKeys | pushup.py:22-23 | the column labels are the names that have entries, strictly ascending in string order |
| Tables.Unstack | pushup.py:22-23 | a (day, name) cell is present exactly when some entry falls on that day under that name, and then it holds that group's total |
| Tables.FillNa | pushup.py:24 | every missing cell becomes 0 and every present cell keeps its value |
| Tables.Daily | pushup.py:22-25 | every (day, name) cell is the total of that day's entries for that name, 0 when there are none |
| Tables.DailyConserves | pushup.py:22-24 | each daily column sums to the total of all entries for its name |
| Tables.RenameColumns | pushup.py:89 | `rename(columns=m)` changes only the listed labels, to their display names; values, row labels, the order of columns and unlisted labels pass through |
| Tables.ReplaceNames | pushup.py:78-89 | the fixed anonymisation table applied to the column labels; values and row labels are kept, and no resulting label is itself a key of that table |
| Tables.ReplaceNamesIdempotent | pushup.py:87-89 | anonymising twice is the same as anonymising once |
| Tables.ReplaceNamesUnlisted | pushup.py:87-89 | a table without listed names is unchanged by anonymisation |
| Tables.Cumulative | pushup.py:29 | `cumsum()`: the table keeps its labels, and each cell is the sum of its column down to and including its row |
| Tables.CumulativeNonDecreasing | pushup.py:29 | running totals never decrease down a column |
| Tables.CumulativeDifferences | pushup.py:29 | each running total is the previous one plus the day's cell, so the daily table is recovered from differences |
| Tables.CumulativeIsSumUpTo | pushup.py:22-29 | the running total at a day is the total of that name's entries on that day or before |
| Tables.AnonymisedCumulative | pushup.py:27-29 | anonymising the labels before the cumulative sum leaves the running totals unchanged |
| Tables.Weekly | pushup.py:31 | one row per week from the first day's week to the last day's, labelled with its Sunday; each cell sums its column over that week's days, so a week without days is a row of zeros |
| Tables.WeeklyCoversEveryDay | pushup.py:31 | every daily row falls in one of the weekly rows |
| Tables.WeeklyConserves | pushup.py:31 | re-bucketing by week conserves every column total |
| Tables.AnonymisedWeeklyConserves | pushup.py:22-31 | each weekly column of the anonymised table sums to the total of all entries for its original name |
| Tables.AnonymisedTotals | pushup.py:22-31 | the anonymised daily table keeps the days and the number of names; its running totals are the entry totals up to each day and its weekly columns sum to each name's total |
| Tables.CountOverDays | pushup.py:11-33 | returns the anonymised daily table, its running totals and its weekly totals; the running totals are entry totals up to each day and the weekly columns sum to each name's total |
| Tables.NoEntriesNoTables | pushup.py:11-33 | no entries give tables without rows or columns |
| Tables.ArgMax | pushup.py:100 | `idxmax` picks a position holding the row's maximum, with every earlier value smaller, so ties go to the earliest column |
| Tables.ArgMaxUnique | pushup.py:100 | that position is the only one with both properties |
| Tables.Winner | pushup.py:100 | the label `idxmax` picks for a week is that of the first column holding the week's largest total |
| Tables.Winners | pushup.py:100 | each week's winner is one of the column labels, namely that of the first column holding that week's largest total |
| Tables.ValueCounts | pushup.py:100 | `value_counts` holds exactly the labels that occur, each with its number of occurrences |
| Tables.TallyTotal | pushup.py:100-103 | with distinct labels, the points of all labels add up to the number of winners |
| Tables.Tabulate | pushup.py:100-103 | laying `value_counts` out along the columns with `fillna(0)` gives each column its label's number of wins; with distinct labels the points sum to the number of winners |
| Tables.BoardPoints | pushup.py:100-103 | reading each label's count off `value_counts`, 0 when absent, gives its number of wins; with distinct labels and every winner a column, the points sum to the number of winners |
| Tables.CreateLeaderboard | pushup.py:92-105 | one standing per weekly column, in column order; its points are the weeks it won, 0 if none; with distinct labels the points sum to the number of weeks |

## Left out

- Plotting and HTML output (pushup.py:132-211) are presentation over plotly and are not modelled. The same goes for the `analyse_chatlog` glue and the `__main__` entry point.
- Opening the file and the diagnostic `print`s of `parse_chat_log` are not modelled. `ChatParser.ParseChatLog` takes the file's lines as a sequence.
- The stages do not line up as written, so each is modelled against its own contract rather than as the literal composition:
  - the parser's frame has `Datetime`/`Sender` columns on a default index;
  - `extract_hashtags` keeps the sender under `Sender` for single-tag rows;
  - `count_over_days` groups a time index together with a `Name` column.
  In the model, every entry carries its row's timestamp, and a single-tag entry is booked under its sender.
- Calendar.ParseDate: accepts only the fixed form with two-digit fields and single spaces. `strptime` also accepts one-digit fields and other runs of whitespace. The model covers the years 1969 to 2068, the range `%y` can name.
- TextUtil.IsDigit and TextUtil.IsWordChar: `\d` is read as the ASCII digits, and `\w` as ASCII letters, digits, underscore and the Latin-1 letters. Python's Unicode classes are wider.
- Counts are unbounded naturals. The int64/float64 columns of pandas are not modelled, nor the float a NaN turns a column into.
- A name-value tag without digits (`#Manu#`) has a NaN count. It is kept as `None` and adds 0 to every sum, but it still creates that name's row and column.
- Tags.Merge: for one row label, the single-tag entry is placed before the name-value entry. `sort_index` does not promise that order for equal labels.
- Tags.ExtractHashtags: only the default column names `['Name', 'Pushups']` are modelled.
- Tags.ExtractHashtags: requires a `Message` column. A log without kept lines gives a frame without columns, and the source then raises `KeyError` at `df['Message']` (pushup.py:70); the model leaves that call out rather than modelling the exception.
- Tags.ExtractHashtags: requires rows in label order, which every frame the constructor builds has. `sort_index` would also reorder a shuffled frame; the model does not cover one.
- Tables.Weekly: a week without days is a row of zeros, which is what an empty bin sums to from pandas 0.22 on. Older pandas gives NaN there, and `idxmax` then awards that week to nobody; that behaviour is not modelled.
- Days and weeks are day numbers (day 0 is Monday 29 December 1969), not pandas timestamps. Weekly row labels are the day numbers of the Sundays that close each week.
- Tables.CreateLeaderboard: the points add up to the number of weeks only when the column labels are distinct. Anonymisation can give two columns the same label, for example when both `Manu` and `Manuel` occur. Each of their wins is then counted for both columns, and the model states exactly that.
- Tables.CreateLeaderboard: requires at least one column when there are weeks. `idxmax` raises on a row without columns, and that error path is not modelled.
- The anonymisation map is the fixed table at pushup.py:87-88. It is not a parameter.
- The daily table has rows only for the days that have entries, not for every date between the first and the last.
- The daily table has columns only for names that have entries. A sender who never reports a count gets no column and no leaderboard row.
- The leaderboard keeps the weekly table's column order, and `winning_point` is not used by `create_leaderboard`.
