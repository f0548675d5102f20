# Doxygen warning log to CSV, modelled in Dafny

`doxygen_log_parser.py` reads a Doxygen warning log line by line. From every
line of the form `path:line: warning: message` it extracts a record of
three text fields, `file`, `line` and `message`. It writes the records to a
CSV file with the header `file,line,message` and returns how many records it
wrote.

The model has five parts:

- `Text` holds Python's `str.strip()` and the character classes of the
  pattern. One whitespace predicate, `IsSpace`, serves both `strip` and `\s`.
  It is Python's full `str.isspace` set, so a Unicode space such as U+00A0
  is stripped and matched by `\s`.
- `WarningParser` holds `parse_doxygen_warning`. The pattern
  `^(.*):(\d+):\s*warning:\s*(.*)$` is written out as an explicit matcher.
  - `TailAt` matches everything after group 1 from one position. It goes
    piece by piece: `DigitsAt`, `KeywordAt` and `MessageAt` each match one
    stage of the pattern after a greedy run has stopped.
  - `Search` tries the ends of group 1 from the longest to the shortest, as
    the regular-expression engine backtracks.
  - `Parse` strips the line and runs the match.
  - Lemmas characterise the result without the matcher. A record comes back
    exactly when the stripped line reads `F:D<W1>warning:<W2>M`, and then
    the record is the reading with the longest `F`.
- `Csv` holds the rows that `csv.DictWriter` writes: the header and then one
  row per record, in order.
  - It encodes those rows in the layout of Python's default "excel" dialect.
  - It also gives a reader for that layout, and proves that reading the
    written text gives the records back.
- `LogProcessor` holds `process_warnings_file` without its file handling.
  - A method runs the loop that collects the records. It is proved against
    a generic filter-map.
  - The count it returns is proved to be the number of lines that yield a
    record.
- `Examples` states what the parser returns for a few concrete lines,
  including the greedy case where the message itself reads like a warning.

Details that follow the code:

- A line may hold any characters, including the line feed that Python's file
  iteration leaves at its end. `strip` removes that line feed.
- `.` matches any character except a line feed.
- `$` is modelled as the end of the text. Python's `$` also matches just
  before a final line feed, but a stripped line never ends with one
  (`WarningParser.StrippedHasNoFinalNewline`).
- The pattern puts no whitespace between `warning` and its colon. The
  model follows the code here, so `a:1: warning : x` yields no record.
- `if result:` tests a dictionary with three keys, which is always true. The
  loop therefore keeps every result that is not `None`.

## Model

| member | source | states |
|---|---|---|
| Text.IsSpace | doxygen_log_parser.py:10-11 | The one whitespace class shared by `strip()` and `\s`: Python's `str.isspace` set. It has no contract; StripSurrounded, StrippedBounds, TailAtPieces and TailAtFromCuts state what it does in both places. |
| Text.IsDigit | doxygen_log_parser.py:10 | The class `\d` of group 2, restricted to `0`-`9` (see "## Left out"). It has no contract; Parse states that group 2 is a non-empty run of IsDigit, and TailAtPieces and TailAtFromCuts state that the run is maximal. |
| Text.NotNewline | doxygen_log_parser.py:10 | The pattern's `.`: any character but a line feed. It has no contract; Parse states that file and message are runs of NotNewline, and MatchGroups and TailAtPieces state where each run lies in the line. |
| Text.Span | doxygen_log_parser.py:10 | The end of what a greedy `\d+`, `\s*` or `.*` consumes from a position lies between that position and the end of the text. |
| Text.SpanIsRun | doxygen_log_parser.py:10 | Every character before the end Span finds is in the class, and the character at it, if any, is not: the run is the longest one. |
| Text.SpanUnique | doxygen_log_parser.py:10 | Any run that ends at a character outside the class, or at the end of the text, is the one Span finds. |
| Text.TrimStart | doxygen_log_parser.py:11 | The result is a suffix of the input. Everything removed is whitespace, and the result does not begin with whitespace. |
| Text.TrimEnd | doxygen_log_parser.py:11 | The result is a prefix of the input. Everything removed is whitespace, and the result does not end with whitespace. |
| Text.Strip | doxygen_log_parser.py:11 | `line.strip()` neither begins nor ends with whitespace. |
| Text.StripSurrounded | doxygen_log_parser.py:11 | `line.strip()` removes only whitespace, and only from the two ends: its result stands in the line with nothing but whitespace before and after it. |
| Text.StrippedBounds | doxygen_log_parser.py:11 | A stripped text peeled from a line is empty exactly when the line is all whitespace. Otherwise it runs from the first non-whitespace character to the last one. |
| Text.StripUnique | doxygen_log_parser.py:11 | Any text that is the input with whitespace peeled off both ends, and that neither begins nor ends with whitespace, is what strip returns. |
| Text.StripIdempotent | doxygen_log_parser.py:11 | Stripping twice gives the same as stripping once. |
| Text.StripPadding | doxygen_log_parser.py:11 | Whitespace added before and after a text does not change what it strips to. |
| WarningParser.TailAt | doxygen_log_parser.py:10 | The part of the pattern after group 1, `:(\d+):\s*warning:\s*(.*)$`, matched from one position. It has no contract; TailAtPieces and TailAtFromCuts characterise it in both directions. |
| WarningParser.DigitsAt | doxygen_log_parser.py:10 | The stage `(\d+):\s*` of TailAt after the greedy digit run. It has no contract; TailAtUnfold, TailAtPieces and TailAtFromCuts characterise it. |
| WarningParser.KeywordAt | doxygen_log_parser.py:10 | The stage `warning:\s*` of TailAt after the first whitespace run. It has no contract; TailAtPieces and TailAtFromCuts characterise it. |
| WarningParser.MessageAt | doxygen_log_parser.py:10 | The stage `(.*)$` of TailAt after the second whitespace run. It has no contract; TailAtPieces and TailAtFromCuts characterise it. |
| WarningParser.Search | doxygen_log_parser.py:10-11 | Backtracking of group 1 from position `k` down to 0. A result's file is a prefix of the text, and the rest of the pattern matches after it. Every longer end up to `k` fails to match, and when nothing is found, every end fails. |
| WarningParser.Match | doxygen_log_parser.py:11 | `re.match(pattern, text)` on the stripped line. It has no contract; it is characterised by MatchComplete, MatchFields, MatchGroups and MatchIsLongestFile. |
| WarningParser.Parse | doxygen_log_parser.py:6-19 | The `line` field is a non-empty run of decimal digits, kept as text. Neither `file` nor `message` holds a line feed. The message neither begins nor ends with whitespace. |
| WarningParser.StrippedHasNoFinalNewline | doxygen_log_parser.py:10-11 | A stripped line never ends with a line feed, so the `$` of the pattern can only match at the end of the text. |
| WarningParser.TailAtPieces | doxygen_log_parser.py:10 | A successful match of `:(\d+):\s*warning:\s*(.*)$` at a position fixes the cuts: a colon, the digit group, a colon, a whitespace run, `warning:`, a maximal whitespace run and a message without a line feed. |
| WarningParser.TailAtRebuilds | doxygen_log_parser.py:10-18 | The text before the match and the two groups TailAt captures, glued back with the pattern's literals and some whitespace, give the whole text. The message ends the text and does not begin with whitespace. |
| WarningParser.TailAtFromCuts | doxygen_log_parser.py:10 | Conversely, a colon, a digit run, a colon, whitespace, `warning:`, whitespace and a rest without a line feed make the match after group 1 succeed. It captures the digit run, and the message starts where the whitespace after `warning:` ends. |
| WarningParser.ShapeTail | doxygen_log_parser.py:10 | Every text of the pattern's shape matches after its file. The digit group is the same, and the message is the shape's message less a run of leading whitespace, which is empty when that message begins with no whitespace. |
| WarningParser.MatchComplete | doxygen_log_parser.py:10-11 | `re.match` succeeds on every text of the pattern's shape, with a file at least as long as that shape's file. |
| WarningParser.MatchGroups | doxygen_log_parser.py:10-18 | The file of a match is a prefix of the text without a line feed, and the rest of the pattern matches right after it, capturing the line and the message. |
| WarningParser.MatchFields | doxygen_log_parser.py:10-18 | A match yields the groups of a reading of the text in the pattern's shape. Its message does not begin with whitespace and is a suffix of the text. |
| WarningParser.MatchIsLongestFile | doxygen_log_parser.py:10-15 | No reading of the text has a longer file than the match. A reading with the same file length whose message has no leading whitespace is exactly the record returned. |
| WarningParser.ParseExactlyOnShape | doxygen_log_parser.py:10-19 | A record is returned if and only if the stripped line has the shape `F:D<W1>warning:<W2>M` (D non-empty digits, W1 and W2 whitespace, no line feed in F or M). The record's fields are F, D and M of such a reading, which is the reconstruction property. |
| WarningParser.ParseIsGreedy | doxygen_log_parser.py:10-17 | Greedy file capture for a whole log line: no reading of the stripped line has a longer file than the record. The record is the longest-file reading whose message begins with no whitespace. |
| WarningParser.FileEndsBeforeColonDigit | doxygen_log_parser.py:10-15 | The record's file is followed in the stripped line by a colon and a digit. |
| WarningParser.ParseNeedsKeyword | doxygen_log_parser.py:10-18 | Every line that yields a record contains the case-sensitive text `warning:`. |
| WarningParser.NoKeywordNoWarning | doxygen_log_parser.py:10-19 | A line that does not contain `warning:` yields `None`. |
| WarningParser.ParseIgnoresPadding | doxygen_log_parser.py:11 | Whitespace around a line does not change its result, and `parse(strip(s)) == parse(s)`. |
| Csv.Row | doxygen_log_parser.py:33-35 | What DictWriter does with one record dict: its values in fieldnames order. It has no contract; TableRows states that record j is row j + 1, and CsvRoundTrip reads the records back through it. |
| Csv.Table | doxygen_log_parser.py:33-35 | The rows `writeheader()` and `writerows(warnings)` write. It has no contract; TableRows states its shape. |
| Csv.NeedsQuotes | doxygen_log_parser.py:33-35 | The minimal-quoting test: a field is quoted when it holds `,`, `"`, CR or LF. It has no contract; QuotedFieldRoundTrip and BareFieldRoundTrip state that both of its outcomes read back. |
| Csv.DoubleQuotes | doxygen_log_parser.py:33-35 | Doubling each `"` of a quoted field. It has no contract; DoubleQuotesRoundTrip proves it is undone by the reader. |
| Csv.EncodeField | doxygen_log_parser.py:33-35 | One field as written: quoted exactly when it holds a special character. It has no contract; FieldRoundTrip, QuotedFieldRoundTrip and BareFieldRoundTrip prove it reads back. |
| Csv.EncodeFields | doxygen_log_parser.py:33-35 | The fields of a row joined by `,`. It has no contract; FieldsRoundTrip proves it reads back. |
| Csv.EncodeTable | doxygen_log_parser.py:33-35 | Each row followed by CR LF. It has no contract; TableRoundTrip proves it reads back. |
| Csv.CsvText | doxygen_log_parser.py:32-35 | The text of the CSV file written. It has no contract; HeaderOnlyText and CsvRoundTrip characterise it. |
| Csv.DecodeQuoted | doxygen_log_parser.py:33-35 | Reading a quoted field consumes at least one character. |
| Csv.DoubleQuotesRoundTrip | doxygen_log_parser.py:33-35 | The body of a quoted field, with its quotes doubled and a closing quote, reads back as the original field. |
| Csv.QuotedFieldRoundTrip | doxygen_log_parser.py:33-35 | A quoted field, with its quotes doubled, reads back as the original field when no quote follows it. |
| Csv.BareFieldRoundTrip | doxygen_log_parser.py:33-35 | A field with no special character, written as it is, reads back as itself whenever a `,`, a CR or the end of the text follows it. |
| Csv.FieldRoundTrip | doxygen_log_parser.py:33-35 | Every field, quoted or not, reads back as itself whenever a `,`, a CR or the end of the text follows it. |
| Csv.FieldsRoundTrip | doxygen_log_parser.py:33-35 | A row and its terminator read back as the same fields, whatever follows. |
| Csv.TableRoundTrip | doxygen_log_parser.py:33-35 | A table of non-empty rows reads back as the same rows. |
| Csv.HeaderOnlyText | doxygen_log_parser.py:33-34 | With no records, the text written is the header `file,line,message` and the row terminator. |
| Csv.TableRows | doxygen_log_parser.py:33-35 | The rows written are the header followed by one row per record, in order, with the fields in header order. |
| Csv.CsvRoundTrip | doxygen_log_parser.py:32-35 | The written text reads back as the header `file,line,message` followed by one row per record, in order. Reading it as records gives the records back field for field. |
| LogProcessor.FilterMap | doxygen_log_parser.py:26-29 | The loop's way of keeping each result that is not `None`, in order. It has no contract; FilterMapAppend, FilterMapSelectsInOrder and FilterMapCount characterise it. |
| LogProcessor.Collect | doxygen_log_parser.py:23-29 | The `warnings` list built from the lines. It has no contract; it is FilterMap with Parse, and ProcessWarningsFile's loop invariant ties the list to it. |
| LogProcessor.FilterMapAppend | doxygen_log_parser.py:26-29 | Each line is handled on its own: collecting from two runs of lines and joining the results equals collecting from the joined lines. |
| LogProcessor.SelectsExtendHit | doxygen_log_parser.py:27-29 | Appending a line that yields a record extends the in-order selection of records by that record. |
| LogProcessor.SelectsExtendMiss | doxygen_log_parser.py:27-28 | Appending a line that yields `None` leaves the selection as it is. |
| LogProcessor.FilterMapSelectsInOrder | doxygen_log_parser.py:23-29 | The collected records are exactly the non-`None` parse results, at strictly increasing line positions that cover every line yielding a record. |
| LogProcessor.FilterMapCount | doxygen_log_parser.py:29-37 | The number of collected records equals the number of lines that yield one. |
| LogProcessor.ProcessWarningsFile | doxygen_log_parser.py:21-37 | The loop's list is the filter-map of `parse_doxygen_warning` over the lines read so far. The CSV text written is that of the collected records. The returned count is their number, which is the number of input lines that yield a record. |
| LogProcessor.EmptyLogWritesHeaderOnly | doxygen_log_parser.py:23-37 | An empty log collects nothing and returns 0, and the file holds only `file,line,message` and the row terminator. |
| Examples.OnlyReading | doxygen_log_parser.py:10-18 | Take a line that neither begins nor ends with whitespace, has the pattern's shape with a message that begins with no whitespace, and has no colon and digit after the file. That line yields exactly the record of that reading. |
| Examples.UnusedVariable | doxygen_log_parser.py:8-18 | `src/foo.cpp:42: warning: unused variable 'x'` yields file `src/foo.cpp`, line `42` and message `unused variable 'x'`. |
| Examples.EmptyMessage | doxygen_log_parser.py:10-17 | `a:1: warning:` yields a record with an empty message. |
| Examples.EmptyFile | doxygen_log_parser.py:10-15 | `:3: warning: x` yields a record with an empty file. |
| Examples.IndentAndNewlineIgnored | doxygen_log_parser.py:11-27 | Indenting a line by two spaces and ending it with the line feed left by file iteration do not change its result. |
| Examples.PaddedLine | doxygen_log_parser.py:11 | `  :3: warning: x` followed by a line feed yields the same record as the bare line. |
| Examples.GreedyFile | doxygen_log_parser.py:10-15 | `a.c:1: warning: see b.c:2: warning: x` yields file `a.c:1: warning: see b.c`, line `2` and message `x`. The file runs to the last place where the rest of the pattern matches. |
| Examples.NoteIsSkipped | doxygen_log_parser.py:19 | `note: this is just a note` yields `None`. |

## Left out

- The command-line entry point `main` is not modelled (doxygen_log_parser.py:39-60). It covers argument parsing, the default output path, the existence check on the input file, the messages printed, the catch-all `except` and the exit codes. These are I/O around the core with no logic of their own.
- Opening, reading, writing and closing files is not modelled (doxygen_log_parser.py:25, 32). The input is the sequence of lines that text-mode iteration yields, and the output file is returned as its text.
- Text-mode newline translation on reading, and the text encodings, are not modelled. Lines are sequences of Unicode characters.
- Text.IsDigit: `\d` is restricted to the ASCII digits `0`-`9`. Python's `\d` on `str` also matches every other Unicode decimal digit.
- Csv.CsvText: the byte layout of `csv.DictWriter` belongs to Python's standard library and is assumed, not derived. The assumed layout is the default "excel" dialect: `,` between fields and CR LF after each row. A field is quoted with `"` exactly when it holds `,`, `"`, CR or LF, and its quotes are doubled (RFC 4180, section 2, rules 6 and 7). The writer's special quoting of a row made of one empty field never arises, because every row here has three fields.
