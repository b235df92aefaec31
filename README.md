# whatsapp-archive: the message parser, in Dafny

whatsapp-archive turns a WhatsApp chat export into an HTML page. This project
models the part of `whatsapp_archive.py` that reads the export. It covers:

- the line shapes: a date, a time, a separator, an author and a body, or the
  same without an author on a conversation's first line;
- `ParseLine`, which reads one line, trying the authored shape before the
  authorless one and reading the timestamp day first;
- `IdentifyMessages`, which cuts the lines into messages. A line that matches
  a shape opens a message and closes the one before it. A line that matches
  neither continues the open message as a newline plus the stripped line. A
  first line that matches neither shape raises `Error`. Each message gets an
  attachment field, with one rule for closed messages and another for the
  last one;
- `TemplateData`, which arranges the messages for the page template: runs of
  consecutive messages by one user, the dates that open runs with repeats of
  the previous date dropped, and those dates listed by month.

Modules, in dependency order:

- `Wrappers`: `Option` and `Result`.
- `Text`: the string operations the program uses. These are `str.strip()`,
  `in` on strings, `split("(")[0]`, the `[1:-1]` slice,
  `replace("\\", "/")` and `os.path.basename` (its POSIX form).
- `Shapes`: a reading of a line (`Parts`), the text it reads (`Render`), and
  which readings the patterns allow (`Valid`).
- `Patterns`: the recognizer `Match`. It is Python's `re.match` for the two
  line patterns, including its backtracking order. It is proved sound and
  complete against `Shapes`, and shown to return the first reading in the
  engine's order.
- `Timestamps`: `dateutil.parser.parse(date + " " + time, dayfirst=True)` for
  the date and time groups the patterns capture.
- `Parser`: `ParseLine`.
- `Segmenter`: `IdentifyMessages`, as an imperative method over the loop of
  the source. It is specified by a line-by-line function `Scan`, which is
  then proved equal to a message-at-a-time definition `Segments`.
- `Grouping`: `itertools.groupby` as a function with its characterisation,
  and `TemplateData` as an imperative method over the three loops of the
  source.

Points where the behaviour of the code is easy to misread:

- A continuation line is stripped on both sides (`line.strip()`,
  whatsapp_archive.py:112).
- The attachment field is computed once, from the whole body, when the
  message is closed (102-105) or emitted last (114-118).
- The attachment name is `body.split("(")[0][1:-1]` (103, 116).
- A closed message checks for both "(archivo adjunto)" and "(attached
  file)" and records the prefixed, slash-normalised path (`ClosedRef`). The
  last message checks only for "(archivo adjunto)", keeps the bare name, and
  is a 5-tuple with the path prefix (115-118; `FinalRef`,
  `AttachmentRules`).
- Besides the first-line `Error` (108-111), a `ValueError` from dateutil on
  any line propagates out of `IdentifyMessages` (`Fault.BadTimestamp`).

## Model

| member | source | states |
|---|---|---|
| Text.Contains | whatsapp_archive.py:102 | `t in s` holds exactly when `t` occurs in `s` at some position |
| Text.BeforeParen | whatsapp_archive.py:103 | `split("(")[0]` is a prefix of the body with no `(`, and it stops at the first `(` or at the end |
| Text.InnerSlice | whatsapp_archive.py:103 | `[1:-1]` is empty below two characters, otherwise it drops exactly the first and last character |
| Text.Slashes | whatsapp_archive.py:103 | `replace("\\", "/")` keeps the length and turns each backslash, and nothing else, into a slash |
| Text.SlashesOfConcat | whatsapp_archive.py:103 | the replacement distributes over concatenation and leaves no backslash |
| Text.StripTrims | whatsapp_archive.py:112 | `strip()` leaves a substring of the line with only whitespace around it, and the result neither starts nor ends with whitespace |
| Text.BasenameSuffix | whatsapp_archive.py:128 | POSIX `os.path.basename` is the longest slash-free suffix: all of the path or what follows its last slash |
| Patterns.MatchSound | whatsapp_archive.py:41-55 | every answer of the recognizer is a reading the pattern allows (the same mark twice in the date, digits and colons in the clock, a name without `:`, a body without newline) and it spans the whole line |
| Patterns.MatchIsFirst | whatsapp_archive.py:41-55 | for every reading of a line, the recognizer answers with it or with a reading the backtracking engine tries earlier |
| Patterns.MatchReadable | whatsapp_archive.py:71 | `re.match` succeeds exactly on the lines that have a reading in the shape |
| Patterns.MatchFirst | whatsapp_archive.py:71 | the answer is the first reading in the engine's order (longer clock, then ` AM`/` PM` before none, then ` - `, `: `, ` `) |
| Patterns.FirstOfUnique | whatsapp_archive.py:71 | a line has at most one first reading, so the captured groups are determined |
| Patterns.MatchNeedsStart | whatsapp_archive.py:41-42 | a line that is empty or starts with neither a digit nor `[` (such as `''` or `'hissing cat'`) matches neither shape |
| Patterns.StampGroups | whatsapp_archive.py:41-42 | when a reading's clock is not followed by a digit or colon, the engine captures exactly that reading's date and clock, whatever it backtracks over after them |
| Patterns.BracketedStamp | whatsapp_archive.py:41-42 | `[02-12-18 22:55:45]` at the start of a line captures date `02-12-18` and time `22:55:45` |
| Timestamps.Resolve | whatsapp_archive.py:73-74 | day-first resolution only assigns the three written numbers to year, month and day (a permutation of them) |
| Timestamps.ConvertYear | whatsapp_archive.py:73-74 | a year of at most two digits goes to the century within fifty years of the current year and keeps its last two digits; any other year is kept |
| Timestamps.Hour | whatsapp_archive.py:73-74 | with AM/PM the hour must be at most 12, the result keeps it modulo 12 and is 12 or later exactly for PM; without them the hour is kept |
| Timestamps.ClockFieldsSound | whatsapp_archive.py:73-74 | the hour, minute and second fields read from a clock are digit runs that give the clock back |
| Timestamps.ClockFieldsComplete | whatsapp_archive.py:73-74 | every `H:M` or `H:M:S` clock is read back into its fields |
| Timestamps.Combine | whatsapp_archive.py:73-74 | a timestamp, when there is one, is a real date and time |
| Timestamps.FromFields | whatsapp_archive.py:73-74 | the same for a date and clock fields |
| Timestamps.CombineFields | whatsapp_archive.py:73-74 | the timestamp of an `H:M(:S)` clock is the one of its fields |
| Timestamps.DayFirst | whatsapp_archive.py:73-74 | a two-digit date whose first number can be a day and whose day-first reading is possible reads day, month, year, with the year within fifty years of the current one |
| Timestamps.DayFirstLongYear | whatsapp_archive.py:73-74 | a date with a year of more than two digits written last reads day, month, year under the same day-first condition, and keeps the year as written |
| Timestamps.MonthFirstFallback | whatsapp_archive.py:73-74 | only when the second number cannot be a month does a two-digit date read month, day, year |
| Timestamps.YearFirst | whatsapp_archive.py:73-74 | a four-digit first number is the year; the third number is the month whenever it can be one |
| Timestamps.FromFieldsShort | whatsapp_archive.py:73-74 | for two-digit dates and plain clocks, a timestamp exists exactly when the resolved fields form a real date and time |
| Timestamps.DayMonthYear | whatsapp_archive.py:73-74 | `13/01/18 01:23` is 13 January 2018, 01:23 |
| Timestamps.DayMonthYearSeconds | whatsapp_archive.py:73-74 | `02-12-18 22:55:45` is 2 December 2018, 22:55:45 |
| Timestamps.YearMonthDayMeridiem | whatsapp_archive.py:73-74 | `2016-06-27 8:04:08 AM` is 27 June 2016, 08:04:08 |
| Timestamps.DayMonthLongYear | whatsapp_archive.py:73-74 | `13/01/2018 01:23` is 13 January 2018, 01:23 |
| Timestamps.YearDayMonth | whatsapp_archive.py:73-74 | `2016-06-05 8:04` is read year, day, month (5 June becomes 6 May) |
| Parser.ParseLineNone | whatsapp_archive.py:69-82 | ParseLine returns None exactly for lines neither shape reads |
| Parser.ParseLineFails | whatsapp_archive.py:69-82 | ParseLine raises exactly when the first reading of the shape it settles on has no timestamp, and only a timestamp error |
| Parser.ParseLineYields | whatsapp_archive.py:69-82 | otherwise it returns the timestamp, author and body of the first authored reading when the line has one, and of the first authorless reading with author "nobody" only when it has none |
| Parser.AuthoredFirst | whatsapp_archive.py:71-75 | a line with an authored reading is never read as authorless |
| Segmenter.ClosedRef | whatsapp_archive.py:102-105 | a closed message has a file exactly when its body mentions "(archivo adjunto)" or "(attached file)", and then its path is the normalised prefix, a slash and the normalised name, with no backslash |
| Segmenter.SlashedPath | whatsapp_archive.py:103 | normalising `prefix + "\\" + name` gives the two normalised halves joined by a slash |
| Segmenter.FinalRef | whatsapp_archive.py:114-118 | the last message has a file exactly when its body mentions "(archivo adjunto)", and then it records the bare `split("(")[0][1:-1]` name, without prefix or backslash replacement |
| Segmenter.AttachmentRules | whatsapp_archive.py:102-118 | where the last message has a file, a closed one with that body has its prefixed path; an "(attached file)"-only body has a file when closed but none when last |
| Segmenter.Emit | whatsapp_archive.py:98-118 | one message per segment, every one a closed 4-tuple except the last, which is a 5-tuple with its own attachment rule and the prefix |
| Segmenter.ScanStops | whatsapp_archive.py:95-111 | once the loop has raised, later lines change nothing |
| Segmenter.FirstLineError | whatsapp_archive.py:107-111 | the loop raises Error exactly when the first line matches neither shape, and for that line; no later line can |
| Segmenter.ScanRaises | whatsapp_archive.py:95-111 | the loop raises exactly when the first line matches neither shape or some line's parse raised |
| Segmenter.ParseAllFaults | whatsapp_archive.py:69-82 | ParseLine raises nothing but timestamp errors |
| Segmenter.SegmentsMore | whatsapp_archive.py:95-112 | one more turn of the loop extends the message-at-a-time segmentation by that line |
| Segmenter.ScanSegments | whatsapp_archive.py:95-112 | when nothing raises, the loop builds each matching line's message, with the body continued by `'\n' + strip(l)` for each following unmatched line |
| Segmenter.SegmentsCount | whatsapp_archive.py:95-112 | there is one message per matching line |
| Segmenter.MessagesRaise | whatsapp_archive.py:85-119 | IdentifyMessages raises Error exactly when the first line matches neither shape, and raises at all exactly then or when some line's timestamp cannot be read; no lines give no messages |
| Segmenter.MessagesSegments | whatsapp_archive.py:85-119 | when IdentifyMessages returns, it returns one message per matching line, in order, each with its continued body, all closed but the last |
| Segmenter.IdentifyMessages | whatsapp_archive.py:85-119 | the loop returns or raises exactly what the line-by-line specification does |
| Grouping.GroupBySound | whatsapp_archive.py:129 | `groupby` splits its input, in order, into non-empty runs of one key, with different keys in neighbouring runs |
| Grouping.GroupingUnique | whatsapp_archive.py:129 | at most one split has those properties |
| Grouping.GroupByLast | whatsapp_archive.py:129 | one more element joins the last run when it has the key of the element before it, and opens a new run otherwise |
| Grouping.RunsSound | whatsapp_archive.py:129-131 | `by_user` flattens back to the messages; each run is non-empty, of one user, and dated by its first message; neighbouring runs have different users |
| Grouping.RunsUnique | whatsapp_archive.py:129-131 | any runs with those properties are `by_user` |
| Grouping.DedupSound | whatsapp_archive.py:132-137 | the dates loop leaves no date next to an equal one, keeps every date that occurs, and keeps the last |
| Grouping.DedupHeads | whatsapp_archive.py:132-137 | it keeps exactly the first date of each run of equal dates |
| Grouping.DedupKeeps | whatsapp_archive.py:132-137 | dates without adjacent repeats pass through unchanged |
| Grouping.Entries | whatsapp_archive.py:142 | each date of a month comes with its day of the month |
| Grouping.MonthsSound | whatsapp_archive.py:138-142 | `by_month` flattens back to the dates; each month is non-empty, holds only dates of its year and month, each with its day; neighbouring months differ |
| Grouping.TemplateData | whatsapp_archive.py:122-144 | the three loops build exactly the runs, the de-duplicated run dates by month, the base name and the full path |

## Left out

- `FormatHTML` (whatsapp_archive.py:147-264) and `main` (267-279): HTML rendering through jinja2, argument parsing and file I/O. The lines are a `seq<string>` parameter.
- `_MakeMatchers` and the pattern strings: the patterns are modelled as the set of readings they allow (`Shapes.Valid`) and a recognizer for them, not as a general regular-expression engine.
- The text of the `Error` raised for an unparsable first line: it carries only the line (`Fault.FirstLine`), not the `repr` of the patterns.
- Python's `\d` matches every Unicode decimal digit; the model's `IsDigit` is ASCII `0`-`9` only.
- Timestamps.Combine: dateutil is modelled for the clocks `H:M` and `H:M:S` with optional AM/PM only. A bare hour, packed digit forms (6, 8, 12 or 14 digits) and other inputs dateutil may accept are treated as a `ValueError` (`Fault.BadTimestamp`). A date with more than one number above two digits is a `ValueError` in dateutil too.
- Text.Basename: only POSIX `posixpath.basename` is modelled, which splits at `/`; the Windows rules of `ntpath.basename` (splitting also at `\\` and after a drive colon) are not.
- The current year dateutil uses to widen two-digit years is a parameter `thisYear`; the clock is not read.
- The default `os=os.getcwd()` of `IdentifyMessages` is the parameter `prefix`; the working directory is not read.
- `datetime.date()` is the value `Grouping.Day`; `by_user` and `by_month` are sequences of datatypes rather than tuples and a dictionary.
- whatsapp_archive_test.py is not part of this model. Its tuple shapes predate the current source, and its example timestamps appear above as lemmas.
