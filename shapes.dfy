/**
  The line shapes of whatsapp_archive.py (TIME_RE, SEPARATOR_RE, NAME_RE and
  the pattern builders), as the set of ways a line can be read.

  The authored shape (`_MakeLinePattern`) is
      \[? (?P<date>D-D-D|D\.D\.D|D/D/D) ,? ' ' (?P<time>[\d:]+( [AP]M)?) \]?
      ( - |: | ) (?P<name>[^:]+) ': ' (?P<body>.*$)
  and the authorless shape (`_MakeFirstLinePattern`) is the same without the
  name and its ": ". `Parts` is one way of reading a line in these shapes,
  and `Render` gives back the text it reads.
 */
module Shapes {
  import opened Wrappers
  import opened Text

  /** The date group: three digit runs separated twice by the same mark. */
  datatype Date = Date(first: string, mark: char, second: string, third: string)

  /** The alternatives of SEPARATOR_RE, in the order they are tried. */
  datatype Sep = Dash | ColonSpace | Space

  /** What follows the separator: the name and its ": " (authored shape only), the body, and a final newline. */
  datatype Rest = Rest(name: Option<string>, body: string, newline: bool)

  /** What follows the digits and colons of the time group. */
  datatype After = After(meridiem: string, close: bool, sep: Sep, rest: Rest)

  /** One reading of a line. The time group is `clock + after.meridiem`. */
  datatype Parts = Parts(open: bool, date: Date, comma: bool, clock: string, after: After)

  // The text of a reading.

  function Flag(b: bool, c: char): string {
    if b then [c] else []
  }

  /** The text of the date followed by `y`. */
  function DateThen(d: Date, y: string): string {
    d.first + ([d.mark] + (d.second + ([d.mark] + (d.third + y))))
  }

  function SepText(sep: Sep): string {
    match sep
    case Dash => " - "
    case ColonSpace => ": "
    case Space => " "
  }

  function SepRank(sep: Sep): nat {
    match sep
    case Dash => 0
    case ColonSpace => 1
    case Space => 2
  }

  function BodyText(r: Rest): string {
    r.body + Flag(r.newline, '\n')
  }

  function RestText(r: Rest): string {
    match r.name
    case Some(name) => name + (": " + BodyText(r))
    case None => BodyText(r)
  }

  function TailText(a: After): string {
    Flag(a.close, ']') + (SepText(a.sep) + RestText(a.rest))
  }

  function AfterText(a: After): string {
    a.meridiem + TailText(a)
  }

  /** The text a reading reads: the whole line, since `.*$` runs to the end (or to a final newline). */
  function Render(p: Parts): string {
    Flag(p.open, '[') + DateThen(p.date, Flag(p.comma, ',') + ([' '] + (p.clock + AfterText(p.after))))
  }

  // Which readings the shapes allow, and in which order the engine tries them.

  predicate DigitRun(s: string) {
    |s| > 0 && AllIn(s, Digits)
  }

  /** The separators `_MakeDatePattern` allows between the date fields. */
  predicate IsMark(c: char) {
    c == '-' || c == '.' || c == '/'
  }

  /** `_MakeDatePattern`: `[\d]+ sep [\d]+ sep [\d]+` for sep in '-', '.', '/'. */
  predicate ValidDate(d: Date) {
    DigitRun(d.first) && IsMark(d.mark) && DigitRun(d.second) && DigitRun(d.third)
  }

  /** NAME_RE `[^:]+` (authored shape only) and the body `.*`, which stops at any newline. */
  predicate ValidRest(r: Rest, authored: bool) {
    && r.name.Some? == authored
    && (r.name.Some? ==> |r.name.value| > 0 && AllIn(r.name.value, NotColon))
    && AllIn(r.body, NotNewline)
  }

  /** `( [AP]M)`. */
  predicate IsMeridiem(m: string) {
    m == " AM" || m == " PM"
  }

  predicate ValidAfter(a: After, authored: bool) {
    (a.meridiem == "" || IsMeridiem(a.meridiem)) && ValidRest(a.rest, authored)
  }

  /** TIME_RE's `[\d:]+` is non-empty; the rest as above. */
  predicate Valid(p: Parts, authored: bool) {
    ValidDate(p.date) && |p.clock| > 0 && AllIn(p.clock, ClockChars) && ValidAfter(p.after, authored)
  }

  /**
    Where a reading of what follows the clock comes in the order the engine
    tries them: ` [AP]M` before leaving it out, then the separators in order.
   */
  function AfterRank(a: After): nat {
    (if a.meridiem != "" then 0 else 3) + SepRank(a.sep)
  }

  /** For the same clock, the engine tries `a` before `b`. */
  predicate AfterEarlier(a: After, b: After) {
    AfterRank(a) < AfterRank(b)
  }

  /** Greedy `[\d:]+` tries longer clocks first. (All other groups are fixed once these choices are.) */
  predicate Earlier(p: Parts, q: Parts) {
    |p.clock| > |q.clock| || (|p.clock| == |q.clock| && AfterEarlier(p.after, q.after))
  }
}
