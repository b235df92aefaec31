/**
  ParseLine (whatsapp_archive.py:69-82): the authored line shape first, then
  the authorless one, whose author is "nobody"; the timestamp of the date
  and time groups, read day first.
 */
module Parser {
  import opened Wrappers
  import opened Shapes
  import opened Patterns
  import opened Timestamps

  /** The `(date, user, body)` triple ParseLine returns for a line that matches. */
  datatype Line = Line(date: DateTime, user: string, body: string)

  /** The exceptions that escape IdentifyMessages. */
  datatype Fault =
    | BadTimestamp(line: string)  // dateutil's ValueError for the line's timestamp
    | FirstLine(line: string)     // Error: the first line matches neither shape

  /** The author ParseLine gives a reading in the authored or the authorless shape. */
  function Author(p: Parts, authored: bool): string
    requires p.after.rest.name.Some? == authored
  {
    if authored then p.after.rest.name.value else "nobody"
  }

  /** What ParseLine makes of the reading `p` of `line`. */
  function Read(line: string, p: Parts, authored: bool, thisYear: int): Result<Option<Line>, Fault>
    requires Valid(p, authored)
  {
    match Combine(p.date, p.clock, p.after.meridiem, thisYear)
    case None => Failure(BadTimestamp(line))
    case Some(date) => Success(Some(Line(date, Author(p, authored), p.after.rest.body)))
  }

  /**
    `ParseLine(matchers, line)`: None when neither shape matches, the
    ValueError of a timestamp dateutil cannot build, or the line's triple.
   */
  function ParseLine(line: string, thisYear: int): Result<Option<Line>, Fault> {
    match Match(line, true)
    case Some(p) =>
      MatchSound(line, true, p);
      Read(line, p, true, thisYear)
    case None =>
      match Match(line, false)
      case Some(p) =>
        MatchSound(line, false, p);
        Read(line, p, false, thisYear)
      case None => Success(None)
  }

  /** `x` is the triple of the reading `p` in the authored (or authorless) shape. */
  ghost predicate Yields(p: Parts, authored: bool, thisYear: int, x: Line) {
    && Valid(p, authored)
    && Combine(p.date, p.clock, p.after.meridiem, thisYear) == Some(x.date)
    && x.user == Author(p, authored)
    && x.body == p.after.rest.body
  }

  /** The first reading of the line in the shape ParseLine settles on has no timestamp. */
  ghost predicate Unstamped(line: string, thisYear: int) {
    var authored := Readable(line, true);
    exists p :: FirstOf(line, authored, p) && Combine(p.date, p.clock, p.after.meridiem, thisYear).None?
  }

  /** ParseLine answers None exactly for the lines neither shape reads. */
  lemma ParseLineNone(line: string, thisYear: int)
    ensures ParseLine(line, thisYear) == Success(None) <==> !Readable(line, true) && !Readable(line, false)
  {
    MatchReadable(line, true);
    MatchReadable(line, false);
  }

  /** ParseLine raises exactly when the first reading it settles on has no timestamp, and names the line. */
  lemma ParseLineFails(line: string, thisYear: int)
    ensures ParseLine(line, thisYear).Failure? <==> Unstamped(line, thisYear)
    ensures ParseLine(line, thisYear).Failure? ==> ParseLine(line, thisYear).error == BadTimestamp(line)
  {
    MatchReadable(line, true);
    MatchReadable(line, false);
    var authored := Readable(line, true);
    var m := Match(line, authored);
    if m.Some? {
      var p := m.value;
      MatchFirst(line, authored);
      forall q | FirstOf(line, authored, q)
        ensures q == p
      {
        FirstOfUnique(line, authored, p, q);
      }
    }
  }

  /**
    Otherwise ParseLine returns the triple of the first reading in the
    authored shape when the line has any, and only when it has none, of the
    first reading in the authorless shape, with author "nobody".
   */
  lemma ParseLineYields(line: string, thisYear: int)
    requires ParseLine(line, thisYear).Success? && ParseLine(line, thisYear).value.Some?
    ensures var authored := Readable(line, true);
      exists p :: FirstOf(line, authored, p) && Yields(p, authored, thisYear, ParseLine(line, thisYear).value.value)
  {
    MatchReadable(line, true);
    var authored := Readable(line, true);
    var p := Match(line, authored).value;
    MatchFirst(line, authored);
    assert ParseLine(line, thisYear) == Read(line, p, authored, thisYear);
    assert Yields(p, authored, thisYear, ParseLine(line, thisYear).value.value);
  }

  /** A line with an authored reading never gets author "nobody" from the authorless shape. */
  lemma AuthoredFirst(line: string, thisYear: int, p: Parts)
    requires Valid(p, true) && Render(p) == line
    requires ParseLine(line, thisYear).Success?
    ensures ParseLine(line, thisYear).value.Some?
    ensures exists q :: FirstOf(line, true, q) && Yields(q, true, thisYear, ParseLine(line, thisYear).value.value)
  {
    assert Readable(line, true);
    ParseLineNone(line, thisYear);
    ParseLineYields(line, thisYear);
  }
}
