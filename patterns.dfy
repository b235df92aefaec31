/**
  The line patterns of whatsapp_archive.py as deterministic recognizers.

  Each recognizer reads the part of the line that is still to be matched and
  makes the choices Python's backtracking `re.match` makes, in the same order:
  `\[?`, `,?` and `\]?` take their character when it is there (no reading
  needs to give it back), the digit runs of the date and NAME_RE's `[^:]+`
  stop where the next literal forces them to, `.*$` must reach the end of
  the line (or a final newline), and the only real backtracking is over the
  length of TIME_RE's `[\d:]+`: longest first, and for each length
  ` [AP]M` before leaving it out, then the three separators in order.

  `MatchSound` says every answer is a reading of the line; `MatchIsFirst`
  says that when the line has any reading, the recognizer answers with it or
  with one the engine tries earlier.
 */
module Patterns {
  import opened Wrappers
  import opened Text
  import opened Shapes

  // ---------------------------------------------------------------------
  // The recognizers, from the end of the pattern back to its start.
  // ---------------------------------------------------------------------

  /** `.*$`: the rest of the line, which may end in one newline and contains no other. */
  function MatchBody(u: string): Option<(string, bool)> {
    var e := Run(u, NotNewline);
    if e == |u| then Some((u, false))
    else if e + 1 == |u| then Some((u[..e], true))
    else None
  }

  /** `(?P<name>[^:]+): (?P<body>.*$)` in the authored shape, `(?P<body>.*$)` in the authorless one. */
  function MatchRest(u: string, authored: bool): Option<Rest> {
    if authored then
      var n := Run(u, NotColon);
      if 0 < n && StartsWith(u[n..], ": ") then
        match MatchBody(u[n + 2..])
        case None => None
        case Some((body, nl)) => Some(Rest(Some(u[..n]), body, nl))
      else None
    else
      match MatchBody(u)
      case None => None
      case Some((body, nl)) => Some(Rest(None, body, nl))
  }

  /** One alternative of SEPARATOR_RE followed by the rest of the line. */
  function TrySep(u: string, sep: Sep, authored: bool): Option<Rest> {
    var t := SepText(sep);
    if StartsWith(u, t) then MatchRest(u[|t|..], authored) else None
  }

  /** The separator of the `k`-th choice: each of SEPARATOR_RE's alternatives in turn. */
  function ChoiceSep(k: nat): Sep {
    if k == 0 || k == 3 then Dash
    else if k == 1 || k == 4 then ColonSpace
    else Space
  }

  /**
    The `k`-th way of going on after the digits and colons of the time
    group: ` [AP]M` for k < 3 and nothing for k >= 3, then `\]?`, then the
    separator `ChoiceSep(k)` and the rest of the line.
   */
  function TryAfter(u: string, k: nat, authored: bool): Option<After> {
    var withMeridiem := k < 3;
    if withMeridiem && !(|u| >= 3 && IsMeridiem(u[..3])) then None
    else
      var x := if withMeridiem then u[3..] else u;
      var close := |x| > 0 && x[0] == ']';
      match TrySep(if close then x[1..] else x, ChoiceSep(k), authored)
      case None => None
      case Some(r) => Some(After(if withMeridiem then u[..3] else "", close, ChoiceSep(k), r))
  }

  /**
    The backtracking of `[\d:]+ ( [AP]M)?` and SEPARATOR_RE over `w`: the
    clock is `w[..n]`, from the longest length down to 1, and for each
    length the six choices from the `k`-th on; the first that reads the rest
    of the line wins.
   */
  function SearchAfter(w: string, n: nat, k: nat, authored: bool): (r: Option<(nat, After)>)
    requires n <= |w| && k <= 6
    ensures r.Some? ==> 0 < r.value.0 <= n
    decreases n, 6 - k
  {
    if n == 0 then None
    else if k == 6 then SearchAfter(w, n - 1, 0, authored)
    else
      match TryAfter(w[n..], k, authored)
      case Some(a) => Some((n, a))
      case None => SearchAfter(w, n, k + 1, authored)
  }

  /** `_MakeDatePattern`: three digit runs with the same mark between them; the rest of the line follows. */
  function MatchDate(u: string): Option<(Date, string)> {
    var a := Run(u, Digits);
    if a == 0 || a == |u| || !IsMark(u[a]) then None
    else
      var v := u[a + 1..];
      var b := Run(v, Digits);
      if b == 0 || b == |v| || v[b] != u[a] then None
      else
        var w := v[b + 1..];
        var c := Run(w, Digits);
        if c == 0 then None
        else Some((Date(u[..a], u[a], v[..b], w[..c]), w[c..]))
  }

  /** `,? ` and the time group with everything after it, once the date has been read. */
  function MatchClock(t: string, authored: bool, open: bool, date: Date): Option<Parts> {
    var comma := |t| > 0 && t[0] == ',';
    var v := if comma then t[1..] else t;
    if |v| == 0 || v[0] != ' ' then None
    else
      var w := v[1..];
      match SearchAfter(w, Run(w, ClockChars), 0, authored)
      case None => None
      case Some((n, after)) => Some(Parts(open, date, comma, w[..n], after))
  }

  /**
    `re.match` of the authored (`authored`) or authorless line pattern
    against the whole line `s`.
   */
  function Match(s: string, authored: bool): Option<Parts> {
    var open := |s| > 0 && s[0] == '[';
    match MatchDate(if open then s[1..] else s)
    case None => None
    case Some((date, t)) => MatchClock(t, authored, open, date)
  }

  // ---------------------------------------------------------------------
  // Soundness: every answer is a reading of the text it was given.
  // ---------------------------------------------------------------------

  lemma MatchBodySound(u: string, body: string, nl: bool)
    requires MatchBody(u) == Some((body, nl))
    ensures AllIn(body, NotNewline) && body + Flag(nl, '\n') == u
  {
    var e := Run(u, NotNewline);
    RunText(u, NotNewline);
    RunEnd(u, NotNewline);
    if e == |u| {
      assert u[..e] == u;
      assert u + [] == u;
    } else {
      assert u == u[..e] + [u[e]];
    }
  }

  lemma MatchRestSound(u: string, authored: bool, r: Rest)
    requires MatchRest(u, authored) == Some(r)
    ensures ValidRest(r, authored) && RestText(r) == u
  {
    if authored {
      var n := Run(u, NotColon);
      RunText(u, NotColon);
      MatchBodySound(u[n + 2..], r.body, r.newline);
      StartThen(u[n..], ": ");
      assert u[n..][2..] == u[n + 2..];
      assert u == u[..n] + u[n..];
    } else {
      MatchBodySound(u, r.body, r.newline);
    }
  }

  lemma TrySepSound(u: string, sep: Sep, authored: bool, r: Rest)
    requires TrySep(u, sep, authored) == Some(r)
    ensures ValidRest(r, authored) && SepText(sep) + RestText(r) == u
  {
    var t := SepText(sep);
    MatchRestSound(u[|t|..], authored, r);
    StartThen(u, t);
  }

  /** The `k`-th choice reads a meridiem exactly when k < 3, and the separator `ChoiceSep(k)`. */
  lemma TryAfterRank(u: string, k: nat, authored: bool, a: After)
    requires k < 6 && TryAfter(u, k, authored) == Some(a)
    ensures AfterRank(a) == k
  {
  }

  /** How `( [AP]M)?` and `\]?` take apart what follows the clock. */
  lemma TailLayout(u: string, k: nat)
    requires k < 3 ==> |u| >= 3
    ensures var x := if k < 3 then u[3..] else u;
      var close := |x| > 0 && x[0] == ']';
      (if k < 3 then u[..3] else "") + (Flag(close, ']') + (if close then x[1..] else x)) == u
  {
    var x := if k < 3 then u[3..] else u;
    var close := |x| > 0 && x[0] == ']';
    if close {
      assert [']'] + x[1..] == x;
    } else {
      assert [] + x == x;
    }
    if k < 3 {
      assert u[..3] + x == u;
    } else {
      assert "" + x == u;
    }
  }

  lemma TryAfterSound(u: string, k: nat, authored: bool, a: After)
    requires k < 6 && TryAfter(u, k, authored) == Some(a)
    ensures ValidAfter(a, authored) && AfterText(a) == u && AfterRank(a) == k
  {
    var x := if k < 3 then u[3..] else u;
    var close := |x| > 0 && x[0] == ']';
    var y := if close then x[1..] else x;
    TryAfterRank(u, k, authored, a);
    TrySepSound(y, ChoiceSep(k), authored, a.rest);
    TailLayout(u, k);
  }

  /** The search answers with a length it tried and the choice that succeeded there. */
  lemma {:induction false} SearchAfterSound(w: string, n: nat, k: nat, authored: bool, c: nat, a: After)
    requires n <= |w| && k <= 6 && SearchAfter(w, n, k, authored) == Some((c, a))
    ensures 0 < c <= n && AfterRank(a) < 6 && TryAfter(w[c..], AfterRank(a), authored) == Some(a)
    decreases n, 6 - k
  {
    if k == 6 {
      SearchAfterSound(w, n - 1, 0, authored, c, a);
    } else if TryAfter(w[n..], k, authored).Some? {
      TryAfterRank(w[n..], k, authored, a);
    } else {
      SearchAfterSound(w, n, k + 1, authored, c, a);
    }
  }

  lemma MatchDateSound(u: string, d: Date, t: string)
    requires MatchDate(u) == Some((d, t))
    ensures ValidDate(d) && DateThen(d, t) == u
    ensures t == [] || !IsDigit(t[0])
  {
    var a := Run(u, Digits);
    var v := u[a + 1..];
    var b := Run(v, Digits);
    var w := v[b + 1..];
    var c := Run(w, Digits);
    RunText(u, Digits);
    RunText(v, Digits);
    RunText(w, Digits);
    RunEnd(w, Digits);
    Split(w, c);
    Around(v, b);
    Around(u, a);
  }

  /** The clock ends no later than where `[\d:]+` stops. */
  lemma PrefixIn(w: string, e: nat, n: nat, cls: Class)
    requires n <= e <= |w| && AllIn(w[..e], cls)
    ensures AllIn(w[..n], cls)
  {
    assert forall k :: 0 <= k < n ==> w[..n][k] == w[..e][k];
  }

  /** How the text after the date is taken apart by `,? ` and the clock. */
  lemma ClockLayout(t: string, n: nat)
    requires var comma := |t| > 0 && t[0] == ',';
      var v := if comma then t[1..] else t;
      |v| > 0 && v[0] == ' ' && n < |v|
    ensures var comma := |t| > 0 && t[0] == ',';
      var w := (if comma then t[1..] else t)[1..];
      Flag(comma, ',') + ([' '] + (w[..n] + w[n..])) == t
  {
    var comma := |t| > 0 && t[0] == ',';
    var v := if comma then t[1..] else t;
    var w := v[1..];
    assert w[..n] + w[n..] == w;
    assert [' '] + w == v;
    if comma {
      assert [','] + v == t;
    } else {
      assert [] + v == t;
    }
  }

  lemma MatchClockSound(t: string, authored: bool, open: bool, date: Date, p: Parts)
    requires MatchClock(t, authored, open, date) == Some(p)
    ensures p.open == open && p.date == date
    ensures |p.clock| > 0 && AllIn(p.clock, ClockChars) && ValidAfter(p.after, authored)
    ensures Flag(p.comma, ',') + ([' '] + (p.clock + AfterText(p.after))) == t
  {
    var comma := |t| > 0 && t[0] == ',';
    var v := if comma then t[1..] else t;
    var w := v[1..];
    var e := Run(w, ClockChars);
    var (n, a) := SearchAfter(w, e, 0, authored).value;
    RunText(w, ClockChars);
    PrefixIn(w, e, n, ClockChars);
    SearchAfterSound(w, e, 0, authored, n, a);
    TryAfterSound(w[n..], AfterRank(a), authored, a);
    ClockLayout(t, n);
  }

  /** A line is `[` and the rest, when it starts with `[`. */
  lemma OpenLayout(s: string)
    ensures var open := |s| > 0 && s[0] == '[';
      Flag(open, '[') + (if open then s[1..] else s) == s
  {
    if |s| > 0 && s[0] == '[' {
      assert ['['] + s[1..] == s;
    } else {
      assert [] + s == s;
    }
  }

  /** Every answer of the recognizer is a valid reading of the line, and reads the whole line. */
  lemma MatchSound(s: string, authored: bool, p: Parts)
    requires Match(s, authored) == Some(p)
    ensures Valid(p, authored) && Render(p) == s
  {
    var open := |s| > 0 && s[0] == '[';
    var u := if open then s[1..] else s;
    var (d, t) := MatchDate(u).value;
    MatchDateSound(u, d, t);
    MatchClockSound(t, authored, open, d, p);
    OpenLayout(s);
  }

  // ---------------------------------------------------------------------
  // Completeness: every reading is found, or one the engine tries earlier.
  // ---------------------------------------------------------------------

  lemma MatchBodyComplete(body: string, nl: bool)
    requires AllIn(body, NotNewline)
    ensures MatchBody(body + Flag(nl, '\n')) == Some((body, nl))
  {
    RunStops(body, Flag(nl, '\n'), NotNewline);
    if !nl {
      assert body + [] == body;
    }
  }

  lemma MatchRestComplete(r: Rest, authored: bool)
    requires ValidRest(r, authored)
    ensures MatchRest(RestText(r), authored) == Some(r)
  {
    MatchBodyComplete(r.body, r.newline);
    if authored {
      var name := r.name.value;
      var u := RestText(r);
      RunStops(name, ": " + BodyText(r), NotColon);
      assert u[|name|..] == ": " + BodyText(r);
      assert u[|name| + 2..] == u[|name|..][2..];
    }
  }

  lemma TrySepComplete(sep: Sep, r: Rest, authored: bool)
    requires ValidRest(r, authored)
    ensures TrySep(SepText(sep) + RestText(r), sep, authored) == Some(r)
  {
    MatchRestComplete(r, authored);
  }

  /** Where the parts of what follows the clock sit in its text. */
  lemma AfterLayout(meridiem: string, close: bool, sep: Sep, rest: Rest)
    requires meridiem == "" || IsMeridiem(meridiem)
    ensures var u := AfterText(After(meridiem, close, sep, rest));
      var x := Flag(close, ']') + (SepText(sep) + RestText(rest));
      && (meridiem != "" ==> |u| >= 3 && u[..3] == meridiem && u[3..] == x)
      && (meridiem == "" ==> u == x)
      && (|x| > 0 && x[0] == ']') == close
      && (if close then x[1..] else x) == SepText(sep) + RestText(rest)
  {
    var y := SepText(sep) + RestText(rest);
    var x := Flag(close, ']') + y;
    if !close {
      assert x == y;
    }
    if meridiem == "" {
      assert meridiem + x == x;
    }
  }

  /** The choice of a reading's rank is its own meridiem and separator. */
  lemma ChoiceOfRank(a: After)
    ensures AfterRank(a) < 6 && ChoiceSep(AfterRank(a)) == a.sep
    ensures AfterRank(a) < 3 <==> a.meridiem != ""
  {
  }

  lemma AfterComplete(u: string, k: nat, meridiem: string, close: bool, sep: Sep, rest: Rest, authored: bool)
    requires ValidAfter(After(meridiem, close, sep, rest), authored)
    requires ChoiceSep(k) == sep && (k < 3 <==> meridiem != "")
    requires var x := Flag(close, ']') + (SepText(sep) + RestText(rest));
      && (meridiem != "" ==> |u| >= 3 && u[..3] == meridiem && u[3..] == x)
      && (meridiem == "" ==> u == x)
      && (|x| > 0 && x[0] == ']') == close
      && (if close then x[1..] else x) == SepText(sep) + RestText(rest)
    ensures TryAfter(u, k, authored) == Some(After(meridiem, close, sep, rest))
  {
    TrySepComplete(sep, rest, authored);
  }

  /** Each reading of what follows the clock is the choice of its own rank. */
  lemma TryAfterComplete(a: After, authored: bool)
    requires ValidAfter(a, authored)
    ensures TryAfter(AfterText(a), AfterRank(a), authored) == Some(a)
  {
    ChoiceOfRank(a);
    AfterLayout(a.meridiem, a.close, a.sep, a.rest);
    AfterComplete(AfterText(a), AfterRank(a), a.meridiem, a.close, a.sep, a.rest, authored);
  }

  lemma {:induction false} SearchAfterComplete(w: string, n: nat, k: nat, c: nat, a: After, authored: bool)
    requires 0 < c <= n <= |w| && k <= 6 && (n > c || k <= AfterRank(a))
    requires TryAfter(w[c..], AfterRank(a), authored) == Some(a)
    ensures var r := SearchAfter(w, n, k, authored);
      r.Some? && (r.value.0 > c || (r.value.0 == c && (r.value.1 == a || AfterEarlier(r.value.1, a))))
    decreases n, 6 - k
  {
    if k == 6 {
      SearchAfterComplete(w, n - 1, 0, c, a, authored);
    } else {
      var r := TryAfter(w[n..], k, authored);
      if r.Some? {
        TryAfterRank(w[n..], k, authored, r.value);
      } else if n > c || k < AfterRank(a) {
        SearchAfterComplete(w, n, k + 1, c, a, authored);
      }
    }
  }

  lemma DateComplete(first: string, mark: char, second: string, third: string, t: string)
    requires ValidDate(Date(first, mark, second, third)) && (t == [] || !IsDigit(t[0]))
    ensures MatchDate(DateThen(Date(first, mark, second, third), t)) == Some((Date(first, mark, second, third), t))
  {
    var w := third + t;
    var v := second + ([mark] + w);
    RunStops(first, [mark] + v, Digits);
    DropPast(first, mark, v);
    RunStops(second, [mark] + w, Digits);
    DropPast(second, mark, w);
    RunStops(third, t, Digits);
  }

  lemma MatchDateComplete(d: Date, t: string)
    requires ValidDate(d) && (t == [] || !IsDigit(t[0]))
    ensures MatchDate(DateThen(d, t)) == Some((d, t))
  {
    DateComplete(d.first, d.mark, d.second, d.third, t);
  }

  /** Where `,`, the space and the clock sit in the text after the date. */
  lemma ClockLayoutOf(comma: bool, clock: string, after: string)
    ensures var t := Flag(comma, ',') + ([' '] + (clock + after));
      var v := if |t| > 0 && t[0] == ',' then t[1..] else t;
      && (|t| > 0 && t[0] == ',') == comma
      && |v| > 0 && v[0] == ' ' && v[1..] == clock + after
      && (clock + after)[..|clock|] == clock && (clock + after)[|clock|..] == after
  {
    var v := [' '] + (clock + after);
    if !comma {
      assert Flag(comma, ',') + v == v;
    }
  }

  lemma ClockComplete(t: string, open: bool, date: Date, comma: bool, clock: string, a: After, authored: bool)
    requires |clock| > 0 && AllIn(clock, ClockChars)
    requires var v := if |t| > 0 && t[0] == ',' then t[1..] else t;
      && (|t| > 0 && t[0] == ',') == comma && |v| > 0 && v[0] == ' '
      && |clock| <= Run(v[1..], ClockChars) && v[1..][..|clock|] == clock
      && TryAfter(v[1..][|clock|..], AfterRank(a), authored) == Some(a)
    ensures var p := Parts(open, date, comma, clock, a);
      var m := MatchClock(t, authored, open, date);
      m.Some? && (m.value == p || Earlier(m.value, p))
  {
    var v := if comma then t[1..] else t;
    var w := v[1..];
    var e := Run(w, ClockChars);
    SearchAfterComplete(w, e, 0, |clock|, a, authored);
  }

  lemma MatchClockComplete(open: bool, date: Date, comma: bool, clock: string, a: After, authored: bool)
    requires |clock| > 0 && AllIn(clock, ClockChars) && ValidAfter(a, authored)
    ensures var p := Parts(open, date, comma, clock, a);
      var m := MatchClock(Flag(comma, ',') + ([' '] + (clock + AfterText(a))), authored, open, date);
      m.Some? && (m.value == p || Earlier(m.value, p))
  {
    ClockLayoutOf(comma, clock, AfterText(a));
    RunCovers(clock, AfterText(a), ClockChars);
    TryAfterComplete(a, authored);
    ClockComplete(Flag(comma, ',') + ([' '] + (clock + AfterText(a))), open, date, comma, clock, a, authored);
  }

  /** The time group of a reading starts right after the date, with `,` or ` `. */
  lemma TimeStart(comma: bool, rest: string)
    ensures var t := Flag(comma, ',') + ([' '] + rest);
      t != [] && !IsDigit(t[0])
  {
  }

  /** A reading's text starts with its date, or with `[` and then the date. */
  lemma Layout(open: bool, d: Date, t: string)
    requires ValidDate(d)
    ensures var s := Flag(open, '[') + DateThen(d, t);
      && (|s| > 0 && s[0] == '[') == open
      && (if open then s[1..] else s) == DateThen(d, t)
  {
    var u := DateThen(d, t);
    if !open {
      assert Flag(open, '[') + u == u;
      assert u[0] == d.first[0];
    }
  }

  lemma FirstReading(open: bool, d: Date, comma: bool, clock: string, a: After, authored: bool)
    requires Valid(Parts(open, d, comma, clock, a), authored)
    ensures var p := Parts(open, d, comma, clock, a);
      var m := Match(Render(p), authored);
      m.Some? && (m.value == p || Earlier(m.value, p))
  {
    var t := Flag(comma, ',') + ([' '] + (clock + AfterText(a)));
    TimeStart(comma, clock + AfterText(a));
    Layout(open, d, t);
    MatchDateComplete(d, t);
    MatchClockComplete(open, d, comma, clock, a, authored);
  }

  /**
    Whenever the line has a reading in the shape, the recognizer answers,
    and with that reading or with one the engine tries before it: the
    recognizer is Python's first match.
   */
  lemma MatchIsFirst(s: string, authored: bool, p: Parts)
    requires Valid(p, authored) && Render(p) == s
    ensures Match(s, authored).Some?
    ensures Match(s, authored).value == p || Earlier(Match(s, authored).value, p)
  {
    FirstReading(p.open, p.date, p.comma, p.clock, p.after, authored);
  }

  /** No line that starts with something other than a digit or `[` matches either shape. */
  lemma MatchNeedsStart(s: string, authored: bool)
    requires s == [] || (s[0] != '[' && !IsDigit(s[0]))
    ensures Match(s, authored).None?
  {
  }

  // ---------------------------------------------------------------------
  // The recognizer against the set of readings.
  // ---------------------------------------------------------------------

  /** The line can be read in the shape. */
  ghost predicate Readable(s: string, authored: bool) {
    exists p :: Valid(p, authored) && Render(p) == s
  }

  /** `p` reads the line, and every other reading comes later in the engine's order. */
  ghost predicate FirstOf(s: string, authored: bool, p: Parts) {
    && Valid(p, authored) && Render(p) == s
    && forall q :: Valid(q, authored) && Render(q) == s ==> q == p || Earlier(p, q)
  }

  /** `re.match` answers exactly for the lines that have a reading in the shape. */
  lemma MatchReadable(s: string, authored: bool)
    ensures Match(s, authored).Some? <==> Readable(s, authored)
  {
    if Readable(s, authored) {
      var p :| Valid(p, authored) && Render(p) == s;
      MatchIsFirst(s, authored, p);
    }
    if Match(s, authored).Some? {
      MatchSound(s, authored, Match(s, authored).value);
    }
  }

  /** Its answer is the first reading. */
  lemma MatchFirst(s: string, authored: bool)
    requires Match(s, authored).Some?
    ensures FirstOf(s, authored, Match(s, authored).value)
  {
    var p := Match(s, authored).value;
    MatchSound(s, authored, p);
    forall q | Valid(q, authored) && Render(q) == s
      ensures q == p || Earlier(p, q)
    {
      MatchIsFirst(s, authored, q);
    }
  }

  /** The engine's order is strict, so a line has at most one first reading. */
  lemma FirstOfUnique(s: string, authored: bool, p: Parts, q: Parts)
    requires FirstOf(s, authored, p) && FirstOf(s, authored, q)
    ensures p == q
  {
  }
  /**
    The date and time groups are those of any reading whose clock is not
    followed by another digit or colon: whatever the engine backtracks over
    afterwards, it captures that date and that clock.
   */
  lemma StampGroups(p: Parts, authored: bool)
    requires Valid(p, authored)
    requires AfterText(p.after) == [] || !In(AfterText(p.after)[0], ClockChars)
    ensures var m := Match(Render(p), authored);
      && m.Some? && m.value.open == p.open && m.value.date == p.date
      && m.value.comma == p.comma && m.value.clock == p.clock
  {
    StampPrefix(p, authored);
    MatchIsFirst(Render(p), authored, p);
  }

  /** Any answer for a reading's text has its date, and a clock no longer than its clock. */
  lemma StampPrefix(p: Parts, authored: bool)
    requires ValidDate(p.date) && AllIn(p.clock, ClockChars)
    requires AfterText(p.after) == [] || !In(AfterText(p.after)[0], ClockChars)
    ensures var m := Match(Render(p), authored);
      m.Some? ==> && m.value.open == p.open && m.value.date == p.date && m.value.comma == p.comma
                  && |m.value.clock| <= |p.clock| && m.value.clock == p.clock[..|m.value.clock|]
  {
    DateFirst(p, authored);
    ClockBound(p.comma, p.clock, AfterText(p.after), authored, p.open, p.date);
  }

  /** A reading's date is read first, and what follows it goes to MatchClock. */
  lemma DateFirst(p: Parts, authored: bool)
    requires ValidDate(p.date)
    ensures Match(Render(p), authored)
         == MatchClock(Flag(p.comma, ',') + ([' '] + (p.clock + AfterText(p.after))), authored, p.open, p.date)
  {
    var t := Flag(p.comma, ',') + ([' '] + (p.clock + AfterText(p.after)));
    TimeStart(p.comma, p.clock + AfterText(p.after));
    Layout(p.open, p.date, t);
    MatchDateComplete(p.date, t);
  }

  /** The clock the engine settles on is a prefix of the longest run of digits and colons. */
  lemma ClockBound(comma: bool, clock: string, after: string, authored: bool, open: bool, d: Date)
    requires AllIn(clock, ClockChars) && (after == [] || !In(after[0], ClockChars))
    ensures var m := MatchClock(Flag(comma, ',') + ([' '] + (clock + after)), authored, open, d);
      m.Some? ==> && m.value.open == open && m.value.date == d && m.value.comma == comma
                  && |m.value.clock| <= |clock| && m.value.clock == clock[..|m.value.clock|]
  {
    ClockLayoutOf(comma, clock, after);
    RunStops(clock, after, ClockChars);
    var m := MatchClock(Flag(comma, ',') + ([' '] + (clock + after)), authored, open, d);
    if m.Some? {
      var n := |m.value.clock|;
      assert (clock + after)[..n] == clock[..n];
    }
  }

  /** A reading of the line `[02-12-18 22:55:45] - Joe: hi`. */
  lemma StampReading(p: Parts)
    requires p == Parts(true, Date("02", '-', "12", "18"), false, "22:55:45", After("", true, Dash, Rest(Some("Joe"), "hi", false)))
    ensures Valid(p, true)
  {
  }

  /** Its text, from the clock on. */
  lemma StampClockText(p: Parts)
    requires p == Parts(true, Date("02", '-', "12", "18"), false, "22:55:45", After("", true, Dash, Rest(Some("Joe"), "hi", false)))
    ensures AfterText(p.after) == "] - Joe: hi"
    ensures Flag(p.comma, ',') + ([' '] + (p.clock + AfterText(p.after))) == " 22:55:45" + "] - Joe: hi"
  {
    assert AfterText(p.after) == "] - Joe: hi";
  }

  /** Its text. */
  lemma StampText(p: Parts)
    requires p == Parts(true, Date("02", '-', "12", "18"), false, "22:55:45", After("", true, Dash, Rest(Some("Joe"), "hi", false)))
    ensures Render(p) == "[02-12-18 22:55:45] - Joe: hi"
    ensures AfterText(p.after) != [] && AfterText(p.after)[0] == ']'
  {
    StampClockText(p);
    StampDateText(p.date, " 22:55:45" + "] - Joe: hi");
    assert Render(p) == "[" + ("02-12-18" + (" 22:55:45" + "] - Joe: hi"));
  }

  lemma StampDateText(d: Date, t: string)
    requires d == Date("02", '-', "12", "18")
    ensures DateThen(d, t) == "02-12-18" + t
  {
    assert "02" + ("-" + ("12" + ("-" + "18"))) == "02-12-18";
  }

  /** `[02-12-18 22:55:45]` opening a line captures the date `02-12-18` and the time `22:55:45`. */
  lemma BracketedStamp(line: string)
    requires line == "[02-12-18 22:55:45] - Joe: hi"
    ensures var m := Match(line, true);
      m.Some? && m.value.date == Date("02", '-', "12", "18") && m.value.clock == "22:55:45"
  {
    var p := Parts(true, Date("02", '-', "12", "18"), false, "22:55:45", After("", true, Dash, Rest(Some("Joe"), "hi", false)));
    StampReading(p);
    StampText(p);
    StampGroups(p, true);
  }
}
