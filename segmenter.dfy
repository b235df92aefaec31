/**
  IdentifyMessages (whatsapp_archive.py:85-119): the lines of an export cut
  into messages. A line ParseLine reads opens a message and closes the one
  before it; any other line continues the open message, as a newline and
  the stripped line; a line that continues nothing raises Error. Every
  closed message gets an attachment field from its body, and the last one
  is emitted with its own attachment rule and the path prefix.

  The segmentation is stated over the parse of each line (`ps[i]` is
  ParseLine of `lines[i]`), so that it holds whatever the line shapes are.
 */
module Segmenter {
  import opened Wrappers
  import opened Text
  import opened Timestamps
  import opened Parser

  /** The attachment field: Python's `0`, or the path of the attached file. */
  datatype Ref = NoFile | File(path: string)

  /**
    An emitted message: the 4-tuple `(date, user, body, ref)` for every
    message but the last, and the 5-tuple `(date, user, body, ref, os)` for
    the last one.
   */
  datatype Message =
    | Closed(date: DateTime, user: string, body: string, ref: Ref)
    | Final(date: DateTime, user: string, body: string, ref: Ref, prefix: string)

  // ---------------------------------------------------------------------
  // Attachments.
  // ---------------------------------------------------------------------

  /** The name an attachment line gives its file: `body.split("(")[0][1:-1]`. */
  function AttachedName(body: string): string {
    InnerSlice(BeforeParen(body))
  }

  /**
    The attachment field of a message closed by the next one: the prefix,
    a separator and the file name, with every backslash turned into a
    slash, when the body mentions an attached file in Spanish or English.
   */
  function ClosedRef(body: string, prefix: string): (r: Ref)
    ensures r.File? <==> Contains(body, "(archivo adjunto)") || Contains(body, "(attached file)")
    ensures r.File? ==> r.path == Slashes(prefix) + "/" + Slashes(AttachedName(body)) && '\\' !in r.path
  {
    if Contains(body, "(archivo adjunto)") || Contains(body, "(attached file)") then
      SlashedPath(prefix, AttachedName(body));
      File(Slashes(prefix + "\\" + AttachedName(body)))
    else NoFile
  }

  /** `(prefix + "\\" + name).replace("\\", "/")` is the two halves normalised, joined by a slash. */
  lemma SlashedPath(prefix: string, name: string)
    ensures Slashes(prefix + "\\" + name) == Slashes(prefix) + "/" + Slashes(name)
    ensures '\\' !in Slashes(prefix + "\\" + name)
  {
    SlashesOfConcat(prefix + "\\", name);
    SlashesOfConcat(prefix, "\\");
    assert Slashes("\\") == "/" by {
      assert Slashes("\\")[0] == '/';
    }
  }

  /** The attachment field of the last message: the bare file name, for the Spanish mention only. */
  function FinalRef(body: string): (r: Ref)
    ensures r.File? <==> Contains(body, "(archivo adjunto)")
    ensures r.File? ==> r.path == AttachedName(body)
  {
    if Contains(body, "(archivo adjunto)") then File(AttachedName(body)) else NoFile
  }

  /**
    The two attachment rules disagree: where the last message has a file,
    a closed message with the same body has the prefixed and
    slash-normalised path of it; and a body that mentions only an
    "(attached file)" has one as a closed message but none as the last.
   */
  lemma AttachmentRules(body: string, prefix: string)
    ensures FinalRef(body).File? ==> ClosedRef(body, prefix) == File(Slashes(prefix + "\\" + FinalRef(body).path))
    ensures Contains(body, "(attached file)") && !Contains(body, "(archivo adjunto)") ==>
      ClosedRef(body, prefix).File? && FinalRef(body) == NoFile
  {
  }

  function Close(x: Line, prefix: string): Message {
    Closed(x.date, x.user, x.body, ClosedRef(x.body, prefix))
  }

  function Finish(x: Line, prefix: string): Message {
    Final(x.date, x.user, x.body, FinalRef(x.body), prefix)
  }

  function Closes(xs: seq<Line>, prefix: string): (ms: seq<Message>)
    ensures |ms| == |xs| && forall i :: 0 <= i < |xs| ==> ms[i] == Close(xs[i], prefix)
  {
    seq(|xs|, i requires 0 <= i < |xs| => Close(xs[i], prefix))
  }

  /** The messages emitted for the segments `xs`: all closed but the last. */
  function Emit(xs: seq<Line>, prefix: string): (ms: seq<Message>)
    ensures |ms| == |xs|
    ensures forall i :: 0 <= i < |xs| - 1 ==> ms[i].Closed? && ms[i] == Close(xs[i], prefix)
    ensures xs != [] ==> ms[|xs| - 1].Final? && ms[|xs| - 1] == Finish(xs[|xs| - 1], prefix)
  {
    if xs == [] then [] else Closes(xs[..|xs| - 1], prefix) + [Finish(xs[|xs| - 1], prefix)]
  }

  // ---------------------------------------------------------------------
  // The scan, line by line.
  // ---------------------------------------------------------------------

  /** `msg_body += '\n' + line.strip()`. */
  function Continue(x: Line, line: string): Line {
    Line(x.date, x.user, x.body + ("\n" + Strip(line)))
  }

  /**
    One turn of the loop: the messages so far (the closed ones and, last,
    the open one) after `line`, which ParseLine made `p` of.
   */
  function Advance(sofar: Result<seq<Line>, Fault>, line: string, p: Result<Option<Line>, Fault>): Result<seq<Line>, Fault> {
    match sofar
    case Failure(e) => Failure(e)
    case Success(xs) =>
      match p
      case Failure(e) => Failure(e)
      case Success(Some(x)) => Success(xs + [x])
      case Success(None) =>
        if xs == [] then Failure(FirstLine(line))
        else Success(xs[..|xs| - 1] + [Continue(xs[|xs| - 1], line)])
  }

  /**
    The messages after reading `lines`, each as `(date, user, body)`: the
    ones already closed and, last, the open one; or the exception that
    stopped the loop. `ps[i]` is what ParseLine made of `lines[i]`.
   */
  function Scan(lines: seq<string>, ps: seq<Result<Option<Line>, Fault>>): Result<seq<Line>, Fault>
    requires |ps| == |lines|
  {
    if lines == [] then Success([])
    else
      var n := |lines| - 1;
      Advance(Scan(lines[..n], ps[..n]), lines[n], ps[n])
  }

  /** Reading one more line is one more turn. */
  lemma ScanNext(lines: seq<string>, ps: seq<Result<Option<Line>, Fault>>, i: nat)
    requires |ps| == |lines| && i < |lines|
    ensures Scan(lines[..i + 1], ps[..i + 1]) == Advance(Scan(lines[..i], ps[..i]), lines[i], ps[i])
  {
    assert lines[..i + 1][..i] == lines[..i] && ps[..i + 1][..i] == ps[..i];
  }

  /** ParseLine of every line. */
  function ParseAll(lines: seq<string>, thisYear: int): (ps: seq<Result<Option<Line>, Fault>>)
    ensures |ps| == |lines| && forall i :: 0 <= i < |lines| ==> ps[i] == ParseLine(lines[i], thisYear)
  {
    seq(|lines|, i requires 0 <= i < |lines| => ParseLine(lines[i], thisYear))
  }

  /** What `IdentifyMessages(lines, os=prefix)` returns or raises. */
  function Messages(lines: seq<string>, prefix: string, thisYear: int): Result<seq<Message>, Fault> {
    match Scan(lines, ParseAll(lines, thisYear))
    case Failure(e) => Failure(e)
    case Success(xs) => Success(Emit(xs, prefix))
  }

  /** Once the scan has raised, the rest of the lines change nothing. */
  lemma {:induction false} ScanStops(lines: seq<string>, ps: seq<Result<Option<Line>, Fault>>, i: nat)
    requires |ps| == |lines| && i <= |lines| && Scan(lines[..i], ps[..i]).Failure?
    ensures Scan(lines, ps) == Scan(lines[..i], ps[..i])
    decreases |lines| - i
  {
    if i == |lines| {
      assert lines[..i] == lines && ps[..i] == ps;
    } else {
      ScanNext(lines, ps, i);
      ScanStops(lines, ps, i + 1);
    }
  }

  // ---------------------------------------------------------------------
  // When the scan raises.
  // ---------------------------------------------------------------------

  /** Every exception a parse raises is a timestamp's. */
  predicate TimestampFaults(ps: seq<Result<Option<Line>, Fault>>) {
    forall i :: 0 <= i < |ps| && ps[i].Failure? ==> ps[i].error.BadTimestamp?
  }

  /** A scan of some lines that did not raise has an open message. */
  lemma ScanOpen(lines: seq<string>, ps: seq<Result<Option<Line>, Fault>>)
    requires |ps| == |lines| && lines != [] && Scan(lines, ps).Success?
    ensures Scan(lines, ps).value != []
  {
  }

  /**
    The scan raises Error exactly when the first line matches neither
    shape, and then for that line; no later line can, since a message is
    open from the first line on.
   */
  lemma {:induction false} FirstLineError(lines: seq<string>, ps: seq<Result<Option<Line>, Fault>>)
    requires |ps| == |lines| && TimestampFaults(ps)
    ensures Scan(lines, ps).Failure? && Scan(lines, ps).error.FirstLine? <==> lines != [] && ps[0] == Success(None)
    ensures Scan(lines, ps).Failure? && Scan(lines, ps).error.FirstLine? ==> Scan(lines, ps).error == FirstLine(lines[0])
  {
    if lines != [] {
      var n := |lines| - 1;
      if n == 0 {
        assert lines[..0] == [] && ps[..0] == [];
      } else {
        assert TimestampFaults(ps[..n]) by {
          assert forall i :: 0 <= i < n ==> ps[..n][i] == ps[i];
        }
        FirstLineError(lines[..n], ps[..n]);
        assert lines[..n][0] == lines[0] && ps[..n][0] == ps[0];
        if Scan(lines[..n], ps[..n]).Success? {
          ScanOpen(lines[..n], ps[..n]);
        }
      }
    }
  }

  /** Some parse raised. */
  ghost predicate Raised(ps: seq<Result<Option<Line>, Fault>>) {
    exists i :: 0 <= i < |ps| && ps[i].Failure?
  }

  /** A parse raised among some parses exactly when one raised before the last or the last did. */
  lemma RaisedLast(ps: seq<Result<Option<Line>, Fault>>)
    requires ps != []
    ensures Raised(ps) <==> Raised(ps[..|ps| - 1]) || ps[|ps| - 1].Failure?
  {
    var n := |ps| - 1;
    if Raised(ps) && !ps[n].Failure? {
      var i :| 0 <= i < |ps| && ps[i].Failure?;
      assert ps[..n][i] == ps[i];
    }
    if Raised(ps[..n]) {
      var i :| 0 <= i < n && ps[..n][i].Failure?;
      assert ps[i] == ps[..n][i];
    }
  }

  /** The scan raises exactly when the first line matches neither shape or some line's parse raised. */
  lemma {:induction false} ScanRaises(lines: seq<string>, ps: seq<Result<Option<Line>, Fault>>)
    requires |ps| == |lines|
    ensures Scan(lines, ps).Failure? <==> (lines != [] && ps[0] == Success(None)) || Raised(ps)
  {
    if lines != [] {
      var n := |lines| - 1;
      RaisedLast(ps);
      if n == 0 {
        assert lines[..0] == [] && ps[..0] == [];
        assert !Raised(ps[..0]);
      } else {
        ScanRaises(lines[..n], ps[..n]);
        assert lines[..n][0] == lines[0] && ps[..n][0] == ps[0];
        if Scan(lines[..n], ps[..n]).Success? {
          ScanOpen(lines[..n], ps[..n]);
        }
      }
    }
  }

  // ---------------------------------------------------------------------
  // The same segmentation, a message at a time.
  // ---------------------------------------------------------------------

  /** How many parses at the start of `ps` found a line that matches neither shape. */
  function Lead(ps: seq<Result<Option<Line>, Fault>>): (n: nat)
    ensures n <= |ps|
  {
    if ps != [] && ps[0] == Success(None) then 1 + Lead(ps[1..]) else 0
  }

  /** The lead is the longest run of unmatched lines at the start. */
  lemma {:induction false} LeadSpan(ps: seq<Result<Option<Line>, Fault>>)
    ensures forall j :: 0 <= j < Lead(ps) ==> ps[j] == Success(None)
    ensures Lead(ps) < |ps| ==> ps[Lead(ps)] != Success(None)
  {
    if ps != [] && ps[0] == Success(None) {
      LeadSpan(ps[1..]);
      assert forall j :: 0 < j < Lead(ps) ==> ps[j] == ps[1..][j - 1];
    }
  }

  /** `'\n' + line.strip()` for each of `lines`, in order. */
  function Joined(lines: seq<string>): string {
    if lines == [] then "" else Joined(lines[..|lines| - 1]) + ("\n" + Strip(lines[|lines| - 1]))
  }

  /** No parse raised, and the first line (if any) matched a shape. */
  predicate Clean(ps: seq<Result<Option<Line>, Fault>>) {
    && (forall i :: 0 <= i < |ps| ==> ps[i].Success?)
    && (ps != [] ==> ps[0].value.Some?)
  }

  /**
    The messages of `lines` when nothing raises: each line that matches a
    shape, with the body extended by the lines after it that match none,
    up to the next line that matches.
   */
  function Segments(lines: seq<string>, ps: seq<Result<Option<Line>, Fault>>): seq<Line>
    requires |ps| == |lines| && Clean(ps)
    decreases |lines|
  {
    if lines == [] then []
    else
      var x := ps[0].value.value;
      var k := Lead(ps[1..]);
      assert Clean(ps[1 + k..]) by {
        LeadSpan(ps[1..]);
        var q := ps[1 + k..];
        assert forall i :: 0 <= i < |q| ==> q[i] == ps[1 + k + i];
        if 1 + k < |ps| {
          assert ps[1..][k] == ps[1 + k];
        }
      }
      [Line(x.date, x.user, x.body + Joined(lines[1..1 + k]))] + Segments(lines[1 + k..], ps[1 + k..])
  }

  /** One more parse extends the lead of unmatched lines only when all before it were unmatched too. */
  lemma {:induction false} LeadMore(ps: seq<Result<Option<Line>, Fault>>, p: Result<Option<Line>, Fault>)
    ensures Lead(ps + [p]) == if Lead(ps) == |ps| && p == Success(None) then |ps| + 1 else Lead(ps)
  {
    if ps != [] {
      assert (ps + [p])[1..] == ps[1..] + [p];
      if ps[0] == Success(None) {
        LeadMore(ps[1..], p);
      }
    }
  }

  /** A turn of the loop on messages after a first one is the same turn with the first one put back. */
  lemma AdvanceAfter(x: Line, xs: seq<Line>, line: string, p: Result<Option<Line>, Fault>)
    requires xs != [] && p.Success?
    ensures Advance(Success([x] + xs), line, p) == Success([x] + Advance(Success(xs), line, p).value)
  {
    var ys := [x] + xs;
    if p.value.None? {
      var c := Continue(xs[|xs| - 1], line);
      assert ys[..|ys| - 1] == [x] + xs[..|xs| - 1] && ys[|ys| - 1] == xs[|xs| - 1];
      assert ([x] + xs[..|xs| - 1]) + [c] == [x] + (xs[..|xs| - 1] + [c]);
    } else {
      assert ys + [p.value.value] == [x] + (xs + [p.value.value]);
    }
  }

  /** Slices of a sequence with one more element at its end. */
  lemma Snoc<T>(s: seq<T>, t: T, i: nat, j: nat)
    requires i <= j <= |s|
    ensures (s + [t])[i..j] == s[i..j] && (s + [t])[i..] == s[i..] + [t]
  {
  }

  /** The first message of the segmentation, which the line after the unmatched ones following the first starts. */
  function Head(lines: seq<string>, ps: seq<Result<Option<Line>, Fault>>): Line
    requires |ps| == |lines| && Clean(ps) && lines != []
  {
    var x := ps[0].value.value;
    Line(x.date, x.user, x.body + Joined(lines[1..1 + Lead(ps[1..])]))
  }

  /** Unfolding the segmentation once. */
  lemma SegmentsHead(lines: seq<string>, ps: seq<Result<Option<Line>, Fault>>)
    requires |ps| == |lines| && Clean(ps) && lines != []
    ensures var k := Lead(ps[1..]);
      && Clean(ps[1 + k..])
      && Segments(lines, ps) == [Head(lines, ps)] + Segments(lines[1 + k..], ps[1 + k..])
  {
    var k := Lead(ps[1..]);
    LeadSpan(ps[1..]);
    var q := ps[1 + k..];
    assert forall i :: 0 <= i < |q| ==> q[i] == ps[1 + k + i];
    if 1 + k < |ps| {
      assert ps[1..][k] == ps[1 + k];
    }
  }

  /** One more continuation line adds its text at the end. */
  lemma JoinedMore(ls: seq<string>, l: string)
    ensures Joined(ls + [l]) == Joined(ls) + ("\n" + Strip(l))
  {
    assert (ls + [l])[..|ls|] == ls;
  }

  /** A line that matches nothing, after only lines that matched nothing since the first, continues the first message. */
  lemma HeadJoin(lines: seq<string>, ps: seq<Result<Option<Line>, Fault>>, line: string, p: Result<Option<Line>, Fault>)
    requires |ps| == |lines| && lines != [] && Clean(ps) && Clean(ps + [p])
    requires p == Success(None) && Lead(ps[1..]) == |ps| - 1 && Lead((ps + [p])[1..]) == |ps|
    ensures Head(lines + [line], ps + [p]) == Continue(Head(lines, ps), line)
  {
    var x := ps[0].value.value;
    var L, P := lines + [line], ps + [p];
    var tail, more := Joined(lines[1..]), "\n" + Strip(line);
    assert P[0] == ps[0];
    assert lines[1..1 + Lead(ps[1..])] == lines[1..];
    assert Head(lines, ps).body == x.body + tail;
    Snoc(lines, line, 1, 1);
    assert L[1..1 + |ps|] == L[1..];
    JoinedMore(lines[1..], line);
    assert Head(L, P).body == x.body + (tail + more);
    assert x.body + (tail + more) == (x.body + tail) + more;
  }

  /** The segmentation of lines that all continue the first is that one message. */
  lemma SegmentsOne(lines: seq<string>, ps: seq<Result<Option<Line>, Fault>>)
    requires |ps| == |lines| && lines != [] && Clean(ps) && Lead(ps[1..]) == |ps| - 1
    ensures Segments(lines, ps) == [Head(lines, ps)]
  {
    SegmentsHead(lines, ps);
    assert lines[|ps|..] == [] && ps[|ps|..] == [];
  }

  /** The turn of the loop for a line that continues a segmentation of one message. */
  lemma EndJoin(lines: seq<string>, ps: seq<Result<Option<Line>, Fault>>, line: string, p: Result<Option<Line>, Fault>)
    requires |ps| == |lines| && lines != [] && Clean(ps) && Clean(ps + [p])
    requires p == Success(None) && Lead(ps[1..]) == |ps| - 1
    ensures Advance(Success(Segments(lines, ps)), line, p) == Success(Segments(lines + [line], ps + [p]))
  {
    var L, P := lines + [line], ps + [p];
    Snoc(ps, p, 1, 1);
    LeadMore(ps[1..], p);
    HeadJoin(lines, ps, line, p);
    SegmentsOne(lines, ps);
    SegmentsOne(L, P);
    var h := Head(lines, ps);
    assert [h][..0] + [Continue([h][0], line)] == [Continue(h, line)];
  }

  /** The turn of the loop for a line that opens a second message after a segmentation of one. */
  lemma EndOpen(lines: seq<string>, ps: seq<Result<Option<Line>, Fault>>, line: string, p: Result<Option<Line>, Fault>)
    requires |ps| == |lines| && lines != [] && Clean(ps) && Clean(ps + [p])
    requires p.Success? && p.value.Some? && Lead(ps[1..]) == |ps| - 1
    ensures Advance(Success(Segments(lines, ps)), line, p) == Success(Segments(lines + [line], ps + [p]))
  {
    var L, P := lines + [line], ps + [p];
    var k := |ps| - 1;
    assert P[0] == ps[0];
    Snoc(ps, p, 1, 1);
    LeadMore(ps[1..], p);
    Snoc(lines, line, 1, 1 + k);
    Snoc(lines, line, 1 + k, 1 + k);
    Snoc(ps, p, 1 + k, 1 + k);
    SegmentsHead(L, P);
    assert Head(L, P) == Head(lines, ps);
    assert L[1 + k..] == [line] && P[1 + k..] == [p];
    SegmentsHead([line], [p]);
    assert [line][1..1] == [] && [line][1..] == [] && [p][1..] == [];
    assert p.value.value.body + Joined([]) == p.value.value.body;
    assert Segments([line], [p]) == [p.value.value];
    SegmentsOne(lines, ps);
  }

  /** A line after the second message leaves the first message and where the second starts as they were. */
  lemma HeadStays(lines: seq<string>, ps: seq<Result<Option<Line>, Fault>>, line: string, p: Result<Option<Line>, Fault>)
    requires |ps| == |lines| && lines != [] && Clean(ps) && Clean(ps + [p]) && 1 + Lead(ps[1..]) < |lines|
    ensures var k := Lead(ps[1..]);
      && Lead((ps + [p])[1..]) == k
      && Head(lines + [line], ps + [p]) == Head(lines, ps)
      && (lines + [line])[1 + k..] == lines[1 + k..] + [line]
      && (ps + [p])[1 + k..] == ps[1 + k..] + [p]
  {
    var L, P := lines + [line], ps + [p];
    var k := Lead(ps[1..]);
    assert P[0] == ps[0];
    Snoc(ps, p, 1, 1);
    LeadMore(ps[1..], p);
    Snoc(lines, line, 1, 1 + k);
    Snoc(lines, line, 1 + k, 1 + k);
    Snoc(ps, p, 1 + k, 1 + k);
  }

  /** The turn of the loop for a line after the second message, given the turn on the messages after the first. */
  lemma Inside(lines: seq<string>, ps: seq<Result<Option<Line>, Fault>>, line: string, p: Result<Option<Line>, Fault>)
    requires |ps| == |lines| && lines != [] && Clean(ps) && Clean(ps + [p]) && 1 + Lead(ps[1..]) < |lines|
    requires var k := Lead(ps[1..]);
      && Clean(ps[1 + k..]) && Clean(ps[1 + k..] + [p])
      && Advance(Success(Segments(lines[1 + k..], ps[1 + k..])), line, p)
         == Success(Segments(lines[1 + k..] + [line], ps[1 + k..] + [p]))
    ensures Advance(Success(Segments(lines, ps)), line, p) == Success(Segments(lines + [line], ps + [p]))
  {
    var k := Lead(ps[1..]);
    HeadStays(lines, ps, line, p);
    SegmentsHead(lines, ps);
    SegmentsHead(lines + [line], ps + [p]);
    AdvanceAfter(Head(lines, ps), Segments(lines[1 + k..], ps[1 + k..]), line, p);
  }

  /** The message-at-a-time segmentation, extended by one line, is one more turn of the loop. */
  lemma {:induction false} SegmentsMore(lines: seq<string>, ps: seq<Result<Option<Line>, Fault>>, line: string, p: Result<Option<Line>, Fault>)
    requires |ps| == |lines| && lines != [] && Clean(ps + [p])
    ensures Clean(ps)
    ensures Advance(Success(Segments(lines, ps)), line, p) == Success(Segments(lines + [line], ps + [p]))
    decreases |lines|
  {
    var P := ps + [p];
    assert forall i :: 0 <= i < |ps| ==> P[i] == ps[i];
    assert Clean(ps);
    assert p == P[|ps|];
    var k := Lead(ps[1..]);
    if 1 + k < |lines| {
      SegmentsHead(lines, ps);
      assert Clean(ps[1 + k..] + [p]) by {
        var q := ps[1 + k..] + [p];
        assert forall i :: 0 <= i < |q| ==> q[i] == P[1 + k + i];
      }
      SegmentsMore(lines[1 + k..], ps[1 + k..], line, p);
      Inside(lines, ps, line, p);
    } else if p.value.Some? {
      EndOpen(lines, ps, line, p);
    } else {
      EndJoin(lines, ps, line, p);
    }
  }

  /** When nothing raises, the loop's scan is the message-at-a-time segmentation. */
  lemma {:induction false} ScanSegments(lines: seq<string>, ps: seq<Result<Option<Line>, Fault>>)
    requires |ps| == |lines| && Clean(ps)
    ensures Scan(lines, ps) == Success(Segments(lines, ps))
  {
    if lines != [] {
      var n := |lines| - 1;
      if n == 0 {
        assert lines[..0] == [] && ps[..0] == [] && lines[1..1] == [] && lines[1..] == [] && ps[1..] == [];
        var x := ps[0].value.value;
        assert x.body + Joined([]) == x.body;
        assert Segments(lines, ps) == [Line(x.date, x.user, x.body + Joined(lines[1..1]))] + Segments(lines[1..], ps[1..]);
        assert Segments(lines[1..], ps[1..]) == [];
        assert Line(x.date, x.user, x.body + Joined(lines[1..1])) == x;
        assert Scan(lines, ps) == Success([] + [x]);
        assert [] + [x] == [x] + [];
      } else {
        assert lines[..n] + [lines[n]] == lines && ps[..n] + [ps[n]] == ps;
        SegmentsMore(lines[..n], ps[..n], lines[n], ps[n]);
        ScanSegments(lines[..n], ps[..n]);
      }
    }
  }

  /** How many of the parses matched a shape. */
  function Count(ps: seq<Result<Option<Line>, Fault>>): nat {
    if ps == [] then 0 else (if ps[0].Success? && ps[0].value.Some? then 1 else 0) + Count(ps[1..])
  }

  /** Unmatched lines add to no count. */
  lemma {:induction false} CountSkip(ps: seq<Result<Option<Line>, Fault>>, k: nat)
    requires k <= |ps| && forall j :: 0 <= j < k ==> ps[j] == Success(None)
    ensures Count(ps) == Count(ps[k..])
  {
    if k > 0 {
      assert ps[1..][k - 1..] == ps[k..];
      CountSkip(ps[1..], k - 1);
    }
  }

  /** One message per line that matches a shape. */
  lemma {:induction false} SegmentsCount(lines: seq<string>, ps: seq<Result<Option<Line>, Fault>>)
    requires |ps| == |lines| && Clean(ps)
    ensures |Segments(lines, ps)| == Count(ps)
    decreases |lines|
  {
    if lines != [] {
      var k := Lead(ps[1..]);
      LeadSpan(ps[1..]);
      SegmentsHead(lines, ps);
      CountSkip(ps[1..], k);
      assert ps[1..][k..] == ps[1 + k..];
      SegmentsCount(lines[1 + k..], ps[1 + k..]);
    }
  }

  /** Closing the message before the last one extends the closed messages by it. */
  lemma ClosesMore(xs: seq<Line>, prefix: string)
    requires xs != []
    ensures Closes(xs[..|xs| - 1], prefix) + [Close(xs[|xs| - 1], prefix)] == Closes(xs, prefix)
  {
    var a := Closes(xs[..|xs| - 1], prefix) + [Close(xs[|xs| - 1], prefix)];
    var b := Closes(xs, prefix);
    assert |a| == |b|;
    forall k | 0 <= k < |a|
      ensures a[k] == b[k]
    {
      if k < |xs| - 1 {
        assert xs[..|xs| - 1][k] == xs[k];
      }
    }
  }

  // ---------------------------------------------------------------------
  // IdentifyMessages in terms of ParseLine.
  // ---------------------------------------------------------------------

  /** ParseLine raises nothing but timestamp errors. */
  lemma ParseAllFaults(lines: seq<string>, thisYear: int)
    ensures TimestampFaults(ParseAll(lines, thisYear))
  {
    var ps := ParseAll(lines, thisYear);
    forall i | 0 <= i < |ps| && ps[i].Failure?
      ensures ps[i].error.BadTimestamp?
    {
      ParseLineFails(lines[i], thisYear);
    }
  }

  /**
    IdentifyMessages raises Error exactly when the first line matches
    neither shape, and then for that line; it raises at all exactly when
    that happens or some line's timestamp cannot be read; no lines give no
    messages.
   */
  lemma MessagesRaise(lines: seq<string>, prefix: string, thisYear: int)
    ensures var r := Messages(lines, prefix, thisYear);
      r.Failure? && r.error.FirstLine? <==> lines != [] && ParseLine(lines[0], thisYear) == Success(None)
    ensures var r := Messages(lines, prefix, thisYear);
      r.Failure? && r.error.FirstLine? ==> r.error == FirstLine(lines[0])
    ensures Messages(lines, prefix, thisYear).Failure? <==>
      || (lines != [] && ParseLine(lines[0], thisYear) == Success(None))
      || exists i :: 0 <= i < |lines| && ParseLine(lines[i], thisYear).Failure?
    ensures lines == [] ==> Messages(lines, prefix, thisYear) == Success([])
  {
    var ps := ParseAll(lines, thisYear);
    ParseAllFaults(lines, thisYear);
    FirstLineError(lines, ps);
    ScanRaises(lines, ps);
    if Raised(ps) {
      var i :| 0 <= i < |ps| && ps[i].Failure?;
      assert ParseLine(lines[i], thisYear).Failure?;
    }
    if exists i :: 0 <= i < |lines| && ParseLine(lines[i], thisYear).Failure? {
      var i :| 0 <= i < |lines| && ParseLine(lines[i], thisYear).Failure?;
      assert ps[i].Failure?;
    }
  }

  /**
    When IdentifyMessages returns, it returns one message per line that
    matches a shape, each with the body of that line continued by the
    lines after it up to the next match, all closed but the last.
   */
  lemma MessagesSegments(lines: seq<string>, prefix: string, thisYear: int)
    requires Messages(lines, prefix, thisYear).Success?
    ensures Clean(ParseAll(lines, thisYear))
    ensures Messages(lines, prefix, thisYear).value == Emit(Segments(lines, ParseAll(lines, thisYear)), prefix)
    ensures |Messages(lines, prefix, thisYear).value| == Count(ParseAll(lines, thisYear))
  {
    var ps := ParseAll(lines, thisYear);
    ScanRaises(lines, ps);
    assert Clean(ps) by {
      forall i | 0 <= i < |ps|
        ensures ps[i].Success?
      {
        if ps[i].Failure? {
          assert Raised(ps);
        }
      }
    }
    ScanSegments(lines, ps);
    SegmentsCount(lines, ps);
  }

  /** `IdentifyMessages(lines, os)`, with the current year dateutil uses as a parameter. */
  method IdentifyMessages(lines: seq<string>, prefix: string, thisYear: int) returns (r: Result<seq<Message>, Fault>)
    ensures r == Messages(lines, prefix, thisYear)
  {
    ghost var ps := ParseAll(lines, thisYear);
    var messages: seq<Message> := [];
    var msgDate: Option<DateTime> := None;
    var msgUser := "";
    var msgBody := "";
    for i := 0 to |lines|
      invariant Scan(lines[..i], ps[..i]).Success?
      invariant var xs := Scan(lines[..i], ps[..i]).value;
        && (msgDate.None? <==> xs == [])
        && (xs == [] ==> messages == [])
        && (xs != [] ==> messages == Closes(xs[..|xs| - 1], prefix) && xs[|xs| - 1] == Line(msgDate.value, msgUser, msgBody))
    {
      ScanNext(lines, ps, i);
      ghost var xs := Scan(lines[..i], ps[..i]).value;
      var m := ParseLine(lines[i], thisYear);
      if m.Failure? {
        ScanStops(lines, ps, i + 1);
        return Failure(m.error);
      }
      if m.value.Some? {
        ghost var ys := xs + [m.value.value];
        assert ys[..|ys| - 1] == xs;
        if msgDate.Some? {
          ClosesMore(xs, prefix);
          messages := messages + [Closed(msgDate.value, msgUser, msgBody, ClosedRef(msgBody, prefix))];
        }
        msgDate, msgUser, msgBody := Some(m.value.value.date), m.value.value.user, m.value.value.body;
      } else {
        if msgDate.None? {
          ScanStops(lines, ps, i + 1);
          return Failure(FirstLine(lines[i]));
        }
        ghost var ys := xs[..|xs| - 1] + [Continue(xs[|xs| - 1], lines[i])];
        assert ys[..|ys| - 1] == xs[..|xs| - 1];
        msgBody := msgBody + ("\n" + Strip(lines[i]));
      }
    }
    assert lines[..|lines|] == lines && ps[..|lines|] == ps;
    if msgDate.Some? {
      ghost var xs := Scan(lines, ps).value;
      ClosesMore(xs, prefix);
      messages := messages + [Final(msgDate.value, msgUser, msgBody, FinalRef(msgBody), prefix)];
    }
    return Success(messages);
  }
}
