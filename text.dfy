/**
  The string operations of whatsapp_archive.py: the character classes its
  regular expressions use, `str.strip()`, substring tests, `split("(")[0]`,
  the `[1:-1]` slice, `replace("\\", "/")` and `os.path.basename`.
 */
module Text {

  /** The character classes the line patterns use: `\d`, `[\d:]`, `[^:]` and `.`. */
  datatype Class = Digits | ClockChars | NotColon | NotNewline

  predicate IsDigit(c: char) {
    '0' <= c <= '9'
  }

  predicate In(c: char, cls: Class) {
    match cls
    case Digits => IsDigit(c)
    case ClockChars => IsDigit(c) || c == ':'
    case NotColon => c != ':'
    case NotNewline => c != '\n'
  }

  predicate AllIn(s: string, cls: Class) {
    forall k :: 0 <= k < |s| ==> In(s[k], cls)
  }

  /** Length of the longest prefix of `u` in class `cls`: how far a greedy `cls+` or `cls*` reads. */
  function Run(u: string, cls: Class): (n: nat)
    ensures n <= |u|
  {
    if |u| > 0 && In(u[0], cls) then 1 + Run(u[1..], cls) else 0
  }

  /** A run stops at the end of the string or at a character outside the class. */
  lemma {:induction false} RunEnd(u: string, cls: Class)
    ensures Run(u, cls) == |u| || !In(u[Run(u, cls)], cls)
  {
    if |u| > 0 && In(u[0], cls) {
      RunEnd(u[1..], cls);
    }
  }

  /** The prefix a run reads is all of the class. */
  lemma {:induction false} RunText(u: string, cls: Class)
    ensures AllIn(u[..Run(u, cls)], cls)
  {
    if |u| > 0 && In(u[0], cls) {
      var n := Run(u, cls);
      RunText(u[1..], cls);
      forall k | 0 <= k < n ensures In(u[..n][k], cls) {
        if k > 0 {
          assert u[..n][k] == u[1..][..n - 1][k - 1];
        }
      }
    }
  }

  /** A prefix of the class followed by a character outside it (or by nothing) is exactly what Run reads. */
  lemma {:induction false} RunStops(x: string, y: string, cls: Class)
    requires AllIn(x, cls) && (y == [] || !In(y[0], cls))
    ensures Run(x + y, cls) == |x|
  {
    if x == [] {
      assert x + y == y;
    } else {
      assert (x + y)[1..] == x[1..] + y;
      RunStops(x[1..], y, cls);
    }
  }

  /** A greedy run reads at least as far as any prefix of the class. */
  lemma {:induction false} RunCovers(x: string, y: string, cls: Class)
    requires AllIn(x, cls)
    ensures |x| <= Run(x + y, cls)
  {
    if x != [] {
      assert (x + y)[1..] == x[1..] + y;
      RunCovers(x[1..], y, cls);
    }
  }

  /** `u` starts with `t`. */
  predicate StartsWith(u: string, t: string) {
    |t| <= |u| && u[..|t|] == t
  }

  /** A string that starts with `t` is `t` followed by the rest. */
  lemma StartThen(u: string, t: string)
    requires StartsWith(u, t)
    ensures u == t + u[|t|..]
  {
    assert u == u[..|t|] + u[|t|..];
  }

  /** A string is what comes before position `n` followed by what comes after. */
  lemma Split(u: string, n: nat)
    requires n <= |u|
    ensures u[..n] + u[n..] == u
  {
  }

  /** Taking the character at position `n` apart from what surrounds it. */
  lemma Around(u: string, n: nat)
    requires n < |u|
    ensures u == u[..n] + ([u[n]] + u[n + 1..])
  {
    assert u[n..] == [u[n]] + u[n + 1..];
    assert u == u[..n] + u[n..];
  }

  /** What follows `x` and one more character. */
  lemma DropPast(x: string, c: char, y: string)
    ensures (x + ([c] + y))[|x| + 1..] == y
  {
    var u := x + ([c] + y);
    assert u[|x|..] == [c] + y;
    assert u[|x| + 1..] == u[|x|..][1..];
  }

  /** Python's `str.isspace()`: Unicode White_Space together with U+001C..U+001F. */
  predicate IsSpace(c: char) {
    || c == ' '
    || '\U{9}' <= c <= '\U{d}'
    || '\U{1c}' <= c <= '\U{1f}'
    || c == '\U{85}' || c == '\U{a0}' || c == '\U{1680}'
    || '\U{2000}' <= c <= '\U{200a}'
    || c == '\U{2028}' || c == '\U{2029}' || c == '\U{202f}' || c == '\U{205f}' || c == '\U{3000}'
  }

  /** Drops leading whitespace. */
  function StripStart(s: string): string {
    if |s| > 0 && IsSpace(s[0]) then StripStart(s[1..]) else s
  }

  /** Drops trailing whitespace. */
  function StripEnd(s: string): string {
    if |s| > 0 && IsSpace(s[|s| - 1]) then StripEnd(s[..|s| - 1]) else s
  }

  /** What StripStart leaves is a suffix after only whitespace, and starts with no whitespace. */
  lemma {:induction false} StripStartSpan(s: string)
    ensures var r := StripStart(s);
      && |r| <= |s| && r == s[|s| - |r|..]
      && (forall k :: 0 <= k < |s| - |r| ==> IsSpace(s[k]))
      && (r == [] || !IsSpace(r[0]))
  {
    if |s| > 0 && IsSpace(s[0]) {
      StripStartSpan(s[1..]);
      assert forall k :: 0 < k < |s| ==> s[1..][k - 1] == s[k];
    }
  }

  /** What StripEnd leaves is a prefix before only whitespace, and ends with no whitespace. */
  lemma {:induction false} StripEndSpan(s: string)
    ensures var r := StripEnd(s);
      && |r| <= |s| && r == s[..|r|]
      && (forall k :: |r| <= k < |s| ==> IsSpace(s[k]))
      && (r == [] || !IsSpace(r[|r| - 1]))
  {
    if |s| > 0 && IsSpace(s[|s| - 1]) {
      StripEndSpan(s[..|s| - 1]);
      assert forall k :: 0 <= k < |s| - 1 ==> s[..|s| - 1][k] == s[k];
    }
  }

  /** `r` is `s[a..a + |r|]` and everything around it in `s` is whitespace. */
  predicate Trims(s: string, a: nat, r: string) {
    && a + |r| <= |s| && r == s[a..a + |r|]
    && (forall k :: 0 <= k < a ==> IsSpace(s[k]))
    && (forall k :: a + |r| <= k < |s| ==> IsSpace(s[k]))
  }

  /** `s.strip()`: the part of `s` between leading and trailing whitespace. */
  function Strip(s: string): string {
    StripEnd(StripStart(s))
  }

  /** Strip removes exactly the whitespace at both ends: what it leaves sits in `s` between whitespace and neither starts nor ends with any. */
  lemma StripTrims(s: string)
    ensures var r := Strip(s);
      && (r == [] || (!IsSpace(r[0]) && !IsSpace(r[|r| - 1])))
      && exists a :: Trims(s, a, r)
  {
    var t := StripStart(s);
    var r := StripEnd(t);
    StripStartSpan(s);
    StripEndSpan(t);
    assert forall k :: 0 <= k < |t| ==> t[k] == s[|s| - |t| + k];
    assert Trims(s, |s| - |t|, r);
  }

  /** `t` occurs in `s` at position `i`. */
  predicate OccursAt(s: string, t: string, i: nat) {
    i + |t| <= |s| && s[i..i + |t|] == t
  }

  /** `t in s` for strings: `t` occurs in `s` at some position. */
  function Contains(s: string, t: string): (b: bool)
    ensures b <==> exists i :: OccursAt(s, t, i)
    decreases |s|
  {
    if |t| > |s| then false
    else if s[..|t|] == t then assert OccursAt(s, t, 0); true
    else
      var b := Contains(s[1..], t);
      assert b ==> exists i :: OccursAt(s, t, i) by {
        if b {
          var i: nat :| OccursAt(s[1..], t, i);
          assert s[1..][i..i + |t|] == s[i + 1..i + 1 + |t|];
          assert OccursAt(s, t, i + 1);
        }
      }
      assert (exists i :: OccursAt(s, t, i)) ==> b by {
        if exists i :: OccursAt(s, t, i) {
          var i: nat :| OccursAt(s, t, i);
          assert i != 0;
          assert s[1..][i - 1..i - 1 + |t|] == s[i..i + |t|];
          assert OccursAt(s[1..], t, i - 1);
        }
      }
      b
  }

  /** `s.split("(")[0]`: the longest prefix of `s` without an opening parenthesis. */
  function BeforeParen(s: string): (r: string)
    ensures |r| <= |s| && r == s[..|r|]
    ensures '(' !in r
    ensures |r| < |s| ==> s[|r|] == '('
  {
    if |s| == 0 || s[0] == '(' then "" else [s[0]] + BeforeParen(s[1..])
  }

  /** `s[1:-1]` with Python's clamping: the string without its first and last character, empty when it has fewer than two. */
  function InnerSlice(s: string): (r: string)
    ensures |r| == if |s| < 2 then 0 else |s| - 2
    ensures forall k :: 0 <= k < |r| ==> r[k] == s[k + 1]
  {
    if |s| < 2 then "" else s[1..|s| - 1]
  }

  /** `s.replace("\\", "/")`. */
  function Slashes(s: string): (r: string)
    ensures |r| == |s|
    ensures forall k :: 0 <= k < |s| ==> r[k] == if s[k] == '\\' then '/' else s[k]
  {
    if |s| == 0 then "" else Slashes(s[..|s| - 1]) + [if s[|s| - 1] == '\\' then '/' else s[|s| - 1]]
  }

  /** After the replacement no backslash is left, and replacing piecewise is the same as replacing the whole. */
  lemma SlashesOfConcat(a: string, b: string)
    ensures Slashes(a + b) == Slashes(a) + Slashes(b)
    ensures '\\' !in Slashes(a + b)
  {
    var r := Slashes(a + b);
    assert forall k :: 0 <= k < |a| ==> r[k] == Slashes(a)[k];
    assert forall k :: |a| <= k < |a| + |b| ==> r[k] == Slashes(b)[k - |a|];
  }

  /** `os.path.basename(p)` on POSIX: what follows the last slash. */
  function Basename(p: string): string {
    if |p| == 0 || p[|p| - 1] == '/' then "" else Basename(p[..|p| - 1]) + [p[|p| - 1]]
  }

  /** The base name is the longest suffix of `p` without a slash: a suffix, slash-free, and either all of `p` or preceded by a slash. */
  lemma {:induction false} BasenameSuffix(p: string)
    ensures var r := Basename(p);
      && |r| <= |p| && r == p[|p| - |r|..]
      && '/' !in r
      && (|r| < |p| ==> p[|p| - |r| - 1] == '/')
  {
    if |p| > 0 && p[|p| - 1] != '/' {
      var q := p[..|p| - 1];
      BasenameSuffix(q);
      var r := Basename(q);
      assert p[|p| - |r| - 1..] == q[|q| - |r|..] + [p[|p| - 1]];
      if |r| < |q| {
        assert p[|p| - |r| - 2] == q[|q| - |r| - 1];
      }
    }
  }
}
