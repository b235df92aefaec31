/**
  TemplateData (whatsapp_archive.py:122-144): the messages arranged for the
  page template. Consecutive messages of one user form a run, shown under
  the date of its first message; the dates that open runs, each kept only
  when it differs from the one before, are listed by month.

  `itertools.groupby` is `GroupBy` here: the split of a sequence into
  maximal runs of elements with equal keys.
 */
module Grouping {
  import opened Wrappers
  import opened Text
  import opened Timestamps
  import opened Segmenter

  // ---------------------------------------------------------------------
  // itertools.groupby
  // ---------------------------------------------------------------------

  /** The groups one after another. */
  function Concat<T>(gs: seq<seq<T>>): seq<T> {
    if gs == [] then [] else gs[0] + Concat(gs[1..])
  }

  /** Every element of `g` has the key of its first. */
  ghost predicate Uniform<T, K>(g: seq<T>, key: T -> K) {
    forall j :: 0 <= j < |g| ==> key(g[j]) == key(g[0])
  }

  /**
    `gs` splits `xs` into runs as `itertools.groupby(xs, key)` does: in
    order, none empty, each of one key, and no two neighbours of the same
    key (so every run is as long as it can be).
   */
  ghost predicate IsGrouping<T, K>(xs: seq<T>, key: T -> K, gs: seq<seq<T>>) {
    && Concat(gs) == xs
    && (forall i :: 0 <= i < |gs| ==> gs[i] != [] && Uniform(gs[i], key))
    && (forall i :: 0 < i < |gs| ==> key(gs[i - 1][0]) != key(gs[i][0]))
  }

  /** `[list(g) for _, g in itertools.groupby(xs, key)]`. */
  function GroupBy<T, K(==)>(xs: seq<T>, key: T -> K): seq<seq<T>> {
    if xs == [] then []
    else
      var gs := GroupBy(xs[1..], key);
      if gs != [] && gs[0] != [] && key(gs[0][0]) == key(xs[0]) then [[xs[0]] + gs[0]] + gs[1..]
      else [[xs[0]]] + gs
  }

  /** GroupBy splits its input into maximal runs of one key, and the first run starts with the first element. */
  lemma {:induction false} GroupBySound<T, K>(xs: seq<T>, key: T -> K)
    ensures IsGrouping(xs, key, GroupBy(xs, key))
    ensures xs != [] ==> GroupBy(xs, key) != [] && GroupBy(xs, key)[0][0] == xs[0]
  {
    if xs != [] {
      var x := xs[0];
      var gs := GroupBy(xs[1..], key);
      GroupBySound(xs[1..], key);
      assert xs == [x] + xs[1..];
      if gs != [] && key(gs[0][0]) == key(x) {
        var hs := [[x] + gs[0]] + gs[1..];
        assert hs[1..] == gs[1..];
        assert Concat(hs) == [x] + (gs[0] + Concat(gs[1..]));
        assert Uniform(hs[0], key) by {
          assert forall j :: 0 < j < |hs[0]| ==> hs[0][j] == gs[0][j - 1];
        }
        assert forall i :: 0 < i < |hs| ==> hs[i] == gs[i];
      } else {
        var hs := [[x]] + gs;
        assert hs[1..] == gs;
        assert forall i :: 0 < i < |hs| ==> hs[i] == gs[i - 1];
      }
    }
  }

  /** No run is empty. */
  lemma NonEmptyGroups<T, K>(xs: seq<T>, key: T -> K)
    ensures forall i :: 0 <= i < |GroupBy(xs, key)| ==> GroupBy(xs, key)[i] != []
  {
    GroupBySound(xs, key);
  }

  /** A non-empty concatenation of non-empty groups starts with the first element of the first group. */
  lemma ConcatFirst<T>(gs: seq<seq<T>>)
    requires gs != [] && gs[0] != []
    ensures Concat(gs) != [] && Concat(gs)[0] == gs[0][0]
  {
  }

  /** A grouping of `xs` is its first group, then a grouping of the rest. */
  lemma GroupingRest<T, K>(xs: seq<T>, key: T -> K, gs: seq<seq<T>>)
    requires IsGrouping(xs, key, gs) && gs != []
    ensures xs[..|gs[0]|] == gs[0] && IsGrouping(xs[|gs[0]|..], key, gs[1..])
  {
    assert xs == gs[0] + Concat(gs[1..]);
    assert forall i :: 0 <= i < |gs| - 1 ==> gs[1..][i] == gs[i + 1];
  }

  /** There is only one such split: IsGrouping pins GroupBy down. */
  lemma {:induction false} GroupingUnique<T, K>(xs: seq<T>, key: T -> K, gs: seq<seq<T>>, hs: seq<seq<T>>)
    requires IsGrouping(xs, key, gs) && IsGrouping(xs, key, hs)
    ensures gs == hs
    decreases |xs|
  {
    if gs != [] && hs != [] {
      GroupingRest(xs, key, gs);
      GroupingRest(xs, key, hs);
      FirstRun(xs, key, gs, hs);
      FirstRun(xs, key, hs, gs);
      GroupingUnique(xs[|gs[0]|..], key, gs[1..], hs[1..]);
      assert gs == [gs[0]] + gs[1..] && hs == [hs[0]] + hs[1..];
    } else if gs != [] {
      ConcatFirst(gs);
    } else if hs != [] {
      ConcatFirst(hs);
    }
  }

  /** The first run of one grouping is no longer than the first run of another. */
  lemma FirstRun<T, K>(xs: seq<T>, key: T -> K, gs: seq<seq<T>>, hs: seq<seq<T>>)
    requires IsGrouping(xs, key, gs) && IsGrouping(xs, key, hs) && gs != [] && hs != []
    ensures |gs[0]| <= |hs[0]|
  {
    var a, b := |gs[0]|, |hs[0]|;
    GroupingRest(xs, key, gs);
    GroupingRest(xs, key, hs);
    if b < a {
      // The element after the first run of hs opens its second run, of
      // another key, yet lies inside the first run of gs.
      assert hs[1..] != [];
      ConcatFirst(hs[1..]);
      assert false;
    }
  }

  /** Concatenating one more group appends it. */
  lemma {:induction false} ConcatLast<T>(gs: seq<seq<T>>, g: seq<T>)
    ensures Concat(gs + [g]) == Concat(gs) + g
  {
    if gs != [] {
      assert (gs + [g])[1..] == gs[1..] + [g];
      ConcatLast(gs[1..], g);
    }
  }

  /** The last element of a grouped sequence has the key of the last run. */
  lemma GroupingLastKey<T, K>(xs: seq<T>, key: T -> K, gs: seq<seq<T>>)
    requires IsGrouping(xs, key, gs) && gs != []
    ensures xs != [] && key(xs[|xs| - 1]) == key(gs[|gs| - 1][0])
  {
    var n := |gs| - 1;
    assert gs == gs[..n] + [gs[n]];
    ConcatLast(gs[..n], gs[n]);
    assert xs[|xs| - 1] == gs[n][|gs[n]| - 1];
  }

  /** An element with the key of the last run extends that run. */
  lemma GroupingJoin<T, K>(xs: seq<T>, x: T, key: T -> K, gs: seq<seq<T>>)
    requires IsGrouping(xs, key, gs) && gs != [] && key(gs[|gs| - 1][0]) == key(x)
    ensures IsGrouping(xs + [x], key, gs[..|gs| - 1] + [gs[|gs| - 1] + [x]])
  {
    var n := |gs| - 1;
    var hs := gs[..n] + [gs[n] + [x]];
    assert gs == gs[..n] + [gs[n]];
    ConcatLast(gs[..n], gs[n]);
    ConcatLast(gs[..n], gs[n] + [x]);
    assert Uniform(hs[n], key) by {
      assert forall j :: 0 <= j < |gs[n]| ==> hs[n][j] == gs[n][j];
    }
    assert forall i :: 0 <= i < n ==> hs[i] == gs[i];
    assert hs[n][0] == gs[n][0];
  }

  /** An element with another key than the last run opens a run of its own. */
  lemma GroupingOpen<T, K>(xs: seq<T>, x: T, key: T -> K, gs: seq<seq<T>>)
    requires IsGrouping(xs, key, gs) && (gs == [] || key(gs[|gs| - 1][0]) != key(x))
    ensures IsGrouping(xs + [x], key, gs + [[x]])
  {
    var hs := gs + [[x]];
    ConcatLast(gs, [x]);
    assert forall i :: 0 <= i < |gs| ==> hs[i] == gs[i];
  }

  /** Grouping one more element: it joins the last run when it has the key of the element before it, and opens a new run otherwise. */
  lemma GroupByLast<T, K>(xs: seq<T>, x: T, key: T -> K)
    ensures xs == [] || key(xs[|xs| - 1]) != key(x) ==> GroupBy(xs + [x], key) == GroupBy(xs, key) + [[x]]
    ensures xs != [] && key(xs[|xs| - 1]) == key(x) ==>
      var gs := GroupBy(xs, key);
      gs != [] && GroupBy(xs + [x], key) == gs[..|gs| - 1] + [gs[|gs| - 1] + [x]]
  {
    var gs := GroupBy(xs, key);
    GroupBySound(xs, key);
    GroupBySound(xs + [x], key);
    if gs != [] {
      GroupingLastKey(xs, key, gs);
    }
    if xs != [] && key(xs[|xs| - 1]) == key(x) {
      GroupingJoin(xs, x, key, gs);
      GroupingUnique(xs + [x], key, gs[..|gs| - 1] + [gs[|gs| - 1] + [x]], GroupBy(xs + [x], key));
    } else {
      GroupingOpen(xs, x, key, gs);
      GroupingUnique(xs + [x], key, gs + [[x]], GroupBy(xs + [x], key));
    }
  }

  // ---------------------------------------------------------------------
  // The template data.
  // ---------------------------------------------------------------------

  /** `datetime.date()`: the calendar day of a timestamp. */
  datatype Day = Day(year: int, month: int, day: int)

  /** A run of consecutive messages of one user: `(user, first_msg_date, msgs)`. */
  datatype UserRun = UserRun(user: string, first: Day, msgs: seq<Message>)

  /** The days of one month: `((year, month), [(day_of_month, date)])`. */
  datatype MonthDays = MonthDays(month: (int, int), days: seq<(int, Day)>)

  /** The dictionary TemplateData returns. */
  datatype Template = Template(byUser: seq<UserRun>, dates: seq<MonthDays>, inputBasename: string, inputFullPath: string)

  /** The grouping key of the messages, `x[1]`. */
  function UserOf(m: Message): string {
    m.user
  }

  /** `msg[0].date()`. */
  function DayOf(m: Message): Day {
    Day(m.date.year, m.date.month, m.date.day)
  }

  /** The grouping key of the dates, `(x.year, x.month)`. */
  function MonthOf(d: Day): (int, int) {
    (d.year, d.month)
  }

  /** The identity, as the key under which equal dates form runs. */
  function Self(d: Day): Day {
    d
  }

  /** The runs of `by_user`, one per group of consecutive messages of a user. */
  function Runs(ms: seq<Message>): (runs: seq<UserRun>)
    ensures |runs| == |GroupBy(ms, UserOf)|
  {
    var gs := GroupBy(ms, UserOf);
    GroupBySound(ms, UserOf);
    seq(|gs|, i requires 0 <= i < |gs| => UserRun(UserOf(gs[i][0]), DayOf(gs[i][0]), gs[i]))
  }

  /** The messages of each run. */
  function Msgs(runs: seq<UserRun>): seq<seq<Message>> {
    seq(|runs|, i requires 0 <= i < |runs| => runs[i].msgs)
  }

  /** The date each run opens with. */
  function Firsts(runs: seq<UserRun>): seq<Day> {
    seq(|runs|, i requires 0 <= i < |runs| => runs[i].first)
  }

  /** The dates loop: each date unless it is the one just before it. */
  function Dedup(ds: seq<Day>): seq<Day> {
    if ds == [] then []
    else
      var n := |ds| - 1;
      if n > 0 && ds[n - 1] == ds[n] then Dedup(ds[..n]) else Dedup(ds[..n]) + [ds[n]]
  }

  /** `[(d.day, d) for d in days]`. */
  function Entries(days: seq<Day>): (es: seq<(int, Day)>)
    ensures |es| == |days| && forall j :: 0 <= j < |days| ==> es[j] == (days[j].day, days[j])
  {
    seq(|days|, j requires 0 <= j < |days| => (days[j].day, days[j]))
  }

  /** `by_month`: the dates grouped by year and month. */
  function Months(ds: seq<Day>): (ms: seq<MonthDays>)
    ensures |ms| == |GroupBy(ds, MonthOf)|
  {
    var gs := GroupBy(ds, MonthOf);
    GroupBySound(ds, MonthOf);
    seq(|gs|, i requires 0 <= i < |gs| => MonthDays(MonthOf(gs[i][0]), Entries(gs[i])))
  }

  /** The dates of the entries of each month. */
  function MonthDates(ms: seq<MonthDays>): seq<seq<Day>> {
    seq(|ms|, i requires 0 <= i < |ms| => seq(|ms[i].days|, j requires 0 <= j < |ms[i].days| => ms[i].days[j].1))
  }

  // ---------------------------------------------------------------------
  // What the template data says.
  // ---------------------------------------------------------------------

  /**
    `by_user` gives back the messages in order; each run is non-empty, of
    one user, and dated by its first message; neighbouring runs are of
    different users.
   */
  lemma RunsSound(ms: seq<Message>)
    ensures Concat(Msgs(Runs(ms))) == ms
    ensures forall i :: 0 <= i < |Runs(ms)| ==>
      && Runs(ms)[i].msgs != []
      && Runs(ms)[i].first == DayOf(Runs(ms)[i].msgs[0])
      && forall j :: 0 <= j < |Runs(ms)[i].msgs| ==> Runs(ms)[i].msgs[j].user == Runs(ms)[i].user
    ensures forall i :: 0 < i < |Runs(ms)| ==> Runs(ms)[i - 1].user != Runs(ms)[i].user
  {
    var gs := GroupBy(ms, UserOf);
    GroupBySound(ms, UserOf);
    assert Msgs(Runs(ms)) == gs;
  }

  /** Any runs with those properties are `by_user`. */
  lemma RunsUnique(ms: seq<Message>, runs: seq<UserRun>)
    requires Concat(Msgs(runs)) == ms
    requires forall i :: 0 <= i < |runs| ==>
      && runs[i].msgs != []
      && runs[i].first == DayOf(runs[i].msgs[0])
      && forall j :: 0 <= j < |runs[i].msgs| ==> runs[i].msgs[j].user == runs[i].user
    requires forall i :: 0 < i < |runs| ==> runs[i - 1].user != runs[i].user
    ensures runs == Runs(ms)
  {
    var gs := Msgs(runs);
    assert IsGrouping(ms, UserOf, gs) by {
      forall i | 0 <= i < |gs|
        ensures gs[i] != [] && Uniform(gs[i], UserOf)
      {
        assert gs[i] == runs[i].msgs;
      }
      forall i | 0 < i < |gs|
        ensures UserOf(gs[i - 1][0]) != UserOf(gs[i][0])
      {
        assert gs[i - 1] == runs[i - 1].msgs && gs[i] == runs[i].msgs;
      }
    }
    GroupBySound(ms, UserOf);
    GroupingUnique(ms, UserOf, gs, GroupBy(ms, UserOf));
    assert forall i :: 0 <= i < |runs| ==> runs[i].msgs == gs[i];
  }

  /** The dates loop keeps the first date of each run of equal dates: no date follows an equal one. */
  lemma {:induction false} DedupSound(ds: seq<Day>)
    ensures forall i :: 0 < i < |Dedup(ds)| ==> Dedup(ds)[i - 1] != Dedup(ds)[i]
    ensures forall d :: d in Dedup(ds) <==> d in ds
    ensures ds != [] ==> Dedup(ds) != [] && Dedup(ds)[|Dedup(ds)| - 1] == ds[|ds| - 1]
  {
    if ds != [] {
      var n := |ds| - 1;
      DedupSound(ds[..n]);
      assert ds == ds[..n] + [ds[n]];
      if n > 0 {
        assert ds[n - 1] == ds[..n][n - 1];
      }
    }
  }

  /** The dates loop keeps exactly the first date of each run of equal dates, as `groupby(dates)` splits them. */
  lemma {:induction false} DedupHeads(ds: seq<Day>)
    ensures var gs := GroupBy(ds, Self);
      && |Dedup(ds)| == |gs|
      && forall i :: 0 <= i < |gs| ==> gs[i] != [] && Dedup(ds)[i] == gs[i][0]
  {
    GroupBySound(ds, Self);
    if ds != [] {
      var n := |ds| - 1;
      var xs, x := ds[..n], ds[n];
      assert ds == xs + [x];
      DedupHeads(xs);
      GroupByLast(xs, x, Self);
      var gs := GroupBy(xs, Self);
      if n > 0 && ds[n - 1] == x {
        assert xs[|xs| - 1] == ds[n - 1];
        var hs := gs[..|gs| - 1] + [gs[|gs| - 1] + [x]];
        assert forall i :: 0 <= i < |gs| ==> hs[i][0] == gs[i][0];
      } else {
        if n > 0 {
          assert xs[|xs| - 1] == ds[n - 1];
        }
        var hs := gs + [[x]];
        assert forall i :: 0 <= i < |gs| ==> hs[i] == gs[i];
      }
    }
  }

  /** Dates with no date next to an equal one come out as they went in. */
  lemma {:induction false} DedupKeeps(ds: seq<Day>)
    requires forall i :: 0 < i < |ds| ==> ds[i - 1] != ds[i]
    ensures Dedup(ds) == ds
  {
    if ds != [] {
      var n := |ds| - 1;
      DedupKeeps(ds[..n]);
      assert ds == ds[..n] + [ds[n]];
    }
  }

  /** `by_month` gives back the dates, each with its day of the month; each month is non-empty and holds only dates of that year and month; neighbouring months differ. */
  lemma MonthsSound(ds: seq<Day>)
    ensures Concat(MonthDates(Months(ds))) == ds
    ensures forall i :: 0 <= i < |Months(ds)| ==>
      && Months(ds)[i].days != []
      && forall j :: 0 <= j < |Months(ds)[i].days| ==>
           && Months(ds)[i].days[j].0 == Months(ds)[i].days[j].1.day
           && MonthOf(Months(ds)[i].days[j].1) == Months(ds)[i].month
    ensures forall i :: 0 < i < |Months(ds)| ==> Months(ds)[i - 1].month != Months(ds)[i].month
  {
    var gs := GroupBy(ds, MonthOf);
    GroupBySound(ds, MonthOf);
    var ms := Months(ds);
    assert MonthDates(ms) == gs by {
      forall i | 0 <= i < |gs|
        ensures MonthDates(ms)[i] == gs[i]
      {
        assert ms[i].days == Entries(gs[i]);
      }
    }
  }

  /** The dates loop reads one more date. */
  lemma DedupNext(ds: seq<Day>, i: nat)
    requires i < |ds|
    ensures Dedup(ds[..i + 1]) == if i > 0 && ds[i - 1] == ds[i] then Dedup(ds[..i]) else Dedup(ds[..i]) + [ds[i]]
  {
    assert ds[..i + 1][..i] == ds[..i];
  }

  /** The first `i + 1` of some values are the first `i` and the next. */
  lemma TakeNext<T>(s: seq<T>, i: nat)
    requires i < |s|
    ensures s[..i + 1] == s[..i] + [s[i]]
  {
  }

  /**
    `TemplateData(messages, input_filename)`: the runs of each user, the
    dates that open runs (each unless it repeats the one before) by month,
    and the file's base name and full path.
   */
  method TemplateData(messages: seq<Message>, inputFilename: string) returns (t: Template)
    ensures t.byUser == Runs(messages)
    ensures t.dates == Months(Dedup(Firsts(Runs(messages))))
    ensures t.inputBasename == Basename(inputFilename) && t.inputFullPath == inputFilename
  {
    var byUser: seq<UserRun> := [];
    var fileBasename := Basename(inputFilename);
    var groups := GroupBy(messages, UserOf);
    NonEmptyGroups(messages, UserOf);
    ghost var runs := Runs(messages);
    for i := 0 to |groups|
      invariant byUser == runs[..i]
    {
      var msgsAsList := groups[i];
      TakeNext(runs, i);
      byUser := byUser + [UserRun(UserOf(msgsAsList[0]), DayOf(msgsAsList[0]), msgsAsList)];
    }
    assert byUser == runs;
    var dates: seq<Day> := [];
    var prevDate: Option<Day> := None;
    ghost var firsts := Firsts(byUser);
    for i := 0 to |byUser|
      invariant dates == Dedup(firsts[..i])
      invariant prevDate == if i == 0 then None else Some(firsts[i - 1])
    {
      var firstMsgDate := byUser[i].first;
      DedupNext(firsts, i);
      if Some(firstMsgDate) != prevDate {
        dates := dates + [firstMsgDate];
      }
      prevDate := Some(firstMsgDate);
    }
    assert firsts[..|byUser|] == firsts;
    var byMonth: seq<MonthDays> := [];
    var months := GroupBy(dates, MonthOf);
    NonEmptyGroups(dates, MonthOf);
    ghost var entries := Months(dates);
    for i := 0 to |months|
      invariant byMonth == entries[..i]
    {
      var days := months[i];
      TakeNext(entries, i);
      byMonth := byMonth + [MonthDays(MonthOf(days[0]), Entries(days))];
    }
    assert byMonth == entries;
    return Template(byUser, byMonth, fileBasename, inputFilename);
  }
}
