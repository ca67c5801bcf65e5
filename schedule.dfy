/** The schedule pass over the extracted records (app.py lines 31-112): each
    row's start is its own date, or the day after the previous row's end when it
    depends on the previous task; its end is its start plus its duration; then
    consecutive rows are compared for conflicts and the dated rows are charted.
    Dates are day ordinals from 1 January 1900, as in the Calendar module. */
module Schedule {
  import opened Options
  import opened PyStr
  import Calendar
  import Parser

  // ---------------------------------------------------------------------------
  // What one record gives by itself (lines 49-50)

  /** `parse_date(row["start_date"]) if row["start_date"] else None` */
  function GivenStart(t: Parser.TaskRecord): (o: Option<nat>)
    ensures o.Some? ==> t.startDate != [] && o.value < Calendar.YearLength
  {
    if t.startDate != [] then Calendar.ParseDate(t.startDate) else None
  }

  /** `parse_duration(row["duration"]) if row["duration"] else timedelta(days=0)`, in days. */
  function Duration(t: Parser.TaskRecord): (days: nat)
    ensures days <= Calendar.MaxTimedeltaDays
    ensures t.duration == [] ==> days == 0
  {
    if t.duration != [] then Calendar.ParseDuration(t.duration) else 0
  }

  /** What the pass reads from one record: its own start, its duration in days,
      and whether it depends on the previous task. */
  datatype Row = Row(given: Option<nat>, days: nat, dependent: bool)

  function RowOf(t: Parser.TaskRecord): (r: Row)
    ensures r.given.Some? ==> r.given.value < Calendar.YearLength
    ensures r.days <= Calendar.MaxTimedeltaDays
  {
    Row(GivenStart(t), Duration(t), t.dependsOn == Parser.PreviousTask)
  }

  function Rows(tasks: seq<Parser.TaskRecord>): (rows: seq<Row>)
    ensures |rows| == |tasks| && forall i :: 0 <= i < |tasks| ==> rows[i] == RowOf(tasks[i])
    ensures FirstYearDates(rows)
  {
    seq(|tasks|, i requires 0 <= i < |tasks| => RowOf(tasks[i]))
  }

  /** The day a captured date text of month m names, when 1900 has that day. */
  function NamedDay(t: string, m: nat): Option<nat>
    requires Parser.IsDateTextOf(t, m)
  {
    var q := |Calendar.MonthNames[m]|;
    assert AllDigits(t[q + 1..]);
    var v := DecimalValue(t[q + 1..]);
    if Calendar.ValidDay(m, v) then Some(Calendar.Ordinal(m, v)) else None
  }

  /** The day count a captured duration text names: its leading number, or 0
      past timedelta's limit. */
  function NamedDays(t: string, q: nat): nat
    requires 0 < q <= |t| && DigitsBetween(t, 0, q)
  {
    assert AllDigits(t[..q]);
    var v := DecimalValue(t[..q]);
    if v <= Calendar.MaxTimedeltaDays then v else 0
  }

  /** parse_date reads a captured date text as the day it names. */
  lemma DayOfDateText(t: string)
    requires Parser.IsDateText(t)
    ensures exists m :: Parser.IsDateTextOf(t, m) && Calendar.ParseDate(t) == NamedDay(t, m)
  {
    var m :| Parser.IsDateTextOf(t, m);
    Calendar.ParseDateAfterName(t, m);
  }

  /** parse_duration reads a captured duration text as the count it names; the
      unit word is not looked at. */
  lemma DaysOfDurationText(u: string)
    requires Parser.IsDurationText(u)
    ensures exists q, r :: Parser.IsDurationTextAt(u, q, r) && Calendar.ParseDuration(u) == NamedDays(u, q)
  {
    var q, r :| Parser.IsDurationTextAt(u, q, r);
    UnitHasNoDigit(u, q, r);
    Calendar.ParseDurationOfNumber(u[..q], u[q..]);
    assert u[..q] + u[q..] == u;
  }

  /** After its number, a duration text holds only whitespace and a unit word. */
  lemma UnitHasNoDigit(u: string, q: nat, r: nat)
    requires Parser.IsDurationTextAt(u, q, r)
    ensures forall i :: q <= i < |u| ==> !IsDigit(u[i])
    ensures forall i :: 0 <= i < |u[q..]| ==> !IsDigit(u[q..][i])
  {
    forall i | q <= i < |u| ensures !IsDigit(u[i]) {
      if i < r {
        assert IsSpace(u[i]);
      } else {
        Parser.UnitLetters(u[r..]);
        assert u[i] == u[r..][i - r];
      }
    }
  }

  /** From sentence to row: the row's own start is the day named by the
      leftmost, longest date text of the sentence (none without one, or when
      1900 has no such day); its duration is the count named by the leftmost,
      longest duration text (0 without one); it depends on the previous task
      exactly when the sentence has the cue. */
  lemma RowOfSentence(sent: string)
    ensures var t, row := Parser.DateText(sent), RowOf(Parser.SentenceRecord(sent));
            Parser.LeftmostLongest(sent, t, Parser.IsDateText)
            && (t == [] ==> row.given == None)
            && (t != [] ==> exists m :: Parser.IsDateTextOf(t, m) && row.given == NamedDay(t, m))
    ensures var t, row := Parser.DurationText(sent), RowOf(Parser.SentenceRecord(sent));
            Parser.LeftmostLongest(sent, t, Parser.IsDurationText)
            && (t == [] ==> row.days == 0)
            && (t != [] ==> exists q, r :: Parser.IsDurationTextAt(t, q, r) && row.days == NamedDays(t, q))
    ensures RowOf(Parser.SentenceRecord(sent)).dependent <==> Parser.HasDependencyCue(sent)
  {
    var record := Parser.SentenceRecord(sent);
    var t, u := record.startDate, record.duration;
    assert t == Parser.DateText(sent) && u == Parser.DurationText(sent);
    Parser.StartDateIsLeftmostLongest(sent);
    Parser.DurationIsLeftmostLongest(sent);
    if t != [] {
      Parser.LeftmostLongestHasShape(sent, t, Parser.IsDateText);
      DayOfDateText(t);
    }
    if u != [] {
      Parser.LeftmostLongestHasShape(sent, u, Parser.IsDurationText);
      DaysOfDurationText(u);
    }
  }

  /** Every date a row gives itself lies in 1900, as parse_date's do. */
  predicate FirstYearDates(rows: seq<Row>) {
    forall i :: 0 <= i < |rows| && rows[i].given.Some? ==> rows[i].given.value < Calendar.YearLength
  }

  /** The end of row i-1, when there is a row i-1. */
  function PrevEnd(ends: seq<Option<nat>>, i: nat): Option<nat> {
    if 0 < i <= |ends| then ends[i - 1] else None
  }

  /** Lines 49-55: the row's own date when it parses; otherwise, for a row after
      the first that depends on the previous task, the day after that task's end
      when it has one; otherwise no start. */
  function StartRule(r: Row, i: nat, prevEnd: Option<nat>): (s: Option<nat>)
    ensures r.given.Some? ==> s == r.given
    ensures i == 0 || !r.dependent ==> s == r.given
    ensures s.Some? && r.given.None? ==> prevEnd.Some? && s.value == prevEnd.value + 1
  {
    if r.given.Some? then r.given
    else if r.dependent && i > 0 && prevEnd.Some? then Some(prevEnd.value + 1)
    else None
  }

  /** Line 57: `start_dt + duration if start_dt else None`. */
  function EndRule(start: Option<nat>, days: nat): (e: Option<nat>)
    ensures e.Some? <==> start.Some?
    ensures e.Some? ==> e.value - start.value == days
  {
    if start.Some? then Some(start.value + days) else None
  }

  // ---------------------------------------------------------------------------
  // The inference loop (lines 44-59)

  /** Either every row got its (possibly undefined) start and end, or the date
      arithmetic for row `index` went past 31 December 9999, where Python's
      `datetime + timedelta` raises an OverflowError nobody catches. */
  datatype Outcome = Scheduled(starts: seq<Option<nat>>, ends: seq<Option<nat>>) | DateOverflow(index: nat)

  /** The schedule of the rows, one row after the other. */
  function Resolve(rows: seq<Row>): (out: Outcome)
    ensures out.Scheduled? ==> |out.starts| == |rows| && |out.ends| == |rows|
    ensures out.DateOverflow? ==> out.index < |rows|
    decreases |rows|
  {
    if rows == [] then Scheduled([], [])
    else
      var i := |rows| - 1;
      match Resolve(rows[..i])
      case DateOverflow(k) => DateOverflow(k)
      case Scheduled(starts, ends) =>
        var start := StartRule(rows[i], i, PrevEnd(ends, i));
        if start.Some? && start.value + rows[i].days > Calendar.MaxOrdinal then DateOverflow(i)
        else
          var end := EndRule(start, rows[i].days);
          Scheduled(starts + [start], ends + [end])
  }

  /** No row's dates depend on a later row: the schedule of the first j rows is
      the first j entries of the whole schedule, and an overflow in the first j
      rows stops the whole pass there. */
  lemma {:induction false} ResolvePrefix(rows: seq<Row>, j: nat)
    requires j <= |rows|
    ensures Resolve(rows[..j]).DateOverflow? ==> Resolve(rows) == Resolve(rows[..j])
    ensures Resolve(rows).Scheduled? ==>
              Resolve(rows[..j]) == Scheduled(Resolve(rows).starts[..j], Resolve(rows).ends[..j])
    decreases |rows|
  {
    if j == |rows| {
      assert rows[..j] == rows;
      if Resolve(rows).Scheduled? {
        assert Resolve(rows).starts[..j] == Resolve(rows).starts;
        assert Resolve(rows).ends[..j] == Resolve(rows).ends;
      }
    } else {
      var n := |rows| - 1;
      ResolvePrefix(rows[..n], j);
      assert rows[..n][..j] == rows[..j];
      if Resolve(rows).Scheduled? {
        var s, e := Resolve(rows).starts, Resolve(rows).ends;
        ResolveLast(rows);
        assert s[..n][..j] == s[..j] && e[..n][..j] == e[..j];
      } else if Resolve(rows[..n]).DateOverflow? {
        assert Resolve(rows) == Resolve(rows[..n]);
      }
    }
  }

  /** The last row of a finished schedule follows the rule. */
  lemma {:induction false} ResolveLast(rows: seq<Row>)
    requires Resolve(rows).Scheduled? && rows != []
    ensures var s, e, n := Resolve(rows).starts, Resolve(rows).ends, |rows| - 1;
            Resolve(rows[..n]) == Scheduled(s[..n], e[..n])
            && s[n] == StartRule(rows[n], n, PrevEnd(e[..n], n))
            && e[n] == (if s[n].Some? then Some(s[n].value + rows[n].days) else None)
            && (e[n].Some? ==> e[n].value <= Calendar.MaxOrdinal)
  {
    var n := |rows| - 1;
    var before := Resolve(rows[..n]);
    var s', e' := before.starts, before.ends;
    var start := StartRule(rows[n], n, PrevEnd(e', n));
    var end := EndRule(start, rows[n].days);
    assert Resolve(rows) == Scheduled(s' + [start], e' + [end]);
    assert (s' + [start])[..n] == s' && (e' + [end])[..n] == e';
  }

  /** Each row of a finished schedule follows the rule of lines 49-57: its start
      is StartRule's, its end is defined exactly when its start is, and then it
      lies the row's duration after the start, within the datetime range. */
  lemma {:induction false} ScheduleRule(rows: seq<Row>, i: nat)
    requires Resolve(rows).Scheduled? && i < |rows|
    ensures var s, e := Resolve(rows).starts, Resolve(rows).ends;
            s[i] == StartRule(rows[i], i, PrevEnd(e, i))
            && (e[i].Some? <==> s[i].Some?)
            && (e[i].Some? ==> e[i].value == s[i].value + rows[i].days <= Calendar.MaxOrdinal)
  {
    var s, e := Resolve(rows).starts, Resolve(rows).ends;
    var r' := rows[..i + 1];
    ResolvePrefix(rows, i + 1);
    ResolveLast(r');
    assert r'[..i] == rows[..i] && r'[i] == rows[i];
    var s', e' := s[..i + 1], e[..i + 1];
    assert s'[i] == s[i] && e'[i] == e[i];
    assert PrevEnd(e'[..i], i) == PrevEnd(e, i);
  }

  /** Where the pass stops: the rows before k schedule, and row k's start plus
      its duration lies past 31 December 9999. */
  lemma {:induction false} OverflowRule(rows: seq<Row>, k: nat)
    requires Resolve(rows) == DateOverflow(k)
    ensures k < |rows| && Resolve(rows[..k]).Scheduled?
    ensures var start := StartRule(rows[k], k, PrevEnd(Resolve(rows[..k]).ends, k));
            start.Some? && start.value + rows[k].days > Calendar.MaxOrdinal
    decreases |rows|
  {
    var n := |rows| - 1;
    if Resolve(rows[..n]).DateOverflow? {
      OverflowRule(rows[..n], k);
      assert rows[..n][..k] == rows[..k];
      assert rows[..n][k] == rows[k];
    }
  }

  /** Row i of the start and end columns follows the rule of lines 49-57, within
      the datetime range, given the end of row i-1. */
  predicate RowFollowsRule(rows: seq<Row>, s: seq<Option<nat>>, e: seq<Option<nat>>, i: nat)
    requires i < |rows| && |s| == |rows| && |e| == |rows|
  {
    s[i] == StartRule(rows[i], i, PrevEnd(e, i))
    && e[i] == EndRule(s[i], rows[i].days)
    && (e[i].Some? ==> e[i].value <= Calendar.MaxOrdinal)
  }

  /** The converse of ScheduleRule: any start and end columns that follow the
      rule on every row, within the datetime range, are the schedule. */
  lemma ScheduleIsUnique(rows: seq<Row>, s: seq<Option<nat>>, e: seq<Option<nat>>)
    requires |s| == |rows| && |e| == |rows|
    requires forall i :: 0 <= i < |rows| ==> RowFollowsRule(rows, s, e, i)
    ensures Resolve(rows) == Scheduled(s, e)
  {
    SchedulePrefixUnique(rows, s, e, |rows|);
    assert rows[..|rows|] == rows && s[..|rows|] == s && e[..|rows|] == e;
  }

  /** The first j entries of columns that follow the rule are the schedule of the first j rows. */
  lemma {:induction false} SchedulePrefixUnique(rows: seq<Row>, s: seq<Option<nat>>, e: seq<Option<nat>>, j: nat)
    requires |s| == |rows| && |e| == |rows| && j <= |rows|
    requires forall i :: 0 <= i < |rows| ==> RowFollowsRule(rows, s, e, i)
    ensures Resolve(rows[..j]) == Scheduled(s[..j], e[..j])
    decreases j
  {
    if j == 0 {
      assert rows[..0] == [] && s[..0] == [] && e[..0] == [];
    } else {
      var i := j - 1;
      var before, ends := s[..i], e[..i];
      SchedulePrefixUnique(rows, s, e, i);
      assert RowFollowsRule(rows, s, e, i);
      assert PrevEnd(ends, i) == PrevEnd(e, i) by {
        if i > 0 { assert ends[i - 1] == e[i - 1]; }
      }
      assert s[i].Some? ==> s[i].value + rows[i].days <= Calendar.MaxOrdinal by {
        if s[i].Some? { assert e[i] == Some(s[i].value + rows[i].days); }
      }
      ResolveExtends(rows, i, before, ends, s[i], e[i]);
      assert before + [s[i]] == s[..j];
      assert ends + [e[i]] == e[..j];
    }
  }

  /** Both directions together: the schedule is exactly the pair of columns
      that follows the rule on every row. */
  lemma {:induction false} ScheduleIffRule(rows: seq<Row>, s: seq<Option<nat>>, e: seq<Option<nat>>)
    ensures Resolve(rows) == Scheduled(s, e)
            <==> |s| == |rows| && |e| == |rows| && forall i :: 0 <= i < |rows| ==> RowFollowsRule(rows, s, e, i)
  {
    if Resolve(rows) == Scheduled(s, e) {
      forall i | 0 <= i < |rows| ensures RowFollowsRule(rows, s, e, i) {
        ScheduleRule(rows, i);
      }
    }
    if |s| == |rows| && |e| == |rows| && forall i :: 0 <= i < |rows| ==> RowFollowsRule(rows, s, e, i) {
      ScheduleIsUnique(rows, s, e);
    }
  }

  /** A row that gives its own date starts on it, dependent or not. */
  lemma ExplicitDateWins(rows: seq<Row>, i: nat)
    requires Resolve(rows).Scheduled? && i < |rows| && rows[i].given.Some?
    ensures Resolve(rows).starts[i] == rows[i].given
  {
    ScheduleRule(rows, i);
  }

  /** The first row never takes its start from another row. */
  lemma FirstRowIsNotInferred(rows: seq<Row>)
    requires Resolve(rows).Scheduled? && rows != []
    ensures Resolve(rows).starts[0] == rows[0].given
  {
    ScheduleRule(rows, 0);
  }

  /** A row without its own date starts the day after the previous row ends when
      it depends on it, and has no dates at all otherwise. */
  lemma InferredStart(rows: seq<Row>, i: nat)
    requires Resolve(rows).Scheduled? && 0 < i < |rows| && rows[i].given.None?
    ensures var s, e := Resolve(rows).starts, Resolve(rows).ends;
            (s[i].Some? <==> rows[i].dependent && e[i - 1].Some?)
            && (s[i].Some? ==> s[i].value == e[i - 1].value + 1)
            && (s[i].None? ==> e[i].None?)
  {
    ScheduleRule(rows, i);
  }

  /** A row ends no earlier than it starts, exactly its duration later. */
  lemma EndFollowsStart(rows: seq<Row>, i: nat)
    requires Resolve(rows).Scheduled? && i < |rows| && Resolve(rows).ends[i].Some?
    ensures var s, e := Resolve(rows).starts, Resolve(rows).ends;
            s[i].Some? && s[i].value <= e[i].value && e[i].value == s[i].value + rows[i].days
  {
    ScheduleRule(rows, i);
  }

  // ---------------------------------------------------------------------------
  // Chains and bounds

  /** Total duration of the rows, in days. */
  function DurationSum(rows: seq<Row>): nat {
    if rows == [] then 0 else DurationSum(rows[..|rows| - 1]) + rows[|rows| - 1].days
  }

  lemma {:induction false} DurationSumPrefix(rows: seq<Row>, j: nat)
    requires j <= |rows|
    ensures DurationSum(rows[..j]) <= DurationSum(rows)
    decreases |rows|
  {
    if j < |rows| {
      var n := |rows| - 1;
      DurationSumPrefix(rows[..n], j);
      assert rows[..n][..j] == rows[..j];
    } else {
      assert rows[..j] == rows;
    }
  }

  /** The first row gives a date and every later row only depends on its predecessor. */
  predicate Chained(rows: seq<Row>) {
    rows != [] && rows[0].given.Some?
    && forall i :: 0 < i < |rows| ==> rows[i].given.None? && rows[i].dependent
  }

  /** Row i of a chain starts i days plus the durations of the rows before it
      after the first row's date, and ends its own duration later. */
  predicate ChainRowDates(rows: seq<Row>, s: seq<Option<nat>>, e: seq<Option<nat>>, i: nat)
    requires rows != [] && rows[0].given.Some? && i < |rows| && |s| == |rows| && |e| == |rows|
  {
    s[i] == Some(rows[0].given.value + DurationSum(rows[..i]) + i)
    && e[i] == Some(rows[0].given.value + DurationSum(rows[..i + 1]) + i)
  }

  predicate ChainDates(rows: seq<Row>, s: seq<Option<nat>>, e: seq<Option<nat>>)
    requires rows != [] && rows[0].given.Some?
  {
    |s| == |rows| && |e| == |rows| && forall i :: 0 <= i < |rows| ==> ChainRowDates(rows, s, e, i)
  }

  /** In a chain, each row starts the day after the previous one ends, so each
      row's dates are fixed by the first row's date and the durations. */
  lemma {:induction false} ChainedSchedule(rows: seq<Row>)
    requires Chained(rows) && Resolve(rows).Scheduled?
    ensures ChainDates(rows, Resolve(rows).starts, Resolve(rows).ends)
    decreases |rows|
  {
    var n := |rows| - 1;
    if n == 0 {
      ResolveLast(rows);
      assert rows[..0] == [] && rows[..1] == rows;
      assert DurationSum(rows[..1]) == rows[0].days by { assert rows[..1][..0] == []; }
    } else {
      var r' := rows[..n];
      ResolvePrefix(rows, n);
      assert Chained(r') by { assert forall i :: 0 <= i < n ==> r'[i] == rows[i]; }
      ChainedSchedule(r');
      ChainExtends(rows);
    }
  }

  lemma {:induction false} ChainExtends(rows: seq<Row>)
    requires Chained(rows) && |rows| > 1 && Resolve(rows).Scheduled?
    requires ChainDates(rows[..|rows| - 1], Resolve(rows[..|rows| - 1]).starts, Resolve(rows[..|rows| - 1]).ends)
    ensures ChainDates(rows, Resolve(rows).starts, Resolve(rows).ends)
  {
    var n := |rows| - 1;
    var s, e, d := Resolve(rows).starts, Resolve(rows).ends, rows[0].given.value;
    ChainLastRow(rows);
    forall i | 0 <= i < n ensures ChainRowDates(rows, s, e, i) {
      ChainEarlierRow(rows, i);
    }
  }

  lemma {:induction false} ChainEarlierRow(rows: seq<Row>, i: nat)
    requires Chained(rows) && i < |rows| - 1 && Resolve(rows).Scheduled?
    requires ChainDates(rows[..|rows| - 1], Resolve(rows[..|rows| - 1]).starts, Resolve(rows[..|rows| - 1]).ends)
    ensures ChainRowDates(rows, Resolve(rows).starts, Resolve(rows).ends, i)
  {
    var n := |rows| - 1;
    var r' := rows[..n];
    var s, e := Resolve(rows).starts, Resolve(rows).ends;
    ResolvePrefix(rows, n);
    assert ChainRowDates(r', s[..n], e[..n], i);
    assert r'[0] == rows[0];
    assert r'[..i] == rows[..i] && r'[..i + 1] == rows[..i + 1];
    assert s[..n][i] == s[i] && e[..n][i] == e[i];
  }

  lemma {:induction false} ChainLastRow(rows: seq<Row>)
    requires Chained(rows) && |rows| > 1 && Resolve(rows).Scheduled?
    requires ChainDates(rows[..|rows| - 1], Resolve(rows[..|rows| - 1]).starts, Resolve(rows[..|rows| - 1]).ends)
    ensures ChainRowDates(rows, Resolve(rows).starts, Resolve(rows).ends, |rows| - 1)
  {
    var n := |rows| - 1;
    var r' := rows[..n];
    var s, e, d := Resolve(rows).starts, Resolve(rows).ends, rows[0].given.value;
    ResolveLast(rows);
    assert ChainRowDates(r', Resolve(r').starts, Resolve(r').ends, n - 1);
    assert r'[0] == rows[0];
    assert r'[..n - 1 + 1] == rows[..n];
    assert e[..n][n - 1] == Some(d + DurationSum(rows[..n]) + n - 1);
    assert rows[..n + 1] == rows;
  }

  /** Row i's end, when defined, lies before a year, the durations up to it and
      one day per row. */
  predicate EndWithin(rows: seq<Row>, e: seq<Option<nat>>, i: nat)
    requires i < |rows| && i < |e|
  {
    e[i].Some? ==> e[i].value < Calendar.YearLength + DurationSum(rows[..i + 1]) + i
  }

  predicate EndsWithin(rows: seq<Row>, e: seq<Option<nat>>) {
    forall i :: 0 <= i < |e| && i < |rows| ==> EndWithin(rows, e, i)
  }

  /** The pass cannot overflow while a year, the durations and one day per row
      add up to no more than 31 December 9999; every end then stays below that
      sum for the rows up to it. */
  lemma {:induction false} ShortPlansFit(rows: seq<Row>)
    requires FirstYearDates(rows)
    requires Calendar.YearLength + DurationSum(rows) + |rows| <= Calendar.MaxOrdinal
    ensures Resolve(rows).Scheduled?
    ensures EndsWithin(rows, Resolve(rows).ends)
    decreases |rows|
  {
    if rows != [] {
      var n := |rows| - 1;
      var r' := rows[..n];
      DurationSumPrefix(rows, n);
      assert FirstYearDates(r') by { assert forall i :: 0 <= i < n ==> r'[i] == rows[i]; }
      ShortPlansFit(r');
      ShortPlanStep(rows);
    }
  }

  lemma {:induction false} ShortPlanStep(rows: seq<Row>)
    requires rows != [] && FirstYearDates(rows)
    requires Calendar.YearLength + DurationSum(rows) + |rows| <= Calendar.MaxOrdinal
    requires Resolve(rows[..|rows| - 1]).Scheduled?
    requires EndsWithin(rows[..|rows| - 1], Resolve(rows[..|rows| - 1]).ends)
    ensures Resolve(rows).Scheduled?
    ensures EndsWithin(rows, Resolve(rows).ends)
  {
    var n := |rows| - 1;
    var r' := rows[..n];
    var s', e' := Resolve(r').starts, Resolve(r').ends;
    assert rows[..n + 1] == rows;
    var start := StartRule(rows[n], n, PrevEnd(e', n));
    if rows[n].given.None? && n > 0 && e'[n - 1].Some? {
      assert EndWithin(r', e', n - 1);
      assert r'[..n - 1 + 1] == rows[..n];
    }
    assert start.Some? ==> start.value < Calendar.YearLength + DurationSum(rows[..n]) + n;
    ResolveExtends(rows, n, s', e', start, EndRule(start, rows[n].days));
    var e := Resolve(rows).ends;
    assert e == e' + [EndRule(start, rows[n].days)];
    forall i | 0 <= i < |e| && i < |rows| ensures EndWithin(rows, e, i) {
      if i < n {
        assert EndWithin(r', e', i);
        assert r'[..i + 1] == rows[..i + 1];
      }
    }
  }

  /** One step of the pass: row i's dates from the first i rows' schedule. */
  lemma ResolveStep(rows: seq<Row>, i: nat, s: seq<Option<nat>>, e: seq<Option<nat>>)
    requires i < |rows| && Resolve(rows[..i]) == Scheduled(s, e)
    ensures var start := StartRule(rows[i], i, PrevEnd(e, i));
            Resolve(rows[..i + 1])
            == if start.Some? && start.value + rows[i].days > Calendar.MaxOrdinal then DateOverflow(i)
               else Scheduled(s + [start], e + [EndRule(start, rows[i].days)])
  {
    assert rows[..i + 1][..i] == rows[..i];
  }

  /** A step that does not overflow appends row i's dates to the schedule. */
  lemma ResolveExtends(rows: seq<Row>, i: nat, s: seq<Option<nat>>, e: seq<Option<nat>>,
                                          start: Option<nat>, end: Option<nat>)
    requires i < |rows| && Resolve(rows[..i]) == Scheduled(s, e)
    requires start == StartRule(rows[i], i, PrevEnd(e, i))
    requires start.Some? ==> start.value + rows[i].days <= Calendar.MaxOrdinal
    requires end == EndRule(start, rows[i].days)
    ensures Resolve(rows[..i + 1]) == Scheduled(s + [start], e + [end])
  {
    ResolveStep(rows, i, s, e);
  }

  /** Once row i's dates overflow, the whole pass stops there. */
  lemma {:induction false} OverflowStops(rows: seq<Row>, i: nat, s: seq<Option<nat>>, e: seq<Option<nat>>)
    requires i < |rows| && Resolve(rows[..i]) == Scheduled(s, e)
    requires var start := StartRule(rows[i], i, PrevEnd(e, i));
             start.Some? && start.value + rows[i].days > Calendar.MaxOrdinal
    ensures Resolve(rows) == DateOverflow(i)
  {
    ResolveStep(rows, i, s, e);
    ResolvePrefix(rows, i + 1);
  }

  /** The pass itself, over Python lists that grow one row at a time. The outcome
      is the schedule Resolve describes for the records' rows, or the first row
      whose dates overflow. */
  method InferSchedule(tasks: seq<Parser.TaskRecord>) returns (outcome: Outcome)
    ensures outcome == Resolve(Rows(tasks))
  {
    ghost var rows := Rows(tasks);
    var startDates: seq<Option<nat>> := [];
    var endDates: seq<Option<nat>> := [];
    for i := 0 to |tasks|
      invariant Resolve(rows[..i]) == Scheduled(startDates, endDates)
    {
      var row := tasks[i];
      var read := RowOf(row);
      assert read == rows[i];
      var startDt := read.given;
      var duration := read.days;
      if startDt.None? && row.dependsOn == Parser.PreviousTask && i > 0 {
        var prevEnd := endDates[i - 1];
        if prevEnd.Some? {
          // Python raises here already when prevEnd is 31 December 9999; that
          // start then fails the range check below, on the same row.
          startDt := Some(prevEnd.value + 1);
        }
      }
      assert startDt == StartRule(rows[i], i, PrevEnd(endDates, i));
      if startDt.Some? && startDt.value + duration > Calendar.MaxOrdinal {
        // `start_dt + duration` past 31 December 9999 raises OverflowError.
        OverflowStops(rows, i, startDates, endDates);
        return DateOverflow(i);
      }
      var endDt := EndRule(startDt, duration);
      ResolveExtends(rows, i, startDates, endDates, startDt, endDt);
      startDates := startDates + [startDt];
      endDates := endDates + [endDt];
    }
    assert rows[..|tasks|] == rows;
    return Scheduled(startDates, endDates);
  }

  // ---------------------------------------------------------------------------
  // The conflict detector (lines 67-77)

  /** Row i starts before row i-1 ends, both dates being defined. */
  predicate IsConflict(starts: seq<Option<nat>>, ends: seq<Option<nat>>, i: int) {
    0 < i < |starts| && i <= |ends| && starts[i].Some? && ends[i - 1].Some? && starts[i].value < ends[i - 1].value
  }

  /** What one warning names: the row and its start, the previous row and its end. */
  datatype Conflict = Conflict(task: string, start: nat, previousTask: string, previousEnd: nat)

  function ConflictAt(tasks: seq<Parser.TaskRecord>, starts: seq<Option<nat>>, ends: seq<Option<nat>>, i: int): Conflict
    requires |tasks| == |starts| && IsConflict(starts, ends, i)
  {
    Conflict(tasks[i].task, starts[i].value, tasks[i - 1].task, ends[i - 1].value)
  }

  /** The rows before n that conflict, in increasing order; none is left out. */
  function ConflictRows(starts: seq<Option<nat>>, ends: seq<Option<nat>>, n: nat): (rows: seq<nat>)
    ensures forall k :: 0 <= k < |rows| ==> rows[k] < n && IsConflict(starts, ends, rows[k])
    ensures forall k, l :: 0 <= k < l < |rows| ==> rows[k] < rows[l]
  {
    if n == 0 then []
    else ConflictRows(starts, ends, n - 1) + (if IsConflict(starts, ends, n - 1) then [n - 1] else [])
  }

  /** No conflicting row before n is missing from ConflictRows. */
  lemma {:induction false} ConflictRowsComplete(starts: seq<Option<nat>>, ends: seq<Option<nat>>, n: nat, i: nat)
    requires i < n && IsConflict(starts, ends, i)
    ensures i in ConflictRows(starts, ends, n)
    decreases n
  {
    var before := ConflictRows(starts, ends, n - 1);
    assert ConflictRows(starts, ends, n) == before + (if IsConflict(starts, ends, n - 1) then [n - 1] else []);
    if i < n - 1 {
      ConflictRowsComplete(starts, ends, n - 1, i);
      assert i in before;
    }
  }

  /** issues[k] is the warning for row rows[k], for every k. */
  predicate Warns(tasks: seq<Parser.TaskRecord>, starts: seq<Option<nat>>, ends: seq<Option<nat>>,
                  rows: seq<nat>, issues: seq<Conflict>)
  {
    |starts| == |tasks| && |issues| == |rows|
    && forall k :: 0 <= k < |rows| ==>
         IsConflict(starts, ends, rows[k]) && issues[k] == ConflictAt(tasks, starts, ends, rows[k])
  }

  lemma WarnsAppend(tasks: seq<Parser.TaskRecord>, starts: seq<Option<nat>>, ends: seq<Option<nat>>,
                    rows: seq<nat>, issues: seq<Conflict>, i: nat)
    requires Warns(tasks, starts, ends, rows, issues) && IsConflict(starts, ends, i)
    ensures Warns(tasks, starts, ends, rows + [i], issues + [ConflictAt(tasks, starts, ends, i)])
  {
    var rows', issues' := rows + [i], issues + [ConflictAt(tasks, starts, ends, i)];
    forall k | 0 <= k < |rows'|
      ensures IsConflict(starts, ends, rows'[k]) && issues'[k] == ConflictAt(tasks, starts, ends, rows'[k])
    {
      if k < |rows| { assert rows'[k] == rows[k] && issues'[k] == issues[k]; }
    }
  }

  /** The warnings row i adds: one when it conflicts, none otherwise. */
  function Warning(tasks: seq<Parser.TaskRecord>, starts: seq<Option<nat>>, ends: seq<Option<nat>>, i: nat): seq<Conflict>
    requires |starts| == |tasks|
  {
    if IsConflict(starts, ends, i) then [ConflictAt(tasks, starts, ends, i)] else []
  }

  /** The warnings of rows 1 to n-1, in row order. */
  function Warnings(tasks: seq<Parser.TaskRecord>, starts: seq<Option<nat>>, ends: seq<Option<nat>>, n: nat): seq<Conflict>
    requires |starts| == |tasks|
  {
    if n <= 1 then [] else Warnings(tasks, starts, ends, n - 1) + Warning(tasks, starts, ends, n - 1)
  }

  /** The loop over rows 1 to len(df)-1: one warning per conflicting row, in
      row order, naming the row, its start, the previous row and that row's end. */
  method DetectConflicts(tasks: seq<Parser.TaskRecord>, starts: seq<Option<nat>>, ends: seq<Option<nat>>)
    returns (issues: seq<Conflict>)
    requires |starts| == |tasks| && |ends| == |tasks|
    ensures issues == Warnings(tasks, starts, ends, |tasks|)
  {
    issues := [];
    var i := 1;
    while i < |tasks|
      invariant 1 <= i && (i <= |tasks| || i == 1)
      invariant issues == Warnings(tasks, starts, ends, i)
    {
      var currStart := starts[i];
      var prevEnd := ends[i - 1];
      if currStart.Some? && prevEnd.Some? && currStart.value < prevEnd.value {
        issues := issues + [Conflict(tasks[i].task, currStart.value, tasks[i - 1].task, prevEnd.value)];
      }
      i := i + 1;
    }
  }

  /** Row 0 has no previous row, so it never conflicts. */
  lemma NoConflictsBeforeOne(starts: seq<Option<nat>>, ends: seq<Option<nat>>)
    ensures ConflictRows(starts, ends, 0) == [] && ConflictRows(starts, ends, 1) == []
  {
    assert !IsConflict(starts, ends, 0);
  }

  /** One turn of the conflict loop, at row i. */
  lemma WarnsStep(tasks: seq<Parser.TaskRecord>, starts: seq<Option<nat>>, ends: seq<Option<nat>>,
                  issues: seq<Conflict>, i: nat)
    requires 0 < i < |tasks| && |ends| == |tasks|
    requires Warns(tasks, starts, ends, ConflictRows(starts, ends, i), issues)
    ensures Warns(tasks, starts, ends, ConflictRows(starts, ends, i + 1), issues + Warning(tasks, starts, ends, i))
  {
    if IsConflict(starts, ends, i) {
      WarnsAppend(tasks, starts, ends, ConflictRows(starts, ends, i), issues, i);
    } else {
      assert issues + [] == issues;
    }
  }

  lemma WarningsStep(tasks: seq<Parser.TaskRecord>, starts: seq<Option<nat>>, ends: seq<Option<nat>>, n: nat)
    requires |starts| == |tasks| && |ends| == |tasks| && 1 < n <= |tasks|
    requires Warns(tasks, starts, ends, ConflictRows(starts, ends, n - 1), Warnings(tasks, starts, ends, n - 1))
    ensures Warns(tasks, starts, ends, ConflictRows(starts, ends, n), Warnings(tasks, starts, ends, n))
  {
    WarnsStep(tasks, starts, ends, Warnings(tasks, starts, ends, n - 1), n - 1);
  }

  /** The k-th warning of the pass is the one for the k-th conflicting row:
      every conflicting row is reported, once, in row order, and nothing else. */
  lemma {:induction false} WarningsMeaning(tasks: seq<Parser.TaskRecord>, starts: seq<Option<nat>>, ends: seq<Option<nat>>, n: nat)
    requires |starts| == |tasks| && |ends| == |tasks| && n <= |tasks|
    ensures Warns(tasks, starts, ends, ConflictRows(starts, ends, n), Warnings(tasks, starts, ends, n))
  {
    if n <= 1 {
      NoConflictsBeforeOne(starts, ends);
    } else {
      WarningsMeaning(tasks, starts, ends, n - 1);
      WarningsStep(tasks, starts, ends, n);
    }
  }

  /** In a finished schedule a conflict is a row with its own date that falls
      before the previous row's end: a start taken from the previous row is the
      day after its end, so it never conflicts. */
  lemma ConflictNeedsExplicitDate(rows: seq<Row>, i: nat)
    requires Resolve(rows).Scheduled? && 0 < i < |rows|
    ensures var s, e := Resolve(rows).starts, Resolve(rows).ends;
            IsConflict(s, e, i) <==> rows[i].given.Some? && e[i - 1].Some? && rows[i].given.value < e[i - 1].value
  {
    ScheduleRule(rows, i);
  }

  /** A chain never conflicts. */
  lemma ChainsHaveNoConflicts(rows: seq<Row>)
    requires Chained(rows) && Resolve(rows).Scheduled?
    ensures forall i :: !IsConflict(Resolve(rows).starts, Resolve(rows).ends, i)
  {
    forall i | 0 < i < |rows| ensures !IsConflict(Resolve(rows).starts, Resolve(rows).ends, i) {
      ConflictNeedsExplicitDate(rows, i);
    }
  }

  // ---------------------------------------------------------------------------
  // The Gantt rows (lines 88-97)

  datatype Bar = Bar(task: string, start: nat, finish: nat)

  /** A row with both dates defined is charted. */
  predicate Charted(starts: seq<Option<nat>>, ends: seq<Option<nat>>, i: int) {
    0 <= i < |starts| && i < |ends| && starts[i].Some? && ends[i].Some?
  }

  /** The rows before n that have both dates, in increasing order; none is left out. */
  function ChartedUpTo(starts: seq<Option<nat>>, ends: seq<Option<nat>>, n: nat): (rows: seq<nat>)
    ensures forall k :: 0 <= k < |rows| ==> rows[k] < n && Charted(starts, ends, rows[k])
    ensures forall k, l :: 0 <= k < l < |rows| ==> rows[k] < rows[l]
  {
    if n == 0 then []
    else ChartedUpTo(starts, ends, n - 1) + (if Charted(starts, ends, n - 1) then [n - 1] else [])
  }

  /** No charted row before n is missing from ChartedUpTo. */
  lemma {:induction false} ChartedUpToComplete(starts: seq<Option<nat>>, ends: seq<Option<nat>>, n: nat, i: nat)
    requires i < n && Charted(starts, ends, i)
    ensures i in ChartedUpTo(starts, ends, n)
    decreases n
  {
    var before := ChartedUpTo(starts, ends, n - 1);
    assert ChartedUpTo(starts, ends, n) == before + (if Charted(starts, ends, n - 1) then [n - 1] else []);
    if i < n - 1 {
      ChartedUpToComplete(starts, ends, n - 1, i);
      assert i in before;
    }
  }

  /** The bar of a charted row: its task, start and finish. */
  function BarOf(tasks: seq<Parser.TaskRecord>, starts: seq<Option<nat>>, ends: seq<Option<nat>>, i: int): Bar
    requires |tasks| == |starts| && Charted(starts, ends, i)
  {
    Bar(tasks[i].task, starts[i].value, ends[i].value)
  }

  /** `gantt_data`: one bar per row with both dates, in row order. */
  method GanttRows(tasks: seq<Parser.TaskRecord>, starts: seq<Option<nat>>, ends: seq<Option<nat>>)
    returns (bars: seq<Bar>)
    requires |starts| == |tasks| && |ends| == |tasks|
    ensures var rows := ChartedUpTo(starts, ends, |tasks|);
            |bars| == |rows| && forall k :: 0 <= k < |bars| ==> bars[k] == BarOf(tasks, starts, ends, rows[k])
  {
    bars := [];
    for i := 0 to |tasks|
      invariant var rows := ChartedUpTo(starts, ends, i);
                |bars| == |rows| && forall k :: 0 <= k < |bars| ==> bars[k] == BarOf(tasks, starts, ends, rows[k])
    {
      var startDt := starts[i];
      var endDt := ends[i];
      if startDt.Some? && endDt.Some? {
        bars := bars + [Bar(tasks[i].task, startDt.value, endDt.value)];
      }
    }
  }

  /** In a finished schedule the charted rows are exactly the rows with a start,
      and each bar is as long as the row's duration. */
  lemma ChartedRows(rows: seq<Row>, i: nat)
    requires Resolve(rows).Scheduled? && i < |rows|
    ensures var s, e := Resolve(rows).starts, Resolve(rows).ends;
            (Charted(s, e, i) <==> s[i].Some?)
            && (Charted(s, e, i) ==> e[i].value == s[i].value + rows[i].days)
  {
    ScheduleRule(rows, i);
  }

  // ---------------------------------------------------------------------------
  // The date columns (lines 61-62 and 111-112)

  /** A table cell: empty for an undefined date, else the date it shows. The
      date is kept whole, year included, although the `"%b %d"` text has none. */
  datatype Cell = Empty | Shown(day: nat)

  /** `[dt.strftime(...) if dt else "" for dt in dates]`, keeping the date a cell shows. */
  function DateColumn(dates: seq<Option<nat>>): (cells: seq<Cell>)
    ensures |cells| == |dates|
    ensures forall i :: 0 <= i < |dates| ==> (cells[i].Empty? <==> dates[i].None?)
  {
    seq(|dates|, i requires 0 <= i < |dates| => if dates[i].Some? then Shown(dates[i].value) else Empty)
  }

  /** `%d`: the day of the month as two digits. */
  function TwoDigits(d: nat): (ds: string)
    requires 1 <= d <= 31
    ensures |ds| == 2 && AllDigits(ds) && DecimalValue(ds) == d
  {
    var ds := [('0' as int + d / 10) as char, ('0' as int + d % 10) as char];
    assert ds[..1][..0] == [] && ds[..1] == [ds[0]] && ds[..2 - 1] == ds[..1];
    assert DecimalValue(ds[..1]) == d / 10;
    ds
  }

  /** `strftime("%B %d")` of a day of 1900, as in the exported "Auto Start Date"
      and "Auto End Date" columns. */
  function LongDateText(o: nat): (text: string)
    requires o < Calendar.YearLength
    ensures Parser.IsDateTextOf(text, Calendar.MonthOf(o, 0))
  {
    var m := Calendar.MonthOf(o, 0);
    Calendar.OrdinalRoundTrip(o);
    var name, ds := Calendar.MonthNames[m], TwoDigits(o - Calendar.DaysBefore[m] + 1);
    var text := name + " " + ds;
    assert text[..|name|] == name && text[|name|] == ' ';
    assert forall i :: |name| + 1 <= i < |text| ==> text[i] == ds[i - |name| - 1];
    text
  }

  /** An exported date of 1900 reads back through parse_date as the same day. */
  lemma LongDateParsesBack(o: nat)
    requires o < Calendar.YearLength
    ensures Calendar.ParseDate(LongDateText(o)) == Some(o)
  {
    var m := Calendar.MonthOf(o, 0);
    var d := o - Calendar.DaysBefore[m] + 1;
    Calendar.OrdinalRoundTrip(o);
    var ds := TwoDigits(d);
    assert LongDateText(o) == Calendar.MonthNames[m] + [' '] + ds;
    Calendar.ParseDateOfDateText(m, ' ', ds);
    assert DecimalValue(ds) == d;
  }

  // ---------------------------------------------------------------------------
  // Worked examples

  /** The schedule of two rows, the first with its own date. */
  lemma TwoRowSchedule(a: Row, b: Row)
    requires a.given.Some? && a.given.value + a.days + 1 + b.days <= Calendar.MaxOrdinal
    requires b.given.Some? ==> b.given.value + b.days <= Calendar.MaxOrdinal
    ensures var aEnd := a.given.value + a.days;
            var bStart := StartRule(b, 1, Some(aEnd));
            Resolve([a, b]) == Scheduled([a.given, bStart], [Some(aEnd), EndRule(bStart, b.days)])
  {
    var rows := [a, b];
    assert rows[..0] == [];
    ResolveStep(rows, 0, [], []);
    ResolveStep(rows, 1, [a.given], [Some(a.given.value + a.days)]);
    assert rows[..2] == rows;
  }

  lemma TwoRows(a: Parser.TaskRecord, b: Parser.TaskRecord)
    ensures Rows([a, b]) == [RowOf(a), RowOf(b)]
  {
  }

  /** Day d of April 1900. */
  function April(d: nat): nat
    requires 1 <= d <= 30
  {
    Calendar.Ordinal(3, d)
  }

  lemma AprilName()
    ensures Calendar.MonthNames[3] + [' '] == "April "
  {
    assert Calendar.MonthNames[3] == "April";
  }

  /** "April D" parses to day D of April 1900. */
  lemma AprilDate(ds: string, d: nat)
    requires 1 <= |ds| <= 2 && AllDigits(ds) && DecimalValue(ds) == d && 1 <= d <= 30
    ensures Calendar.ParseDate("April " + ds) == Some(April(d))
  {
    Calendar.ParseDateOfDateText(3, ' ', ds);
    AprilName();
  }

  /** "N day" and "N days" last N days. */
  lemma DayCount(ns: string, unit: string, n: nat)
    requires ns != [] && AllDigits(ns) && DecimalValue(ns) == n && n <= Calendar.MaxTimedeltaDays
    requires unit == " day" || unit == " days"
    ensures Calendar.ParseDuration(ns + unit) == n
  {
    Calendar.ParseDurationOfNumber(ns, unit);
  }

  /** A record with its own April date, a duration in days and no dependency. */
  lemma AprilRow(name: string, ds: string, d: nat, ns: string, unit: string, n: nat)
    requires 1 <= |ds| <= 2 && AllDigits(ds) && DecimalValue(ds) == d && 1 <= d <= 30
    requires ns != [] && AllDigits(ns) && DecimalValue(ns) == n && n <= Calendar.MaxTimedeltaDays
    requires unit == " day" || unit == " days"
    ensures RowOf(Parser.TaskRecord(name, "April " + ds, ns + unit, "")) == Row(Some(April(d)), n, false)
  {
    AprilDate(ds, d);
    DayCount(ns, unit, n);
  }

  lemma FoundationTexts()
    ensures "April " + "1" == "April 1" && "3" + " days" == "3 days" && "2" + " days" == "2 days"
  {
  }

  lemma WiringTexts()
    ensures DecimalValue("10") == 10 && "April " + "10" == "April 10" && "2" + " days" == "2 days"
  {
    assert "10"[..1] == "1";
  }

  lemma PaintingTexts()
    ensures "April " + "8" == "April 8" && "1" + " day" == "1 day"
  {
  }

  /** The two records of the first example read as these rows. */
  lemma FoundationRows()
    ensures RowOf(Parser.TaskRecord("Foundation", "April 1", "3 days", "")) == Row(Some(April(1)), 3, false)
    ensures RowOf(Parser.TaskRecord("Framing", "", "2 days", "Previous task")) == Row(None, 2, true)
  {
    FoundationTexts();
    AprilRow("Foundation", "1", 1, "3", " days", 3);
    DayCount("2", " days", 2);
  }

  /** The two records of the second example read as these rows. */
  lemma WiringRows()
    ensures RowOf(Parser.TaskRecord("Wiring", "April 10", "2 days", "")) == Row(Some(April(10)), 2, false)
    ensures RowOf(Parser.TaskRecord("Painting", "April 8", "1 day", "")) == Row(Some(April(8)), 1, false)
  {
    WiringTexts();
    AprilRow("Wiring", "10", 10, "2", " days", 2);
    PaintingTexts();
    AprilRow("Painting", "8", 8, "1", " day", 1);
  }

  /** The rows of the first example, scheduled. */
  lemma FoundationFramingSchedule()
    ensures var out := Resolve([Row(Some(April(1)), 3, false), Row(None, 2, true)]);
            out == Scheduled([Some(April(1)), Some(April(5))], [Some(April(4)), Some(April(7))])
            && !IsConflict(out.starts, out.ends, 1)
  {
    TwoRowSchedule(Row(Some(April(1)), 3, false), Row(None, 2, true));
  }

  /** The rows of the second example, scheduled. */
  lemma WiringPaintingSchedule()
    ensures var out := Resolve([Row(Some(April(10)), 2, false), Row(Some(April(8)), 1, false)]);
            out == Scheduled([Some(April(10)), Some(April(8))], [Some(April(12)), Some(April(9))])
            && IsConflict(out.starts, out.ends, 1)
  {
    TwoRowSchedule(Row(Some(April(10)), 2, false), Row(Some(April(8)), 1, false));
  }

  /** "Foundation will start April 1 and take 3 days. Framing will begin once
      Foundation is done and take 2 days." gives these two records: Foundation
      runs April 1 to April 4, Framing April 5 to April 7, and nothing conflicts. */
  lemma FoundationThenFraming()
    ensures var tasks := [Parser.TaskRecord("Foundation", "April 1", "3 days", ""),
                          Parser.TaskRecord("Framing", "", "2 days", "Previous task")];
            var out := Resolve(Rows(tasks));
            out == Scheduled([Some(April(1)), Some(April(5))], [Some(April(4)), Some(April(7))])
            && !IsConflict(out.starts, out.ends, 1)
  {
    var tasks := [Parser.TaskRecord("Foundation", "April 1", "3 days", ""),
                  Parser.TaskRecord("Framing", "", "2 days", "Previous task")];
    TwoRows(tasks[0], tasks[1]);
    FoundationRows();
    FoundationFramingSchedule();
  }

  /** "Wiring will start April 10 and take 2 days. Painting will start April 8
      and take 1 day." gives these two records: Wiring ends April 12, Painting
      keeps its own April 8, and Painting is reported against Wiring. */
  lemma WiringThenPainting()
    ensures var tasks := [Parser.TaskRecord("Wiring", "April 10", "2 days", ""),
                          Parser.TaskRecord("Painting", "April 8", "1 day", "")];
            var out := Resolve(Rows(tasks));
            out == Scheduled([Some(April(10)), Some(April(8))], [Some(April(12)), Some(April(9))])
            && IsConflict(out.starts, out.ends, 1)
            && ConflictAt(tasks, out.starts, out.ends, 1) == Conflict("Painting", April(8), "Wiring", April(12))
  {
    var tasks := [Parser.TaskRecord("Wiring", "April 10", "2 days", ""),
                  Parser.TaskRecord("Painting", "April 8", "1 day", "")];
    TwoRows(tasks[0], tasks[1]);
    WiringRows();
    WiringPaintingSchedule();
  }
}
