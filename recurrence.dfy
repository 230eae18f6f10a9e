/**
 * Recurring event series: when a series produces an occurrence (`occursOn`),
 * the events shown on a day (`getEventsForDate`), and the cancel, delete and
 * edit operations on the list of series.
 */
module Recurrence {
  import opened Text
  import opened Calendar

  /** `kind`: every `every` days, or every week on the start date's weekday. */
  datatype Kind = Days | Weekly

  /** One entry of `state.recurring`. */
  datatype Series = Series(
    groupId: string,
    startDate: string,
    time: string,
    end: string,
    text: string,
    priority: string,
    every: int,
    kind: Kind,
    until: string,
    times: int,
    canceled: bool)

  function Abs(x: int): nat {
    if x < 0 then -x else x
  }

  /** `date > fromISO(until)`; an empty or unreadable `until` sets no bound. */
  predicate PastUntil(s: Series, date: CivilDate) {
    s.until != "" && FromIso(s.until).Some? && DayNumber(date) > DayNumber(FromIso(s.until).value)
  }

  /**
   * `occursOn(series, date)`. An unreadable start date is an Invalid Date in the
   * source, against which every comparison fails, so such a series never occurs;
   * `every == 0` makes `diff % every` NaN, so such a `days` series never occurs.
   * The remainder test is on `|every|` because `diff` is not negative there and the
   * sign of the divisor does not change whether the remainder is zero; the quotient
   * `diff / every` is then exact, so Dafny's division agrees with `Math.floor`.
   */
  function OccursOn(s: Series, date: CivilDate): bool {
    if s.canceled then false
    else
      match FromIso(s.startDate)
      case None => false
      case Some(sd) => OccursFrom(s, sd, date)
  }

  /** The tests of `occursOn` after the start date `sd` has been read. */
  function OccursFrom(s: Series, sd: CivilDate, date: CivilDate): bool {
    var diff := DaysBetween(sd, date);
    if diff < 0 then false
    else if s.kind == Weekly then Weekday(date) == Weekday(sd) && WithinBounds(s, date, diff / 7)
    else s.every != 0 && diff % Abs(s.every) == 0 && WithinBounds(s, date, diff / s.every)
  }

  /** The `until` test and the `times` cap on the occurrence index `idx`. */
  predicate WithinBounds(s: Series, date: CivilDate, idx: int) {
    !PastUntil(s, date) && !(s.times > 0 && idx >= s.times)
  }

  /** A series whose period is a positive number of days, as creation and editing guarantee. */
  predicate HasPeriod(s: Series) {
    s.kind == Weekly || s.every >= 1
  }

  /** What creating and editing a series guarantee: a `days` series repeats every 2 days or more. */
  predicate WellFormed(s: Series) {
    s.kind == Days ==> s.every >= 2
  }

  function Period(s: Series): int
    requires HasPeriod(s)
  {
    if s.kind == Weekly then 7 else s.every
  }

  lemma SameWeekdayIffWeeksApart(a: int, b: int)
    ensures WeekdayOfNumber(a) == WeekdayOfNumber(b) <==> (a - b) % 7 == 0
  {
    var qa, qb := (a + 6) / 7, (b + 6) / 7;
    var ra, rb := (a + 6) % 7, (b + 6) % 7;
    assert a - b == 7 * (qa - qb) + (ra - rb);
    WeeksApart(a - b, qa - qb, ra - rb);
  }

  /** `x = 7k + d` with `|d| < 7` is a multiple of 7 exactly when `d` is 0. */
  lemma WeeksApart(x: int, k: int, d: int)
    requires x == 7 * k + d && -7 < d < 7
    ensures x % 7 == 0 <==> d == 0
  {
    var m := x / 7;
    assert x == 7 * m + x % 7;
    assert 7 * (m - k) == d - x % 7;
  }

  /** The only reasons a series is silent on a date. */
  lemma OccursOnGuards(s: Series, date: CivilDate)
    ensures s.canceled ==> !OccursOn(s, date)
    ensures FromIso(s.startDate).None? ==> !OccursOn(s, date)
    ensures PastUntil(s, date) ==> !OccursOn(s, date)
    ensures OccursOn(s, date) ==> DayNumber(FromIso(s.startDate).value) <= DayNumber(date)
    ensures OccursOn(s, date) && s.kind == Weekly ==> Weekday(date) == Weekday(FromIso(s.startDate).value)
    ensures OccursOn(s, date) && s.kind == Days ==>
              s.every != 0 && DaysBetween(FromIso(s.startDate).value, date) % Abs(s.every) == 0
  {
  }

  /**
   * A live series with a readable start and a positive period occurs exactly on the
   * dates a whole number of periods after the start, within the first `times`
   * periods when `times > 0`, and not after `until`.
   */
  lemma OccursOnIff(s: Series, sd: CivilDate, date: CivilDate)
    requires !s.canceled && FromIso(s.startDate) == Some(sd) && HasPeriod(s)
    ensures OccursOn(s, date) <==>
              var diff := DaysBetween(sd, date);
              diff >= 0 && diff % Period(s) == 0
              && (s.times <= 0 || diff / Period(s) < s.times)
              && !PastUntil(s, date)
  {
    assert OccursOn(s, date) == OccursFrom(s, sd, date);
    OccursFromIff(s, sd, date);
  }

  lemma OccursFromIff(s: Series, sd: CivilDate, date: CivilDate)
    requires HasPeriod(s)
    ensures OccursFrom(s, sd, date) <==>
              var diff := DaysBetween(sd, date);
              diff >= 0 && diff % Period(s) == 0
              && (s.times <= 0 || diff / Period(s) < s.times)
              && !PastUntil(s, date)
  {
    if s.kind == Weekly {
      SameWeekdayIffWeeksApart(DayNumber(date), DayNumber(sd));
    }
  }

  /** The `k`-th occurrence date of a series with a period, counting from 0. */
  function NthDate(s: Series, sd: CivilDate, k: int): CivilDate
    requires HasPeriod(s)
  {
    AddDays(sd, k * Period(s))
  }

  /** Every one of the first `times` period dates (all of them when `times <= 0`) up to `until` occurs. */
  lemma NthDateOccurs(s: Series, sd: CivilDate, k: int)
    requires !s.canceled && FromIso(s.startDate) == Some(sd) && HasPeriod(s)
    requires k >= 0 && (s.times <= 0 || k < s.times)
    requires !PastUntil(s, NthDate(s, sd, k))
    ensures OccursOn(s, NthDate(s, sd, k))
  {
    var p := Period(s);
    var date := NthDate(s, sd, k);
    MulDiv(k, p);
    var diff := DaysBetween(sd, date);
    assert diff == k * p;
    assert diff >= 0 && diff % p == 0 && diff / p == k;
    OccursOnIff(s, sd, date);
  }

  lemma MulDiv(k: int, p: int)
    requires p >= 1
    ensures (k * p) / p == k && (k * p) % p == 0
    ensures k >= 0 ==> k * p >= 0
  {
    var q, r := (k * p) / p, (k * p) % p;
    assert (k - q) * p == r by {
      assert k * p == q * p + r;
    }
    MulBounds(k - q, p);
  }

  lemma MulBounds(a: int, p: int)
    requires p >= 1
    ensures a >= 1 ==> a * p >= p
    ensures a <= -1 ==> a * p <= -p
  {
    if a >= 1 {
      assert a * p == (a - 1) * p + p;
    } else if a <= -1 {
      assert a * p == (a + 1) * p - p;
    }
  }

  lemma ExactDiv(n: int, p: int)
    requires p >= 1 && n >= 0 && n % p == 0
    ensures n / p >= 0 && (n / p) * p == n
  {
  }

  /** Conversely, every date a series occurs on is one of those period dates. */
  lemma OccurrenceIsNthDate(s: Series, sd: CivilDate, date: CivilDate)
    requires FromIso(s.startDate) == Some(sd) && HasPeriod(s)
    requires OccursOn(s, date)
    ensures var k := DaysBetween(sd, date) / Period(s);
            k >= 0 && (s.times <= 0 || k < s.times) && date == NthDate(s, sd, k)
  {
    var p := Period(s);
    var diff := DaysBetween(sd, date);
    OccursOnIff(s, sd, date);
    ExactDiv(diff, p);
    var k := diff / p;
    DayNumberInjective(date, NthDate(s, sd, k));
  }

  /** The first `n` period dates of a series, as a set. */
  function FirstDates(s: Series, sd: CivilDate, n: nat): (r: set<CivilDate>)
    requires HasPeriod(s)
    ensures |r| <= n
    ensures forall k :: 0 <= k < n ==> NthDate(s, sd, k) in r
  {
    if n == 0 then {} else FirstDates(s, sd, n - 1) + {NthDate(s, sd, n - 1)}
  }

  /** With `times = N > 0`, a series occurs on at most `N` dates. */
  lemma AtMostTimesOccurrences(s: Series, dates: set<CivilDate>)
    requires HasPeriod(s) && s.times > 0
    requires forall d :: d in dates ==> OccursOn(s, d)
    ensures |dates| <= s.times
  {
    if dates != {} {
      var d0 :| d0 in dates;
      var sd := FromIso(s.startDate).value;
      var all := FirstDates(s, sd, s.times);
      forall d | d in dates ensures d in all {
        OccurrenceIsNthDate(s, sd, d);
      }
      assert dates <= all;
      SubsetCardinality(dates, all);
    }
  }

  lemma {:induction false} SubsetCardinality<T>(a: set<T>, b: set<T>)
    requires a <= b
    ensures |a| <= |b|
    decreases |b|
  {
    if b != {} {
      var x :| x in b;
      SubsetCardinality(a - {x}, b - {x});
    }
  }

  // ----- getEventsForDate (app.js:1667-1687) -----

  /** An entry of the day list: a single event, or an occurrence of a series. */
  datatype Event = Event(id: string, time: string, end: string, text: string, priority: string, recurring: bool)

  /** The occurrence a series contributes on the day whose key is `key`. */
  function OccurrenceEvent(s: Series, key: string): Event {
    Event(s.groupId + ":" + key, s.time, s.end, s.text, s.priority, true)
  }

  /** `.filter(s => occursOn(s, date)).map(...)`: one occurrence per occurring series, in list order. */
  function Occurrences(series: seq<Series>, date: CivilDate, key: string): (r: seq<Event>)
    ensures |r| <= |series|
    ensures forall i :: 0 <= i < |r| ==> r[i].recurring
  {
    if |series| == 0 then []
    else
      var rest := Occurrences(series[1..], date, key);
      if OccursOn(series[0], date) then [OccurrenceEvent(series[0], key)] + rest else rest
  }

  /** The occurrences are exactly those of the series that occur on the date. */
  lemma {:induction false} OccurrencesExactly(series: seq<Series>, date: CivilDate, key: string)
    ensures forall i :: 0 <= i < |series| && OccursOn(series[i], date) ==>
              OccurrenceEvent(series[i], key) in Occurrences(series, date, key)
    ensures forall e :: e in Occurrences(series, date, key) ==>
              exists i :: 0 <= i < |series| && OccursOn(series[i], date) && e == OccurrenceEvent(series[i], key)
  {
    if |series| > 0 {
      OccurrencesExactly(series[1..], date, key);
      assert forall i :: 1 <= i < |series| ==> series[i] == series[1..][i - 1];
    }
  }

  /**
   * `getEventsForDate(date)`: the day's single events (marked as not recurring),
   * followed by one occurrence per series that occurs on the date, in list order.
   */
  function EventsForDate(events: map<string, seq<Event>>, series: seq<Series>, date: CivilDate): (r: seq<Event>)
    ensures var singles := if IsoDate(date) in events then events[IsoDate(date)] else [];
            |singles| <= |r| <= |singles| + |series|
            && (forall i :: 0 <= i < |singles| ==> r[i] == singles[i].(recurring := false))
            && r[|singles|..] == Occurrences(series, date, IsoDate(date))
            && (forall i :: |singles| <= i < |r| ==> r[i].recurring)
  {
    var key := IsoDate(date);
    var singles := if key in events then events[key] else [];
    var marked := seq(|singles|, i requires 0 <= i < |singles| => singles[i].(recurring := false));
    marked + Occurrences(series, date, key)
  }

  /** Occurrence ids on one day determine the group id. */
  lemma OccurrenceIdInjective(a: string, b: string, key: string)
    ensures a + ":" + key == b + ":" + key ==> a == b
  {
    if a + ":" + key == b + ":" + key {
      assert |a| == |b|;
      assert a == (a + ":" + key)[..|a|];
      assert b == (b + ":" + key)[..|b|];
    }
  }

  /**
   * With distinct group ids, a series has an occurrence in the day list exactly
   * when it occurs on the date, and that occurrence's id is `groupId:date`.
   */
  lemma EventsForDateHasOccurrence(events: map<string, seq<Event>>, series: seq<Series>, date: CivilDate, j: int)
    requires 0 <= j < |series|
    requires forall a, b :: 0 <= a < b < |series| ==> series[a].groupId != series[b].groupId
    ensures var r := EventsForDate(events, series, date);
            var singles := if IsoDate(date) in events then events[IsoDate(date)] else [];
            OccursOn(series[j], date) <==>
              exists i :: |singles| <= i < |r| && r[i].id == series[j].groupId + ":" + IsoDate(date)
  {
    var key := IsoDate(date);
    var r := EventsForDate(events, series, date);
    var singles := if key in events then events[key] else [];
    var occ := Occurrences(series, date, key);
    OccurrencesExactly(series, date, key);
    if OccursOn(series[j], date) {
      var e := OccurrenceEvent(series[j], key);
      assert e in r[|singles|..];
      var i :| 0 <= i < |occ| && occ[i] == e;
      assert r[|singles| + i] == e;
    } else {
      forall i | |singles| <= i < |r| ensures r[i].id != series[j].groupId + ":" + key {
        assert r[i] in occ;
        var m :| 0 <= m < |series| && OccursOn(series[m], date) && r[i] == OccurrenceEvent(series[m], key);
        assert m != j;
        OccurrenceIdInjective(series[m].groupId, series[j].groupId, key);
      }
    }
  }

  // ----- findSeries / cancelSeries / deleteSeries / editSeries (app.js:1691-1723) -----

  /**
   * `findSeries(groupId)`: the index of the first series with that group id.
   * It has the shape of the category search `Ledger.IndexOfId` but runs over
   * series and their group ids; the series module does not depend on the ledger.
   */
  function FindSeries(series: seq<Series>, groupId: string): (r: Option<nat>)
    ensures r.Some? ==> r.value < |series| && series[r.value].groupId == groupId
                        && forall j :: 0 <= j < r.value ==> series[j].groupId != groupId
    ensures r.None? ==> forall j :: 0 <= j < |series| ==> series[j].groupId != groupId
  {
    if |series| == 0 then None
    else if series[0].groupId == groupId then Some(0)
    else
      match FindSeries(series[1..], groupId)
      case None => None
      case Some(i) => Some(i + 1)
  }

  /**
   * `cancelSeries(groupId)`: when a series has the id and the user confirms, that
   * first series is marked canceled; otherwise nothing changes.
   */
  function CancelSeries(series: seq<Series>, groupId: string, confirmed: bool): (r: seq<Series>)
    ensures |r| == |series|
    ensures FindSeries(series, groupId).None? || !confirmed ==> r == series
    ensures FindSeries(series, groupId).Some? && confirmed ==>
              var i := FindSeries(series, groupId).value;
              r[i] == series[i].(canceled := true)
              && forall j :: 0 <= j < |series| && j != i ==> r[j] == series[j]
  {
    match FindSeries(series, groupId)
    case None => series
    case Some(i) => if confirmed then series[i := series[i].(canceled := true)] else series
  }

  /** After a confirmed cancel, the series with that id that was found never occurs again. */
  lemma CanceledSeriesIsSilent(series: seq<Series>, groupId: string, date: CivilDate)
    requires FindSeries(series, groupId).Some?
    ensures var r := CancelSeries(series, groupId, true);
            !OccursOn(r[FindSeries(series, groupId).value], date)
  {
  }

  /** `deleteSeries(groupId)`: on confirmation, drop every series with that id. */
  function DeleteSeries(series: seq<Series>, groupId: string, confirmed: bool): (r: seq<Series>)
    ensures !confirmed ==> r == series
    ensures confirmed ==> forall s :: s in r <==> s in series && s.groupId != groupId
    ensures |r| <= |series|
    decreases |series|
  {
    if !confirmed then series
    else if |series| == 0 then []
    else
      var rest := DeleteSeries(series[1..], groupId, true);
      assert forall s :: s in series <==> s == series[0] || s in series[1..];
      if series[0].groupId == groupId then rest else [series[0]] + rest
  }

  /**
   * `filter` keeps order and repeats: deleting from a concatenation deletes from
   * each part, and a single series is kept exactly when its id differs.
   */
  lemma {:induction false} DeleteSeriesConcat(a: seq<Series>, b: seq<Series>, groupId: string)
    ensures DeleteSeries(a + b, groupId, true) == DeleteSeries(a, groupId, true) + DeleteSeries(b, groupId, true)
    ensures forall s :: DeleteSeries([s], groupId, true) == if s.groupId == groupId then [] else [s]
    decreases |a|
  {
    if |a| > 0 {
      assert (a + b)[1..] == a[1..] + b;
      DeleteSeriesConcat(a[1..], b, groupId);
    } else {
      assert a + b == b;
    }
    forall s ensures DeleteSeries([s], groupId, true) == if s.groupId == groupId then [] else [s] {
      assert [s][1..] == [];
    }
  }

  /**
   * The answers to the seven prompts of `editSeries`, in order; None is a
   * dismissed prompt, which ends the edit without a change.
   */
  datatype EditAnswers = EditAnswers(
    text: Option<string>,
    time: Option<string>,
    end: Option<string>,
    priority: Option<string>,
    every: Option<string>,
    until: Option<string>,
    times: Option<string>)

  predicate AllAnswered(a: EditAnswers) {
    a.text.Some? && a.time.Some? && a.end.Some? && a.priority.Some?
    && a.every.Some? && a.until.Some? && a.times.Some?
  }

  /**
   * `Number(str)` on a prompt answer: the surrounding white space is dropped
   * first, as `Number` does, and the rest is read as decimal digits.
   */
  function PromptNumber(str: string): (r: Option<int>)
    ensures r.Some? ==> r.value >= 0
    ensures Trim(str) == "" ==> r == Some(0)
  {
    ParseNumber(Trim(str))
  }

  /** `!every || every < 2` on `Number(everyStr)`: NaN, 0 and 1 are refused. */
  predicate EveryAccepted(everyStr: string) {
    PromptNumber(everyStr).Some? && PromptNumber(everyStr).value >= 2
  }

  /** `Number(timesStr) || 0`: NaN becomes 0, which sets no cap. */
  function EditedTimes(timesStr: string): (n: int)
    ensures n >= 0
    ensures PromptNumber(timesStr).None? ==> n == 0
    ensures PromptNumber(timesStr).Some? ==> n == PromptNumber(timesStr).value
  {
    match PromptNumber(timesStr)
    case None => 0
    case Some(v) => v
  }

  /** `(priority || 'baja').toLowerCase()`: an empty answer is `baja`. */
  function EditedPriority(priority: string): (r: string)
    ensures priority == "" ==> r == "baja"
    ensures priority != "" ==> |r| == |priority| && forall i :: 0 <= i < |r| ==> r[i] == LowerChar(priority[i])
  {
    Lower(if priority == "" then "baja" else priority)
  }

  /** The fields `Object.assign` writes into the series on an accepted edit. */
  function EditedSeries(s: Series, a: EditAnswers): (r: Series)
    requires AllAnswered(a) && EveryAccepted(a.every.value)
    ensures r.every == PromptNumber(a.every.value).value && r.every >= 2
    ensures r.until == Trim(a.until.value)
    ensures r.times == EditedTimes(a.times.value) && r.times >= 0
    ensures r.text == Trim(a.text.value) && r.time == Trim(a.time.value) && r.end == Trim(a.end.value)
    ensures r.priority == EditedPriority(a.priority.value)
    ensures r.groupId == s.groupId && r.startDate == s.startDate
    ensures r.kind == s.kind && r.canceled == s.canceled
  {
    s.(text := Trim(a.text.value), time := Trim(a.time.value), end := Trim(a.end.value),
       priority := EditedPriority(a.priority.value), every := PromptNumber(a.every.value).value,
       until := Trim(a.until.value), times := EditedTimes(a.times.value))
  }

  /**
   * The occurrences of an edited live series: the dates a whole number of periods
   * (the new repetition, or a week) after its unchanged start date, within the
   * first `times` periods answered (no cap for 0 or NaN), and not after the
   * `until` date answered.
   */
  lemma EditedSeriesOccursOn(s: Series, a: EditAnswers, sd: CivilDate, date: CivilDate)
    requires AllAnswered(a) && EveryAccepted(a.every.value)
    requires !s.canceled && FromIso(s.startDate) == Some(sd)
    ensures var p := if s.kind == Weekly then 7 else PromptNumber(a.every.value).value;
            var diff := DaysBetween(sd, date);
            var times := EditedTimes(a.times.value);
            var until := Trim(a.until.value);
            OccursOn(EditedSeries(s, a), date) <==>
              diff >= 0 && diff % p == 0
              && (times == 0 || diff / p < times)
              && !(until != "" && FromIso(until).Some? && DayNumber(date) > DayNumber(FromIso(until).value))
  {
    OccursOnIff(EditedSeries(s, a), sd, date);
  }

  /**
   * `editSeries(groupId)`: the first series with the id takes the answers when
   * every prompt was answered and the repetition is 2 days or more; otherwise the
   * list is unchanged.
   */
  function EditSeries(series: seq<Series>, groupId: string, a: EditAnswers): (r: seq<Series>)
    ensures |r| == |series|
    ensures FindSeries(series, groupId).None? || !AllAnswered(a) || !EveryAccepted(a.every.value) ==> r == series
  {
    match FindSeries(series, groupId)
    case None => series
    case Some(i) =>
      if AllAnswered(a) && EveryAccepted(a.every.value) then series[i := EditedSeries(series[i], a)]
      else series
  }

  /**
   * An accepted edit changes the first series with the id only: it takes the
   * answers as `EditedSeries` states; every other series stays as it was.
   */
  lemma EditSeriesEdits(series: seq<Series>, groupId: string, a: EditAnswers)
    requires FindSeries(series, groupId).Some? && AllAnswered(a) && EveryAccepted(a.every.value)
    ensures var r := EditSeries(series, groupId, a);
            var i := FindSeries(series, groupId).value;
            r[i] == EditedSeries(series[i], a)
            && forall j :: 0 <= j < |series| && j != i ==> r[j] == series[j]
  {
    var i := FindSeries(series, groupId).value;
    var e := EditedSeries(series[i], a);
    assert EditSeries(series, groupId, a) == series[i := e];
  }

  /** Editing keeps every series well formed: a `days` series still repeats every 2 days or more. */
  lemma EditSeriesKeepsWellFormed(series: seq<Series>, groupId: string, a: EditAnswers)
    requires forall s :: s in series ==> WellFormed(s)
    ensures forall s :: s in EditSeries(series, groupId, a) ==> WellFormed(s)
  {
    var r := EditSeries(series, groupId, a);
    if FindSeries(series, groupId).Some? && AllAnswered(a) && EveryAccepted(a.every.value) {
      EditSeriesEdits(series, groupId, a);
    }
    forall s | s in r ensures WellFormed(s) {
      var j :| 0 <= j < |r| && r[j] == s;
      assert r[j] == series[j] || r[j].every >= 2;
    }
  }
}
