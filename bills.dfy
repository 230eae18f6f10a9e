/**
 * Bills: when a bill falls due (`billOccursOn`, `billDueDateInMonth`), how much
 * it costs in a month (`amountForBillOnDate`: per-month overrides, then the
 * latest permanent change), and the record of payments (`setBillPaid`,
 * `clearBillPaid`, `isBillPaidOn`, `isBillPaidRecent`).
 */
module Bills {
  import opened Text
  import opened Calendar

  /** A permanent change of the amount from month `from` (`YYYY-MM`) on. */
  datatype Change = Change(from: string, amount: int)

  /**
   * What the bill editor sets on a bill: its name, its date (`YYYY-MM-DD`, whose
   * day is the anchor of a monthly bill), the base amount, whether it repeats every
   * month, the per-month overrides and the permanent changes.
   */
  datatype Terms = Terms(
    name: string,
    date: string,
    amount: int,
    monthly: bool,
    overrides: map<string, int>,
    changes: seq<Change>)

  function Min(a: int, b: int): int {
    if a <= b then a else b
  }

  // ----- billOccursOn / billDueDateInMonth (app.js:1835-1859) -----

  /** `(bill.date||'').split('-')[2]||'1'`: the day part of the date, "1" when missing or empty. */
  function AnchorPart(date: string): string {
    var parts := Split(date, '-');
    if |parts| > 2 && parts[2] != "" then parts[2] else "1"
  }

  /** `Number(...)` of the anchor part; None is NaN. */
  function AnchorDay(t: Terms): Option<int> {
    ParseNumber(AnchorPart(t.date))
  }

  /** `new Date(y, monthIndex + 1, 0).getDate()`: the number of the month's last day. */
  function LastDayOf(y: int, monthIndex: int): int {
    MakeDate(y, monthIndex + 1, 0).day
  }

  lemma LastDayOfIsMonthLength(y: int, monthIndex: int)
    requires !(0 <= y <= 99) && 0 <= monthIndex < 12
    ensures LastDayOf(y, monthIndex) == DaysInMonth(y, monthIndex + 1)
  {
    MakeDateDayZero(y, monthIndex);
  }

  /**
   * `billOccursOn(bill, d)`: a one-off bill is due on the date whose key is its
   * date; a monthly bill on its anchor day, or on the last day of a shorter month.
   * A NaN anchor never matches a day.
   */
  function BillOccursOn(t: Terms, d: CivilDate): bool {
    if !t.monthly then t.date == IsoDate(d)
    else
      match AnchorDay(t)
      case None => false
      case Some(dd) => d.day == Min(dd, LastDayOf(d.year, d.month - 1))
  }

  /**
   * What `billDueDateInMonth` returns: `null`, an Invalid Date (which is truthy,
   * so callers take it for a due date), or a date.
   */
  datatype DueDate = NoDueDate | InvalidDue | DueOn(date: CivilDate)

  /**
   * `billDueDateInMonth(bill, year, monthIndex)`. For a monthly bill the date is
   * built with `new Date(year, monthIndex, min(anchor, last day))`; a NaN anchor
   * makes that an Invalid Date. A one-off bill has a due date only in the month
   * of its own date, and `null` otherwise.
   */
  function BillDueDateInMonth(t: Terms, year: int, monthIndex: int): (r: DueDate)
    ensures r.InvalidDue? <==> t.monthly && AnchorDay(t).None?
    ensures r.NoDueDate? ==> !t.monthly
    ensures !t.monthly && FromIso(t.date).None? ==> r.NoDueDate?
  {
    if t.monthly then
      match AnchorDay(t)
      case None => InvalidDue
      case Some(dd) => DueOn(MakeDate(year, monthIndex, Min(dd, LastDayOf(year, monthIndex))))
    else
      match FromIso(t.date)
      case Some(bd) =>
        if bd.year == year && bd.month - 1 == monthIndex then DueOn(MakeDate(year, monthIndex, bd.day)) else NoDueDate
      case None => NoDueDate
  }

  /** A one-off bill is due on one date at most. */
  lemma OneOffDueOnce(t: Terms, d1: CivilDate, d2: CivilDate)
    requires !t.monthly && BillOccursOn(t, d1) && BillOccursOn(t, d2)
    ensures d1 == d2
  {
    IsoDateInjective(d1, d2);
  }

  /** The day a one-off bill occurs on is the due date of its month. */
  lemma OneOffDueDateAgrees(t: Terms, d: CivilDate)
    requires !t.monthly && d.year >= 100
    ensures BillOccursOn(t, d) ==> BillDueDateInMonth(t, d.year, d.month - 1) == DueOn(d)
  {
    if BillOccursOn(t, d) {
      IsoDateRoundTrip(d);
      MakeDateInRange(d.year, d.month - 1, d.day);
    }
  }

  /**
   * A monthly bill with an anchor day of at least 1 occurs in a month exactly on
   * `min(anchor, month length)`, which is the date `billDueDateInMonth` gives.
   */
  lemma MonthlyDueDay(t: Terms, d: CivilDate)
    requires t.monthly && AnchorDay(t).Some? && AnchorDay(t).value >= 1
    requires !(0 <= d.year <= 99)
    ensures BillOccursOn(t, d) <==> d.day == Min(AnchorDay(t).value, DaysInMonth(d.year, d.month))
    ensures BillOccursOn(t, d) <==> BillDueDateInMonth(t, d.year, d.month - 1) == DueOn(d)
  {
    var dd := AnchorDay(t).value;
    LastDayOfIsMonthLength(d.year, d.month - 1);
    var day := Min(dd, DaysInMonth(d.year, d.month));
    MakeDateInRange(d.year, d.month - 1, day);
  }

  /** Every month has its due day, and only one. */
  lemma MonthlyOncePerMonth(t: Terms, y: int, m: int, d1: CivilDate, d2: CivilDate)
    requires t.monthly && AnchorDay(t).Some? && AnchorDay(t).value >= 1
    requires !(0 <= y <= 99) && 1 <= m <= 12
    requires d1.year == d2.year == y && d1.month == d2.month == m
    ensures BillOccursOn(t, Date(y, m, Min(AnchorDay(t).value, DaysInMonth(y, m))))
    ensures BillOccursOn(t, d1) && BillOccursOn(t, d2) ==> d1 == d2
  {
    MonthlyDueDay(t, Date(y, m, Min(AnchorDay(t).value, DaysInMonth(y, m))));
    MonthlyDueDay(t, d1);
    MonthlyDueDay(t, d2);
  }

  /** With anchor day 0 the due date is `new Date(y, monthIndex, 0)`, the last day of the month before. */
  lemma ZeroAnchorDueDate(t: Terms, year: int, monthIndex: int)
    requires t.monthly && AnchorDay(t) == Some(0)
    ensures BillDueDateInMonth(t, year, monthIndex) == DueOn(MakeDate(year, monthIndex, 0))
  {
    var last := LastDayOf(year, monthIndex);
    assert last >= 1;
    assert Min(0, last) == 0;
  }

  /** A monthly bill whose anchor is NaN or 0 is never due. */
  lemma MonthlyWithoutAnchorNeverDue(t: Terms, d: CivilDate)
    requires t.monthly && (AnchorDay(t).None? || AnchorDay(t).value == 0)
    ensures !BillOccursOn(t, d)
  {
  }

  // ----- amountForBillOnDate (app.js:1862-1869) -----

  /**
   * The month key `${getFullYear()}-${pad2(getMonth()+1)}`; an Invalid Date (None)
   * prints as `NaN-NaN`.
   */
  function MonthKey(d: Option<CivilDate>): string {
    match d
    case None => "NaN-NaN"
    case Some(x) => IntToString(x.year) + "-" + Pad2(x.month)
  }

  /** `ch.from && ch.from <= ym`: the change is in force in month `ym`. */
  predicate Applies(c: Change, ym: string) {
    c.from != "" && StrLe(c.from, ym)
  }

  predicate SortedByFrom(cs: seq<Change>) {
    forall i, j :: 0 <= i < j < |cs| ==> StrLe(cs[i].from, cs[j].from)
  }

  /** Insert `c` after every change whose `from` is not greater than its own. */
  function InsertByFrom(cs: seq<Change>, c: Change): (r: seq<Change>)
    ensures multiset(r) == multiset(cs) + multiset{c}
  {
    if |cs| == 0 then [c]
    else if StrLt(c.from, cs[|cs| - 1].from) then
      assert cs == cs[..|cs| - 1] + [cs[|cs| - 1]];
      InsertByFrom(cs[..|cs| - 1], c) + [cs[|cs| - 1]]
    else cs + [c]
  }

  /** `changes.slice().sort((a, b) => a.from < b.from ? -1 : 1)`, as a stable insertion sort. */
  function SortByFrom(cs: seq<Change>): (r: seq<Change>)
    ensures multiset(r) == multiset(cs)
  {
    if |cs| == 0 then []
    else
      assert cs == cs[..|cs| - 1] + [cs[|cs| - 1]];
      InsertByFrom(SortByFrom(cs[..|cs| - 1]), cs[|cs| - 1])
  }

  lemma {:induction false} InsertByFromSorted(cs: seq<Change>, c: Change)
    requires SortedByFrom(cs)
    ensures SortedByFrom(InsertByFrom(cs, c))
  {
    if |cs| > 0 {
      var last := cs[|cs| - 1];
      var init := cs[..|cs| - 1];
      if StrLt(c.from, last.from) {
        InsertByFromSorted(init, c);
        var ins := InsertByFrom(init, c);
        StrLeTotal(c.from, last.from);
        forall x | x in ins ensures StrLe(x.from, last.from) {
          assert x in multiset(ins);
          if x != c {
            assert x in init;
          }
        }
        var r := ins + [last];
        forall i, j | 0 <= i < j < |r| ensures StrLe(r[i].from, r[j].from) {
          if j == |r| - 1 {
            assert r[i] in ins;
          }
        }
      } else {
        StrLeTotal(c.from, last.from);
        var r := cs + [c];
        forall i, j | 0 <= i < j < |r| ensures StrLe(r[i].from, r[j].from) {
          if j == |r| - 1 && i < |cs| - 1 {
            StrLeTransitive(cs[i].from, last.from, c.from);
          }
        }
      }
    }
  }

  lemma {:induction false} SortByFromSorted(cs: seq<Change>)
    ensures SortedByFrom(SortByFrom(cs))
  {
    if |cs| > 0 {
      SortByFromSorted(cs[..|cs| - 1]);
      InsertByFromSorted(SortByFrom(cs[..|cs| - 1]), cs[|cs| - 1]);
    }
  }

  /**
   * The loop `for (const ch of changes) if (applies) base = ch.amount`, read from
   * the end: the amount of the last change in force, or the base amount.
   */
  function Resolve(cs: seq<Change>, ym: string, base: int): int {
    if |cs| == 0 then base
    else if Applies(cs[|cs| - 1], ym) then cs[|cs| - 1].amount
    else Resolve(cs[..|cs| - 1], ym, base)
  }

  /** The amount of a bill in month `ym`: the override, else the resolved changes over the base amount. */
  function AmountForMonth(t: Terms, ym: string): int {
    if ym in t.overrides then t.overrides[ym] else Resolve(SortByFrom(t.changes), ym, t.amount)
  }

  /** `amountForBillOnDate(bill, d)`; None is an Invalid Date. */
  method AmountForBillOnDate(t: Terms, d: Option<CivilDate>) returns (amount: int)
    ensures amount == AmountForMonth(t, MonthKey(d))
  {
    var ym := MonthKey(d);
    if ym in t.overrides {
      return t.overrides[ym];
    }
    amount := t.amount;
    var changes := SortByFrom(t.changes);
    for i := 0 to |changes|
      invariant amount == Resolve(changes[..i], ym, t.amount)
    {
      assert changes[..i + 1][..i] == changes[..i];
      if changes[i].from != "" && StrLe(changes[i].from, ym) {
        amount := changes[i].amount;
      }
    }
    assert changes[..|changes|] == changes;
  }

  /**
   * Over changes sorted by `from`, the resolved amount is the base amount when no
   * change is in force, and otherwise the amount of a change in force whose `from`
   * is the latest of all changes in force.
   */
  lemma {:induction false} ResolveIsLatest(cs: seq<Change>, ym: string, base: int)
    requires SortedByFrom(cs)
    ensures (forall c :: c in cs ==> !Applies(c, ym)) ==> Resolve(cs, ym, base) == base
    ensures (exists c :: c in cs && Applies(c, ym)) ==>
              exists c :: c in cs && Applies(c, ym) && Resolve(cs, ym, base) == c.amount
                          && forall c' :: c' in cs && Applies(c', ym) ==> StrLe(c'.from, c.from)
  {
    if |cs| > 0 {
      var last := cs[|cs| - 1];
      var init := cs[..|cs| - 1];
      assert forall c :: c in cs <==> c in init || c == last;
      if Applies(last, ym) {
        forall c' | c' in cs && Applies(c', ym) ensures StrLe(c'.from, last.from) {
          if c' != last {
            var i :| 0 <= i < |init| && init[i] == c';
            assert cs[i] == c';
          } else {
            StrLeReflexive(last.from);
          }
        }
      } else {
        ResolveIsLatest(init, ym, base);
      }
    }
  }

  /**
   * The amount of a bill without overrides is a step function of the month: when
   * no change starts after `ym1` and no later than `ym2`, both months resolve alike.
   */
  lemma {:induction false} ResolveConstantBetween(cs: seq<Change>, ym1: string, ym2: string, base: int)
    requires StrLe(ym1, ym2)
    requires forall c :: c in cs && c.from != "" ==> !(StrLt(ym1, c.from) && StrLe(c.from, ym2))
    ensures Resolve(cs, ym1, base) == Resolve(cs, ym2, base)
  {
    if |cs| > 0 {
      var last := cs[|cs| - 1];
      assert last in cs;
      if Applies(last, ym1) {
        StrLeTransitive(last.from, ym1, ym2);
      }
      assert forall c :: c in cs[..|cs| - 1] ==> c in cs;
      ResolveConstantBetween(cs[..|cs| - 1], ym1, ym2, base);
    }
  }

  /** The amount in a month: its override when there is one, else the latest change in force, else the base. */
  lemma AmountForMonthResolves(t: Terms, ym: string)
    ensures ym in t.overrides ==> AmountForMonth(t, ym) == t.overrides[ym]
    ensures ym !in t.overrides && (forall c :: c in t.changes ==> !Applies(c, ym)) ==> AmountForMonth(t, ym) == t.amount
    ensures ym !in t.overrides && (exists c :: c in t.changes && Applies(c, ym)) ==>
              exists c :: c in t.changes && Applies(c, ym) && AmountForMonth(t, ym) == c.amount
                          && forall c' :: c' in t.changes && Applies(c', ym) ==> StrLe(c'.from, c.from)
  {
    var sorted := SortByFrom(t.changes);
    SortByFromSorted(t.changes);
    assert forall c :: c in sorted <==> c in t.changes by {
      assert forall c :: c in sorted <==> c in multiset(sorted);
      assert forall c :: c in t.changes <==> c in multiset(t.changes);
    }
    ResolveIsLatest(sorted, ym, t.amount);
  }

  // ----- payments (app.js:1871-1918) -----

  /** `paidOn || isoDate(state.today)`: the date recorded as the payment date. */
  function PaidDate(paidOn: string, today: CivilDate): string {
    if paidOn != "" then paidOn else IsoDate(today)
  }

  /** `isBillPaidOn(bill, dateKey)`: a payment is recorded under the key. */
  predicate IsPaidOn(paid: map<string, string>, dateKey: string) {
    dateKey != "" && dateKey in paid
  }

  /**
   * `isBillPaidRecent(bill, dateKey, days)`: paid, on a readable date, at most
   * `days` days before today.
   */
  predicate IsPaidRecent(paid: map<string, string>, dateKey: string, days: int, today: CivilDate) {
    IsPaidOn(paid, dateKey)
    && var on := if paid[dateKey] != "" then paid[dateKey] else dateKey;
       match FromIso(on)
       case None => false
       case Some(pd) => DaysBetween(pd, today) <= days
  }

  /** A bill: its terms, and the two maps the planner updates in place. */
  class Bill {
    var terms: Terms
    /** Due-date key to the date the payment was recorded as made. */
    var paid: map<string, string>
    /** `YYYY-MM` to the amount already added to the yearly ledger for that month. */
    var applied: map<string, int>

    constructor (t: Terms)
      ensures terms == t && paid == map[] && applied == map[]
    {
      terms := t;
      paid := map[];
      applied := map[];
    }

    /** `setBillPaid(bill, dateKey, paidOn)`: nothing happens for an empty key. */
    method SetPaid(dateKey: string, paidOn: string, today: CivilDate)
      modifies this
      ensures terms == old(terms) && applied == old(applied)
      ensures dateKey == "" ==> paid == old(paid)
      ensures dateKey != "" ==> paid == old(paid)[dateKey := PaidDate(paidOn, today)]
    {
      if dateKey == "" {
        return;
      }
      paid := paid[dateKey := PaidDate(paidOn, today)];
    }

    /** `clearBillPaid(bill, dateKey)`. */
    method ClearPaid(dateKey: string)
      modifies this
      ensures terms == old(terms) && applied == old(applied)
      ensures paid == old(paid) - {dateKey}
    {
      paid := paid - {dateKey};
    }
  }

  /** Recording a payment marks the key paid and leaves every other key as it was. */
  lemma SetPaidMarks(paid: map<string, string>, dateKey: string, paidOn: string, today: CivilDate, other: string)
    requires dateKey != ""
    ensures IsPaidOn(paid[dateKey := PaidDate(paidOn, today)], dateKey)
    ensures other != dateKey ==>
              (IsPaidOn(paid[dateKey := PaidDate(paidOn, today)], other) <==> IsPaidOn(paid, other))
  {
  }

  /** A payment recorded today without a date counts as recent for any window of 0 days or more. */
  lemma PaidTodayIsRecent(paid: map<string, string>, dateKey: string, today: CivilDate, days: int)
    requires dateKey != "" && today.year >= 100
    ensures IsPaidRecent(paid[dateKey := PaidDate("", today)], dateKey, days, today) <==> days >= 0
  {
    IsoDateRoundTrip(today);
  }

  /** Clearing undoes recording: the key is no longer paid, and a fresh record is removed entirely. */
  lemma ClearUndoesSet(paid: map<string, string>, dateKey: string, on: string)
    ensures !IsPaidOn(paid - {dateKey}, dateKey)
    ensures dateKey !in paid ==> paid[dateKey := on] - {dateKey} == paid
  {
  }
}
