/**
 * The planner's global state and the operations that update it in place: the
 * goal rollovers, the recurring-series edits, and the yearly expense ledger fed
 * by transactions and bills. Random category ids are parameters.
 */
module Planner {
  import opened Text
  import opened Calendar
  import opened Recurrence
  import opened Bills
  import opened Ledger
  import opened Goals

  /** Every yearly plan has distinct ids, a row per category and no negative cell. */
  predicate ValidYears(ey: map<string, YearPlan>) {
    forall y :: y in ey ==> ValidPlan(ey[y])
  }

  lemma ValidYearsUpdate(ey: map<string, YearPlan>, y: string, p: YearPlan)
    requires ValidYears(ey) && ValidPlan(p)
    ensures ValidYears(ey[y := p])
  {
  }

  lemma UpdateTwice(ey: map<string, YearPlan>, y: string, a: YearPlan, b: YearPlan)
    ensures ey[y := a][y := b] == ey[y := b]
  {
  }

  /** The plan with the row of category `cat` replaced. */
  function SetRow(p: YearPlan, cat: string, row: map<string, int>): YearPlan {
    YearPlan(p.cats, p.vals[cat := row])
  }

  /** Replacing the row of an existing category by a row without negative cells keeps the plan valid. */
  lemma SetRowValid(p: YearPlan, cat: string, row: map<string, int>)
    requires ValidPlan(p) && cat in p.vals && NonNegativeRow(row)
    ensures ValidPlan(SetRow(p, cat, row))
  {
    assert SetRow(p, cat, row).vals.Keys == p.vals.Keys;
  }

  /** Writing a reconciled row back into an existing category keeps every year's plan valid. */
  lemma ReconciledRowValid(ey: map<string, YearPlan>, ystr: string, cat: string, b: Books, y: int, want: seq<int>)
    requires ValidYears(ey) && ystr in ey && cat in ey[ystr].vals && |want| == 12
    requires b.row == Row(ey[ystr].vals, cat)
    ensures ValidYears(ey[ystr := SetRow(ey[ystr], cat, ReconcileUpTo(b, y, want, 12).row)])
  {
    var row := ReconcileUpTo(b, y, want, 12).row;
    ReconcileNonNegative(b, y, want, 12);
    SetRowValid(ey[ystr], cat, row);
    ValidYearsUpdate(ey, ystr, SetRow(ey[ystr], cat, row));
  }

  lemma PostToCellNonNegative(row: map<string, int>, mm: string, delta: int)
    requires NonNegativeRow(row)
    ensures NonNegativeRow(PostToCell(row, mm, delta))
  {
    var r := PostToCell(row, mm, delta);
    forall k | k in r ensures r[k] >= 0 {
      assert r[k] == Lookup(r, k);
    }
  }

  /** The bill's row and applied amounts after the twelve months of the year are reconciled. */
  function ReconcileRow(row: map<string, int>, applied: map<string, int>, t: Terms, y: int): Books {
    ReconcileUpTo(Books(row, applied), y, DesiredAmounts(t, y), 12)
  }

  lemma ReconcileRowIdempotent(row: map<string, int>, applied: map<string, int>, t: Terms, y: int)
    ensures var r := ReconcileRow(row, applied, t, y);
            ReconcileRow(r.row, r.applied, t, y) == r
  {
    ReconcileIdempotent(Books(row, applied), y, DesiredAmounts(t, y));
  }

  /**
   * The yearly plans and the bill's applied amounts after `updateBillApplication`
   * for year `y`: the category named like the bill is found or created, and its
   * row is reconciled month by month against the bill's desired amounts.
   */
  function BillApplied(ey: map<string, YearPlan>, t: Terms, applied: map<string, int>, y: int,
                       ids: seq<string>, newId: string): (map<string, YearPlan>, map<string, int>)
    requires |ids| == 7 && DistinctStrings(ids)
  {
    var ystr := IntToString(y);
    var p := PlanWithCategory(PlanFor(ey, ystr, ids), t.name, newId);
    var cat := CategoryIdFor(PlanFor(ey, ystr, ids), t.name, newId);
    var r := ReconcileRow(Row(p.vals, cat), applied, t, y);
    (ey[ystr := SetRow(p, cat, r.row)], r.applied)
  }

  /** A category appended after a list without a match is the first match of the longer list. */
  lemma FindByNameAppended(cats: seq<Category>, c: Category, name: string)
    requires FindByName(cats, name).None? && Lower(c.name) == Lower(name)
    ensures FindByName(cats + [c], name) == Some(|cats|)
  {
    assert (cats + [c])[|cats|] == c;
    assert forall j :: 0 <= j < |cats| ==> (cats + [c])[j] == cats[j];
  }

  /** Once the bill's category is in the plan, looking it up again finds the same id and adds nothing. */
  lemma CategoryFoundAgain(q: YearPlan, name: string, newId: string, row: map<string, int>, newId': string)
    ensures var p := PlanWithCategory(q, name, newId);
            var cat := CategoryIdFor(q, name, newId);
            var s := SetRow(p, cat, row);
            CategoryIdFor(s, name, newId') == cat && PlanWithCategory(s, name, newId') == s
  {
    var p := PlanWithCategory(q, name, newId);
    if FindByName(q.cats, name).None? {
      FindByNameAppended(q.cats, Category(newId, name), name);
      assert p.cats == q.cats + [Category(newId, name)];
    }
  }

  /** A bill whose category is in the year's plan and whose row is already reconciled changes nothing. */
  lemma SettledBillApplied(ey: map<string, YearPlan>, t: Terms, r: Books, y: int,
                           ids: seq<string>, newId: string, cat: string)
    requires |ids| == 7 && DistinctStrings(ids)
    requires IntToString(y) in ey
    requires var s := ey[IntToString(y)];
             CategoryIdFor(s, t.name, newId) == cat && PlanWithCategory(s, t.name, newId) == s
             && cat in s.vals && s.vals[cat] == r.row
    requires ReconcileRow(r.row, r.applied, t, y) == r
    ensures BillApplied(ey, t, r.applied, y, ids, newId) == (ey, r.applied)
  {
    var ystr := IntToString(y);
    var s := ey[ystr];
    assert PlanFor(ey, ystr, ids) == s;
    assert SetRow(s, cat, r.row) == s;
    assert ey[ystr := s] == ey;
  }

  /**
   * `updateBillApplication` is idempotent: applying a bill a second time to the
   * same year, with its terms unchanged, leaves the plans and the applied amounts
   * exactly as the first application left them, whatever fresh id it is offered.
   */
  lemma UpdateBillApplicationIdempotent(ey: map<string, YearPlan>, t: Terms, applied: map<string, int>, y: int,
                                        ids: seq<string>, newId: string, newId': string)
    requires |ids| == 7 && DistinctStrings(ids)
    ensures var once := BillApplied(ey, t, applied, y, ids, newId);
            BillApplied(once.0, t, once.1, y, ids, newId') == once
  {
    var ystr := IntToString(y);
    var q := PlanFor(ey, ystr, ids);
    var p := PlanWithCategory(q, t.name, newId);
    var cat := CategoryIdFor(q, t.name, newId);
    var r := ReconcileRow(Row(p.vals, cat), applied, t, y);
    var s := SetRow(p, cat, r.row);
    var once := BillApplied(ey, t, applied, y, ids, newId);
    assert once == (ey[ystr := s], r.applied);
    CategoryFoundAgain(q, t.name, newId, r.row, newId');
    ReconcileRowIdempotent(Row(p.vals, cat), applied, t, y);
    SettledBillApplied(ey[ystr := s], t, r, y, ids, newId', cat);
  }

  /** A transaction of the finance list: `type`, `date`, `category`, `amount`. */
  datatype Tx = Tx(kind: string, date: string, category: string, amount: int)

  class Planner {
    var today: CivilDate
    /** Single events by `YYYY-MM-DD`. */
    var events: map<string, seq<Event>>
    var recurring: seq<Series>
    /** Yearly expense plans by year (`String(y)`). */
    var expenseYearly: map<string, YearPlan>
    var dailyGoals: DailyGoals
    /** The stored `lastOpenDate`. */
    var lastOpenDate: Option<string>

    predicate Valid()
      reads this
    {
      ValidYears(expenseYearly)
    }

    constructor (day: CivilDate)
      ensures Valid()
      ensures today == day && events == map[] && recurring == [] && expenseYearly == map[]
      ensures dailyGoals == map[] && lastOpenDate == None
    {
      today := day;
      events := map[];
      recurring := [];
      expenseYearly := map[];
      dailyGoals := map[];
      lastOpenDate := None;
    }

    // ----- daily goals -----

    /** One rollover of the goals from `fromKey` to `toKey`, as both rollover loops write it. */
    method RollGoals(fromKey: string, toKey: string)
      modifies this
      ensures dailyGoals == RolloverStep(old(dailyGoals), fromKey, toKey)
      ensures today == old(today) && events == old(events) && recurring == old(recurring)
      ensures expenseYearly == old(expenseYearly) && lastOpenDate == old(lastOpenDate)
    {
      var arr := Get(dailyGoals, fromKey);
      if |arr| > 0 {
        var done := Done(arr);
        var pending := Pending(arr);
        if |pending| > 0 {
          dailyGoals := dailyGoals[toKey := Get(dailyGoals, toKey) + pending];
        }
        if |done| > 0 {
          dailyGoals := dailyGoals[fromKey := done];
        } else {
          dailyGoals := dailyGoals - {fromKey};
        }
      }
    }

    /**
     * `doMidnightRollover`: today advances by one day, the goals of the old day
     * roll over into the new one, and the new day is recorded as the last opening.
     */
    method DoMidnightRollover()
      modifies this
      ensures today == AddDays(old(today), 1)
      ensures dailyGoals == RolloverStep(old(dailyGoals), IsoDate(old(today)), IsoDate(today))
      ensures lastOpenDate == Some(IsoDate(today))
      ensures events == old(events) && recurring == old(recurring) && expenseYearly == old(expenseYearly)
    {
      var prev := today;
      var fromKey := IsoDate(prev);
      today := AddDays(prev, 1);
      var toKey := IsoDate(today);
      RollGoals(fromKey, toKey);
      lastOpenDate := Some(toKey);
    }

    /**
     * The start-up catch-up: with a last opening that is set, is not today's key,
     * reads as a date and is not after today, walk from it to today rolling the
     * goals over; in every case record today as the last opening.
     */
    method BootRollover()
      modifies this
      ensures dailyGoals == BootGoals(old(dailyGoals), old(lastOpenDate), today)
      ensures lastOpenDate == Some(IsoDate(today))
      ensures today == old(today) && events == old(events) && recurring == old(recurring)
      ensures expenseYearly == old(expenseYearly)
    {
      var todayKey := IsoDate(today);
      var lastOpen := lastOpenDate;
      if lastOpen.Some? && lastOpen.value != "" && lastOpen.value != todayKey {
        var parsed := FromIso(lastOpen.value);
        if parsed.Some? && DayNumber(parsed.value) <= DayNumber(today) {
          BootGoalsFrom(dailyGoals, lastOpen.value, today, parsed.value);
          CatchUp(parsed.value);
        } else {
          BootSkipsFutureOrUnreadable(dailyGoals, lastOpen.value, today);
        }
      }
      lastOpenDate := Some(todayKey);
    }

    /** The day-by-day walk of the start-up catch-up, from `start` until today's key is reached. */
    method CatchUp(start: CivilDate)
      requires DayNumber(start) <= DayNumber(today)
      modifies this
      ensures dailyGoals == WalkUpTo(old(dailyGoals), start, today)
      ensures today == old(today) && events == old(events) && recurring == old(recurring)
      ensures expenseYearly == old(expenseYearly) && lastOpenDate == old(lastOpenDate)
    {
      var todayKey := IsoDate(today);
      ghost var g0 := dailyGoals;
      ghost var gap: nat := DaysBetween(start, today);
      ghost var keys := DayKeys(start, gap + 1);
      var d := start;
      ghost var i: nat := 0;
      FromDayNumberOfDate(start);
      while IsoDate(d) != todayKey
        invariant i <= gap && d == AddDays(start, i)
        invariant dailyGoals == Walk(g0, keys, i)
        invariant today == old(today) && events == old(events) && recurring == old(recurring)
        invariant expenseYearly == old(expenseYearly) && lastOpenDate == old(lastOpenDate)
        decreases gap - i
      {
        BeforeToday(start, today, i, d);
        var next := AddDays(d, 1);
        NextDay(start, i);
        WalkStepDays(g0, start, gap, i);
        RollGoals(IsoDate(d), IsoDate(next));
        d := next;
        i := i + 1;
      }
      IsoDateInjective(d, today);
      assert i == gap;
      WalkUpToGap(g0, start, today, gap);
    }

    // ----- recurring series -----

    /** `cancelSeries(groupId)` with the user's answer to the confirmation. */
    method CancelSeries(groupId: string, confirmed: bool)
      modifies this
      ensures recurring == Recurrence.CancelSeries(old(recurring), groupId, confirmed)
      ensures today == old(today) && events == old(events) && expenseYearly == old(expenseYearly)
      ensures dailyGoals == old(dailyGoals) && lastOpenDate == old(lastOpenDate)
    {
      recurring := Recurrence.CancelSeries(recurring, groupId, confirmed);
    }

    /** `deleteSeries(groupId)` with the user's answer to the confirmation. */
    method DeleteSeries(groupId: string, confirmed: bool)
      modifies this
      ensures recurring == Recurrence.DeleteSeries(old(recurring), groupId, confirmed)
      ensures today == old(today) && events == old(events) && expenseYearly == old(expenseYearly)
      ensures dailyGoals == old(dailyGoals) && lastOpenDate == old(lastOpenDate)
    {
      recurring := Recurrence.DeleteSeries(recurring, groupId, confirmed);
    }

    /** `editSeries(groupId)` with the user's answers to the seven prompts. */
    method EditSeries(groupId: string, answers: EditAnswers)
      modifies this
      ensures recurring == Recurrence.EditSeries(old(recurring), groupId, answers)
      ensures today == old(today) && events == old(events) && expenseYearly == old(expenseYearly)
      ensures dailyGoals == old(dailyGoals) && lastOpenDate == old(lastOpenDate)
    {
      recurring := Recurrence.EditSeries(recurring, groupId, answers);
    }

    // ----- yearly expense ledger -----

    /** `ensureYearDefaults(y)`, with `ids` standing for the seven fresh random ids. */
    method EnsureYearDefaults(y: string, ids: seq<string>)
      requires Valid() && |ids| == 7 && DistinctStrings(ids)
      modifies this
      ensures Valid()
      ensures y in expenseYearly
      ensures expenseYearly == old(expenseYearly)[y := PlanFor(old(expenseYearly), y, ids)]
      ensures y in old(expenseYearly) ==> expenseYearly == old(expenseYearly)
      ensures today == old(today) && events == old(events) && recurring == old(recurring)
      ensures dailyGoals == old(dailyGoals) && lastOpenDate == old(lastOpenDate)
    {
      if y !in expenseYearly {
        ValidYearsUpdate(expenseYearly, y, DefaultPlan(ids));
        expenseYearly := expenseYearly[y := DefaultPlan(ids)];
      } else {
        assert expenseYearly == expenseYearly[y := expenseYearly[y]];
      }
    }

    /**
     * `getOrCreateCategoryIdByName(y, name)`: the id of the first category of the
     * year with the same lower-cased name, or the id of a new category appended
     * with an empty row. `newId` stands for the fresh random id.
     */
    method GetOrCreateCategoryIdByName(y: string, name: string, ids: seq<string>, newId: string)
      returns (id: string)
      requires Valid() && |ids| == 7 && DistinctStrings(ids)
      requires newId !in PlanFor(expenseYearly, y, ids).vals
      modifies this
      ensures Valid()
      ensures id == CategoryIdFor(PlanFor(old(expenseYearly), y, ids), name, newId)
      ensures expenseYearly == old(expenseYearly)[y := PlanWithCategory(PlanFor(old(expenseYearly), y, ids), name, newId)]
      ensures id in expenseYearly[y].vals
      ensures today == old(today) && events == old(events) && recurring == old(recurring)
      ensures dailyGoals == old(dailyGoals) && lastOpenDate == old(lastOpenDate)
    {
      EnsureYearDefaults(y, ids);
      ghost var entry := expenseYearly[y];
      id := FindOrAddCategory(y, name, newId);
      UpdateTwice(old(expenseYearly), y, entry, PlanWithCategory(entry, name, newId));
    }

    /** The find-or-append part of `getOrCreateCategoryIdByName`, on a year that exists. */
    method FindOrAddCategory(y: string, name: string, newId: string) returns (id: string)
      requires Valid() && y in expenseYearly && newId !in expenseYearly[y].vals
      modifies this
      ensures Valid()
      ensures id == CategoryIdFor(old(expenseYearly)[y], name, newId)
      ensures expenseYearly == old(expenseYearly)[y := PlanWithCategory(old(expenseYearly)[y], name, newId)]
      ensures id in expenseYearly[y].vals
      ensures today == old(today) && events == old(events) && recurring == old(recurring)
      ensures dailyGoals == old(dailyGoals) && lastOpenDate == old(lastOpenDate)
    {
      var entry := expenseYearly[y];
      PlanWithCategoryValid(entry, name, newId);
      var found := FindByName(entry.cats, name);
      if found.Some? {
        id := entry.cats[found.value].id;
        assert expenseYearly == expenseYearly[y := entry];
      } else {
        id := newId;
        ValidYearsUpdate(expenseYearly, y, AddCategory(entry, newId, name));
        expenseYearly := expenseYearly[y := AddCategory(entry, newId, name)];
      }
    }

    /**
     * `applyTxToYearly(tx, sign)`: an expense (`gasto`) with a readable date moves
     * its category's cell for that month by `sign * amount`, clamped at 0; any
     * other transaction changes nothing.
     */
    method ApplyTxToYearly(tx: Tx, sign: int, ids: seq<string>, newId: string)
      requires Valid() && |ids| == 7 && DistinctStrings(ids)
      requires FromIso(tx.date).Some? ==>
                 newId !in PlanFor(expenseYearly, IntToString(FromIso(tx.date).value.year), ids).vals
      modifies this
      ensures Valid()
      ensures tx.kind != "gasto" || FromIso(tx.date).None? ==> expenseYearly == old(expenseYearly)
      ensures tx.kind == "gasto" && FromIso(tx.date).Some? ==>
                var d := FromIso(tx.date).value;
                var y := IntToString(d.year);
                var p := PlanWithCategory(PlanFor(old(expenseYearly), y, ids), tx.category, newId);
                var cat := CategoryIdFor(PlanFor(old(expenseYearly), y, ids), tx.category, newId);
                expenseYearly == old(expenseYearly)[y := SetRow(p, cat, PostToCell(Row(p.vals, cat), Pad2(d.month), sign * tx.amount))]
      ensures today == old(today) && events == old(events) && recurring == old(recurring)
      ensures dailyGoals == old(dailyGoals) && lastOpenDate == old(lastOpenDate)
    {
      if tx.kind != "gasto" {
        return;
      }
      var parsed := FromIso(tx.date);
      if parsed.None? {
        return;
      }
      var d := parsed.value;
      var y := IntToString(d.year);
      var mm := Pad2(d.month);
      ghost var p := PlanWithCategory(PlanFor(expenseYearly, y, ids), tx.category, newId);
      var cat := GetOrCreateCategoryIdByName(y, tx.category, ids, newId);
      EnsureYearDefaults(y, ids);
      PostToCategory(y, cat, mm, sign * tx.amount);
      UpdateTwice(old(expenseYearly), y, p, SetRow(p, cat, PostToCell(Row(p.vals, cat), mm, sign * tx.amount)));
    }

    /** `vals[catId][mm] = Math.max(0, prev + delta)` on a category of an existing year. */
    method PostToCategory(y: string, cat: string, mm: string, delta: int)
      requires Valid() && y in expenseYearly && cat in expenseYearly[y].vals
      modifies this
      ensures Valid()
      ensures var p := old(expenseYearly)[y];
              expenseYearly == old(expenseYearly)[y := SetRow(p, cat, PostToCell(Row(p.vals, cat), mm, delta))]
      ensures today == old(today) && events == old(events) && recurring == old(recurring)
      ensures dailyGoals == old(dailyGoals) && lastOpenDate == old(lastOpenDate)
    {
      var entry := expenseYearly[y];
      var row := PostToCell(Row(entry.vals, cat), mm, delta);
      PostToCellNonNegative(Row(entry.vals, cat), mm, delta);
      SetRowValid(entry, cat, row);
      ValidYearsUpdate(expenseYearly, y, SetRow(entry, cat, row));
      expenseYearly := expenseYearly[y := SetRow(entry, cat, row)];
    }

    /**
     * `updateBillApplication(bill, year)`: for each month of the year, the
     * difference between the bill's desired amount and the amount applied before
     * goes into the bill's category cell (clamped at 0), and the desired amount is
     * recorded as applied. The category is found or created by the bill's name.
     */
    method UpdateBillApplication(bill: Bill, y: int, ids: seq<string>, newId: string)
      requires Valid() && |ids| == 7 && DistinctStrings(ids)
      requires newId !in PlanFor(expenseYearly, IntToString(y), ids).vals
      modifies this, bill
      ensures Valid()
      ensures (expenseYearly, bill.applied) == BillApplied(old(expenseYearly), old(bill.terms), old(bill.applied), y, ids, newId)
      ensures bill.terms == old(bill.terms) && bill.paid == old(bill.paid)
      ensures today == old(today) && events == old(events) && recurring == old(recurring)
      ensures dailyGoals == old(dailyGoals) && lastOpenDate == old(lastOpenDate)
    {
      var ystr := IntToString(y);
      ghost var p := PlanWithCategory(PlanFor(expenseYearly, ystr, ids), bill.terms.name, newId);
      var cat := GetOrCreateCategoryIdByName(ystr, bill.terms.name, ids, newId);
      EnsureYearDefaults(ystr, ids);
      ApplyBillToCategory(bill, y, ystr, cat);
      UpdateTwice(old(expenseYearly), ystr, p, SetRow(p, cat, ReconcileUpTo(Books(Row(p.vals, cat), old(bill.applied)), y, DesiredAmounts(old(bill.terms), y), 12).row));
    }

    /** The loop of `updateBillApplication` on the bill's category, once it exists. */
    method ApplyBillToCategory(bill: Bill, y: int, ystr: string, cat: string)
      requires Valid() && ystr in expenseYearly && cat in expenseYearly[ystr].vals
      modifies this, bill
      ensures Valid()
      ensures var p := old(expenseYearly)[ystr];
              var r := ReconcileUpTo(Books(Row(p.vals, cat), old(bill.applied)), y, DesiredAmounts(old(bill.terms), y), 12);
              expenseYearly == old(expenseYearly)[ystr := SetRow(p, cat, r.row)]
              && bill.applied == r.applied
      ensures bill.terms == old(bill.terms) && bill.paid == old(bill.paid)
      ensures today == old(today) && events == old(events) && recurring == old(recurring)
      ensures dailyGoals == old(dailyGoals) && lastOpenDate == old(lastOpenDate)
    {
      var entry := expenseYearly[ystr];
      var row, applied := ReconcileYear(bill.terms, y, Row(entry.vals, cat), bill.applied);
      ReconciledRowValid(expenseYearly, ystr, cat, Books(Row(entry.vals, cat), bill.applied), y, DesiredAmounts(bill.terms, y));
      expenseYearly := expenseYearly[ystr := SetRow(entry, cat, row)];
      bill.applied := applied;
    }

    /** The category delete button: drop the category and its row from the year's plan. */
    method DeleteCategory(y: string, id: string)
      requires Valid() && y in expenseYearly
      modifies this
      ensures Valid()
      ensures expenseYearly == old(expenseYearly)[y := Ledger.DeleteCategory(old(expenseYearly)[y], id)]
      ensures id !in expenseYearly[y].vals
      ensures today == old(today) && events == old(events) && recurring == old(recurring)
      ensures dailyGoals == old(dailyGoals) && lastOpenDate == old(lastOpenDate)
    {
      DeleteCategoryValid(expenseYearly[y], id);
      expenseYearly := expenseYearly[y := Ledger.DeleteCategory(expenseYearly[y], id)];
    }

    /** The arrow keys on a category name: move it one place up or down in the year's list. */
    method MoveCategory(y: string, id: string, up: bool)
      requires Valid() && y in expenseYearly
      modifies this
      ensures Valid()
      ensures expenseYearly == old(expenseYearly)[y := YearPlan(Ledger.MoveCategory(old(expenseYearly)[y].cats, id, up), old(expenseYearly)[y].vals)]
      ensures today == old(today) && events == old(events) && recurring == old(recurring)
      ensures dailyGoals == old(dailyGoals) && lastOpenDate == old(lastOpenDate)
    {
      var entry := expenseYearly[y];
      MoveKeepsIds(entry.cats, id, up);
      expenseYearly := expenseYearly[y := YearPlan(Ledger.MoveCategory(entry.cats, id, up), entry.vals)];
    }
  }

  /** Until the walk reaches today's key, it is before today. */
  lemma BeforeToday(start: CivilDate, today: CivilDate, i: int, d: CivilDate)
    requires 0 <= i <= DaysBetween(start, today) && d == AddDays(start, i)
    requires IsoDate(d) != IsoDate(today)
    ensures i < DaysBetween(start, today)
  {
    DayNumberInjective(d, today);
  }

  /** The day after day `i` of a walk is day `i + 1`. */
  lemma NextDay(s: CivilDate, i: int)
    ensures AddDays(AddDays(s, i), 1) == AddDays(s, i + 1)
  {
    DayNumberInjective(AddDays(AddDays(s, i), 1), AddDays(s, i + 1));
  }

  /**
   * The loop of `updateBillApplication` over months 1..12: each month whose
   * desired amount differs from the applied one moves its cell by the
   * difference (clamped at 0) and records the desired amount as applied.
   */
  method ReconcileYear(t: Terms, y: int, row0: map<string, int>, applied0: map<string, int>)
    returns (row: map<string, int>, applied: map<string, int>)
    ensures Books(row, applied) == ReconcileUpTo(Books(row0, applied0), y, DesiredAmounts(t, y), 12)
  {
    row, applied := row0, applied0;
    ghost var want := DesiredAmounts(t, y);
    for m := 1 to 13
      invariant Books(row, applied) == ReconcileUpTo(Books(row0, applied0), y, want, m - 1)
    {
      var desired := DesiredFor(t, y, m);
      var key := AppliedKey(y, m);
      var delta := desired - Lookup(applied, key);
      ghost var before := Books(row, applied);
      if delta != 0 {
        var mm := Pad2(m);
        row := row[mm := Max0(Lookup(row, mm) + delta)];
        applied := applied[key := desired];
        MonthMoves(before, y, m, desired);
      } else {
        MonthSettled(before, y, m, desired);
      }
      ReconcileUpToNext(Books(row0, applied0), y, want, m, before, Books(row, applied));
    }
  }

  /** A month whose desired amount differs from the applied one moves its cell and records the amount. */
  lemma MonthMoves(b: Books, y: int, m: int, desired: int)
    requires desired - Lookup(b.applied, AppliedKey(y, m)) != 0
    ensures ReconcileMonth(b, y, m, desired)
            == Books(b.row[Pad2(m) := Max0(Lookup(b.row, Pad2(m)) + (desired - Lookup(b.applied, AppliedKey(y, m))))],
                     b.applied[AppliedKey(y, m) := desired])
  {
  }

  /** A month whose desired amount is already applied changes nothing. */
  lemma MonthSettled(b: Books, y: int, m: int, desired: int)
    requires desired - Lookup(b.applied, AppliedKey(y, m)) == 0
    ensures ReconcileMonth(b, y, m, desired) == b
  {
  }

  /** Reconciling month `m` on top of the first `m - 1` months gives the first `m`. */
  lemma ReconcileUpToNext(start: Books, y: int, want: seq<int>, m: int, before: Books, after: Books)
    requires 1 <= m <= |want| && before == ReconcileUpTo(start, y, want, m - 1)
    requires after == ReconcileMonth(before, y, m, want[m - 1])
    ensures after == ReconcileUpTo(start, y, want, m)
  {
  }

  /**
   * The desired amount of month `m`, computed as `updateBillApplication` does:
   * a monthly bill resolves its amount on its due date inside the month, a
   * one-off bill contributes its amount in its own month.
   */
  method DesiredFor(t: Terms, y: int, m: int) returns (desired: int)
    requires 1 <= m <= 12
    ensures desired == DesiredAmounts(t, y)[m - 1]
    ensures !(0 <= y <= 99) && t.monthly && BillDueDateInMonth(t, y, m - 1).DueOn? ==>
              desired == AmountForMonth(t, MonthKey(Some(BillDueDateInMonth(t, y, m - 1).date)))
    ensures !(0 <= y <= 99) && !t.monthly ==>
              desired == if BillDueDateInMonth(t, y, m - 1).DueOn? then t.amount else 0
  {
    DesiredAmountsAt(t, y, m);
    if !(0 <= y <= 99) {
      DesiredAtDueDate(t, y, m);
    }
    if t.monthly {
      var first := MakeDate(y, m - 1, 1);
      var anchor := AnchorDay(t);
      var occur: Option<CivilDate> := None;
      if anchor.Some? {
        var day := Min(anchor.value, LastDayOf(first.year, first.month - 1));
        occur := Some(MakeDate(y, m - 1, day));
      }
      desired := AmountForBillOnDate(t, occur);
    } else {
      var bd := FromIso(t.date);
      desired := if bd.Some? && bd.value.year == y && bd.value.month == m then t.amount else 0;
    }
  }
}
