/**
 * The yearly expense plan: per year a list of categories and a grid of amounts
 * (category id, then month `01`..`12`). Category management, and the monthly
 * reconciliation that pushes a bill's amounts into the grid as deltas against
 * what was applied before.
 */
module Ledger {
  import opened Text
  import opened Calendar
  import opened Bills

  datatype Category = Category(id: string, name: string)

  /** `{ cats, vals }` of one year: `vals[catId][mm]` is the amount of a category in a month. */
  datatype YearPlan = YearPlan(cats: seq<Category>, vals: map<string, map<string, int>>)

  const DefaultNames: seq<string> := ["Alquiler", "Servicios", "Comida", "Transporte", "Salud", "Ocio", "Otros"]

  /** `Number(m[k] || 0)`: a missing cell reads as 0. */
  function Lookup(m: map<string, int>, k: string): int {
    if k in m then m[k] else 0
  }

  /** `Math.max(0, x)`. */
  function Max0(x: int): int {
    if x < 0 then 0 else x
  }

  predicate DistinctIds(cats: seq<Category>) {
    forall i, j :: 0 <= i < j < |cats| ==> cats[i].id != cats[j].id
  }

  function CatIds(cats: seq<Category>): set<string> {
    set c | c in cats :: c.id
  }

  predicate NonNegativeRow(row: map<string, int>) {
    forall k :: k in row ==> row[k] >= 0
  }

  predicate NonNegative(vals: map<string, map<string, int>>) {
    forall id :: id in vals ==> NonNegativeRow(vals[id])
  }

  /** What every operation on a year keeps: one row per category, distinct ids, no negative cell. */
  predicate ValidPlan(p: YearPlan) {
    DistinctIds(p.cats) && p.vals.Keys == CatIds(p.cats) && NonNegative(p.vals)
  }

  predicate DistinctStrings(ids: seq<string>) {
    forall i, j :: 0 <= i < j < |ids| ==> ids[i] != ids[j]
  }

  // ----- ensureYearDefaults (app.js:2136-2145) -----

  /** The plan `ensureYearDefaults` creates: the seven default categories with empty rows. */
  function DefaultPlan(ids: seq<string>): (p: YearPlan)
    requires |ids| == 7 && DistinctStrings(ids)
    ensures ValidPlan(p)
    ensures |p.cats| == 7 && forall i :: 0 <= i < 7 ==> p.cats[i] == Category(ids[i], DefaultNames[i])
    ensures forall id :: id in p.vals ==> p.vals[id] == map[]
  {
    var cats := seq(7, i requires 0 <= i < 7 => Category(ids[i], DefaultNames[i]));
    assert forall c :: c in cats ==> c.id in ids;
    assert forall id :: id in ids ==> id in CatIds(cats) by {
      forall id | id in ids ensures id in CatIds(cats) {
        var i :| 0 <= i < 7 && ids[i] == id;
        assert cats[i] in cats;
      }
    }
    YearPlan(cats, map id | id in ids :: map[])
  }

  /** `ensureYearDefaults(y)`: the year's plan, created with the defaults when missing. */
  function PlanFor(ey: map<string, YearPlan>, y: string, ids: seq<string>): YearPlan
    requires |ids| == 7 && DistinctStrings(ids)
  {
    if y in ey then ey[y] else DefaultPlan(ids)
  }

  // ----- getOrCreateCategoryIdByName (app.js:2022-2028) -----

  /** The index of the first category whose lower-cased name equals the lower-cased `name`. */
  function FindByName(cats: seq<Category>, name: string): (r: Option<nat>)
    ensures r.Some? ==> r.value < |cats| && Lower(cats[r.value].name) == Lower(name)
                        && forall j :: 0 <= j < r.value ==> Lower(cats[j].name) != Lower(name)
    ensures r.None? ==> forall j :: 0 <= j < |cats| ==> Lower(cats[j].name) != Lower(name)
  {
    if |cats| == 0 then None
    else if Lower(cats[0].name) == Lower(name) then Some(0)
    else
      match FindByName(cats[1..], name)
      case None => None
      case Some(i) => Some(i + 1)
  }

  /** A new category with an empty row, at the end of the list. */
  function AddCategory(p: YearPlan, id: string, name: string): YearPlan {
    YearPlan(p.cats + [Category(id, name)], p.vals[id := map[]])
  }

  /** The id `getOrCreateCategoryIdByName` returns on plan `p`. */
  function CategoryIdFor(p: YearPlan, name: string, newId: string): string {
    match FindByName(p.cats, name)
    case Some(i) => p.cats[i].id
    case None => newId
  }

  /** The plan after `getOrCreateCategoryIdByName`: unchanged when the name is there, else with the new category. */
  function PlanWithCategory(p: YearPlan, name: string, newId: string): YearPlan {
    if FindByName(p.cats, name).Some? then p else AddCategory(p, newId, name)
  }

  /** The returned id names a category of the resulting plan, and the plan stays valid. */
  lemma PlanWithCategoryValid(p: YearPlan, name: string, newId: string)
    requires ValidPlan(p) && newId !in p.vals
    ensures ValidPlan(PlanWithCategory(p, name, newId))
    ensures CategoryIdFor(p, name, newId) in PlanWithCategory(p, name, newId).vals
    ensures exists c :: c in PlanWithCategory(p, name, newId).cats && c.id == CategoryIdFor(p, name, newId)
                        && Lower(c.name) == Lower(name)
  {
    match FindByName(p.cats, name)
    case Some(i) =>
      assert p.cats[i] in p.cats;
    case None =>
      var q := AddCategory(p, newId, name);
      assert forall c :: c in q.cats <==> c in p.cats || c == Category(newId, name);
      assert q.vals.Keys == CatIds(q.cats);
      assert q.cats[|p.cats|] == Category(newId, name);
      assert forall c :: c in p.cats ==> c.id in p.vals;
  }

  // ----- category deletion (app.js:2179) -----

  /** `cats.filter(c => c.id !== id)`. */
  function FilterOut(cats: seq<Category>, id: string): (r: seq<Category>)
    ensures forall c :: c in r <==> c in cats && c.id != id
  {
    if |cats| == 0 then []
    else (if cats[0].id == id then [] else [cats[0]]) + FilterOut(cats[1..], id)
  }

  /**
   * `filter` keeps order and repeats: filtering a concatenation filters each
   * part, and a single category is kept exactly when its id differs.
   */
  lemma FilterOutConcat(a: seq<Category>, b: seq<Category>, id: string)
    ensures FilterOut(a + b, id) == FilterOut(a, id) + FilterOut(b, id)
    ensures forall c :: FilterOut([c], id) == if c.id == id then [] else [c]
  {
    FilterOutAppend(a, b, id);
    forall c ensures FilterOut([c], id) == if c.id == id then [] else [c] {
      assert [c][1..] == [];
    }
  }

  lemma {:induction false} FilterOutAppend(a: seq<Category>, b: seq<Category>, id: string)
    ensures FilterOut(a + b, id) == FilterOut(a, id) + FilterOut(b, id)
    decreases |a|
  {
    if |a| > 0 {
      assert (a + b)[1..] == a[1..] + b;
      FilterOutAppend(a[1..], b, id);
    } else {
      assert a + b == b;
    }
  }

  /** Deleting a category: drop it from the list and drop its row. */
  function DeleteCategory(p: YearPlan, id: string): YearPlan {
    YearPlan(FilterOut(p.cats, id), p.vals - {id})
  }

  lemma {:induction false} FilterOutDistinct(cats: seq<Category>, id: string)
    requires DistinctIds(cats)
    ensures DistinctIds(FilterOut(cats, id))
  {
    if |cats| > 0 {
      FilterOutDistinct(cats[1..], id);
      var rest := FilterOut(cats[1..], id);
      forall c | c in rest ensures c.id != cats[0].id {
        var k :| 0 <= k < |cats[1..]| && cats[1..][k] == c;
        assert cats[k + 1] == c;
      }
    }
  }

  lemma DeleteCategoryValid(p: YearPlan, id: string)
    requires ValidPlan(p)
    ensures ValidPlan(DeleteCategory(p, id))
    ensures id !in DeleteCategory(p, id).vals
  {
    FilterOutDistinct(p.cats, id);
  }

  function Row(vals: map<string, map<string, int>>, id: string): map<string, int> {
    if id in vals then vals[id] else map[]
  }

  /** The sum of months 1..n of a row. */
  function MonthsTotal(row: map<string, int>, n: nat): int {
    if n == 0 then 0 else MonthsTotal(row, n - 1) + Lookup(row, Pad2(n))
  }

  /** The year total of a row, as the table's last column shows it. */
  function RowTotal(row: map<string, int>): int {
    MonthsTotal(row, 12)
  }

  /** The sum of the row totals of the listed categories: the table's grand total. */
  function CatsTotal(cats: seq<Category>, vals: map<string, map<string, int>>): int {
    if |cats| == 0 then 0 else RowTotal(Row(vals, cats[0].id)) + CatsTotal(cats[1..], vals)
  }

  function CountId(cats: seq<Category>, id: string): nat {
    if |cats| == 0 then 0 else (if cats[0].id == id then 1 else 0) + CountId(cats[1..], id)
  }

  /** Deleting a category lowers the grand total by its row total, once per listing of the id. */
  lemma {:induction false} DeleteCategoryTotal(cats: seq<Category>, vals: map<string, map<string, int>>, id: string)
    ensures CatsTotal(FilterOut(cats, id), vals - {id})
            == CatsTotal(cats, vals) - CountId(cats, id) * RowTotal(Row(vals, id))
  {
    if |cats| > 0 {
      var head, tail := cats[0], cats[1..];
      var rest := FilterOut(tail, id);
      DeleteCategoryTotal(tail, vals, id);
      var r := RowTotal(Row(vals, id));
      var c := CountId(tail, id);
      if head.id == id {
        assert FilterOut(cats, id) == rest;
        assert CountId(cats, id) == c + 1;
        MulSucc(CountId(cats, id), c, r);
      } else {
        assert FilterOut(cats, id) == [head] + rest;
        CatsTotalCons(head, rest, vals - {id});
        RowOfOther(vals, id, head.id);
        assert CountId(cats, id) == c;
      }
    }
  }

  lemma CatsTotalCons(c: Category, rest: seq<Category>, vals: map<string, map<string, int>>)
    ensures CatsTotal([c] + rest, vals) == RowTotal(Row(vals, c.id)) + CatsTotal(rest, vals)
  {
    assert ([c] + rest)[1..] == rest;
  }

  lemma RowOfOther(vals: map<string, map<string, int>>, id: string, k: string)
    requires k != id
    ensures RowTotal(Row(vals - {id}, k)) == RowTotal(Row(vals, k))
  {
    assert Row(vals - {id}, k) == Row(vals, k);
  }

  lemma MulSucc(n: int, c: int, r: int)
    requires n == c + 1
    ensures n * r == c * r + r
  {
  }

  lemma {:induction false} CountIdDistinct(cats: seq<Category>, id: string)
    requires DistinctIds(cats)
    ensures CountId(cats, id) <= 1
    ensures CountId(cats, id) == 1 <==> id in CatIds(cats)
  {
    if |cats| > 0 {
      CountIdDistinct(cats[1..], id);
      if cats[0].id == id {
        forall k | 0 <= k < |cats[1..]| ensures cats[1..][k].id != id {
          assert cats[k + 1].id != cats[0].id;
        }
      }
      assert forall c :: c in cats <==> c == cats[0] || c in cats[1..];
    }
  }

  /** In a valid plan, deleting a listed category removes exactly its row total from the grand total. */
  lemma DeleteCategoryGrandTotal(p: YearPlan, id: string)
    requires ValidPlan(p)
    ensures var q := DeleteCategory(p, id);
            CatsTotal(q.cats, q.vals)
            == CatsTotal(p.cats, p.vals) - (if id in p.vals then RowTotal(p.vals[id]) else 0)
  {
    DeleteCategoryTotal(p.cats, p.vals, id);
    CountIdDistinct(p.cats, id);
    var r := RowTotal(Row(p.vals, id));
    if CountId(p.cats, id) == 1 {
      assert 1 * r == r;
    } else {
      assert 0 * r == 0;
    }
  }

  // ----- category reordering (app.js:2222-2238) -----

  /** `list.findIndex(c => c.id === id)`, None for -1. */
  function IndexOfId(cats: seq<Category>, id: string): (r: Option<nat>)
    ensures r.Some? ==> r.value < |cats| && cats[r.value].id == id
                        && forall j :: 0 <= j < r.value ==> cats[j].id != id
    ensures r.None? ==> forall j :: 0 <= j < |cats| ==> cats[j].id != id
  {
    if |cats| == 0 then None
    else if cats[0].id == id then Some(0)
    else
      match IndexOfId(cats[1..], id)
      case None => None
      case Some(i) => Some(i + 1)
  }

  function Swap(cats: seq<Category>, i: nat, j: nat): (r: seq<Category>)
    requires i < |cats| && j < |cats|
    ensures |r| == |cats| && multiset(r) == multiset(cats)
  {
    cats[i := cats[j]][j := cats[i]]
  }

  /**
   * ArrowUp moves the category one place towards the top unless it is first;
   * ArrowDown one place towards the bottom unless it is last. Either is a
   * splice-out and splice-in, which on neighbours is a swap.
   */
  function MoveCategory(cats: seq<Category>, id: string, up: bool): (r: seq<Category>)
    ensures |r| == |cats| && multiset(r) == multiset(cats)
  {
    match IndexOfId(cats, id)
    case None => cats
    case Some(i) =>
      if up && i > 0 then Swap(cats, i - 1, i)
      else if !up && i < |cats| - 1 then Swap(cats, i, i + 1)
      else cats
  }

  lemma SwapKeepsIds(cats: seq<Category>, i: nat, j: nat)
    requires i < |cats| && j < |cats| && DistinctIds(cats)
    ensures DistinctIds(Swap(cats, i, j))
    ensures CatIds(Swap(cats, i, j)) == CatIds(cats)
  {
    var r := Swap(cats, i, j);
    forall a, b | 0 <= a < b < |r| ensures r[a].id != r[b].id {
      var sa := if a == i then j else if a == j then i else a;
      var sb := if b == i then j else if b == j then i else b;
      assert r[a] == cats[sa] && r[b] == cats[sb];
    }
    assert forall c :: c in r <==> c in cats by {
      assert forall c :: c in r <==> c in multiset(r);
    }
  }

  /** Reordering keeps the set of categories and their distinct ids. */
  lemma MoveKeepsIds(cats: seq<Category>, id: string, up: bool)
    requires DistinctIds(cats)
    ensures DistinctIds(MoveCategory(cats, id, up))
    ensures CatIds(MoveCategory(cats, id, up)) == CatIds(cats)
  {
    match IndexOfId(cats, id)
    case None =>
    case Some(i) =>
      if up && i > 0 {
        SwapKeepsIds(cats, i - 1, i);
      } else if !up && i < |cats| - 1 {
        SwapKeepsIds(cats, i, i + 1);
      }
  }

  /** Moving a category that is not last down and then up again restores the order. */
  lemma MoveDownThenUp(cats: seq<Category>, id: string)
    requires DistinctIds(cats)
    requires IndexOfId(cats, id).Some? && IndexOfId(cats, id).value < |cats| - 1
    ensures MoveCategory(MoveCategory(cats, id, false), id, true) == cats
  {
    var i := IndexOfId(cats, id).value;
    var d := Swap(cats, i, i + 1);
    assert MoveCategory(cats, id, false) == d;
    assert cats[i + 1].id != id;
    IndexOfIdAt(d, id, i + 1);
    assert MoveCategory(d, id, true) == Swap(d, i, i + 1);
    SwapTwice(cats, i, i + 1);
  }

  /** Moving a category that is not first up and then down again restores the order. */
  lemma MoveUpThenDown(cats: seq<Category>, id: string)
    requires DistinctIds(cats)
    requires IndexOfId(cats, id).Some? && IndexOfId(cats, id).value > 0
    ensures MoveCategory(MoveCategory(cats, id, true), id, false) == cats
  {
    var i := IndexOfId(cats, id).value;
    var d := Swap(cats, i - 1, i);
    assert MoveCategory(cats, id, true) == d;
    IndexOfIdAt(d, id, i - 1);
    assert MoveCategory(d, id, false) == Swap(d, i - 1, i);
    SwapTwice(cats, i - 1, i);
  }

  /** The first position holding `id` is the one `IndexOfId` finds. */
  lemma IndexOfIdAt(cats: seq<Category>, id: string, k: nat)
    requires k < |cats| && cats[k].id == id
    requires forall j :: 0 <= j < k ==> cats[j].id != id
    ensures IndexOfId(cats, id) == Some(k)
  {
  }

  /** Swapping the same two places twice restores the list. */
  lemma SwapTwice(cats: seq<Category>, i: nat, j: nat)
    requires i < |cats| && j < |cats|
    ensures Swap(Swap(cats, i, j), i, j) == cats
  {
  }

  // ----- applyTxToYearly (app.js:2357-2370) -----

  /** `vals[catId][mm] = Math.max(0, prev + delta)`. */
  function PostToCell(row: map<string, int>, mm: string, delta: int): (r: map<string, int>)
    ensures Lookup(r, mm) >= 0
    ensures forall k :: k != mm ==> Lookup(r, k) == Lookup(row, k)
  {
    row[mm := Max0(Lookup(row, mm) + delta)]
  }

  /** Removing an expense of a non-negative amount undoes adding it, on a cell that was not negative. */
  lemma PostToCellUndo(row: map<string, int>, mm: string, amount: int)
    requires amount >= 0 && Lookup(row, mm) >= 0
    ensures forall k :: Lookup(PostToCell(PostToCell(row, mm, amount), mm, -amount), k) == Lookup(row, k)
  {
  }

  // ----- updateBillApplication (app.js:1920-1954) -----

  /**
   * The amount a bill should contribute to month `m` (1..12) of year `y`. A
   * monthly bill resolves its amount on its due date inside the month (an
   * Invalid Date, for a NaN anchor, resolves on the month key `NaN-NaN`); a
   * one-off bill contributes its base amount in the month of its own date.
   */
  function DesiredAmount(t: Terms, y: int, m: int): int {
    if t.monthly then
      var first := MakeDate(y, m - 1, 1);
      match AnchorDay(t)
      case None => AmountForMonth(t, MonthKey(None))
      case Some(dd) =>
        var day := Min(dd, LastDayOf(first.year, first.month - 1));
        AmountForMonth(t, MonthKey(Some(MakeDate(y, m - 1, day))))
    else
      match FromIso(t.date)
      case Some(bd) => if bd.year == y && bd.month == m then t.amount else 0
      case None => 0
  }

  /** The twelve desired amounts of a year, January first. */
  function DesiredAmounts(t: Terms, y: int): (want: seq<int>)
    ensures |want| == 12
  {
    seq(12, i requires 0 <= i < 12 => DesiredAmount(t, y, i + 1))
  }

  /** Entry `m - 1` of the year's desired amounts is the desired amount of month `m`. */
  lemma DesiredAmountsAt(t: Terms, y: int, m: int)
    requires 1 <= m <= 12
    ensures DesiredAmounts(t, y)[m - 1] == DesiredAmount(t, y, m)
  {
  }

  /**
   * The desired amount is read off the bill's due date in the month: a monthly
   * bill's resolved amount on that date (on `NaN-NaN` when it is an Invalid
   * Date), and a one-off bill's base amount when it is due in the month, else 0.
   */
  lemma DesiredAtDueDate(t: Terms, y: int, m: int)
    requires 1 <= m <= 12 && !(0 <= y <= 99)
    ensures t.monthly && BillDueDateInMonth(t, y, m - 1).DueOn? ==>
              DesiredAmount(t, y, m) == AmountForMonth(t, MonthKey(Some(BillDueDateInMonth(t, y, m - 1).date)))
    ensures t.monthly && !BillDueDateInMonth(t, y, m - 1).DueOn? ==>
              DesiredAmount(t, y, m) == AmountForMonth(t, MonthKey(None))
    ensures !t.monthly ==>
              DesiredAmount(t, y, m) == if BillDueDateInMonth(t, y, m - 1).DueOn? then t.amount else 0
  {
    MakeDateInRange(y, m - 1, 1);
  }

  /**
   * A monthly bill with an anchor day of 1 or more puts into month `m` the
   * amount it resolves to for that same month, the one `AppliedKey(y, m)` records.
   */
  lemma DesiredIsMonthAmount(t: Terms, y: int, m: int)
    requires 1 <= m <= 12 && !(0 <= y <= 99)
    requires t.monthly && AnchorDay(t).Some? && AnchorDay(t).value >= 1
    ensures DesiredAmount(t, y, m) == AmountForMonth(t, AppliedKey(y, m))
  {
    var due := Date(y, m, Min(AnchorDay(t).value, DaysInMonth(y, m)));
    MonthlyDueDay(t, due);
    DesiredOnDueDate(t, y, m, due);
  }

  /** A monthly bill due on `d` in month `m` puts there the amount it resolves to for the month of `d`. */
  lemma DesiredOnDueDate(t: Terms, y: int, m: int, d: CivilDate)
    requires 1 <= m <= 12 && !(0 <= y <= 99)
    requires t.monthly && BillDueDateInMonth(t, y, m - 1) == DueOn(d)
    ensures DesiredAmount(t, y, m) == AmountForMonth(t, AppliedKey(d.year, d.month))
  {
    DesiredAtDueDate(t, y, m);
    assert MonthKey(Some(d)) == AppliedKey(d.year, d.month);
  }

  /**
   * A monthly bill whose anchor day is 0 (a date such as `2024-05-00`) is never
   * due, yet `new Date(y, m - 1, 0)` is the last day of the month before, so
   * every month receives the amount the bill resolves to for the previous month.
   */
  lemma DesiredWithZeroAnchor(t: Terms, y: int, m: int)
    requires 1 <= m <= 12 && !(0 <= y <= 99)
    requires t.monthly && AnchorDay(t) == Some(0)
    ensures m >= 2 ==> DesiredAmount(t, y, m) == AmountForMonth(t, AppliedKey(y, m - 1))
    ensures m == 1 ==> DesiredAmount(t, y, m) == AmountForMonth(t, AppliedKey(y - 1, 12))
  {
    ZeroAnchorDueDate(t, y, m - 1);
    DayBeforeFirst(y, m);
    if m >= 2 {
      DesiredOnDueDate(t, y, m, Date(y, m - 1, DaysInMonth(y, m - 1)));
    } else {
      DesiredOnDueDate(t, y, m, Date(y - 1, 12, 31));
    }
  }

  /** `new Date(y, m - 1, 0)` is the last day of the month before month `m`. */
  lemma DayBeforeFirst(y: int, m: int)
    requires 1 <= m <= 12 && !(0 <= y <= 99)
    ensures m >= 2 ==> MakeDate(y, m - 1, 0) == Date(y, m - 1, DaysInMonth(y, m - 1))
    ensures m == 1 ==> MakeDate(y, m - 1, 0) == Date(y - 1, 12, 31)
  {
    if m >= 2 {
      MakeDateDayZero(y, m - 2);
    } else {
      assert FirstOfMonth(y, 0) == Date(y, 1, 1);
      DaysBeforeNextYear(y - 1);
      DaysBeforeMonthStep(y - 1, 12);
      DayNumberInjective(MakeDate(y, 0, 0), Date(y - 1, 12, 31));
    }
  }

  /** The key of `bill.applied` for month `m` of year `y`: `YYYY-MM`. */
  function AppliedKey(y: int, m: int): string {
    IntToString(y) + "-" + Pad2(m)
  }

  /** The bill's row of the grid and its record of applied amounts. */
  datatype Books = Books(row: map<string, int>, applied: map<string, int>)

  /**
   * One month of the reconciliation: when the desired amount differs from the
   * one applied before, the difference goes into the cell (clamped at 0) and the
   * desired amount is recorded as applied.
   */
  function ReconcileMonth(b: Books, y: int, m: int, desired: int): Books {
    var key := AppliedKey(y, m);
    var delta := desired - Lookup(b.applied, key);
    if delta == 0 then b
    else Books(b.row[Pad2(m) := Max0(Lookup(b.row, Pad2(m)) + delta)], b.applied[key := desired])
  }

  /** Months 1..n reconciled in order against the desired amounts `want`. */
  function ReconcileUpTo(b: Books, y: int, want: seq<int>, n: nat): Books
    requires n <= |want|
  {
    if n == 0 then b else ReconcileMonth(ReconcileUpTo(b, y, want, n - 1), y, n, want[n - 1])
  }

  lemma AppliedKeyInjective(y: int, m1: int, m2: int)
    requires 1 <= m1 <= 12 && 1 <= m2 <= 12 && m1 != m2
    ensures AppliedKey(y, m1) != AppliedKey(y, m2)
    ensures Pad2(m1) != Pad2(m2)
  {
    Pad2Injective(m1, m2);
    var prefix := IntToString(y) + "-";
    assert AppliedKey(y, m1)[|prefix|..] == Pad2(m1);
    assert AppliedKey(y, m2)[|prefix|..] == Pad2(m2);
  }

  /** Months after `n` are not touched by the first `n` months, and no key outside the twelve months is. */
  lemma ReconcileUpToFrame(b: Books, y: int, want: seq<int>, n: nat)
    requires n <= |want| <= 12
    ensures var r := ReconcileUpTo(b, y, want, n);
            (forall m :: n < m <= 12 ==>
               (Lookup(r.row, Pad2(m)) == Lookup(b.row, Pad2(m))
                && Lookup(r.applied, AppliedKey(y, m)) == Lookup(b.applied, AppliedKey(y, m))))
            && (forall k :: (forall m :: 1 <= m <= 12 ==> k != Pad2(m)) ==>
                  (k in r.row <==> k in b.row) && (k in b.row ==> r.row[k] == b.row[k]))
            && (forall k :: (forall m :: 1 <= m <= 12 ==> k != AppliedKey(y, m)) ==>
                  (k in r.applied <==> k in b.applied) && (k in b.applied ==> r.applied[k] == b.applied[k]))
  {
    var r := ReconcileUpTo(b, y, want, n);
    forall m | n < m <= 12
      ensures Lookup(r.row, Pad2(m)) == Lookup(b.row, Pad2(m))
      ensures Lookup(r.applied, AppliedKey(y, m)) == Lookup(b.applied, AppliedKey(y, m))
    {
      ReconcileUpToLaterMonth(b, y, want, n, m);
    }
    forall k | forall m :: 1 <= m <= 12 ==> k != Pad2(m)
      ensures (k in r.row <==> k in b.row) && (k in b.row ==> r.row[k] == b.row[k])
    {
      ReconcileUpToOtherCell(b, y, want, n, k);
    }
    forall k | forall m :: 1 <= m <= 12 ==> k != AppliedKey(y, m)
      ensures (k in r.applied <==> k in b.applied) && (k in b.applied ==> r.applied[k] == b.applied[k])
    {
      ReconcileUpToOtherApplied(b, y, want, n, k);
    }
  }

  lemma {:induction false} ReconcileUpToLaterMonth(b: Books, y: int, want: seq<int>, n: nat, m: int)
    requires n <= |want| <= 12 && n < m <= 12
    ensures var r := ReconcileUpTo(b, y, want, n);
            Lookup(r.row, Pad2(m)) == Lookup(b.row, Pad2(m))
            && Lookup(r.applied, AppliedKey(y, m)) == Lookup(b.applied, AppliedKey(y, m))
  {
    if n > 0 {
      ReconcileUpToLaterMonth(b, y, want, n - 1, m);
      MonthLeavesOthers(ReconcileUpTo(b, y, want, n - 1), y, n, want[n - 1], m);
    }
  }

  lemma {:induction false} ReconcileUpToOtherCell(b: Books, y: int, want: seq<int>, n: nat, k: string)
    requires n <= |want| <= 12
    requires forall m :: 1 <= m <= 12 ==> k != Pad2(m)
    ensures var r := ReconcileUpTo(b, y, want, n);
            (k in r.row <==> k in b.row) && (k in b.row ==> r.row[k] == b.row[k])
  {
    if n > 0 {
      ReconcileUpToOtherCell(b, y, want, n - 1, k);
      assert k != Pad2(n);
    }
  }

  lemma {:induction false} ReconcileUpToOtherApplied(b: Books, y: int, want: seq<int>, n: nat, k: string)
    requires n <= |want| <= 12
    requires forall m :: 1 <= m <= 12 ==> k != AppliedKey(y, m)
    ensures var r := ReconcileUpTo(b, y, want, n);
            (k in r.applied <==> k in b.applied) && (k in b.applied ==> r.applied[k] == b.applied[k])
  {
    if n > 0 {
      ReconcileUpToOtherApplied(b, y, want, n - 1, k);
      assert k != AppliedKey(y, n);
    }
  }

  /** Month `m` is settled by its own step: later steps leave its cell and its applied amount alone. */
  lemma {:induction false} ReconcileUpToKeepsMonth(b: Books, y: int, want: seq<int>, n: nat, m: int)
    requires n <= |want| <= 12 && 1 <= m <= n
    ensures Lookup(ReconcileUpTo(b, y, want, n).row, Pad2(m)) == Lookup(ReconcileUpTo(b, y, want, m).row, Pad2(m))
    ensures Lookup(ReconcileUpTo(b, y, want, n).applied, AppliedKey(y, m))
            == Lookup(ReconcileUpTo(b, y, want, m).applied, AppliedKey(y, m))
  {
    if n > m {
      ReconcileUpToKeepsMonth(b, y, want, n - 1, m);
      MonthLeavesOthers(ReconcileUpTo(b, y, want, n - 1), y, n, want[n - 1], m);
    }
  }

  /** Reconciling month `n` leaves the cell and the applied amount of every other month alone. */
  lemma MonthLeavesOthers(b: Books, y: int, n: int, desired: int, m: int)
    requires 1 <= n <= 12 && 1 <= m <= 12 && n != m
    ensures var r := ReconcileMonth(b, y, n, desired);
            Lookup(r.row, Pad2(m)) == Lookup(b.row, Pad2(m))
            && Lookup(r.applied, AppliedKey(y, m)) == Lookup(b.applied, AppliedKey(y, m))
  {
    AppliedKeyInjective(y, n, m);
  }

  /** Reconciling month `m` records its desired amount and moves its cell by the difference, clamped at 0. */
  lemma MonthOwnEffect(b: Books, y: int, m: int, desired: int)
    ensures var r := ReconcileMonth(b, y, m, desired);
            var prev := Lookup(b.applied, AppliedKey(y, m));
            Lookup(r.applied, AppliedKey(y, m)) == desired
            && Lookup(r.row, Pad2(m)) == (if desired == prev then Lookup(b.row, Pad2(m))
                                          else Max0(Lookup(b.row, Pad2(m)) + desired - prev))
  {
  }

  /**
   * After reconciling months 1..n (the whole year when n is 12), every one of
   * those months has its desired amount applied, and its cell moved by the
   * difference between the desired amount and the amount applied before (clamped
   * at 0), so the bill's old share is replaced by its new one.
   */
  lemma ReconcileApplies(b: Books, y: int, want: seq<int>, n: nat, m: int)
    requires n <= |want| <= 12 && 1 <= m <= n
    ensures var r := ReconcileUpTo(b, y, want, n);
            var prev := Lookup(b.applied, AppliedKey(y, m));
            Lookup(r.applied, AppliedKey(y, m)) == want[m - 1]
            && Lookup(r.row, Pad2(m)) == (if want[m - 1] == prev then Lookup(b.row, Pad2(m))
                                          else Max0(Lookup(b.row, Pad2(m)) + want[m - 1] - prev))
  {
    ReconcileUpToKeepsMonth(b, y, want, n, m);
    ReconcileUpToLaterMonth(b, y, want, m - 1, m);
    MonthOwnEffect(ReconcileUpTo(b, y, want, m - 1), y, m, want[m - 1]);
  }

  /** Reconciliation never makes a cell negative. */
  lemma {:induction false} ReconcileNonNegative(b: Books, y: int, want: seq<int>, n: nat)
    requires n <= |want|
    requires NonNegativeRow(b.row)
    ensures NonNegativeRow(ReconcileUpTo(b, y, want, n).row)
  {
    if n > 0 {
      ReconcileNonNegative(b, y, want, n - 1);
      var r := ReconcileUpTo(b, y, want, n - 1);
      var next := ReconcileMonth(r, y, n, want[n - 1]);
      assert ReconcileUpTo(b, y, want, n) == next;
    }
  }

  /** Reconciling a second time with the same desired amounts changes nothing. */
  lemma ReconcileIdempotent(b: Books, y: int, want: seq<int>)
    requires |want| == 12
    ensures var r := ReconcileUpTo(b, y, want, 12);
            ReconcileUpTo(r, y, want, 12) == r
  {
    var r := ReconcileUpTo(b, y, want, 12);
    forall m | 1 <= m <= 12 ensures Lookup(r.applied, AppliedKey(y, m)) == want[m - 1] {
      ReconcileApplies(b, y, want, 12, m);
    }
    ReconcileSettledIsIdentity(r, y, want, 12);
  }

  lemma {:induction false} ReconcileSettledIsIdentity(r: Books, y: int, want: seq<int>, n: nat)
    requires n <= |want| == 12
    requires forall m :: 1 <= m <= 12 ==> Lookup(r.applied, AppliedKey(y, m)) == want[m - 1]
    ensures ReconcileUpTo(r, y, want, n) == r
  {
    if n > 0 {
      ReconcileSettledIsIdentity(r, y, want, n - 1);
    }
  }
}
