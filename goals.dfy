/**
 * Daily goals and their rollover: pending goals of a day move to the next day,
 * completed goals stay where they were. One step is `doMidnightRollover`; the
 * catch-up walk at start-up repeats the step day by day up to today.
 */
module Goals {
  import opened Text
  import opened Calendar

  datatype GoalStep = GoalStep(id: string, text: string, done: bool)

  datatype Goal = Goal(id: string, title: string, priority: string, notes: string, done: bool, steps: seq<GoalStep>)

  /** `state.dailyGoals`: `YYYY-MM-DD` to the goals of that day. */
  type DailyGoals = map<string, seq<Goal>>

  /** `state.dailyGoals[key] || []`. */
  function Get(g: DailyGoals, key: string): seq<Goal> {
    if key in g then g[key] else []
  }

  /** `arr.filter(g => !!g.done)`. */
  function Done(gs: seq<Goal>): (r: seq<Goal>)
    ensures forall x :: x in r <==> x in gs && x.done
  {
    if |gs| == 0 then [] else (if gs[0].done then [gs[0]] else []) + Done(gs[1..])
  }

  /** `arr.filter(g => !g.done)`. */
  function Pending(gs: seq<Goal>): (r: seq<Goal>)
    ensures forall x :: x in r <==> x in gs && !x.done
  {
    if |gs| == 0 then [] else (if gs[0].done then [] else [gs[0]]) + Pending(gs[1..])
  }

  lemma {:induction false} FiltersOfConcat(a: seq<Goal>, b: seq<Goal>)
    ensures Done(a + b) == Done(a) + Done(b)
    ensures Pending(a + b) == Pending(a) + Pending(b)
  {
    if |a| > 0 {
      assert (a + b)[0] == a[0];
      assert (a + b)[1..] == a[1..] + b;
      FiltersOfConcat(a[1..], b);
      var h := if a[0].done then [a[0]] else [];
      var t := if a[0].done then [] else [a[0]];
      assert Done(a + b) == h + (Done(a[1..]) + Done(b));
      assert Pending(a + b) == t + (Pending(a[1..]) + Pending(b));
    } else {
      assert a + b == b;
    }
  }

  /** Splitting a day's goals into completed and pending loses none and invents none. */
  lemma {:induction false} FiltersPartition(gs: seq<Goal>)
    ensures multiset(Done(gs)) + multiset(Pending(gs)) == multiset(gs)
  {
    if |gs| > 0 {
      var x, rest := gs[0], gs[1..];
      FiltersPartition(rest);
      assert gs == [x] + rest;
      if x.done {
        assert Done(gs) == [x] + Done(rest);
        assert Pending(gs) == [] + Pending(rest);
      } else {
        assert Done(gs) == [] + Done(rest);
        assert Pending(gs) == [x] + Pending(rest);
      }
    }
  }

  lemma {:induction false} FiltersOfPending(gs: seq<Goal>)
    requires forall x :: x in gs ==> !x.done
    ensures Done(gs) == [] && Pending(gs) == gs
  {
    if |gs| > 0 {
      FiltersOfPending(gs[1..]);
      assert gs == [gs[0]] + gs[1..];
    }
  }

  // ----- one rollover step (app.js:563-582, app.js:1283-1295) -----

  /**
   * Move the pending goals of `fromKey` after the goals of `toKey`; keep only the
   * completed goals under `fromKey`, or delete the key when there are none. A day
   * without goals is left alone.
   */
  function RolloverStep(g: DailyGoals, fromKey: string, toKey: string): DailyGoals {
    var arr := Get(g, fromKey);
    if |arr| == 0 then g
    else
      var done := Done(arr);
      var pending := Pending(arr);
      var moved := if |pending| > 0 then g[toKey := Get(g, toKey) + pending] else g;
      if |done| > 0 then moved[fromKey := done] else moved - {fromKey}
  }

  /**
   * A step keeps the completed goals on the source day, appends the pending ones,
   * in their order, after the goals of the next day, deletes the source day when
   * nothing on it was completed, and leaves every other day as it was.
   */
  lemma RolloverStepEffect(g: DailyGoals, fromKey: string, toKey: string)
    requires fromKey != toKey
    ensures var r := RolloverStep(g, fromKey, toKey);
            Get(r, fromKey) == Done(Get(g, fromKey))
            && Get(r, toKey) == Get(g, toKey) + Pending(Get(g, fromKey))
            && (|Get(g, fromKey)| > 0 && |Done(Get(g, fromKey))| == 0 ==> fromKey !in r)
  {
    var arr := Get(g, fromKey);
    if |arr| == 0 {
      assert Done(arr) == [] && Pending(arr) == [];
      assert Get(g, toKey) + [] == Get(g, toKey);
    } else if |Pending(arr)| == 0 {
      assert Get(g, toKey) + Pending(arr) == Get(g, toKey);
    }
  }

  /** A step leaves every day other than its two days as it was. */
  lemma RolloverStepFrame(g: DailyGoals, fromKey: string, toKey: string, key: string)
    requires key != fromKey && key != toKey
    ensures var r := RolloverStep(g, fromKey, toKey);
            (key in r <==> key in g) && (key in g ==> r[key] == g[key])
  {
  }

  /** A step neither loses nor duplicates a goal: the two days together hold the same goals. */
  lemma RolloverStepConserves(g: DailyGoals, fromKey: string, toKey: string)
    requires fromKey != toKey
    ensures var r := RolloverStep(g, fromKey, toKey);
            multiset(Get(r, fromKey)) + multiset(Get(r, toKey))
            == multiset(Get(g, fromKey)) + multiset(Get(g, toKey))
  {
    RolloverStepEffect(g, fromKey, toKey);
    FiltersPartition(Get(g, fromKey));
  }

  // ----- the catch-up walk at start-up (app.js:1273-1302) -----

  /** No key occurs twice. */
  predicate DistinctKeys(keys: seq<string>) {
    forall i, j :: 0 <= i < j < |keys| ==> keys[i] != keys[j]
  }

  /**
   * The goals after walking `k` steps along `keys`: step `j` rolls the day
   * `keys[j]` over into `keys[j + 1]`.
   */
  function Walk(g: DailyGoals, keys: seq<string>, k: nat): DailyGoals
    requires k < |keys|
  {
    if k == 0 then g else RolloverStep(Walk(g, keys, k - 1), keys[k - 1], keys[k])
  }

  /** The pending goals carried into day `k` of the walk: those of day `k - 1` first, then the older ones. */
  function Carried(g: DailyGoals, keys: seq<string>, k: nat): (r: seq<Goal>)
    requires k < |keys|
    ensures forall x :: x in r ==> !x.done
  {
    if k == 0 then [] else Pending(Get(g, keys[k - 1])) + Carried(g, keys, k - 1)
  }

  /** `key` is none of the first `n` keys. */
  predicate Outside(key: string, keys: seq<string>, n: nat)
    requires n <= |keys|
  {
    forall j :: 0 <= j < n ==> keys[j] != key
  }

  /** A walk of `k` steps leaves every day outside its `k + 1` days as it was. */
  lemma {:induction false} WalkFrame(g: DailyGoals, keys: seq<string>, k: nat, key: string)
    requires k < |keys| && Outside(key, keys, k + 1)
    ensures var w := Walk(g, keys, k);
            (key in w <==> key in g) && (key in g ==> w[key] == g[key])
  {
    if k > 0 {
      WalkFrame(g, keys, k - 1, key);
      RolloverStepFrame(Walk(g, keys, k - 1), keys[k - 1], keys[k], key);
    }
  }

  /** After `k` steps the last day holds its own goals followed by everything pending before it. */
  lemma {:induction false} WalkLastDay(g: DailyGoals, keys: seq<string>, k: nat)
    requires k < |keys| && DistinctKeys(keys)
    ensures Get(Walk(g, keys, k), keys[k]) == Get(g, keys[k]) + Carried(g, keys, k)
  {
    if k == 0 {
      assert Get(g, keys[0]) + [] == Get(g, keys[0]);
    } else {
      WalkLastDay(g, keys, k - 1);
      LastDayStep(g, keys, k);
    }
  }

  /** The inductive step of `WalkLastDay`. */
  lemma LastDayStep(g: DailyGoals, keys: seq<string>, k: nat)
    requires 0 < k < |keys| && DistinctKeys(keys)
    requires Get(Walk(g, keys, k - 1), keys[k - 1]) == Get(g, keys[k - 1]) + Carried(g, keys, k - 1)
    ensures Get(Walk(g, keys, k), keys[k]) == Get(g, keys[k]) + Carried(g, keys, k)
  {
    var w := Walk(g, keys, k - 1);
    assert Outside(keys[k], keys, k);
    WalkFrame(g, keys, k - 1, keys[k]);
    assert Get(w, keys[k]) == Get(g, keys[k]);
    StepOntoLastDay(w, keys[k - 1], keys[k], Get(g, keys[k - 1]), Carried(g, keys, k - 1), Get(g, keys[k]));
  }

  /**
   * One step of the walk, with the source day holding its own goals `own`
   * followed by goals `carry` that are all pending.
   */
  lemma StepOntoLastDay(w: DailyGoals, from: string, to: string,
                        own: seq<Goal>, carry: seq<Goal>, before: seq<Goal>)
    requires from != to && Get(w, from) == own + carry && Get(w, to) == before
    requires forall x :: x in carry ==> !x.done
    ensures Get(RolloverStep(w, from, to), to) == before + (Pending(own) + carry)
    ensures Get(RolloverStep(w, from, to), from) == Done(own)
  {
    RolloverStepEffect(w, from, to);
    FiltersOfConcat(own, carry);
    FiltersOfPending(carry);
    assert Done(own) + [] == Done(own);
  }

  /** The step into day `k` leaves day `k - 1` with exactly its completed goals. */
  lemma WalkPreviousDay(g: DailyGoals, keys: seq<string>, k: nat)
    requires 0 < k < |keys| && DistinctKeys(keys)
    ensures Get(Walk(g, keys, k), keys[k - 1]) == Done(Get(g, keys[k - 1]))
  {
    WalkLastDay(g, keys, k - 1);
    StepOntoLastDay(Walk(g, keys, k - 1), keys[k - 1], keys[k],
                    Get(g, keys[k - 1]), Carried(g, keys, k - 1), Get(Walk(g, keys, k - 1), keys[k]));
  }

  /** After `k` steps every day before the last keeps exactly its completed goals. */
  lemma {:induction false} WalkPastDay(g: DailyGoals, keys: seq<string>, k: nat, j: nat)
    requires j < k < |keys| && DistinctKeys(keys)
    ensures Get(Walk(g, keys, k), keys[j]) == Done(Get(g, keys[j]))
  {
    if j == k - 1 {
      WalkPreviousDay(g, keys, k);
    } else {
      WalkPastDay(g, keys, k - 1, j);
      RolloverStepFrame(Walk(g, keys, k - 1), keys[k - 1], keys[k], keys[j]);
    }
  }

  /**
   * After walking `k` steps along distinct keys: each day before the last keeps
   * exactly its completed goals; the last day holds its own goals followed by
   * everything that was pending on the days before; no other day changes.
   */
  lemma WalkClosedForm(g: DailyGoals, keys: seq<string>, k: nat)
    requires k < |keys| && DistinctKeys(keys)
    ensures var w := Walk(g, keys, k);
            (forall j :: 0 <= j < k ==> Get(w, keys[j]) == Done(Get(g, keys[j])))
            && Get(w, keys[k]) == Get(g, keys[k]) + Carried(g, keys, k)
            && (forall key :: Outside(key, keys, k + 1) ==>
                  (key in w <==> key in g) && (key in g ==> w[key] == g[key]))
  {
    forall j | 0 <= j < k
      ensures Get(Walk(g, keys, k), keys[j]) == Done(Get(g, keys[j]))
    {
      WalkPastDay(g, keys, k, j);
    }
    WalkLastDay(g, keys, k);
    forall key | Outside(key, keys, k + 1)
      ensures var w := Walk(g, keys, k); (key in w <==> key in g) && (key in g ==> w[key] == g[key])
    {
      WalkFrame(g, keys, k, key);
    }
  }

  /** All the goals of the first `n` days along `keys`, as one multiset. */
  function GoalsOfDays(g: DailyGoals, keys: seq<string>, n: nat): multiset<Goal>
    requires n <= |keys|
  {
    if n == 0 then multiset{} else GoalsOfDays(g, keys, n - 1) + multiset(Get(g, keys[n - 1]))
  }

  function DoneOfDays(g: DailyGoals, keys: seq<string>, n: nat): multiset<Goal>
    requires n <= |keys|
  {
    if n == 0 then multiset{} else DoneOfDays(g, keys, n - 1) + multiset(Done(Get(g, keys[n - 1])))
  }

  lemma {:induction false} CarriedIsPendingOfDays(g: DailyGoals, keys: seq<string>, n: nat)
    requires n < |keys|
    ensures DoneOfDays(g, keys, n) + multiset(Carried(g, keys, n)) == GoalsOfDays(g, keys, n)
  {
    if n > 0 {
      CarriedIsPendingOfDays(g, keys, n - 1);
      FiltersPartition(Get(g, keys[n - 1]));
    }
  }

  lemma {:induction false} WalkedDaysHoldDone(g: DailyGoals, w: DailyGoals, keys: seq<string>, n: nat)
    requires n <= |keys|
    requires forall j :: 0 <= j < n ==> Get(w, keys[j]) == Done(Get(g, keys[j]))
    ensures GoalsOfDays(w, keys, n) == DoneOfDays(g, keys, n)
  {
    if n > 0 {
      WalkedDaysHoldDone(g, w, keys, n - 1);
    }
  }

  /** The walk conserves goals: the walked days, the last included, hold the same goals before and after. */
  lemma WalkConserves(g: DailyGoals, keys: seq<string>, k: nat)
    requires k < |keys| && DistinctKeys(keys)
    ensures GoalsOfDays(Walk(g, keys, k), keys, k + 1) == GoalsOfDays(g, keys, k + 1)
  {
    WalkClosedForm(g, keys, k);
    var w := Walk(g, keys, k);
    WalkedDaysHoldDone(g, w, keys, k);
    CarriedIsPendingOfDays(g, keys, k);
  }

  /** The keys of the `n` days from `s` on. */
  function DayKeys(s: CivilDate, n: nat): (r: seq<string>)
    ensures |r| == n
  {
    seq(n, j => IsoDate(AddDays(s, j)))
  }

  /** Consecutive days have distinct keys, so the walk along them is a walk along distinct keys. */
  lemma DayKeysDistinct(s: CivilDate, n: nat)
    ensures DistinctKeys(DayKeys(s, n))
  {
    var keys := DayKeys(s, n);
    forall i, j | 0 <= i < j < n ensures keys[i] != keys[j] {
      DayKeysAt(s, n, i);
      DayKeysAt(s, n, j);
      IsoDateInjective(AddDays(s, i), AddDays(s, j));
    }
  }

  /** Step `i` of the walk from `s` rolls day `i` over into day `i + 1`. */
  lemma WalkStepDays(g: DailyGoals, s: CivilDate, n: nat, i: nat)
    requires i < n
    ensures Walk(g, DayKeys(s, n + 1), i + 1)
            == RolloverStep(Walk(g, DayKeys(s, n + 1), i), IsoDate(AddDays(s, i)), IsoDate(AddDays(s, i + 1)))
  {
    var keys := DayKeys(s, n + 1);
    DayKeysAt(s, n + 1, i);
    DayKeysAt(s, n + 1, i + 1);
    WalkStep(g, keys, i);
    StepCongruence(Walk(g, keys, i), keys[i], keys[i + 1], IsoDate(AddDays(s, i)), IsoDate(AddDays(s, i + 1)));
  }

  lemma WalkStep(g: DailyGoals, keys: seq<string>, i: nat)
    requires i + 1 < |keys|
    ensures Walk(g, keys, i + 1) == RolloverStep(Walk(g, keys, i), keys[i], keys[i + 1])
  {
  }

  lemma StepCongruence(g: DailyGoals, fromKey: string, toKey: string, fromKey': string, toKey': string)
    requires fromKey == fromKey' && toKey == toKey'
    ensures RolloverStep(g, fromKey, toKey) == RolloverStep(g, fromKey', toKey')
  {
  }

  lemma DayKeysAt(s: CivilDate, n: nat, j: nat)
    requires j < n
    ensures DayKeys(s, n)[j] == IsoDate(AddDays(s, j))
  {
  }

  /** The walk over the `n` days after `s`, ending on day `s + n`. */
  function WalkDays(g: DailyGoals, s: CivilDate, n: nat): DailyGoals {
    Walk(g, DayKeys(s, n + 1), n)
  }

  /**
   * The goals after start-up: with a `lastOpenDate` that is set, differs from
   * today's key, reads as a date and is not after today, the walk runs from that
   * date to today; otherwise nothing moves.
   */
  function BootGoals(g: DailyGoals, lastOpen: Option<string>, today: CivilDate): DailyGoals {
    if lastOpen.Some? && lastOpen.value != "" && lastOpen.value != IsoDate(today) then
      match FromIso(lastOpen.value)
      case Some(d) => WalkUpTo(g, d, today)
      case None => g
    else g
  }

  /** The walk from `d` up to `today`; none when `d` is after `today`. */
  function WalkUpTo(g: DailyGoals, d: CivilDate, today: CivilDate): DailyGoals {
    var gap := DaysBetween(d, today);
    if gap >= 0 then WalkDays(g, d, gap) else g
  }

  /** Up to a date `n` days after the start, the walk takes exactly `n` steps. */
  lemma WalkUpToGap(g: DailyGoals, s: CivilDate, t: CivilDate, n: nat)
    requires DaysBetween(s, t) == n
    ensures WalkUpTo(g, s, t) == WalkDays(g, s, n)
  {
  }

  /** A readable last opening that is not today's key starts the walk from its date. */
  lemma BootGoalsFrom(g: DailyGoals, key: string, today: CivilDate, d: CivilDate)
    requires key != "" && key != IsoDate(today) && FromIso(key) == Some(d)
    ensures BootGoals(g, Some(key), today) == WalkUpTo(g, d, today)
  {
  }

  /** A last opening after today (a clock change) or an unreadable one moves nothing. */
  lemma BootSkipsFutureOrUnreadable(g: DailyGoals, lastOpen: string, today: CivilDate)
    requires FromIso(lastOpen).None? || DayNumber(FromIso(lastOpen).value) > DayNumber(today)
    ensures BootGoals(g, Some(lastOpen), today) == g
  {
  }

  /**
   * Opening the app on a day `n >= 1` days after the last opening (from year 100
   * on, where keys read back) walks exactly those `n` days.
   */
  lemma BootWalksMissedDays(g: DailyGoals, s: CivilDate, t: CivilDate, n: nat)
    requires s.year >= 100 && n >= 1 && DaysBetween(s, t) == n
    ensures BootGoals(g, Some(IsoDate(s)), t) == WalkDays(g, s, n)
  {
    var key := IsoDate(s);
    IsoDateRoundTrip(s);
    IsoDateInjective(s, t);
    assert key != "" by {
      assert FromIso("") == None;
    }
    BootGoalsFrom(g, key, t, s);
    WalkUpToGap(g, s, t, n);
  }

  /** `doMidnightRollover` is the walk's single step, from today to tomorrow. */
  lemma MidnightIsOneWalkStep(g: DailyGoals, today: CivilDate)
    ensures RolloverStep(g, IsoDate(today), IsoDate(AddDays(today, 1))) == WalkDays(g, today, 1)
  {
    var keys := DayKeys(today, 2);
    assert AddDays(today, 0) == today by {
      FromDayNumberOfDate(today);
    }
    DayKeysAt(today, 2, 0);
    DayKeysAt(today, 2, 1);
    WalkStep(g, keys, 0);
    StepCongruence(Walk(g, keys, 0), keys[0], keys[1], IsoDate(today), IsoDate(AddDays(today, 1)));
  }
}
