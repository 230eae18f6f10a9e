# Agenda planner: date, recurrence, bill and ledger core

This project models the date and money logic of the Agenda personal planner
(`app.js`) and proves properties of it. The modelled parts are:

- **Calendar arithmetic** (`calendar.dfy`, with the JavaScript string built-ins in `text.dfy`).
  Local-midnight `Date` values become civil dates. A day number (days since
  0000-01-01, proleptic Gregorian) stands in for the millisecond timestamp.
  The module covers `isoDate`, `fromISO` (including how `new Date(y, m, d)`
  rolls over out-of-range months and days, and maps years 0..99 to 1900..1999),
  `getMonday`, `monthDaysGrid`, `countDowBetween` and `timeAddHM`.
- **Recurring series** (`recurrence.dfy`). `occursOn` with every guard in the
  source's order, `getEventsForDate`, and the find, cancel, delete and edit
  operations on the series list.
- **Bills** (`bills.dfy`). `billOccursOn`, `billDueDateInMonth`,
  `amountForBillOnDate`, and the payment record kept by `setBillPaid`,
  `clearBillPaid`, `isBillPaidOn` and `isBillPaidRecent`. A bill is a class
  because the planner updates its `paid` and `applied` maps in place.
- **Yearly ledger** (`ledger.dfy`). Each year has a category list and a grid
  from category id to month `01`..`12` to an amount. The module covers
  `ensureYearDefaults`, `getOrCreateCategoryIdByName`, category deletion and
  reordering, the clamped cell update of `applyTxToYearly`, and the
  month-by-month delta reconciliation of `updateBillApplication`.
- **Daily-goal rollover** (`goals.dfy`). One rollover step moves the pending
  goals of a day to the next day. The boot-time catch-up walk repeats that step
  day by day up to today.
- **Planner state** (`planner.dfy`). The `state` object becomes the class
  `Planner`. Its methods update the goals map, `today`, `lastOpenDate`, the
  series list and the yearly plans in place. Each method is proved against the
  specification functions of the modules above.

Amounts are unbounded integers. `crypto.randomUUID` becomes id parameters
(`ids` for the seven default categories, `newId` for a new category). The
`localStorage` collections become fields of `Planner` and `Bill`, and the clock
becomes the `today` field.

## Model

| member | source | states |
|---|---|---|
| Calendar.DaysInMonth | app.js:1841 | Months have 28 to 31 days, and 29 exactly for February of a leap year |
| Calendar.FromDayNumber | app.js:82-83 | The date with a given day number; its day number is that number, so day numbers and dates are in one-to-one correspondence |
| Calendar.FromDayNumberOfDate | app.js:82-83 | Converting a date to its day number and back gives the same date |
| Calendar.DayNumberOrdersDates | app.js:1647 | A later date in (year, month, day) order has a larger day number, so comparing timestamps compares calendar dates |
| Calendar.DayNumberInjective | app.js:1647 | Two dates with the same day number are the same date |
| Calendar.AddDays | app.js:97-102 | `setDate(getDate() + k)` moves the day number by exactly `k` and never produces an invalid date |
| Calendar.MakeDate | app.js:83 | `new Date(y, m, d)` is `d - 1` days after the first of month `m`, which may roll into the neighbouring months or years |
| Calendar.MakeDateInRange | app.js:83 | `new Date(y, m, d)` with a real month and day, outside the years 0..99, gives exactly that date |
| Calendar.MakeDateDayZero | app.js:1841 | Day 0 of the next month is the last day of the month |
| Calendar.IsoDate | app.js:82 | Definition of `isoDate` (`YYYY-MM-DD` from `String(year)` and `pad2`); its contract is `IsoDateRoundTrip` and `IsoDateInjective` |
| Calendar.FromIso | app.js:83 | Definition of `fromISO`: split on `-`, `Number` of each part, `new Date(y, m - 1, d)`; None is an Invalid Date. Its contract is `IsoDateRoundTrip` and `CountDowBetweenCounts` |
| Calendar.IsoDateRoundTrip | app.js:82-83 | `fromISO(isoDate(d))` gives `d` back for every date from year 100 on |
| Calendar.IsoDateInjective | app.js:82 | Two different dates never get the same `YYYY-MM-DD` key |
| Calendar.GetMonday | app.js:97-102 | `getMonday(d)` is a Monday, 0 to 6 days before or on `d` |
| Calendar.GetMondayUnique | app.js:97-102 | That Monday is the only Monday in the week that ends on `d` |
| Calendar.MonthDaysGrid | app.js:1824-1833 | The grid has 42 consecutive days, starts on the Monday on or before the 1st, and contains every day of the month |
| Calendar.GridCoversMonth | app.js:1824-1833 | 42 consecutive days from the Monday before the 1st contain every day of the month |
| Calendar.CountDowBetween | app.js:1125-1137 | Definition of `countDowBetween`; its contract is `CountDowBetweenCounts`, with `CountDowInRangeCounts` and `CountWeekdayClosedForm` |
| Calendar.CountWeekdayClosedForm | app.js:1125-1137 | Counting a weekday one day at a time equals jumping to its first occurrence and counting whole weeks |
| Calendar.CountDowInRangeCounts | app.js:1125-1137 | The arithmetic of `countDowBetween` counts exactly the dates of the inclusive range that fall on the weekday |
| Calendar.CountDowBetweenCounts | app.js:1125-1137 | `countDowBetween` is 0 when either end is unreadable, and otherwise the number of matching dates in the inclusive range |
| Calendar.TimeAddHM | app.js:541-551 | `timeAddHM` returns "" exactly when the time is "" |
| Calendar.ClampToDay | app.js:547 | The clamped total lies in 00:00..23:59, and a total already inside the day is unchanged |
| Calendar.FormatHMRoundTrip | app.js:548-550 | The `HH:MM` string of a minute of the day reads back as that minute |
| Calendar.TimeAddHMReadsBack | app.js:541-551 | A readable time plus `minutes` reads back as the sum clamped to the day |
| Calendar.TimeAddHMCompose | app.js:541-551 | Adding `a` and then `b` minutes equals adding `a + b` when the first step stays inside the day |
| Text.ParseNatToString | app.js:81 | Reading the decimal digits that `String(n)` prints gives `n` back |
| Text.IntToStringInjective | app.js:82 | `String(y)` gives different strings for different integers |
| Text.Pad2 | app.js:81 | `pad2(n)` of 0..99 is two digits that read back as `n` |
| Text.SplitConcat | app.js:83 | Splitting `a + sep + b`, when `a` has no separator, gives `a` followed by the parts of `b` |
| Text.StrLeTransitive | app.js:1866-1867 | JavaScript string `<=` is transitive |
| Text.StrLeTotal | app.js:1866-1867 | Any two strings are comparable under `<=` |
| Text.StrLeAntisymmetric | app.js:1866-1867 | Strings that are `<=` each other are equal |
| Recurrence.OccursOn | app.js:1645-1665 | Definition of `occursOn`, with the guards in the source's order; its contract is `OccursOnGuards` and `OccursOnIff` |
| Recurrence.OccursOnGuards | app.js:1645-1665 | A canceled series, one with an unreadable start, or a date after `until` never occurs; an occurrence is on or after the start, on the start's weekday for a weekly series, and a multiple of `every` days from the start for a `days` series |
| Recurrence.OccursOnIff | app.js:1645-1665 | A live series with a readable start and a positive period occurs exactly on the dates a whole number of periods after the start, within the first `times` periods when `times > 0`, and not after `until` |
| Recurrence.SameWeekdayIffWeeksApart | app.js:1650 | Two dates fall on the same weekday exactly when they are a multiple of 7 days apart |
| Recurrence.NthDateOccurs | app.js:1645-1665 | Each of the first `times` period dates (all of them when `times` is 0) that are not after `until` is an occurrence |
| Recurrence.OccurrenceIsNthDate | app.js:1645-1665 | Every occurrence is the `k`-th period date for some `k` below `times` |
| Recurrence.AtMostTimesOccurrences | app.js:1659-1662 | With `times = N > 0`, any set of occurrence dates has at most `N` elements |
| Recurrence.Occurrences | app.js:1670-1672 | The synthesized occurrences are at most one per series, and all are marked recurring |
| Recurrence.OccurrencesExactly | app.js:1670-1672 | A series contributes its `groupId:date` occurrence exactly when it occurs on the date |
| Recurrence.EventsForDate | app.js:1667-1687 | The day list is the day's single events, marked not recurring, followed by the occurrences of the series in list order |
| Recurrence.EventsForDateHasOccurrence | app.js:1667-1687 | With distinct group ids, the day list holds an entry with id `groupId:date` exactly when that series occurs on the date |
| Recurrence.OccurrenceIdInjective | app.js:1671 | On one day, the occurrence id determines the group id |
| Recurrence.FindSeries | app.js:1691 | `findSeries` returns the first series with the group id, or nothing when none has it |
| Recurrence.CancelSeries | app.js:1693-1698 | A confirmed cancel marks exactly the found series canceled; a missing id or a refused confirmation changes nothing |
| Recurrence.CanceledSeriesIsSilent | app.js:1693-1698 | After a confirmed cancel, the canceled series has no occurrence on any date |
| Recurrence.DeleteSeries | app.js:1700-1705 | A confirmed delete keeps exactly the series with other group ids; a refused confirmation changes nothing |
| Recurrence.DeleteSeriesConcat | app.js:1702 | The delete keeps the order and repeats of the remaining series: deleting from `a + b` is deleting from `a` followed by deleting from `b`, and a single series stays exactly when its id differs |
| Recurrence.EditSeries | app.js:1707-1723 | A dismissed prompt, a missing id, or a repetition that is NaN or below 2 leaves the list unchanged |
| Recurrence.PromptNumber | app.js:1717-1719 | `Number` of a prompt answer drops the surrounding white space; a blank answer reads as 0, and a number read is never negative |
| Recurrence.EditedTimes | app.js:1719 | The `times` answer reads as the number entered, or 0 (no cap) when the answer is not a number |
| Recurrence.EditedPriority | app.js:1720 | The priority is the answer lower-cased, or `baja` for an empty answer |
| Recurrence.EditedSeries | app.js:1717-1720 | An accepted edit writes the trimmed text, start time, end time and `until`, the lower-cased priority (`baja` when empty), the repetition entered (at least 2) and the `times` entered (0 when not a number); it keeps the id, start date, kind and canceled flag |
| Recurrence.EditedSeriesOccursOn | app.js:1645-1665 | A live series after an accepted edit occurs exactly on the dates a whole number of periods (the new repetition, or a week) after its start, within the new `times` periods when that is not 0, and not after the new `until` date |
| Recurrence.EditSeriesEdits | app.js:1707-1723 | An accepted edit replaces the first series with the id by its edited form and leaves every other series as it was |
| Recurrence.EditSeriesKeepsWellFormed | app.js:1718-1721 | Editing keeps every `days` series repeating every 2 days or more |
| Bills.BillOccursOn | app.js:1835-1844 | Definition of `billOccursOn`; its contract is `OneOffDueOnce`, `MonthlyDueDay`, `MonthlyOncePerMonth` and `MonthlyWithoutAnchorNeverDue` |
| Bills.BillDueDateInMonth | app.js:1846-1859 | The result is an Invalid Date exactly for a monthly bill whose anchor day is NaN; only a one-off bill can have no due date, and one with an unreadable date never has one. `OneOffDueDateAgrees` and `MonthlyDueDay` tie the date to `billOccursOn` |
| Bills.LastDayOfIsMonthLength | app.js:1841 | `new Date(y, m + 1, 0).getDate()` is the length of month `m` |
| Bills.OneOffDueOnce | app.js:1836-1838 | A one-off bill is due on at most one date |
| Bills.OneOffDueDateAgrees | app.js:1835-1859 | The day a one-off bill is due is the due date `billDueDateInMonth` gives for its month |
| Bills.MonthlyDueDay | app.js:1835-1859 | A monthly bill is due in a month exactly on `min(anchor, month length)`, and that is the date `billDueDateInMonth` returns |
| Bills.MonthlyOncePerMonth | app.js:1839-1843 | A monthly bill is due on one day of every month, and on no other day of that month |
| Bills.MonthlyWithoutAnchorNeverDue | app.js:1840-1843 | A monthly bill whose anchor day is NaN or 0 is never due |
| Bills.ZeroAnchorDueDate | app.js:1846-1859 | With anchor day 0, `billDueDateInMonth` returns `new Date(y, monthIndex, 0)`, the last day of the month before |
| Bills.InsertByFrom | app.js:1866 | Inserting a change keeps every change: the result is the list plus the new change, as a multiset |
| Bills.SortByFrom | app.js:1866 | Sorting the changes is a permutation of them |
| Bills.InsertByFromSorted | app.js:1866 | Inserting a change into changes sorted by `from` keeps them sorted |
| Bills.SortByFromSorted | app.js:1866 | The sorted changes are in ascending `from` order |
| Bills.Resolve | app.js:1866-1868 | Definition of the loop over the sorted changes; its contract is `ResolveIsLatest` and `ResolveConstantBetween` |
| Bills.AmountForMonth | app.js:1862-1869 | Definition of `amountForBillOnDate` on a month key; its contract is `AmountForMonthResolves`, and the method `AmountForBillOnDate` is proved equal to it |
| Bills.AmountForBillOnDate | app.js:1862-1869 | The loop over the sorted changes returns the month's override when there is one, and otherwise the last change in force over the base amount |
| Bills.ResolveIsLatest | app.js:1867-1868 | Over sorted changes, the result is the base amount when no change is in force, and otherwise the amount of a change in force whose `from` is the latest |
| Bills.AmountForMonthResolves | app.js:1862-1869 | The amount in a month is its override; otherwise the latest change with `from <= YYYY-MM`; otherwise the base amount |
| Bills.ResolveConstantBetween | app.js:1866-1868 | Without overrides the amount is a step function of the month: two months with no change starting between them resolve to the same amount |
| Bills.IsPaidOn | app.js:1892-1894 | Definition of `isBillPaidOn`: a non-empty key with a payment record; its contract is `SetPaidMarks` and `ClearUndoesSet` |
| Bills.IsPaidRecent | app.js:1910-1918 | Definition of `isBillPaidRecent`: paid on a readable date at most `days` days before today; its contract is `PaidTodayIsRecent` |
| Bills.Bill.SetPaid | app.js:1896-1902 | `setBillPaid` records the payment date, or today when none is given, under the key; an empty key changes nothing |
| Bills.Bill.ClearPaid | app.js:1904-1908 | `clearBillPaid` removes the key's payment record and nothing else |
| Bills.SetPaidMarks | app.js:1892-1902 | After recording a payment the key is paid, and every other key is paid exactly as before |
| Bills.PaidTodayIsRecent | app.js:1910-1918 | A payment recorded today without a date is recent for every window of 0 days or more, and for no negative window |
| Bills.ClearUndoesSet | app.js:1904-1908 | After clearing, the key is not paid; clearing a fresh record restores the map |
| Ledger.DefaultPlan | app.js:2136-2145 | A new year gets the seven default categories, in order, with empty rows, and the plan is valid |
| Ledger.FindByName | app.js:2024 | The lookup returns the first category whose lower-cased name matches, or nothing when none matches |
| Ledger.PlanWithCategoryValid | app.js:2022-2028 | Finding or creating a category keeps the plan valid, and the returned id names a category with that name and a row in the grid |
| Ledger.DeleteCategory | app.js:2179 | Definition of the delete button's update; its contract is `DeleteCategoryValid`, `DeleteCategoryGrandTotal` and `FilterOutConcat` |
| Ledger.FilterOut | app.js:2179 | The filtered list holds exactly the categories with a different id |
| Ledger.FilterOutConcat | app.js:2179 | Deleting keeps the order and repeats of the other categories: filtering `a + b` is filtering `a` followed by filtering `b`, and a single category stays exactly when its id differs |
| Ledger.DeleteCategoryValid | app.js:2179 | Deleting a category keeps the plan valid and removes its row |
| Ledger.DeleteCategoryTotal | app.js:2156-2179 | Deleting lowers the grand total by the category's row total once for each time its id is listed |
| Ledger.DeleteCategoryGrandTotal | app.js:2156-2179 | In a valid plan, the grand total after deleting a category is the total before minus that category's row total |
| Ledger.MoveCategory | app.js:2224-2238 | Moving a category up or down is a permutation of the list |
| Ledger.MoveKeepsIds | app.js:2224-2238 | Reordering keeps the ids distinct and keeps the same set of ids |
| Ledger.MoveDownThenUp | app.js:2224-2238 | Moving a category that is not last down and then up restores the order |
| Ledger.MoveUpThenDown | app.js:2224-2238 | Moving a category that is not first up and then down restores the order |
| Ledger.PostToCell | app.js:2366-2367 | The updated cell is never negative, and every other month of the row is unchanged |
| Ledger.PostToCellUndo | app.js:2357-2370 | Removing an expense undoes adding it, on a cell that was not negative |
| Ledger.DesiredAmount | app.js:1929-1940 | Definition of a month's desired amount in `updateBillApplication`; its contract is `DesiredAtDueDate`, `DesiredIsMonthAmount` and `DesiredWithZeroAnchor`, and `ReconcileApplies` states its role |
| Ledger.DesiredAtDueDate | app.js:1929-1940 | Outside years 0..99, a monthly bill's desired amount is its resolved amount on the due date `billDueDateInMonth` gives for the month (on `NaN-NaN` when that is an Invalid Date); a one-off bill's is `bill.amount` when it is due in the month and 0 otherwise |
| Ledger.DesiredIsMonthAmount | app.js:1929-1945 | A monthly bill with an anchor day of 1 or more puts into month `m` the amount it resolves to for month `m` itself, the month whose key `YYYY-MM` records it in `applied` |
| Ledger.DesiredWithZeroAnchor | app.js:1931-1937 | A monthly bill with anchor day 0 is never due, yet `new Date(y, m - 1, 0)` is the last day of the previous month, so month `m` receives the amount the bill resolves to for month `m - 1` (December of the year before, for January) |
| Ledger.DayBeforeFirst | app.js:1936 | `new Date(y, m - 1, 0)` is the last day of the month before month `m`, across the year boundary for January |
| Ledger.DesiredOnDueDate | app.js:1930-1937 | A monthly bill whose due date in month `m` is `d` puts into month `m` the amount it resolves to for the month of `d` |
| Ledger.ReconcileMonth | app.js:1942-1950 | Definition of one iteration of the month loop; its contract is `ReconcileApplies`, `ReconcileNonNegative` and `ReconcileIdempotent` |
| Ledger.ReconcileUpTo | app.js:1927-1951 | Definition of the month loop up to month `n`; `ReconcileYear` is proved equal to it, and `ReconcileUpToFrame` and `ReconcileApplies` state its effect |
| Ledger.ReconcileApplies | app.js:1920-1954 | After the loop, every month records its desired amount as applied, and its cell has moved by desired minus previously applied, clamped at 0, or is unchanged when the two are equal |
| Ledger.ReconcileUpToFrame | app.js:1920-1954 | The loop touches only the twelve month cells of the row and the twelve `YYYY-MM` keys of the year in `applied` |
| Ledger.ReconcileNonNegative | app.js:1948 | Reconciliation never makes a cell negative |
| Ledger.ReconcileIdempotent | app.js:1942-1950 | A second reconciliation with the same desired amounts changes neither the row nor `applied` |
| Ledger.AppliedKeyInjective | app.js:1942 | Different months of a year have different `applied` keys and different cell keys |
| Ledger.ReconcileSettledIsIdentity | app.js:1943-1950 | When every month's `applied` entry already equals its desired amount, the loop changes nothing |
| Ledger.CountIdDistinct | app.js:2156-2179 | With distinct ids a category id is listed at most once, and exactly once when it belongs to the list |
| Planner.ReconcileRowIdempotent | app.js:1927-1951 | Reconciling a bill's row and `applied` map a second time with the same terms changes neither |
| Planner.PostToCellNonNegative | app.js:2367 | Posting any amount keeps a row whose cells are not negative free of negative cells |
| Planner.SetRowValid | app.js:1946-1948 | Replacing an existing category's row by one without negative cells keeps the plan valid |
| Planner.ReconciledRowValid | app.js:1925-1951 | Writing the reconciled row back into the year keeps every yearly plan valid |
| Planner.Planner.FindOrAddCategory | app.js:2024-2027 | In an existing year, returns the id of the category found by name or of the one appended, and the plans stay valid |
| Planner.Planner.PostToCategory | app.js:2364-2367 | The category's month cell moves by the delta, clamped at 0, and nothing else in the plans changes |
| Planner.Planner.ApplyBillToCategory | app.js:1925-1951 | The bill's twelve months are reconciled into the category's row and its `applied` map; the plans stay valid |
| Planner.UpdateBillApplicationIdempotent | app.js:1920-1954 | Applying a bill to the same year twice with unchanged terms leaves the yearly plans and `applied` as the first call left them, whatever fresh id is offered |
| Planner.CategoryFoundAgain | app.js:2022-2028 | Once the bill's category exists, looking it up by name again finds the same id and adds nothing |
| Planner.ReconcileYear | app.js:1925-1951 | The twelve-month loop produces exactly the row and `applied` map of the month-by-month reconciliation |
| Planner.DesiredFor | app.js:1929-1940 | The month's desired amount of the year's list; outside years 0..99 a monthly bill's is its resolved amount on its due date in the month, and a one-off bill's is `bill.amount` when it is due in the month and 0 otherwise |
| Planner.Planner.UpdateBillApplication | app.js:1920-1954 | `updateBillApplication` finds or creates the category by the bill's name and reconciles its row and `applied`; the plans stay valid and nothing else changes |
| Planner.Planner.ApplyTxToYearly | app.js:2357-2370 | An expense with a readable date moves its category's month cell by `sign * amount`, clamped at 0; any other transaction changes nothing |
| Planner.Planner.EnsureYearDefaults | app.js:2136-2145 | A missing year gets the default plan; an existing year is left alone |
| Planner.Planner.GetOrCreateCategoryIdByName | app.js:2022-2028 | Returns the id of the first category with the same lower-cased name, or appends a new category with an empty row and returns its id |
| Planner.Planner.DeleteCategory | app.js:2179 | The delete button removes the category from the list and its row from the grid, keeping the plans valid |
| Planner.Planner.MoveCategory | app.js:2224-2238 | The arrow keys reorder the year's list and leave the grid alone |
| Goals.Done | app.js:574 | The completed goals are exactly the goals marked done |
| Goals.Pending | app.js:575 | The pending goals are exactly the goals not marked done |
| Goals.FiltersPartition | app.js:574-575 | Splitting a day's goals into completed and pending loses none and invents none |
| Goals.RolloverStep | app.js:572-579 | Definition of one rollover step from one day key to the next; its contract is `RolloverStepEffect`, `RolloverStepFrame` and `RolloverStepConserves` |
| Goals.RolloverStepEffect | app.js:572-579 | One step keeps the completed goals on the source day, appends the pending ones in order after the next day's goals, and deletes the source day when nothing on it was completed |
| Goals.RolloverStepFrame | app.js:572-579 | One step leaves every other day unchanged |
| Goals.RolloverStepConserves | app.js:1285-1294 | One step neither loses nor duplicates a goal across the two days |
| Goals.Walk | app.js:1281-1296 | Definition of the boot walk after `k` steps; its contract is `WalkClosedForm` and `WalkConserves` |
| Goals.WalkClosedForm | app.js:1281-1296 | After `k` steps, each earlier day keeps exactly its completed goals, the last day holds its own goals followed by everything pending before it, and no other day changes |
| Goals.WalkConserves | app.js:1281-1296 | The walk keeps the multiset of goals over the walked days |
| Goals.DayKeysDistinct | app.js:1281-1295 | The keys of consecutive days are distinct |
| Goals.BootGoals | app.js:1273-1302 | Definition of the boot-time catch-up on the goals; its contract is `BootWalksMissedDays`, `BootSkipsFutureOrUnreadable` and `BootGoalsFrom` |
| Goals.BootWalksMissedDays | app.js:1273-1302 | Opening the app `n >= 1` days after the last opening walks exactly those `n` days |
| Goals.BootSkipsFutureOrUnreadable | app.js:1279-1280 | A last opening after today, or an unreadable one, moves no goal |
| Goals.BootGoalsFrom | app.js:1276-1296 | A readable last opening other than today walks from that date up to today |
| Goals.WalkUpToGap | app.js:1281-1296 | Walking up to a date `n` days ahead is the walk over those `n` days |
| Goals.FiltersOfConcat | app.js:577 | Filtering a concatenation filters each part: the completed and pending goals of `a + b` are those of `a` followed by those of `b` |
| Goals.MidnightIsOneWalkStep | app.js:563-582 | The midnight rollover is the walk's single step from today to tomorrow |
| Planner.Planner.RollGoals | app.js:572-580 | One rollover step applied in place to the goals map, with nothing else changed |
| Planner.Planner.DoMidnightRollover | app.js:563-582 | Today advances one day, the old day's goals roll over into the new day, and the new day is recorded as the last opening |
| Planner.Planner.BootRollover | app.js:1273-1302 | The boot walk runs only when the last opening is set, differs from today, reads as a date and is not after today; `lastOpenDate` becomes today in every case |
| Planner.Planner.CatchUp | app.js:1281-1296 | The `while` loop walks day by day from the last opening until today's key, and leaves the goals as the walk up to today does |
| Planner.Planner.CancelSeries | app.js:1693-1698 | The stored series list becomes the cancelled list, and nothing else changes |
| Planner.Planner.DeleteSeries | app.js:1700-1705 | The stored series list becomes the list without the group, and nothing else changes |
| Planner.Planner.EditSeries | app.js:1707-1723 | The stored series list becomes the edited list, and nothing else changes |

## Left out

- The DOM rendering, modals and forms (`renderMonth`, `renderWeek`, `placeWeekEvents`, `placeDailyGoalsTop` and the others) are view code. Their pixel layout uses floating point.
- The SVG charts `renderExpensesChart` and `renderExpensePie` are trigonometry over floating point.
- `localStorage` and `storage.get`/`storage.set` are not modelled. The collections are fields of `Planner` and `Bill`, and every method's result is what would be stored.
- The login module (app.js:1-51) is not part of this model.
- The `setTimeout` scheduling of the midnight timer is left out. Only the state step `doMidnightRollover` is modelled. Its view-state updates are not modelled either: moving `state.selectedDate` to the new day when it was the old day, and the date fields of the forms (app.js:584-590).
- `crypto.randomUUID` is replaced by id parameters. The methods that may create categories require the new id to be unused.
- Millisecond timestamps are not modelled. This covers the `ts` field of payment records, `Date.now`, `Date.parse` and the `/86400000` arithmetic with its daylight-saving quirks. Dates are integer day numbers, and `state.today` is a date without a time of day. The boot walk's start `d` comes from `fromISO` and is a local midnight, while `state.today` is `new Date()` of the same or a later instant of the day, so `d <= state.today` holds exactly when `d` is on or before today's date; comparing by day gives the same answer.
- The legacy payment forms that `getBillPaidInfo` still reads (`true`, a bare string, `raw.date`) are left out. Only the `{on}` records that `setBillPaid` writes are modelled. `clearBillPaid` deleting an emptied `paid` object is the same as an empty map here.
- `money` formatting, locale labels and the plant-stage chips are display code.
- The academic-task entries that `getEventsForDate` appends after the occurrences (app.js:1673-1685) are left out. `EventsForDate` returns the single events and the series occurrences only.
- Amounts are integers, not JavaScript doubles. `Number(x || 0)` on a missing amount is modelled as a present integer amount.
- `Number(s)` on date and time fragments is modelled only for plain decimal digits (the empty string reads as 0, anything else as NaN). Signs, surrounding spaces, exponents and hexadecimal forms are not modelled.
- Recurrence.EveryAccepted: reads the repetition answer as decimal digits after trimming white space. `Number` also accepts `+3`, `2.5`, `1e1` and `0x3`, which the source applies and the model refuses. A series' `every` is an integer here.
- Recurrence.EditedSeries: the same reading applies to the `times` answer. An answer such as `2.5` caps the series at 3 occurrences in the source, but the model reads it as 0, which sets no cap. A negative answer sets no cap in both.
- `Text.Lower` lower-cases Basic Latin and Latin-1 capitals only. Full Unicode case mapping is not modelled.
- Hand edits of ledger cells in the table are not modelled. They write the grid directly and are outside `updateBillApplication`.
- `Bills.SortByFrom`: the source's comparator never returns 0, so JavaScript may order changes with equal `from` either way. The model uses a stable insertion sort. `Bills.ResolveIsLatest` holds for every sorted order.
- `Calendar.IsoDateRoundTrip` is stated from year 100 on, because `new Date(y, ...)` maps years 0..99 to 1900..1999.
- Dates are faithful for years 100 to 275760 only. `getMonday` (`cloneDate`), `monthDaysGrid` and the next-day step of the rollover and the boot walk rebuild each date with `new Date(getFullYear(), ...)`. Below year 100 that rebuild jumps to the 1900s. For example, the source's Monday of 0050-04-10 falls in 1950, and its January grid for year 100 jumps from December of year 99 to 1999. The model keeps such dates in their own year and keeps its grids consecutive. After 13 September 275760, or before 20 April of year -271821, the source has an Invalid Date, while the model still has a valid date. Today comes from the clock, and date keys read back only from year 100 on, so no state the app reaches gets there.
- `Recurrence.OccursOnIff` requires a positive period (`every >= 1` for a `days` series), which creating and editing a series guarantee. `Recurrence.OccursOn` still models `every` of 0, a negative `every` and an unreadable start.
- Monthly bill with a NaN anchor day: `DesiredAmount` resolves its amount on the month key `NaN-NaN`, as the source does with an Invalid Date.
