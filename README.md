# Activity tracker — streak engine and activity store

A model of the core of a browser habit tracker. The page keeps a list of activities. Each
activity has:

- a kind: a boolean or a quantity;
- a count type: count-if-done or count-if-not-done;
- a goal;
- a history that maps a day to a record `{value, notes}`;
- two cached streaks.

The model covers the following:

- **Streak engine (`calculateStreaks`):** the longest streak is a counter loop over the
  history's dates in ascending order. The current streak is a walk one calendar day at a time
  back from today. Both use the completion test `completionCriteria`.
- **Form handlers** that change the list:
  - the add/edit form's submit handler;
  - `deleteActivity`;
  - `toggleCompletion`;
  - `updateQuantity`;
  - `saveNotes`.
- **Render-time effects:**
  - the creation of a missing record for today;
  - the per-activity streak recalculation;
  - the two predicates `isCompleted` and `isGoalMet` that colour today's card.

Files:

- `wrappers.dfy`: the `Option` datatype.
- `activities.dfy` (module `Activities`):
  - the value domain. A day record's value is a JavaScript boolean or number (`Val`), with the
    coercions that `>` and `!` apply;
  - `Activity` and `DayRecord`;
  - the completion test and the two card predicates;
  - each handler's net effect on one activity, as a function.
- `streaks.dfy` (module `Streaks`):
  - `CalculateStreaks` and its two loops, as methods;
  - the functions that specify them: `LongestStreak`, the longest run of passing entries in date
    order, and `CurrentStreak`, the run of passing calendar days ending today;
  - lemmas about both.
- `store.dfy` (module `Store`): the class `ActivityStore`, whose field `activities` the handler
  methods reassign. Its invariant `Valid()`:
  - ids are unique;
  - every cached streak lies between 0 and the number of history entries.

Dates are whole day numbers. The day before `d` is `d - 1`, and ascending numeric order is the
order that sorting `YYYY-MM-DD` keys gives. The page reads some inputs from the DOM and the
clock. In the model they are parameters:

- `today`;
- the notes text;
- the parsed quantity, which is `None` when `parseInt` gives `NaN`;
- the fresh id that `Date.now()` supplies.

## Model

| member | source | states |
|---|---|---|
| Activities.ToNumber | script.js:606 | The number JavaScript's `>` reads from a value: a boolean gives 0 or 1, and it is positive exactly for `true` or a positive number. |
| Activities.Not | script.js:468 | JavaScript's `!v` is always a boolean, and it is `true` exactly for the falsy values `false` and 0. |
| Activities.CompletionCriteria | script.js:600-611 | A day that counts has a record. Under a boolean activity its value is a boolean. Under count-if-not-done its value is numerically 0. |
| Activities.IsCompleted | script.js:214-216 | For a boolean activity the card is completed exactly when today's value is `true`. For a quantity activity it is completed exactly when the value is numerically positive. |
| Activities.IsGoalMet | script.js:217-220 | For a quantity activity with a positive goal, the goal is met exactly when today's value is numerically at least the goal. A goal of 0, or a boolean activity, never meets a goal. A negative goal is met by every non-negative quantity, because it is truthy and below every quantity. |
| Activities.MissingDayNeverCounts | script.js:601-602 | A date without a history record never counts, under either count type. |
| Activities.CompletionTable | script.js:604-610 | The four cases of the completion test. Boolean count-if-done counts exactly `true`. Quantity count-if-done counts `true` or a positive number. Boolean count-if-not-done counts exactly `false`. Quantity count-if-not-done counts exactly the number 0. |
| Activities.UntouchedBooleanDayNeverCounts | script.js:604-610 | A boolean activity's day that holds only the seeded number 0 counts under neither count type. |
| Activities.CountTypesAreComplementary | script.js:605-610 | On a recorded day whose value has the kind's own shape, exactly one of the two count types counts it. |
| Activities.GoalDoesNotGateStreaks | script.js:600-611 | The goal plays no part in whether a day counts. |
| Activities.CompletedIsCountIfDone | script.js:214-216 | Today's card shows "completed" exactly when today would count under count-if-done. |
| Activities.GoalMetImpliesCompleted | script.js:214-220 | With a positive goal, a met goal implies the card is completed. |
| Activities.GoalIndependenceExample | script.js:217-220 | A quantity of 1 against a goal of 5 counts under count-if-done although the goal is not met. |
| Activities.Toggled | script.js:465-469 | A toggle gives today a boolean value with the given notes. The value is `true` exactly when the previous value, `false` if there was no record, was falsy. No other day and no other field changes. |
| Activities.QuantityUpdated | script.js:493-507 | A quantity that does not parse, or is negative, changes nothing. A valid quantity becomes today's value, with the given notes. No other day or field changes. |
| Activities.NotesSaved | script.js:527-531 | saveNotes sets today's notes. It keeps an existing value, seeds a missing one with 0, and changes no other day or field. |
| Activities.TodayInitialised | script.js:208-212 | Render-time initialisation gives today a record. It never overwrites an existing one, a new one is `{0, ""}`, and nothing else changes. |
| Activities.ToggleOfMissingDayIsTrue | script.js:465-469 | Toggling a day without a record leaves it `true`, with the given notes. |
| Activities.ToggleTwice | script.js:468 | Toggling twice restores a boolean value. A seeded number 0 becomes `true`, then `false`. |
| Activities.QuantityUpdateIdempotent | script.js:483-507 | Applying updateQuantity twice with the same inputs is the same as applying it once. |
| Activities.TodayInitialisedIdempotent | script.js:208-212 | Initialising today's record a second time changes nothing. |
| Streaks.Earliest | script.js:590 | The earliest date of a non-empty set belongs to the set and is no later than any of its dates. |
| Streaks.SortedDates | script.js:590 | The sorted keys: every history date exactly once, strictly ascending. |
| Streaks.PassesAt | script.js:614-616 | The completion flags line up one-to-one with the dates they test. |
| Streaks.Passes | script.js:590 | There is one completion flag per history entry. |
| Streaks.TrailingRun | script.js:616-620 | `streakInProgress` is a run of passing entries that ends at the current position. The entry before it fails. |
| Streaks.LongestRun | script.js:619-623 | The longest run seen so far is at most the number of entries scanned and at least the run in progress. |
| Streaks.LongestRunIsMaximum | script.js:614-623 | `longestStreak` bounds every run of passing entries in the scanned prefix. One run reaches it. |
| Streaks.LongestRunZeroIffNonePass | script.js:614-623 | The scan finds 0 exactly when no entry passes. |
| Streaks.LongestStreak | script.js:613-624 | The longest streak is at most the number of history entries. |
| Streaks.SubsetCardinality | script.js:643-647 | Finite-set fact for the backward walk's bound: a subset is no larger. |
| Streaks.DatesUpToShrinks | script.js:643-647 | Each step of the backward walk over a recorded day leaves fewer dates to walk over, so the walk ends. |
| Streaks.DatesUpToBounded | script.js:643-647 | The dates the backward walk can pass are at most the history's entries. |
| Streaks.RunBack | script.js:631-647 | The days passed by the walk back from a day all count. The day it stops at does not count, and the walk is bounded by the recorded days. |
| Streaks.CurrentStreak | script.js:627-649 | The current streak is 0 exactly when today does not count, and it is at most the number of history entries. |
| Streaks.Recalculated | script.js:589-652 | A recalculation changes only the two cached streaks. The current streak becomes the walk's result, which is 0 for an empty history. The longest streak becomes the scan's result, or is kept when the history is empty. |
| Streaks.ScanLongestStreak | script.js:596-623 | The counter loop computes the longest run of passing entries in date order. The result is at most the number of dates. |
| Streaks.WalkCurrentStreak | script.js:627-649 | The backward walk computes the current streak, at most the number of history entries. |
| Streaks.CalculateStreaks | script.js:589-652 | With an empty history, the current streak is set to 0 and the longest streak is kept. Otherwise both are recomputed, each between 0 and the number of entries. |
| Streaks.LongestStreakIsLongestRun | script.js:613-624 | The longest streak is the length of the longest run of consecutive passing entries in date order: no run is longer and one run has that length. |
| Streaks.LongestStreakZeroIffNoneCounts | script.js:613-624 | The longest streak is 0 exactly when no history entry counts. |
| Streaks.CurrentStreakIsCalendarRun | script.js:626-649 | The current streak is 0 exactly when today does not count. Otherwise today and the preceding calendar days up to the streak all count, the day before them does not, and 1 <= streak <= entries. |
| Streaks.CurrentStreakOfUnbrokenDays | script.js:638-647 | If every day from `first` to today counts and the day before `first` does not, the current streak is their number. |
| Streaks.EmptyHistory | script.js:591-594 | With an empty history, the recalculation sets only the current streak to 0, and both streak functions are 0. |
| Streaks.GapBreaksOnlyCurrentStreak | script.js:613-647 | With passing records on days 1 and 3 and none on day 2, the longest streak is 2 and the current streak on day 3 is 1. |
| Streaks.CountIfNotDoneInversion | script.js:605-610 | Four consecutive `false` days form a current streak of 4 under count-if-not-done and of 0 under count-if-done. |
| Streaks.StreaksIgnoreOtherFields | script.js:600-649 | Both streaks depend only on the kind, the count type and the history. |
| Streaks.RecalculatedIsFresh | script.js:589-652 | After a recalculation the cached streaks equal the recalculated activity's own streaks, unless an empty history kept a non-zero longest streak. |
| Store.FindIndex | script.js:125-127 | `find` by id: the index of the first activity with that id, or None exactly when no activity has it. |
| Store.Without | script.js:559 | `filter`: exactly the activities whose id differs are kept. |
| Store.WithoutDistributes | script.js:559 | The filter works element by element, so the kept activities stay in order. |
| Store.WithoutAbsentIsIdentity | script.js:559 | Deleting an id that no activity has changes nothing. |
| Store.WithoutIdempotent | script.js:559 | Deleting twice is the same as deleting once. |
| Store.WithoutKeepsUniqueIds | script.js:559 | Deleting keeps ids unique. |
| Store.NewActivity | script.js:136-145 | A new activity carries the given id, name, type, count type and goal. Its cached streaks are within bounds and equal its actual streaks, which are 0. |
| Store.Updated | script.js:125-133 | The edit keeps the list's length and every activity's id, history and streaks. Activities with another id are unchanged, and the one `find` returns gets the new name, type, count type and goal. |
| Store.IsEditing | script.js:123 | `if (editingActivityId)` is a truthiness test: no editing id and an id of 0 are falsy and take the create branch, and every other id edits. |
| Store.Submitted | script.js:121-147 | A submission grows the list by one exactly when the name is non-empty and no activity is being edited (an id of 0 is falsy). It never changes an existing activity's id or history. |
| Store.EmptyNameChangesNothing | script.js:121 | A submission with an empty (trimmed) name changes nothing. |
| Store.CreateAppendsOne | script.js:134-147 | Creating appends one activity at the end, with the fresh id and the given fields, an empty history and both streaks 0. The rest is unchanged. |
| Store.UpdateChangesOnlyDescription | script.js:123-133 | Editing gives the activity `find` returns the new name, type, count type and goal, and keeps its id, history and streaks. Other activities are unchanged, an unknown id changes nothing, and an editing id of 0 creates instead. |
| Store.EditFirst | script.js:457-458 | An edit through `find` replaces the activity `find` returns with its edited form. It keeps the list's length and leaves every activity with another id as it was. With no activity of that id, nothing changes. |
| Store.HistoryGrowthKeepsBounds | script.js:465-467 | A day-log edit that only adds or overwrites records keeps the streak bounds. |
| Store.ReplaceKeepsInvariant | script.js:128-133 | Replacing an activity with one that has the same id and bounded streaks keeps the store's invariant. |
| Store.RenderedOne | script.js:208-291 | A render changes only an activity's history and streaks. Its history gets today's record (208-212), and the recalculation (290-291) makes its cached streaks its own streaks, within bounds. |
| Store.Rendered | script.js:288-291 | A render treats each activity in place, keeping the list's length and order. |
| Store.RenderIdempotent | script.js:45-49 | Rendering a second time changes nothing. |
| Store.CalculateStreaksBounds | script.js:589-652 | Recalculating keeps every streak between 0 and the number of history entries. |
| Store.ActivityStore.constructor | script.js:32 | With nothing stored, the list starts empty, and an empty list is valid. |
| Store.ActivityStore.SubmitForm | script.js:111-150 | The submit handler keeps the invariant. An empty name changes nothing. Otherwise the list becomes the submission's result, re-rendered. |
| Store.ActivityStore.DeleteActivity | script.js:558-561 | Delete keeps the invariant, and the list becomes the filtered list, re-rendered. No activity with that id remains. |
| Store.ActivityStore.ToggleCompletion | script.js:455-474 | Toggle keeps the invariant. An unknown id changes nothing. Otherwise the first activity with the id is toggled and the list is re-rendered. |
| Store.ActivityStore.UpdateQuantity | script.js:483-512 | The quantity update keeps the invariant. An unknown id or an invalid quantity changes nothing. Otherwise the first activity with the id is updated and the list is re-rendered. |
| Store.ActivityStore.SaveNotes | script.js:522-535 | saveNotes keeps the invariant and applies only to the first activity with the id. No recalculation follows. |
| Store.ActivityStore.InitTodayRecords | script.js:208-212 | Every activity gets a record for today if it had none. Nothing else changes, and the invariant holds. |
| Store.ActivityStore.RecalculateStreaks | script.js:288-291 | Every activity's streaks are recalculated, in order, and the invariant holds. |
| Store.ActivityStore.Refresh | script.js:45-49 | A render leaves every activity as the render specification gives, and the invariant holds. |

## Left out

- Rendering: the DOM, the charts and the history table with its sort, the theme, the edit-form
  filling and the confirmation modal. None of them change the activity list.
- Persistence: `saveActivities`, loading from `localStorage`, and its JSON encoding. The store
  starts empty, as on a first visit. Loading a stored list is not modelled.
- The clock and calendar: `toISOString` dates become day numbers, and yesterday is `d - 1`.
  `today` is a parameter, and a handler and the render that follows it see the same day.
- `Date.now()` as the new id is a parameter. SubmitForm requires it to be unused, which the
  clock gives in practice but the page does not check.
- The editing state `editingActivityId` is a parameter of SubmitForm. It is set by the edit button
  and reset after each submission, outside the model. Its truthiness test is modelled, so an id of
  0 takes the create branch, although `Date.now()` ids are never 0.
- `trim()` on the name: the model takes the trimmed name.
- `parseInt` on the goal, including a goal of `NaN`, is left out: the goal is an integer. A
  quantity that does not parse is `None`.
- Resetting the quantity field after an invalid input is DOM output and is not modelled.
- The type and count-type selects hold other strings only through tampering. An unexpected count
  type takes the count-if-not-done branch, as in the page.
- The page's checks behave differently for an unexpected type: the completion test checks for
  "boolean", the card checks for "quantity". This case is not modelled.
- Activities are values, and the store replaces the list element. The page mutates the shared
  object in place, but no activity object is referenced from two places, so aliasing is not
  modelled.
- A duplicate-name check and a not-found error do not appear in the page's code. The model follows
  the code: an unknown id is silently ignored.
- Streaks.CalculateStreaks: the page's single function is split into its two loops,
  ScanLongestStreak and WalkCurrentStreak, and is called on an activity value.
