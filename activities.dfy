/**
 * The data of the activity tracker: an activity, its date-keyed history of day records,
 * the JavaScript value a day record holds, the completion test of the streak engine,
 * the two predicates that colour today's card, and the edits the page makes to today's
 * record.
 *
 * Dates are whole day numbers: the day before `d` is `d - 1`, and ascending numeric order
 * is the chronological order that sorting the `YYYY-MM-DD` keys gives.
 */
module Activities {

  import Wrappers

  /** A day record's `value`: the page stores either a JavaScript boolean or a number. */
  datatype Val = B(b: bool) | N(n: int)

  /** `Number(v)`, which JavaScript's `>`, `>=` apply to a boolean: true is 1, false is 0. */
  function ToNumber(v: Val): (r: int)
    ensures v.B? ==> r == 0 || r == 1
    ensures r > 0 <==> v == B(true) || (v.N? && v.n > 0)
  {
    match v
    case B(b) => if b then 1 else 0
    case N(n) => n
  }

  /** JavaScript's `!v`: a number is falsy exactly when it is 0, and the result is a boolean. */
  function Not(v: Val): (r: Val)
    ensures r.B?
    ensures r.b <==> v == B(false) || v == N(0)
  {
    match v
    case B(b) => B(!b)
    case N(n) => B(n == 0)
  }

  /** The `type` select: "boolean" or "quantity". */
  datatype Kind = Boolean | Quantity

  /** The `countType` select: "count-if-done"; every other value takes the count-if-not-done branch. */
  datatype CountType = CountIfDone | CountIfNotDone

  type Date = int

  datatype DayRecord = DayRecord(value: Val, notes: string)

  datatype Activity = Activity(
    id: int,
    name: string,
    kind: Kind,
    countType: CountType,
    goal: int,
    history: map<Date, DayRecord>,
    currentStreak: int,
    longestStreak: int)

  /** `completionCriteria(date)`: does `date` count toward a streak of `a`? Comparisons with
    * a boolean are strict (`=== true`, `=== false`, `=== 0`); `> 0` coerces. */
  predicate CompletionCriteria(a: Activity, date: Date)
    ensures CompletionCriteria(a, date) ==> date in a.history
    ensures a.kind == Boolean && CompletionCriteria(a, date) ==> a.history[date].value.B?
    ensures a.countType == CountIfNotDone && CompletionCriteria(a, date) ==> ToNumber(a.history[date].value) == 0
  {
    date in a.history &&
    var v := a.history[date].value;
    match a.countType
    case CountIfDone => if a.kind == Boolean then v == B(true) else ToNumber(v) > 0
    case CountIfNotDone => if a.kind == Boolean then v == B(false) else v == N(0)
  }

  /** `isCompleted` of today's card, for today's record value `v`. */
  predicate IsCompleted(a: Activity, v: Val)
    ensures a.kind == Boolean ==> (IsCompleted(a, v) <==> v == B(true))
    ensures a.kind == Quantity ==> (IsCompleted(a, v) <==> ToNumber(v) > 0)
  {
    v == B(true) || (a.kind == Quantity && ToNumber(v) > 0)
  }

  /** `isGoalMet` of today's card: a goal of 0 is falsy, so it means "no goal". */
  predicate IsGoalMet(a: Activity, v: Val)
    ensures a.goal == 0 || a.kind == Boolean ==> !IsGoalMet(a, v)
    ensures a.goal < 0 && a.kind == Quantity && v.N? && v.n >= 0 ==> IsGoalMet(a, v)
    ensures a.goal > 0 && a.kind == Quantity ==> (IsGoalMet(a, v) <==> ToNumber(v) >= a.goal)
  {
    a.goal != 0 && a.kind == Quantity && ToNumber(v) >= a.goal
  }

  /** The other count type (a helper for stating properties under both count types). */
  function Opposite(c: CountType): (r: CountType)
    ensures r != c
  {
    match c
    case CountIfDone => CountIfNotDone
    case CountIfNotDone => CountIfDone
  }

  /** A value of the shape the kind's own controls write: a boolean for a boolean activity,
    * a non-negative number for a quantity activity. */
  predicate WellTyped(k: Kind, v: Val)
  {
    match k
    case Boolean => v.B?
    case Quantity => v.N? && v.n >= 0
  }

  // ---------------------------------------------------------------------------
  // The completion predicate

  /** A date without a record never counts, under either count type. */
  lemma MissingDayNeverCounts(a: Activity, date: Date)
    requires date !in a.history
    ensures !CompletionCriteria(a, date)
    ensures !CompletionCriteria(a.(countType := Opposite(a.countType)), date)
  {
  }

  /** The completion table, case by case, written with the values a record can hold. */
  lemma CompletionTable(a: Activity, date: Date)
    ensures a.kind == Boolean && a.countType == CountIfDone ==>
      (CompletionCriteria(a, date) <==> date in a.history && a.history[date].value == B(true))
    ensures a.kind == Quantity && a.countType == CountIfDone ==>
      (CompletionCriteria(a, date) <==>
        (date in a.history &&
         (a.history[date].value == B(true) || (a.history[date].value.N? && a.history[date].value.n > 0))))
    ensures a.kind == Boolean && a.countType == CountIfNotDone ==>
      (CompletionCriteria(a, date) <==> date in a.history && a.history[date].value == B(false))
    ensures a.kind == Quantity && a.countType == CountIfNotDone ==>
      (CompletionCriteria(a, date) <==> date in a.history && a.history[date].value == N(0))
  {
  }

  /** A boolean day that was only seeded with the number 0 counts under neither count type. */
  lemma UntouchedBooleanDayNeverCounts(a: Activity, date: Date)
    requires a.kind == Boolean && date in a.history && a.history[date].value == N(0)
    ensures !CompletionCriteria(a, date)
    ensures !CompletionCriteria(a.(countType := Opposite(a.countType)), date)
  {
  }

  /** On a recorded day of the kind's own shape, exactly one of the two count types counts it. */
  lemma CountTypesAreComplementary(a: Activity, date: Date)
    requires date in a.history && WellTyped(a.kind, a.history[date].value)
    ensures CompletionCriteria(a, date) != CompletionCriteria(a.(countType := Opposite(a.countType)), date)
  {
  }

  /** The goal never decides whether a day counts. */
  lemma GoalDoesNotGateStreaks(a: Activity, date: Date, goal: int)
    ensures CompletionCriteria(a, date) == CompletionCriteria(a.(goal := goal), date)
  {
  }

  /** Today's card shows "completed" exactly when the day would count under count-if-done. */
  lemma CompletedIsCountIfDone(a: Activity, today: Date)
    requires today in a.history
    ensures IsCompleted(a, a.history[today].value) == CompletionCriteria(a.(countType := CountIfDone), today)
  {
  }

  /** With a positive goal, meeting the goal implies the card is completed. */
  lemma GoalMetImpliesCompleted(a: Activity, v: Val)
    requires a.goal > 0 && IsGoalMet(a, v)
    ensures IsCompleted(a, v)
  {
  }

  /** A quantity of 1 against a goal of 5 counts under count-if-done although the goal is not met. */
  lemma GoalIndependenceExample(a: Activity, today: Date)
    requires a.kind == Quantity && a.countType == CountIfDone && a.goal == 5
    requires today in a.history && a.history[today].value == N(1)
    ensures CompletionCriteria(a, today) && !IsGoalMet(a, a.history[today].value)
  {
  }

  // ---------------------------------------------------------------------------
  // Edits of today's record, as their net effect on one activity

  /** The value of the record at `d`, or `seed` when `d` has no record yet. */
  function ValueOr(h: map<Date, DayRecord>, d: Date, seed: Val): Val
  {
    if d in h then h[d].value else seed
  }

  /** `history` and `h` differ at most at `today`. */
  ghost predicate SameExceptOn(h: map<Date, DayRecord>, h': map<Date, DayRecord>, today: Date)
  {
    forall d :: d != today ==> (d in h <==> d in h') && (d in h ==> h[d] == h'[d])
  }

  /** toggleCompletion: seed a missing record with `false`, negate its value, set its notes. */
  function Toggled(a: Activity, today: Date, notes: string): (r: Activity)
    ensures today in r.history && r.history[today].notes == notes
    ensures r.history[today].value.B?
    ensures r.history[today].value.b <==> ToNumber(ValueOr(a.history, today, B(false))) == 0
    ensures SameExceptOn(a.history, r.history, today) && r == a.(history := r.history)
  {
    a.(history := a.history[today := DayRecord(Not(ValueOr(a.history, today, B(false))), notes)])
  }

  /** updateQuantity: a quantity that does not parse (None) or is negative changes nothing;
    * otherwise today's record holds the quantity and the notes. */
  function QuantityUpdated(a: Activity, today: Date, quantity: Wrappers.Option<int>, notes: string): (r: Activity)
    ensures quantity.None? || quantity.value < 0 ==> r == a
    ensures quantity.Some? && quantity.value >= 0 ==>
      today in r.history && r.history[today] == DayRecord(N(quantity.value), notes)
    ensures SameExceptOn(a.history, r.history, today) && r == a.(history := r.history)
  {
    if quantity.None? || quantity.value < 0 then a
    else a.(history := a.history[today := DayRecord(N(quantity.value), notes)])
  }

  /** saveNotes: seed a missing record with `{value: 0, notes: ""}`, then set its notes. */
  function NotesSaved(a: Activity, today: Date, notes: string): (r: Activity)
    ensures today in r.history && r.history[today].notes == notes
    ensures r.history[today].value == (if today in a.history then a.history[today].value else N(0))
    ensures SameExceptOn(a.history, r.history, today) && r == a.(history := r.history)
  {
    a.(history := a.history[today := DayRecord(ValueOr(a.history, today, N(0)), notes)])
  }

  /** The render-time initialisation: a missing record for today becomes `{value: 0, notes: ""}`. */
  function TodayInitialised(a: Activity, today: Date): (r: Activity)
    ensures today in r.history
    ensures today in a.history ==> r == a
    ensures today !in a.history ==> r.history[today] == DayRecord(N(0), "")
    ensures SameExceptOn(a.history, r.history, today) && r == a.(history := r.history)
  {
    if today in a.history then a
    else a.(history := a.history[today := DayRecord(N(0), "")])
  }

  /** Toggling a day without a record yields `true`. */
  lemma ToggleOfMissingDayIsTrue(a: Activity, today: Date, notes: string)
    requires today !in a.history
    ensures Toggled(a, today, notes).history[today] == DayRecord(B(true), notes)
  {
  }

  /** Toggling twice restores a boolean value; a seeded 0 becomes `true`, then `false`. */
  lemma ToggleTwice(a: Activity, today: Date, notes: string)
    ensures var v := ValueOr(a.history, today, B(false));
      v.B? ==> Toggled(Toggled(a, today, notes), today, notes).history[today].value == v
    ensures today in a.history && a.history[today].value == N(0) ==>
      Toggled(a, today, notes).history[today].value == B(true) &&
      Toggled(Toggled(a, today, notes), today, notes).history[today].value == B(false)
  {
  }

  /** updateQuantity applied twice with the same arguments is applied once. */
  lemma QuantityUpdateIdempotent(a: Activity, today: Date, quantity: Wrappers.Option<int>, notes: string)
    ensures QuantityUpdated(QuantityUpdated(a, today, quantity, notes), today, quantity, notes)
      == QuantityUpdated(a, today, quantity, notes)
  {
  }

  /** The render-time initialisation is idempotent: rendering twice seeds nothing more. */
  lemma TodayInitialisedIdempotent(a: Activity, today: Date)
    ensures TodayInitialised(TodayInitialised(a, today), today) == TodayInitialised(a, today)
  {
  }

}
