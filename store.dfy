/**
 * The in-memory activity store: the page's `activities` array and the handlers that change
 * it. The handlers' reads of form fields, the notes textarea, the quantity input and the clock
 * are parameters here: `today` is the current day number, `quantity` is the parsed quantity
 * (None when it does not parse), `freshId` stands for `Date.now()`.
 */
module Store {

  import opened Wrappers
  import opened Activities
  import opened Streaks

  // ---------------------------------------------------------------------------
  // Lookup and the list operations, as functions of the activity list

  /** `activities.find(a => a.id === id)`: the index of the first activity with that id. */
  function FindIndex(acts: seq<Activity>, id: int): (r: Option<nat>)
    ensures r.Some? ==> r.value < |acts| && acts[r.value].id == id
    ensures r.Some? ==> forall j :: 0 <= j < r.value ==> acts[j].id != id
    ensures r.None? <==> forall j :: 0 <= j < |acts| ==> acts[j].id != id
  {
    if |acts| == 0 then None
    else if acts[0].id == id then Some(0)
    else
      match FindIndex(acts[1..], id)
      case None => None
      case Some(i) => Some(i + 1)
  }

  /** No two activities share an id. */
  ghost predicate UniqueIds(acts: seq<Activity>)
  {
    forall i, j :: 0 <= i < j < |acts| ==> acts[i].id != acts[j].id
  }

  /** Both cached streaks lie between 0 and the number of history entries; in particular an
    * activity with an empty history has both streaks 0. */
  predicate StreaksBounded(a: Activity)
  {
    0 <= a.currentStreak <= |a.history| && 0 <= a.longestStreak <= |a.history|
  }

  /** `activities.filter(a => a.id !== id)`. */
  function Without(acts: seq<Activity>, id: int): (r: seq<Activity>)
    ensures |r| <= |acts|
    ensures forall a :: a in r <==> a in acts && a.id != id
  {
    if |acts| == 0 then []
    else (if acts[0].id == id then [] else [acts[0]]) + Without(acts[1..], id)
  }

  /** The filter works element by element: filtering a concatenation filters each part, so the
    * activities kept stay in their original order. */
  lemma {:induction false} WithoutDistributes(xs: seq<Activity>, ys: seq<Activity>, id: int)
    ensures Without(xs + ys, id) == Without(xs, id) + Without(ys, id)
    decreases |xs|
  {
    if |xs| == 0 {
      assert xs + ys == ys;
    } else {
      assert (xs + ys)[1..] == xs[1..] + ys;
      WithoutDistributes(xs[1..], ys, id);
    }
  }

  /** Deleting an id no activity has is a no-op. */
  lemma {:induction false} WithoutAbsentIsIdentity(acts: seq<Activity>, id: int)
    requires forall a :: a in acts ==> a.id != id
    ensures Without(acts, id) == acts
    decreases |acts|
  {
    if |acts| > 0 {
      assert acts[0] in acts;
      WithoutAbsentIsIdentity(acts[1..], id);
      assert acts == [acts[0]] + acts[1..];
    }
  }

  /** Deleting twice is deleting once. */
  lemma WithoutIdempotent(acts: seq<Activity>, id: int)
    ensures Without(Without(acts, id), id) == Without(acts, id)
  {
    WithoutAbsentIsIdentity(Without(acts, id), id);
  }

  /** Deleting keeps ids unique. */
  lemma {:induction false} WithoutKeepsUniqueIds(acts: seq<Activity>, id: int)
    requires UniqueIds(acts)
    ensures UniqueIds(Without(acts, id))
    decreases |acts|
  {
    if |acts| > 0 {
      var rest := Without(acts[1..], id);
      WithoutKeepsUniqueIds(acts[1..], id);
      forall a | a in rest
        ensures a.id != acts[0].id
      {
        var k :| 0 <= k < |acts[1..]| && acts[1..][k] == a;
        assert acts[k + 1] == a;
      }
    }
  }

  /** The activity a new submission creates: empty history, both streaks 0. */
  function NewActivity(id: int, name: string, kind: Kind, countType: CountType, goal: int): (r: Activity)
    ensures r.id == id && r.name == name && r.kind == kind && r.countType == countType && r.goal == goal
    ensures StreaksBounded(r) && LongestStreak(r) == r.longestStreak
    ensures forall today :: CurrentStreak(r, today) == r.currentStreak
  {
    Activity(id, name, kind, countType, goal, map[], 0, 0)
  }

  /** The edit branch of the form: the first activity with the id gets the new name, type, count
    * type and goal; its history and streaks stay. An unknown id changes nothing. */
  function Updated(acts: seq<Activity>, id: int, name: string, kind: Kind, countType: CountType, goal: int): (r: seq<Activity>)
    ensures |r| == |acts|
    ensures forall j :: 0 <= j < |acts| ==>
      r[j].id == acts[j].id && r[j].history == acts[j].history &&
      r[j].currentStreak == acts[j].currentStreak && r[j].longestStreak == acts[j].longestStreak
    ensures forall j :: 0 <= j < |acts| && acts[j].id != id ==> r[j] == acts[j]
    ensures FindIndex(acts, id).Some? ==>
      var i := FindIndex(acts, id).value;
      r[i].name == name && r[i].kind == kind && r[i].countType == countType && r[i].goal == goal
  {
    match FindIndex(acts, id)
    case None => acts
    case Some(i) => acts[i := acts[i].(name := name, kind := kind, countType := countType, goal := goal)]
  }

  /** `if (editingActivityId)`: the id of the activity being edited, when there is one and it is
    * truthy (an id of 0 is falsy and takes the create branch). */
  predicate IsEditing(editingId: Option<int>)
    ensures editingId.None? ==> !IsEditing(editingId)
    ensures editingId == Some(0) ==> !IsEditing(editingId)
    ensures editingId.Some? && editingId.value != 0 ==> IsEditing(editingId)
  {
    editingId.Some? && editingId.value != 0
  }

  /** The form submission: an empty (trimmed) name changes nothing; with an activity being edited
    * it is updated, otherwise a new one is appended. */
  function Submitted(acts: seq<Activity>, editingId: Option<int>, name: string, kind: Kind,
                     countType: CountType, goal: int, freshId: int): (r: seq<Activity>)
    ensures |acts| <= |r| <= |acts| + 1
    ensures |r| == |acts| + 1 <==> name != "" && !IsEditing(editingId)
    ensures forall j :: 0 <= j < |acts| ==> r[j].id == acts[j].id && r[j].history == acts[j].history
  {
    if name == "" then acts
    else if IsEditing(editingId) then Updated(acts, editingId.value, name, kind, countType, goal)
    else acts + [NewActivity(freshId, name, kind, countType, goal)]
  }

  /** An empty name changes nothing. */
  lemma EmptyNameChangesNothing(acts: seq<Activity>, editingId: Option<int>, kind: Kind,
                                countType: CountType, goal: int, freshId: int)
    ensures Submitted(acts, editingId, "", kind, countType, goal, freshId) == acts
  {
  }

  /** Creating appends exactly one activity, at the end, with the given fields, an empty history
    * and both streaks 0; the existing activities are unchanged. */
  lemma CreateAppendsOne(acts: seq<Activity>, name: string, kind: Kind, countType: CountType,
                         goal: int, freshId: int)
    requires name != ""
    ensures var r := Submitted(acts, None, name, kind, countType, goal, freshId);
      |r| == |acts| + 1 && r[..|acts|] == acts &&
      r[|acts|].id == freshId && r[|acts|].name == name && r[|acts|].kind == kind &&
      r[|acts|].countType == countType && r[|acts|].goal == goal &&
      r[|acts|].history == map[] && r[|acts|].currentStreak == 0 && r[|acts|].longestStreak == 0
  {
    var r := Submitted(acts, None, name, kind, countType, goal, freshId);
    assert r[..|acts|] == acts;
  }

  /** Updating overwrites name, type, count type and goal of the activity `find` returns and
    * nothing else; an unknown id changes nothing; an id of 0 creates instead. */
  lemma UpdateChangesOnlyDescription(acts: seq<Activity>, id: int, name: string, kind: Kind,
                                     countType: CountType, goal: int, freshId: int)
    requires name != ""
    ensures id != 0 ==>
      var r := Submitted(acts, Some(id), name, kind, countType, goal, freshId);
      |r| == |acts| &&
      (forall j :: 0 <= j < |acts| && acts[j].id != id ==> r[j] == acts[j]) &&
      (forall j :: 0 <= j < |acts| && acts[j].id == id ==>
         r[j].history == acts[j].history && r[j].id == id &&
         r[j].currentStreak == acts[j].currentStreak && r[j].longestStreak == acts[j].longestStreak)
    ensures id != 0 && FindIndex(acts, id).Some? ==>
      var r := Submitted(acts, Some(id), name, kind, countType, goal, freshId);
      var i := FindIndex(acts, id).value;
      r[i].name == name && r[i].kind == kind && r[i].countType == countType && r[i].goal == goal
    ensures id != 0 && (forall a :: a in acts ==> a.id != id) ==>
      Submitted(acts, Some(id), name, kind, countType, goal, freshId) == acts
    ensures id == 0 ==>
      Submitted(acts, Some(id), name, kind, countType, goal, freshId) ==
      Submitted(acts, None, name, kind, countType, goal, freshId)
  {
  }

  /** `acts` with the activity `find` returns for `id` replaced by `edit` of it: every other
    * activity, and the list's length, stay as they were; with no such activity nothing changes. */
  function EditFirst(acts: seq<Activity>, id: int, edit: Activity -> Activity): (r: seq<Activity>)
    ensures |r| == |acts|
    ensures forall j :: 0 <= j < |acts| && acts[j].id != id ==> r[j] == acts[j]
    ensures (forall a :: a in acts ==> a.id != id) ==> r == acts
    ensures FindIndex(acts, id).Some? ==> r[FindIndex(acts, id).value] == edit(acts[FindIndex(acts, id).value])
  {
    match FindIndex(acts, id)
    case None => acts
    case Some(i) =>
      assert acts[i] in acts;
      acts[i := edit(acts[i])]
  }

  /** A day-log edit that keeps the id and the streaks and only adds or overwrites history
    * records keeps the streak bounds. */
  lemma HistoryGrowthKeepsBounds(a: Activity, a': Activity)
    requires StreaksBounded(a)
    requires a'.currentStreak == a.currentStreak && a'.longestStreak == a.longestStreak
    requires a.history.Keys <= a'.history.Keys
    ensures StreaksBounded(a')
  {
    SubsetCardinality(a.history.Keys, a'.history.Keys);
  }

  /** Replacing one activity by one with the same id and bounded streaks keeps the store's
    * invariant. */
  lemma ReplaceKeepsInvariant(acts: seq<Activity>, i: nat, x: Activity)
    requires i < |acts| && UniqueIds(acts) && forall a :: a in acts ==> StreaksBounded(a)
    requires x.id == acts[i].id && StreaksBounded(x)
    ensures UniqueIds(acts[i := x]) && forall a :: a in acts[i := x] ==> StreaksBounded(a)
  {
    forall a | a in acts[i := x]
      ensures StreaksBounded(a)
    {
      var j :| 0 <= j < |acts| && acts[i := x][j] == a;
      if j != i {
        assert acts[j] in acts;
      }
    }
  }

  /** What a render leaves in one activity: its record for today created if it was missing
    * (renderTodaysActivities), then its streaks recalculated (renderStreaks). Only history and
    * streaks change, and the cached streaks are then the activity's own streaks. */
  function RenderedOne(a: Activity, today: Date): (r: Activity)
    ensures r == a.(history := r.history, longestStreak := r.longestStreak, currentStreak := r.currentStreak)
    ensures r.history == TodayInitialised(a, today).history
    ensures r.longestStreak == LongestStreak(r) && r.currentStreak == CurrentStreak(r, today)
    ensures StreaksBounded(r)
  {
    RecalculatedIsFresh(TodayInitialised(a, today), today);
    Recalculated(TodayInitialised(a, today), today)
  }

  /** A render of the whole list, activity by activity: the list keeps its length and order. */
  function Rendered(acts: seq<Activity>, today: Date): (r: seq<Activity>)
    ensures |r| == |acts|
    ensures forall j :: 0 <= j < |acts| ==> r[j] == RenderedOne(acts[j], today)
  {
    seq(|acts|, j requires 0 <= j < |acts| => RenderedOne(acts[j], today))
  }

  /** A second render changes nothing: today's record is already there and the cached streaks
    * are already the activity's own. */
  lemma RenderIdempotent(acts: seq<Activity>, today: Date)
    ensures Rendered(Rendered(acts, today), today) == Rendered(acts, today)
  {
    var r := Rendered(acts, today);
    forall j | 0 <= j < |acts|
      ensures RenderedOne(r[j], today) == r[j]
    {
      assert TodayInitialised(r[j], today) == r[j];
    }
  }

  // ---------------------------------------------------------------------------
  // The store

  class ActivityStore {

    /** The page's `activities` array. */
    var activities: seq<Activity>

    /** Ids are unique and every cached streak lies within its history's size. */
    ghost predicate Valid()
      reads this
    {
      UniqueIds(activities) && forall a :: a in activities ==> StreaksBounded(a)
    }

    /** The ids in use. */
    function Ids(): set<int>
      reads this
    {
      set a | a in activities :: a.id
    }

    /** The first run: nothing stored yet. */
    constructor ()
      ensures Valid() && activities == []
    {
      activities := [];
    }

    /** The add/edit form's submit handler, ending with the page's full re-render. */
    method SubmitForm(editingId: Option<int>, name: string, kind: Kind, countType: CountType,
                      goal: int, freshId: int, today: Date)
      requires Valid()
      requires freshId !in Ids()
      modifies this
      ensures Valid()
      ensures name == "" ==> activities == old(activities)
      ensures name != "" ==>
        activities == Rendered(Submitted(old(activities), editingId, name, kind, countType, goal, freshId), today)
    {
      if name == "" {
        return;
      }
      if IsEditing(editingId) {
        var i := FindIndex(activities, editingId.value);
        if i.Some? {
          var activityToUpdate := activities[i.value];
          activityToUpdate := activityToUpdate.(name := name);
          activityToUpdate := activityToUpdate.(kind := kind);
          activityToUpdate := activityToUpdate.(countType := countType);
          activityToUpdate := activityToUpdate.(goal := goal);
          assert activities[i.value] in activities;
          ReplaceKeepsInvariant(activities, i.value, activityToUpdate);
          activities := activities[i.value := activityToUpdate];
        }
      } else {
        var newActivity := NewActivity(freshId, name, kind, countType, goal);
        assert forall a :: a in activities ==> a.id in Ids();
        activities := activities + [newActivity];
      }
      Refresh(today);
    }

    /** deleteActivity: keep every activity whose id differs, then re-render. */
    method DeleteActivity(id: int, today: Date)
      requires Valid()
      modifies this
      ensures Valid()
      ensures activities == Rendered(Without(old(activities), id), today)
      ensures id !in Ids()
    {
      WithoutKeepsUniqueIds(activities, id);
      activities := Without(activities, id);
      Refresh(today);
      forall a | a in activities
        ensures a.id != id
      {
        var j :| 0 <= j < |activities| && activities[j] == a;
        assert Without(old(activities), id)[j] in Without(old(activities), id);
      }
    }

    /** toggleCompletion: create a missing record for today as `{value: false, notes}`, negate its
      * value and set its notes, then re-render today's cards and the streaks. An unknown id
      * returns before the re-render. */
    method ToggleCompletion(id: int, today: Date, notes: string)
      requires Valid()
      modifies this
      ensures Valid()
      ensures FindIndex(old(activities), id).None? ==> activities == old(activities)
      ensures FindIndex(old(activities), id).Some? ==>
        activities == Rendered(EditFirst(old(activities), id, a => Toggled(a, today, notes)), today)
    {
      var found := FindIndex(activities, id);
      if found.None? {
        return;
      }
      var i := found.value;
      var activity := activities[i];
      var history := activity.history;
      if today !in history {
        history := history[today := DayRecord(B(false), notes)];
      }
      history := history[today := history[today].(value := Not(history[today].value))];
      history := history[today := history[today].(notes := notes)];
      assert history == Toggled(activity, today, notes).history;
      assert activity in activities;
      HistoryGrowthKeepsBounds(activity, activity.(history := history));
      ReplaceKeepsInvariant(activities, i, activity.(history := history));
      activities := activities[i := activity.(history := history)];
      Refresh(today);
    }

    /** updateQuantity: an unknown id, or a quantity that does not parse or is negative, changes
      * nothing and skips the re-render; otherwise create a missing record as `{value: 0, notes}`,
      * set its value and notes, then re-render today's cards and the streaks. */
    method UpdateQuantity(id: int, today: Date, quantity: Option<int>, notes: string)
      requires Valid()
      modifies this
      ensures Valid()
      ensures FindIndex(old(activities), id).None? || quantity.None? || quantity.value < 0 ==>
        activities == old(activities)
      ensures FindIndex(old(activities), id).Some? && quantity.Some? && quantity.value >= 0 ==>
        activities == Rendered(EditFirst(old(activities), id, a => QuantityUpdated(a, today, quantity, notes)), today)
    {
      var found := FindIndex(activities, id);
      if found.None? {
        return;
      }
      var i := found.value;
      var activity := activities[i];
      if quantity.None? || quantity.value < 0 {
        return;
      }
      var history := activity.history;
      if today !in history {
        history := history[today := DayRecord(N(0), notes)];
      }
      history := history[today := history[today].(value := N(quantity.value))];
      history := history[today := history[today].(notes := notes)];
      assert history == QuantityUpdated(activity, today, quantity, notes).history;
      assert activity in activities;
      HistoryGrowthKeepsBounds(activity, activity.(history := history));
      ReplaceKeepsInvariant(activities, i, activity.(history := history));
      activities := activities[i := activity.(history := history)];
      Refresh(today);
    }

    /** saveNotes: create a missing record as `{value: 0, notes: ""}`, then set its notes. The page
      * re-renders only the history table afterwards, so the streaks are not recalculated. */
    method SaveNotes(id: int, today: Date, notes: string)
      requires Valid()
      modifies this
      ensures Valid()
      ensures activities == EditFirst(old(activities), id, a => NotesSaved(a, today, notes))
    {
      var found := FindIndex(activities, id);
      if found.None? {
        return;
      }
      var i := found.value;
      var activity := activities[i];
      var history := activity.history;
      if today !in history {
        history := history[today := DayRecord(N(0), "")];
      }
      history := history[today := history[today].(notes := notes)];
      assert history == NotesSaved(activity, today, notes).history;
      assert activity in activities;
      HistoryGrowthKeepsBounds(activity, activity.(history := history));
      ReplaceKeepsInvariant(activities, i, activity.(history := history));
      activities := activities[i := activity.(history := history)];
    }

    /** The loop at the head of renderTodaysActivities: every activity without a record for today
      * gets `{value: 0, notes: ""}`. */
    method InitTodayRecords(today: Date)
      requires Valid()
      modifies this
      ensures Valid()
      ensures |activities| == |old(activities)|
      ensures forall j :: 0 <= j < |activities| ==> activities[j] == TodayInitialised(old(activities)[j], today)
    {
      ghost var before := activities;
      for i := 0 to |activities|
        invariant |activities| == |before|
        invariant forall j :: 0 <= j < i ==> activities[j] == TodayInitialised(before[j], today)
        invariant forall j :: i <= j < |activities| ==> activities[j] == before[j]
      {
        var activity := activities[i];
        if today !in activity.history {
          activity := activity.(history := activity.history[today := DayRecord(N(0), "")]);
          activities := activities[i := activity];
        }
      }
      forall a | a in activities
        ensures StreaksBounded(a)
      {
        var j :| 0 <= j < |activities| && activities[j] == a;
        assert before[j] in before;
        HistoryGrowthKeepsBounds(before[j], a);
      }
    }

    /** The loop of renderStreaks: calculateStreaks on every activity, in order. */
    method RecalculateStreaks(today: Date)
      requires Valid()
      modifies this
      ensures Valid()
      ensures |activities| == |old(activities)|
      ensures forall j :: 0 <= j < |activities| ==> activities[j] == Recalculated(old(activities)[j], today)
    {
      ghost var before := activities;
      for i := 0 to |activities|
        invariant |activities| == |before|
        invariant forall j :: 0 <= j < i ==> activities[j] == Recalculated(before[j], today)
        invariant forall j :: i <= j < |activities| ==> activities[j] == before[j]
      {
        var activity := CalculateStreaks(activities[i], today);
        activities := activities[i := activity];
      }
      forall a | a in activities
        ensures StreaksBounded(a)
      {
        var j :| 0 <= j < |activities| && activities[j] == a;
        assert before[j] in before;
        assert StreaksBounded(before[j]);
        CalculateStreaksBounds(before[j], today);
      }
    }

    /** What a render leaves in the store (renderAll, or renderTodaysActivities followed by
      * renderStreaks): today's records initialised, then the streaks recalculated. */
    method Refresh(today: Date)
      requires Valid()
      modifies this
      ensures Valid()
      ensures activities == Rendered(old(activities), today)
    {
      InitTodayRecords(today);
      RecalculateStreaks(today);
    }
  }

  /** Recalculating keeps the streak bounds: with an empty history the kept longest streak was
    * already 0. */
  lemma CalculateStreaksBounds(a: Activity, today: Date)
    requires StreaksBounded(a)
    ensures StreaksBounded(Recalculated(a, today))
  {
    LongestStreakIsLongestRun(a);
    CurrentStreakIsCalendarRun(a, today);
  }
}
