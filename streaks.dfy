/**
 * The streak engine: `calculateStreaks` recomputes an activity's longest streak by a counter
 * loop over its history dates in ascending order, and its current streak by a walk one
 * calendar day at a time backward from today.
 *
 * The two scans differ: the longest-streak scan steps from one recorded date to
 * the next, so a calendar gap between two records does not break a run, while the backward
 * walk stops at the first day that has no record.
 */
module Streaks {

  import opened Activities

  function Max(x: int, y: int): int
  {
    if x < y then y else x
  }

  // ---------------------------------------------------------------------------
  // The history dates in ascending order (`Object.keys(history).sort()`)

  /** `m` is the earliest date of `s`. */
  predicate IsEarliest(m: Date, s: set<Date>)
  {
    m in s && forall y :: y in s ==> m <= y
  }

  /** Some date of a non-empty set. */
  lemma SomeDate(s: set<Date>) returns (x: Date)
    requires s != {}
    ensures x in s
  {
    // Spelling out that the set has a member gives the verifier the witness the `:|` below
    // needs; without it the choice is proved only through the contradiction `s != {}` and
    // "no y is in s".
    if forall y :: y !in s {
      assert false;
    }
    x :| x in s;
  }

  /** Every non-empty finite set of dates has an earliest date. */
  lemma {:induction false} EarliestExists(s: set<Date>)
    requires s != {}
    ensures exists m :: IsEarliest(m, s)
    decreases |s|
  {
    var x := SomeDate(s);
    if s == {x} {
      assert IsEarliest(x, s);
    } else {
      EarliestExists(s - {x});
      var m :| IsEarliest(m, s - {x});
      forall y | y in s && y != x
        ensures m <= y
      {
        assert y in s - {x};
      }
      if x < m {
        assert IsEarliest(x, s);
      } else {
        assert IsEarliest(m, s);
      }
    }
  }

  /** The earliest date of a non-empty set. */
  function Earliest(s: set<Date>): (m: Date)
    requires s != {}
    ensures m in s && forall y :: y in s ==> m <= y
  {
    EarliestExists(s);
    var m :| IsEarliest(m, s); m
  }

  /** The dates of `s` in ascending order, each once. */
  function SortedDates(s: set<Date>): (ds: seq<Date>)
    ensures |ds| == |s|
    ensures forall i, j :: 0 <= i < j < |ds| ==> ds[i] < ds[j]
    ensures forall d :: d in ds <==> d in s
    decreases |s|
  {
    if s == {} then []
    else
      var m := Earliest(s);
      var rest := SortedDates(s - {m});
      assert forall j :: 0 <= j < |rest| ==> m < rest[j] by {
        forall j | 0 <= j < |rest| ensures m < rest[j] {
          assert rest[j] in s - {m};
        }
      }
      [m] + rest
  }

  /** The completion result of each date of `ds`, in the order of `ds`. */
  function PassesAt(a: Activity, ds: seq<Date>): (f: seq<bool>)
    ensures |f| == |ds|
    ensures forall i :: 0 <= i < |ds| ==> f[i] == CompletionCriteria(a, ds[i])
  {
    seq(|ds|, i requires 0 <= i < |ds| => CompletionCriteria(a, ds[i]))
  }

  /** The completion result of each history date, in ascending date order. */
  function Passes(a: Activity): (f: seq<bool>)
    ensures |f| == |a.history|
  {
    PassesAt(a, SortedDates(a.history.Keys))
  }

  // ---------------------------------------------------------------------------
  // Runs of passing entries (the longest-streak scan)

  /** Every entry of `f` in `[lo, hi)` passes. */
  ghost predicate AllPass(f: seq<bool>, lo: int, hi: int)
    requires 0 <= lo <= hi <= |f|
  {
    forall k :: lo <= k < hi ==> f[k]
  }

  /** The length of the run of passing entries that ends just before position `i`:
    * `streakInProgress` after the scan has seen `f[..i]`. */
  function TrailingRun(f: seq<bool>, i: nat): (n: nat)
    requires i <= |f|
    ensures n <= i
    ensures AllPass(f, i - n, i)
    ensures n < i ==> !f[i - n - 1]
  {
    if i == 0 || !f[i - 1] then 0 else TrailingRun(f, i - 1) + 1
  }

  /** The longest trailing run over all prefixes `f[..j]` with `j <= i`. */
  function LongestRun(f: seq<bool>, i: nat): (n: nat)
    requires i <= |f|
    ensures n <= i
    ensures TrailingRun(f, i) <= n
  {
    if i == 0 then 0 else Max(LongestRun(f, i - 1), TrailingRun(f, i))
  }

  /** `LongestRun(f, i)` is the length of the longest run of passing entries within `f[..i]`:
    * no run is longer, and one run has exactly that length. */
  lemma {:induction false} LongestRunIsMaximum(f: seq<bool>, i: nat)
    requires i <= |f|
    ensures forall lo, hi :: 0 <= lo <= hi <= i && AllPass(f, lo, hi) ==> hi - lo <= LongestRun(f, i)
    ensures exists lo, hi :: 0 <= lo <= hi <= i && hi - lo == LongestRun(f, i) && AllPass(f, lo, hi)
  {
    if i == 0 {
      assert AllPass(f, 0, 0);
    } else {
      LongestRunIsMaximum(f, i - 1);
      var n := TrailingRun(f, i);
      forall lo, hi | 0 <= lo <= hi <= i && AllPass(f, lo, hi)
        ensures hi - lo <= LongestRun(f, i)
      {
        if hi == i && n < i {
          assert !f[i - n - 1];
          assert i - n - 1 < lo;
        }
      }
      if LongestRun(f, i) == n {
        assert AllPass(f, i - n, i);
      } else {
        var lo, hi :| 0 <= lo <= hi <= i - 1 && hi - lo == LongestRun(f, i - 1) && AllPass(f, lo, hi);
        assert AllPass(f, lo, hi);
      }
    }
  }

  /** The longest streak: the longest run of passing entries in ascending date order. */
  function LongestStreak(a: Activity): (n: nat)
    ensures n <= |a.history|
  {
    LongestRun(Passes(a), |a.history|)
  }

  // ---------------------------------------------------------------------------
  // The backward walk (the current-streak scan)

  /** The dates of `h` up to and including `d`; the backward walk from `d` can only pass these. */
  function DatesUpTo(h: map<Date, DayRecord>, d: Date): set<Date>
  {
    set k | k in h && k <= d
  }

  /** A subset of a finite set has at most as many elements. */
  lemma {:induction false} SubsetCardinality(sub: set<Date>, s: set<Date>)
    requires sub <= s
    ensures |sub| <= |s|
    decreases sub
  {
    if sub != {} {
      var x := Earliest(sub);
      SubsetCardinality(sub - {x}, s - {x});
    }
  }

  /** One step back from a recorded day leaves one date fewer to walk over. */
  lemma DatesUpToShrinks(h: map<Date, DayRecord>, d: Date)
    requires d in h
    ensures |DatesUpTo(h, d - 1)| < |DatesUpTo(h, d)|
  {
    assert DatesUpTo(h, d) == DatesUpTo(h, d - 1) + {d};
  }

  lemma DatesUpToBounded(h: map<Date, DayRecord>, d: Date)
    ensures |DatesUpTo(h, d)| <= |h|
  {
    SubsetCardinality(DatesUpTo(h, d), h.Keys);
  }

  /** The number of consecutive calendar days `d`, `d - 1`, `d - 2`, ... that pass, stopping at the
    * first day that is absent or fails. */
  function RunBack(a: Activity, d: Date): (n: nat)
    ensures forall e :: d - n < e <= d ==> CompletionCriteria(a, e)
    ensures !CompletionCriteria(a, d - n)
    ensures n <= |DatesUpTo(a.history, d)|
    decreases |DatesUpTo(a.history, d)|
  {
    if CompletionCriteria(a, d) then
      DatesUpToShrinks(a.history, d);
      1 + RunBack(a, d - 1)
    else 0
  }

  /** The current streak on day `today`. */
  function CurrentStreak(a: Activity, today: Date): (n: nat)
    ensures n == 0 <==> !CompletionCriteria(a, today)
    ensures n <= |a.history|
  {
    DatesUpToBounded(a.history, today);
    RunBack(a, today)
  }

  /** What `calculateStreaks(a)` leaves in the activity when run on day `today`: with an empty
    * history it sets the current streak to 0 and returns early, keeping the longest streak. */
  function Recalculated(a: Activity, today: Date): (r: Activity)
    ensures r == a.(longestStreak := r.longestStreak, currentStreak := r.currentStreak)
    ensures r.currentStreak == CurrentStreak(a, today)
    ensures |a.history| > 0 ==> r.longestStreak == LongestStreak(a)
    ensures |a.history| == 0 ==> r.longestStreak == a.longestStreak
  {
    if |a.history| == 0 then a.(currentStreak := 0)
    else a.(longestStreak := LongestStreak(a), currentStreak := CurrentStreak(a, today))
  }

  // ---------------------------------------------------------------------------
  // calculateStreaks

  /** The counter loop of calculateStreaks over the dates in ascending order: `streakInProgress`
    * counts passing entries and is reset by a failing one, `longestStreak` keeps the largest
    * count seen. Calendar gaps between the dates play no part. */
  method ScanLongestStreak(a: Activity, historyDates: seq<Date>) returns (longestStreak: nat)
    ensures longestStreak == LongestRun(PassesAt(a, historyDates), |historyDates|)
    ensures longestStreak <= |historyDates|
  {
    var streakInProgress := 0;
    longestStreak := 0;
    ghost var f := PassesAt(a, historyDates);
    for i := 0 to |historyDates|
      invariant streakInProgress == TrailingRun(f, i)
      invariant Max(longestStreak, streakInProgress) == LongestRun(f, i)
    {
      if CompletionCriteria(a, historyDates[i]) {
        streakInProgress := streakInProgress + 1;
      } else {
        longestStreak := Max(longestStreak, streakInProgress);
        streakInProgress := 0;
      }
    }
    longestStreak := Max(longestStreak, streakInProgress);
    LongestRunIsMaximum(f, |f|);
  }

  /** The backward walk of calculateStreaks: 0 when today does not count, otherwise 1 plus one
    * for each calendar day before today that counts, stopping at the first that does not. */
  method WalkCurrentStreak(a: Activity, today: Date) returns (currentStreakCount: nat)
    ensures currentStreakCount == CurrentStreak(a, today)
    ensures currentStreakCount <= |a.history|
  {
    currentStreakCount := 0;
    if CompletionCriteria(a, today) {
      currentStreakCount := currentStreakCount + 1;
    } else {
      return;
    }

    var dateYesterday := today - 1;
    while CompletionCriteria(a, dateYesterday)
      invariant currentStreakCount + RunBack(a, dateYesterday) == RunBack(a, today)
      decreases |DatesUpTo(a.history, dateYesterday)|
    {
      DatesUpToShrinks(a.history, dateYesterday);
      currentStreakCount := currentStreakCount + 1;
      dateYesterday := dateYesterday - 1;
    }
    DatesUpToBounded(a.history, today);
  }

  /** calculateStreaks: with an empty history the current streak becomes 0 and the longest
    * streak is kept; otherwise both are recomputed. */
  method CalculateStreaks(a: Activity, today: Date) returns (r: Activity)
    ensures r == Recalculated(a, today)
    ensures 0 <= r.currentStreak <= |a.history|
    ensures |a.history| > 0 ==> 0 <= r.longestStreak <= |a.history|
    ensures |a.history| == 0 ==> r.longestStreak == a.longestStreak
  {
    var historyDates := SortedDates(a.history.Keys);
    if |historyDates| == 0 {
      r := a.(currentStreak := 0);
      return;
    }
    var longestStreak := ScanLongestStreak(a, historyDates);
    r := a.(longestStreak := longestStreak);
    var currentStreakCount := WalkCurrentStreak(a, today);
    r := r.(currentStreak := currentStreakCount);
  }

  // ---------------------------------------------------------------------------
  // Properties of the two streaks

  /** The longest streak is the length of the longest run of consecutive passing entries in
    * ascending date order, and lies between 0 and the number of history entries. */
  lemma LongestStreakIsLongestRun(a: Activity)
    ensures 0 <= LongestStreak(a) <= |a.history|
    ensures forall lo, hi :: 0 <= lo <= hi <= |a.history| && AllPass(Passes(a), lo, hi) ==>
      hi - lo <= LongestStreak(a)
    ensures exists lo, hi ::
      0 <= lo <= hi <= |a.history| && hi - lo == LongestStreak(a) && AllPass(Passes(a), lo, hi)
  {
    LongestRunIsMaximum(Passes(a), |a.history|);
  }

  /** The current streak is 0 exactly when today does not count (including when today has no
    * record); otherwise today and the `n - 1` calendar days before it count, the day before
    * those does not, and `1 <= n <= |history|`. */
  lemma CurrentStreakIsCalendarRun(a: Activity, today: Date)
    ensures CurrentStreak(a, today) == 0 <==> !CompletionCriteria(a, today)
    ensures today !in a.history ==> CurrentStreak(a, today) == 0
    ensures CompletionCriteria(a, today) ==> 1 <= CurrentStreak(a, today) <= |a.history|
    ensures forall d :: today - CurrentStreak(a, today) < d <= today ==> CompletionCriteria(a, d)
    ensures !CompletionCriteria(a, today - CurrentStreak(a, today))
  {
    DatesUpToBounded(a.history, today);
  }

  /** If every day from `first` through `today` counts and the day before `first` does not, the
    * current streak is the number of those days. */
  lemma CurrentStreakOfUnbrokenDays(a: Activity, first: Date, today: Date)
    requires first <= today
    requires forall d :: first <= d <= today ==> CompletionCriteria(a, d)
    requires !CompletionCriteria(a, first - 1)
    ensures CurrentStreak(a, today) == today - first + 1
  {
  }

  /** With an empty history both scans find nothing. */
  lemma EmptyHistory(a: Activity, today: Date)
    requires |a.history| == 0
    ensures Recalculated(a, today) == a.(currentStreak := 0)
    ensures LongestStreak(a) == 0 && CurrentStreak(a, today) == 0
  {
    assert a.history == map[];
  }

  /** Records on days 1 and 3 that both count, none on day 2, today being day 3: the entry scan
    * finds a longest streak of 2, the calendar walk a current streak of 1. */
  lemma GapBreaksOnlyCurrentStreak(a: Activity)
    requires a.kind == Boolean && a.countType == CountIfDone
    requires a.history == map[1 := DayRecord(B(true), ""), 3 := DayRecord(B(true), "")]
    ensures LongestStreak(a) == 2
    ensures CurrentStreak(a, 3) == 1
  {
    assert a.history.Keys == {1, 3};
    var ds := SortedDates(a.history.Keys);
    assert |ds| == 2 && 1 in ds && 3 in ds;
    assert ds == [1, 3];
    var f := Passes(a);
    assert f == PassesAt(a, [1, 3]);
    assert f[0] && f[1];
    assert TrailingRun(f, 2) == 2;
    LongestRunIsMaximum(f, 2);
    assert |a.history| == 2;
    assert CompletionCriteria(a, 3) && !CompletionCriteria(a, 2);
    assert RunBack(a, 2) == 0;
  }

  /** A boolean activity marked `false` today and on the three days before, with no record the
    * day before those: its current streak is 4 under count-if-not-done and 0 under count-if-done. */
  lemma CountIfNotDoneInversion(a: Activity, today: Date)
    requires a.kind == Boolean && a.countType == CountIfNotDone
    requires forall d :: today - 3 <= d <= today ==> d in a.history && a.history[d].value == B(false)
    requires today - 4 !in a.history
    ensures CurrentStreak(a, today) == 4
    ensures CurrentStreak(a.(countType := CountIfDone), today) == 0
  {
    CurrentStreakOfUnbrokenDays(a, today - 3, today);
  }

  /** The longest run is 0 exactly when no entry passes. */
  lemma LongestRunZeroIffNonePass(f: seq<bool>)
    ensures LongestRun(f, |f|) == 0 <==> forall k :: 0 <= k < |f| ==> !f[k]
  {
    LongestRunIsMaximum(f, |f|);
    if LongestRun(f, |f|) == 0 {
      forall k | 0 <= k < |f|
        ensures !f[k]
      {
        assert !AllPass(f, k, k + 1);
      }
    } else {
      var lo, hi :| 0 <= lo <= hi <= |f| && hi - lo == LongestRun(f, |f|) && AllPass(f, lo, hi);
      assert f[lo];
    }
  }

  /** The longest streak is 0 exactly when no history entry counts. */
  lemma LongestStreakZeroIffNoneCounts(a: Activity)
    ensures LongestStreak(a) == 0 <==> forall d :: d in a.history ==> !CompletionCriteria(a, d)
  {
    var ds := SortedDates(a.history.Keys);
    var f := PassesAt(a, ds);
    LongestRunZeroIffNonePass(f);
    if forall k :: 0 <= k < |f| ==> !f[k] {
      forall d | d in a.history
        ensures !CompletionCriteria(a, d)
      {
        var k :| 0 <= k < |ds| && ds[k] == d;
        assert !f[k];
      }
    } else {
      var k :| 0 <= k < |f| && f[k];
      assert ds[k] in a.history && CompletionCriteria(a, ds[k]);
    }
  }

  /** The two streaks depend only on the kind, the count type and the history, never on the
    * cached streak values or the other fields. */
  lemma StreaksIgnoreOtherFields(a: Activity, b: Activity, today: Date)
    requires a.kind == b.kind && a.countType == b.countType && a.history == b.history
    ensures LongestStreak(a) == LongestStreak(b)
    ensures CurrentStreak(a, today) == CurrentStreak(b, today)
  {
    assert forall d :: CompletionCriteria(a, d) == CompletionCriteria(b, d);
    assert Passes(a) == Passes(b);
  }

  /** After a recalculation the cached streaks are the streaks of the recalculated activity, on
    * condition that an empty history already had a longest streak of 0. */
  lemma RecalculatedIsFresh(a: Activity, today: Date)
    requires |a.history| > 0 || a.longestStreak == 0
    ensures Recalculated(a, today).longestStreak == LongestStreak(Recalculated(a, today))
    ensures Recalculated(a, today).currentStreak == CurrentStreak(Recalculated(a, today), today)
  {
    StreaksIgnoreOtherFields(a, Recalculated(a, today), today);
  }
}
