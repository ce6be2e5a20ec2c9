/** Consequences of the first-fit rule for particular shapes of input: the
 *  empty state, a free preferred slot, two tasks wanting the same slot, and
 *  a week filled with all-day tasks.
 */
module Scenarios {
  import opened Time
  import opened Schedule

  /** On the empty state a task goes to its preferred start on Monday,
   *  whatever its duration. */
  lemma PlaceOnEmpty(a: Task)
    ensures Place([], a) == [Candidate(a, 0)]
    ensures Candidate(a, 0).start == PreferredStart(a)
    ensures Weekday(Candidate(a, 0).start) == 0
    ensures HourOf(Candidate(a, 0).start) == a.startHour
    ensures MinuteOf(Candidate(a, 0).start) == a.startMinute
  {
    assert IsFirstFit([], a, 0);
  }

  /** When the preferred slot overlaps nothing, the task is placed there. */
  lemma PreferredSlotWins(s: State, a: Task)
    requires !Conflicts(s, Candidate(a, 0))
    ensures Place(s, a) == s + [Candidate(a, 0)]
    ensures Place(s, a)[|s|].start == PreferredStart(a)
  {
    assert IsFirstFit(s, a, 0);
    var d :| IsFirstFit(s, a, d) && Place(s, a) == s + [Candidate(a, d)];
    FirstFitUnique(s, a, d, 0);
  }

  /** A single task at 09:00 for three hours lands on Monday 09:00. */
  lemma SingleTaskAtNine(id: TaskId, name: string)
    ensures Place([], Task(id, name, 9, 0, 3)) == [Placement(id, 540, 3)]
  {
    PlaceOnEmpty(Task(id, name, 9, 0, 3));
  }

  /** Two tasks both wanting Monday 09:00-11:00: the second moves to
   *  Tuesday 09:00-11:00. */
  lemma SameSlotMovesToNextDay(idA: TaskId, idB: TaskId)
    ensures Place(Place([], Task(idA, "A", 9, 0, 2)), Task(idB, "B", 9, 0, 2))
            == [Placement(idA, 540, 2), Placement(idB, 1980, 2)]
  {
    var a := Task(idA, "A", 9, 0, 2);
    var b := Task(idB, "B", 9, 0, 2);
    var s := Place([], a);
    PlaceOnEmpty(a);
    assert s == [Placement(idA, 540, 2)];
    assert Overlaps(Candidate(b, 0), s[0]);
    assert IsFirstFit(s, b, 1);
    var d :| IsFirstFit(s, b, d) && Place(s, b) == s + [Candidate(b, d)];
    FirstFitUnique(s, b, d, 1);
  }

  /** A task starting at 00:00 that lasts 24 hours fills one whole day. */
  predicate AllDay(t: Task)
  {
    t.startHour == 0 && t.startMinute == 0 && t.duration == 24
  }

  /** The first `k` days of the week are each filled by one all-day
   *  placement, in day order. */
  predicate DaysFilled(s: State, k: int)
  {
    0 <= k <= |s| &&
    forall i :: 0 <= i < k ==> s[i].start == i * MinutesPerDay && s[i].duration == 24
  }

  /** With days 0..k-1 filled, an all-day task takes day k. */
  lemma AllDayTakesNextDay(s: State, a: Task, k: int)
    requires 0 <= k < OffsetsTried && |s| == k && DaysFilled(s, k) && AllDay(a)
    ensures Place(s, a) == s + [Candidate(a, k)]
    ensures DaysFilled(Place(s, a), k + 1)
  {
    forall e | 0 <= e < k
      ensures Conflicts(s, Candidate(a, e))
    {
      assert Overlaps(Candidate(a, e), s[e]);
    }
    assert !Conflicts(s, Candidate(a, k));
    assert IsFirstFit(s, a, k);
    var d :| IsFirstFit(s, a, d) && Place(s, a) == s + [Candidate(a, d)];
    FirstFitUnique(s, a, d, k);
  }

  /** Once all seven days are filled, no task of positive duration fits:
   *  every offset conflicts and the state is returned unchanged. */
  lemma FullWeekRejects(s: State, a: Task)
    requires DaysFilled(s, OffsetsTried) && a.duration >= 1
    ensures forall e :: 0 <= e < OffsetsTried ==> Conflicts(s, Candidate(a, e))
    ensures Place(s, a) == s
  {
    forall e | 0 <= e < OffsetsTried
      ensures Conflicts(s, Candidate(a, e))
    {
      assert Overlaps(Candidate(a, e), s[e]);
    }
  }

  /** `result` applied to each task of `ts` in turn, starting from `s`. */
  function PlaceInOrder(s: State, ts: seq<Task>): State
    decreases |ts|
  {
    if ts == [] then s else PlaceInOrder(Place(s, ts[0]), ts[1..])
  }

  /** Placing `k` all-day tasks one after another fills days 0..k-1. */
  lemma {:induction false} AllDayTasksFillDays(ts: seq<Task>, s: State, k: int)
    requires 0 <= k && k + |ts| <= OffsetsTried
    requires |s| == k && DaysFilled(s, k)
    requires forall i :: 0 <= i < |ts| ==> AllDay(ts[i])
    ensures |PlaceInOrder(s, ts)| == k + |ts|
    ensures DaysFilled(PlaceInOrder(s, ts), k + |ts|)
    decreases |ts|
  {
    if ts != [] {
      AllDayTakesNextDay(s, ts[0], k);
      AllDayTasksFillDays(ts[1..], Place(s, ts[0]), k + 1);
    }
  }

  /** Seven all-day tasks placed one after another fill the week, and an
   *  eighth conflicts on every day. */
  lemma SevenAllDayTasksFillWeek(ts: seq<Task>)
    requires |ts| == 8 && forall i :: 0 <= i < 8 ==> AllDay(ts[i])
    ensures DaysFilled(PlaceInOrder([], ts[..7]), 7)
    ensures |PlaceInOrder([], ts[..7])| == 7
    ensures forall e :: 0 <= e < OffsetsTried ==>
              Conflicts(PlaceInOrder([], ts[..7]), Candidate(ts[7], e))
    ensures Place(PlaceInOrder([], ts[..7]), ts[7]) == PlaceInOrder([], ts[..7])
  {
    AllDayTasksFillDays(ts[..7], [], 0);
    FullWeekRejects(PlaceInOrder([], ts[..7]), ts[7]);
  }

  /** Eight all-day tasks: the first seven take Monday to Sunday, the eighth
   *  is not placed, so placing all eight gives the same seven placements. */
  lemma EighthAllDayTaskRejected(ts: seq<Task>)
    requires |ts| == 8 && forall i :: 0 <= i < 8 ==> AllDay(ts[i])
    ensures PlaceInOrder([], ts) == PlaceInOrder([], ts[..7])
    ensures |PlaceInOrder([], ts)| == 7
  {
    SevenAllDayTasksFillWeek(ts);
    assert ts == ts[..7] + [ts[7]];
    PlaceInOrderRejectedLast([], ts[..7], ts[7]);
  }

  /** A last task that is rejected leaves the outcome of the earlier ones. */
  lemma PlaceInOrderRejectedLast(s: State, xs: seq<Task>, t: Task)
    requires Place(PlaceInOrder(s, xs), t) == PlaceInOrder(s, xs)
    ensures PlaceInOrder(s, xs + [t]) == PlaceInOrder(s, xs)
  {
    PlaceInOrderSplit(s, xs, [t]);
    assert [t][1..] == [];
  }

  lemma {:induction false} PlaceInOrderSplit(s: State, xs: seq<Task>, ys: seq<Task>)
    ensures PlaceInOrder(s, xs + ys) == PlaceInOrder(PlaceInOrder(s, xs), ys)
    decreases |xs|
  {
    if xs != [] {
      assert (xs + ys)[1..] == xs[1..] + ys;
      PlaceInOrderSplit(Place(s, xs[0]), xs[1..], ys);
    } else {
      assert xs + ys == ys;
    }
  }
}
