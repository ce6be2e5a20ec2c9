/** The weekly placement problem: which tasks are still to be placed, how one
 *  task is placed (first day offset whose interval overlaps nothing), when a
 *  state is a goal, and the score that orders the search.
 */
module Schedule {
  import opened Time

  /** Opaque identifier of a task; only compared for equality. */
  type TaskId = string

  /** A task record: its preferred "HH:MM" start, already parsed into its two
   *  fields, and its duration in whole hours. `add_task` takes the duration
   *  as `int(...)` of the input text and never checks its sign. */
  datatype Task = Task(id: TaskId, name: string, startHour: Hour, startMinute: Minute, duration: int)

  /** One placed task: `(id, start, duration)`. */
  datatype Placement = Placement(id: TaskId, start: Timestamp, duration: int)

  /** A state lists the placements in the order they were made. */
  type State = seq<Placement>

  datatype Option<T> = None | Some(value: T)

  /** `range(7)`: day offsets 0..6 are tried. */
  const OffsetsTried: int := 7

  /** "23:59" on day 6 (Sunday), the end of the weekly window. */
  const WeekEnd: Timestamp := AddDays(ParseTime(23, 59), 6)

  function PreferredStart(t: Task): Timestamp
  {
    ParseTime(t.startHour, t.startMinute)
  }

  function End(p: Placement): Timestamp
  {
    p.start + Hours(p.duration)
  }

  /** Minute `m` lies in the half-open interval `[start, end)` of `p`. */
  predicate Covers(p: Placement, m: int)
  {
    p.start <= m < End(p)
  }

  /** The conflict test of `result`, exactly as the code writes it. It does
   *  not depend on the order of its arguments. */
  predicate Overlaps(c: Placement, e: Placement): (b: bool)
    ensures b <==> !(e.start >= End(c) || End(e) <= c.start)
  {
    !(c.start >= End(e) || End(c) <= e.start)
  }

  /** For tasks of positive duration, the conflict test holds exactly when
   *  the two intervals share a minute. */
  lemma OverlapsIffSharedMinute(c: Placement, e: Placement)
    requires c.duration > 0 && e.duration > 0
    ensures Overlaps(c, e) <==> exists m :: Covers(c, m) && Covers(e, m)
  {
    if Overlaps(c, e) {
      var m := if c.start >= e.start then c.start else e.start;
      assert Covers(c, m) && Covers(e, m);
    }
  }

  /** The placement tried for task `a` at day offset `d`. */
  function Candidate(a: Task, d: int): (c: Placement)
    ensures c.id == a.id && c.duration == a.duration
    ensures DayIndex(c.start) == d && TimeOfDay(c.start) == PreferredStart(a)
  {
    Placement(a.id, AddDays(PreferredStart(a), d), a.duration)
  }

  /** Some placement of `s` overlaps `c`. */
  predicate Conflicts(s: State, c: Placement)
  {
    exists i :: 0 <= i < |s| && Overlaps(c, s[i])
  }

  /** No two placements of the state overlap. */
  predicate Disjoint(s: State)
  {
    forall i, j :: 0 <= i < |s| && 0 <= j < |s| && i != j ==> !Overlaps(s[i], s[j])
  }

  predicate Distinct<T(==)>(xs: seq<T>)
  {
    forall i, j :: 0 <= i < j < |xs| ==> xs[i] != xs[j]
  }

  /** `[s[0] for s in state]`. */
  function PlacedIds(s: State): seq<TaskId>
  {
    seq(|s|, i requires 0 <= i < |s| => s[i].id)
  }

  /** The set of ids in a list of ids. */
  function IdSet(ids: seq<TaskId>): set<TaskId>
  {
    set x | x in ids
  }

  function TaskIds(tasks: seq<Task>): seq<TaskId>
  {
    seq(|tasks|, i requires 0 <= i < |tasks| => tasks[i].id)
  }

  /** `d` is the offset `result` settles on: in range, free, and every smaller
   *  offset conflicts. */
  predicate IsFirstFit(s: State, a: Task, d: int)
  {
    0 <= d < OffsetsTried && !Conflicts(s, Candidate(a, d)) &&
    forall e :: 0 <= e < d ==> Conflicts(s, Candidate(a, e))
  }

  /** The least offset in `from..6` whose candidate conflicts with nothing. */
  function FirstFree(s: State, a: Task, from: nat): (r: Option<nat>)
    requires from <= OffsetsTried
    decreases OffsetsTried - from
    ensures r.Some? ==> from <= r.value < OffsetsTried && !Conflicts(s, Candidate(a, r.value))
    ensures r.Some? ==> forall e :: from <= e < r.value ==> Conflicts(s, Candidate(a, e))
    ensures r.None? <==> forall e :: from <= e < OffsetsTried ==> Conflicts(s, Candidate(a, e))
  {
    if from == OffsetsTried then None
    else if !Conflicts(s, Candidate(a, from)) then Some(from)
    else FirstFree(s, a, from + 1)
  }

  /** What `result(state, action)` returns. */
  function Place(s: State, a: Task): (r: State)
    ensures |s| <= |r| <= |s| + 1 && r[..|s|] == s
    ensures r == s <==> forall e :: 0 <= e < OffsetsTried ==> Conflicts(s, Candidate(a, e))
    ensures |r| == |s| + 1 ==> exists d :: IsFirstFit(s, a, d) && r == s + [Candidate(a, d)]
    ensures |r| == |s| + 1 ==> !Conflicts(s, r[|s|])
    ensures Disjoint(s) ==> Disjoint(r)
  {
    match FirstFree(s, a, 0)
    case None => s
    case Some(d) =>
      assert IsFirstFit(s, a, d);
      s + [Candidate(a, d)]
  }

  /** `Place` appends the candidate at the first-fit offset. */
  lemma PlaceAtFirstFit(s: State, a: Task, d: int)
    requires IsFirstFit(s, a, d)
    ensures Place(s, a) == s + [Candidate(a, d)]
  {
    var d' :| IsFirstFit(s, a, d') && Place(s, a) == s + [Candidate(a, d')];
    FirstFitUnique(s, a, d, d');
  }

  /** There is at most one first-fit offset. */
  lemma FirstFitUnique(s: State, a: Task, d1: int, d2: int)
    requires IsFirstFit(s, a, d1) && IsFirstFit(s, a, d2)
    ensures d1 == d2
  {
  }

  /** The tasks of `tasks`, in order, whose id is not in `placed`. */
  function Unplaced(tasks: seq<Task>, placed: seq<TaskId>): (r: seq<Task>)
    ensures forall t :: t in r <==> t in tasks && t.id !in placed
    ensures forall t :: multiset(r)[t] == if t.id in placed then 0 else multiset(tasks)[t]
    ensures IsSubsequence(r, tasks)
  {
    if tasks == [] then []
    else
      assert tasks == [tasks[0]] + tasks[1..];
      var rest := Unplaced(tasks[1..], placed);
      if tasks[0].id in placed then rest
      else
        assert ([tasks[0]] + rest)[1..] == rest;
        [tasks[0]] + rest
  }

  /** `xs` is `ys` with some elements dropped, order kept. */
  predicate IsSubsequence<T(==)>(xs: seq<T>, ys: seq<T>)
    decreases |ys|
  {
    xs == [] ||
    (ys != [] &&
     ((xs[0] == ys[0] && IsSubsequence(xs[1..], ys[1..])) || IsSubsequence(xs, ys[1..])))
  }

  /** A placement made for task `t` on one of the seven days of the week at
   *  the task's preferred time of day. */
  predicate Realises(t: Task, p: Placement)
  {
    p.id == t.id && p.duration == t.duration &&
    0 <= DayIndex(p.start) < OffsetsTried && TimeOfDay(p.start) == PreferredStart(t)
  }

  class ScheduleProblem {
    const tasks: seq<Task>
    var scheduleFull: bool

    constructor (tasks: seq<Task>)
      ensures this.tasks == tasks && !scheduleFull
    {
      this.tasks := tasks;
      scheduleFull := false;
    }

    /** `actions`: the tasks not yet placed, in list order. */
    function Actions(s: State): (r: seq<Task>)
      ensures forall t :: t in r <==> t in tasks && t.id !in PlacedIds(s)
      ensures forall t :: multiset(r)[t] == if t.id in PlacedIds(s) then 0 else multiset(tasks)[t]
      ensures IsSubsequence(r, tasks)
    {
      Unplaced(tasks, PlacedIds(s))
    }

    /** `result`: try offsets 0..6 in order and append the first candidate
     *  that overlaps no placement; if all seven conflict, raise the flag
     *  and return the state unchanged. */
    method Result(s: State, a: Task) returns (r: State)
      modifies this
      ensures r == Place(s, a)
      ensures r == s ==> forall e :: 0 <= e < OffsetsTried ==> Conflicts(s, Candidate(a, e))
      ensures scheduleFull == (old(scheduleFull) || r == s)
    {
      var newStart := PreferredStart(a);
      var newDuration := a.duration;
      var d := 0;
      while d < OffsetsTried
        invariant 0 <= d <= OffsetsTried
        invariant forall e :: 0 <= e < d ==> Conflicts(s, Candidate(a, e))
        invariant scheduleFull == old(scheduleFull)
      {
        ghost var c := Candidate(a, d);
        var candidateStart := AddDays(newStart, d);
        var candidateEnd := candidateStart + Hours(newDuration);
        assert candidateStart == c.start && candidateEnd == End(c);
        var conflict := false;
        var i := 0;
        while i < |s|
          invariant 0 <= i <= |s| && !conflict
          invariant forall j :: 0 <= j < i ==> !Overlaps(c, s[j])
        {
          var existingEnd := s[i].start + Hours(s[i].duration);
          if !(candidateStart >= existingEnd || candidateEnd <= s[i].start) {
            assert Overlaps(c, s[i]);
            conflict := true;
            break;
          }
          i := i + 1;
        }
        if !conflict {
          assert IsFirstFit(s, a, d);
          PlaceAtFirstFit(s, a, d);
          r := s + [Placement(a.id, candidateStart, newDuration)];
          return;
        }
        assert Conflicts(s, c);
        d := d + 1;
      }
      scheduleFull := true;
      r := s;
    }

    /** `is_goal`. */
    predicate IsGoal(s: State): (r: bool)
      ensures r && s != [] ==> Heuristic(s) == (WeekEnd - MaxEnd(s)) * SecondsPerMinute
    {
      |s| == |tasks|
    }

    /** `heuristic`: the task count on the empty state; otherwise the seconds
     *  from the latest end to Sunday 23:59 plus an hour per unplaced task.
     *  It is the tightest such slack over all placements, and is not
     *  clamped at zero. */
    function Heuristic(s: State): (h: int)
      ensures s == [] ==> h == |tasks|
      ensures s != [] ==> forall i :: 0 <= i < |s| ==>
                            h <= Slack(s[i]) + (|tasks| - |s|) * SecondsPerHour
      ensures s != [] ==> exists i :: 0 <= i < |s| &&
                            h == Slack(s[i]) + (|tasks| - |s|) * SecondsPerHour
    {
      if s == [] then |tasks|
      else (WeekEnd - MaxEnd(s)) * SecondsPerMinute + (|tasks| - |s|) * SecondsPerHour
    }

    /** States a search can reach from `()` by applying `result` to actions
     *  offered by `actions`; a call that fails leaves the state as it was. */
    ghost predicate Reachable(s: State)
      decreases |s|
    {
      s == [] ||
      (Reachable(s[..|s| - 1]) && StepsTo(s[..|s| - 1], s))
    }

    /** Placing some task of the list whose id `p` does not hold yet, that
     *  is, a task `Actions(p)` offers, takes `p` to `s`. */
    ghost predicate StepsTo(p: State, s: State)
    {
      exists k :: 0 <= k < |tasks| && tasks[k].id !in PlacedIds(p) && Place(p, tasks[k]) == s
    }

    lemma ReachableStep(s: State, a: Task)
      requires Reachable(s) && a in Actions(s)
      ensures Reachable(Place(s, a))
    {
      var r := Place(s, a);
      if r != s {
        var k :| 0 <= k < |tasks| && tasks[k] == a;
        assert r[..|r| - 1] == s;
      }
    }

    /** Every reachable state is pairwise non-overlapping, places each id at
     *  most once, and each placement realises a task of the list. */
    lemma {:induction false} ReachableInvariant(s: State)
      requires Reachable(s)
      ensures Disjoint(s)
      ensures Distinct(PlacedIds(s))
      ensures Realised(tasks, s)
      decreases |s|
    {
      if s != [] {
        var prefix := s[..|s| - 1];
        ReachableInvariant(prefix);
        var k :| 0 <= k < |tasks| && tasks[k].id !in PlacedIds(prefix) && Place(prefix, tasks[k]) == s;
        PlaceKeepsDistinctIds(prefix, tasks[k]);
        PlaceKeepsRealised(tasks, prefix, tasks[k]);
      }
    }

    /** When no two tasks' preferred Monday slots overlap, every placement of
     *  a reachable state is some task at its preferred start: re-scheduling
     *  a conflict-free list moves nothing. */
    lemma {:induction false} ReachableAtPreferredStart(s: State)
      requires Reachable(s)
      requires forall i, j :: 0 <= i < |tasks| && 0 <= j < |tasks| && i != j ==>
                 !Overlaps(Candidate(tasks[i], 0), Candidate(tasks[j], 0))
      ensures forall i :: 0 <= i < |s| ==>
                exists k :: 0 <= k < |tasks| && s[i] == Candidate(tasks[k], 0)
      decreases |s|
    {
      if s != [] {
        var prefix := s[..|s| - 1];
        ReachableAtPreferredStart(prefix);
        var k :| 0 <= k < |tasks| && tasks[k].id !in PlacedIds(prefix) && Place(prefix, tasks[k]) == s;
        var c := Candidate(tasks[k], 0);
        forall i | 0 <= i < |prefix|
          ensures !Overlaps(c, prefix[i])
        {
          var k' :| 0 <= k' < |tasks| && prefix[i] == Candidate(tasks[k'], 0);
          assert PlacedIds(prefix)[i] == tasks[k'].id;
          assert k' != k;
        }
        assert IsFirstFit(prefix, tasks[k], 0);
        PlaceAtFirstFit(prefix, tasks[k], 0);
        assert s == prefix + [c];
        forall i | 0 <= i < |s|
          ensures exists k :: 0 <= k < |tasks| && s[i] == Candidate(tasks[k], 0)
        {
          if i == |prefix| {
            assert s[i] == Candidate(tasks[k], 0);
          } else {
            assert s[i] == prefix[i];
          }
        }
      }
    }

    /** No action is left exactly when every task's id has been placed. */
    lemma NoActionsIffAllPlaced(s: State)
      ensures Actions(s) == [] <==> forall t :: t in tasks ==> t.id in PlacedIds(s)
    {
      if Actions(s) != [] {
        assert Actions(s)[0] in Actions(s);
      }
    }

    /** With distinct task ids, a reachable state is a goal exactly when no
     *  action is left, that is, when every task has been placed. */
    lemma GoalIffAllPlaced(s: State)
      requires Reachable(s) && Distinct(TaskIds(tasks))
      ensures IsGoal(s) <==> Actions(s) == []
      ensures IsGoal(s) <==> forall t :: t in tasks ==> t.id in PlacedIds(s)
    {
      ReachableInvariant(s);
      NoActionsIffAllPlaced(s);
      RealisedIdsAreTaskIds(tasks, s);
      DistinctCard(PlacedIds(s));
      DistinctCard(TaskIds(tasks));
      SubsetCard(IdSet(PlacedIds(s)), IdSet(TaskIds(tasks)));
      AllPlacedIffSameIds(tasks, s);
    }

    /** Placing one more task into a non-empty state lowers the heuristic by
     *  at least one hour's worth of seconds. */
    lemma PlacingLowersHeuristic(s: State, a: Task)
      requires s != [] && Place(s, a) != s
      ensures Heuristic(Place(s, a)) <= Heuristic(s) - SecondsPerHour
    {
      var r := Place(s, a);
      var i :| 0 <= i < |s| && End(s[i]) == MaxEnd(s);
      assert r[i] == s[i];
    }

    /** The heuristic is not clamped: a state with a placement ending later
     *  than the unplaced tasks' allowance after Sunday 23:59 scores below 0. */
    lemma HeuristicNotClamped(s: State, i: int)
      requires 0 <= i < |s|
      requires End(s[i]) * SecondsPerMinute > WeekEnd * SecondsPerMinute + (|tasks| - |s|) * SecondsPerHour
      ensures Heuristic(s) < 0
    {
    }
  }

  /** Seconds from the end of `p` to Sunday 23:59; negative past it. */
  function Slack(p: Placement): int
  {
    (WeekEnd - End(p)) * SecondsPerMinute
  }

  /** Every placement of `s` realises some task of `tasks`. */
  predicate Realised(tasks: seq<Task>, s: State)
  {
    forall i :: 0 <= i < |s| ==> exists t :: t in tasks && Realises(t, s[i])
  }

  lemma PlaceKeepsDistinctIds(s: State, a: Task)
    requires Distinct(PlacedIds(s)) && a.id !in PlacedIds(s)
    ensures Distinct(PlacedIds(Place(s, a)))
  {
    var r := Place(s, a);
    forall i, j | 0 <= i < j < |r|
      ensures PlacedIds(r)[i] != PlacedIds(r)[j]
    {
      assert PlacedIds(s)[i] == PlacedIds(r)[i];
      if j < |s| {
        assert PlacedIds(s)[j] == PlacedIds(r)[j];
      }
    }
  }

  lemma PlaceKeepsRealised(tasks: seq<Task>, s: State, a: Task)
    requires a in tasks && Realised(tasks, s)
    ensures Realised(tasks, Place(s, a))
  {
    var r := Place(s, a);
    forall i | 0 <= i < |r|
      ensures exists t :: t in tasks && Realises(t, r[i])
    {
      if i < |s| {
        assert r[i] == s[i];
      } else {
        var d :| IsFirstFit(s, a, d) && r == s + [Candidate(a, d)];
        assert Realises(a, r[i]);
      }
    }
  }

  lemma RealisedIdsAreTaskIds(tasks: seq<Task>, s: State)
    requires Realised(tasks, s)
    ensures IdSet(PlacedIds(s)) <= IdSet(TaskIds(tasks))
  {
    forall x | x in PlacedIds(s)
      ensures x in TaskIds(tasks)
    {
      var i :| 0 <= i < |s| && PlacedIds(s)[i] == x;
      var t :| t in tasks && Realises(t, s[i]);
      var k :| 0 <= k < |tasks| && tasks[k] == t;
      assert TaskIds(tasks)[k] == x;
    }
  }

  lemma AllPlacedIffSameIds(tasks: seq<Task>, s: State)
    requires IdSet(PlacedIds(s)) <= IdSet(TaskIds(tasks))
    ensures (forall t :: t in tasks ==> t.id in PlacedIds(s)) <==>
            IdSet(PlacedIds(s)) == IdSet(TaskIds(tasks))
  {
    if forall t :: t in tasks ==> t.id in PlacedIds(s) {
      forall x | x in TaskIds(tasks)
        ensures x in PlacedIds(s)
      {
        var k :| 0 <= k < |tasks| && TaskIds(tasks)[k] == x;
        assert tasks[k] in tasks;
      }
    }
    if IdSet(PlacedIds(s)) == IdSet(TaskIds(tasks)) {
      forall t | t in tasks
        ensures t.id in PlacedIds(s)
      {
        var k :| 0 <= k < |tasks| && tasks[k] == t;
        assert TaskIds(tasks)[k] == t.id;
        assert t.id in IdSet(TaskIds(tasks));
        assert t.id in IdSet(PlacedIds(s));
      }
    }
  }

  /** The latest end time of a non-empty state. */
  function MaxEnd(s: State): (m: Timestamp)
    requires s != []
    ensures exists i :: 0 <= i < |s| && End(s[i]) == m
    ensures forall i :: 0 <= i < |s| ==> End(s[i]) <= m
  {
    if |s| == 1 then End(s[0])
    else
      var rest := MaxEnd(s[1..]);
      assert forall i :: 1 <= i < |s| ==> s[i] == s[1..][i - 1];
      if End(s[0]) >= rest then End(s[0]) else rest
  }

  /** A sequence without repetitions has as many distinct elements as it
   *  has elements. */
  lemma {:induction false} DistinctCard(xs: seq<TaskId>)
    requires Distinct(xs)
    ensures |IdSet(xs)| == |xs|
  {
    if xs != [] {
      var init := xs[..|xs| - 1];
      assert Distinct(init);
      DistinctCard(init);
      assert IdSet(xs) == IdSet(init) + {xs[|xs| - 1]};
      assert xs[|xs| - 1] !in init;
    }
  }

  lemma SubsetCard<T>(a: set<T>, b: set<T>)
    requires a <= b
    ensures |a| <= |b|
    ensures |a| == |b| ==> a == b
  {
    assert b == a + (b - a);
    assert a * (b - a) == {};
  }
}
