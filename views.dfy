/**
 * The read-only views of the task service: the deadline-window fetch, the
 * "smart daily view" with its carry-over rule, and the priority lookup. Each
 * is a stream filter over a list fetched from the store, so each is an
 * order-preserving subsequence of that list.
 */
module Views {
  import opened Model
  import opened Filters

  /** A null creation time reads as 0. */
  function CreatedOrZero(t: Task): int {
    if t.createdTime.Some? then t.createdTime.value else 0
  }

  /** Neither CANCELLED nor COMPLETED. */
  predicate IsOpen(t: Task) {
    t.status != Cancelled && t.status != Completed
  }

  /** Deadline-window fetch: non-null deadline in [start, end], then not CANCELLED. */
  function DeadlineView(fetched: seq<Task>, start: int, end: int): (r: seq<Task>)
    ensures IsSubsequence(r, fetched)
    ensures forall t :: t in r <==>
              t in fetched && t.deadline.Some? && start <= t.deadline.value <= end && t.status != Cancelled
  {
    var inWindow := (t: Task) => t.deadline.Some? && t.deadline.value >= start && t.deadline.value <= end;
    var notCancelled := (t: Task) => t.status != Cancelled;
    FilterTwiceIsSubsequence(fetched, inWindow, notCancelled);
    Filter(Filter(fetched, inWindow), notCancelled)
  }

  /**
   * Smart daily view: open tasks created inside [start, end] or before start
   * (carry-over). Equivalently: open tasks created no later than `end`, or
   * before `start`.
   */
  function DailyView(fetched: seq<Task>, start: int, end: int): (r: seq<Task>)
    ensures IsSubsequence(r, fetched)
    ensures forall t :: t in r <==>
              t in fetched && IsOpen(t) && (CreatedOrZero(t) <= end || CreatedOrZero(t) < start)
  {
    var open := (t: Task) => t.status != Cancelled && t.status != Completed;
    var forToday := (t: Task) =>
      var created := CreatedOrZero(t);
      (created >= start && created <= end) || created < start;
    FilterTwiceIsSubsequence(fetched, open, forToday);
    Filter(Filter(fetched, open), forToday)
  }

  /** All tasks whose priority equals `priority`; empty when none does. */
  function PriorityView(all: seq<Task>, priority: Priority): (r: seq<Task>)
    ensures IsSubsequence(r, all)
    ensures forall t :: t in r <==> t in all && t.priority == Some(priority)
    ensures r == [] <==> forall t :: t in all ==> t.priority != Some(priority)
  {
    var matches := (t: Task) => t.priority == Some(priority);
    FilterIsSubsequence(all, matches);
    Filter(all, matches)
  }

  /** For an ordered window the daily view is exactly the open tasks created no later than its end. */
  lemma DailyViewOrderedWindow(fetched: seq<Task>, start: int, end: int)
    requires start <= end
    ensures forall t :: t in DailyView(fetched, start, end) <==>
              t in fetched && IsOpen(t) && CreatedOrZero(t) <= end
  {
  }

  /** An open task created before the window carries over into it. */
  lemma DailyViewCarryOver(fetched: seq<Task>, start: int, end: int, t: Task)
    requires t in fetched && IsOpen(t) && CreatedOrZero(t) < start
    ensures t in DailyView(fetched, start, end)
  {
  }

  /** CANCELLED and COMPLETED tasks never appear, whatever their timestamps. */
  lemma DailyViewExcludesClosed(fetched: seq<Task>, start: int, end: int, t: Task)
    requires t.status == Cancelled || t.status == Completed
    ensures t !in DailyView(fetched, start, end)
  {
  }

  /**
   * The upper bound holds only for ordered windows: when start > end, a task
   * created after `end` but before `start` is still carried over.
   */
  lemma DailyViewInvertedWindow(t: Task)
    requires IsOpen(t) && t.createdTime == Some(5)
    ensures t in DailyView([t], 10, 3)
  {
  }

  /** A COMPLETED task whose deadline is in the window stays in the deadline view. */
  lemma DeadlineViewKeepsCompleted(fetched: seq<Task>, start: int, end: int, t: Task)
    requires t in fetched && t.status == Completed
    requires t.deadline.Some? && start <= t.deadline.value <= end
    ensures t in DeadlineView(fetched, start, end)
    ensures t !in DailyView(fetched, start, end)
  {
  }

  /**
   * Worked example: created on day 1, day 5 and day 11, window [day 3, day 10]:
   * the first carries over, the second is inside, the third is excluded.
   */
  lemma DailyViewExample(t1: Task, t2: Task, t3: Task)
    requires IsOpen(t1) && IsOpen(t2) && IsOpen(t3)
    requires t1.createdTime == Some(1) && t2.createdTime == Some(5) && t3.createdTime == Some(11)
    ensures DailyView([t1, t2, t3], 3, 10) == [t1, t2]
  {
    var open := (t: Task) => t.status != Cancelled && t.status != Completed;
    var forToday := (t: Task) =>
      var created := CreatedOrZero(t);
      (created >= 3 && created <= 10) || created < 3;
    assert [t1, t2, t3][1..] == [t2, t3] && [t2, t3][1..] == [t3] && [t3][1..] == [];
    assert Filter([t3], open) == [t3];
    assert Filter([t2, t3], open) == [t2, t3];
    assert Filter([t1, t2, t3], open) == [t1, t2, t3];
    assert Filter([t3], forToday) == [];
    assert Filter([t2, t3], forToday) == [t2];
    assert Filter([t1, t2, t3], forToday) == [t1, t2];
  }
}
