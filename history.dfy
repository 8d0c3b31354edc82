/**
 * The activity/comment recorder: what a priority change and a new comment do
 * to one task. Both append to the task's logs and leave everything else as
 * it was. Comment and activity ids are read from the clock, like their
 * timestamps, so they are not guaranteed to be unique.
 */
module History {
  import opened Model

  function PriorityName(p: Option<Priority>): string {
    match p
    case None => "null"
    case Some(Low) => "LOW"
    case Some(Medium) => "MEDIUM"
    case Some(High) => "HIGH"
    case Some(Urgent) => "URGENT"
    case Some(Additional) => "ADDITIONAL"
  }

  function PriorityChangedNote(p: Option<Priority>, updatedBy: string): string {
    "Priority changed to " + PriorityName(p) + " by " + updatedBy
  }

  function CommentAddedNote(author: string): string {
    "Comment added by " + author
  }

  /** `after` is `before` with exactly `entry` appended: earlier entries are untouched. */
  predicate AppendsOne<T(==)>(before: seq<T>, after: seq<T>, entry: T) {
    |after| == |before| + 1 && after[..|before|] == before && after[|before|] == entry
  }

  /** The task after its priority is set to `p` at time `now`, recorded in its activity history. */
  function WithPriority(t: Task, p: Option<Priority>, updatedBy: string, now: int): (r: Task)
    ensures r.priority == p
    ensures AppendsOne(t.activityHistory, r.activityHistory,
                       TaskActivity(now, t.id, PriorityChangedNote(p, updatedBy), now))
    ensures r.(priority := t.priority, activityHistory := t.activityHistory) == t
  {
    t.(priority := p,
       activityHistory := t.activityHistory + [TaskActivity(now, t.id, PriorityChangedNote(p, updatedBy), now)])
  }

  /** The task after `author` comments `text` at time `now`, recorded in its comments and activity history. */
  function WithComment(t: Task, author: string, text: string, now: int): (r: Task)
    ensures AppendsOne(t.comments, r.comments, TaskComment(now, t.id, author, text, now))
    ensures AppendsOne(t.activityHistory, r.activityHistory,
                       TaskActivity(now, t.id, CommentAddedNote(author), now))
    ensures r.(comments := t.comments, activityHistory := t.activityHistory) == t
  {
    t.(comments := t.comments + [TaskComment(now, t.id, author, text, now)],
       activityHistory := t.activityHistory + [TaskActivity(now, t.id, CommentAddedNote(author), now)])
  }

  /** A comment followed by a priority change leaves their two entries at the end of the history, in call order. */
  lemma HistoryFollowsCallOrder(t: Task, author: string, text: string, p: Option<Priority>, updatedBy: string,
                                now1: int, now2: int)
    ensures WithPriority(WithComment(t, author, text, now1), p, updatedBy, now2).activityHistory ==
            t.activityHistory + [TaskActivity(now1, t.id, CommentAddedNote(author), now1),
                                 TaskActivity(now2, t.id, PriorityChangedNote(p, updatedBy), now2)]
  {
  }

  /** Neither recorder touches status, assignee, reference, kind or id. */
  lemma RecordersKeepAssignment(t: Task, author: string, text: string, p: Option<Priority>, updatedBy: string,
                                now: int)
    ensures var a := WithPriority(t, p, updatedBy, now);
            a.status == t.status && a.assigneeId == t.assigneeId && a.id == t.id &&
            a.kind == t.kind && a.referenceId == t.referenceId && a.referenceType == t.referenceType &&
            a.comments == t.comments
    ensures var b := WithComment(t, author, text, now);
            b.status == t.status && b.assigneeId == t.assigneeId && b.id == t.id &&
            b.kind == t.kind && b.referenceId == t.referenceId && b.referenceType == t.referenceType &&
            b.priority == t.priority
  {
  }
}
