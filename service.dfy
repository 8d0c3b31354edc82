/**
 * The task management service over its task store. Methods that change tasks
 * modify the store; query methods only read it. The reference-type catalog
 * and the clock are passed in.
 */
module Service {
  import opened Model
  import opened Filters
  import opened Repository
  import opened Views
  import opened Assignment
  import opened History
  import opened Batch

  function DigitChar(d: nat): char
    requires d < 10
  {
    "0123456789"[d]
  }

  function NatToString(n: nat): string
    decreases n
  {
    if n < 10 then [DigitChar(n)] else NatToString(n / 10) + [DigitChar(n % 10)]
  }

  function IntToString(i: int): string {
    if i < 0 then "-" + NatToString(-i) else NatToString(i)
  }

  function ReassignedMessage(referenceId: int): string {
    "Tasks reassigned successfully for reference " + IntToString(referenceId)
  }

  class TaskManagementService {
    const repository: TaskRepository

    ghost predicate Valid()
      reads this, repository
    {
      repository.Valid()
    }

    constructor (repository: TaskRepository)
      requires repository.Valid()
      ensures this.repository == repository && Valid()
    {
      this.repository := repository;
    }

    method FindTaskById(id: int) returns (r: Result<Task>)
      requires Valid()
      ensures r.Ok? <==> 0 <= id < |repository.tasks|
      ensures r.Ok? ==> r.value == repository.tasks[id] && r.value.id == id
      ensures r.Err? ==> r.error == NotFound(id)
    {
      var found := repository.FindById(id);
      if found.None? {
        return Err(NotFound(id));
      }
      r := Ok(found.value);
    }

    /** Saves one new ASSIGNED task per item, in item order, each stamped with `now`. */
    method CreateTasks(items: seq<CreateItem>, now: int) returns (created: seq<Task>)
      requires Valid()
      modifies repository
      ensures Valid()
      ensures |created| == |items|
      ensures repository.tasks == old(repository.tasks) + created
      ensures forall i :: 0 <= i < |items| ==>
                created[i] == CreatedFrom(items[i], now).(id := |old(repository.tasks)| + i)
    {
      created := [];
      var i := 0;
      while i < |items|
        invariant 0 <= i <= |items| && Valid()
        invariant |created| == i
        invariant repository.tasks == old(repository.tasks) + created
        invariant forall m :: 0 <= m < i ==>
                    created[m] == CreatedFrom(items[m], now).(id := |old(repository.tasks)| + m)
      {
        var saved := repository.Save(CreatedFrom(items[i], now));
        created := created + [saved];
        i := i + 1;
      }
    }

    /**
     * Applies the items in order, saving each. The first unknown id stops the
     * batch with not-found; the items before it stay applied. On success the
     * result lists, per item, the task as the store holds it at the end.
     */
    method UpdateTasks(items: seq<UpdateItem>) returns (r: Result<seq<Task>>)
      requires Valid()
      modifies repository
      ensures Valid()
      ensures var k := FirstMissing(|old(repository.tasks)|, items);
              repository.tasks == Updated(old(repository.tasks), items[..k]) &&
              (k < |items| ==> r == Err(NotFound(items[k].taskId))) &&
              (k == |items| ==>
                 r.Ok? && |r.value| == |items| &&
                 (forall i :: 0 <= i < |items| ==> r.value[i] == repository.tasks[items[i].taskId]))
    {
      ghost var s := repository.tasks;
      var ids: seq<int> := [];
      var i := 0;
      while i < |items|
        invariant 0 <= i <= |items| && Valid()
        invariant i <= FirstMissing(|s|, items)
        invariant repository.tasks == Updated(s, items[..i])
        invariant ids == seq(i, m requires 0 <= m < i => items[m].taskId)
      {
        UpdatedKeepsIds(s, items[..i]);
        var found := repository.FindById(items[i].taskId);
        if found.None? {
          assert FirstMissing(|s|, items) == i;
          return Err(NotFound(items[i].taskId));
        }
        var task := ApplyUpdate(found.value, items[i]);
        var _ := repository.Save(task);
        assert items[..i + 1][..i] == items[..i];
        ids := ids + [items[i].taskId];
        i := i + 1;
      }
      assert items[..i] == items;
      var stored := repository.tasks;
      r := Ok(seq(|ids|, m requires 0 <= m < |ids| => stored[ids[m]]));
    }

    /**
     * For each kind the catalog lists for the reference type: the first
     * not-COMPLETED task of that kind of the reference becomes the primary,
     * assigned to the new assignee and ASSIGNED; later ones are CANCELLED; a
     * kind without one gets a new ASSIGNED task.
     */
    method AssignByReference(req: AssignRequest, catalog: ReferenceType -> seq<TaskKind>) returns (message: string)
      requires Valid()
      modifies repository
      ensures Valid()
      ensures repository.tasks == AssignResult(old(repository.tasks), req, catalog(req.referenceType))
      ensures message == ReassignedMessage(req.referenceId)
    {
      var applicable := catalog(req.referenceType);
      var existing := repository.FindByReferenceIdAndReferenceType(req.referenceId, req.referenceType);
      ghost var s := repository.tasks;
      ListsReference(s, req, existing);
      var n := 0;
      while n < |applicable|
        invariant 0 <= n <= |applicable| && Valid()
        invariant AssignedSoFar(s, req, applicable[..n], repository.tasks)
      {
        ReassignKind(req, s, existing, applicable[..n], applicable[n]);
        PrefixGrows(applicable, n);
        n := n + 1;
      }
      assert applicable[..n] == applicable;
      AssignedSoFarIsResult(s, req, applicable, repository.tasks);
      message := ReassignedMessage(req.referenceId);
    }

    /** One pass of AssignByReference's loop: dedup or create the tasks of one kind. */
    method ReassignKind(req: AssignRequest, ghost s: seq<Task>, existing: seq<Task>, ghost done: seq<TaskKind>,
                        kind: TaskKind)
      requires Valid() && IdsArePositions(s) && Indexed(existing, s)
      requires existing == Filter(s, (t: Task) => t.referenceId == req.referenceId && t.referenceType == req.referenceType)
      requires AssignedSoFar(s, req, done, repository.tasks)
      modifies repository
      ensures Valid()
      ensures AssignedSoFar(s, req, done + [kind], repository.tasks)
    {
      var tasksOfType := Filter(existing, (t: Task) => t.kind == kind && t.status != Completed);
      ListsCandidates(s, req, kind, existing, tasksOfType);
      ghost var before := repository.tasks;
      if tasksOfType != [] {
        var primary := tasksOfType[0];
        var _ := repository.Save(primary.(assigneeId := req.assigneeId, status := Assigned));
        KindStart(s, req, done, kind, tasksOfType, before, repository.tasks);
        var i := 1;
        while i < |tasksOfType|
          invariant 1 <= i <= |tasksOfType| && Valid()
          invariant KindInProgress(s, req, done, kind, tasksOfType, i, repository.tasks)
        {
          var duplicate := tasksOfType[i];
          ghost var mid := repository.tasks;
          var _ := repository.Save(duplicate.(status := Cancelled));
          KindStep(s, req, done, kind, tasksOfType, i, mid, repository.tasks);
          i := i + 1;
        }
        KindDone(s, req, done, kind, tasksOfType, repository.tasks);
      } else {
        var _ := repository.Save(NewTask(Unsaved, req, kind));
        NoCandidateStep(s, req, done, kind, tasksOfType, before, repository.tasks);
      }
    }

    /** Tasks of the given assignees whose deadline lies in [start, end], CANCELLED ones excluded. */
    method FetchTasksByDate(assigneeIds: seq<int>, start: int, end: int) returns (r: seq<Task>)
      ensures r == DeadlineView(Filter(repository.tasks, (t: Task) => t.assigneeId in assigneeIds), start, end)
      ensures IsSubsequence(r, repository.tasks)
      ensures forall t :: t in r <==>
                t in repository.tasks && t.assigneeId in assigneeIds &&
                t.deadline.Some? && start <= t.deadline.value <= end && t.status != Cancelled
    {
      var tasks := repository.FindByAssigneeIdIn(assigneeIds);
      r := DeadlineView(tasks, start, end);
      SubsequenceTransitive(r, tasks, repository.tasks);
    }

    /** Open tasks of the given assignees created in [start, end] or carried over from before start. */
    method SmartDailyView(assigneeIds: seq<int>, start: int, end: int) returns (r: seq<Task>)
      ensures r == DailyView(Filter(repository.tasks, (t: Task) => t.assigneeId in assigneeIds), start, end)
      ensures IsSubsequence(r, repository.tasks)
      ensures forall t :: t in r <==>
                t in repository.tasks && t.assigneeId in assigneeIds && IsOpen(t) &&
                (CreatedOrZero(t) <= end || CreatedOrZero(t) < start)
    {
      var allTasks := repository.FindByAssigneeIdIn(assigneeIds);
      r := DailyView(allTasks, start, end);
      SubsequenceTransitive(r, allTasks, repository.tasks);
    }

    /** The stored tasks with the given priority, in store order. */
    method GetTasksByPriority(priority: Priority) returns (r: seq<Task>)
      ensures r == PriorityView(repository.tasks, priority)
      ensures IsSubsequence(r, repository.tasks)
      ensures forall t :: t in r <==> t in repository.tasks && t.priority == Some(priority)
      ensures r == [] <==> forall t :: t in repository.tasks ==> t.priority != Some(priority)
    {
      var tasks := repository.FindAll();
      r := PriorityView(tasks, priority);
    }

    /** Sets the priority and logs the change; not-found leaves the store unchanged. */
    method UpdatePriority(taskId: int, priority: Option<Priority>, updatedBy: string, now: int) returns (r: Result<Task>)
      requires Valid()
      modifies repository
      ensures Valid()
      ensures !(0 <= taskId < |old(repository.tasks)|) ==>
                r == Err(NotFound(taskId)) && repository.tasks == old(repository.tasks)
      ensures 0 <= taskId < |old(repository.tasks)| ==>
                r == Ok(WithPriority(old(repository.tasks)[taskId], priority, updatedBy, now)) &&
                repository.tasks == old(repository.tasks)[taskId := r.value]
    {
      var found := repository.FindById(taskId);
      if found.None? {
        return Err(NotFound(taskId));
      }
      var task := WithPriority(found.value, priority, updatedBy, now);
      var _ := repository.Save(task);
      r := Ok(task);
    }

    /** Appends a comment and logs it; not-found leaves the store unchanged. */
    method AddComment(taskId: int, author: string, text: string, now: int) returns (r: Result<Task>)
      requires Valid()
      modifies repository
      ensures Valid()
      ensures !(0 <= taskId < |old(repository.tasks)|) ==>
                r == Err(NotFound(taskId)) && repository.tasks == old(repository.tasks)
      ensures 0 <= taskId < |old(repository.tasks)| ==>
                r == Ok(WithComment(old(repository.tasks)[taskId], author, text, now)) &&
                repository.tasks == old(repository.tasks)[taskId := r.value]
    {
      var found := repository.FindById(taskId);
      if found.None? {
        return Err(NotFound(taskId));
      }
      var task := WithComment(found.value, author, text, now);
      var _ := repository.Save(task);
      r := Ok(task);
    }
  }

  // Loop invariants of AssignByReference, stated position by position.

  /** `cur` is the store after processing `done` kinds: old positions rewritten, missing kinds appended. */
  predicate AssignedSoFar(s: seq<Task>, req: AssignRequest, done: seq<TaskKind>, cur: seq<Task>) {
    var missing := MissingKinds(s, req, done);
    |cur| == |s| + |missing| &&
    (forall j :: 0 <= j < |s| ==> cur[j] == Reassigned(s, j, req, done)) &&
    (forall j :: |s| <= j < |cur| ==> cur[j] == NewTask(j, req, missing[j - |s|]))
  }

  /** Midway through the candidates `c` of `kind`: the first `i` are rewritten, other positions as before. */
  predicate KindInProgress(s: seq<Task>, req: AssignRequest, done: seq<TaskKind>, kind: TaskKind,
                           c: seq<Task>, i: int, cur: seq<Task>)
    requires 0 <= i <= |c|
  {
    var missing := MissingKinds(s, req, done);
    Indexed(c, s) &&
    |cur| == |s| + |missing| &&
    (forall j :: 0 <= j < |s| && !Candidate(s[j], req, kind) ==> cur[j] == Reassigned(s, j, req, done)) &&
    (forall m :: 0 <= m < i ==> cur[c[m].id] == Reassigned(s, c[m].id, req, done + [kind])) &&
    (forall j :: |s| <= j < |cur| ==> cur[j] == NewTask(j, req, missing[j - |s|]))
  }

  lemma PrefixGrows(kinds: seq<TaskKind>, n: int)
    requires 0 <= n < |kinds|
    ensures kinds[..n + 1] == kinds[..n] + [kinds[n]]
  {
  }

  lemma AssignedSoFarIsResult(s: seq<Task>, req: AssignRequest, kinds: seq<TaskKind>, cur: seq<Task>)
    requires AssignedSoFar(s, req, kinds, cur)
    ensures cur == AssignResult(s, req, kinds)
  {
    AssignResultAt(s, req, kinds);
  }

  /** The tasks fetched for the request's reference list the store's tasks of that reference, in store order. */
  lemma ListsReference(s: seq<Task>, req: AssignRequest, existing: seq<Task>)
    requires IdsArePositions(s)
    requires existing == Filter(s, (t: Task) => t.referenceId == req.referenceId && t.referenceType == req.referenceType)
    ensures Indexed(existing, s)
  {
    StoreIsIndexed(s);
    FilterKeepsIndexed(s, s, (t: Task) => t.referenceId == req.referenceId && t.referenceType == req.referenceType);
  }

  /** Filtering the reference's tasks by kind and not-COMPLETED lists exactly the candidates of that kind. */
  lemma ListsCandidates(s: seq<Task>, req: AssignRequest, kind: TaskKind, existing: seq<Task>, c: seq<Task>)
    requires Indexed(existing, s)
    requires existing == Filter(s, (t: Task) => t.referenceId == req.referenceId && t.referenceType == req.referenceType)
    requires c == Filter(existing, (t: Task) => t.kind == kind && t.status != Completed)
    ensures Indexed(c, s)
    ensures forall x :: x in c <==> x in s && Candidate(x, req, kind)
  {
    FilterKeepsIndexed(existing, s, (t: Task) => t.kind == kind && t.status != Completed);
  }

  /** Promoting the head of the candidate listing starts the rewriting of `kind`. */
  lemma KindStart(s: seq<Task>, req: AssignRequest, done: seq<TaskKind>, kind: TaskKind, c: seq<Task>,
                  before: seq<Task>, cur: seq<Task>)
    requires IdsArePositions(s) && Indexed(c, s) && c != []
    requires forall x :: x in c <==> x in s && Candidate(x, req, kind)
    requires AssignedSoFar(s, req, done, before)
    requires cur == before[c[0].id := c[0].(assigneeId := req.assigneeId, status := Assigned)]
    ensures KindInProgress(s, req, done, kind, c, 1, cur)
  {
    CandidateListing(s, req, kind, c);
    assert s[c[0].id] == c[0];
  }

  /** Cancelling the next duplicate advances the rewriting of `kind` by one. */
  lemma KindStep(s: seq<Task>, req: AssignRequest, done: seq<TaskKind>, kind: TaskKind, c: seq<Task>, i: int,
                 before: seq<Task>, cur: seq<Task>)
    requires IdsArePositions(s) && 1 <= i < |c|
    requires forall x :: x in c <==> x in s && Candidate(x, req, kind)
    requires KindInProgress(s, req, done, kind, c, i, before)
    requires cur == before[c[i].id := c[i].(status := Cancelled)]
    ensures KindInProgress(s, req, done, kind, c, i + 1, cur)
  {
    var d := c[i].id;
    CandidateListing(s, req, kind, c);
    assert s[d] == c[i] && Candidate(s[d], req, kind);
    DuplicateIsDemoted(s, req, done, kind, c, i);
    var missing := MissingKinds(s, req, done);
    forall j | 0 <= j < |s| && !Candidate(s[j], req, kind)
      ensures cur[j] == Reassigned(s, j, req, done)
    {
      assert j != d;
    }
    forall m | 0 <= m < i + 1
      ensures cur[c[m].id] == Reassigned(s, c[m].id, req, done + [kind])
    {
      if m < i {
        assert c[m].id < d;
      }
    }
  }

  /** A candidate after the head of the listing is rewritten to CANCELLED. */
  lemma DuplicateIsDemoted(s: seq<Task>, req: AssignRequest, done: seq<TaskKind>, kind: TaskKind, c: seq<Task>, i: int)
    requires IdsArePositions(s) && Indexed(c, s) && 1 <= i < |c|
    requires forall x :: x in c <==> x in s && Candidate(x, req, kind)
    ensures Reassigned(s, c[i].id, req, done + [kind]) == c[i].(status := Cancelled)
  {
    CandidateListing(s, req, kind, c);
    assert s[c[i].id] == c[i];
  }

  /** When every candidate of `kind` is rewritten, the store is as after processing `done + [kind]`. */
  lemma KindDone(s: seq<Task>, req: AssignRequest, done: seq<TaskKind>, kind: TaskKind, c: seq<Task>, cur: seq<Task>)
    requires IdsArePositions(s) && c != []
    requires forall x :: x in c <==> x in s && Candidate(x, req, kind)
    requires KindInProgress(s, req, done, kind, c, |c|, cur)
    ensures AssignedSoFar(s, req, done + [kind], cur)
  {
    CandidateListing(s, req, kind, c);
    assert HasCandidate(s, req, kind) by {
      assert c[0] in c;
      assert Candidate(s[c[0].id], req, kind);
    }
    assert (done + [kind])[..|done|] == done;
    forall j | 0 <= j < |s|
      ensures cur[j] == Reassigned(s, j, req, done + [kind])
    {
      if !Candidate(s[j], req, kind) {
        ReassignedExtend(s, j, req, done, kind);
      }
    }
  }

  /** A kind with no candidate: appending its new task gives the store after processing `done + [kind]`. */
  lemma NoCandidateStep(s: seq<Task>, req: AssignRequest, done: seq<TaskKind>, kind: TaskKind, c: seq<Task>,
                        before: seq<Task>, cur: seq<Task>)
    requires c == [] && (forall x :: x in c <==> x in s && Candidate(x, req, kind))
    requires AssignedSoFar(s, req, done, before)
    requires cur == before + [NewTask(|before|, req, kind)]
    ensures AssignedSoFar(s, req, done + [kind], cur)
  {
    assert !HasCandidate(s, req, kind) by {
      forall j | 0 <= j < |s|
        ensures !Candidate(s[j], req, kind)
      {
        assert s[j] !in c;
      }
    }
    assert (done + [kind])[..|done|] == done;
    forall j | 0 <= j < |s|
      ensures cur[j] == Reassigned(s, j, req, done + [kind])
    {
      ReassignedExtend(s, j, req, done, kind);
    }
  }
}
