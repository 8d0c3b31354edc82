/**
 * The reassignment-by-reference engine, stated as a reference function on the
 * store: for every task kind the catalog lists for the reference type, the
 * first not-COMPLETED task of that kind (in store order) becomes the primary
 * and is assigned to the new assignee, every later one is CANCELLED, and a
 * kind with no such task gets one new ASSIGNED task appended to the store.
 */
module Assignment {
  import opened Model
  import opened Filters
  import opened Repository
  import opened Views

  datatype AssignRequest = AssignRequest(referenceId: int, referenceType: ReferenceType, assigneeId: int)

  /**
   * `t` belongs to the request's reference, is of kind `k` and is not
   * COMPLETED. A CANCELLED task is a candidate too and can be revived.
   */
  predicate Candidate(t: Task, req: AssignRequest, k: TaskKind) {
    t.referenceId == req.referenceId && t.referenceType == req.referenceType &&
    t.kind == k && t.status != Completed
  }

  /** A candidate of one of the listed kinds: a task the engine rewrites. */
  predicate Applicable(t: Task, req: AssignRequest, kinds: seq<TaskKind>) {
    t.kind in kinds && Candidate(t, req, t.kind)
  }

  /** No candidate of the same kind comes before position `i`. */
  predicate IsPrimary(s: seq<Task>, i: int, req: AssignRequest)
    requires 0 <= i < |s|
  {
    forall j :: 0 <= j < i ==> !Candidate(s[j], req, s[i].kind)
  }

  function Promote(t: Task, assigneeId: int): Task {
    t.(assigneeId := assigneeId, status := Assigned)
  }

  function Demote(t: Task): Task {
    t.(status := Cancelled)
  }

  /** What the engine leaves at position `i` of the store. */
  function Reassigned(s: seq<Task>, i: int, req: AssignRequest, kinds: seq<TaskKind>): Task
    requires 0 <= i < |s|
  {
    if !Applicable(s[i], req, kinds) then s[i]
    else if IsPrimary(s, i, req) then Promote(s[i], req.assigneeId)
    else Demote(s[i])
  }

  predicate HasCandidate(s: seq<Task>, req: AssignRequest, k: TaskKind) {
    exists j :: 0 <= j < |s| && Candidate(s[j], req, k)
  }

  /** The listed kinds, in catalog order, for which the store holds no candidate. */
  function MissingKinds(s: seq<Task>, req: AssignRequest, kinds: seq<TaskKind>): (r: seq<TaskKind>)
    ensures |r| <= |kinds|
    ensures forall k :: k in r <==> k in kinds && !HasCandidate(s, req, k)
    ensures (forall k :: k in kinds ==> HasCandidate(s, req, k)) ==> r == []
    decreases |kinds|
  {
    if kinds == [] then []
    else
      var last := kinds[|kinds| - 1];
      MissingKinds(s, req, kinds[..|kinds| - 1]) + (if HasCandidate(s, req, last) then [] else [last])
  }

  /** The task created for a kind that has no candidate: no priority, deadline, creation time or description. */
  function NewTask(id: int, req: AssignRequest, k: TaskKind): Task {
    Task(id, req.referenceId, req.referenceType, k, req.assigneeId, Assigned,
         None, None, None, None, [], [])
  }

  /** The store after reassigning `req`'s reference over `kinds`. */
  function AssignResult(s: seq<Task>, req: AssignRequest, kinds: seq<TaskKind>): (r: seq<Task>)
    ensures |s| <= |r|
    ensures IdsArePositions(s) ==> IdsArePositions(r)
  {
    var missing := MissingKinds(s, req, kinds);
    seq(|s|, i requires 0 <= i < |s| => Reassigned(s, i, req, kinds)) +
    seq(|missing|, i requires 0 <= i < |missing| => NewTask(|s| + i, req, missing[i]))
  }

  /** Position-wise reading of AssignResult. */
  lemma AssignResultAt(s: seq<Task>, req: AssignRequest, kinds: seq<TaskKind>)
    ensures var r := AssignResult(s, req, kinds);
            var missing := MissingKinds(s, req, kinds);
            |r| == |s| + |missing| &&
            (forall i :: 0 <= i < |s| ==> r[i] == Reassigned(s, i, req, kinds)) &&
            (forall i :: 0 <= i < |missing| ==> r[|s| + i] == NewTask(|s| + i, req, missing[i]))
  {
    var missing := MissingKinds(s, req, kinds);
    var kept := seq(|s|, i requires 0 <= i < |s| => Reassigned(s, i, req, kinds));
    var added := seq(|missing|, i requires 0 <= i < |missing| => NewTask(|s| + i, req, missing[i]));
    var r := AssignResult(s, req, kinds);
    assert r == kept + added;
    forall i | 0 <= i < |s|
      ensures r[i] == Reassigned(s, i, req, kinds)
    {
      assert r[i] == kept[i];
    }
    forall i | 0 <= i < |missing|
      ensures r[|s| + i] == NewTask(|s| + i, req, missing[i])
    {
      assert r[|s| + i] == added[i];
    }
  }

  lemma AssignResultLength(s: seq<Task>, req: AssignRequest, kinds: seq<TaskKind>)
    ensures |AssignResult(s, req, kinds)| == |s| + |MissingKinds(s, req, kinds)|
  {
    AssignResultAt(s, req, kinds);
  }

  lemma KeptAt(s: seq<Task>, req: AssignRequest, kinds: seq<TaskKind>, i: int)
    requires 0 <= i < |s|
    ensures i < |AssignResult(s, req, kinds)| && AssignResult(s, req, kinds)[i] == Reassigned(s, i, req, kinds)
  {
    AssignResultAt(s, req, kinds);
  }

  lemma AddedAt(s: seq<Task>, req: AssignRequest, kinds: seq<TaskKind>, i: int)
    requires 0 <= i < |MissingKinds(s, req, kinds)|
    ensures |AssignResult(s, req, kinds)| == |s| + |MissingKinds(s, req, kinds)|
    ensures AssignResult(s, req, kinds)[|s| + i] == NewTask(|s| + i, req, MissingKinds(s, req, kinds)[i])
  {
    AssignResultAt(s, req, kinds);
  }

  /** Listing one more kind changes nothing at positions that are not candidates of that kind. */
  lemma ReassignedExtend(s: seq<Task>, i: int, req: AssignRequest, kinds: seq<TaskKind>, k: TaskKind)
    requires 0 <= i < |s|
    requires !Candidate(s[i], req, k) || k in kinds
    ensures Reassigned(s, i, req, kinds + [k]) == Reassigned(s, i, req, kinds)
  {
  }

  /**
   * Facts about a listing `c` of exactly the candidates of kind `k`, in store
   * order: its head is the primary, nothing after it is, and every candidate
   * appears in it.
   */
  lemma CandidateListing(s: seq<Task>, req: AssignRequest, k: TaskKind, c: seq<Task>)
    requires IdsArePositions(s) && Indexed(c, s)
    requires forall x :: x in c <==> x in s && Candidate(x, req, k)
    ensures forall m :: 0 <= m < |c| ==> Candidate(c[m], req, k) && c[m].kind == k
    ensures c != [] ==> IsPrimary(s, c[0].id, req)
    ensures forall m :: 1 <= m < |c| ==> !IsPrimary(s, c[m].id, req)
    ensures forall j :: 0 <= j < |s| && Candidate(s[j], req, k) ==> exists m :: 0 <= m < |c| && c[m].id == j
  {
    forall m | 0 <= m < |c|
      ensures Candidate(c[m], req, k)
    {
      assert c[m] in c;
    }
    forall j | 0 <= j < |s| && Candidate(s[j], req, k)
      ensures exists m :: 0 <= m < |c| && c[m].id == j
    {
      FilterFindsStored(s, c, (x: Task) => Candidate(x, req, k), j);
    }
    if c != [] {
      assert forall m :: 0 <= m < |c| ==> c[0].id <= c[m].id;
      forall m | 1 <= m < |c|
        ensures !IsPrimary(s, c[m].id, req)
      {
        assert c[0].id < c[m].id && s[c[0].id] == c[0];
      }
    }
  }

  /**
   * Among the candidates of a listed kind, in store order, the first is
   * assigned to the request's assignee and set ASSIGNED, and every later one is
   * CANCELLED with its assignee unchanged.
   */
  lemma AssignPromotesFirstCancelsRest(s: seq<Task>, req: AssignRequest, kinds: seq<TaskKind>, k: TaskKind)
    requires IdsArePositions(s) && k in kinds
    ensures var c := Filter(s, (t: Task) => Candidate(t, req, k));
            var r := AssignResult(s, req, kinds);
            Indexed(c, s) &&
            (c != [] ==> r[c[0].id] == c[0].(assigneeId := req.assigneeId, status := Assigned)) &&
            (forall m :: 1 <= m < |c| ==>
               r[c[m].id] == c[m].(status := Cancelled) && r[c[m].id].assigneeId == c[m].assigneeId)
  {
    var c := Filter(s, (t: Task) => Candidate(t, req, k));
    StoreIsIndexed(s);
    FilterKeepsIndexed(s, s, (t: Task) => Candidate(t, req, k));
    CandidateListing(s, req, k, c);
    AssignResultAt(s, req, kinds);
  }

  /** A kind with no candidate gets exactly one new task, which carries the request's reference and assignee. */
  lemma AssignCreatesOneTaskPerMissingKind(s: seq<Task>, req: AssignRequest, kinds: seq<TaskKind>, k: TaskKind)
    requires Distinct(kinds) && k in kinds && !HasCandidate(s, req, k)
    ensures var r := AssignResult(s, req, kinds);
            (exists j :: |s| <= j < |r| && r[j] == NewTask(j, req, k)) &&
            (forall j1, j2 :: |s| <= j1 < |r| && |s| <= j2 < |r| && r[j1].kind == k && r[j2].kind == k ==> j1 == j2)
  {
    var missing := MissingKinds(s, req, kinds);
    assert k in missing;
    var i :| 0 <= i < |missing| && missing[i] == k;
    AddedAt(s, req, kinds, i);
    AddedKindsUnique(s, req, kinds, k);
  }

  lemma AddedKindsUnique(s: seq<Task>, req: AssignRequest, kinds: seq<TaskKind>, k: TaskKind)
    requires Distinct(kinds)
    ensures var r := AssignResult(s, req, kinds);
            forall j1, j2 :: |s| <= j1 < |r| && |s| <= j2 < |r| && r[j1].kind == k && r[j2].kind == k ==> j1 == j2
  {
    var r := AssignResult(s, req, kinds);
    var missing := MissingKinds(s, req, kinds);
    MissingKindsDistinct(s, req, kinds);
    forall j1, j2 | |s| <= j1 < |r| && |s| <= j2 < |r| && r[j1].kind == k && r[j2].kind == k
      ensures j1 == j2
    {
      AddedKindAt(s, req, kinds, j1);
      AddedKindAt(s, req, kinds, j2);
      DistinctAt(missing, j1 - |s|, j2 - |s|);
    }
  }

  lemma AddedKindAt(s: seq<Task>, req: AssignRequest, kinds: seq<TaskKind>, j: int)
    requires |s| <= j < |AssignResult(s, req, kinds)|
    ensures |AssignResult(s, req, kinds)| == |s| + |MissingKinds(s, req, kinds)|
    ensures AssignResult(s, req, kinds)[j].kind == MissingKinds(s, req, kinds)[j - |s|]
  {
    AssignResultAt(s, req, kinds);
  }

  lemma DistinctAt<T>(s: seq<T>, i: int, j: int)
    requires Distinct(s) && 0 <= i < |s| && 0 <= j < |s| && s[i] == s[j]
    ensures i == j
  {
  }

  lemma DistinctApart<T>(s: seq<T>, i: int, j: int)
    requires Distinct(s) && 0 <= i < j < |s|
    ensures s[i] != s[j]
  {
  }

  lemma {:induction false} MissingKindsDistinct(s: seq<Task>, req: AssignRequest, kinds: seq<TaskKind>)
    requires Distinct(kinds)
    ensures Distinct(MissingKinds(s, req, kinds))
    decreases |kinds|
  {
    if kinds != [] {
      var init := kinds[..|kinds| - 1];
      var last := kinds[|kinds| - 1];
      assert Distinct(init);
      MissingKindsDistinct(s, req, init);
      assert forall i :: 0 <= i < |init| ==> init[i] == kinds[i] != last;
    }
  }

  /** A reference type with no listed kinds leaves the store as it was. */
  lemma AssignNoKindsIsNoOp(s: seq<Task>, req: AssignRequest)
    ensures AssignResult(s, req, []) == s
  {
    AssignResultAt(s, req, []);
  }

  /** Rewriting keeps exactly the same candidates: reference and kind never change, and no task becomes COMPLETED. */
  lemma AssignKeepsCandidates(s: seq<Task>, req: AssignRequest, kinds: seq<TaskKind>, j: int, k: TaskKind)
    requires 0 <= j < |s|
    ensures Candidate(AssignResult(s, req, kinds)[j], req, k) <==> Candidate(s[j], req, k)
    ensures AssignResult(s, req, kinds)[j].kind == s[j].kind
  {
    AssignResultAt(s, req, kinds);
  }

  /** COMPLETED tasks, tasks of unlisted kinds and tasks of other references are left exactly as they were. */
  lemma AssignLeavesOthersUntouched(s: seq<Task>, req: AssignRequest, kinds: seq<TaskKind>, j: int)
    requires 0 <= j < |s|
    requires s[j].status == Completed || s[j].kind !in kinds ||
             s[j].referenceId != req.referenceId || s[j].referenceType != req.referenceType
    ensures AssignResult(s, req, kinds)[j] == s[j]
  {
    KeptAt(s, req, kinds, j);
  }

  /** A task of the reference, of kind `k`, neither CANCELLED nor COMPLETED. */
  predicate OpenOfKind(t: Task, req: AssignRequest, k: TaskKind) {
    Candidate(t, req, k) && IsOpen(t)
  }

  /** An open task of a listed kind after reassignment is the old primary or the task created for that kind. */
  lemma OpenAfterAssign(s: seq<Task>, req: AssignRequest, kinds: seq<TaskKind>, k: TaskKind, j: int)
    requires k in kinds
    requires 0 <= j < |AssignResult(s, req, kinds)| && OpenOfKind(AssignResult(s, req, kinds)[j], req, k)
    ensures j < |s| ==> Candidate(s[j], req, k) && IsPrimary(s, j, req)
    ensures |s| <= j ==> MissingKinds(s, req, kinds)[j - |s|] == k && !HasCandidate(s, req, k)
  {
    var missing := MissingKinds(s, req, kinds);
    AssignResultAt(s, req, kinds);
    if j < |s| {
      AssignKeepsCandidates(s, req, kinds, j, k);
    } else {
      assert missing[j - |s|] in missing;
    }
  }

  /** Each listed kind ends with an open task of the reference, ASSIGNED to the request's assignee. */
  lemma AssignLeavesAnAssignedTaskPerKind(s: seq<Task>, req: AssignRequest, kinds: seq<TaskKind>, k: TaskKind)
    requires IdsArePositions(s) && k in kinds
    ensures var r := AssignResult(s, req, kinds);
            exists j :: 0 <= j < |r| && OpenOfKind(r[j], req, k) &&
                        r[j].status == Assigned && r[j].assigneeId == req.assigneeId
  {
    var r := AssignResult(s, req, kinds);
    var missing := MissingKinds(s, req, kinds);
    AssignResultAt(s, req, kinds);
    if HasCandidate(s, req, k) {
      var c := Filter(s, (t: Task) => Candidate(t, req, k));
      StoreIsIndexed(s);
      FilterKeepsIndexed(s, s, (t: Task) => Candidate(t, req, k));
      CandidateListing(s, req, k, c);
      var j0 :| 0 <= j0 < |s| && Candidate(s[j0], req, k);
      assert c != [];
      var p := c[0].id;
      assert r[p] == Promote(s[p], req.assigneeId);
      assert OpenOfKind(r[p], req, k);
    } else {
      assert k in missing;
      var i :| 0 <= i < |missing| && missing[i] == k;
      assert OpenOfKind(r[|s| + i], req, k);
    }
  }

  /**
   * Each listed kind ends with at most one open (neither CANCELLED nor
   * COMPLETED) task of the reference: surplus duplicates are all CANCELLED.
   */
  lemma AssignLeavesAtMostOneOpenTaskPerKind(s: seq<Task>, req: AssignRequest, kinds: seq<TaskKind>, k: TaskKind,
                                             j1: int, j2: int)
    requires Distinct(kinds) && k in kinds
    requires 0 <= j1 < |AssignResult(s, req, kinds)| && OpenOfKind(AssignResult(s, req, kinds)[j1], req, k)
    requires 0 <= j2 < |AssignResult(s, req, kinds)| && OpenOfKind(AssignResult(s, req, kinds)[j2], req, k)
    ensures j1 == j2
  {
    MissingKindsDistinct(s, req, kinds);
    OpenAfterAssign(s, req, kinds, k, j1);
    OpenAfterAssign(s, req, kinds, k, j2);
  }

  /**
   * Calling the engine twice in a row with the same request leaves the store
   * as the first call left it: no new task, no change of status or assignee.
   */
  lemma AssignIdempotent(s: seq<Task>, req: AssignRequest, kinds: seq<TaskKind>)
    requires IdsArePositions(s) && Distinct(kinds)
    ensures AssignResult(AssignResult(s, req, kinds), req, kinds) == AssignResult(s, req, kinds)
  {
    var r := AssignResult(s, req, kinds);
    var missing := MissingKinds(s, req, kinds);
    AssignResultLength(s, req, kinds);
    MissingKindsDistinct(s, req, kinds);
    // Every listed kind has a candidate after the first call.
    forall k | k in kinds
      ensures HasCandidate(r, req, k)
    {
      if HasCandidate(s, req, k) {
        var j :| 0 <= j < |s| && Candidate(s[j], req, k);
        AssignKeepsCandidates(s, req, kinds, j, k);
        assert Candidate(r[j], req, k);
      } else {
        assert k in missing;
        var i :| 0 <= i < |missing| && missing[i] == k;
        AddedAt(s, req, kinds, i);
        assert Candidate(r[|s| + i], req, k);
      }
    }
    assert MissingKinds(r, req, kinds) == [];
    var r2 := AssignResult(r, req, kinds);
    AssignResultLength(r, req, kinds);
    forall j | 0 <= j < |r|
      ensures r2[j] == r[j]
    {
      KeptAt(r, req, kinds, j);
      if j < |s| {
        KeptIsStable(s, req, kinds, j);
      } else {
        AddedIsStable(s, req, kinds, j - |s|);
      }
    }
    assert r2 == r;
  }

  /** A rewritten task is left as it is by a second pass. */
  lemma KeptIsStable(s: seq<Task>, req: AssignRequest, kinds: seq<TaskKind>, j: int)
    requires 0 <= j < |s|
    ensures var r := AssignResult(s, req, kinds);
            j < |r| && Reassigned(r, j, req, kinds) == r[j]
  {
    var r := AssignResult(s, req, kinds);
    var k := s[j].kind;
    KeptAt(s, req, kinds, j);
    AssignKeepsCandidates(s, req, kinds, j, k);
    forall j' | 0 <= j' < j
      ensures Candidate(r[j'], req, k) <==> Candidate(s[j'], req, k)
    {
      AssignKeepsCandidates(s, req, kinds, j', k);
    }
    assert IsPrimary(r, j, req) <==> IsPrimary(s, j, req);
  }

  /** A task created by the engine is the primary of its kind, and a second pass leaves it as it is. */
  lemma AddedIsStable(s: seq<Task>, req: AssignRequest, kinds: seq<TaskKind>, i: int)
    requires Distinct(kinds) && 0 <= i < |MissingKinds(s, req, kinds)|
    ensures var r := AssignResult(s, req, kinds);
            |s| + i < |r| && Reassigned(r, |s| + i, req, kinds) == r[|s| + i]
  {
    var r := AssignResult(s, req, kinds);
    var missing := MissingKinds(s, req, kinds);
    var k := missing[i];
    AddedAt(s, req, kinds, i);
    MissingKindsDistinct(s, req, kinds);
    assert k in missing;
    forall j' | 0 <= j' < |s| + i
      ensures !Candidate(r[j'], req, k)
    {
      if j' < |s| {
        AssignKeepsCandidates(s, req, kinds, j', k);
      } else {
        AddedKindAt(s, req, kinds, j');
        DistinctApart(missing, j' - |s|, i);
      }
    }
    assert IsPrimary(r, |s| + i, req);
  }

  /** A CANCELLED task that is the first candidate of its kind is revived: ASSIGNED to the new assignee. */
  lemma AssignRevivesCancelledPrimary(s: seq<Task>, req: AssignRequest, kinds: seq<TaskKind>, j: int)
    requires 0 <= j < |s| && s[j].status == Cancelled && Applicable(s[j], req, kinds) && IsPrimary(s, j, req)
    ensures AssignResult(s, req, kinds)[j].status == Assigned
    ensures AssignResult(s, req, kinds)[j].assigneeId == req.assigneeId
  {
    AssignResultAt(s, req, kinds);
  }

  /**
   * Tasks created by the engine have no creation time, so the daily view
   * reads them as created at 0 and carries them into every window that
   * starts after 0, however late the task was actually created.
   */
  lemma NewTasksAlwaysCarryOver(s: seq<Task>, req: AssignRequest, kinds: seq<TaskKind>, j: int,
                                fetched: seq<Task>, start: int, end: int)
    requires |s| <= j < |AssignResult(s, req, kinds)|
    requires AssignResult(s, req, kinds)[j] in fetched && 0 < start
    ensures AssignResult(s, req, kinds)[j] in DailyView(fetched, start, end)
  {
    var t := AssignResult(s, req, kinds)[j];
    AssignResultAt(s, req, kinds);
    assert t == NewTask(j, req, MissingKinds(s, req, kinds)[j - |s|]);
    assert IsOpen(t) && CreatedOrZero(t) == 0;
  }
}
