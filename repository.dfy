/**
 * The task store the service runs against: an in-memory keyed store whose
 * ids are handed out in insertion order, so that the id of a task is its
 * position in store order.
 */
module Repository {
  import opened Model
  import opened Filters

  /** Ids are 0, 1, 2, ... in store order. */
  predicate IdsArePositions(s: seq<Task>) {
    forall i :: 0 <= i < |s| ==> s[i].id == i
  }

  /**
   * `c` lists stored tasks of `s` as they are stored, in strictly increasing
   * id order: what a filter over the store returns.
   */
  predicate Indexed(c: seq<Task>, s: seq<Task>) {
    (forall m :: 0 <= m < |c| ==> 0 <= c[m].id < |s| && s[c[m].id] == c[m]) &&
    (forall m1, m2 :: 0 <= m1 < m2 < |c| ==> c[m1].id < c[m2].id)
  }

  lemma StoreIsIndexed(s: seq<Task>)
    requires IdsArePositions(s)
    ensures Indexed(s, s)
  {
  }

  /** Filtering an indexed listing keeps it indexed. */
  lemma {:induction false} FilterKeepsIndexed(c: seq<Task>, s: seq<Task>, keep: Task -> bool)
    requires Indexed(c, s)
    ensures Indexed(Filter(c, keep), s)
    decreases |c|
  {
    if c != [] {
      assert Indexed(c[1..], s);
      FilterKeepsIndexed(c[1..], s, keep);
      var rest := Filter(c[1..], keep);
      if keep(c[0]) {
        forall m | 0 <= m < |rest|
          ensures c[0].id < rest[m].id
        {
          assert rest[m] in c[1..];
          var k :| 0 <= k < |c[1..]| && c[1..][k] == rest[m];
          assert c[k + 1] == rest[m];
        }
        ConsKeepsIndexed(c[0], rest, s);
        assert Filter(c, keep) == [c[0]] + rest;
      }
    }
  }

  lemma ConsKeepsIndexed(x: Task, rest: seq<Task>, s: seq<Task>)
    requires 0 <= x.id < |s| && s[x.id] == x && Indexed(rest, s)
    requires forall m :: 0 <= m < |rest| ==> x.id < rest[m].id
    ensures Indexed([x] + rest, s)
  {
    var c := [x] + rest;
    assert forall m :: 1 <= m < |c| ==> c[m] == rest[m - 1];
  }

  /** Every task of the store that satisfies `keep` appears in the filtered listing, under its id. */
  lemma FilterFindsStored(s: seq<Task>, c: seq<Task>, keep: Task -> bool, j: int)
    requires IdsArePositions(s) && 0 <= j < |s|
    requires forall x :: x in c <==> x in s && keep(x)
    requires keep(s[j])
    ensures exists m :: 0 <= m < |c| && c[m] == s[j] && c[m].id == j
  {
    assert s[j] in c;
  }

  class TaskRepository {
    var tasks: seq<Task>

    ghost predicate Valid()
      reads this
    {
      IdsArePositions(tasks)
    }

    constructor ()
      ensures Valid() && tasks == []
    {
      tasks := [];
    }

    method FindById(id: int) returns (r: Option<Task>)
      requires Valid()
      ensures r.Some? <==> 0 <= id < |tasks|
      ensures r.Some? ==> r.value == tasks[id] && r.value.id == id
    {
      if 0 <= id < |tasks| {
        r := Some(tasks[id]);
      } else {
        r := None;
      }
    }

    /** Upsert: a task carrying a stored id replaces it; any other task is appended under a fresh id. */
    method Save(t: Task) returns (saved: Task)
      requires Valid()
      modifies this
      ensures Valid()
      ensures 0 <= t.id < |old(tasks)| ==> saved == t && tasks == old(tasks)[t.id := t]
      ensures !(0 <= t.id < |old(tasks)|) ==>
                saved == t.(id := |old(tasks)|) && tasks == old(tasks) + [saved]
    {
      if 0 <= t.id < |tasks| {
        saved := t;
        tasks := tasks[t.id := t];
      } else {
        saved := t.(id := |tasks|);
        tasks := tasks + [saved];
      }
    }

    method FindAll() returns (r: seq<Task>)
      ensures r == tasks
    {
      r := tasks;
    }

    method FindByReferenceIdAndReferenceType(referenceId: int, referenceType: ReferenceType) returns (r: seq<Task>)
      ensures r == Filter(tasks, (t: Task) => t.referenceId == referenceId && t.referenceType == referenceType)
      ensures IsSubsequence(r, tasks)
      ensures forall t :: t in r <==> t in tasks && t.referenceId == referenceId && t.referenceType == referenceType
    {
      FilterIsSubsequence(tasks, (t: Task) => t.referenceId == referenceId && t.referenceType == referenceType);
      r := Filter(tasks, (t: Task) => t.referenceId == referenceId && t.referenceType == referenceType);
    }

    method FindByAssigneeIdIn(assigneeIds: seq<int>) returns (r: seq<Task>)
      ensures r == Filter(tasks, (t: Task) => t.assigneeId in assigneeIds)
      ensures IsSubsequence(r, tasks)
      ensures forall t :: t in r <==> t in tasks && t.assigneeId in assigneeIds
    {
      FilterIsSubsequence(tasks, (t: Task) => t.assigneeId in assigneeIds);
      r := Filter(tasks, (t: Task) => t.assigneeId in assigneeIds);
    }
  }
}
