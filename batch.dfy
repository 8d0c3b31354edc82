/**
 * Batch creation and batch update of tasks. Items are processed one at a
 * time and saved as they go; a missing id stops the batch, and what was
 * saved before it stays saved.
 */
module Batch {
  import opened Model
  import opened Repository

  datatype CreateItem = CreateItem(
    referenceId: int,
    referenceType: ReferenceType,
    kind: TaskKind,
    assigneeId: int,
    priority: Option<Priority>,
    deadline: Option<int>)

  const NewTaskDescription: string := "New task created."

  /** The unsaved task built for one creation item at time `now`. */
  function CreatedFrom(item: CreateItem, now: int): Task {
    Task(Unsaved, item.referenceId, item.referenceType, item.kind, item.assigneeId, Assigned,
         item.priority, item.deadline, Some(now), Some(NewTaskDescription), [], [])
  }

  /** One update item: a null status or description leaves that field alone. */
  datatype UpdateItem = UpdateItem(taskId: int, status: Option<TaskStatus>, description: Option<string>)

  function ApplyUpdate(t: Task, item: UpdateItem): (r: Task)
    ensures r.status == (if item.status.Some? then item.status.value else t.status)
    ensures r.description == (if item.description.Some? then item.description else t.description)
    ensures r.(status := t.status, description := t.description) == t
  {
    var withStatus := if item.status.Some? then t.(status := item.status.value) else t;
    if item.description.Some? then withStatus.(description := item.description) else withStatus
  }

  predicate Known(id: int, n: int) {
    0 <= id < n
  }

  /** Index of the first item whose id is not among `n` stored tasks; |items| when every id is known. */
  function FirstMissing(n: int, items: seq<UpdateItem>): (k: nat)
    ensures k <= |items|
    ensures forall i :: 0 <= i < k ==> Known(items[i].taskId, n)
    ensures k < |items| ==> !Known(items[k].taskId, n)
    decreases |items|
  {
    if items == [] || !Known(items[0].taskId, n) then 0
    else 1 + FirstMissing(n, items[1..])
  }

  /** The store after applying `items` in order; an item with an unknown id is passed over. */
  function Updated(s: seq<Task>, items: seq<UpdateItem>): (r: seq<Task>)
    ensures |r| == |s|
    decreases |items|
  {
    if items == [] then s
    else
      var before := Updated(s, items[..|items| - 1]);
      var item := items[|items| - 1];
      if Known(item.taskId, |before|) then before[item.taskId := ApplyUpdate(before[item.taskId], item)]
      else before
  }

  /**
   * A batch update changes only status and description: a task no item names
   * is unchanged, and a field that every item naming the task leaves null
   * keeps its value.
   */
  lemma {:induction false} UpdatedChangesOnlyStatusAndDescription(s: seq<Task>, items: seq<UpdateItem>, j: int)
    requires 0 <= j < |s|
    ensures Updated(s, items)[j].(status := s[j].status, description := s[j].description) == s[j]
    ensures (forall i :: 0 <= i < |items| ==> items[i].taskId != j) ==> Updated(s, items)[j] == s[j]
    ensures (forall i :: 0 <= i < |items| && items[i].taskId == j ==> items[i].status.None?) ==>
              Updated(s, items)[j].status == s[j].status
    ensures (forall i :: 0 <= i < |items| && items[i].taskId == j ==> items[i].description.None?) ==>
              Updated(s, items)[j].description == s[j].description
    decreases |items|
  {
    if items != [] {
      var init := items[..|items| - 1];
      assert forall i :: 0 <= i < |init| ==> init[i] == items[i];
      UpdatedChangesOnlyStatusAndDescription(s, init, j);
    }
  }

  /** The last item naming a task with a non-null status decides that task's status. */
  lemma {:induction false} UpdatedLastStatusWins(s: seq<Task>, items: seq<UpdateItem>, i: int)
    requires 0 <= i < |items| && Known(items[i].taskId, |s|) && items[i].status.Some?
    requires forall i' :: i < i' < |items| ==> items[i'].taskId != items[i].taskId || items[i'].status.None?
    ensures Updated(s, items)[items[i].taskId].status == items[i].status.value
    decreases |items|
  {
    var init := items[..|items| - 1];
    if i < |items| - 1 {
      UpdatedLastStatusWins(s, init, i);
    }
  }

  /** The last item naming a task with a non-null description decides that task's description. */
  lemma {:induction false} UpdatedLastDescriptionWins(s: seq<Task>, items: seq<UpdateItem>, i: int)
    requires 0 <= i < |items| && Known(items[i].taskId, |s|) && items[i].description.Some?
    requires forall i' :: i < i' < |items| ==> items[i'].taskId != items[i].taskId || items[i'].description.None?
    ensures Updated(s, items)[items[i].taskId].description == items[i].description
    decreases |items|
  {
    var init := items[..|items| - 1];
    if i < |items| - 1 {
      UpdatedLastDescriptionWins(s, init, i);
    }
  }

  /** Batch updates keep ids equal to store positions. */
  lemma UpdatedKeepsIds(s: seq<Task>, items: seq<UpdateItem>)
    requires IdsArePositions(s)
    ensures IdsArePositions(Updated(s, items))
  {
    forall j | 0 <= j < |s|
      ensures Updated(s, items)[j].id == j
    {
      UpdatedChangesOnlyStatusAndDescription(s, items, j);
    }
  }
}
