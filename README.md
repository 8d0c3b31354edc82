# Workforce task management service — a Dafny model

This project models the task management service of a workforce management
back end. The service keeps work items ("tasks") that belong to an external
reference entity, such as an order or a shipment. Each task has a reference
id and type, a kind, an assignee, a status, a priority, a deadline, a creation
time, a description, a comment list and an activity history.

The model covers every operation of the service:

- **Reassignment by reference** (`assignByReference`). For each task kind
  that the catalog lists for the reference type, the first not-COMPLETED task
  of that kind, in store order, becomes the primary. The primary is assigned
  to the new assignee and set to ASSIGNED. Every later one is CANCELLED. A
  kind with no such task gets a new ASSIGNED task.
- **The three views.** The deadline-window fetch (`fetchTasksByDate`), the
  "smart daily view" with its carry-over rule (`smartDailyView`), and the
  priority lookup (`getTasksByPriority`).
- **The two history recorders.** `updatePriority` and `addComment`.
- **Batch creation and batch update.** `createTasks` and `updateTasks`.
- **Lookup by id.** `findTaskById`.

Structure:

- `model.dfy`: the task record, its comment and activity entries, status and
  priority, and the not-found error.
- `filters.dfy`: the order-preserving filter that every stream pipeline of
  the service is built from, and the subsequence relation.
- `repository.dfy`: the task store. It is a class whose `tasks` sequence is
  updated in place by an upsert `Save`. Ids are handed out in insertion
  order, so a task's id is its position.
- `views.dfy`: the three views as functions over a fetched list.
- `assignment.dfy`: `AssignResult`, the store after a reassignment, defined
  position by position. It comes with the lemmas about the engine: the
  dedup rule, creation of missing kinds, what is left untouched, and
  idempotence.
- `history.dfy`: what a priority change or a new comment does to one task.
- `batch.dfy`: creation items, update items, and the fold that a batch
  update performs.
- `service.dfy`: the service class. Its methods run the loops of the source
  against the store. Each method is proved against the functions above.
  `AssignByReference` runs one pass of its kind loop per `ReassignKind`
  call, with the inner loop that cancels duplicates. Its postcondition
  equates the final store with `AssignResult`.

Points where the code's behaviour differs from the documented intent of the
system (the model follows the code):

- Tasks created by `assignByReference` get no creation time. The documented
  intent is that they are stamped with the current time. The daily view reads a
  missing creation time as 0, so such a task carries over into every window
  that starts after 0 (`Assignment.NewTasksAlwaysCarryOver`).
- The documented intent is that CANCELLED tasks are not reusable. The code's candidate
  filter excludes only COMPLETED tasks, so a CANCELLED task that comes first
  is revived as the primary (`Assignment.AssignRevivesCancelledPrimary`).
- The daily view's window test is `start <= created <= end` or
  `created < start`. When `start > end`, a task created after `end` (but
  before `start`) is included (`Views.DailyViewInvertedWindow`).
- The source files of the status and priority enums are not part of this
  model. Their constant names are assumed to be ASSIGNED, IN_PROGRESS,
  COMPLETED, CANCELLED and LOW, MEDIUM, HIGH, URGENT, ADDITIONAL: the
  documented values (Assigned, InProgress, …, Low, …, Additional) in the
  Java enum-constant spelling. These assumed names also fix the text that
  `History.PriorityName` puts in the "Priority changed to …" entry.

## Model

All source paths are under `src/main/java/com/railse/hiring/workforcemgmt/`; the table gives them in full.

| member | source | states |
|---|---|---|
| Filters.Filter | src/main/java/com/railse/hiring/workforcemgmt/service/impl/TaskManagementServiceImpl.java:122-127 | a stream filter keeps exactly the elements of its input that satisfy the predicate, and never more elements than the input has |
| Filters.FilterIsSubsequence | src/main/java/com/railse/hiring/workforcemgmt/service/impl/TaskManagementServiceImpl.java:170-172 | a stream filter keeps input order: its output is a subsequence of its input |
| Filters.SubsequenceTransitive | src/main/java/com/railse/hiring/workforcemgmt/service/impl/TaskManagementServiceImpl.java:120-127 | a filter over a fetched list that was itself filtered from the store is still an order-preserving subsequence of the store |
| Repository.TaskRepository.FindById | src/main/java/com/railse/hiring/workforcemgmt/service/impl/TaskManagementServiceImpl.java:32-33 | the store finds a task exactly when the id is one it handed out, and returns the task stored under that id |
| Repository.TaskRepository.Save | src/main/java/com/railse/hiring/workforcemgmt/service/impl/TaskManagementServiceImpl.java:53 | saving a stored task replaces it under its id; saving a new task appends it under the next id; nothing else changes |
| Repository.TaskRepository.FindAll | src/main/java/com/railse/hiring/workforcemgmt/service/impl/TaskManagementServiceImpl.java:170 | all tasks, in store order |
| Repository.TaskRepository.FindByReferenceIdAndReferenceType | src/main/java/com/railse/hiring/workforcemgmt/service/impl/TaskManagementServiceImpl.java:83-84 | exactly the stored tasks with the given reference id and type, as an order-preserving subsequence of the store |
| Repository.TaskRepository.FindByAssigneeIdIn | src/main/java/com/railse/hiring/workforcemgmt/service/impl/TaskManagementServiceImpl.java:120 | exactly the stored tasks whose assignee is one of the given ids, as an order-preserving subsequence of the store |
| Repository.FilterKeepsIndexed | src/main/java/com/railse/hiring/workforcemgmt/service/impl/TaskManagementServiceImpl.java:87-89 | filtering a listing fetched from the store keeps its tasks stored under their ids, in increasing id order |
| Views.DeadlineView | src/main/java/com/railse/hiring/workforcemgmt/service/impl/TaskManagementServiceImpl.java:122-127 | a task is kept iff its deadline is non-null and lies in [start, end] (both ends inclusive) and it is not CANCELLED; the result is a subsequence of the input |
| Views.DailyView | src/main/java/com/railse/hiring/workforcemgmt/service/impl/TaskManagementServiceImpl.java:136-145 | a task is kept iff it is neither CANCELLED nor COMPLETED and its creation time (null read as 0) is at most `end` or before `start`; the result is a subsequence of the input |
| Views.PriorityView | src/main/java/com/railse/hiring/workforcemgmt/service/impl/TaskManagementServiceImpl.java:170-172 | a task is kept iff its priority equals the argument; the result is a subsequence, and empty exactly when no task has that priority |
| Views.DailyViewOrderedWindow | src/main/java/com/railse/hiring/workforcemgmt/service/impl/TaskManagementServiceImpl.java:137-143 | for start <= end the daily view is exactly the open tasks created no later than `end`, so a task created after `end` is excluded |
| Views.DailyViewCarryOver | src/main/java/com/railse/hiring/workforcemgmt/service/impl/TaskManagementServiceImpl.java:139-143 | an open task created before `start` appears, whatever `end` is |
| Views.DailyViewExcludesClosed | src/main/java/com/railse/hiring/workforcemgmt/service/impl/TaskManagementServiceImpl.java:137 | CANCELLED and COMPLETED tasks never appear, whatever their timestamps |
| Views.DailyViewInvertedWindow | src/main/java/com/railse/hiring/workforcemgmt/service/impl/TaskManagementServiceImpl.java:139-143 | with start 10 and end 3, an open task created at 5 (after `end`) still appears |
| Views.DeadlineViewKeepsCompleted | src/main/java/com/railse/hiring/workforcemgmt/service/impl/TaskManagementServiceImpl.java:122-126 | a COMPLETED task whose deadline is in the window stays in the deadline view but is excluded from the daily view: the two views differ |
| Views.DailyViewExample | src/main/java/com/railse/hiring/workforcemgmt/service/impl/TaskManagementServiceImpl.java:136-145 | open tasks created on days 1, 5 and 11 with window [3, 10]: the first carries over, the second is inside, the third is excluded, in input order |
| Assignment.MissingKinds | src/main/java/com/railse/hiring/workforcemgmt/service/impl/TaskManagementServiceImpl.java:86-91 | a listed kind is missing iff the store holds no not-COMPLETED task of that kind for the reference; nothing is missing when every kind has one |
| Assignment.AssignResult | src/main/java/com/railse/hiring/workforcemgmt/service/impl/TaskManagementServiceImpl.java:86-111 | reassignment never removes a task, and keeps ids equal to store positions |
| Assignment.AssignResultAt | src/main/java/com/railse/hiring/workforcemgmt/service/impl/TaskManagementServiceImpl.java:86-111 | position by position: each existing task is rewritten by the dedup rule, and after them come the new tasks of the missing kinds, in catalog order |
| Assignment.CandidateListing | src/main/java/com/railse/hiring/workforcemgmt/service/impl/TaskManagementServiceImpl.java:87-92 | in the filtered list of candidates of a kind, the head is the first candidate in store order, no later element is, and every candidate of the store is listed |
| Assignment.AssignPromotesFirstCancelsRest | src/main/java/com/railse/hiring/workforcemgmt/service/impl/TaskManagementServiceImpl.java:86-101 | among the existing not-COMPLETED tasks of a listed kind, in store order, the first gets the request's assignee and ASSIGNED, and every later one becomes CANCELLED with its assignee unchanged |
| Assignment.AssignCreatesOneTaskPerMissingKind | src/main/java/com/railse/hiring/workforcemgmt/service/impl/TaskManagementServiceImpl.java:103-111 | a listed kind with no candidate gets exactly one new task, with the request's reference, the kind, the request's assignee and ASSIGNED |
| Assignment.AddedKindsUnique | src/main/java/com/railse/hiring/workforcemgmt/service/impl/TaskManagementServiceImpl.java:103-111 | no kind gets two new tasks when the catalog lists each kind once |
| Assignment.AssignNoKindsIsNoOp | src/main/java/com/railse/hiring/workforcemgmt/service/impl/TaskManagementServiceImpl.java:82-114 | a reference type with no listed kinds leaves the store unchanged |
| Assignment.AssignKeepsCandidates | src/main/java/com/railse/hiring/workforcemgmt/service/impl/TaskManagementServiceImpl.java:93-100 | the rewrite never changes a task's reference or kind and never makes a task COMPLETED, so the candidates stay the same |
| Assignment.AssignLeavesOthersUntouched | src/main/java/com/railse/hiring/workforcemgmt/service/impl/TaskManagementServiceImpl.java:83-88 | COMPLETED tasks, tasks of kinds the catalog does not list and tasks of other references are left exactly as they were |
| Assignment.OpenAfterAssign | src/main/java/com/railse/hiring/workforcemgmt/service/impl/TaskManagementServiceImpl.java:86-111 | after reassignment, an open task of a listed kind is either the old primary or the task created for a missing kind |
| Assignment.AssignLeavesAnAssignedTaskPerKind | src/main/java/com/railse/hiring/workforcemgmt/service/impl/TaskManagementServiceImpl.java:86-111 | every listed kind ends with an open task of the reference, ASSIGNED to the request's assignee |
| Assignment.AssignLeavesAtMostOneOpenTaskPerKind | src/main/java/com/railse/hiring/workforcemgmt/service/impl/TaskManagementServiceImpl.java:86-111 | every listed kind ends with at most one task of the reference that is neither CANCELLED nor COMPLETED |
| Assignment.KeptIsStable | src/main/java/com/railse/hiring/workforcemgmt/service/impl/TaskManagementServiceImpl.java:86-101 | a second pass leaves every rewritten existing task as the first pass left it |
| Assignment.AddedIsStable | src/main/java/com/railse/hiring/workforcemgmt/service/impl/TaskManagementServiceImpl.java:103-111 | when the catalog lists each kind once, a task created by the first pass is the primary of its kind in the second pass and is left as it is |
| Assignment.AssignIdempotent | src/main/java/com/railse/hiring/workforcemgmt/service/impl/TaskManagementServiceImpl.java:82-114 | a second call with the same request leaves the store exactly as the first call left it: no new task, no status or assignee change |
| Assignment.AssignRevivesCancelledPrimary | src/main/java/com/railse/hiring/workforcemgmt/service/impl/TaskManagementServiceImpl.java:88-94 | a CANCELLED task that is the first candidate of a listed kind becomes ASSIGNED to the request's assignee |
| Assignment.NewTasksAlwaysCarryOver | src/main/java/com/railse/hiring/workforcemgmt/service/impl/TaskManagementServiceImpl.java:104-110 | a task created by the engine has no creation time, so it appears in the daily view for every window starting after 0 |
| History.WithPriority | src/main/java/com/railse/hiring/workforcemgmt/service/impl/TaskManagementServiceImpl.java:156-162 | the priority becomes the requested one; exactly one activity entry "Priority changed to <priority> by <user>" is appended with the earlier entries unchanged; nothing else changes |
| History.WithComment | src/main/java/com/railse/hiring/workforcemgmt/service/impl/TaskManagementServiceImpl.java:181-188 | exactly one comment with the given author and text is appended, and exactly one activity entry "Comment added by <author>"; earlier entries are unchanged and nothing else changes |
| History.HistoryFollowsCallOrder | src/main/java/com/railse/hiring/workforcemgmt/service/impl/TaskManagementServiceImpl.java:158-162 | a comment followed by a priority change leaves their two activity entries at the end of the history, in call order |
| History.RecordersKeepAssignment | src/main/java/com/railse/hiring/workforcemgmt/service/impl/TaskManagementServiceImpl.java:156-188 | neither recorder changes status, assignee, id, kind, reference id or reference type |
| Batch.ApplyUpdate | src/main/java/com/railse/hiring/workforcemgmt/service/impl/TaskManagementServiceImpl.java:68-73 | status and description are overwritten only when the item's field is non-null; every other field is unchanged |
| Batch.FirstMissing | src/main/java/com/railse/hiring/workforcemgmt/service/impl/TaskManagementServiceImpl.java:63-65 | the position of the first item whose id is not in the store: every earlier id is found and this one is not |
| Batch.Updated | src/main/java/com/railse/hiring/workforcemgmt/service/impl/TaskManagementServiceImpl.java:63-75 | applying update items never adds or removes a task |
| Batch.UpdatedChangesOnlyStatusAndDescription | src/main/java/com/railse/hiring/workforcemgmt/service/impl/TaskManagementServiceImpl.java:68-74 | a batch update changes only status and description; a task no item names is unchanged; a field that every item naming the task leaves null is unchanged |
| Batch.UpdatedLastStatusWins | src/main/java/com/railse/hiring/workforcemgmt/service/impl/TaskManagementServiceImpl.java:63-74 | the last item naming a task with a non-null status decides the task's final status |
| Batch.UpdatedLastDescriptionWins | src/main/java/com/railse/hiring/workforcemgmt/service/impl/TaskManagementServiceImpl.java:63-74 | the last item naming a task with a non-null description decides the task's final description |
| Batch.UpdatedKeepsIds | src/main/java/com/railse/hiring/workforcemgmt/service/impl/TaskManagementServiceImpl.java:63-74 | a batch update keeps every task under its id |
| Service.TaskManagementService.FindTaskById | src/main/java/com/railse/hiring/workforcemgmt/service/impl/TaskManagementServiceImpl.java:31-35 | returns the stored task iff the id is in the store, otherwise not-found for that id |
| Service.TaskManagementService.CreateTasks | src/main/java/com/railse/hiring/workforcemgmt/service/impl/TaskManagementServiceImpl.java:38-56 | one new ASSIGNED task per item, in item order, with the item's fields, description "New task created." and creation time `now`, appended to the store under fresh ids and returned |
| Service.TaskManagementService.UpdateTasks | src/main/java/com/railse/hiring/workforcemgmt/service/impl/TaskManagementServiceImpl.java:61-77 | the items before the first unknown id are applied and stay saved; an unknown id yields not-found for it; with no unknown id every item is applied and the result lists each item's task as finally stored |
| Service.TaskManagementService.AssignByReference | src/main/java/com/railse/hiring/workforcemgmt/service/impl/TaskManagementServiceImpl.java:81-115 | the store after the call is `AssignResult` of the store before it and the catalog's kinds; the message is "Tasks reassigned successfully for reference <id>" |
| Service.TaskManagementService.ReassignKind | src/main/java/com/railse/hiring/workforcemgmt/service/impl/TaskManagementServiceImpl.java:87-111 | one pass of the kind loop extends the processed kinds by one: primary promoted, duplicates cancelled, or one task created |
| Service.TaskManagementService.FetchTasksByDate | src/main/java/com/railse/hiring/workforcemgmt/service/impl/TaskManagementServiceImpl.java:119-130 | the result is the deadline view of the store filtered to the given assignees: exactly the stored tasks of those assignees with a non-null deadline in [start, end] that are not CANCELLED, in store order |
| Service.TaskManagementService.SmartDailyView | src/main/java/com/railse/hiring/workforcemgmt/service/impl/TaskManagementServiceImpl.java:133-148 | the result is the daily view of the store filtered to the given assignees: exactly the stored open tasks of those assignees created no later than `end` or before `start` (null read as 0), in store order |
| Service.TaskManagementService.GetTasksByPriority | src/main/java/com/railse/hiring/workforcemgmt/service/impl/TaskManagementServiceImpl.java:169-174 | the result is the priority view of the store: exactly the stored tasks with the given priority, in store order; empty iff none has it |
| Service.TaskManagementService.UpdatePriority | src/main/java/com/railse/hiring/workforcemgmt/service/impl/TaskManagementServiceImpl.java:152-166 | an unknown id yields not-found and leaves the store unchanged; otherwise the task is replaced by `WithPriority` of it, which is also returned |
| Service.TaskManagementService.AddComment | src/main/java/com/railse/hiring/workforcemgmt/service/impl/TaskManagementServiceImpl.java:177-192 | an unknown id yields not-found and leaves the store unchanged; otherwise the task is replaced by `WithComment` of it, which is also returned |

## Left out

- HTTP routing and response wrapping (`TaskController`, `SimpleResponseStatus`) are not modelled; the service methods are modelled directly.
- The DTO mapper is taken as the identity: methods return task values.
- The task store's implementation is not part of this model. It is modelled as an in-memory sequence with ids 0, 1, 2, ... in insertion order, and its queries return tasks in store order.
- Persistence failures are not modelled; every save succeeds.
- The reference-type catalog (`Task.getTasksByReferenceType`) is not part of this model. It is a function parameter of `AssignByReference`.
- The clock is a `now` parameter with one value per call. The source reads the clock separately for every id and timestamp, and for every item of `createTasks`, so those values may differ in the source.
- The uniqueness of comment and activity ids is not modelled. They come from the clock, so the source does not guarantee it.
- Tasks are values. The source mutates shared task objects and saves them again; the model writes the updated value back under its id. In `assignByReference` the per-kind candidate lists come from the list fetched at the start. This gives the same result as the source's shared objects: kinds never change, and statuses move only between non-COMPLETED values, so each fetched task gets the same writes.
- Null request fields other than those the source tests are not modelled: ids, assignee ids, kinds and the priority path variable are always present. Null comment and activity lists are not modelled either.
- Integer width is not modelled: ids and timestamps are unbounded integers, whereas the source uses 64-bit `Long`.
- Concurrent calls are not modelled.
- Assignment.AssignIdempotent: proved only when the catalog lists each kind once. With a repeated kind that has no candidate, the first call creates two tasks of that kind and the second call cancels one of them.
- Assignment.AddedIsStable: proved only when the catalog lists each kind once, for the same reason: with a repeated missing kind, the second call cancels the second task created for it.
- Assignment.AssignLeavesAtMostOneOpenTaskPerKind: proved only when the catalog lists each kind once, for the same reason.
- Assignment.AssignCreatesOneTaskPerMissingKind: proved only when the catalog lists each kind once, for the same reason.
