# Organization hierarchy engine, modelled in Dafny

The repository holds two independent versions of `EmployeeOrgApp`. Each keeps a chart of
`Employee` objects (`uniqueId`, `name`, an ordered `subordinates` array) under a `ceo`,
re-parents one employee per `move`, and offers `undo` and `redo`.

- **Snapshot variant (`index.js`).**
  - `move` hands the moved employee's direct reports to the old supervisor and appends the
    now childless employee to the target.
  - Before editing, `move` pushes a deep copy of `history[currentIndex]` onto `history`.
  - `undo` diffs two snapshots by position, replays the differences through `move`, and
    installs a copy of the previous snapshot.
  - `redo` advances the cursor and installs a copy.
- **Action-log variant (`index.ts`).**
  - `move` records the employee's id and the two supervisor objects.
  - `move` takes the employee, with everyone below it, out of the old list and appends it
    to the target's list.
  - `undo` pops the last record and moves the employee back.
  - `redo` always throws.

## The shared object model (`org_tree.dfy`)

JavaScript objects, and the aliasing between them, are modelled as an explicit store
`Heap = map<Ref, Employee>`. An object's `subordinates` is a `seq<Ref>` of references.

- A ghost `Tree` gives the shape of the part reachable from a reference, and `Represents`
  ties it to the store.
- `Value` turns a represented part into a plain `Org` value (ids, names, child order), which
  is what "structurally equal" means below.
- `WellFormed` says the reachable part is a tree with unique ids.
- The lookups are compiled recursive functions. Their ghost `Tree` argument bounds the
  recursion. On a reachable cycle the JavaScript recursion may not end; it then throws a
  `RangeError` once the stack is exhausted, which the model does not represent.
- A thrown error is an `Outcome` of `Failed(failure)`, with one `Failure` per message.

## Snapshot variant

- `clone.dfy`: `cloneEmployeeHierarchy`. The copy uses only fresh objects and has the same
  value as the original.
- `snapshot_move.dfy`: the edit `move` performs, and what it does to the tree.
  - `Flatten` is the store edit.
  - `MoveEdit` and `MoveShape` give the store and the hierarchy after an allowed move.
  - `MoveAllowed` says the employee is present and is not the top, and the target is present.
- `snapshot_diff.dfy`: `findHierarchyDifferences` and `findEmployeeDifferences`.
  - They walk with an explicit accumulator, mirroring the `push` into the caller's array.
  - `None` stands for the `TypeError` thrown when a current child has no previous child at
    the same position.
- `snapshot_app.dfy`: the class, with fields `heap`, `ceo`, `history` and `currentIndex`, and
  ghost views of the live tree, the snapshots and the initial chart.
  - The invariant `Consistent` says:
    - the live chart is well-formed;
    - every snapshot is a copy of the initial chart held apart from the live chart;
    - the cursor indexes `history`.

As written, `move` copies the current snapshot rather than the live chart (`index.js:27`).
So every snapshot equals the initial chart, and a successful `undo` or `redo` always
reinstalls the initial chart. The model proves exactly that (`SnapshotApp.EmployeeOrgApp.Undo`
and `SnapshotApp.EmployeeOrgApp.Redo`). It does not prove that the state after the last move
comes back, which is what a move/undo/redo round trip would suggest.

`undo` replays its differences through `move`. Each replayed move appends to `history` and
advances `currentIndex` before the one final decrement. So after a successful `undo` on a
chart of n employees, `currentIndex` is the old value plus n - 2, not the old value minus 1.
The model states this too.

## Action-log variant (`action_log.dfy`)

The class has fields `heap`, `ceo`, `history: seq<Action>` and a ghost view `live`.
`Action(employeeId, fromSupervisor, toSupervisor)` holds object references, as the source
does.

- `Relink` is the store edit shared by `move` and `undo`. It applies JavaScript's
  `splice(idx, 1)` to the source list and `push` to the target list. `SpliceOne` follows
  JavaScript's negative-start rule, so a `findIndex` of -1 removes the last element.
- `move` may put an employee under a node of its own subtree, or under itself. The moved
  subtree is then cut off from `ceo`. `MoveKeepsTree` states that the chart still reachable
  is well-formed and has lost exactly that subtree.
- `undo` consumes the record before it checks the employee.
- `MoveThenUndo` states the round trip over all inputs. A `move(e, s)` where `s` is outside
  `e`'s subtree, followed by `undo()`, gives back every list except the old supervisor's.
  That list gets `e` back at its end, not at its former position. The source's demonstration,
  `move(7, 2)` then `undo()` (`index.ts:207-214`), is one instance.

## Model

| member | source | states |
|---|---|---|
| OrgTree.FindEmployee | index.js:78-90 | the result is the first object in pre-order of the hierarchy whose id matches, so the top itself when its id matches, and none when no reachable object has the id; the same code is index.ts:79-92 |
| OrgTree.FindEmployeeAmong | index.js:82-88 | searching the subordinates in order returns the first match in the pre-order of their subtrees taken one after another |
| OrgTree.FindSupervisor | index.js:91-103 | the result is the first object in pre-order whose own list holds an object with the id, or none; the same code is index.ts:94-107 |
| OrgTree.FindSupervisorAmong | index.js:95-101 | searching the subordinates in order returns the first supervisor found in their subtrees taken one after another |
| OrgTree.FindEmployeeExact | index.ts:79-92 | on a well-formed chart the lookup finds x exactly when x is reachable and carries the id, and fails exactly when no reachable object carries it |
| OrgTree.FindSupervisorExact | index.ts:94-107 | on a well-formed chart a supervisor is found exactly when the id belongs to a reachable object other than the top |
| OrgTree.FindSupervisorHoldsEmployee | index.ts:94-107 | a found supervisor is reachable, and its list holds the object `findEmployee` finds and no other object with that id; that object is not the top |
| OrgTree.FindSupervisorOfTop | index.js:91-103 | with unique ids, the top's own id has no supervisor |
| OrgTree.WellFormedIff | index.js:15-19 | a reachable part is well-formed exactly when every reachable object occurs once in it and no two reachable objects share an id |
| OrgTree.IndexOfId | index.ts:42-44 | `findIndex`: -1 exactly when no listed object has the id, otherwise the position of the first one that has it |
| OrgTree.FindIndex | index.js:33-39 | the search loop of the snapshot `move` returns the position `findIndex` would, -1 when there is none |
| OrgTree.SpliceOne | index.ts:45 | `splice(start, 1)` deletes the one element at the clamped start, counting a negative start from the end, and deletes nothing past the end: the list is one shorter exactly when that start is inside it, elements before the start stay in place and elements after it shift down by one |
| OrgTree.SpliceMinusOne | index.ts:66-69 | `splice(-1, 1)`, reached when `findIndex` fails, drops the last element of a non-empty list |
| OrgTree.SpliceAtIndex | index.js:41 | splicing out a valid position removes that one element and keeps the rest in order |
| OrgTree.SetSubordinates | index.js:45 | replacing one object's list changes nothing else in the store and no id |
| OrgTree.Push | index.ts:48 | `push` appends the reference to that one list and changes nothing else |
| OrgClone.CloneEmployeeHierarchy | index.js:1-13 | the copy has the same ids, names and child order as the original, only adds objects to the store, and is built only from fresh objects |
| SnapshotMove.LookupsSucceedIff | index.js:21-26 | the three lookups of `move` all succeed exactly when the employee is reachable and is not the top and the target is reachable |
| SnapshotMove.MoveSlot | index.js:32-39 | after the lookups succeed, the search loop finds the employee in its supervisor's list, and target equals employee exactly when the two ids are equal |
| SnapshotMove.MoveLists | index.js:40-48 | the old supervisor's list loses its first entry for the employee and gains the employee's former reports in order; the employee's list is emptied; the employee is appended last to the target; nothing else changes |
| SnapshotMove.FlattenLists | index.js:40-48 | the store edit, stated list by list for the three objects it touches, including target equal to old supervisor or to employee |
| SnapshotMove.MoveReshapes | index.js:40-48 | after an allowed move the chart is well-formed, no id changes, and the reachable ids are unchanged unless employee and target ids are equal, when the employee is lost |
| SnapshotMove.FlattenReshapes | index.js:40-48 | the edit leaves a well-formed chart whose objects are the old ones, less the employee when it is its own target |
| SnapshotMove.RemoveFirstCount | index.js:41 | removing the first occurrence takes out one copy of the element when present and changes nothing otherwise |
| SnapshotMove.FirstSlot | index.js:34-41 | splicing the first matching position is removing the first occurrence |
| SnapshotDiff.FindHierarchyDifferences | index.js:104-108 | the result is the record sequence of the positional walk from an empty array, or the crash |
| SnapshotDiff.FindEmployeeDifferences | index.js:109-121 | the walk appends to the caller's records exactly the records of the pair, or crashes |
| SnapshotDiff.FindSubordinateDifferences | index.js:116-120 | the loop over the current children appends the records of each aligned pair in order, or crashes |
| SnapshotDiff.DifferencesDefinedIff | index.js:116-119 | the walk does not crash exactly when every current child, at every depth, has a previous child at the same position |
| SnapshotDiff.SubordinateDefinedIff | index.js:116-119 | the first n children walk without crashing exactly when the previous node has at least n children and each pair is aligned |
| SnapshotDiff.DifferenceIds | index.js:109-121 | the records name the current hierarchy's ids in pre-order, less the top when the top pair is not recorded |
| SnapshotDiff.SelfDifferences | index.js:109-121 | a hierarchy compared with an equal one gives, in pre-order, each non-top employee paired with its own supervisor |
| SnapshotDiff.ParentPairsReport | index.js:111-114 | every such record pairs an employee with its direct supervisor |
| SnapshotDiff.ReportIds | index.js:111-114 | a recorded employee and supervisor both belong to the hierarchy, and differ when ids are unique |
| SnapshotDiff.UndoRecords | index.js:54-63 | for two equal snapshots with unique ids, the diff has one record per non-top employee, in pre-order, each naming a supervisor of the chart other than the employee |
| SnapshotApp.LiveAfterMove | index.js:40-48 | after the copy and the edit, the live chart is well-formed, keeps the top id and holds only ids of the initial chart |
| SnapshotApp.HistoryKept | index.js:27-30 | the history truncated after the cursor, plus the fresh copy, still holds only copies of the initial chart, apart from the live chart |
| SnapshotApp.MoveCommit | index.js:27-48 | a successful move keeps the invariant, keeps the history up to the cursor, appends one copy and moves the cursor to the last entry |
| SnapshotApp.Relocate | index.js:40-48 | the loop that hands the reports over and the pushes compute the store edit of `move` |
| SnapshotApp.MoveFoundEmployee | index.js:27-48 | once the lookups succeed the move is allowed, and the copy, truncation, append and edit keep the invariant and give the stated new state |
| SnapshotApp.ReplayAllowedIff | index.js:59-63 | every replayed move of an undo is allowed exactly when every id of the initial chart is still reachable |
| SnapshotApp.ReplayKeepsIds | index.js:59-63 | a replayed move whose employee and target ids differ keeps the set of reachable ids |
| SnapshotApp.Restore | index.js:64-65 | installing a fresh copy of a snapshot gives a live chart equal to the initial chart and keeps the invariant |
| SnapshotApp.EmployeeOrgApp.constructor | index.js:15-19 | history is one fresh copy of the chart, the cursor is 0, and the invariant holds |
| SnapshotApp.EmployeeOrgApp.Move | index.js:20-49 | fails with "Invalid employee or supervisor ID" and changes nothing exactly when the move is not allowed; otherwise keeps the invariant and performs the copy, truncation, append, cursor update and edit |
| SnapshotApp.EmployeeOrgApp.Replay | index.js:59-63 | the loop of moves succeeds exactly when every move is allowed on the chart it starts from; it keeps the reachable ids and the history up to the old cursor, and advances the cursor once per move |
| SnapshotApp.EmployeeOrgApp.Undo | index.js:50-68 | fails with "No actions to undo" and changes nothing when the cursor is 0; otherwise succeeds exactly when every initial id is still reachable, and then leaves the live chart equal to the initial chart with the cursor advanced by the replayed moves less one and an entry after the new cursor, so `redo` is available; with two or more ids exactly one entry follows it |
| SnapshotApp.EmployeeOrgApp.Redo | index.js:69-77 | fails with "No actions to redo" and changes nothing exactly when the cursor is at the last entry; otherwise advances the cursor and installs a fresh copy equal to the initial chart |
| ActionLog.Relink | index.ts:41-48 | the splice and push touch only the source and target lists; the target's list ends with the employee, and no object or id changes |
| ActionLog.SpliceKeeps | index.ts:45 | a splice never adds an element to a list |
| ActionLog.RelinkClosed | index.ts:41-48 | the edit introduces no dangling reference |
| ActionLog.LoggedPush | index.ts:34-38 | appending a record of two stored supervisors keeps every record pointing at stored objects |
| ActionLog.RelinkReshapes | index.ts:40-48 | taking a subtree out of its parent's list and appending it elsewhere leaves a well-formed chart; the chart loses the subtree exactly when the target is not reachable outside it |
| ActionLog.MoveRecordNames | index.ts:26-38 | the record holds the employee id, the employee's reachable supervisor, whose list holds the employee, and the reachable object with the target id |
| ActionLog.MoveKeepsTree | index.ts:40-48 | an allowed move leaves a well-formed chart. When the target lies outside the moved subtree, the chart keeps every object and every id. Otherwise it loses exactly that subtree and its ids |
| ActionLog.UndoKeepsTree | index.ts:64-72 | undoing a record whose target is reachable and lists the employee leaves a well-formed chart with no new objects |
| ActionLog.MoveStep | index.ts:26-48 | when the lookups succeed, the move is allowed, and the pushed record and the splice/push edit are the move's record and store, leaving a well-formed chart |
| ActionLog.MoveThenFind | index.ts:25-68 | after a move to a target outside the moved subtree, the employee is found again, and the recorded target lists it last |
| ActionLog.RelinkBack | index.ts:45-72 | moving out and back restores every list except the old supervisor's, which loses the employee's slot and ends with the employee |
| ActionLog.MoveThenUndo | index.ts:25-73 | a move to a target outside the moved subtree, then its undo, restores every list exactly except the old supervisor's, which has the employee moved to its end |
| ActionLog.EmployeeOrgApp.constructor | index.ts:21-23 | the log starts empty over the given chart |
| ActionLog.EmployeeOrgApp.Move | index.ts:25-49 | fails with "Invalid employee or supervisor ID", pushing nothing and changing nothing, exactly when the move is not allowed; otherwise pushes the move's record and leaves the edited store and a well-formed chart |
| ActionLog.EmployeeOrgApp.Undo | index.ts:51-73 | fails with "No actions to undo" and changes nothing on an empty log. Otherwise it pops the record. It fails with "Invalid employee ID", leaving the chart unchanged, exactly when the employee is not reachable. Otherwise it performs the undo edit, and keeps the chart well-formed when the record is restorable |
| ActionLog.EmployeeOrgApp.Redo | index.ts:75-77 | always fails with "Redo feature is not implemented" and changes nothing |

## Left out

- Rendering and input are left out: `displayHierarchy`, `clearHierarchy`, the button
  handlers and their `parseInt` of the form fields (`index.js:124-263`), and the console
  output of `index.ts` (`index.ts:110-117`, `index.ts:206-219`). The render calls inside
  `undo` and `redo` are treated as doing nothing.
- The hard-coded charts (`index.js:125-208`, `index.ts:120-205`) are data and are not part
  of this model. The demonstration on the second chart is covered by
  `ActionLog.MoveThenUndo`, which states the round trip for every chart whose target lies
  outside the moved subtree; the demonstration chart itself is not encoded.
- Object identity is a store reference, and fresh objects are the next unused references.
  Garbage collection, and objects not reachable from any field, are not modelled.
- Ids are mathematical integers. JavaScript's number semantics (`NaN`, fractional ids) are
  not modelled.
- SnapshotApp.EmployeeOrgApp.constructor and ActionLog.EmployeeOrgApp.constructor require
  that the given chart is a tree with unique ids. The source accepts any object graph;
  its behaviour on shared objects, cycles or duplicate ids is not modelled. A lookup that
  enters a cycle throws a `RangeError` once the stack is exhausted, which the event
  handlers catch and report (`index.js:228-258`); the model has no such outcome.
- SnapshotApp.EmployeeOrgApp.Undo: when a replayed move throws, the contract states the
  failure and the invariant, not which of the replayed moves took effect before the throw.
- ActionLog.EmployeeOrgApp.Undo: when the popped record is not restorable, the contract
  states the undo edit and that no reference dangles. It does not state a tree shape: the
  edit can then detach or duplicate a node. This case arises when the recorded target has
  left the chart or no longer lists the employee.
- ActionLog.MoveThenUndo and ActionLog.MoveThenFind exclude targets inside the moved
  subtree. After such a move the employee is unreachable, and `undo` throws
  "Invalid employee ID", which `ActionLog.EmployeeOrgApp.Undo` states.
- The public `ceo` field of `index.ts` can be reassigned by callers; such outside writes are
  not modelled.
- Three behaviours follow the code as written, not an exact-inverse reading of `undo` and
  `redo`:
  - the action-log undo appends the employee instead of restoring its former position;
  - the snapshot history records the initial chart rather than each post-move state;
  - the snapshot `undo` advances the cursor through its replayed moves.
