# Element compressor of the Storyboard library

This project models the compression engine of the storyboard library's
`ElementCompressor`. A storyboard element (a sprite or an animation) holds:

- its own list of timed commands ("events": Fade, Move, Scale, ...);
- a list of loops and a list of triggers, each holding its own command list;
- a default position (`DefaultX`, `DefaultY`).

The compressor shrinks these lists in two passes.

The pre-pass, `RemoveByObsoletedList`, runs first:

- It groups a container's commands by kind.
- It walks each group forward.
- It deletes commands made redundant by the container's obsolete time ranges.
- It never deletes the last remaining command of a kind. Instead it snaps that command's end values and may collapse its end time.

The normal pass, `RemoveByLogic`, runs second:

- It walks each group backward.
- It merges two static commands that follow each other by stretching the earlier one.
- It deletes static or zero-length commands that add nothing.
- At a group's first command, it may delete that command or fold a lone move into the element's default position.

`PreOptimize` and `NormalOptimize` apply the passes to the loops, then to the triggers, then to the element's own list. `InnerCompress` decides whether an element that failed examination is compressed at all. The `ThreadCount` setter clamps the worker count and refuses changes during a run.

The model is imperative where the source is. `Compressor.Container` and `Compressor.Element` are classes whose command lists and default position the methods update in place. The passes are `while` and `for` loops over a working group list and an index, in the source's shape, including:

- the `i--` after a deletion in the forward walk;
- the `index` counting down in the backward walk;
- the `break` after the first command;
- the `return` when the container held at most one command.

Each loop is proved to compute exactly a function over values:

- `Obsolete.ObsoletePass` for the pre-pass;
- `Logic.LogicPass` for the normal pass.

Each function is built from one step, the walk over one group and the walk over all groups. The properties the source promises are proved as lemmas about these functions, and the methods' postconditions connect the two.

Modelling choices:

- A command object is a value with an `id` that stands for its identity.
  - `Events.Remove` is `List<T>.Remove`: it drops the first command with that identity.
  - A field write through a reference (`preE.EndTime = ...`, `nowE.End[j] = ...`) becomes `Events.Overwrite` of every list that holds the command: the container's list and the working group list.
- The helpers whose bodies are not part of this model are fields of the `Events.Helpers` datatype, passed as a parameter. These are `IsStatic`, `IsEventSequent`, the time-range tests, `ContainsTimingPoint`, `UnworthyDictionary`, `MaxTime`, the formatted length of a number and the integrality test. A helper that reads the container is given the container's current command list, and the obsolete-range tests also its obsolete ranges; `EqualsInitialPosition` is given the element's current default position. One `Helpers` value serves every container and both passes.
- The list the passes group is the private copy `container.EventList.ToList()` made on entry, so the groups, and the count compared in `eventList.Count <= 1` and `eventList.Count > 1`, are those of the entry state.
- `Events.Pruned(orig, cur)` states what "only deletes and edits in place" means. Every command of `cur` is a command of `orig`, in the same order, with the same identity, kind, start time and start values; only end times and end values may differ.
- `Events.EndsKept(orig, cur)` states that no end value was edited: every command of `cur` has the end values of the command with its identity in `orig`.

## Model

| member | source | states |
|---|---|---|
| Events.Remove | Management/ElementCompressor.cs:553-557 | removing a command shortens the list by one exactly when the command is present, leaves the list alone otherwise, and keeps every other command |
| Events.RemovePrunes | Management/ElementCompressor.cs:553-557 | a deletion by `RemoveEvent` leaves a pruned list: the survivors in their order, unedited |
| Events.RemoveUnique | Management/ElementCompressor.cs:553-557 | after a deletion from a list without duplicates the command is gone entirely and the list still has no duplicates |
| Events.RemoveAtIndex | Management/ElementCompressor.cs:553-557 | in a list without duplicates, removing the command at position i cuts exactly that slot |
| Events.Overwrite | Management/ElementCompressor.cs:493 | a field write through a command reference makes every entry holding that command read as the written command, leaves every other entry as it was, and keeps the length and every identity |
| Events.CoherentRemove | Management/ElementCompressor.cs:553-557 | deleting a group command from both lists keeps the group list inside the container list, leaves other kinds untouched, and shortens both lists by one |
| Events.CoherentOverwrite | Management/ElementCompressor.cs:343-351 | editing a group command's end through both lists keeps them consistent, leaves other kinds untouched and only prunes |
| Events.Kinds | Management/ElementCompressor.cs:301 | the group keys: every kind of the list, each once, and only kinds present in it |
| Events.FirstOf | Management/ElementCompressor.cs:301 | the position of the first command of a kind: that command has the kind, no earlier one has, and it is the list's end exactly when no command has the kind |
| Events.KindsInOrder | Management/ElementCompressor.cs:301 | `GroupBy` lists its keys in order of first appearance: of two keys, the one listed earlier has its first command earlier in the list |
| Events.OfKind | Management/ElementCompressor.cs:304 | one group: exactly the commands of that kind, in their order in the list and unedited |
| Events.OfKindUnique | Management/ElementCompressor.cs:304 | a group of a list without duplicates has no duplicates |
| Events.GroupsFitInitial | Management/ElementCompressor.cs:301-304 | the groups of a list are non-empty, one kind each, pairwise distinct kinds, each inside the list |
| Events.GroupsFitTail | Management/ElementCompressor.cs:302-303 | after one group's walk, which leaves other kinds alone, the remaining groups still fit the list |
| Obsolete.SnapEnd | Management/ElementCompressor.cs:343-347 | an end value whose formatted length does not exceed the start value's is kept; a longer one becomes the start value (it is one of the two and no longer than either) |
| Obsolete.SnapEndIdempotent | Management/ElementCompressor.cs:343-347 | snapping twice is snapping once |
| Obsolete.ObsStep | Management/ElementCompressor.cs:305-377 | one iteration of the forward walk keeps both lists well formed and strictly shrinks the work left (the index rises or the list shrinks) |
| Obsolete.ObsWalk | Management/ElementCompressor.cs:305-377 | the forward walk over one group never lengthens the container's list |
| Obsolete.ObsGroups | Management/ElementCompressor.cs:302-378 | the walk over all groups never lengthens the container's list |
| Obsolete.ObsoletePass | Management/ElementCompressor.cs:298-379 | the pre-pass never lengthens the list |
| Obsolete.ObsStepSound | Management/ElementCompressor.cs:320-373 | one iteration keeps the group coherent and non-empty, only prunes, and leaves other kinds' commands alone |
| Obsolete.ObsWalkSound | Management/ElementCompressor.cs:305-377 | a group's walk only prunes, keeps identities unique, leaves other kinds alone and leaves at least one command of the kind |
| Obsolete.ObsGroupsSound | Management/ElementCompressor.cs:301-378 | the walk over all groups only prunes and keeps every kind present |
| Obsolete.ObsoletePassPrunes | Management/ElementCompressor.cs:298-379 | the pre-pass result is the original list with some commands deleted and only end times and values edited, in order |
| Obsolete.ObsoletePassKeepsKinds | Management/ElementCompressor.cs:326-373 | the pre-pass never deletes the last remaining command of a kind: every kind present before is present after |
| Obsolete.ObsStepSkipsBoundary | Management/ElementCompressor.cs:320-321 | a command on an obsolete-range boundary whose kind has a default value is neither deleted nor edited, and the walk moves on |
| Obsolete.ObsStepKeepsLive | Management/ElementCompressor.cs:326-331 | the last command of a group that does not lie in an obsolete range lasting until the container's end (`EndsObsolete`) is neither deleted nor edited, and the walk moves on |
| Obsolete.ObsStepDropsCovered | Management/ElementCompressor.cs:360-372 | a command with a successor, not a boundary skipped above, is deleted from both lists exactly when `ContainsTimingPoint` holds for its span and the successor's start; the index then stays and points at the old successor; otherwise nothing changes and the walk moves on |
| Obsolete.ObsStepDropsLast | Management/ElementCompressor.cs:324-358 | the last command of a group of more than one, lying in an obsolete range that lasts until the container's end, is deleted from both lists, and the walk ends |
| Obsolete.ObsStepSnapsLone | Management/ElementCompressor.cs:324-352 | a lone command, not a boundary skipped above, in an obsolete range lasting until the container's end is kept and not deleted: its end values are snapped (`SnapEnd`), then its end time collapses to its start time exactly when `IsSmallerThenMaxTime` holds for the snapped command; the edited command is the group's only entry and is in the container, and the walk ends |
| Obsolete.ObsStepKeepsLone | Management/ElementCompressor.cs:341-353 | a lone command of its kind stays, same identity and start; its end values are kept or snapped, its end time kept or collapsed to its start time |
| Logic.Drop | Management/ElementCompressor.cs:553-557 | `RemoveEvent` on both lists shortens the group list by one when the command is in it |
| Logic.FirstStep | Management/ElementCompressor.cs:407-474 | the first-command iteration either leaves both lists as they were or deletes exactly the first command from both |
| Logic.Merge | Management/ElementCompressor.cs:489-498 | the merge keeps the default position and shortens the group list by at most one |
| Logic.LaterStep | Management/ElementCompressor.cs:475-548 | an iteration past the first command moves the index down by one, stays inside the list and never touches the default position |
| Logic.LogicStep | Management/ElementCompressor.cs:395-548 | a `continue` iteration strictly lowers the index and keeps it inside the list, so the backward walk ends |
| Logic.LogicWalk | Management/ElementCompressor.cs:394-549 | the backward walk over one group never lengthens the container's list |
| Logic.LogicGroups | Management/ElementCompressor.cs:388-550 | the loop over all groups never lengthens the container's list |
| Logic.LogicPass | Management/ElementCompressor.cs:386-551 | the normal pass never lengthens the list |
| Logic.LogicStepSkips | Management/ElementCompressor.cs:398-404 | an element's command overlapping both a trigger and a loop (`Skipped`) is passed over: no list and no default position changes, and the index drops by one |
| Logic.LogicStepKeepsKind | Management/ElementCompressor.cs:392 | the group list keeps holding only its kind's commands |
| Logic.LogicStepSound | Management/ElementCompressor.cs:395-548 | one iteration keeps the group coherent, only prunes the container's list and leaves other kinds alone |
| Logic.FirstStepSound | Management/ElementCompressor.cs:407-474 | the first-command iteration keeps the group coherent, only prunes and leaves other kinds alone |
| Logic.MergeSound | Management/ElementCompressor.cs:489-498 | the merge keeps the group coherent, only prunes and leaves other kinds alone |
| Logic.MergeKeepsEnds | Management/ElementCompressor.cs:489-498 | the merge edits an end time only: every surviving command keeps its end values |
| Logic.LogicStepKeepsEnds | Management/ElementCompressor.cs:395-548 | no iteration of the backward walk edits an end value |
| Logic.MergeOverwrite | Management/ElementCompressor.cs:493 | stretching the predecessor puts it, stretched, in both lists and leaves the current command in place |
| Logic.MergeResult | Management/ElementCompressor.cs:489-498 | after the merge the stretched predecessor is in the container and in the group slot below, the current command is gone from both lists, and each list is one shorter |
| Logic.LaterStepMerges | Management/ElementCompressor.cs:489-498 | two static sequent neighbours merge: the predecessor, stretched to the current command's end time, sits in the group slot the index drops onto and in the container's list; the default position is kept |
| Logic.LaterStepMergeDeletes | Management/ElementCompressor.cs:489-498 | the merge deletes the current command from both lists, each exactly one shorter |
| Logic.LaterStepMergeKeepsOthers | Management/ElementCompressor.cs:489-498 | a merge leaves every command other than the merged pair in both lists, unedited |
| Logic.MergeKeepsOthers | Management/ElementCompressor.cs:489-498 | the merge's writes and deletion leave every other command of both lists in place, unedited |
| Logic.LaterStepIsMerge | Management/ElementCompressor.cs:489-498 | for two static sequent neighbours the iteration is exactly the merge followed by a step down |
| Logic.LogicWalkSound | Management/ElementCompressor.cs:394-549 | a group's backward walk only prunes, keeps identities unique, leaves other kinds alone and keeps every end value |
| Logic.LogicGroupsSound | Management/ElementCompressor.cs:388-550 | the loop over all groups only prunes, keeps identities unique and keeps every end value |
| Logic.LogicPassPrunes | Management/ElementCompressor.cs:386-551 | the normal pass result is the original list with some commands deleted, in order, where only end times are edited: every survivor keeps its end values |
| Logic.LogicPassKeepsSmall | Management/ElementCompressor.cs:399-410 | a container that held at most one command on entry keeps its list and the element its default position |
| Logic.LogicStepFoldsMove | Management/ElementCompressor.cs:440-473 | a lone move at an element's first iteration: integral start → default position set to its start and the move deleted; on the initial position → deleted, default untouched; otherwise → kept and default reset to the origin; the loop breaks |
| Logic.LogicStepDropsLoneDefault | Management/ElementCompressor.cs:420-426 | at the first command of a one-command group, when the container held more than one command: a static default command in range is deleted from both lists, the default position is untouched, and the loop breaks |
| Logic.LogicStepDropsSequentHead | Management/ElementCompressor.cs:427-436 | at the first command of a longer group: a static command in range is deleted from both lists exactly when it is sequent with its successor, otherwise nothing changes; the loop breaks either way |
| Logic.LogicStepKeepsLoneOther | Management/ElementCompressor.cs:421-473 | at the first command of a one-command group, when the container held more than one command: a command that is not a static default in range, outside an element's move group, is kept, no list and no default position changes, and the loop breaks |
| Logic.LogicStepResetsOrigin | Management/ElementCompressor.cs:437-473 | at the first command of a longer group that is not a static command in range: an element's move group resets the default position to the origin and keeps its commands; any other group changes nothing; the loop breaks |
| Logic.LogicStepDropsNow | Management/ElementCompressor.cs:504-512 | when the pair does not merge, a static `now` sequent with `pre` and ending before the maximum time is deleted from both lists, and the index lands on `pre` |
| Logic.LogicStepDropsInstantPre | Management/ElementCompressor.cs:513-547 | when neither merge nor the deletion of `now` applies: an instant `pre` ending at `now`'s start is deleted from both lists when it is not the group's first command, sits on the minimum time, or is static and sequent with `now`, and the index lands on `now`; in every other case the lists are unchanged and the index drops by one |
| Compressor.RemoveEvent | Management/ElementCompressor.cs:553-557 | deletes the command from the container and from the working list, and the container's list is only pruned |
| Compressor.SnapEndValues | Management/ElementCompressor.cs:343-347 | the loop over end values computes exactly the snapped end values |
| Compressor.WalkObsoleteGroup | Management/ElementCompressor.cs:304-377 | the forward loop over one group leaves the container list the group walk computes |
| Compressor.ObsGroupsLoop | Management/ElementCompressor.cs:301-378 | the loop over the groups of the entry list leaves what the walk over all groups computes |
| Compressor.RemoveByObsoletedList | Management/ElementCompressor.cs:298-379 | the container ends with the pre-pass result: unchanged without obsolete ranges, only pruned, every kind kept |
| Compressor.LaterIteration | Management/ElementCompressor.cs:475-548 | an iteration past the first command updates container, working list and index as the later-command step does |
| Compressor.FirstIteration | Management/ElementCompressor.cs:412-472 | the first-command iteration updates container, working list and default position as the first-command step does |
| Compressor.LogicIteration | Management/ElementCompressor.cs:397-548 | one loop iteration, including the overlap skip and the early return, matches one step of the backward walk |
| Compressor.WalkLogicGroup | Management/ElementCompressor.cs:392-549 | the backward loop over one group ends with the container list, default position and exit (`return` or not) of the group walk |
| Compressor.LogicGroupsLoop | Management/ElementCompressor.cs:388-550 | the loop over the groups of the entry list, left early on `return`, computes the walk over all groups |
| Compressor.RemoveByLogic | Management/ElementCompressor.cs:386-551 | the container and the element's default position end as the normal pass computes; the list is only pruned; a container of at most one command is untouched |
| Compressor.PreOptimizeContainer | Management/ElementCompressor.cs:267-268 | a container ends with the pre-pass result of its list (an empty list stays empty) |
| Compressor.PreOptimizeEach | Management/ElementCompressor.cs:256-264 | every loop (trigger) ends with the pre-pass result of its own list |
| Compressor.PreOptimize | Management/ElementCompressor.cs:252-269 | loops, triggers and the element's own list each end with the pre-pass result of their own entry list |
| Compressor.NormalOptimizeContainer | Management/ElementCompressor.cs:289-292 | a loop or trigger ends with the normal-pass result of its list, as a container without a default position |
| Compressor.NormalOptimizeEach | Management/ElementCompressor.cs:278-286 | every loop (trigger) ends with the normal-pass result of its own list |
| Compressor.NormalOptimizeParts | Management/ElementCompressor.cs:276-287 | loops and triggers each end with the normal-pass result of their own list |
| Compressor.NormalOptimizeOwn | Management/ElementCompressor.cs:289-292 | the element's own list and default position end as the normal pass on the element computes |
| Compressor.NormalOptimize | Management/ElementCompressor.cs:274-293 | loops, triggers and the element's own list and default position each end with the normal-pass result |
| Compressor.Compressed | Management/ElementCompressor.cs:244-246 | the two passes in a row only prune a list and keep identities unique |
| Compressor.InnerCompress | Management/ElementCompressor.cs:220-246 | the passes run exactly when examination reported no error, or the run was not cancelled and the error handler chose to continue (`Proceeds`); otherwise the element is untouched; when they run, every container ends with the pre-pass then normal-pass result |
| Compressor.ClampThreads | Management/ElementCompressor.cs:55-61 | the stored thread count lies in 1..4, equals the request when that is in range, and is the value in 1..4 nearest the request |
| Compressor.ElementCompressor.constructor | Management/ElementCompressor.cs:22 | a new compressor has one thread and is not running |
| Compressor.ElementCompressor.SetThreadCount | Management/ElementCompressor.cs:44-63 | refused and nothing changed while running; otherwise the clamped value is stored |
| Compressor.ElementCompressor.BeginRun | Management/ElementCompressor.cs:69-77 | a second run is refused while one is active; afterwards a run is active |
| Compressor.ElementCompressor.EndRun | Management/ElementCompressor.cs:90-93 | the run is over |

## Left out

- The concurrency of `CompressAsync`, `CancelTask`, `RunEnqueueTask` and `RunDequeueTasks` is not modelled. This covers the worker tasks, the concurrent queue, the locks, the `_pauseThreadCount` busy wait, the shared progress index and the sleeps. The run flag's set and reset are modelled (`BeginRun`, `EndRun`); the work in between is not.
- Event handlers (`ErrorOccured`, `ProgressChanged` and the others) and `Dispose` are notification plumbing. `InnerCompress` receives the handler's `Continue` decision and the cancellation state as parameters instead.
- The error message text built at Management/ElementCompressor.cs:222-226 is not modelled; only whether errors were reported matters.
- `Examine` and `FillObsoleteList` are external. Examine's messages are a parameter of `InnerCompress`, and the obsolete ranges are the container's `timing` field, already filled.
- The bodies of the command and container helpers are not modelled. These are `IsStatic`, `IsStaticAndDefault`, `IsEventSequent`, `IsTimeInRange`, `IsSmallerThenMaxTime`, `EqualsMultiMinTime`, `EqualsInitialPosition`, `OnObsoleteTimingRange`, `InObsoleteTimingRange`, `ContainsTimingPoint`, `MaxTime` and `UnworthyDictionary`. They are uninterpreted fields of `Helpers`.
- `MaxTime`, `IsTimeInRange`, `IsSmallerThenMaxTime` and `EqualsMultiMinTime` are assumed to depend only on the container's own command list. In the source an element's helpers receive the whole element, whose loops and triggers have already been compressed by then; the model does not pass those lists. A single `Helpers` value also stands for the helpers of every loop, every trigger and the element, in both passes.
- Floating point is not modelled. Parameters are `real`; `ToInvariantString().Length` is the uninterpreted `fmtLen`, and `k == (int)k` is the uninterpreted `isIntegral`.
- A loop's or trigger's `StartTime`/`EndTime` is its declared `extent`, a constant. How the library derives it from the loop's commands is not part of this model.
- Element's `DefaultX`/`DefaultY` setters are plain field writes; any side effect they have in the library is not modelled.
- `IsBackground` tagging by file name (Management/ElementCompressor.cs:199-203) is left out: it is a string test on external model types.
- LibOSB/Model/EventType/MoveY.cs is not part of this model. It is a constructor wrapper with a floating-point adjustment.
- Aliasing between containers is excluded. `Compressor.Element.Valid` requires the element's own container, loops and triggers to be distinct objects. A command object is assumed to belong to one container, and its identity is unique within its list.
- Compressor.ElementCompressor.SetThreadCount: the source throws while running; the model returns `Failure` and changes nothing. The lock around the test is not modelled.
- Compressor.ElementCompressor.BeginRun: the source throws when a run is active; the model returns `Failure` and leaves the run active.
- The loops of `RemoveByObsoletedList` and `RemoveByLogic` are split into methods in the model: one per group walk, one per loop iteration, and one for the iterations at and after the first command. The statements and their order are those of the source.
- Compressor.Compressed, Compressor.InnerCompress: what the two passes in a row promise beyond pruning is the separate pre-pass and normal-pass lemmas; no property specific to their composition is stated.
