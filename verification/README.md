# smarttimers engine, modelled in Dafny

smarttimers runs a training plan: a tree of tasks where fixed-length timers and
open-ended stopwatches are the leaves and repeat groups replay their children.
This project models the plain-JavaScript engine behind the plan editor and the
run screen:

- the tree linearizer (`TreeIterator`), which hands out the leaves one `next()` at a time
  from a child cursor, a loop counter and a parent link per node;
- `ArrayIterator`, which drains the linearizer into an array;
- the per-task `Timer` state machine;
- the global `TaskScheduler` tick counter;
- the `EventEmitter` they all build on;
- the `TaskManager` run coordinator;
- the duration parse/format helpers of `utils.js`;
- the tree edits of the editor (`TasksComponent.js`).

Modules, one per source component:

| module | file | models |
|---|---|---|
| `Wrappers` | wrappers.dfy | `Option` and `Result`, for `null`/`undefined` and thrown exceptions |
| `TaskTree` | task_tree.dfy | the task datatype; `Flatten`/`Linearize`, the reference execution order |
| `TreeIterator` | tree_iterator.dfy | src/TreeIterator.js, with the dictionaries keyed by position |
| `TreeIteratorRefinement` | tree_iterator_refinement.dfy | the proof that `next()` yields `Linearize(root)` and then `null` |
| `ArrayIterator` | array_iterator.dfy | src/ArrayIterator.js |
| `Timers` | timer.dfy | src/Timer.js; a tick is an explicit step returning the fired events |
| `TaskScheduler` | task_scheduler.dfy | src/TaskScheduler.js |
| `EventEmitter` | event_emitter.dfy | src/EventEmitter.js; `fire` returns the calls it makes |
| `TaskManager` | task_manager.dfy | src/TaskManager.js, over the sequence the iterator yields |
| `Durations` | durations.dfy | the helpers of src/utils.js (also copied into src/TasksComponent.js:38-95) |
| `TaskEditing` | task_editing.dfy | `findTaskList`, `findTaskIndexById` and the edit bodies of src/TasksComponent.js |

Every edit in the editor works on a `deepCopy` of the root. Under value semantics that copy is implicit: each edit is a function from the old root to the new one.

A JavaScript exception is modelled as an error value:

- `Result.Err` for the validation errors;
- `None` for a `TypeError` in the tree edits;
- `Crashed` in the run coordinator;
- `Undefined`/`TypeError` results of the tree iterator.

A few operations instead carry a precondition where the source would throw; "## Left out" lists each one. After a throw the model keeps no manager, so it says nothing about the fields the source had already assigned; "## Left out" says so too.

## Model

| member | source | states |
|---|---|---|
| TreeIterator.InitStructure | src/TreeIterator.js:12-23 | every group in the subtree gets cursor 0 and loop count 0, every node below gets its parent link, and no entry outside the subtree changes |
| TreeIterator.InitChildren | src/TreeIterator.js:19-22 | the loop over the children links and initialises each remaining child and touches nothing before it |
| TreeIterator.Init | src/TreeIterator.js:2-10 | the constructed iterator is unstarted, its whole tree is freshly armed, and the parent links are exactly the positions one level up, for every node |
| TreeIterator.GetNextChild | src/TreeIterator.js:29-33 | returns `taskList[cursor]` and moves that group's cursor on by exactly one; every other entry is unchanged |
| TreeIterator.NextIteration | src/TreeIterator.js:49-55 | counts one more pass of that group only, rewinds its cursor to 0 and re-arms every group below it; nothing outside its subtree changes |
| TreeIterator.ReArm | src/TreeIterator.js:52-54 | the re-arming loop leaves every remaining child freshly armed and changes nothing outside their subtrees |
| TreeIterator.Descend | src/TreeIterator.js:57-70 | the result is either nothing or the position of a leaf (never a group) below the start node; only entries inside that subtree change |
| TreeIterator.Ascend | src/TreeIterator.js:72-84 | returns the nearest node on the path from the given node up to the root that is a group with an untried child or a pass left, and `null` when none is |
| TreeIterator.Next | src/TreeIterator.js:86-101 | an item is a leaf at the recorded position; a `null` result leaves the state unchanged, so every later call returns `null` too |
| TreeIterator.EmptyGroupBreaks | src/TreeIterator.js:86-101 | with an empty group as the only child, the first `next()` returns `undefined` and the second throws |
| TreeIteratorRefinement.InitValid | src/TreeIterator.js:2-23 | a fresh iterator over a tree whose groups all contain a leaf is in order and owes exactly `Linearize(root)` |
| TreeIteratorRefinement.DescendSpec | src/TreeIterator.js:57-70 | descending from an unfinished group yields the first leaf it owes and leaves it owing the rest, still in order |
| TreeIteratorRefinement.AscendSpec | src/TreeIterator.js:72-84 | after a leaf, ascending finds nothing only when the whole tree owes nothing, and otherwise finds a group on the active chain with nothing left in progress below it |
| TreeIteratorRefinement.NextRefines | src/TreeIterator.js:86-101 | one `next()` returns the first owed leaf and then owes the others; with nothing owed it returns `null` and the state stays as it is |
| TreeIteratorRefinement.ResultsFollowRest | src/TreeIterator.js:86-101 | `k` successive calls return the owed leaves in order, then `null` for every further call |
| TreeIteratorRefinement.YieldsLinearize | src/TreeIterator.js:2-101 | from construction, call `i + 1` returns leaf `i` of `Linearize(root)`: depth first, left to right, each group's children `max(repeat, 1)` times, the root once; then `null` forever |
| ArrayIterator.Drain | src/ArrayIterator.js:35-43 | draining the tree iterator until `null` stores exactly `Linearize(root)`, in yield order |
| ArrayIterator.NewArrayIter | src/ArrayIterator.js:45-51 | the constructor holds the drained leaves and a `null` index |
| ArrayIterator.NextNode | src/ArrayIterator.js:53-63 | the index goes from `null` to 0 and then up by one; the node at the index is returned while there is one, `null` after; the nodes never change |
| ArrayIterator.KthCall | src/ArrayIterator.js:53-63 | call `k` from a fresh iterator returns `nodes[k-1]` for `k <= |nodes|` and `null` for every later call |
| ArrayIterator.AgreesWithTreeIterator | src/ArrayIterator.js:35-63 | the array iterator's `k`-th answer equals the tree iterator's `k`-th answer for every `k` |
| Timers.ListedNames | src/Timer.js:90-92 | a listener attached to `Timer.events` hears every event except `tick` |
| Timers.JsRem | src/Timer.js:62-64 | JavaScript's `%` agrees with the mathematical remainder on non-negative operands and is never positive on a negative dividend |
| Timers.NewTimer | src/Timer.js:12-19 | a new timer has counted no ticks and is INITIALIZED, with the given duration and rate |
| Timers.PauseTicks | src/Timer.js:50-52 | the ticks not spent running: with the running ticks they make up all ticks, and they are never negative exactly while the invariant `ticks <= elapsed` holds |
| Timers.ComputeSecondsIsFloor | src/Timer.js:54-56 | `_computeSeconds` is the number of whole seconds in the ticks: that many seconds' worth of ticks fit, one more does not |
| Timers.CheckFinishedIff | src/Timer.js:66-68 | a timer has finished exactly when it has a positive duration and its running ticks have reached the duration times the rate |
| Timers.StartTimer | src/Timer.js:21-27 | `start` moves to RUNNING from any state, fires `start` and counts nothing |
| Timers.StopTimer | src/Timer.js:29-36 | `stop` moves to FINISHED and reports `floor(ticks/tps)` seconds run and `floor((elapsed-ticks)/tps)` seconds paused |
| Timers.TogglePause | src/Timer.js:38-48 | RUNNING becomes PAUSED with `pauseOn`, PAUSED becomes RUNNING with `pauseOff`; any other state is the error 'Invalid running state' |
| Timers.TickTimer | src/Timer.js:70-87 | every tick counts towards the elapsed ticks, only a running one towards `ticks` and fires `tick`; a running tick finishes the timer exactly on a whole second where the duration has been run |
| Timers.InvPreserved | src/Timer.js:50-52 | every operation keeps `ticks <= elapsed`, so the pause-tick count and the reported paused time are never negative |
| Timers.TickSecondOnWholeSeconds | src/Timer.js:72-80 | a running tick fires `tickSecond` exactly when the new tick count is a multiple of the rate, carrying the whole seconds run |
| Timers.FinishingTickEvents | src/Timer.js:70-80 | a running tick that finishes the timer fires `tick`, then `tickSecond` with the whole seconds run, then `stop` (via `this.stop()`) reporting the seconds run and paused |
| Timers.TickStopsIffFinishing | src/Timer.js:70-87 | a tick fires `stop` exactly when it finishes a running timer |
| Timers.PausedTickEvents | src/Timer.js:81-86 | a tick that is not running fires `pauseTick` with the pause-tick count, and `pauseTickSecond` exactly on a whole paused second; the state is kept |
| Timers.After | src/Timer.js:70-73 | after `n` ticks the elapsed count has grown by `n` and the running count by at most `n` |
| Timers.FinishesOnTime | src/Timer.js:66-79 | a started timer of `s > 0` seconds runs until its `s * tps`-th tick, finishes on it and stays finished with that many running ticks |
| Timers.StopwatchNeverFinishes | src/Timer.js:66-68 | a timer without a duration, or with duration 0, never finishes by itself: every tick runs |
| Timers.StopwatchSeconds | src/Timer.js:72-76 | over `n` ticks a running stopwatch fires `tickSecond` with 1, 2, ..., `n / tps`, once per whole second and in order |
| Timers.FiveSecondTimer | src/Timer.js:70-87 | `Timer(5, 50)` ticked 250 times unpaused fires `tick`, `tickSecond(5)` and a stop reporting 5 seconds run and 0 paused on its last tick |
| TaskScheduler.NewScheduler | src/TaskScheduler.js:5-10 | a new scheduler has counted no ticks |
| TaskScheduler.StartScheduler | src/TaskScheduler.js:12-17 | `start` fires `start` and counts nothing |
| TaskScheduler.StopScheduler | src/TaskScheduler.js:19-22 | `stop` fires `stop` and counts nothing |
| TaskScheduler.TickScheduler | src/TaskScheduler.js:24-30 | a tick counts exactly one; `tickSecond` fires exactly on a multiple of the rate, with the exact quotient, and `tick` comes last |
| TaskScheduler.CountTicks | src/TaskScheduler.js:24-30 | over `n` ticks `tick` fires with 1, ..., `n` and `tickSecond` with 1, ..., `n / tps`, in order |
| EventEmitter.NewEmitter | src/EventEmitter.js:2-4 | a new emitter has no topics |
| EventEmitter.Subscribe | src/EventEmitter.js:6-9 | `fn` is appended to the topic's list, which is created when absent; every other topic is unchanged |
| EventEmitter.IndexOf | src/EventEmitter.js:15 | `indexOf` finds the first occurrence, and `-1` exactly when there is none |
| EventEmitter.Unsubscribe | src/EventEmitter.js:11-19 | every other topic is unchanged, no topic appears or disappears, and nothing changes when the topic or `fn` is absent |
| EventEmitter.UnsubscribeRemovesFirst | src/EventEmitter.js:15-18 | removal drops exactly one copy of `fn`, the first, and keeps the others in order |
| EventEmitter.SubscribeThenUnsubscribe | src/EventEmitter.js:6-19 | subscribing a handler the topic did not have and unsubscribing it restores the topic's list |
| EventEmitter.Fire | src/EventEmitter.js:21-30 | `fire` calls each handler of the topic in subscription order with the arguments after the topic, and nothing for an unknown topic |
| EventEmitter.SubscribeThenFire | src/EventEmitter.js:6-30 | a newly subscribed handler is called last on the next `fire` |
| EventEmitter.FireCallsHandlers | src/EventEmitter.js:26-29 | the handlers called are exactly the subscribed ones, in order |
| TaskManager.NewManager | src/TaskManager.js:13-21 | the constructor holds a freshly built tree iterator over the plan and has pulled nothing, with no task and no timer |
| TaskManager.Pull | src/TaskManager.js:70 | one `treeIterator.next()`: it throws exactly when the previous call returned `undefined`; otherwise only the iterator changes and the result is a leaf, `null` or `undefined`, never a thrown error |
| TaskManager.PullFollowsOrder | src/TaskManager.js:70 | over an iterator that owes the plan's order, a pull returns the next task of the order, `null` past its end, and owes the rest |
| TaskManager.TimerFromTask | src/TaskManager.js:5-10 | a timer task gets a fresh timer of its duration at 50 ticks per second, and any other task a fresh timer without duration |
| TaskManager.StopwatchRunsOpenEnded | src/TaskManager.js:5-10 | a stopwatch task's timer never finishes by itself |
| TaskManager.TimerTaskRunsItsDuration | src/TaskManager.js:5-10 | a timer task of `d > 0` seconds runs exactly `d * 50` ticks and has then finished |
| TaskManager.AssignAndStartTimer | src/TaskManager.js:52-56 | the current task gets a started timer, whose `start` reaches the caller's callback and then the manager's `startTask`; a `null` or `undefined` current task throws |
| TaskManager.StopTaskCallback | src/TaskManager.js:62-73 | reports the stopped task; with `null` pulled ahead it announces the end and changes nothing; with `undefined` it throws after the report; with a leaf it throws exactly when the next pull throws, and otherwise that leaf becomes current, the next is pulled and a timer starts for it |
| TaskManager.Dispatch | src/TaskManager.js:23-50 | the caller's callback for an event runs before the manager's own handler; `tick` reaches neither; `start` announces the current task; events other than `start` and `stop` change nothing |
| TaskManager.DispatchAll | src/TaskManager.js:46-50 | a sequence of events without a `stop` leaves the manager as it was |
| TaskManager.Start | src/TaskManager.js:75-84 | `start` announces the run before anything else, whether it then succeeds or throws |
| TaskManager.Stop | src/TaskManager.js:86-88 | `stop` before any timer exists throws without a signal |
| TaskManager.TogglePause | src/TaskManager.js:90-92 | `togglePause` before any timer exists throws without a signal |
| TaskManager.TimerTick | src/TaskManager.js:46-50 | before any timer exists a tick reaches nobody and changes nothing |
| TaskManager.StartNeverEndsAtOnce | src/TaskManager.js:75-84 | the first pull is a leaf or `undefined`, never the `null` that `start` tests for, so `start` never announces the end; after an `undefined` it announces the run and throws |
| TaskManager.EmptyPlanCrashes | src/TaskManager.js:75-81 | a plan without tasks announces the run and then throws on the second pull, without announcing its end |
| TaskManager.EmptyGroupPlanCrashes | src/TaskManager.js:75-81 | a plan whose only task is an empty group behaves the same |
| TaskManager.StartRunsFirst | src/TaskManager.js:75-84 | over a plan whose every group holds a leaf, `start` makes the first task of `Linearize(root)` current, pulls the second ahead, starts its timer and announces the run and then the task |
| TaskManager.StopDispatch | src/TaskManager.js:34-73 | a `stop` event on a started manager reaches the caller, then either announces the end or moves to the pulled-ahead task and pulls the next; the one-ahead lookahead is kept |
| TaskManager.StopAdvances | src/TaskManager.js:86-88 | `stop` on a running plan reports the stopped task and either ends the run or moves to the pulled-ahead task and pulls the next |
| TaskManager.TickKeepsLookahead | src/TaskManager.js:46-50 | whatever a timer tick fires, including an automatic stop, the one-ahead lookahead over the order is kept |
| TaskManager.FinishingTickAdvances | src/TaskManager.js:46-73 | a tick that finishes the current timer moves the run on as `stop` does: the caller hears `tickSecond` and the stop report, then the manager reports the task and either announces the end or makes the pulled-ahead task current |
| TaskManager.TogglePauseKeepsLookahead | src/TaskManager.js:90-92 | `togglePause` only forwards to the current timer: it throws exactly when that timer is neither running nor paused, and otherwise keeps the current task and the lookahead |
| TaskManager.RunsInOrder | src/TaskManager.js:62-84 | over a plan whose every group holds a leaf, after `start` and `k` stops the current task is element `k` of `Linearize(root)` (the last one once it is used up): each task runs in order, exactly once |
| Durations.NatToString | src/utils.js:51 | a number prints as a non-empty digit string without a leading zero |
| Durations.NatToStringValue | src/utils.js:13 | reading back a printed number gives the number |
| Durations.ZerosThenNumeral | src/utils.js:6-14 | every digit string is the decimal rendering of its value behind some leading zeros |
| Durations.ForceParseInt | src/utils.js:6-14 | returns a value exactly when the input is a non-empty string of digits, and the input is then that value printed in decimal after zero or more leading zeros |
| Durations.ForceParseIntRoundTrip | src/utils.js:6-14 | every printed number, "0" included, parses back to itself |
| Durations.RepeatCycles | src/utils.js:62-68 | a count exactly for an all-digit string, "0" included, and the string is that count printed after zero or more leading zeros; otherwise the error 'Invalid number' |
| Durations.RepeatCyclesRoundTrip | src/utils.js:62-68 | a count shown in the editor is read back unchanged |
| Durations.TakeGroup | src/utils.js:17 | one optional group of the regular expression takes the whole leading digit run when its unit letter follows, and the string is that group then the rest |
| Durations.MatchHms | src/utils.js:17-27 | every match holds only well-formed digit groups |
| Durations.MatchHmsSound | src/utils.js:17-27 | every match is the rendering of its groups |
| Durations.MatchHmsComplete | src/utils.js:17-27 | every rendering of well-formed groups matches, with exactly those groups |
| Durations.MatchHmsExactly | src/utils.js:17-27 | the regular expression accepts exactly the strings `[<d>h][<d>m][<d>s]` |
| Durations.GroupSecondsValue | src/utils.js:29-36 | a matched group is worth its digits times 3600, 60 or 1 by its unit letter; an absent group is worth 0 |
| Durations.HmsTimeStringToSeconds | src/utils.js:16-39 | `null` exactly when the string does not match; otherwise 3600 h + 60 m + s of the matched groups |
| Durations.HmsEmpty | src/utils.js:16-39 | the empty string matches and is worth 0 |
| Durations.TimeStringToSeconds | src/utils.js:54-60 | the `XhYmZs` value when it is non-zero, else the plain decimal value, else the error 'Invalid time string' |
| Durations.ZeroDurations | src/utils.js:54-60 | "0" gives 0, while "", "0s" and "0h0m0s" are rejected |
| Durations.FormatTimeFields | src/utils.js:46-52 | `FormatTimeFromSeconds` writes all three groups of an `XhYmZs` string, holding some hours, minutes below 60 and seconds below 60 that together are worth the input |
| Durations.HmsRoundTrip | src/utils.js:16-52 | parsing the formatted duration gives it back, for every duration including 0 |
| Durations.EditRoundTrip | src/utils.js:46-60 | re-reading a formatted duration gives it back when it is positive and is rejected when it is 0 |
| Durations.ZeroPad | src/utils.js:90-95 | a digit string of at least two digits, exactly two below 100, starting with '0' exactly when the number is below 10 |
| Durations.ZeroPadValue | src/utils.js:90-95 | the padded string is worth the number |
| Durations.ClockFields | src/utils.js:97-103 | `FormatZeroPadSeconds` gives `HH:MM:SS`: the hour field has at least two digits, minutes and seconds exactly two and below 60, and together they are worth the input |
| TaskEditing.SetThenFind | src/TasksComponent.js:109-125 | changing the list `findTaskList` found in place succeeds exactly when there is one, and the changed tree yields the new list |
| TaskEditing.SetTaskListFrame | src/TasksComponent.js:109-125 | the change in place is local: the group where the list was found holds the new list and is otherwise the same, the groups above it keep everything else, and every node beside that path is unchanged |
| TaskEditing.SetFoundIsIdentity | src/TasksComponent.js:109-125 | writing back the list found leaves the tree as it was |
| TaskEditing.FindTaskListIsFirstVisit | src/TasksComponent.js:109-125 | `FindTaskList` returns the list of the first node carrying the id in a depth-first, left-to-right visit of the start node and its repeat groups |
| TaskEditing.IndexOfId | src/TasksComponent.js:127-133 | the first index whose task carries the id, or `undefined` when none does |
| TaskEditing.InsertAppends | src/TasksComponent.js:135-138 | `InsertIntoTaskList` grows the found list by one at its end and keeps the earlier tasks; with no such list it throws |
| TaskEditing.RemoveMissingDropsFirst | src/TasksComponent.js:449-475 | `RemoveTaskAsWritten`, as the source has it: removing an id that is not in the list removes the list's first task |
| TaskEditing.RemoveDeletesOne | src/TasksComponent.js:449-475 | `RemoveTask` deletes exactly the task at the found index and keeps the others in order; the tree is unchanged when no task has the id |
| TaskEditing.Lookup | src/TasksComponent.js:460-463 | `mappedTasks[id]` is a task of the list with that id, and `undefined` only when no task has it |
| TaskEditing.LookupIsLast | src/TasksComponent.js:460-463 | when several tasks share an id, `mappedTasks[id]` is the last of them, since later tasks overwrite earlier entries |
| TaskEditing.Reorder | src/TasksComponent.js:464-468 | position `i` gets the task mapped to `sortedListIds[i]` and later positions keep theirs; the edit fails exactly when some reported id maps to no task |
| TaskEditing.SortListPermutes | src/TasksComponent.js:457-470 | `SortList`: with distinct ids and a permutation of them, the list becomes a permutation of itself whose ids are in the requested order |
| TaskEditing.GetTaskProperties | src/TasksComponent.js:332-367 | the title, plus the duration `timeStringToSeconds` reads for a timer or the count `repeatCycles` reads for a group; their error is the validation error |
| TaskEditing.CreateTask | src/TasksComponent.js:369-376 | a task of the selected kind with the given id, title and parsed duration or count; a new group has an empty list; a parse failure is the error |
| TaskEditing.ApplyProps | src/TasksComponent.js:477-483 | `Object.assign` keeps the task's id, kind and children, and overwrites its title and, for properties of its kind, its duration or count |
| TaskEditing.EditKeepsShape | src/TasksComponent.js:477-483 | `EditTask` succeeds exactly when the list and the task exist; within the found list it changes only the task with the id, which keeps its id, its kind and a group's children and takes the new title, and the new duration or count for properties of its kind; `SetTaskListFrame` keeps the rest of the tree |
| TaskEditing.ReopenAndSave | src/TasksComponent.js:492-502 | reopening a task in the editor and saving it unchanged leaves it as it was, except that a timer of 0 seconds cannot be saved |

## Left out

- React rendering, modals, drag-and-drop and the DOM: this is UI. It covers most of src/TasksComponent.js and all of src/App.js, src/DisplayComponent.js and src/StatsComponent.js.
- `setInterval`/`clearInterval` and the real clock in src/Timer.js and src/TaskScheduler.js: a tick is an explicit step. `TaskManager.TimerTick` delivers no tick to a finished timer, because its interval has been cleared.
- `console.log` in `fire`: it is output only. Handlers are not run; `fire` returns the calls it would make. A handler that subscribes or unsubscribes during `fire` is not modelled.
- `generateId` (randomness): the id is a parameter of `TaskEditing.CreateTask`.
- `encodeArray`, `decodeToArray`, `deepCopy` and `window.location.hash`: JSON/URI libraries and globals, replaced by value semantics.
- The Proxy node cache of src/ArrayIterator.js: a node is the task itself.
- `TreeIterator(root)` called without `new` in the `ArrayIterator` constructor: the intended drain is modelled.
- JavaScript number corner cases: `parseInt` on fractional quotients and precision beyond 2^53. Durations, counts and ticks are naturals; JavaScript's `%` is modelled by `Timers.JsRem` where its operand can be negative.
- The iterator's dictionaries are keyed by node position instead of node id. This is the same for a tree whose ids are unique, which the editor's random ids aim for.
- TreeIteratorRefinement.YieldsLinearize: requires every repeat group to contain a leaf, since an empty group derails the walk. That behaviour is modelled and shown by `TreeIterator.EmptyGroupBreaks`.
- TaskManager.RunsInOrder: requires every group of the plan to hold a leaf, as `TreeIteratorRefinement.YieldsLinearize` does. A plan without tasks, or with an empty group, is run by the same model: `TaskManager.EmptyPlanCrashes` and `TaskManager.EmptyGroupPlanCrashes` show two such plans throwing in `start`. An empty group deeper in a plan derails the walk later; what the manager does then is not stated.
- TaskManager.StartRunsFirst: requires every group of the plan to hold a leaf, for the same reason.
- ArrayIterator.Drain: requires every group of the plan to hold a leaf. On an empty group the source's drain pushes `undefined` and then throws; the model does not drain such plans.
- ArrayIterator.NewArrayIter: inherits that precondition from the drain it runs.
- TreeIterator.Next: requires the iterator's root to be a repeat group, as every plan's root is. A leaf root would make the source throw on its first call.
- Timers.Rate: a tick rate of 0 is excluded by the type, since the source divides by the rate. The run coordinator builds its timers at 50 ticks per second.
- TaskManager.Dispatch: a signal carries the event's payload itself. The source's wrapper (src/TaskManager.js:40-42) calls the caller's callback and the manager's handler with the whole `arguments` object, so the payload reaches them as element 0 of it, and `taskManager:stopTask` fires with that object. The same holds for the signals of `TaskManager.StopTaskCallback` and `TaskManager.FinishingTickAdvances`.
- TaskManager.StopTaskCallback: `Crashed` keeps no manager. In the source the fields assigned before a throw stay: after `currentTask = nextTask` with `nextTask` undefined (src/TaskManager.js:69-70) the manager is left holding an undefined current task, and a later `stop()` throws again. What happens after a throw is not modelled.
- TaskManager.Dispatch: does not state the outcome of `stop` itself. `TaskManager.StopDispatch` and `TaskManager.StopAdvances` state it for a started manager.
- TaskEditing.Reorder: a reported id that maps to no task makes the source store `undefined` in the list, a hole no later code handles; the model fails the whole edit instead.
- TaskEditing.ApplyProps: a property of the other kind, such as a `timer` assigned to a group, is stored by `Object.assign` but never read for that task, so it is not kept.
- The stats screen's running/paused sums: a fold inside rendering.

## Findings

| source | as written | input that shows it | evidently intended | confidence | as-written member | corrected member |
|---|---|---|---|---|---|---|
| src/TasksComponent.js:449-475 | `removeTask` splices at `findTaskIndexById`'s result, which is `undefined` for an id that is not in the list, and `splice(undefined, 1)` removes index 0 | list `[a, b]`, remove id `"zzz"`: the list becomes `[b]` | removing a missing id changes nothing | medium, not executed | TaskEditing.RemoveMissingDropsFirst | TaskEditing.RemoveDeletesOne |
