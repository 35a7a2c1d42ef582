/**
 * The run coordinator (src/TaskManager.js). It pulls leaves from its tree
 * iterator one ahead (`currentTask` and `nextTask`), gives the current one a
 * timer, and moves on whenever that timer stops. It listens to every event
 * of `Timer.events` on each timer it creates: the caller's callback for the
 * event runs first, then its own reaction (announce the task on `start`,
 * advance on `stop`).
 *
 * The manager owns a `TreeIterator.State` and every pull is one
 * `TreeIterator.Next`, so `currentTask` and `nextTask` hold whatever that
 * call handed back: a leaf, `null` or `undefined`. Handlers are not run;
 * every operation returns the signals it produces in order: calls of the
 * caller's callbacks and the manager's own `taskManager:*` events. A
 * JavaScript exception (a field read on `null` or `undefined`, or the
 * iterator's own `TypeError`) ends the operation as `Crashed` with the
 * signals produced before it; the fields the source assigned before the
 * throw are not kept.
 *
 * A signal carries the event's payload itself. The source's wrapper passes
 * the whole `arguments` object on instead, so the caller's callback and
 * `taskManager:stopTask` receive that payload as element 0 of it.
 */
module TaskManager {
  import opened Wrappers
  import opened TaskTree
  import opened TreeIterator
  import Refinement = TreeIteratorRefinement
  import Timers

  /**
   * `current` and `next` are never `TypeError`, which is thrown rather than
   * stored. `pulled` counts the `next()` calls made; the source keeps no
   * such count and nothing the manager does depends on it.
   */
  datatype Manager = Manager(
    treeIterator: State,
    pulled: nat,
    current: NextResult,
    next: NextResult,
    timer: Option<Timers.Timer>,
    callbacks: set<string>)

  datatype Signal =
    | Caller(event: Timers.Event)
    | ManagerStart
    | StartTask(current: NextResult, next: NextResult)
    | StopTask(report: Timers.Event)
    | ManagerStop

  datatype Outcome = Done(m: Manager, out: seq<Signal>) | Crashed(out: seq<Signal>)

  /** The constructor over the plan `root`: nothing pulled, no task, no timer; `callbacks` names the events the caller handles. */
  function NewManager(root: Task, callbacks: set<string>): (m: Manager)
    requires root.Repeat?
    ensures Wired(m.treeIterator) && m.treeIterator.root == root && m.treeIterator.last == Unstarted
    ensures m.pulled == 0 && m.current == Null && m.next == Null && m.timer.None? && m.callbacks == callbacks
  {
    Manager(Init(root), 0, Null, Null, None, callbacks)
  }

  /** One `treeIterator.next()`; `None` when the call throws, which it does right after an `undefined`. */
  function Pull(m: Manager): (r: Option<(Manager, NextResult)>)
    requires Wired(m.treeIterator)
    ensures r.None? <==> m.treeIterator.last.LastUndefined?
    ensures r.Some? ==> Wired(r.value.0.treeIterator) && r.value.0.treeIterator.root == m.treeIterator.root && !r.value.1.TypeError?
    ensures r.Some? ==> r.value.0 == m.(treeIterator := r.value.0.treeIterator, pulled := m.pulled + 1)
  {
    var (it, res) := Next(m.treeIterator);
    if res.TypeError? then None else Some((m.(treeIterator := it, pulled := m.pulled + 1), res))
  }

  /** What call `k` (from 0) hands back when the iterator owed `order`: its element, `null` past its end. */
  function ItemAt(order: seq<Task>, k: nat): NextResult {
    if k < |order| then Item(order[k]) else Null
  }

  /** What is still owed after `k` calls when the iterator owed `order`. */
  function Drop(order: seq<Task>, k: nat): seq<Task> {
    if k <= |order| then order[k..] else []
  }

  /**
   * On a valid iterator that still owes `order` after the pulls made, a pull
   * returns the next element of `order`, `null` past its end, and owes the
   * rest.
   */
  lemma PullFollowsOrder(m: Manager, order: seq<Task>)
    requires Refinement.Valid(m.treeIterator) && Refinement.Rest(m.treeIterator) == Drop(order, m.pulled)
    ensures Pull(m).Some?
    ensures
      var (m', r) := Pull(m).value;
      && r == ItemAt(order, m.pulled) && m'.pulled == m.pulled + 1
      && Refinement.Valid(m'.treeIterator) && Refinement.Rest(m'.treeIterator) == Drop(order, m'.pulled)
  {
    Refinement.NextRefines(m.treeIterator);
    if m.pulled < |order| {
      assert order[m.pulled..][1..] == order[m.pulled + 1..];
    }
  }

  /**
   * `getTimerFromTask`: a stopwatch gets a timer without duration; any
   * other task gets `new Timer(task.timer)`, and a task without a `timer`
   * field passes `undefined`, which is a timer without duration too.
   */
  function TimerFromTask(task: Task): (t: Timers.Timer)
    ensures t.state == Timers.Initialized && t.ticks == 0 && t.elapsed == 0 && t.tps == Timers.TicksPerSec
    ensures task.Timer? ==> t.seconds == Some(task.timer)
    ensures !task.Timer? ==> t.seconds.None?
  {
    Timers.NewTimer(if task.Timer? then Some(task.timer) else None, Timers.TicksPerSec)
  }

  /** A stopwatch task's timer keeps running however long it is ticked. */
  lemma StopwatchRunsOpenEnded(task: Task, n: nat)
    requires task.Stopwatch?
    ensures
      var t := Timers.After(Timers.StartTimer(TimerFromTask(task)).0, n);
      t.state == Timers.Running && t.ticks == n
  {
    Timers.StopwatchNeverFinishes(None, Timers.TicksPerSec, n);
  }

  /**
   * A timer task of `d > 0` seconds gets a timer that runs for exactly
   * `d * TICKS_PER_SEC` ticks and has finished on the last of them.
   */
  lemma TimerTaskRunsItsDuration(task: Task, n: nat)
    requires task.Timer? && task.timer > 0
    ensures
      var t := Timers.After(Timers.StartTimer(TimerFromTask(task)).0, n);
      && (n < task.timer * Timers.TicksPerSec ==> t.state == Timers.Running && t.ticks == n)
      && (n >= task.timer * Timers.TicksPerSec ==> t.state == Timers.Finished && t.ticks == task.timer * Timers.TicksPerSec)
  {
    Timers.FinishesOnTime(task.timer, Timers.TicksPerSec, n);
  }

  /** The call of the caller's callback for `e`, if the caller gave one. */
  function CallerPart(m: Manager, e: Timers.Event): seq<Signal> {
    if Timers.Name(e) in m.callbacks then [Caller(e)] else []
  }

  /** The composed `start` listener: the caller's callback, then `startTaskCallback`. */
  function OnStart(m: Manager): seq<Signal> {
    CallerPart(m, Timers.Start) + [StartTask(m.current, m.next)]
  }

  /**
   * `assignAndStartTimer`: a new timer for the current task, started at
   * once; its `start` event reaches the listeners just attached. Reading
   * the type of a `null` or `undefined` current task throws.
   */
  function AssignAndStartTimer(m: Manager): (r: Outcome)
    ensures r.Crashed? <==> !m.current.Item?
    ensures r.Crashed? ==> r.out == []
    ensures r.Done? ==> r.m == m.(timer := Some(Timers.StartTimer(TimerFromTask(m.current.leaf)).0))
    ensures r.Done? ==> r.out == CallerPart(m, Timers.Start) + [StartTask(m.current, m.next)]
  {
    if !m.current.Item? then Crashed([])
    else
      var (t, _) := Timers.StartTimer(TimerFromTask(m.current.leaf));
      var m' := m.(timer := Some(t));
      Done(m', OnStart(m'))
  }

  /**
   * `stopTaskCallback`: announce the stopped task; when the pulled-ahead
   * value is `null` announce the end, otherwise make it current, pull the
   * one after it and start a timer for it.
   */
  function StopTaskCallback(m: Manager, report: Timers.Event): (r: Outcome)
    requires Wired(m.treeIterator)
    ensures r.Done? ==> Wired(r.m.treeIterator) && r.m.callbacks == m.callbacks
    ensures m.next.Null? ==> r == Done(m, [StopTask(report), ManagerStop])
    ensures m.next.Undefined? ==> r == Crashed([StopTask(report)])
    ensures m.next.Item? ==> (r.Done? <==> !m.treeIterator.last.LastUndefined?)
    ensures m.next.Item? && r.Done? ==>
      && r.m.current == m.next && r.m.pulled == m.pulled + 1
      && r.m.timer == Some(Timers.StartTimer(TimerFromTask(m.next.leaf)).0)
      && r.out == [StopTask(report)] + CallerPart(m, Timers.Start) + [StartTask(m.next, r.m.next)]
  {
    if m.next.Null? then Done(m, [StopTask(report), ManagerStop])
    else
      match Pull(m.(current := m.next))
      case None => Crashed([StopTask(report)])
      case Some((m1, n)) =>
        match AssignAndStartTimer(m1.(next := n))
        case Crashed(out) => Crashed([StopTask(report)] + out)
        case Done(m2, out) => Done(m2, [StopTask(report)] + out)
  }

  /** One event of the current timer reaching the manager's listeners. */
  function Dispatch(m: Manager, e: Timers.Event): (r: Outcome)
    requires Wired(m.treeIterator)
    ensures r.Done? ==> Wired(r.m.treeIterator) && r.m.callbacks == m.callbacks
    ensures e.Tick? ==> r == Done(m, [])
    ensures !e.Tick? && Timers.Name(e) in m.callbacks ==> r.out != [] && r.out[0] == Caller(e)
    ensures e.Start? ==> r == Done(m, CallerPart(m, e) + [StartTask(m.current, m.next)])
    ensures !e.Stop? && !e.Start? && !e.Tick? ==> r == Done(m, CallerPart(m, e))
  {
    Timers.ListedNames(e);
    if Timers.Name(e) !in Timers.Listed then Done(m, [])
    else
      var caller := CallerPart(m, e);
      match e
      case Start => Done(m, caller + [StartTask(m.current, m.next)])
      case Stop(_, _) =>
        (match StopTaskCallback(m, e)
         case Crashed(out) => Crashed(caller + out)
         case Done(m', out) => Done(m', caller + out))
      case _ => Done(m, caller)
  }

  /** The events of one timer operation, dispatched in firing order; an exception ends the operation. */
  function DispatchAll(m: Manager, es: seq<Timers.Event>): (r: Outcome)
    requires Wired(m.treeIterator)
    ensures r.Done? ==> Wired(r.m.treeIterator) && r.m.callbacks == m.callbacks
    ensures (forall i :: 0 <= i < |es| ==> !es[i].Stop?) ==> r.Done? && r.m == m
    decreases |es|
  {
    if es == [] then Done(m, [])
    else
      match Dispatch(m, es[0])
      case Crashed(out) => Crashed(out)
      case Done(m', out) =>
        match DispatchAll(m', es[1..])
        case Crashed(out') => Crashed(out + out')
        case Done(m'', out') => Done(m'', out + out')
  }

  /**
   * `start`: announce the run, pull the first task (announcing the end at
   * once if the pull returned `null`) and the one after it, and start a
   * timer for the first.
   */
  function Start(m: Manager): (r: Outcome)
    requires Wired(m.treeIterator)
    ensures r.Done? ==> Wired(r.m.treeIterator) && r.m.callbacks == m.callbacks
    ensures r.out != [] && r.out[0] == ManagerStart
  {
    match Pull(m)
    case None => Crashed([ManagerStart])
    case Some((m1, c)) =>
      var pre := [ManagerStart] + (if c.Null? then [ManagerStop] else []);
      match Pull(m1.(current := c))
      case None => Crashed(pre)
      case Some((m2, n)) =>
        match AssignAndStartTimer(m2.(next := n))
        case Crashed(out) => Crashed(pre + out)
        case Done(m3, out) => Done(m3, pre + out)
  }

  /** `stop`: stop the current timer; its `stop` event makes the manager move on. No timer yet throws. */
  function Stop(m: Manager): (r: Outcome)
    requires Wired(m.treeIterator)
    ensures r.Done? ==> Wired(r.m.treeIterator) && r.m.callbacks == m.callbacks
    ensures m.timer.None? ==> r == Crashed([])
  {
    if m.timer.None? then Crashed([])
    else
      var (t, es) := Timers.StopTimer(m.timer.value);
      DispatchAll(m.(timer := Some(t)), es)
  }

  /** `togglePause`: forward to the current timer, whose exception propagates. */
  function TogglePause(m: Manager): (r: Outcome)
    requires Wired(m.treeIterator)
    ensures r.Done? ==> Wired(r.m.treeIterator) && r.m.callbacks == m.callbacks
    ensures m.timer.None? ==> r == Crashed([])
  {
    if m.timer.None? then Crashed([])
    else
      match Timers.TogglePause(m.timer.value)
      case Err(_) => Crashed([])
      case Ok((t, es)) => DispatchAll(m.(timer := Some(t)), es)
  }

  /**
   * One firing of the current timer's interval. The interval exists from
   * the timer's `start` until its `stop`, so a finished timer does not tick.
   */
  function TimerTick(m: Manager): (r: Outcome)
    requires Wired(m.treeIterator)
    ensures r.Done? ==> Wired(r.m.treeIterator) && r.m.callbacks == m.callbacks
    ensures m.timer.None? ==> r == Done(m, [])
  {
    if m.timer.None? || m.timer.value.state == Timers.Finished then Done(m, [])
    else
      var (t, es) := Timers.TickTimer(m.timer.value);
      DispatchAll(m.(timer := Some(t)), es)
  }

  // ---------------------------------------------------------------------------
  // Properties
  // ---------------------------------------------------------------------------

  /**
   * `start` never announces the end at once: its first pull is a fresh
   * iterator's first `next()`, which hands back a leaf or `undefined` but
   * never the `null` the source tests for. After an `undefined` only
   * `taskManager:start` has fired when the second pull throws.
   */
  lemma StartNeverEndsAtOnce(root: Task, callbacks: set<string>)
    requires root.Repeat?
    ensures Next(Init(root)).1.Item? || Next(Init(root)).1.Undefined?
    ensures ManagerStop !in Start(NewManager(root, callbacks)).out
    ensures Next(Init(root)).1.Undefined? ==> Start(NewManager(root, callbacks)) == Crashed([ManagerStart])
  {
    var m := NewManager(root, callbacks);
    var (m1, c) := Pull(m).value;
    if c.Item? {
      match Pull(m1.(current := c))
      case None =>
      case Some((m2, n)) =>
        var r := AssignAndStartTimer(m2.(next := n));
        assert ManagerStop !in r.out;
    }
  }

  /** A plan without tasks: `start` announces the run and then throws, without announcing its end. */
  lemma EmptyPlanCrashes(id: string, title: string, repeat: nat, callbacks: set<string>)
    ensures Start(NewManager(Repeat(id, title, repeat, []), callbacks)) == Crashed([ManagerStart])
  {
    var root := Repeat(id, title, repeat, []);
    var it := Init(root);
    assert !HasNextChild(it.book, [], root) && !HasNextIteration(it.book, [], root);
    assert Next(it).1 == Undefined;
    StartNeverEndsAtOnce(root, callbacks);
  }

  /** A plan whose only task is an empty group: the same as a plan without tasks. */
  lemma EmptyGroupPlanCrashes(callbacks: set<string>)
    ensures Start(NewManager(Repeat("root", "", 1, [Repeat("g", "", 2, [])]), callbacks)) == Crashed([ManagerStart])
  {
    EmptyGroupBreaks();
    StartNeverEndsAtOnce(Repeat("root", "", 1, [Repeat("g", "", 2, [])]), callbacks);
  }

  /**
   * The one-ahead lookahead of a started manager over an iterator that owed
   * `order`: the iterator is valid and still owes what follows the pulls
   * made, the current task is the leaf of the last-but-one pull, the
   * pulled-ahead value is the result of the last pull, and a timer exists.
   */
  ghost predicate Lookahead(m: Manager, order: seq<Task>) {
    && Refinement.Valid(m.treeIterator)
    && Refinement.Rest(m.treeIterator) == Drop(order, m.pulled)
    && m.pulled >= 2
    && m.current == ItemAt(order, m.pulled - 2) && m.current.Item?
    && m.next == ItemAt(order, m.pulled - 1)
    && m.timer.Some?
  }

  /**
   * Starting a manager over a plan whose every group holds a leaf makes the
   * first leaf of `Linearize(root)` current, pulls the second ahead and
   * announces the run and then the first task.
   */
  lemma StartRunsFirst(root: Task, callbacks: set<string>)
    requires root.Repeat? && EveryGroupHasLeaf(root)
    ensures
      var order := Linearize(root);
      var r := Start(NewManager(root, callbacks));
      && order != []
      && r.Done? && Lookahead(r.m, order) && r.m.pulled == 2
      && r.m.current == Item(order[0]) && r.m.next == ItemAt(order, 1)
      && r.m.timer == Some(Timers.StartTimer(TimerFromTask(order[0])).0)
      && r.out == [ManagerStart] + CallerPart(r.m, Timers.Start) + [StartTask(Item(order[0]), ItemAt(order, 1))]
  {
    Refinement.InitValid(root);
    StartFollowsOrder(NewManager(root, callbacks), Linearize(root));
  }

  /** `start` on a fresh manager whose valid iterator owes `order`. */
  lemma StartFollowsOrder(m: Manager, order: seq<Task>)
    requires Refinement.Valid(m.treeIterator) && Refinement.Rest(m.treeIterator) == order
    requires m.treeIterator.last == Unstarted && m.pulled == 0
    ensures
      var r := Start(m);
      && order != []
      && r.Done? && Lookahead(r.m, order) && r.m.pulled == 2 && r.m.callbacks == m.callbacks
      && r.m.current == Item(order[0]) && r.m.next == ItemAt(order, 1)
      && r.m.timer == Some(Timers.StartTimer(TimerFromTask(order[0])).0)
      && r.out == [ManagerStart] + CallerPart(m, Timers.Start) + [StartTask(Item(order[0]), ItemAt(order, 1))]
  {
    assert Drop(order, 0) == order;
    PullFollowsOrder(m, order);
    FirstPullNotNull(m.treeIterator);
    var (m1, c) := Pull(m).value;
    PullFollowsOrder(m1.(current := c), order);
    StartFromLeaf(m);
    var m2 := Pull(m1.(current := c)).value.0;
    assert Start(m).m.treeIterator == m2.treeIterator && Start(m).m.pulled == m2.pulled;
  }

  /** The first `next()` of an iterator hands back a leaf or `undefined`, never `null`. */
  lemma FirstPullNotNull(it: State)
    requires Wired(it) && it.last == Unstarted
    ensures Next(it).1.Item? || Next(it).1.Undefined?
  {
  }

  /** `start` when the first pull hands back a leaf and the second one does not throw. */
  lemma StartFromLeaf(m: Manager)
    requires Wired(m.treeIterator) && Pull(m).Some? && Pull(m).value.1.Item?
    requires Pull(Pull(m).value.0.(current := Pull(m).value.1)).Some?
    ensures
      var (m1, c) := Pull(m).value;
      var (m2, n) := Pull(m1.(current := c)).value;
      Start(m) == Done(m2.(next := n, timer := Some(Timers.StartTimer(TimerFromTask(c.leaf)).0)),
                       [ManagerStart] + CallerPart(m, Timers.Start) + [StartTask(c, n)])
  {
  }

  /**
   * A `stop` event on a started manager: the caller's callback, then
   * `stopTaskCallback`, which either announces the end (`null` pulled
   * ahead) or moves to the pulled-ahead task, pulls the one after it and
   * announces it. The lookahead is kept.
   */
  lemma StopDispatch(m: Manager, order: seq<Task>, e: Timers.Event)
    requires Lookahead(m, order) && e.Stop?
    ensures
      var r := Dispatch(m, e);
      && r.Done? && Lookahead(r.m, order)
      && (m.next.Null? ==> r.m == m && r.out == CallerPart(m, e) + [StopTask(e), ManagerStop])
      && (m.next.Item? ==>
            && r.m.current == m.next && r.m.pulled == m.pulled + 1
            && r.m.timer == Some(Timers.StartTimer(TimerFromTask(m.next.leaf)).0)
            && r.out == CallerPart(m, e) + [StopTask(e)] + CallerPart(m, Timers.Start) + [StartTask(m.next, ItemAt(order, m.pulled))])
  {
    if m.next.Item? {
      StopMovesOn(m, order, e);
    } else {
      Timers.ListedNames(e);
      assert Dispatch(m, e) == Done(m, CallerPart(m, e) + [StopTask(e), ManagerStop]);
    }
  }

  /** A `stop` event with a leaf pulled ahead: that leaf becomes current and the one after it is pulled. */
  lemma StopMovesOn(m: Manager, order: seq<Task>, e: Timers.Event)
    requires Lookahead(m, order) && e.Stop? && m.next.Item?
    ensures
      var r := Dispatch(m, e);
      && r.Done? && Lookahead(r.m, order)
      && r.m.current == m.next && r.m.pulled == m.pulled + 1
      && r.m.timer == Some(Timers.StartTimer(TimerFromTask(m.next.leaf)).0)
      && r.out == CallerPart(m, e) + [StopTask(e)] + CallerPart(m, Timers.Start) + [StartTask(m.next, ItemAt(order, m.pulled))]
  {
    var m0 := m.(current := m.next);
    PullFollowsOrder(m0, order);
    StopFromLeaf(m, e);
    var (m1, n) := Pull(m0).value;
    var t := Timers.StartTimer(TimerFromTask(m.next.leaf)).0;
    LookaheadAdvances(m, order, m1.treeIterator, t);
    assert Dispatch(m, e).m == Manager(m1.treeIterator, m.pulled + 1, m.next, ItemAt(order, m.pulled), Some(t), m.callbacks);
  }

  /** The lookahead one pull further on: the pulled-ahead leaf is current and the next element is pulled ahead. */
  lemma LookaheadAdvances(m: Manager, order: seq<Task>, it: State, t: Timers.Timer)
    requires m.pulled >= 2 && m.next == ItemAt(order, m.pulled - 1) && m.next.Item?
    requires Refinement.Valid(it) && Refinement.Rest(it) == Drop(order, m.pulled + 1)
    ensures Lookahead(Manager(it, m.pulled + 1, m.next, ItemAt(order, m.pulled), Some(t), m.callbacks), order)
  {
  }

  /** A `stop` event when a leaf was pulled ahead and the next pull does not throw. */
  lemma StopFromLeaf(m: Manager, e: Timers.Event)
    requires Wired(m.treeIterator) && e.Stop? && m.next.Item?
    requires Pull(m.(current := m.next)).Some?
    ensures
      var (m1, n) := Pull(m.(current := m.next)).value;
      Dispatch(m, e) == Done(m1.(next := n, timer := Some(Timers.StartTimer(TimerFromTask(m.next.leaf)).0)),
                             CallerPart(m, e) + [StopTask(e)] + CallerPart(m, Timers.Start) + [StartTask(m.next, n)])
  {
    Timers.ListedNames(e);
  }

  lemma DispatchAllOne(m: Manager, e: Timers.Event)
    requires Wired(m.treeIterator)
    ensures DispatchAll(m, [e]) == Dispatch(m, e)
  {
    assert [e][1..] == [];
    match Dispatch(m, e)
    case Crashed(out) =>
    case Done(m', out) =>
      assert out + [] == out;
  }

  /**
   * `stop` on a started manager: the caller hears of the stop first; then
   * the manager reports it and either announces the end or moves on to the
   * pulled-ahead task. The lookahead is kept.
   */
  lemma StopAdvances(m: Manager, order: seq<Task>)
    requires Lookahead(m, order)
    ensures Stop(m).Done? && Lookahead(Stop(m).m, order)
    ensures
      var report := Timers.StopTimer(m.timer.value).1[0];
      var r := Stop(m);
      && (m.next.Null? ==> r.m.current == m.current && r.m.pulled == m.pulled && r.out == CallerPart(m, report) + [StopTask(report), ManagerStop])
      && (m.next.Item? ==>
            && r.m.current == m.next && r.m.pulled == m.pulled + 1
            && r.out == CallerPart(m, report) + [StopTask(report)] + CallerPart(m, Timers.Start) + [StartTask(m.next, ItemAt(order, m.pulled))])
  {
    var (t, es) := Timers.StopTimer(m.timer.value);
    var m1 := m.(timer := Some(t));
    StopDispatch(m1, order, es[0]);
    DispatchAllOne(m1, es[0]);
    assert es == [es[0]];
    assert CallerPart(m1, es[0]) == CallerPart(m, es[0]);
    assert CallerPart(m1, Timers.Start) == CallerPart(m, Timers.Start);
  }

  /** Dispatching one event keeps the lookahead. */
  lemma DispatchKeepsLookahead(m: Manager, order: seq<Task>, e: Timers.Event)
    requires Lookahead(m, order)
    ensures Dispatch(m, e).Done? && Lookahead(Dispatch(m, e).m, order)
  {
    if e.Stop? {
      StopDispatch(m, order, e);
    }
  }

  lemma {:induction false} DispatchAllKeepsLookahead(m: Manager, order: seq<Task>, es: seq<Timers.Event>)
    requires Lookahead(m, order)
    ensures DispatchAll(m, es).Done? && Lookahead(DispatchAll(m, es).m, order)
    decreases |es|
  {
    if es != [] {
      DispatchKeepsLookahead(m, order, es[0]);
      DispatchAllKeepsLookahead(Dispatch(m, es[0]).m, order, es[1..]);
    }
  }

  /** A tick of the current timer keeps the lookahead, whatever it fires. */
  lemma TickKeepsLookahead(m: Manager, order: seq<Task>)
    requires Lookahead(m, order)
    ensures TimerTick(m).Done? && Lookahead(TimerTick(m).m, order)
  {
    if m.timer.value.state != Timers.Finished {
      var (t, es) := Timers.TickTimer(m.timer.value);
      DispatchAllKeepsLookahead(m.(timer := Some(t)), order, es);
    }
  }

  /**
   * A tick that finishes the current timer moves the manager on as `stop`
   * would: the caller hears `tickSecond` and the stop report, then the
   * manager reports the stopped task and either announces the end or makes
   * the pulled-ahead task current and announces it.
   */
  lemma FinishingTickAdvances(m: Manager, order: seq<Task>)
    requires Lookahead(m, order)
    requires m.timer.value.state == Timers.Running && Timers.TickTimer(m.timer.value).0.state == Timers.Finished
    ensures
      var t := m.timer.value;
      var second := Timers.TickSecond((t.ticks + 1) / t.tps);
      var report := Timers.Stop((t.ticks + 1) / t.tps, (t.elapsed - t.ticks) / t.tps);
      var r := TimerTick(m);
      && r.Done? && Lookahead(r.m, order)
      && (m.next.Null? ==>
            && r.m.current == m.current && r.m.pulled == m.pulled
            && r.out == CallerPart(m, second) + (CallerPart(m, report) + [StopTask(report), ManagerStop]))
      && (m.next.Item? ==>
            && r.m.current == m.next && r.m.pulled == m.pulled + 1
            && r.out == CallerPart(m, second) + (CallerPart(m, report) + [StopTask(report)]
                        + CallerPart(m, Timers.Start) + [StartTask(m.next, ItemAt(order, m.pulled))]))
  {
    if m.next.Item? {
      FinishingTickMovesOn(m, order);
    } else {
      FinishingTickEnds(m, order);
    }
  }

  /** The finishing tick's events, dispatched: `tick` reaches nobody, then `tickSecond`, then the stop report. */
  lemma FinishingTickDispatch(m: Manager)
    requires Wired(m.treeIterator) && m.timer.Some?
    requires m.timer.value.state == Timers.Running && Timers.TickTimer(m.timer.value).0.state == Timers.Finished
    requires
      var t := m.timer.value;
      Dispatch(m.(timer := Some(Timers.TickTimer(t).0)), Timers.Stop((t.ticks + 1) / t.tps, (t.elapsed - t.ticks) / t.tps)).Done?
    ensures
      var t := m.timer.value;
      var report := Timers.Stop((t.ticks + 1) / t.tps, (t.elapsed - t.ticks) / t.tps);
      var d := Dispatch(m.(timer := Some(Timers.TickTimer(t).0)), report);
      TimerTick(m) == Done(d.m, CallerPart(m, Timers.TickSecond((t.ticks + 1) / t.tps)) + d.out)
  {
    var t := m.timer.value;
    Timers.FinishingTickEvents(t);
    var (t', es) := Timers.TickTimer(t);
    var m1 := m.(timer := Some(t'));
    DispatchAllThree(m1, es[0], es[1], es[2]);
    assert es == [es[0], es[1], es[2]];
  }

  lemma FinishingTickEnds(m: Manager, order: seq<Task>)
    requires Lookahead(m, order) && m.next.Null?
    requires m.timer.value.state == Timers.Running && Timers.TickTimer(m.timer.value).0.state == Timers.Finished
    ensures
      var t := m.timer.value;
      var report := Timers.Stop((t.ticks + 1) / t.tps, (t.elapsed - t.ticks) / t.tps);
      var r := TimerTick(m);
      && r.Done? && Lookahead(r.m, order) && r.m.current == m.current && r.m.pulled == m.pulled
      && r.out == CallerPart(m, Timers.TickSecond((t.ticks + 1) / t.tps)) + (CallerPart(m, report) + [StopTask(report), ManagerStop])
  {
    var t := m.timer.value;
    var report := Timers.Stop((t.ticks + 1) / t.tps, (t.elapsed - t.ticks) / t.tps);
    var m1 := m.(timer := Some(Timers.TickTimer(t).0));
    LookaheadNewTimer(m, order, Timers.TickTimer(t).0);
    StopDispatch(m1, order, report);
    FinishingTickDispatch(m);
  }

  lemma FinishingTickMovesOn(m: Manager, order: seq<Task>)
    requires Lookahead(m, order) && m.next.Item?
    requires m.timer.value.state == Timers.Running && Timers.TickTimer(m.timer.value).0.state == Timers.Finished
    ensures
      var t := m.timer.value;
      var report := Timers.Stop((t.ticks + 1) / t.tps, (t.elapsed - t.ticks) / t.tps);
      var r := TimerTick(m);
      && r.Done? && Lookahead(r.m, order) && r.m.current == m.next && r.m.pulled == m.pulled + 1
      && r.out == CallerPart(m, Timers.TickSecond((t.ticks + 1) / t.tps)) + (CallerPart(m, report) + [StopTask(report)]
                  + CallerPart(m, Timers.Start) + [StartTask(m.next, ItemAt(order, m.pulled))])
  {
    var t := m.timer.value;
    var report := Timers.Stop((t.ticks + 1) / t.tps, (t.elapsed - t.ticks) / t.tps);
    var t' := Timers.TickTimer(t).0;
    LookaheadNewTimer(m, order, t');
    StopMovesOn(m.(timer := Some(t')), order, report);
    FinishingTickDispatch(m);
    FinishingTickOut(m);
    assert TimerTick(m).m.pulled - 1 == m.pulled;
  }

  /** The signals of a finishing tick with a leaf pulled ahead, whatever the iterator owes. */
  lemma FinishingTickOut(m: Manager)
    requires Wired(m.treeIterator) && m.timer.Some? && m.next.Item? && !m.treeIterator.last.LastUndefined?
    requires m.timer.value.state == Timers.Running && Timers.TickTimer(m.timer.value).0.state == Timers.Finished
    ensures
      var t := m.timer.value;
      var report := Timers.Stop((t.ticks + 1) / t.tps, (t.elapsed - t.ticks) / t.tps);
      var r := TimerTick(m);
      && r.Done?
      && r.out == CallerPart(m, Timers.TickSecond((t.ticks + 1) / t.tps)) + (CallerPart(m, report) + [StopTask(report)]
                  + CallerPart(m, Timers.Start) + [StartTask(m.next, r.m.next)])
  {
    var t := m.timer.value;
    var report := Timers.Stop((t.ticks + 1) / t.tps, (t.elapsed - t.ticks) / t.tps);
    var m1 := m.(timer := Some(Timers.TickTimer(t).0));
    StopFromLeaf(m1, report);
    FinishingTickDispatch(m);
    assert CallerPart(m1, report) == CallerPart(m, report) && CallerPart(m1, Timers.Start) == CallerPart(m, Timers.Start);
  }

  /** Replacing the timer of a started manager keeps the lookahead. */
  lemma LookaheadNewTimer(m: Manager, order: seq<Task>, t: Timers.Timer)
    requires Lookahead(m, order)
    ensures Lookahead(m.(timer := Some(t)), order)
  {
  }

  /** `tick`, then an event the manager only forwards, then one it reacts to. */
  lemma DispatchAllThree(m: Manager, a: Timers.Event, b: Timers.Event, c: Timers.Event)
    requires Wired(m.treeIterator) && a.Tick? && !b.Tick? && !b.Start? && !b.Stop? && Dispatch(m, c).Done?
    ensures DispatchAll(m, [a, b, c]) == Done(Dispatch(m, c).m, CallerPart(m, b) + Dispatch(m, c).out)
  {
    assert [a, b, c][1..] == [b, c] && [b, c][1..] == [c];
    DispatchAllOne(m, c);
  }

  /**
   * `togglePause` on a started manager throws exactly when the timer is
   * neither running nor paused, and otherwise keeps the lookahead.
   */
  lemma TogglePauseKeepsLookahead(m: Manager, order: seq<Task>)
    requires Lookahead(m, order)
    ensures TogglePause(m).Crashed? <==> m.timer.value.state !in {Timers.Running, Timers.Paused}
    ensures TogglePause(m).Done? ==> Lookahead(TogglePause(m).m, order) && TogglePause(m).m.current == m.current
  {
    if Timers.TogglePause(m.timer.value).Ok? {
      var (t, es) := Timers.TogglePause(m.timer.value).value;
      DispatchAllOne(m.(timer := Some(t)), es[0]);
      assert es == [es[0]];
    }
  }

  /** `step` applied `k` times to `x`. */
  ghost function Iterate<T>(step: T -> T, x: T, k: nat): T
    decreases k
  {
    if k == 0 then x else step(Iterate(step, x, k - 1))
  }

  /** One `stop`, on an outcome that left a manager behind. */
  ghost function AfterStop(r: Outcome): Outcome {
    if r.Done? && Wired(r.m.treeIterator) then Stop(r.m) else r
  }

  /**
   * Over a plan whose every group holds a leaf, the current tasks run
   * through `Linearize(root)` one by one: after `start` and `k` stops the
   * current task is its element `k` (the last one once it is used up), and
   * `k` counts the pulls beyond the first two.
   */
  lemma RunsInOrder(root: Task, callbacks: set<string>, k: nat)
    requires root.Repeat? && EveryGroupHasLeaf(root)
    ensures
      var order := Linearize(root);
      var r := Iterate(AfterStop, Start(NewManager(root, callbacks)), k);
      var i := if k < |order| then k else |order| - 1;
      && order != []
      && r.Done? && Lookahead(r.m, order)
      && r.m.current == Item(order[i])
      && r.m.pulled == 2 + i
  {
    Refinement.InitValid(root);
    RunsFrom(NewManager(root, callbacks), Linearize(root), k);
  }

  /** `RunsInOrder` for a fresh manager whose valid iterator owes `order`. */
  lemma RunsFrom(m: Manager, order: seq<Task>, k: nat)
    requires Refinement.Valid(m.treeIterator) && Refinement.Rest(m.treeIterator) == order
    requires m.treeIterator.last == Unstarted && m.pulled == 0
    ensures
      var r := Iterate(AfterStop, Start(m), k);
      var i := if k < |order| then k else |order| - 1;
      && order != []
      && r.Done? && Lookahead(r.m, order)
      && r.m.current == Item(order[i])
      && r.m.pulled == 2 + i
  {
    StartRuns(m, order);
    StopsFromFirst(Start(m), order, k);
  }

  /** From the first element of `order`, `k` stops reach element `k`, or the last one. */
  lemma StopsFromFirst(r: Outcome, order: seq<Task>, k: nat)
    requires Running(r, order) && r.m.pulled == 2
    ensures
      var r' := Iterate(AfterStop, r, k);
      var i := if k < |order| then k else |order| - 1;
      && order != []
      && r'.Done? && Lookahead(r'.m, order)
      && r'.m.current == Item(order[i])
      && r'.m.pulled == 2 + i
  {
    StopsMoveOn(r, order, k);
    var r' := Iterate(AfterStop, r, k);
    var i := if k < |order| then k else |order| - 1;
    assert r'.m.pulled - 2 == i;
    assert r'.m.current == ItemAt(order, i);
  }

  /** `start` on a fresh manager whose valid iterator owes `order` runs its first element. */
  lemma StartRuns(m: Manager, order: seq<Task>)
    requires Refinement.Valid(m.treeIterator) && Refinement.Rest(m.treeIterator) == order
    requires m.treeIterator.last == Unstarted && m.pulled == 0
    ensures order != [] && Running(Start(m), order) && Start(m).m.pulled == 2
  {
    StartFollowsOrder(m, order);
  }

  /** A manager that started and still runs a task of `order`, the one before its lookahead. */
  ghost predicate Running(r: Outcome, order: seq<Task>) {
    r.Done? && Lookahead(r.m, order)
  }

  /** The pull count `k` stops move a running manager to from `pulled`: one each while `order` lasts. */
  function Advance(order: seq<Task>, pulled: int, k: nat): int {
    if pulled + k <= |order| + 1 then pulled + k else |order| + 1
  }

  /** `k` stops move a manager running over `order` `k` elements on, up to the last one. */
  lemma StopsMoveOn(r: Outcome, order: seq<Task>, k: nat)
    requires Running(r, order)
    ensures Running(Iterate(AfterStop, r, k), order)
    ensures Iterate(AfterStop, r, k).m.pulled == Advance(order, r.m.pulled, k)
  {
    forall y {:trigger AfterStop(y)} | Running(y, order)
      ensures Running(AfterStop(y), order) && Pulled(y) <= |order| + 1
      ensures Pulled(AfterStop(y)) == (if Pulled(y) < |order| + 1 then Pulled(y) + 1 else |order| + 1)
    {
      StopStep(y, order);
    }
    assert r.m.current == ItemAt(order, r.m.pulled - 2);
    IterateKeeps(AfterStop, Running, Pulled, order, |order| + 1, r, k);
  }

  /**
   * An invariant `inv(_, c)` of `step` holds after `k` steps, and a count
   * that every step raises by one up to `last` ends `k` higher, or at `last`.
   */
  lemma {:induction false} IterateKeeps<T, C>(step: T -> T, inv: (T, C) -> bool, count: T -> int, c: C, last: int, x: T, k: nat)
    requires inv(x, c) && count(x) <= last
    requires forall y :: inv(y, c) ==> inv(step(y), c) && count(y) <= last && count(step(y)) == (if count(y) < last then count(y) + 1 else last)
    ensures inv(Iterate(step, x, k), c)
    ensures count(Iterate(step, x, k)) == (if count(x) + k <= last then count(x) + k else last)
    decreases k
  {
    if k > 0 {
      IterateKeeps(step, inv, count, c, last, x, k - 1);
    }
  }

  /** The pulls made by the manager an outcome left behind. */
  function Pulled(r: Outcome): int {
    if r.Done? then r.m.pulled else 0
  }

  /** One `stop` moves a running manager one element on in `order`, unless it runs the last one. */
  lemma StopStep(r: Outcome, order: seq<Task>)
    requires Running(r, order)
    ensures Running(Stop(r.m), order) && Stop(r.m).m.pulled == Advance(order, r.m.pulled, 1)
  {
    StopAdvances(r.m, order);
  }
}
