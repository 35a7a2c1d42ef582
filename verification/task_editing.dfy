/**
 * The tree edits of the plan editor (src/TasksComponent.js). Each edit
 * works on a deep copy of the root, finds the task list of a group by id,
 * changes that list in place and publishes the copy. With value semantics
 * the copy is implicit: an edit is a function from the old root to the new
 * one, and the old root is untouched by construction.
 *
 * `findTaskList` hands back a reference into the copy; the in-place change
 * to that list is modelled by `SetTaskList`, which rebuilds the tree with
 * the same group's list replaced. A JavaScript TypeError (a property read
 * or a push on `undefined`) is modelled as `None`.
 */
module TaskEditing {
  import opened Wrappers
  import opened TaskTree
  import opened Durations

  // ---------------------------------------------------------------------------
  // Finding a group's task list
  // ---------------------------------------------------------------------------

  /**
   * `findTaskList(workNode, node)`: the task list of `workNode` if its id
   * matches, else the first match found searching the repeat children left
   * to right, depth first. A matching leaf has no list (`undefined`); a
   * non-matching leaf start node throws on `taskList.length`.
   */
  function FindTaskList(t: Task, id: string): Option<seq<Task>>
    decreases t, 1
  {
    if t.id == id then (if t.Repeat? then Some(t.taskList) else None)
    else if t.Repeat? then FindInChildren(t.taskList, id)
    else None
  }

  /** The loop of `findTaskList` over the children; leaves are skipped. */
  function FindInChildren(ks: seq<Task>, id: string): Option<seq<Task>>
    decreases ks, 0
  {
    if ks == [] then None
    else if ks[0].Repeat? && FindTaskList(ks[0], id).Some? then FindTaskList(ks[0], id)
    else FindInChildren(ks[1..], id)
  }

  /** The tree with the list that `FindTaskList` finds replaced by `l`. */
  function SetTaskList(t: Task, id: string, l: seq<Task>): Option<Task>
    decreases t, 1
  {
    if t.id == id then (if t.Repeat? then Some(t.(taskList := l)) else None)
    else if t.Repeat? then
      match SetInChildren(t.taskList, id, l)
      case None => None
      case Some(ks) => Some(t.(taskList := ks))
    else None
  }

  function SetInChildren(ks: seq<Task>, id: string, l: seq<Task>): Option<seq<Task>>
    decreases ks, 0
  {
    if ks == [] then None
    else if ks[0].Repeat? && FindTaskList(ks[0], id).Some? then
      match SetTaskList(ks[0], id, l)
      case None => None
      case Some(k) => Some([k] + ks[1..])
    else
      match SetInChildren(ks[1..], id, l)
      case None => None
      case Some(rest) => Some([ks[0]] + rest)
  }

  /**
   * Replacing the found list succeeds exactly when there is one to find,
   * and the replaced tree then yields the new list; the root keeps its id
   * and kind.
   */
  lemma {:induction false} SetThenFind(t: Task, id: string, l: seq<Task>)
    ensures SetTaskList(t, id, l).Some? <==> FindTaskList(t, id).Some?
    ensures SetTaskList(t, id, l).Some? ==>
      var t' := SetTaskList(t, id, l).value;
      FindTaskList(t', id) == Some(l) && t'.id == t.id && t'.Repeat?
    decreases t, 1
  {
    if t.id != id && t.Repeat? {
      SetThenFindChildren(t.taskList, id, l);
    }
  }

  lemma {:induction false} SetThenFindChildren(ks: seq<Task>, id: string, l: seq<Task>)
    ensures SetInChildren(ks, id, l).Some? <==> FindInChildren(ks, id).Some?
    ensures SetInChildren(ks, id, l).Some? ==>
      var ks' := SetInChildren(ks, id, l).value;
      FindInChildren(ks', id) == Some(l) && |ks'| == |ks|
    decreases ks, 0
  {
    if ks != [] {
      if ks[0].Repeat? && FindTaskList(ks[0], id).Some? {
        SetThenFind(ks[0], id, l);
        var k := SetTaskList(ks[0], id, l).value;
        assert ([k] + ks[1..])[0] == k;
      } else {
        SetThenFindChildren(ks[1..], id, l);
        if SetInChildren(ks[1..], id, l).Some? {
          var rest := SetInChildren(ks[1..], id, l).value;
          assert ([ks[0]] + rest)[0] == ks[0];
          assert ([ks[0]] + rest)[1..] == rest;
        }
      }
    }
  }

  /** Writing back the list that was found changes nothing. */
  lemma {:induction false} SetFoundIsIdentity(t: Task, id: string)
    requires FindTaskList(t, id).Some?
    ensures SetTaskList(t, id, FindTaskList(t, id).value) == Some(t)
    decreases t, 1
  {
    if t.id != id {
      SetFoundIsIdentityChildren(t.taskList, id);
    }
  }

  lemma {:induction false} SetFoundIsIdentityChildren(ks: seq<Task>, id: string)
    requires FindInChildren(ks, id).Some?
    ensures SetInChildren(ks, id, FindInChildren(ks, id).value) == Some(ks)
    decreases ks, 0
  {
    if ks[0].Repeat? && FindTaskList(ks[0], id).Some? {
      SetFoundIsIdentity(ks[0], id);
      assert [ks[0]] + ks[1..] == ks;
    } else {
      SetFoundIsIdentityChildren(ks[1..], id);
      assert [ks[0]] + ks[1..] == ks;
    }
  }

  /** The position of the group whose list `FindTaskList` finds. */
  function FoundAt(t: Task, id: string): (r: Option<Path>)
    ensures r.Some? <==> FindTaskList(t, id).Some?
    decreases t, 1
  {
    if t.id == id then (if t.Repeat? then Some([]) else None)
    else if t.Repeat? then FoundInChildren(t.taskList, id)
    else None
  }

  /** The position, relative to the list `ks`, of the group whose list `FindInChildren` finds. */
  function FoundInChildren(ks: seq<Task>, id: string): (r: Option<Path>)
    ensures r.Some? <==> FindInChildren(ks, id).Some?
    ensures r.Some? ==> r.value != [] && r.value[0] < |ks|
    decreases ks, 0
  {
    if ks == [] then None
    else if ks[0].Repeat? && FindTaskList(ks[0], id).Some? then
      (match FoundAt(ks[0], id)
       case None => None
       case Some(p) => Some([0] + p))
    else
      match FoundInChildren(ks[1..], id)
      case None => None
      case Some(p) => Some([p[0] + 1] + p[1..])
  }

  /** Two nodes alike except for the contents of their task lists. */
  predicate SameNode(a: Task, b: Task) {
    && a.id == b.id && a.title == b.title
    && (a.Timer? <==> b.Timer?) && (a.Repeat? <==> b.Repeat?)
    && (a.Timer? ==> a.timer == b.timer)
    && (a.Repeat? ==> a.repeat == b.repeat && |a.taskList| == |b.taskList|)
  }

  /**
   * The in-place change is local. At the position `p` where the list was
   * found sits a group with the id, holding that list; after the change it
   * holds `l` and is otherwise the same. The groups on the way down to `p`
   * keep everything but that one descendant, and every node at a position
   * that is neither above nor below `p` is unchanged.
   */
  lemma {:induction false} SetTaskListFrame(t: Task, id: string, l: seq<Task>)
    requires FindTaskList(t, id).Some?
    ensures
      var p := FoundAt(t, id).value;
      && Sub(t, p).Some? && Sub(t, p).value.Repeat? && Sub(t, p).value.id == id
      && FindTaskList(t, id) == Some(Sub(t, p).value.taskList)
      && SetTaskList(t, id, l).Some?
      && Sub(SetTaskList(t, id, l).value, p) == Some(Sub(t, p).value.(taskList := l))
      && (forall k :: 0 <= k < |p| ==>
            Sub(SetTaskList(t, id, l).value, p[..k]).Some? && Sub(t, p[..k]).Some?
            && SameNode(Sub(SetTaskList(t, id, l).value, p[..k]).value, Sub(t, p[..k]).value))
      && (forall q :: !IsPrefix(q, p) && !IsPrefix(p, q) ==> Sub(SetTaskList(t, id, l).value, q) == Sub(t, q))
    decreases t
  {
    var p := FoundAt(t, id).value;
    if t.id != id {
      var ks := t.taskList;
      SetInChildrenFrame(ks, id, l);
      var j, rest := p[0], p[1..];
      var ks' := SetInChildren(ks, id, l).value;
      var t' := SetTaskList(t, id, l).value;
      assert t' == t.(taskList := ks');
      SetTaskListFrame(ks[j], id, l);
      assert p == [j] + rest;
      forall k | 0 <= k < |p|
        ensures Sub(t', p[..k]).Some? && Sub(t, p[..k]).Some? && SameNode(Sub(t', p[..k]).value, Sub(t, p[..k]).value)
      {
        if k > 0 {
          assert p[..k] == [j] + rest[..k - 1];
          assert p[..k][1..] == rest[..k - 1];
        }
      }
      forall q | !IsPrefix(q, p) && !IsPrefix(p, q)
        ensures Sub(t', q) == Sub(t, q)
      {
        assert q != [];
        if q[0] == j {
          assert !IsPrefix(q[1..], rest) && !IsPrefix(rest, q[1..]) by {
            assert q == [j] + q[1..];
            PrefixCons(j, q[1..], rest);
            PrefixCons(j, rest, q[1..]);
          }
        }
      }
    }
  }

  lemma PrefixCons(j: nat, a: Path, b: Path)
    ensures IsPrefix([j] + a, [j] + b) <==> IsPrefix(a, b)
  {
    if IsPrefix(a, b) {
      assert ([j] + b)[..|[j] + a|] == [j] + b[..|a|];
    }
    if IsPrefix([j] + a, [j] + b) {
      assert b[..|a|] == ([j] + b)[..|[j] + a|][1..];
    }
  }

  /** The in-place change in the list of children: only the child the found group lies under changes. */
  lemma {:induction false} SetInChildrenFrame(ks: seq<Task>, id: string, l: seq<Task>)
    requires FindInChildren(ks, id).Some?
    ensures
      var p := FoundInChildren(ks, id).value;
      && FoundAt(ks[p[0]], id) == Some(p[1..])
      && FindInChildren(ks, id) == FindTaskList(ks[p[0]], id)
      && SetInChildren(ks, id, l).Some? && SetTaskList(ks[p[0]], id, l).Some?
      && |SetInChildren(ks, id, l).value| == |ks|
      && SetInChildren(ks, id, l).value[p[0]] == SetTaskList(ks[p[0]], id, l).value
      && (forall j :: 0 <= j < |ks| && j != p[0] ==> SetInChildren(ks, id, l).value[j] == ks[j])
    decreases ks
  {
    if ks[0].Repeat? && FindTaskList(ks[0], id).Some? {
      SetThenFind(ks[0], id, l);
      assert FoundInChildren(ks, id).value[1..] == FoundAt(ks[0], id).value;
    } else {
      SetInChildrenFrame(ks[1..], id, l);
      var p' := FoundInChildren(ks[1..], id).value;
      assert FoundInChildren(ks, id).value[1..] == p'[1..];
    }
  }

  /** The nodes `findTaskList` visits, in visiting order: the start node, then the repeat children's visits in turn. */
  function Visits(t: Task): seq<Task>
    decreases t, 1
  {
    [t] + (if t.Repeat? then VisitsAll(t.taskList) else [])
  }

  function VisitsAll(ks: seq<Task>): seq<Task>
    decreases ks, 0
  {
    if ks == [] then [] else (if ks[0].Repeat? then Visits(ks[0]) else []) + VisitsAll(ks[1..])
  }

  /** The first node of `s` with the given id. */
  function FirstWithId(s: seq<Task>, id: string): (r: Option<Task>)
    ensures r.Some? ==> r.value in s && r.value.id == id
    ensures r.None? ==> forall k :: k in s ==> k.id != id
  {
    if s == [] then None else if s[0].id == id then Some(s[0]) else FirstWithId(s[1..], id)
  }

  lemma {:induction false} FirstWithIdAppend(a: seq<Task>, b: seq<Task>, id: string)
    ensures FirstWithId(a + b, id) == if FirstWithId(a, id).Some? then FirstWithId(a, id) else FirstWithId(b, id)
    decreases |a|
  {
    if a == [] {
      assert a + b == b;
    } else {
      assert (a + b)[0] == a[0];
      assert (a + b)[1..] == a[1..] + b;
      FirstWithIdAppend(a[1..], b, id);
    }
  }

  /** The list of a group, `None` for a leaf. */
  function ListOf(g: Option<Task>): Option<seq<Task>> {
    if g.Some? && g.value.Repeat? then Some(g.value.taskList) else None
  }

  /**
   * Reference characterisation of `findTaskList`: the list of the first
   * visited node carrying the id, where only the start node and repeat
   * groups are visited.
   */
  lemma {:induction false} FindTaskListIsFirstVisit(t: Task, id: string)
    ensures FindTaskList(t, id) == ListOf(FirstWithId(Visits(t), id))
    decreases t, 1
  {
    var rest := if t.Repeat? then VisitsAll(t.taskList) else [];
    FirstWithIdAppend([t], rest, id);
    if t.id != id {
      assert FirstWithId([t], id) == None;
      if t.Repeat? {
        FindInChildrenIsFirstVisit(t.taskList, id);
      }
    }
  }

  lemma {:induction false} FindInChildrenIsFirstVisit(ks: seq<Task>, id: string)
    ensures FirstWithId(VisitsAll(ks), id).Some? ==> FirstWithId(VisitsAll(ks), id).value.Repeat?
    ensures FindInChildren(ks, id) == ListOf(FirstWithId(VisitsAll(ks), id))
    decreases ks, 0
  {
    if ks != [] {
      var head := if ks[0].Repeat? then Visits(ks[0]) else [];
      FirstWithIdAppend(head, VisitsAll(ks[1..]), id);
      FindInChildrenIsFirstVisit(ks[1..], id);
      if ks[0].Repeat? {
        FindTaskListIsFirstVisit(ks[0], id);
        VisitsAreGroups(ks[0]);
      }
    }
  }

  /** Below a group, only groups are visited. */
  lemma {:induction false} VisitsAreGroups(t: Task)
    requires t.Repeat?
    ensures forall k :: k in Visits(t) ==> k.Repeat?
    decreases t, 1
  {
    VisitsAllAreGroups(t.taskList);
  }

  lemma {:induction false} VisitsAllAreGroups(ks: seq<Task>)
    ensures forall k :: k in VisitsAll(ks) ==> k.Repeat?
    decreases ks, 0
  {
    if ks != [] {
      if ks[0].Repeat? {
        VisitsAreGroups(ks[0]);
      }
      VisitsAllAreGroups(ks[1..]);
    }
  }

  // ---------------------------------------------------------------------------
  // Finding a task in a list
  // ---------------------------------------------------------------------------

  /** The first index in `l` whose task carries the id. */
  function IndexOfId(l: seq<Task>, id: string): (r: Option<nat>)
    ensures r.Some? ==> r.value < |l| && l[r.value].id == id && forall j :: 0 <= j < r.value ==> l[j].id != id
    ensures r.None? ==> forall j :: 0 <= j < |l| ==> l[j].id != id
  {
    if l == [] then None
    else if l[0].id == id then Some(0)
    else match IndexOfId(l[1..], id)
      case None => None
      case Some(i) => Some(i + 1)
  }

  // ---------------------------------------------------------------------------
  // The edits
  // ---------------------------------------------------------------------------

  /** `insertIntoTaskList`: push `task` onto the list of the group `placeId`; `None` when there is no such list. */
  function InsertIntoTaskList(root: Task, placeId: string, task: Task): Option<Task> {
    match FindTaskList(root, placeId)
    case None => None
    case Some(l) => SetTaskList(root, placeId, l + [task])
  }

  /** Inserting grows the found list by one at its end and keeps its earlier tasks. */
  lemma InsertAppends(root: Task, placeId: string, task: Task)
    ensures InsertIntoTaskList(root, placeId, task).Some? <==> FindTaskList(root, placeId).Some?
    ensures InsertIntoTaskList(root, placeId, task).Some? ==>
      var l := FindTaskList(root, placeId).value;
      var found := FindTaskList(InsertIntoTaskList(root, placeId, task).value, placeId);
      found.Some? && |found.value| == |l| + 1 && found.value[..|l|] == l && found.value[|l|] == task
  {
    if FindTaskList(root, placeId).Some? {
      var l := FindTaskList(root, placeId).value;
      SetThenFind(root, placeId, l + [task]);
      assert (l + [task])[..|l|] == l;
    }
  }

  /** JavaScript's `splice(index, 1)`; an `undefined` index counts as 0. */
  function SpliceOne(l: seq<Task>, index: Option<nat>): seq<Task> {
    var i := if index.Some? then index.value else 0;
    if i < |l| then l[..i] + l[i + 1..] else l
  }

  /**
   * `removeTask` as the source has it: the index of a missing id is
   * `undefined`, and `splice(undefined, 1)` removes the first task.
   */
  function RemoveTaskAsWritten(root: Task, listId: string, taskId: string): Option<Task> {
    match FindTaskList(root, listId)
    case None => None
    case Some(l) => SetTaskList(root, listId, SpliceOne(l, IndexOfId(l, taskId)))
  }

  /** A request to remove a task that is not in the list removes the list's first task. */
  lemma RemoveMissingDropsFirst()
    ensures
      var a := Timer("a", "warm up", 60);
      var b := Stopwatch("b", "run");
      var root := Repeat("root", "", 1, [a, b]);
      RemoveTaskAsWritten(root, "root", "zzz") == Some(Repeat("root", "", 1, [b]))
  {
    var a := Timer("a", "warm up", 60);
    var b := Stopwatch("b", "run");
    assert IndexOfId([a, b], "zzz") == None;
    assert [a, b][..0] + [a, b][1..] == [b];
  }

  /** `removeTask` as intended: remove the task with the id, and nothing when it is absent. */
  function RemoveTask(root: Task, listId: string, taskId: string): Option<Task> {
    match FindTaskList(root, listId)
    case None => None
    case Some(l) =>
      var index := IndexOfId(l, taskId);
      if index.None? then Some(root) else SetTaskList(root, listId, SpliceOne(l, index))
  }

  /**
   * Removing deletes exactly the first task with the id and keeps the
   * others in order; when no task has the id the tree is unchanged.
   */
  lemma RemoveDeletesOne(root: Task, listId: string, taskId: string)
    ensures RemoveTask(root, listId, taskId).Some? <==> FindTaskList(root, listId).Some?
    ensures RemoveTask(root, listId, taskId).Some? ==>
      var l := FindTaskList(root, listId).value;
      var found := FindTaskList(RemoveTask(root, listId, taskId).value, listId);
      match IndexOfId(l, taskId)
      case None => RemoveTask(root, listId, taskId) == Some(root)
      case Some(i) =>
        && found == Some(l[..i] + l[i + 1..])
        && multiset(found.value) + multiset{l[i]} == multiset(l)
        && l[i].id == taskId
  {
    if FindTaskList(root, listId).Some? {
      var l := FindTaskList(root, listId).value;
      var index := IndexOfId(l, taskId);
      if index.Some? {
        SetThenFind(root, listId, SpliceOne(l, index));
        SpliceMultiset(l, index.value);
      }
    }
  }

  lemma SpliceMultiset(l: seq<Task>, i: nat)
    requires i < |l|
    ensures multiset(l[..i] + l[i + 1..]) + multiset{l[i]} == multiset(l)
  {
    assert l == l[..i] + [l[i]] + l[i + 1..];
  }

  /** The task `mappedTasks[id]` holds once every task of `l` is entered: later entries overwrite earlier ones. */
  function Lookup(l: seq<Task>, id: string): (r: Option<Task>)
    ensures r.Some? ==> r.value in l && r.value.id == id
    ensures r.None? ==> forall k :: k in l ==> k.id != id
    decreases |l|
  {
    if l == [] then None
    else if l[|l| - 1].id == id then Some(l[|l| - 1])
    else Lookup(l[..|l| - 1], id)
  }

  /** The last task with the id wins: no task after `l[i]` has it, so the table holds `l[i]`. */
  lemma {:induction false} LookupIsLast(l: seq<Task>, id: string, i: nat)
    requires i < |l| && l[i].id == id
    requires forall j :: i < j < |l| ==> l[j].id != id
    ensures Lookup(l, id) == Some(l[i])
    decreases |l|
  {
    if i < |l| - 1 {
      assert l[|l| - 1].id != id;
      var p := l[..|l| - 1];
      assert forall j :: i < j < |p| ==> p[j] == l[j];
      LookupIsLast(p, id, i);
    }
  }

  function Ids(l: seq<Task>): (r: seq<string>)
    ensures |r| == |l| && forall i :: 0 <= i < |l| ==> r[i] == l[i].id
  {
    seq(|l|, i requires 0 <= i < |l| => l[i].id)
  }

  predicate DistinctIds(l: seq<Task>) {
    forall i, j :: 0 <= i < j < |l| ==> l[i].id != l[j].id
  }

  /**
   * The loop of `sortList`: position `i` below `|ids|` of the list `m` gets
   * the task that `table` maps `ids[i]` to, the rest keep their task. A
   * missing id would store `undefined`, which is not a task: `None`.
   */
  function Reorder(table: seq<Task>, m: seq<Task>, ids: seq<string>): (r: Option<seq<Task>>)
    ensures r.Some? ==> |r.value| == if |ids| < |m| then |m| else |ids|
    ensures r.Some? ==> forall i :: 0 <= i < |ids| ==> Lookup(table, ids[i]) == Some(r.value[i])
    ensures r.Some? ==> forall i :: |ids| <= i < |m| ==> r.value[i] == m[i]
    ensures r.None? <==> exists i :: 0 <= i < |ids| && Lookup(table, ids[i]).None?
    decreases |ids|
  {
    if ids == [] then Some(m)
    else
      match Lookup(table, ids[0])
      case None => None
      case Some(k) =>
        match Reorder(table, if m == [] then [] else m[1..], ids[1..])
        case None =>
          var i :| 0 <= i < |ids[1..]| && Lookup(table, ids[1..][i]).None?;
          assert Lookup(table, ids[i + 1]).None?;
          None
        case Some(rest) =>
          var r := [k] + rest;
          assert forall i :: 1 <= i < |r| ==> r[i] == rest[i - 1];
          assert forall i :: 1 <= i < |ids| ==> ids[i] == ids[1..][i - 1];
          assert forall i :: 1 <= i < |m| ==> m[i] == m[1..][i - 1];
          Some(r)
  }

  /** `sortList`: reorder the list of the group `listId` by the ids reported for its new order. */
  function SortList(root: Task, listId: string, sortedListIds: seq<string>): Option<Task> {
    match FindTaskList(root, listId)
    case None => None
    case Some(l) =>
      match Reorder(l, l, sortedListIds)
      case None => None
      case Some(l') => SetTaskList(root, listId, l')
  }

  lemma LookupDistinct(l: seq<Task>, k: nat)
    requires DistinctIds(l) && k < |l|
    ensures Lookup(l, l[k].id) == Some(l[k])
    decreases |l|
  {
    if k != |l| - 1 {
      LookupDistinct(l[..|l| - 1], k);
    }
  }

  /** The tasks `table` maps the ids to, in order. */
  function Picked(table: seq<Task>, ids: seq<string>): seq<Task>
    requires forall id :: id in ids ==> Lookup(table, id).Some?
  {
    if ids == [] then [] else [Lookup(table, ids[0]).value] + Picked(table, ids[1..])
  }

  lemma {:induction false} ReorderPicks(table: seq<Task>, m: seq<Task>, ids: seq<string>)
    requires |ids| >= |m|
    requires forall id :: id in ids ==> Lookup(table, id).Some?
    ensures Reorder(table, m, ids) == Some(Picked(table, ids))
    decreases |ids|
  {
    if ids != [] {
      assert forall id :: id in ids[1..] ==> id in ids;
      ReorderPicks(table, if m == [] then [] else m[1..], ids[1..]);
    }
  }

  lemma PickedConcat(table: seq<Task>, a: seq<string>, b: seq<string>)
    requires forall id :: id in a + b ==> Lookup(table, id).Some?
    ensures Picked(table, a + b) == Picked(table, a) + Picked(table, b)
    decreases |a|
  {
    if a == [] {
      assert a + b == b;
    } else {
      assert (a + b)[1..] == a[1..] + b;
      PickedConcat(table, a[1..], b);
    }
  }

  /** `b` without its element at `i`. */
  function Without(b: seq<string>, i: nat): seq<string>
    requires i < |b|
  {
    b[..i] + b[i + 1..]
  }

  lemma WithoutMultiset(b: seq<string>, i: nat)
    requires i < |b|
    ensures multiset(Without(b, i)) == multiset(b) - multiset{b[i]}
  {
    assert b == b[..i] + [b[i]] + b[i + 1..];
  }

  lemma PickedWithout(table: seq<Task>, b: seq<string>, i: nat)
    requires i < |b|
    requires forall id :: id in b ==> Lookup(table, id).Some?
    ensures forall id :: id in Without(b, i) ==> Lookup(table, id).Some?
    ensures multiset(Picked(table, b)) == multiset(Picked(table, Without(b, i))) + multiset{Lookup(table, b[i]).value}
  {
    var x := b[i];
    assert b == b[..i] + ([x] + b[i + 1..]);
    PickedConcat(table, b[..i], [x] + b[i + 1..]);
    PickedConcat(table, b[..i], b[i + 1..]);
    assert ([x] + b[i + 1..])[1..] == b[i + 1..];
  }

  /** Same ids, possibly in another order: the same ids are known. */
  lemma KnownPermuted(table: seq<Task>, a: seq<string>, b: seq<string>)
    requires forall id :: id in a ==> Lookup(table, id).Some?
    requires multiset(a) == multiset(b)
    ensures forall id :: id in b ==> Lookup(table, id).Some?
  {
    forall id | id in b
      ensures Lookup(table, id).Some?
    {
      assert id in multiset(b);
    }
  }

  lemma WithoutHead(a: seq<string>, b: seq<string>, i: nat)
    requires a != [] && i < |b| && b[i] == a[0]
    requires multiset(a) == multiset(b)
    ensures multiset(a[1..]) == multiset(Without(b, i))
  {
    WithoutMultiset(b, i);
    assert a == [a[0]] + a[1..];
  }

  lemma PickedMultisetStep(table: seq<Task>, a: seq<string>, b: seq<string>, i: nat)
    requires a != [] && i < |b| && b[i] == a[0]
    requires forall id :: id in a ==> Lookup(table, id).Some?
    requires forall id :: id in b ==> Lookup(table, id).Some?
    requires forall id :: id in Without(b, i) ==> Lookup(table, id).Some?
    requires multiset(Picked(table, a[1..])) == multiset(Picked(table, Without(b, i)))
    ensures multiset(Picked(table, a)) == multiset(Picked(table, b))
  {
    PickedWithout(table, b, i);
  }

  lemma {:induction false} PickedMultiset(table: seq<Task>, a: seq<string>, b: seq<string>)
    requires forall id :: id in a ==> Lookup(table, id).Some?
    requires multiset(a) == multiset(b)
    ensures forall id :: id in b ==> Lookup(table, id).Some?
    ensures multiset(Picked(table, a)) == multiset(Picked(table, b))
    decreases |a|
  {
    KnownPermuted(table, a, b);
    if a == [] {
      assert |b| == |multiset(b)| == 0;
    } else {
      assert a[0] in multiset(b);
      var i :| 0 <= i < |b| && b[i] == a[0];
      WithoutHead(a, b, i);
      PickedWithout(table, b, i);
      assert forall id :: id in a[1..] ==> id in a;
      PickedMultiset(table, a[1..], Without(b, i));
      PickedMultisetStep(table, a, b, i);
    }
  }

  /** Every task of `l` is the one `l` maps its id to. */
  predicate SelfLookup(l: seq<Task>) {
    forall k :: 0 <= k < |l| ==> Lookup(l, l[k].id) == Some(l[k])
  }

  lemma IdsSnoc(l: seq<Task>, n: nat)
    requires 0 < n <= |l|
    ensures Ids(l)[..n] == Ids(l)[..n - 1] + [l[n - 1].id]
  {
    var ids := Ids(l);
    assert ids[n - 1] == l[n - 1].id;
    assert ids[..n] == ids[..n - 1] + [ids[n - 1]];
  }

  lemma {:induction false} PickedPrefix(l: seq<Task>, n: nat)
    requires n <= |l| && SelfLookup(l)
    ensures forall id :: id in Ids(l)[..n] ==> Lookup(l, id).Some?
    ensures Picked(l, Ids(l)[..n]) == l[..n]
  {
    if n > 0 {
      PickedPrefix(l, n - 1);
      var ids, last := Ids(l)[..n - 1], l[n - 1];
      IdsSnoc(l, n);
      assert Lookup(l, last.id) == Some(last);
      PickedConcat(l, ids, [last.id]);
      assert Picked(l, [last.id]) == [last];
      assert l[..n] == l[..n - 1] + [last];
    }
  }

  lemma DistinctSelfLookup(l: seq<Task>)
    requires DistinctIds(l)
    ensures SelfLookup(l)
  {
    forall k | 0 <= k < |l|
      ensures Lookup(l, l[k].id) == Some(l[k])
    {
      LookupDistinct(l, k);
    }
  }

  /** With distinct ids, picking a list's own ids in order gives the list back. */
  lemma PickedOwnIds(l: seq<Task>)
    requires DistinctIds(l)
    ensures forall id :: id in Ids(l) ==> Lookup(l, id).Some?
    ensures Picked(l, Ids(l)) == l
  {
    DistinctSelfLookup(l);
    PickedPrefix(l, |l|);
    assert Ids(l)[..|l|] == Ids(l);
    assert l[..|l|] == l;
  }

  lemma PickedIds(table: seq<Task>, ids: seq<string>)
    requires forall id :: id in ids ==> Lookup(table, id).Some?
    ensures Ids(Picked(table, ids)) == ids
    decreases |ids|
  {
    if ids != [] {
      assert forall id :: id in ids[1..] ==> id in ids;
      PickedIds(table, ids[1..]);
    }
  }

  /**
   * With distinct ids in the list and the reported ids a permutation of
   * them, `sortList` succeeds, puts the task with id `ids[i]` at position
   * `i`, and loses or duplicates no task.
   */
  lemma SortListPermutes(root: Task, listId: string, ids: seq<string>)
    requires FindTaskList(root, listId).Some?
    requires DistinctIds(FindTaskList(root, listId).value)
    requires multiset(ids) == multiset(Ids(FindTaskList(root, listId).value))
    ensures SortList(root, listId, ids).Some?
    ensures
      var l := FindTaskList(root, listId).value;
      var found := FindTaskList(SortList(root, listId, ids).value, listId);
      && found.Some?
      && multiset(found.value) == multiset(l)
      && Ids(found.value) == ids
  {
    var l := FindTaskList(root, listId).value;
    PickedOwnIds(l);
    PickedMultiset(l, Ids(l), ids);
    assert |ids| == |l| by {
      assert |multiset(ids)| == |multiset(Ids(l))|;
    }
    ReorderPicks(l, l, ids);
    var l' := Picked(l, ids);
    SetThenFind(root, listId, l');
    PickedIds(l, ids);
  }

  // ---------------------------------------------------------------------------
  // Creating and editing tasks from the modal's inputs
  // ---------------------------------------------------------------------------

  /** The option selected in the modal. */
  datatype Kind = TimerKind | StopwatchKind | RepeatKind

  /** What `getTaskProperties` returns: the fields the modal sets. */
  datatype Props =
    | TimerProps(title: string, timer: nat)
    | StopwatchProps(title: string)
    | RepeatProps(title: string, repeat: nat)

  /**
   * `getTaskProperties`: the title, plus the parsed duration for a timer or
   * the parsed count for a group; a parse failure is the validation error.
   */
  function GetTaskProperties(kind: Kind, title: string, timerInput: string, repeatInput: string): (r: Result<Props, string>)
    ensures r.Ok? ==> r.value.title == title
    ensures kind == TimerKind ==> (r.Ok? <==> TimeStringToSeconds(timerInput).Ok?)
    ensures kind == RepeatKind ==> (r.Ok? <==> RepeatCycles(repeatInput).Ok?)
    ensures kind == StopwatchKind ==> r == Ok(StopwatchProps(title))
    ensures kind == TimerKind && r.Ok? ==> r.value == TimerProps(title, TimeStringToSeconds(timerInput).value)
    ensures kind == TimerKind && r.Err? ==> r.error == TimeStringToSeconds(timerInput).error
    ensures kind == RepeatKind && r.Ok? ==> r.value == RepeatProps(title, RepeatCycles(repeatInput).value)
    ensures kind == RepeatKind && r.Err? ==> r.error == "Invalid number"
  {
    match kind
    case TimerKind =>
      (match TimeStringToSeconds(timerInput)
       case Err(e) => Err(e)
       case Ok(n) => Ok(TimerProps(title, n)))
    case StopwatchKind => Ok(StopwatchProps(title))
    case RepeatKind =>
      (match RepeatCycles(repeatInput)
       case Err(e) => Err(e)
       case Ok(n) => Ok(RepeatProps(title, n)))
  }

  /**
   * `createTask`: a task of the selected kind with the given id and the
   * modal's properties; a new group starts with an empty list.
   */
  function CreateTask(id: string, kind: Kind, title: string, timerInput: string, repeatInput: string): (r: Result<Task, string>)
    ensures r.Ok? <==> GetTaskProperties(kind, title, timerInput, repeatInput).Ok?
    ensures r.Ok? ==> r.value.id == id && r.value.title == title
    ensures r.Ok? ==> (r.value.Timer? <==> kind == TimerKind) && (r.value.Repeat? <==> kind == RepeatKind)
    ensures r.Ok? && r.value.Repeat? ==> r.value.taskList == []
    ensures r.Ok? && kind == TimerKind ==> r.value == Timer(id, title, TimeStringToSeconds(timerInput).value)
    ensures r.Ok? && kind == StopwatchKind ==> r.value == Stopwatch(id, title)
    ensures r.Ok? && kind == RepeatKind ==> r.value == Repeat(id, title, RepeatCycles(repeatInput).value, [])
    ensures r.Err? ==> r.error == GetTaskProperties(kind, title, timerInput, repeatInput).error
  {
    match GetTaskProperties(kind, title, timerInput, repeatInput)
    case Err(e) => Err(e)
    case Ok(p) =>
      match p
      case TimerProps(t, n) => Ok(Timer(id, t, n))
      case StopwatchProps(t) => Ok(Stopwatch(id, t))
      case RepeatProps(t, n) => Ok(Repeat(id, t, n, []))
  }

  /**
   * `Object.assign(task, properties)`: the title is overwritten, and the
   * duration or count when the task is of the matching kind. The task keeps
   * its id, its kind and a group's list. A property of the other kind would
   * be stored but is never read for this task, so it is not modelled.
   */
  function ApplyProps(t: Task, p: Props): (r: Task)
    ensures r.id == t.id && r.title == p.title
    ensures (r.Timer? <==> t.Timer?) && (r.Repeat? <==> t.Repeat?)
    ensures t.Timer? ==> r.timer == (if p.TimerProps? then p.timer else t.timer)
    ensures t.Repeat? ==> r.taskList == t.taskList && r.repeat == (if p.RepeatProps? then p.repeat else t.repeat)
  {
    match t
    case Timer(id, _, timer) => Timer(id, p.title, if p.TimerProps? then p.timer else timer)
    case Stopwatch(id, _) => Stopwatch(id, p.title)
    case Repeat(id, _, repeat, ks) => Repeat(id, p.title, if p.RepeatProps? then p.repeat else repeat, ks)
  }

  /** `editTask`: overwrite the task `taskId` of the list of `listId` in place; `None` when either is missing. */
  function EditTask(root: Task, listId: string, taskId: string, p: Props): Option<Task> {
    match FindTaskList(root, listId)
    case None => None
    case Some(l) =>
      match IndexOfId(l, taskId)
      case None => None
      case Some(i) => SetTaskList(root, listId, l[i := ApplyProps(l[i], p)])
  }

  /**
   * Editing succeeds exactly when the list and the task exist. It changes
   * only that task, which keeps its id, its kind and its children and takes
   * the new title, and the new duration or count when the properties are of
   * its kind. `SetTaskListFrame` says that nothing else in the tree changes.
   */
  lemma EditKeepsShape(root: Task, listId: string, taskId: string, p: Props)
    ensures EditTask(root, listId, taskId, p).Some? <==>
      FindTaskList(root, listId).Some? && IndexOfId(FindTaskList(root, listId).value, taskId).Some?
    ensures EditTask(root, listId, taskId, p).Some? ==>
      var l := FindTaskList(root, listId).value;
      var i := IndexOfId(l, taskId).value;
      var found := FindTaskList(EditTask(root, listId, taskId, p).value, listId);
      var l' := if found.Some? then found.value else [];
      && found.Some?
      && |l'| == |l|
      && (forall j :: 0 <= j < |l| && j != i ==> l'[j] == l[j])
      && l'[i].id == taskId && l'[i].title == p.title
      && (l'[i].Timer? <==> l[i].Timer?) && (l'[i].Repeat? <==> l[i].Repeat?)
      && (l[i].Repeat? ==> l'[i].taskList == l[i].taskList)
      && (l[i].Timer? ==> l'[i] == Timer(taskId, p.title, if p.TimerProps? then p.timer else l[i].timer))
      && (l[i].Stopwatch? ==> l'[i] == Stopwatch(taskId, p.title))
      && (l[i].Repeat? ==> l'[i] == Repeat(taskId, p.title, if p.RepeatProps? then p.repeat else l[i].repeat, l[i].taskList))
  {
    if FindTaskList(root, listId).Some? {
      var l := FindTaskList(root, listId).value;
      if IndexOfId(l, taskId).Some? {
        var i := IndexOfId(l, taskId).value;
        SetThenFind(root, listId, l[i := ApplyProps(l[i], p)]);
      }
    }
  }

  /**
   * Opening a task in the modal and saving it unchanged: the duration is
   * shown with `formatTimeFromSeconds` and the count as a decimal, and
   * re-reading them leaves a task with a positive duration or any count as
   * it was. A timer of duration 0 cannot be saved.
   */
  lemma ReopenAndSave(t: Task)
    requires t.Timer? || t.Repeat?
    ensures t.Timer? && t.timer > 0 ==>
      GetTaskProperties(TimerKind, t.title, FormatTimeFromSeconds(t.timer), []) == Ok(TimerProps(t.title, t.timer))
      && ApplyProps(t, TimerProps(t.title, t.timer)) == t
    ensures t.Timer? && t.timer == 0 ==> GetTaskProperties(TimerKind, t.title, FormatTimeFromSeconds(t.timer), []).Err?
    ensures t.Repeat? ==>
      GetTaskProperties(RepeatKind, t.title, [], NatToString(t.repeat)) == Ok(RepeatProps(t.title, t.repeat))
      && ApplyProps(t, RepeatProps(t.title, t.repeat)) == t
  {
    if t.Timer? {
      EditRoundTrip(t.timer);
    } else {
      RepeatCyclesRoundTrip(t.repeat);
    }
  }
}
