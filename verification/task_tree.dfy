/**
 * The task tree the editor builds and the engine runs: fixed-length timers,
 * open-ended stopwatches and repeat groups whose children run `repeat` times.
 * A node is a leaf exactly when it has no task list, i.e. when it is not a
 * `Repeat`. The root is a `Repeat` whose own repeat count is never consulted.
 */
module TaskTree {
  import opened Wrappers

  /** Position of a node: the child indices leading to it from the root. */
  type Path = seq<nat>

  datatype Task =
    | Timer(id: string, title: string, timer: nat)
    | Stopwatch(id: string, title: string)
    | Repeat(id: string, title: string, repeat: nat, taskList: seq<Task>)

  predicate IsLeaf(t: Task) {
    !t.Repeat?
  }

  /** The node at relative position `r` below `t`, if there is one. */
  function Sub(t: Task, r: Path): Option<Task>
    decreases |r|
  {
    if r == [] then Some(t)
    else if t.Repeat? && r[0] < |t.taskList| then Sub(t.taskList[r[0]], r[1..])
    else None
  }

  /** `p` is a prefix of `q`. */
  predicate IsPrefix(p: Path, q: Path) {
    |p| <= |q| && q[..|p|] == p
  }

  /** `s` repeated `k` times. */
  function Rep<T>(s: seq<T>, k: nat): (r: seq<T>)
    ensures |r| == |s| * k
  {
    if k == 0 then [] else s + Rep(s, k - 1)
  }

  /** Number of passes a non-root group makes over its children: `repeat`, but at least one. */
  function GroupPasses(t: Task): nat
    requires t.Repeat?
  {
    if t.repeat < 1 then 1 else t.repeat
  }

  /**
   * Reference execution order: a leaf runs once; a group runs its
   * children's orders, concatenated, `max(repeat, 1)` times.
   */
  function Flatten(t: Task): seq<Task>
    decreases t
  {
    if t.Repeat? then Rep(FlattenAll(t.taskList), GroupPasses(t)) else [t]
  }

  function FlattenAll(ts: seq<Task>): seq<Task>
    decreases ts
  {
    if ts == [] then [] else Flatten(ts[0]) + FlattenAll(ts[1..])
  }

  /** Execution order of a whole plan: the root's children run exactly once. */
  function Linearize(root: Task): seq<Task>
    requires root.Repeat?
  {
    FlattenAll(root.taskList)
  }

  /** Some leaf occurs in the subtree of `t`. */
  predicate ContainsLeaf(t: Task)
    decreases t
  {
    !t.Repeat? || exists k :: k in t.taskList && ContainsLeaf(k)
  }

  /** Every repeat group in the subtree of `t` contains a leaf. */
  predicate EveryGroupHasLeaf(t: Task)
    decreases t
  {
    t.Repeat? ==> ContainsLeaf(t) && forall k :: k in t.taskList ==> EveryGroupHasLeaf(k)
  }

  lemma SubAppend(t: Task, a: Path, b: Path)
    requires Sub(t, a).Some?
    ensures Sub(t, a + b) == Sub(Sub(t, a).value, b)
    decreases |a|
  {
    if a != [] {
      assert (a + b)[0] == a[0];
      assert (a + b)[1..] == a[1..] + b;
      SubAppend(t.taskList[a[0]], a[1..], b);
    } else {
      assert a + b == b;
    }
  }

  /** Every prefix of a position in the tree is a position in the tree. */
  lemma SubPrefix(t: Task, q: Path, k: nat)
    requires Sub(t, q).Some? && k <= |q|
    ensures Sub(t, q[..k]).Some?
    decreases |q|
  {
    if k > 0 {
      assert q[..k][0] == q[0];
      assert q[..k][1..] == q[1..][..k - 1];
      SubPrefix(t.taskList[q[0]], q[1..], k - 1);
    }
  }

  lemma EveryGroupHasLeafSub(t: Task, r: Path)
    requires EveryGroupHasLeaf(t) && Sub(t, r).Some?
    ensures EveryGroupHasLeaf(Sub(t, r).value)
    decreases |r|
  {
    if r != [] {
      assert t.taskList[r[0]] in t.taskList;
      EveryGroupHasLeafSub(t.taskList[r[0]], r[1..]);
    }
  }

  lemma {:induction false} RepNonEmpty<T>(s: seq<T>, k: nat)
    requires s != [] && k > 0
    ensures Rep(s, k) != [] && Rep(s, k)[0] == s[0]
  {
  }

  /** A subtree whose groups all contain leaves runs at least one leaf. */
  lemma {:induction false} FlattenNonEmpty(t: Task)
    requires EveryGroupHasLeaf(t)
    ensures Flatten(t) != []
    decreases t, 0
  {
    if t.Repeat? {
      var k :| k in t.taskList && ContainsLeaf(k);
      FlattenAllNonEmpty(t.taskList);
      RepNonEmpty(FlattenAll(t.taskList), GroupPasses(t));
    }
  }

  lemma {:induction false} FlattenAllNonEmpty(ts: seq<Task>)
    requires ts != [] && forall k :: k in ts ==> EveryGroupHasLeaf(k)
    ensures FlattenAll(ts) != []
    decreases ts, 1
  {
    assert ts[0] in ts;
    FlattenNonEmpty(ts[0]);
  }

  lemma {:induction false} FlattenAllAppend(a: seq<Task>, b: seq<Task>)
    ensures FlattenAll(a + b) == FlattenAll(a) + FlattenAll(b)
    decreases a
  {
    if a != [] {
      assert (a + b)[0] == a[0];
      assert (a + b)[1..] == a[1..] + b;
      FlattenAllAppend(a[1..], b);
    } else {
      assert a + b == b;
    }
  }
}
