/**
 * The stateful linearizer of src/TreeIterator.js. It walks the task tree with
 * a child cursor and a loop counter per group and a parent link per node,
 * and yields the leaves one `Next` at a time.
 *
 * The source keys its three dictionaries by node id. This model keys them by
 * position (the path of child indices from the root), which is the same
 * thing for a tree whose ids are unique; the test `root.id === v.id` becomes
 * "the position is the root's".
 */
module TreeIterator {
  import opened Wrappers
  import opened TaskTree

  /** The dictionaries `currentChildIndex`, `loopCounts` and `parent`. */
  datatype Book = Book(cursor: map<Path, nat>, loops: map<Path, nat>, parent: map<Path, Option<Path>>)

  /** The field `lastLeafNode`: null before the first call, then a leaf, or `undefined`. */
  datatype Last = Unstarted | LastLeaf(path: Path) | LastUndefined

  datatype State = State(root: Task, book: Book, last: Last)

  /**
   * What `next()` hands back: a leaf, `null` once the walk is over,
   * `undefined` when `descend` found nothing (an empty group), or the
   * TypeError the call after that throws.
   */
  datatype NextResult = Item(leaf: Task) | Null | Undefined | TypeError

  /** The position one level up; the root has none. */
  function ParentOf(q: Path): Option<Path> {
    if q == [] then None else Some(q[..|q| - 1])
  }

  /** `q` lies strictly inside the subtree of child `i` or a later child of `p`. */
  predicate ChildFrom(p: Path, i: nat, q: Path) {
    |p| < |q| && q[..|p|] == p && q[|p|] >= i
  }

  /** The three dictionaries hold the same entry at `q` in `b` and `b'`. */
  predicate SameAt(b: Book, b': Book, q: Path) {
    && (q in b.cursor <==> q in b'.cursor) && (q in b.cursor ==> b.cursor[q] == b'.cursor[q])
    && (q in b.loops <==> q in b'.loops) && (q in b.loops ==> b.loops[q] == b'.loops[q])
    && (q in b.parent <==> q in b'.parent) && (q in b.parent ==> b.parent[q] == b'.parent[q])
  }

  /** `b'` differs from `b` only at positions inside the subtree at `p`. */
  ghost predicate AgreeOutside(b: Book, b': Book, p: Path) {
    forall q :: !IsPrefix(p, q) ==> SameAt(b, b', q)
  }

  /** `b'` and `b` agree at every position inside the subtree at `p`. */
  ghost predicate AgreeInside(b: Book, b': Book, p: Path) {
    forall q :: IsPrefix(p, q) ==> SameAt(b, b', q)
  }

  /** Every recorded parent link is the position one level up. */
  ghost predicate ParentSound(m: map<Path, Option<Path>>) {
    forall q :: q in m ==> m[q] == ParentOf(q)
  }

  /** Every node of the tree has a recorded parent link. */
  ghost predicate ParentComplete(root: Task, m: map<Path, Option<Path>>) {
    forall q :: Sub(root, q).Some? ==> q in m
  }

  /** Every group in the subtree at `p` has cursor 0 and loop count 0. */
  ghost predicate Fresh(t: Task, p: Path, b: Book)
    decreases t
  {
    t.Repeat? ==>
      && p in b.cursor && b.cursor[p] == 0
      && p in b.loops && b.loops[p] == 0
      && forall j :: 0 <= j < |t.taskList| ==> Fresh(t.taskList[j], p + [j], b)
  }

  lemma ExtensionIsPrefix(p: Path, j: nat, q: Path)
    requires IsPrefix(p + [j], q)
    ensures IsPrefix(p, q) && |p| < |q| && q[|p|] == j
  {
    assert q[..|p|] == q[..|p| + 1][..|p|];
    assert q[|p|] == q[..|p| + 1][|p|];
  }

  /** `q` is the position of a leaf strictly below the node `t` at position `p`. */
  predicate LeafBelow(t: Task, p: Path, q: Path) {
    |p| < |q| && q[..|p|] == p && Sub(t, q[|p|..]).Some? && IsLeaf(Sub(t, q[|p|..]).value)
  }

  /** A leaf child of the group at `p` is a leaf below `p`. */
  lemma LeafChild(t: Task, p: Path, c: nat)
    requires t.Repeat? && c < |t.taskList| && IsLeaf(t.taskList[c])
    ensures LeafBelow(t, p, p + [c])
  {
    var q := p + [c];
    assert q[..|p|] == p && q[|p|..] == [c];
    assert Sub(t, [c]) == Sub(t.taskList[c], []);
  }

  /** A leaf below child `c` of the group at `p` is a leaf below `p`. */
  lemma LeafBelowChild(t: Task, p: Path, c: nat, q: Path)
    requires t.Repeat? && c < |t.taskList|
    requires LeafBelow(t.taskList[c], p + [c], q)
    ensures LeafBelow(t, p, q)
  {
    assert q[..|p|] == q[..|p| + 1][..|p|];
    assert q[|p|..][0] == q[..|p| + 1][|p|] == c;
    assert q[|p|..][1..] == q[|p| + 1..];
    assert Sub(t, q[|p|..]) == Sub(t.taskList[c], q[|p| + 1..]);
  }

  /** Positions inside the subtree of child `j` of `p` lie strictly inside `p`, under index `j`. */
  lemma ChildSubtree(p: Path, j: nat, q: Path)
    ensures IsPrefix(p + [j], q) ==> IsPrefix(p, q) && ChildFrom(p, j, q) && !ChildFrom(p, j + 1, q)
  {
    if IsPrefix(p + [j], q) {
      ExtensionIsPrefix(p, j, q);
    }
  }

  /** Freshness of a subtree depends only on the entries inside it. */
  lemma {:induction false} FreshFrame(t: Task, p: Path, b: Book, b': Book)
    requires Fresh(t, p, b) && AgreeInside(b, b', p)
    ensures Fresh(t, p, b')
    decreases t
  {
    if t.Repeat? {
      assert SameAt(b, b', p);
      forall j | 0 <= j < |t.taskList|
        ensures Fresh(t.taskList[j], p + [j], b')
      {
        forall q | IsPrefix(p + [j], q)
          ensures SameAt(b, b', q)
        {
          ExtensionIsPrefix(p, j, q);
        }
        FreshFrame(t.taskList[j], p + [j], b, b');
      }
    }
  }

  /**
   * The source's `initStructure(v)`: give every group in the subtree at `p`
   * cursor 0 and loop count 0, and link every node below `p` to its parent.
   */
  function InitStructure(t: Task, p: Path, b: Book): (r: Book)
    decreases t, 1
    ensures Fresh(t, p, r)
    ensures AgreeOutside(b, r, p)
    ensures ParentSound(b.parent) ==> ParentSound(r.parent)
    ensures b.parent.Keys <= r.parent.Keys
    ensures forall s :: s != [] && Sub(t, s).Some? ==> p + s in r.parent
  {
    if IsLeaf(t) then b
    else
      var b0 := b.(cursor := b.cursor[p := 0], loops := b.loops[p := 0]);
      var r := InitChildren(t, 0, p, b0);
      assert !ChildFrom(p, 0, p);
      forall q | !IsPrefix(p, q)
        ensures SameAt(b, r, q)
      {
        assert !ChildFrom(p, 0, q);
        assert SameAt(b0, r, q);
      }
      forall s | s != [] && Sub(t, s).Some?
        ensures p + s in r.parent
      {
        var j := s[0];
        assert Sub(t.taskList[j], s[1..]).Some?;
        assert p + [j] + s[1..] in r.parent;
        assert p + [j] + s[1..] == p + s;
      }
      r
  }

  /** The loop of `initStructure`: link child `j` to `p` and initialise it, for each `j >= i`. */
  function InitChildren(t: Task, i: nat, p: Path, b: Book): (r: Book)
    requires t.Repeat? && i <= |t.taskList|
    decreases t, 0, |t.taskList| - i
    ensures forall j :: i <= j < |t.taskList| ==> Fresh(t.taskList[j], p + [j], r)
    ensures forall q :: !ChildFrom(p, i, q) ==> SameAt(b, r, q)
    ensures ParentSound(b.parent) ==> ParentSound(r.parent)
    ensures b.parent.Keys <= r.parent.Keys
    ensures forall j, s :: i <= j < |t.taskList| && Sub(t.taskList[j], s).Some? ==> p + [j] + s in r.parent
  {
    if i == |t.taskList| then b
    else
      var b1 := b.(parent := b.parent[p + [i] := Some(p)]);
      var b2 := InitStructure(t.taskList[i], p + [i], b1);
      var r := InitChildren(t, i + 1, p, b2);
      assert ParentOf(p + [i]) == Some(p);
      forall q | IsPrefix(p + [i], q)
        ensures SameAt(b2, r, q)
      {
        ExtensionIsPrefix(p, i, q);
      }
      FreshFrame(t.taskList[i], p + [i], b2, r);
      forall q | !ChildFrom(p, i, q)
        ensures SameAt(b, r, q)
      {
        ChildSubtree(p, i, q);
        assert q != p + [i];
        assert SameAt(b, b1, q);
        assert SameAt(b1, b2, q);
        assert !ChildFrom(p, i + 1, q);
        assert SameAt(b2, r, q);
      }
      forall s | Sub(t.taskList[i], s).Some?
        ensures p + [i] + s in r.parent
      {
        if s == [] {
          assert p + [i] + s == p + [i];
        }
      }
      r
  }

  /** The loop of `nextIteration`: re-initialise child `j` for each `j >= i`. */
  function ReArm(t: Task, i: nat, p: Path, b: Book): (r: Book)
    requires t.Repeat? && i <= |t.taskList|
    decreases |t.taskList| - i
    ensures forall j :: i <= j < |t.taskList| ==> Fresh(t.taskList[j], p + [j], r)
    ensures forall q :: !ChildFrom(p, i, q) ==> SameAt(b, r, q)
    ensures ParentSound(b.parent) ==> ParentSound(r.parent)
    ensures b.parent.Keys <= r.parent.Keys
  {
    if i == |t.taskList| then b
    else
      var b2 := InitStructure(t.taskList[i], p + [i], b);
      var r := ReArm(t, i + 1, p, b2);
      forall q | IsPrefix(p + [i], q)
        ensures SameAt(b2, r, q)
      {
        ExtensionIsPrefix(p, i, q);
      }
      FreshFrame(t.taskList[i], p + [i], b2, r);
      forall q | !ChildFrom(p, i, q)
        ensures SameAt(b, r, q)
      {
        ChildSubtree(p, i, q);
        assert SameAt(b, b2, q);
        assert !ChildFrom(p, i + 1, q);
        assert SameAt(b2, r, q);
      }
      r
  }

  /** The constructor: the root has no parent, then `initStructure(root)`. */
  function Init(root: Task): (it: State)
    requires root.Repeat?
    ensures it.root == root && it.last == Unstarted
    ensures Fresh(root, [], it.book)
    ensures ParentSound(it.book.parent) && ParentComplete(root, it.book.parent)
  {
    var b := InitStructure(root, [], Book(map[], map[], map[[] := None]));
    assert forall s: Path :: [] + s == s;
    State(root, b, Unstarted)
  }

  /** `hasNextChild`: the group at `p` still has an untried child. */
  predicate HasNextChild(b: Book, p: Path, t: Task)
    requires t.Repeat?
  {
    p in b.cursor && b.cursor[p] < |t.taskList|
  }

  /** The repeat count `hasNextIteration` uses: 1 for the root, the stored `repeat` otherwise. */
  function RepeatOf(p: Path, t: Task): int
    requires t.Repeat?
  {
    if p == [] then 1 else t.repeat
  }

  /** `hasNextIteration`: the group at `p` has a pass left after the current one. */
  predicate HasNextIteration(b: Book, p: Path, t: Task)
    requires t.Repeat?
  {
    p in b.loops && b.loops[p] < RepeatOf(p, t) - 1
  }

  /** `getNextChild`: the child under the cursor, with the cursor moved one step on. */
  function GetNextChild(b: Book, p: Path, t: Task): (r: (Book, Task))
    requires t.Repeat? && HasNextChild(b, p, t)
    ensures r.1 == t.taskList[b.cursor[p]]
    ensures p in r.0.cursor && r.0.cursor[p] == b.cursor[p] + 1
    ensures forall q :: q != p ==> SameAt(b, r.0, q)
    ensures r.0.loops == b.loops && r.0.parent == b.parent
  {
    var c := b.cursor[p];
    (b.(cursor := b.cursor[p := c + 1]), t.taskList[c])
  }

  /**
   * `nextIteration`: count one more pass of the group at `p`, rewind its
   * cursor and re-arm every group below it.
   */
  function NextIteration(t: Task, p: Path, b: Book): (r: Book)
    requires t.Repeat? && p in b.loops
    ensures p in r.loops && r.loops[p] == b.loops[p] + 1
    ensures p in r.cursor && r.cursor[p] == 0
    ensures forall j :: 0 <= j < |t.taskList| ==> Fresh(t.taskList[j], p + [j], r)
    ensures AgreeOutside(b, r, p)
    ensures (p in r.parent <==> p in b.parent) && (p in b.parent ==> r.parent[p] == b.parent[p])
    ensures ParentSound(b.parent) ==> ParentSound(r.parent)
    ensures b.parent.Keys <= r.parent.Keys
  {
    var b0 := b.(loops := b.loops[p := b.loops[p] + 1], cursor := b.cursor[p := 0]);
    var r := ReArm(t, 0, p, b0);
    assert !ChildFrom(p, 0, p);
    assert forall q :: !IsPrefix(p, q) ==> !ChildFrom(p, 0, q);
    r
  }

  /**
   * `descend(v)`: take the next untried child of the group at `p`; return it
   * if it is a leaf, else descend into it. With no untried child but a pass
   * left, start the next pass and retry; otherwise give up (`undefined`).
   * The result is the position of a leaf below `p`, never of a group.
   */
  function Descend(t: Task, p: Path, b: Book): (res: (Book, Option<Path>))
    requires t.Repeat?
    decreases t, if p in b.loops then RepeatOf(p, t) - b.loops[p] else 0
    ensures AgreeOutside(b, res.0, p)
    ensures ParentSound(b.parent) ==> ParentSound(res.0.parent)
    ensures b.parent.Keys <= res.0.parent.Keys
    ensures res.1.Some? ==> LeafBelow(t, p, res.1.value)
  {
    if HasNextChild(b, p, t) then
      var c := b.cursor[p];
      var (b1, child) := GetNextChild(b, p, t);
      assert forall q :: !IsPrefix(p, q) ==> q != p;
      if IsLeaf(child) then
        LeafChild(t, p, c);
        (b1, Some(p + [c]))
      else
        var (b2, res) := Descend(child, p + [c], b1);
        forall q | !IsPrefix(p, q)
          ensures SameAt(b1, b2, q)
        {
          if IsPrefix(p + [c], q) {
            ExtensionIsPrefix(p, c, q);
          }
        }
        if res.Some? then
          LeafBelowChild(t, p, c, res.value);
          (b2, res)
        else
          (b2, res)
    else if HasNextIteration(b, p, t) then
      Descend(t, p, NextIteration(t, p, b))
    else
      (b, None)
  }

  /** A group at `w` that still has an untried child or a pass left. */
  predicate Unfinished(root: Task, b: Book, w: Path) {
    && Sub(root, w).Some? && Sub(root, w).value.Repeat?
    && (HasNextChild(b, w, Sub(root, w).value) || HasNextIteration(b, w, Sub(root, w).value))
  }

  /**
   * `ascend(v)`: the nearest node on the way from `v` up to the root that is
   * an unfinished group; `None` once past the root.
   */
  function Ascend(root: Task, b: Book, v: Option<Path>): (u: Option<Path>)
    requires ParentSound(b.parent) && ParentComplete(root, b.parent)
    requires v.Some? ==> Sub(root, v.value).Some?
    decreases if v.Some? then |v.value| + 1 else 0
    ensures u.Some? ==> v.Some? && IsPrefix(u.value, v.value) && Unfinished(root, b, u.value)
    ensures v.Some? ==>
      var lo := if u.Some? then |u.value| + 1 else 0;
      forall k :: lo <= k <= |v.value| ==> !Unfinished(root, b, v.value[..k])
  {
    match v
    case None => None
    case Some(q) =>
      var node := Sub(root, q).value;
      assert q[..|q|] == q;
      if IsLeaf(node) || !(HasNextChild(b, q, node) || HasNextIteration(b, q, node)) then
        if q == [] then
          assert b.parent[q] == None;
          Ascend(root, b, b.parent[q])
        else
          SubPrefix(root, q, |q| - 1);
          var up := q[..|q| - 1];
          var u := Ascend(root, b, b.parent[q]);
          assert forall k :: 0 <= k <= |up| ==> up[..k] == q[..k];
          assert u.Some? ==> IsPrefix(u.value, q);
          u
      else
        Some(q)
  }

  /** The source's precondition for `next()` not to fail on a missing field. */
  ghost predicate Wired(it: State) {
    && it.root.Repeat?
    && ParentSound(it.book.parent) && ParentComplete(it.root, it.book.parent)
    && (it.last.LastLeaf? ==> Sub(it.root, it.last.path).Some?)
  }

  /**
   * `next()`: the first call descends from the root; later calls ascend from
   * the last leaf to the nearest unfinished group and descend from there.
   * Once `ascend` finds nothing the state is left alone, so every later call
   * returns `null` too.
   */
  function Next(it: State): (r: (State, NextResult))
    requires Wired(it)
    ensures Wired(r.0) && r.0.root == it.root
    ensures r.1.Null? ==> r.0 == it
    ensures r.1.Item? ==> IsLeaf(r.1.leaf) && r.0.last.LastLeaf? && Sub(it.root, r.0.last.path) == Some(r.1.leaf)
    ensures r.1.Undefined? ==> r.0.last.LastUndefined?
  {
    match it.last
    case Unstarted =>
      var (b, res) := Descend(it.root, [], it.book);
      if res.Some? then
        var q := res.value;
        assert q[0..] == q;
        (State(it.root, b, LastLeaf(q)), Item(Sub(it.root, q).value))
      else
        (State(it.root, b, LastUndefined), Undefined)
    case LastUndefined =>
      (it, TypeError)
    case LastLeaf(leaf) =>
      var u := Ascend(it.root, it.book, Some(leaf));
      if u.None? then
        (it, Null)
      else
        var w := u.value;
        var (b, res) := Descend(Sub(it.root, w).value, w, it.book);
        if res.Some? then
          var q := res.value;
          assert q == w + q[|w|..];
          SubAppend(it.root, w, q[|w|..]);
          (State(it.root, b, LastLeaf(q)), Item(Sub(it.root, q).value))
        else
          (State(it.root, b, LastUndefined), Undefined)
  }

  /**
   * Without the every-group-has-a-leaf precondition the walk breaks: over a
   * plan whose only child is an empty group, the first `next()` hands back
   * `undefined` (the source tests for `null` only), and the call after that
   * throws.
   */
  lemma EmptyGroupBreaks()
    ensures
      var root := Repeat("root", "", 1, [Repeat("g", "", 2, [])]);
      var (it1, r1) := Next(Init(root));
      r1 == Undefined && Next(it1).1 == TypeError
  {
    var root := Repeat("root", "", 1, [Repeat("g", "", 2, [])]);
    var g := root.taskList[0];
    var it := Init(root);
    assert Fresh(g, [0], it.book);
    var (b1, child) := GetNextChild(it.book, [], root);
    assert child == g && !HasNextChild(b1, [0], g) && HasNextIteration(b1, [0], g);
    var b2 := NextIteration(g, [0], b1);
    assert !HasNextChild(b2, [0], g) && !HasNextIteration(b2, [0], g);
    assert Descend(g, [0], b1).1 == None;
  }
}
