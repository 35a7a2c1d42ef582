/**
 * The tree iterator refines the reference order `Linearize`: from a freshly
 * constructed iterator over a tree in which every group contains a leaf,
 * successive `Next` calls return exactly `Linearize(root)`, then `null`
 * forever.
 *
 * The proof tracks `RestOf`, the leaves a state still owes. The groups whose
 * cursor points just past the child being worked on form the active chain
 * from the root down to the last leaf; everything to the right of the chain
 * is freshly armed, so what is owed is the unfinished part of the chain
 * followed, at each group of the chain, by its untried children and its
 * remaining passes.
 */
module TreeIteratorRefinement {
  import opened Wrappers
  import opened TaskTree
  import opened TreeIterator

  /** Passes the group at `p` makes in all: `RepeatOf`, but at least one. */
  function Passes(p: Path, t: Task): nat
    requires t.Repeat?
  {
    if RepeatOf(p, t) < 1 then 1 else RepeatOf(p, t)
  }

  /** The cursor of the group at `p`, clamped to its child count. */
  function Cur(t: Task, p: Path, b: Book): nat
    requires t.Repeat?
  {
    if p in b.cursor && b.cursor[p] <= |t.taskList| then b.cursor[p] else |t.taskList|
  }

  /** Passes the group at `p` still has to start after the current one. */
  function PassesLeft(t: Task, p: Path, b: Book): nat
    requires t.Repeat?
  {
    if HasNextIteration(b, p, t) then RepeatOf(p, t) - 1 - b.loops[p] else 0
  }

  /** What the group at `p` owes from its untried children and its remaining passes. */
  function Pending(t: Task, p: Path, b: Book): seq<Task>
    requires t.Repeat?
  {
    FlattenAll(t.taskList[Cur(t, p, b)..]) + Rep(FlattenAll(t.taskList), PassesLeft(t, p, b))
  }

  /** What the child last taken by the group at `p` still owes. */
  ghost function InProgress(t: Task, p: Path, b: Book): seq<Task>
    requires t.Repeat?
    decreases t, 0
  {
    var c := Cur(t, p, b);
    if c > 0 && t.taskList[c - 1].Repeat? then RestOf(t.taskList[c - 1], p + [c - 1], b) else []
  }

  /** The leaves the subtree at `p` still owes, in order. */
  ghost function RestOf(t: Task, p: Path, b: Book): seq<Task>
    decreases t, 1
  {
    if t.Repeat? then InProgress(t, p, b) + Pending(t, p, b) else []
  }

  /**
   * The traversal invariant of the subtree at `p`: the cursor is within the
   * child list, the loop counter is below the pass count, every untried
   * child is freshly armed and the child last taken is itself in order.
   */
  ghost predicate Good(t: Task, p: Path, b: Book)
    decreases t
  {
    t.Repeat? ==>
      && p in b.cursor && b.cursor[p] <= |t.taskList|
      && p in b.loops && b.loops[p] < Passes(p, t)
      && (forall j :: b.cursor[p] <= j < |t.taskList| ==> Fresh(t.taskList[j], p + [j], b))
      && (b.cursor[p] > 0 ==> Good(t.taskList[b.cursor[p] - 1], p + [b.cursor[p] - 1], b))
  }

  /** `r` (relative to `p`) follows, at every group, the child last taken. */
  ghost predicate Chain(t: Task, p: Path, b: Book, r: Path)
    decreases |r|
  {
    r != [] ==>
      && t.Repeat? && p in b.cursor && 0 < b.cursor[p] <= |t.taskList|
      && r[0] == b.cursor[p] - 1
      && Chain(t.taskList[r[0]], p + [r[0]], b, r[1..])
  }

  /** What the groups on the chain `r` owe after the subtree at the chain's end. */
  ghost function AfterChain(t: Task, p: Path, b: Book, r: Path): seq<Task>
    requires Chain(t, p, b, r)
    decreases |r|
  {
    if r == [] then [] else AfterChain(t.taskList[r[0]], p + [r[0]], b, r[1..]) + Pending(t, p, b)
  }

  /** The iterator invariant, for a tree in which every group contains a leaf. */
  ghost predicate Valid(it: State) {
    && Wired(it)
    && EveryGroupHasLeaf(it.root)
    && Good(it.root, [], it.book)
    && match it.last
       case Unstarted => Fresh(it.root, [], it.book)
       case LastLeaf(q) => Chain(it.root, [], it.book, q) && IsLeaf(Sub(it.root, q).value)
       case LastUndefined => false
  }

  /** The leaves the iterator still owes. */
  ghost function Rest(it: State): seq<Task> {
    RestOf(it.root, [], it.book)
  }

  lemma FreshGood(t: Task, p: Path, b: Book)
    requires Fresh(t, p, b)
    ensures Good(t, p, b)
  {
  }

  /** A freshly armed group owes all its passes; a freshly armed non-root subtree owes its `Flatten`. */
  lemma {:induction false} FreshRest(t: Task, p: Path, b: Book)
    requires Fresh(t, p, b)
    ensures t.Repeat? ==> RestOf(t, p, b) == Rep(FlattenAll(t.taskList), Passes(p, t))
    ensures p != [] ==> RestOf(t, p, b) == if t.Repeat? then Flatten(t) else []
  {
    if t.Repeat? {
      assert Cur(t, p, b) == 0;
      assert t.taskList[0..] == t.taskList;
      assert PassesLeft(t, p, b) == Passes(p, t) - 1;
    }
  }

  lemma DropSplit(q: Path, n: nat)
    requires n < |q|
    ensures q[n..] == [q[n]] + q[n + 1..]
  {
  }

  lemma PrefixSplit(w: Path, q: Path)
    requires |w| <= |q| && q[..|w|] == w
    ensures w + q[|w|..] == q
  {
  }

  lemma TailConcat<T>(x: seq<T>, y: seq<T>)
    requires x != []
    ensures (x + y)[1..] == x[1..] + y
  {
  }

  /** Positions under child `j` of `p` and positions under child `k` of `p` are disjoint unless `j == k`. */
  lemma SiblingsDisjoint(p: Path, j: nat, k: nat, q: Path)
    requires IsPrefix(p + [j], q) && IsPrefix(p + [k], q)
    ensures j == k
  {
    ExtensionIsPrefix(p, j, q);
    ExtensionIsPrefix(p, k, q);
  }

  lemma PrefixHead(p: Path, r: Path, q: Path)
    requires r != [] && IsPrefix(p + r, q)
    ensures IsPrefix(p + [r[0]], q)
  {
    assert (p + r)[..|p| + 1] == p + [r[0]];
    assert q[..|p| + 1] == q[..|p + r|][..|p| + 1];
  }

  /** A chain leads to a node, and what the top owes is what that node owes followed by the chain's debts. */
  lemma {:induction false} Decompose(t: Task, p: Path, b: Book, r: Path)
    requires Chain(t, p, b, r)
    ensures Sub(t, r).Some?
    ensures RestOf(t, p, b) == RestOf(Sub(t, r).value, p + r, b) + AfterChain(t, p, b, r)
    decreases |r|
  {
    if r == [] {
      assert p + r == p;
    } else {
      var k, q, r' := t.taskList[r[0]], p + [r[0]], r[1..];
      Decompose(k, q, b, r');
      PathStep(p, r);
      RestOfStep(t, p, b);
      assert Sub(t, r) == Sub(k, r');
      var x, a, pend := RestOf(Sub(k, r').value, q + r', b), AfterChain(k, q, b, r'), Pending(t, p, b);
      assert RestOf(t, p, b) == (x + a) + pend;
      assert AfterChain(t, p, b, r) == a + pend;
    }
  }

  /** A group whose last-taken child is `c` owes what that child still owes, then its own pending leaves. */
  lemma RestOfStep(t: Task, p: Path, b: Book)
    requires t.Repeat? && p in b.cursor && 0 < b.cursor[p] <= |t.taskList|
    ensures
      var c := b.cursor[p] - 1;
      RestOf(t, p, b) == RestOf(t.taskList[c], p + [c], b) + Pending(t, p, b)
  {
    assert Cur(t, p, b) == b.cursor[p];
  }

  /** Taking the first step of a path off and putting it back. */
  lemma PathStep(p: Path, r: Path)
    requires r != []
    ensures p + [r[0]] + r[1..] == p + r
  {
    assert r == [r[0]] + r[1..];
  }

  /** The invariant holds at every node of a chain. */
  lemma {:induction false} GoodAlongChain(t: Task, p: Path, b: Book, r: Path)
    requires Good(t, p, b) && Chain(t, p, b, r)
    ensures Sub(t, r).Some? && Good(Sub(t, r).value, p + r, b)
    decreases |r|
  {
    if r == [] {
      assert p + r == p;
    } else {
      GoodAlongChain(t.taskList[r[0]], p + [r[0]], b, r[1..]);
      assert p + [r[0]] + r[1..] == p + r;
    }
  }

  /** Extending a chain by one step: the node at its end is a group and the step is its last-taken child. */
  lemma {:induction false} ChainSnoc(t: Task, p: Path, b: Book, y: Path, j: nat)
    ensures Chain(t, p, b, y + [j]) <==>
      && Chain(t, p, b, y) && Sub(t, y).Some?
      && var g := Sub(t, y).value;
         g.Repeat? && p + y in b.cursor && 0 < b.cursor[p + y] <= |g.taskList| && j == b.cursor[p + y] - 1
    decreases |y|
  {
    if y == [] {
      assert p + y == p;
      assert [j][1..] == [];
    } else {
      assert (y + [j])[0] == y[0];
      assert (y + [j])[1..] == y[1..] + [j];
      if t.Repeat? && y[0] < |t.taskList| {
        ChainSnoc(t.taskList[y[0]], p + [y[0]], b, y[1..], j);
        assert p + [y[0]] + y[1..] == p + y;
      }
    }
  }

  lemma {:induction false} ChainPrefix(t: Task, p: Path, b: Book, r: Path, k: nat)
    requires Chain(t, p, b, r) && k <= |r|
    ensures Chain(t, p, b, r[..k])
    decreases |r|
  {
    if k > 0 {
      assert r[..k][0] == r[0];
      assert r[..k][1..] == r[1..][..k - 1];
      ChainPrefix(t.taskList[r[0]], p + [r[0]], b, r[1..], k - 1);
    }
  }

  lemma {:induction false} ChainConcat(t: Task, p: Path, b: Book, r1: Path, r2: Path)
    requires Chain(t, p, b, r1)
    requires Sub(t, r1).Some? && Chain(Sub(t, r1).value, p + r1, b, r2)
    ensures Chain(t, p, b, r1 + r2)
    decreases |r1|
  {
    if r1 == [] {
      assert r1 + r2 == r2;
      assert p + r1 == p;
    } else {
      var k := t.taskList[r1[0]];
      assert p + [r1[0]] + r1[1..] == p + r1;
      ChainConcat(k, p + [r1[0]], b, r1[1..], r2);
      assert (r1 + r2)[0] == r1[0];
      assert (r1 + r2)[1..] == r1[1..] + r2;
    }
  }

  /**
   * Replacing the book inside the subtree at the end of a chain by one in
   * which that subtree is in order keeps the whole tree in order, keeps the
   * chain, and keeps what the chain owes.
   */
  lemma {:induction false} ChainReplace(t: Task, p: Path, b: Book, b': Book, r: Path)
    requires Good(t, p, b) && Chain(t, p, b, r)
    requires Sub(t, r).Some? && Sub(t, r).value.Repeat?
    requires Good(Sub(t, r).value, p + r, b') && AgreeOutside(b, b', p + r)
    ensures Good(t, p, b') && Chain(t, p, b', r)
    ensures AfterChain(t, p, b', r) == AfterChain(t, p, b, r)
    decreases |r|
  {
    if r == [] {
      assert p + r == p;
    } else {
      assert !IsPrefix(p + r, p);
      assert SameAt(b, b', p);
      var c := b.cursor[p];
      forall j | c <= j < |t.taskList|
        ensures Fresh(t.taskList[j], p + [j], b')
      {
        forall q | IsPrefix(p + [j], q)
          ensures SameAt(b, b', q)
        {
          if IsPrefix(p + r, q) {
            PrefixHead(p, r, q);
            SiblingsDisjoint(p, j, r[0], q);
          }
        }
        FreshFrame(t.taskList[j], p + [j], b, b');
      }
      assert p + [r[0]] + r[1..] == p + r;
      ChainReplace(t.taskList[r[0]], p + [r[0]], b, b', r[1..]);
      assert Pending(t, p, b') == Pending(t, p, b);
    }
  }

  /** The number of passes the group at `p` can still start; `Descend` terminates on it. */
  function PassBudget(t: Task, p: Path, b: Book): int
    requires t.Repeat?
  {
    if p in b.loops then RepeatOf(p, t) - b.loops[p] else 0
  }

  /**
   * What descending from the group at `p` achieves: it yields the first leaf
   * the group owes, leaves the group owing the rest, keeps it in order and
   * leaves the returned leaf at the end of the group's chain.
   */
  ghost predicate DescendsInOrder(t: Task, p: Path, b: Book)
    requires t.Repeat?
  {
    var (b', res) := Descend(t, p, b);
    && res.Some? && RestOf(t, p, b) != []
    && Sub(t, res.value[|p|..]).value == RestOf(t, p, b)[0]
    && RestOf(t, p, b') == RestOf(t, p, b)[1..]
    && Good(t, p, b')
    && Chain(t, p, b', res.value[|p|..])
  }

  /**
   * Descending from a group that is in order, owes nothing from its last
   * child and still has an untried child or a pass left yields the first
   * leaf it owes and leaves it owing the others, still in order.
   */
  lemma {:induction false} DescendSpec(t: Task, p: Path, b: Book)
    requires t.Repeat? && Good(t, p, b) && EveryGroupHasLeaf(t)
    requires InProgress(t, p, b) == []
    requires HasNextChild(b, p, t) || HasNextIteration(b, p, t)
    ensures
      var (b', res) := Descend(t, p, b);
      && res.Some? && RestOf(t, p, b) != []
      && Sub(t, res.value[|p|..]).value == RestOf(t, p, b)[0]
      && RestOf(t, p, b') == RestOf(t, p, b)[1..]
      && Good(t, p, b')
      && Chain(t, p, b', res.value[|p|..])
    decreases t, PassBudget(t, p, b), 1
  {
    if HasNextChild(b, p, t) {
      if IsLeaf(t.taskList[b.cursor[p]]) {
        DescendLeafChild(t, p, b);
      } else {
        DescendGroupChild(t, p, b);
      }
    } else {
      DescendNextPass(t, p, b);
    }
    assert DescendsInOrder(t, p, b);
  }

  /** Children `c` onwards of `p` stay freshly armed when nothing inside their subtrees changes. */
  lemma KidsFreshFrame(t: Task, p: Path, b: Book, b': Book, c: nat)
    requires t.Repeat?
    requires forall j :: c <= j < |t.taskList| ==> Fresh(t.taskList[j], p + [j], b)
    requires forall q :: ChildFrom(p, c, q) ==> SameAt(b, b', q)
    ensures forall j :: c <= j < |t.taskList| ==> Fresh(t.taskList[j], p + [j], b')
  {
    forall j | c <= j < |t.taskList|
      ensures Fresh(t.taskList[j], p + [j], b')
    {
      forall q | IsPrefix(p + [j], q)
        ensures SameAt(b, b', q)
      {
        ChildSubtree(p, j, q);
        assert ChildFrom(p, c, q);
      }
      FreshFrame(t.taskList[j], p + [j], b, b');
    }
  }

  /** Taking the child under the cursor: it owes its `Flatten`, and it and the children after it stay freshly armed. */
  lemma TakeChild(t: Task, p: Path, b: Book)
    requires t.Repeat? && Good(t, p, b) && HasNextChild(b, p, t) && InProgress(t, p, b) == []
    ensures
      var c := b.cursor[p];
      var b1 := GetNextChild(b, p, t).0;
      && RestOf(t, p, b) == Flatten(t.taskList[c]) + Pending(t, p, b1)
      && (forall j :: c <= j < |t.taskList| ==> Fresh(t.taskList[j], p + [j], b1))
  {
    var c := b.cursor[p];
    var b1 := GetNextChild(b, p, t).0;
    PendingStep(t, p, b, b1);
    KidsFreshFrame(t, p, b, b1, c);
  }

  /** Moving the cursor past one child moves that child's order out of what the group has pending. */
  lemma PendingStep(t: Task, p: Path, b: Book, b1: Book)
    requires t.Repeat? && p in b.cursor && b.cursor[p] < |t.taskList|
    requires p in b1.cursor && b1.cursor[p] == b.cursor[p] + 1 && b1.loops == b.loops
    ensures Pending(t, p, b) == Flatten(t.taskList[b.cursor[p]]) + Pending(t, p, b1)
  {
    var kids := t.taskList;
    var c := b.cursor[p];
    assert kids[c..] == [kids[c]] + kids[c + 1..];
    FlattenAllAppend([kids[c]], kids[c + 1..]);
    assert FlattenAll([kids[c]]) == Flatten(kids[c]);
  }

  lemma DescendLeafChild(t: Task, p: Path, b: Book)
    requires t.Repeat? && Good(t, p, b) && InProgress(t, p, b) == []
    requires HasNextChild(b, p, t) && IsLeaf(t.taskList[b.cursor[p]])
    ensures DescendsInOrder(t, p, b)
  {
    var c := b.cursor[p];
    var b1 := GetNextChild(b, p, t).0;
    TakeChild(t, p, b);
    assert (p + [c])[|p|..] == [c];
    assert Chain(t.taskList[c], p + [c], b1, []);
  }

  lemma {:induction false} DescendGroupChild(t: Task, p: Path, b: Book)
    requires t.Repeat? && Good(t, p, b) && EveryGroupHasLeaf(t) && InProgress(t, p, b) == []
    requires HasNextChild(b, p, t) && !IsLeaf(t.taskList[b.cursor[p]])
    ensures DescendsInOrder(t, p, b)
    decreases t, PassBudget(t, p, b), 0
  {
    var c := b.cursor[p];
    var (b1, child) := GetNextChild(b, p, t);
    EnterGroupChild(t, p, b);
    DescendSpec(child, p + [c], b1);
    var (b2, res) := Descend(child, p + [c], b1);
    var q := res.value;
    assert Descend(t, p, b) == (b2, res);
    LeaveGroupChild(t, p, b1, b2, c, q);
    TailConcat(Flatten(child), Pending(t, p, b1));
  }

  /** Stepping into a group child: the parent stays in order and the child is ready to be descended. */
  lemma EnterGroupChild(t: Task, p: Path, b: Book)
    requires t.Repeat? && Good(t, p, b) && EveryGroupHasLeaf(t) && InProgress(t, p, b) == []
    requires HasNextChild(b, p, t) && !IsLeaf(t.taskList[b.cursor[p]])
    ensures
      var c := b.cursor[p];
      var (b1, child) := GetNextChild(b, p, t);
      && RestOf(t, p, b) == Flatten(child) + Pending(t, p, b1)
      && Good(t, p, b1) && Chain(t, p, b1, [c])
      && Good(child, p + [c], b1) && EveryGroupHasLeaf(child) && InProgress(child, p + [c], b1) == []
      && HasNextChild(b1, p + [c], child) && RestOf(child, p + [c], b1) == Flatten(child) && Flatten(child) != []
  {
    var c := b.cursor[p];
    var (b1, child) := GetNextChild(b, p, t);
    TakeChild(t, p, b);
    assert Chain(child, p + [c], b1, []);
    assert [c][1..] == [] && p + [c] == p + [c] + [];
    assert child in t.taskList;
    FreshGood(child, p + [c], b1);
    FreshRest(child, p + [c], b1);
    FlattenNonEmpty(child);
    var k :| k in child.taskList && ContainsLeaf(k);
  }

  /** Back from descending a group child: the parent is in order with the leaf at the end of its chain. */
  lemma LeaveGroupChild(t: Task, p: Path, b1: Book, b2: Book, c: nat, q: Path)
    requires t.Repeat? && c < |t.taskList| && t.taskList[c].Repeat?
    requires Good(t, p, b1) && Chain(t, p, b1, [c])
    requires Good(t.taskList[c], p + [c], b2) && AgreeOutside(b1, b2, p + [c])
    requires |p| < |q| && q[..|p| + 1] == p + [c] && Chain(t.taskList[c], p + [c], b2, q[|p| + 1..])
    ensures Good(t, p, b2) && Chain(t, p, b2, q[|p|..])
    ensures RestOf(t, p, b2) == RestOf(t.taskList[c], p + [c], b2) + Pending(t, p, b1)
    ensures Sub(t, q[|p|..]) == Sub(t.taskList[c], q[|p| + 1..])
  {
    var r := q[|p| + 1..];
    assert Sub(t, [c]) == Some(t.taskList[c]);
    ChainReplace(t, p, b1, b2, [c]);
    Decompose(t, p, b2, [c]);
    assert AfterChain(t, p, b2, [c]) == Pending(t, p, b1);
    ChainConcat(t, p, b2, [c], r);
    assert q[|p|] == q[..|p| + 1][|p|] == c;
    DropSplit(q, |p|);
    assert Sub(t, [c] + r) == Sub(t.taskList[c], r);
  }

  lemma {:induction false} DescendNextPass(t: Task, p: Path, b: Book)
    requires t.Repeat? && Good(t, p, b) && EveryGroupHasLeaf(t) && InProgress(t, p, b) == []
    requires !HasNextChild(b, p, t) && HasNextIteration(b, p, t)
    ensures DescendsInOrder(t, p, b)
    decreases t, PassBudget(t, p, b), 0
  {
    var b1 := NextIteration(t, p, b);
    NextPassRest(t, p, b);
    DescendSpec(t, p, b1);
    assert Descend(t, p, b) == Descend(t, p, b1);
  }

  /**
   * Starting the next pass of a group that has used up its children keeps it
   * in order and owing the same leaves: a pass it was still owed becomes
   * the children it now has pending.
   */
  lemma NextPassRest(t: Task, p: Path, b: Book)
    requires t.Repeat? && Good(t, p, b) && EveryGroupHasLeaf(t) && InProgress(t, p, b) == []
    requires !HasNextChild(b, p, t) && HasNextIteration(b, p, t)
    ensures
      var b1 := NextIteration(t, p, b);
      && Good(t, p, b1) && InProgress(t, p, b1) == [] && HasNextChild(b1, p, t)
      && RestOf(t, p, b1) == RestOf(t, p, b)
      && PassBudget(t, p, b1) < PassBudget(t, p, b)
  {
    var kids := t.taskList;
    var b1 := NextIteration(t, p, b);
    var k :| k in kids && ContainsLeaf(k);
    assert Cur(t, p, b1) == 0;
    assert InProgress(t, p, b1) == [];
    PendingRewind(t, p, b, b1);
  }

  lemma PendingRewind(t: Task, p: Path, b: Book, b1: Book)
    requires t.Repeat? && p in b.cursor && b.cursor[p] == |t.taskList| && HasNextIteration(b, p, t)
    requires p in b1.cursor && b1.cursor[p] == 0 && p in b1.loops && b1.loops[p] == b.loops[p] + 1
    ensures Pending(t, p, b1) == Pending(t, p, b)
  {
    var kids := t.taskList;
    var l := PassesLeft(t, p, b);
    assert PassesLeft(t, p, b1) == l - 1;
    assert kids[|kids|..] == [];
    assert kids[0..] == kids;
    assert Pending(t, p, b) == Rep(FlattenAll(kids), l);
  }

  /**
   * Ascending from a node of the chain that owes nothing below it finds the
   * nearest unfinished group, which owes nothing from its last child either;
   * finding none means the whole iterator owes nothing.
   */
  lemma {:induction false} AscendSpec(root: Task, b: Book, x: Path)
    requires root.Repeat? && Good(root, [], b)
    requires ParentSound(b.parent) && ParentComplete(root, b.parent)
    requires Chain(root, [], b, x) && Sub(root, x).Some?
    requires IsLeaf(Sub(root, x).value) || InProgress(Sub(root, x).value, x, b) == []
    ensures
      var u := Ascend(root, b, Some(x));
      && (u.None? ==> RestOf(root, [], b) == [])
      && (u.Some? ==> Chain(root, [], b, u.value) && InProgress(Sub(root, u.value).value, u.value, b) == [])
    decreases |x|
  {
    var node := Sub(root, x).value;
    if IsLeaf(node) || !(HasNextChild(b, x, node) || HasNextIteration(b, x, node)) {
      if node.Repeat? {
        GoodAlongChain(root, [], b, x);
        assert [] + x == x;
        FinishedOwesNothing(node, x, b);
      }
      if x != [] {
        var y := x[..|x| - 1];
        StepUp(root, b, x);
        assert b.parent[x] == Some(y);
        AscendSpec(root, b, y);
      }
    }
  }

  /** A group in order that has used up its children and its passes, and owes nothing from its last child, owes nothing. */
  lemma FinishedOwesNothing(t: Task, p: Path, b: Book)
    requires t.Repeat? && Good(t, p, b) && InProgress(t, p, b) == []
    requires !HasNextChild(b, p, t) && !HasNextIteration(b, p, t)
    ensures RestOf(t, p, b) == []
  {
    assert t.taskList[|t.taskList|..] == [];
  }

  /** One step up the chain: when the node at `x` owes nothing, its parent owes nothing from its last child. */
  lemma StepUp(root: Task, b: Book, x: Path)
    requires Chain(root, [], b, x) && x != [] && Sub(root, x).Some?
    requires RestOf(Sub(root, x).value, x, b) == []
    ensures
      var y := x[..|x| - 1];
      && Chain(root, [], b, y) && Sub(root, y).Some? && Sub(root, y).value.Repeat?
      && InProgress(Sub(root, y).value, y, b) == []
  {
    var y := x[..|x| - 1];
    var j := x[|x| - 1];
    assert x == y + [j];
    ChainSnoc(root, [], b, y, j);
    assert [] + y == y;
    SubAppend(root, y, [j]);
  }

  /** A freshly constructed iterator is valid and owes exactly `Linearize(root)`. */
  lemma InitValid(root: Task)
    requires root.Repeat? && EveryGroupHasLeaf(root)
    ensures Valid(Init(root)) && Rest(Init(root)) == Linearize(root)
  {
    var it := Init(root);
    FreshGood(root, [], it.book);
    FreshRest(root, [], it.book);
  }

  /**
   * The step a valid iterator makes: if it still owes leaves it returns the
   * first of them and then owes the others, and if it owes nothing it
   * returns `null` and stays as it is; either way it stays valid.
   */
  ghost predicate StepsInOrder(it: State)
    requires Wired(it)
  {
    var (it', r) := Next(it);
    && Valid(it') && it'.root == it.root
    && (Rest(it) == [] ==> r == Null && it' == it)
    && (Rest(it) != [] ==> r == Item(Rest(it)[0]) && Rest(it') == Rest(it)[1..])
  }

  /**
   * One step of the refinement: a valid iterator that still owes leaves
   * returns the first of them and then owes the others; one that owes
   * nothing returns `null` and stays as it is. Validity is preserved.
   */
  lemma NextRefines(it: State)
    requires Valid(it)
    ensures
      var (it', r) := Next(it);
      && Valid(it') && it'.root == it.root
      && (Rest(it) == [] ==> r == Null && it' == it)
      && (Rest(it) != [] ==> r == Item(Rest(it)[0]) && Rest(it') == Rest(it)[1..])
  {
    if it.last.Unstarted? {
      FirstStep(it);
    } else {
      LaterStep(it);
    }
    assert StepsInOrder(it);
  }

  lemma FirstStep(it: State)
    requires Valid(it) && it.last.Unstarted?
    ensures StepsInOrder(it)
  {
    var root := it.root;
    FreshStart(root, it.book);
    DescendSpec(root, [], it.book);
    var (b', res) := Descend(root, [], it.book);
    assert res.value[0..] == res.value;
    assert Next(it) == (State(root, b', LastLeaf(res.value)), Item(Sub(root, res.value).value));
  }

  /** A freshly armed root is in order, owes nothing from a last child and has an untried child. */
  lemma FreshStart(root: Task, b: Book)
    requires root.Repeat? && EveryGroupHasLeaf(root) && Fresh(root, [], b)
    ensures Good(root, [], b) && InProgress(root, [], b) == [] && HasNextChild(b, [], root)
  {
    FreshGood(root, [], b);
    assert Cur(root, [], b) == 0;
    var k :| k in root.taskList && ContainsLeaf(k);
  }

  lemma LaterStep(it: State)
    requires Valid(it) && it.last.LastLeaf?
    ensures StepsInOrder(it)
  {
    var root := it.root;
    var b := it.book;
    AscendSpec(root, b, it.last.path);
    var u := Ascend(root, b, Some(it.last.path));
    if u.Some? {
      ResumeStep(it, u.value);
    } else {
      assert Next(it) == (it, Null);
    }
  }

  /** A later call that finds an unfinished group on the way up descends from it to the next owed leaf. */
  lemma ResumeStep(it: State, w: Path)
    requires Valid(it) && it.last.LastLeaf?
    requires Ascend(it.root, it.book, Some(it.last.path)) == Some(w)
    requires Chain(it.root, [], it.book, w) && InProgress(Sub(it.root, w).value, w, it.book) == []
    ensures StepsInOrder(it)
  {
    var root := it.root;
    var b := it.book;
    ResumeAt(root, b, w);
    var (b', res) := Descend(Sub(root, w).value, w, b);
    assert Next(it) == (State(root, b', LastLeaf(res.value)), Item(Sub(root, res.value).value));
  }

  /**
   * Descending again from an unfinished group on the chain yields the first
   * leaf the whole iterator owes and leaves it owing the others, in order.
   */
  lemma ResumeAt(root: Task, b: Book, w: Path)
    requires root.Repeat? && EveryGroupHasLeaf(root) && Good(root, [], b)
    requires Chain(root, [], b, w) && Unfinished(root, b, w)
    requires InProgress(Sub(root, w).value, w, b) == []
    ensures
      var (b', res) := Descend(Sub(root, w).value, w, b);
      && res.Some? && RestOf(root, [], b) != []
      && Sub(root, res.value).Some? && Sub(root, res.value).value == RestOf(root, [], b)[0]
      && RestOf(root, [], b') == RestOf(root, [], b)[1..]
      && Good(root, [], b') && Chain(root, [], b', res.value)
  {
    var g := Sub(root, w).value;
    assert [] + w == w;
    GoodAlongChain(root, [], b, w);
    EveryGroupHasLeafSub(root, w);
    DescendSpec(g, w, b);
    var (b', res) := Descend(g, w, b);
    var q' := res.value;
    ReplaceAlong(root, b, b', w, q'[|w|..]);
    PrefixSplit(w, q');
    SubAppend(root, w, q'[|w|..]);
  }

  /**
   * When the subtree at the end of the root's chain hands out its first
   * owed leaf and stays in order, the whole iterator hands out its first
   * owed leaf and stays in order.
   */
  lemma ReplaceAlong(root: Task, b: Book, b': Book, w: Path, r: Path)
    requires Good(root, [], b) && Chain(root, [], b, w) && Sub(root, w).Some? && Sub(root, w).value.Repeat?
    requires Good(Sub(root, w).value, w, b') && AgreeOutside(b, b', w) && Chain(Sub(root, w).value, w, b', r)
    requires RestOf(Sub(root, w).value, w, b) != []
    requires RestOf(Sub(root, w).value, w, b') == RestOf(Sub(root, w).value, w, b)[1..]
    ensures Good(root, [], b') && Chain(root, [], b', w + r)
    ensures RestOf(root, [], b) != [] && RestOf(root, [], b)[0] == RestOf(Sub(root, w).value, w, b)[0]
    ensures RestOf(root, [], b') == RestOf(root, [], b)[1..]
  {
    var g := Sub(root, w).value;
    assert [] + w == w;
    Decompose(root, [], b, w);
    ChainReplace(root, [], b, b', w);
    ChainConcat(root, [], b', w, r);
    Decompose(root, [], b', w);
    TailConcat(RestOf(g, w, b), AfterChain(root, [], b, w));
  }

  /** The results of `k` successive `Next` calls from a valid iterator. */
  ghost function Results(it: State, k: nat): (r: seq<NextResult>)
    requires Valid(it)
    ensures |r| == k
    decreases k
  {
    if k == 0 then []
    else
      NextRefines(it);
      var (it', r) := Next(it);
      [r] + Results(it', k - 1)
  }

  /** What `k` calls should return when `rest` is owed: the owed leaves in order, then `null`. */
  function Owed(rest: seq<Task>, k: nat): (r: seq<NextResult>)
    ensures |r| == k
    ensures forall i :: 0 <= i < k ==> r[i] == if i < |rest| then Item(rest[i]) else Null
  {
    seq(k, i requires 0 <= i < k => if i < |rest| then Item(rest[i]) else Null)
  }

  lemma OwedStep(rest: seq<Task>, k: nat)
    requires k > 0
    ensures rest == [] ==> Owed(rest, k) == [Null] + Owed(rest, k - 1)
    ensures rest != [] ==> Owed(rest, k) == [Item(rest[0])] + Owed(rest[1..], k - 1)
  {
  }

  /**
   * A valid iterator's next `k` results are the leaves it owes, in order,
   * followed by `null` for every call after the last of them.
   */
  lemma {:induction false} ResultsFollowRest(it: State, k: nat)
    requires Valid(it)
    ensures Results(it, k) == Owed(Rest(it), k)
    decreases k
  {
    if k > 0 {
      NextRefines(it);
      var (it', r) := Next(it);
      ResultsFollowRest(it', k - 1);
      OwedStep(Rest(it), k);
      assert Results(it, k) == [r] + Results(it', k - 1);
    }
  }

  /**
   * The whole refinement: from a freshly constructed iterator over a tree in
   * which every group contains a leaf, call `i + 1` of `next()` returns the
   * `i`-th leaf of `Linearize(root)`, and every call after the last leaf
   * returns `null`.
   */
  lemma YieldsLinearize(root: Task, k: nat)
    requires root.Repeat? && EveryGroupHasLeaf(root)
    ensures Valid(Init(root)) && Results(Init(root), k) == Owed(Linearize(root), k)
  {
    InitValid(root);
    ResultsFollowRest(Init(root), k);
  }
}
