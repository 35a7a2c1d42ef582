/**
 * The array-backed iterator (src/ArrayIterator.js): construction drains a
 * tree iterator into an array of leaves, and `next` walks that array with
 * an index that starts out `null`. The Proxy wrapper around each stored
 * task is left out: a node here is the task itself.
 */
module ArrayIterator {
  import opened Wrappers
  import opened TaskTree
  import opened TreeIterator
  import opened TreeIteratorRefinement

  /** The leaves in yield order, and the index of the last one handed out (`null` before the first call). */
  datatype ArrayIter = ArrayIter(nodes: seq<Task>, index: Option<nat>)

  /**
   * `_initIterator`: call `next()` on the tree iterator until it returns
   * `null`, keeping every leaf in order.
   */
  method Drain(root: Task) returns (nodes: seq<Task>)
    requires root.Repeat? && EveryGroupHasLeaf(root)
    ensures nodes == Linearize(root)
  {
    var it := Init(root);
    InitValid(root);
    nodes := [];
    while true
      invariant Valid(it) && it.root == root
      invariant nodes + Rest(it) == Linearize(root)
      decreases |Rest(it)|
    {
      DrainStep(it);
      var (it', r) := Next(it);
      if r.Null? {
        break;
      }
      nodes := nodes + [r.leaf];
      it := it';
    }
  }

  /** One call of `next` in the drain: `null` once nothing is owed, else the first owed leaf. */
  lemma DrainStep(it: State)
    requires Valid(it)
    ensures
      var (it', r) := Next(it);
      && Valid(it') && it'.root == it.root
      && (r.Null? <==> Rest(it) == [])
      && (!r.Null? ==> r.Item? && Rest(it) == [r.leaf] + Rest(it'))
  {
    NextRefines(it);
    var rest := Rest(it);
    if rest != [] {
      assert rest == [rest[0]] + rest[1..];
    }
  }

  /** The constructor: drain the tree, with the index not yet set. */
  method NewArrayIter(root: Task) returns (a: ArrayIter)
    requires root.Repeat? && EveryGroupHasLeaf(root)
    ensures a.nodes == Linearize(root) && a.index.None?
  {
    var nodes := Drain(root);
    a := ArrayIter(nodes, None);
  }

  /**
   * `next`: the index goes from `null` to 0 on the first call and up by
   * one on every later call; the node at the index is returned while there
   * is one, `null` after that. The nodes are never changed.
   */
  function NextNode(a: ArrayIter): (r: (ArrayIter, Option<Task>))
    ensures r.0.nodes == a.nodes
    ensures r.0.index == Some(if a.index.None? then 0 else a.index.value + 1)
    ensures r.1.Some? <==> r.0.index.value < |a.nodes|
    ensures r.1.Some? ==> r.1.value == a.nodes[r.0.index.value]
  {
    var i := if a.index.None? then 0 else a.index.value + 1;
    (ArrayIter(a.nodes, Some(i)), if i < |a.nodes| then Some(a.nodes[i]) else None)
  }

  /** The iterator after `k` calls of `next`. */
  function Advance(a: ArrayIter, k: nat): ArrayIter {
    if k == 0 then a else NextNode(Advance(a, k - 1)).0
  }

  /**
   * From a fresh iterator, after `k` calls the index is `k - 1`, the nodes
   * are unchanged, and call `k` returned `nodes[k - 1]` if there is such a
   * node and `null` otherwise.
   */
  lemma {:induction false} KthCall(nodes: seq<Task>, k: nat)
    requires k > 0
    ensures Advance(ArrayIter(nodes, None), k) == ArrayIter(nodes, Some(k - 1))
    ensures NextNode(Advance(ArrayIter(nodes, None), k - 1)).1 == if k <= |nodes| then Some(nodes[k - 1]) else None
  {
    if k > 1 {
      KthCall(nodes, k - 1);
    }
  }

  /**
   * The array iterator built from a tree hands out `Linearize(root)`: call
   * `k` returns its `k`-th leaf, and `null` once the leaves are exhausted —
   * the same answers the tree iterator gives.
   */
  lemma AgreesWithTreeIterator(root: Task, k: nat)
    requires root.Repeat? && EveryGroupHasLeaf(root) && k > 0
    ensures Valid(Init(root)) && |Results(Init(root), k)| == k
    ensures
      var l := Linearize(root);
      && NextNode(Advance(ArrayIter(l, None), k - 1)).1 == (if k <= |l| then Some(l[k - 1]) else None)
      && Results(Init(root), k)[k - 1] == (if k <= |l| then Item(l[k - 1]) else Null)
  {
    KthCall(Linearize(root), k);
    YieldsLinearize(root, k);
  }
}
