/**
 * The publish/subscribe base of the timers, the scheduler and the run
 * coordinator (src/EventEmitter.js): a map from topic to the ordered list of
 * handlers subscribed to it. Handlers are opaque values compared by identity
 * (`indexOf` uses `===`). Running a handler is outside the model: `Fire`
 * yields the calls it makes, in order, each with the arguments that follow
 * the topic.
 */
module EventEmitter {
  import opened Wrappers

  type Emitter<H> = map<string, seq<H>>

  /** One handler call made by `fire`: the handler and its arguments. */
  datatype Call<H, A> = Call(handler: H, args: A)

  /** A new emitter has no topics. */
  function NewEmitter<H>(): (e: Emitter<H>)
    ensures forall topic :: topic !in e
  {
    map[]
  }

  /** The handlers of `topic`, in subscription order; none for an unknown topic. */
  function Handlers<H>(e: Emitter<H>, topic: string): seq<H> {
    if topic in e then e[topic] else []
  }

  /** `subscribe`: append `fn` to the topic's list, creating the list when absent. */
  function Subscribe<H>(e: Emitter<H>, topic: string, fn: H): (e': Emitter<H>)
    ensures topic in e' && e'[topic] == Handlers(e, topic) + [fn]
    ensures forall t :: t != topic ==> (t in e' <==> t in e) && Handlers(e', t) == Handlers(e, t)
  {
    e[topic := Handlers(e, topic) + [fn]]
  }

  /** The first position of `fn` in `l`. */
  function IndexOf<H(==)>(l: seq<H>, fn: H): (r: Option<nat>)
    ensures r.Some? ==> r.value < |l| && l[r.value] == fn && fn !in l[..r.value]
    ensures r.None? <==> fn !in l
  {
    if l == [] then None
    else if l[0] == fn then Some(0)
    else match IndexOf(l[1..], fn)
      case None => None
      case Some(i) =>
        assert l[..i + 1] == [l[0]] + l[1..][..i];
        Some(i + 1)
  }

  /**
   * `unsubscribe`: remove the first occurrence of `fn` from the topic's
   * list. Nothing changes when the topic is unknown or `fn` is not in its
   * list; a list that becomes empty stays in the map.
   */
  function Unsubscribe<H(==)>(e: Emitter<H>, topic: string, fn: H): (e': Emitter<H>)
    ensures forall t :: t != topic ==> (t in e' <==> t in e) && Handlers(e', t) == Handlers(e, t)
    ensures (topic in e' <==> topic in e)
    ensures fn !in Handlers(e, topic) ==> e' == e
  {
    if topic !in e then e
    else
      match IndexOf(e[topic], fn)
      case None => e
      case Some(i) => e[topic := e[topic][..i] + e[topic][i + 1..]]
  }

  /** `fire`: call the topic's handlers in subscription order, each with `args`. */
  function Fire<H, A>(e: Emitter<H>, topic: string, args: A): (calls: seq<Call<H, A>>)
    ensures |calls| == |Handlers(e, topic)|
    ensures forall i :: 0 <= i < |calls| ==> calls[i] == Call(Handlers(e, topic)[i], args)
    ensures topic !in e ==> calls == []
  {
    seq(|Handlers(e, topic)|, i requires 0 <= i < |Handlers(e, topic)| => Call(Handlers(e, topic)[i], args))
  }

  /** The handlers `fire` calls, read back from its calls. */
  function Called<H, A>(calls: seq<Call<H, A>>): (r: seq<H>)
    ensures |r| == |calls| && forall i :: 0 <= i < |calls| ==> r[i] == calls[i].handler
  {
    if calls == [] then [] else [calls[0].handler] + Called(calls[1..])
  }

  /** A subscription makes the next `fire` of the topic call `fn` last, after the earlier handlers. */
  lemma SubscribeThenFire<H, A>(e: Emitter<H>, topic: string, fn: H, args: A)
    ensures Fire(Subscribe(e, topic, fn), topic, args) == Fire(e, topic, args) + [Call(fn, args)]
  {
  }

  /** Removal drops exactly one copy of `fn`, the first one, and keeps the rest in order. */
  lemma UnsubscribeRemovesFirst<H>(e: Emitter<H>, topic: string, fn: H)
    requires fn in Handlers(e, topic)
    ensures
      var l := Handlers(e, topic);
      var i := IndexOf(l, fn).value;
      && Handlers(Unsubscribe(e, topic, fn), topic) == l[..i] + l[i + 1..]
      && multiset(Handlers(Unsubscribe(e, topic, fn), topic)) == multiset(l) - multiset{fn}
  {
    var l := Handlers(e, topic);
    var i := IndexOf(l, fn).value;
    assert l == l[..i] + [fn] + l[i + 1..];
  }

  /**
   * Subscribing a handler that was not yet subscribed to the topic and
   * unsubscribing it again leaves the topic's handlers as they were.
   */
  lemma {:induction false} SubscribeThenUnsubscribe<H>(e: Emitter<H>, topic: string, fn: H)
    requires fn !in Handlers(e, topic)
    ensures Handlers(Unsubscribe(Subscribe(e, topic, fn), topic, fn), topic) == Handlers(e, topic)
  {
    var l := Handlers(e, topic);
    var l' := l + [fn];
    assert fn !in l'[..|l|] by {
      assert l'[..|l|] == l;
    }
    assert IndexOf(l', fn) == Some(|l|);
    assert l'[..|l|] + l'[|l| + 1..] == l;
  }

  /** `fire` runs the handlers that are subscribed, in subscription order. */
  lemma FireCallsHandlers<H, A>(e: Emitter<H>, topic: string, args: A)
    ensures Called(Fire(e, topic, args)) == Handlers(e, topic)
  {
  }
}
