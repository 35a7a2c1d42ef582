/**
 * The global tick counter (src/TaskScheduler.js): it counts ticks, fires
 * `tickSecond` on every whole second and `tick` on every tick. As for the
 * timers, the interval is replaced by an explicit `tick` step and every
 * operation returns the events it fires, in order.
 */
module TaskScheduler {
  import Timers

  datatype Scheduler = Scheduler(tps: Timers.Rate, ticks: nat)

  datatype Event = Start | Stop | Tick(ticks: nat) | TickSecond(seconds: int)

  /** A new scheduler has counted no ticks. */
  function NewScheduler(tps: Timers.Rate): (s: Scheduler)
    ensures s.ticks == 0 && s.tps == tps
  {
    Scheduler(tps, 0)
  }

  /** `start`: the interval is armed and `start` fires; nothing is counted. */
  function StartScheduler(s: Scheduler): (r: (Scheduler, seq<Event>))
    ensures r.0 == s && r.1 == [Start]
  {
    (s, [Start])
  }

  /** `stop`: the interval is cleared and `stop` fires; nothing is counted. */
  function StopScheduler(s: Scheduler): (r: (Scheduler, seq<Event>))
    ensures r.0 == s && r.1 == [Stop]
  {
    (s, [Stop])
  }

  /**
   * `tick`: one more tick; on a whole second `tickSecond` fires with the
   * seconds counted, and then `tick` fires with the ticks counted.
   */
  function TickScheduler(s: Scheduler): (r: (Scheduler, seq<Event>))
    ensures r.0 == s.(ticks := s.ticks + 1)
    ensures r.1 != [] && r.1[|r.1| - 1] == Tick(s.ticks + 1)
    ensures |r.1| == 2 <==> (s.ticks + 1) % s.tps == 0
    ensures |r.1| == 2 ==> r.1[0] == TickSecond((s.ticks + 1) / s.tps) && r.1[0].seconds * s.tps == s.ticks + 1
  {
    var ticks := s.ticks + 1;
    if ticks % s.tps == 0 then
      Timers.WholeSeconds(ticks / s.tps, s.tps);
      (s.(ticks := ticks), [TickSecond(ticks / s.tps), Tick(ticks)])
    else
      (s.(ticks := ticks), [Tick(ticks)])
  }

  /** The scheduler after `n` ticks. */
  function After(s: Scheduler, n: nat): (r: Scheduler)
    ensures r.tps == s.tps && r.ticks == s.ticks + n
  {
    if n == 0 then s else TickScheduler(After(s, n - 1)).0
  }

  /** Every event `n` ticks fire, in order. */
  function EventsOf(s: Scheduler, n: nat): seq<Event> {
    if n == 0 then [] else EventsOf(s, n - 1) + TickScheduler(After(s, n - 1)).1
  }

  /** The payloads of the `tickSecond` events among `es`, in order. */
  function Seconds(es: seq<Event>): seq<int> {
    if es == [] then []
    else (if es[|es| - 1].TickSecond? then Seconds(es[..|es| - 1]) + [es[|es| - 1].seconds] else Seconds(es[..|es| - 1]))
  }

  /** The payloads of the `tick` events among `es`, in order. */
  function Ticks(es: seq<Event>): seq<int> {
    if es == [] then []
    else (if es[|es| - 1].Tick? then Ticks(es[..|es| - 1]) + [es[|es| - 1].ticks] else Ticks(es[..|es| - 1]))
  }

  lemma PayloadsAppend(a: seq<Event>, b: seq<Event>)
    ensures Seconds(a + b) == Seconds(a) + Seconds(b)
    ensures Ticks(a + b) == Ticks(a) + Ticks(b)
    decreases |b|
  {
    if b == [] {
      assert a + b == a;
    } else {
      assert (a + b)[..|a + b| - 1] == a + b[..|b| - 1];
      PayloadsAppend(a, b[..|b| - 1]);
    }
  }

  lemma OneTick(s: Scheduler)
    ensures Ticks(TickScheduler(s).1) == [s.ticks + 1]
    ensures Seconds(TickScheduler(s).1) == if (s.ticks + 1) % s.tps == 0 then [(s.ticks + 1) / s.tps] else []
  {
    var es := TickScheduler(s).1;
    if |es| == 2 {
      assert es[..1] == [es[0]] && es[..1][..0] == [];
    } else {
      assert es[..0] == [];
    }
  }

  lemma EventsStep(s: Scheduler, n: nat)
    requires n > 0
    ensures Seconds(EventsOf(s, n)) == Seconds(EventsOf(s, n - 1)) + Seconds(TickScheduler(After(s, n - 1)).1)
    ensures Ticks(EventsOf(s, n)) == Ticks(EventsOf(s, n - 1)) + Ticks(TickScheduler(After(s, n - 1)).1)
  {
    PayloadsAppend(EventsOf(s, n - 1), TickScheduler(After(s, n - 1)).1);
  }

  /**
   * Over the first `n` ticks of a new scheduler, `tick` fires with 1, 2,
   * ..., n and `tickSecond` with 1, 2, ..., `n / tps`: once per whole
   * second, in order.
   */
  lemma {:induction false} CountTicks(tps: Timers.Rate, n: nat)
    ensures Ticks(EventsOf(NewScheduler(tps), n)) == Timers.Upto(n)
    ensures Seconds(EventsOf(NewScheduler(tps), n)) == Timers.Upto(n / tps)
  {
    if n > 0 {
      var s := NewScheduler(tps);
      CountTicks(tps, n - 1);
      EventsStep(s, n);
      NthTick(tps, n);
      Timers.UptoStep(n, tps);
    }
  }

  /** Tick `n` of a new scheduler fires `tick` with `n`, and `tickSecond` with `n / tps` when `n` is a whole second. */
  lemma NthTick(tps: Timers.Rate, n: nat)
    requires n > 0
    ensures Ticks(TickScheduler(After(NewScheduler(tps), n - 1)).1) == [n]
    ensures Seconds(TickScheduler(After(NewScheduler(tps), n - 1)).1) == if n % tps == 0 then [n / tps] else []
  {
    var s := After(NewScheduler(tps), n - 1);
    assert s.ticks + 1 == n && s.tps == tps;
    OneTick(s);
  }
}
