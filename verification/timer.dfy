/**
 * The countdown/stopwatch state machine of one task (src/Timer.js). The
 * source drives `tick` from `setInterval` every `1000 / ticksPerSec`
 * milliseconds; here a tick is an explicit step, and every operation returns
 * the timer's new value with the events it fires, in firing order.
 *
 * `ticks` counts running ticks and `elapsed` (the source's
 * `elapsedTicksSinceStart`) counts all ticks; whole seconds are
 * `floor(ticks / ticksPerSec)`.
 */
module Timers {
  import opened Wrappers

  /** A tick rate: `tick` divides by it. */
  type Rate = n: nat | n > 0 witness 1

  /** `TICKS_PER_SEC` of src/definitions.js, the default tick rate. */
  const TicksPerSec: Rate := 50

  datatype RunState = Initialized | Running | Paused | Finished

  /**
   * `seconds` is the duration; `None` (a stopwatch, `new Timer()`) and
   * `Some(0)` are both falsy in the source and never finish on their own.
   */
  datatype Timer = Timer(seconds: Option<nat>, tps: Rate, ticks: nat, elapsed: nat, state: RunState)

  datatype Event =
    | Start
    | Stop(runningTime: int, pausedTime: int)
    | PauseOn
    | PauseOff
    | Tick(ticks: nat)
    | TickSecond(seconds: int)
    | PauseTick(pauseTicks: int)
    | PauseTickSecond(seconds: int)

  /** The name an event is fired under. */
  function Name(e: Event): string {
    match e
    case Start => "start"
    case Stop(_, _) => "stop"
    case PauseOn => "pauseOn"
    case PauseOff => "pauseOff"
    case Tick(_) => "tick"
    case TickSecond(_) => "tickSecond"
    case PauseTick(_) => "pauseTick"
    case PauseTickSecond(_) => "pauseTickSecond"
  }

  /** `Timer.events`: the names a listener attaches to; `tick` is not among them. */
  const Listed: seq<string> := ["start", "pauseOn", "pauseOff", "stop", "tickSecond", "pauseTick", "pauseTickSecond"]

  /** A listener attached to `Timer.events` hears every event except `tick`. */
  lemma ListedNames(e: Event)
    ensures Name(e) in Listed <==> !e.Tick?
  {
  }

  /** JavaScript's `%`: the remainder takes the sign of the dividend. */
  function JsRem(a: int, b: Rate): (r: int)
    ensures a >= 0 ==> r == a % b
    ensures a < 0 ==> r <= 0
  {
    if a >= 0 then a % b else -((-a) % b)
  }

  /** A fresh timer: no ticks counted, not yet started. */
  function NewTimer(seconds: Option<nat>, tps: Rate): (t: Timer)
    ensures t.ticks == 0 && t.elapsed == 0 && t.state == Initialized
    ensures t.seconds == seconds && t.tps == tps
  {
    Timer(seconds, tps, 0, 0, Initialized)
  }

  /** `_pauseTicks`: the ticks spent not running, never negative while running ticks do not outnumber all ticks. */
  function PauseTicks(t: Timer): (r: int)
    ensures r + t.ticks == t.elapsed
    ensures r >= 0 <==> Inv(t)
  {
    t.elapsed - t.ticks
  }

  /** `_computeSeconds`: `Math.floor(ticks / ticksPerSec)`. */
  function ComputeSeconds(t: Timer, ticks: int): int {
    ticks / t.tps
  }

  /** `ComputeSeconds` counts the whole seconds in `ticks`: the largest `r` with `r` seconds' worth of ticks at most `ticks`. */
  lemma ComputeSecondsIsFloor(t: Timer, ticks: int)
    ensures ComputeSeconds(t, ticks) * t.tps <= ticks < (ComputeSeconds(t, ticks) + 1) * t.tps
  {
  }

  /** `n / d >= s` says that `n` holds `s` whole multiples of `d`. */
  lemma FloorAtLeast(n: int, d: Rate, s: int)
    ensures n / d >= s <==> n >= s * d
  {
    var q := n / d;
    assert q * d <= n < q * d + d;
    if q >= s {
      assert q * d >= s * d;
    } else {
      assert (q + 1) * d <= s * d;
    }
  }

  /** `_checkFinished`: a positive duration whose whole seconds have been run. */
  predicate CheckFinished(t: Timer) {
    t.seconds.Some? && t.seconds.value != 0 && ComputeSeconds(t, t.ticks) >= t.seconds.value
  }

  /** A timer has finished as soon as its running ticks reach the duration times the rate. */
  lemma CheckFinishedIff(t: Timer)
    ensures CheckFinished(t) <==> t.seconds.Some? && t.seconds.value > 0 && t.ticks >= t.seconds.value * t.tps
  {
    if t.seconds.Some? {
      FloorAtLeast(t.ticks, t.tps, t.seconds.value);
    }
  }

  /** `start`: the interval is armed and the timer runs, from any state. */
  function StartTimer(t: Timer): (r: (Timer, seq<Event>))
    ensures r.0.state == Running && r.1 == [Start]
    ensures r.0.ticks == t.ticks && r.0.elapsed == t.elapsed && r.0.seconds == t.seconds && r.0.tps == t.tps
  {
    (t.(state := Running), [Start])
  }

  /** `stop`: finish and report the whole seconds run and paused. */
  function StopTimer(t: Timer): (r: (Timer, seq<Event>))
    ensures r.0.state == Finished
    ensures r.0.ticks == t.ticks && r.0.elapsed == t.elapsed && r.0.seconds == t.seconds && r.0.tps == t.tps
    ensures r.1 == [Stop(t.ticks / t.tps, (t.elapsed - t.ticks) / t.tps)]
  {
    (t.(state := Finished), [Stop(ComputeSeconds(t, t.ticks), ComputeSeconds(t, PauseTicks(t)))])
  }

  /** `togglePause`: running and paused swap; in any other state it throws. */
  function TogglePause(t: Timer): (r: Result<(Timer, seq<Event>), string>)
    ensures r.Ok? <==> t.state == Running || t.state == Paused
    ensures t.state == Running ==> r == Ok((t.(state := Paused), [PauseOn]))
    ensures t.state == Paused ==> r == Ok((t.(state := Running), [PauseOff]))
    ensures r.Err? ==> r.error == "Invalid running state"
  {
    if t.state == Paused then Ok((t.(state := Running), [PauseOff]))
    else if t.state == Running then Ok((t.(state := Paused), [PauseOn]))
    else Err("Invalid running state")
  }

  /**
   * `tick`: every tick counts towards `elapsed`. A running tick counts
   * towards `ticks` and fires `tick`; on a whole second it fires
   * `tickSecond` and stops a timer whose duration has been run. Any other
   * tick fires `pauseTick`, and `pauseTickSecond` on a whole paused second.
   */
  function TickTimer(t: Timer): (r: (Timer, seq<Event>))
    ensures r.0.elapsed == t.elapsed + 1
    ensures r.0.ticks == if t.state == Running then t.ticks + 1 else t.ticks
    ensures r.0.seconds == t.seconds && r.0.tps == t.tps
    ensures r.1 != [] && (r.1[0] == Tick(t.ticks + 1) <==> t.state == Running)
    ensures r.0.state ==
      if t.state == Running && (t.ticks + 1) % t.tps == 0 && CheckFinished(t.(ticks := t.ticks + 1)) then Finished
      else t.state
  {
    var t1 := t.(elapsed := t.elapsed + 1);
    if t.state == Running then
      var t2 := t1.(ticks := t.ticks + 1);
      if t2.ticks % t.tps == 0 then
        var second := [Tick(t2.ticks), TickSecond(ComputeSeconds(t2, t2.ticks))];
        if CheckFinished(t2) then
          var (t3, stop) := StopTimer(t2);
          (t3, second + stop)
        else
          (t2, second)
      else
        (t2, [Tick(t2.ticks)])
    else
      var paused := PauseTicks(t1);
      if JsRem(paused, t.tps) == 0 then
        (t1, [PauseTick(paused), PauseTickSecond(ComputeSeconds(t1, paused))])
      else
        (t1, [PauseTick(paused)])
  }

  /** Running ticks never outnumber all ticks. */
  predicate Inv(t: Timer) {
    t.ticks <= t.elapsed
  }

  /** Every operation keeps the invariant, so the paused time is never negative. */
  lemma InvPreserved(t: Timer)
    requires Inv(t)
    ensures Inv(NewTimer(t.seconds, t.tps))
    ensures Inv(StartTimer(t).0) && Inv(StopTimer(t).0) && Inv(TickTimer(t).0)
    ensures TogglePause(t).Ok? ==> Inv(TogglePause(t).value.0)
    ensures PauseTicks(t) >= 0 && StopTimer(t).1[0].pausedTime >= 0
  {
  }

  /**
   * On a running tick, `tickSecond` fires exactly when the new tick count is
   * a multiple of the rate, and carries the number of whole seconds run.
   */
  lemma TickSecondOnWholeSeconds(t: Timer)
    requires t.state == Running
    ensures TickSecond((t.ticks + 1) / t.tps) in TickTimer(t).1 <==> (t.ticks + 1) % t.tps == 0
    ensures forall e :: e in TickTimer(t).1 && e.TickSecond? ==> e.seconds * t.tps == t.ticks + 1
    ensures forall e :: e in TickTimer(t).1 ==> e.Tick? || e.TickSecond? || e.Stop?
  {
  }

  /**
   * A running tick that finishes the timer fires `tick`, then `tickSecond`,
   * then the `stop` report of the whole seconds run and paused.
   */
  lemma FinishingTickEvents(t: Timer)
    requires t.state == Running && TickTimer(t).0.state == Finished
    ensures TickTimer(t).1 == [Tick(t.ticks + 1), TickSecond((t.ticks + 1) / t.tps), Stop((t.ticks + 1) / t.tps, (t.elapsed - t.ticks) / t.tps)]
  {
  }

  /** A tick fires `stop` exactly when it finishes a running timer. */
  lemma TickStopsIffFinishing(t: Timer)
    ensures (exists i :: 0 <= i < |TickTimer(t).1| && TickTimer(t).1[i].Stop?) <==> t.state == Running && TickTimer(t).0.state == Finished
  {
    var es := TickTimer(t).1;
    if t.state == Running && TickTimer(t).0.state == Finished {
      FinishingTickEvents(t);
      assert es[2].Stop?;
    }
  }

  /** On a tick that is not running, only the pause events fire, the second one on a whole paused second. */
  lemma PausedTickEvents(t: Timer)
    requires t.state != Running && Inv(t)
    ensures TickTimer(t).1[0] == PauseTick(t.elapsed + 1 - t.ticks)
    ensures |TickTimer(t).1| == 2 <==> (t.elapsed + 1 - t.ticks) % t.tps == 0
    ensures |TickTimer(t).1| == 2 ==> TickTimer(t).1[1] == PauseTickSecond((t.elapsed + 1 - t.ticks) / t.tps)
    ensures TickTimer(t).0.state == t.state
  {
  }

  /** The timer after `n` ticks in a row. */
  function After(t: Timer, n: nat): (r: Timer)
    ensures r.seconds == t.seconds && r.tps == t.tps && r.elapsed == t.elapsed + n
    ensures t.ticks <= r.ticks <= t.ticks + n
  {
    if n == 0 then t else TickTimer(After(t, n - 1)).0
  }

  /** Every event fired by `n` ticks in a row, in order. */
  function EventsOf(t: Timer, n: nat): seq<Event> {
    if n == 0 then [] else EventsOf(t, n - 1) + TickTimer(After(t, n - 1)).1
  }

  /** Quotient and remainder are the only ones: `n == q * d + r` with `0 <= r < d` fixes both. */
  lemma DivUnique(n: int, d: Rate, q: int, r: int)
    requires n == q * d + r && 0 <= r < d
    ensures n / d == q && n % d == r
  {
    var k := q - n / d;
    assert k * d == n % d - r;
  }

  lemma DivStep(n: nat, d: Rate)
    ensures (n + 1) / d == n / d + (if (n + 1) % d == 0 then 1 else 0)
  {
    var q, r := n / d, n % d;
    if r + 1 == d {
      DivUnique(n + 1, d, q + 1, 0);
    } else {
      DivUnique(n + 1, d, q, r + 1);
    }
  }

  lemma NotYetFinished(s: nat, d: Rate, n: nat)
    requires n < s * d
    ensures n / d < s
  {
  }

  lemma WholeSeconds(s: nat, d: Rate)
    ensures (s * d) % d == 0 && (s * d) / d == s
  {
    DivUnique(s * d, d, s, 0);
  }

  /**
   * A timer started with a positive duration of `s` seconds runs until its
   * `s * tps`-th tick, where it finishes, and then stays finished with that
   * many running ticks; before that it is running.
   */
  lemma {:induction false} FinishesOnTime(s: nat, tps: Rate, n: nat)
    requires s > 0
    ensures
      var t := After(StartTimer(NewTimer(Some(s), tps)).0, n);
      && t.elapsed == n
      && t.ticks == (if n < s * tps then n else s * tps)
      && t.state == (if n < s * tps then Running else Finished)
  {
    if n > 0 {
      FinishesOnTime(s, tps, n - 1);
      var t := After(StartTimer(NewTimer(Some(s), tps)).0, n - 1);
      if n < s * tps {
        NotYetFinished(s, tps, n);
      } else if n == s * tps {
        WholeSeconds(s, tps);
      }
    }
  }

  /** A timer without a positive duration never finishes by itself: every tick of it runs. */
  lemma {:induction false} StopwatchNeverFinishes(seconds: Option<nat>, tps: Rate, n: nat)
    requires seconds.None? || seconds == Some(0)
    ensures
      var t := After(StartTimer(NewTimer(seconds, tps)).0, n);
      t.state == Running && t.ticks == n && t.elapsed == n
  {
    KeepsRunning(StartTimer(NewTimer(seconds, tps)).0, n);
  }

  lemma {:induction false} KeepsRunning(t0: Timer, n: nat)
    requires t0.state == Running && (t0.seconds.None? || t0.seconds == Some(0))
    ensures After(t0, n).state == Running && After(t0, n).ticks == t0.ticks + n
  {
    if n > 0 {
      KeepsRunning(t0, n - 1);
      RunningTick(After(t0, n - 1));
    }
  }

  /** A running tick that does not finish the timer counts one more running tick and keeps it running. */
  lemma RunningTick(t: Timer)
    requires t.state == Running && !CheckFinished(t.(ticks := t.ticks + 1))
    ensures TickTimer(t).0 == t.(ticks := t.ticks + 1, elapsed := t.elapsed + 1)
  {
  }

  /** The payloads of the `tickSecond` events among `es`. */
  function Seconds(es: seq<Event>): seq<int> {
    if es == [] then []
    else (if es[|es| - 1].TickSecond? then Seconds(es[..|es| - 1]) + [es[|es| - 1].seconds] else Seconds(es[..|es| - 1]))
  }

  lemma SecondsAppend(a: seq<Event>, b: seq<Event>)
    ensures Seconds(a + b) == Seconds(a) + Seconds(b)
    decreases |b|
  {
    if b == [] {
      assert a + b == a;
    } else {
      assert (a + b)[..|a + b| - 1] == a + b[..|b| - 1];
      SecondsAppend(a, b[..|b| - 1]);
    }
  }

  /** A running stopwatch tick reports a `tickSecond` exactly on a whole second. */
  lemma StopwatchTickSeconds(t: Timer)
    requires t.state == Running && t.seconds.None?
    ensures Seconds(TickTimer(t).1) == if (t.ticks + 1) % t.tps == 0 then [(t.ticks + 1) / t.tps] else []
  {
    var es := TickTimer(t).1;
    if (t.ticks + 1) % t.tps == 0 {
      assert es == [Tick(t.ticks + 1), TickSecond((t.ticks + 1) / t.tps)];
      assert es[..1] == [Tick(t.ticks + 1)];
      assert es[..1][..0] == [];
      assert Seconds(es[..1]) == [];
    } else {
      assert es == [Tick(t.ticks + 1)];
      assert es[..0] == [];
    }
  }

  /** `1, 2, ..., k`. */
  function Upto(k: int): (r: seq<int>)
    ensures |r| == (if k < 0 then 0 else k) && forall i :: 0 <= i < |r| ==> r[i] == i + 1
  {
    if k <= 0 then [] else Upto(k - 1) + [k]
  }

  /**
   * Over `n` ticks of a running stopwatch, `tickSecond` fires once per whole
   * second, carrying 1, 2, ... in order: `n / tps` events in all.
   */
  lemma {:induction false} StopwatchSeconds(tps: Rate, n: nat)
    ensures Seconds(EventsOf(StartTimer(NewTimer(None, tps)).0, n)) == Upto(n / tps)
  {
    CountSeconds(StartTimer(NewTimer(None, tps)).0, n);
  }

  lemma {:induction false} CountSeconds(t0: Timer, n: nat)
    requires t0.state == Running && t0.seconds.None? && t0.ticks == 0
    ensures Seconds(EventsOf(t0, n)) == Upto(n / t0.tps)
  {
    if n > 0 {
      CountSeconds(t0, n - 1);
      SecondsStep(t0, n);
      UptoStep(n, t0.tps);
    }
  }

  lemma SecondsStep(t0: Timer, n: nat)
    requires n > 0 && t0.state == Running && t0.seconds.None? && t0.ticks == 0
    ensures Seconds(EventsOf(t0, n)) == Seconds(EventsOf(t0, n - 1)) + if n % t0.tps == 0 then [n / t0.tps] else []
  {
    EventsStep(t0, n);
    NthTickSeconds(t0, n);
  }

  lemma NthTickSeconds(t0: Timer, n: nat)
    requires n > 0 && t0.state == Running && t0.seconds.None? && t0.ticks == 0
    ensures Seconds(TickTimer(After(t0, n - 1)).1) == if n % t0.tps == 0 then [n / t0.tps] else []
  {
    var t := After(t0, n - 1);
    KeepsRunning(t0, n - 1);
    assert t.ticks + 1 == n && t.tps == t0.tps && t.state == Running && t.seconds.None?;
    StopwatchTickSeconds(t);
  }

  lemma EventsStep(t0: Timer, n: nat)
    requires n > 0
    ensures Seconds(EventsOf(t0, n)) == Seconds(EventsOf(t0, n - 1)) + Seconds(TickTimer(After(t0, n - 1)).1)
  {
    SecondsAppend(EventsOf(t0, n - 1), TickTimer(After(t0, n - 1)).1);
  }

  lemma UptoStep(n: nat, d: Rate)
    requires n > 0
    ensures Upto(n / d) == Upto((n - 1) / d) + if n % d == 0 then [n / d] else []
  {
    DivStep(n - 1, d);
  }

  /**
   * `Timer(5, 50)` ticked 250 times without a pause finishes on the last
   * tick and reports 5 seconds run and none paused.
   */
  lemma FiveSecondTimer()
    ensures
      var t := After(StartTimer(NewTimer(Some(5), 50)).0, 249);
      TickTimer(t) == (Timer(Some(5), 50, 250, 250, Finished), [Tick(250), TickSecond(5), Stop(5, 0)])
  {
    FinishesOnTime(5, 50, 249);
    assert After(StartTimer(NewTimer(Some(5), 50)).0, 249) == Timer(Some(5), 50, 249, 249, Running);
    LastTick();
  }

  /** The 250th tick of a five-second timer at 50 ticks per second. */
  lemma LastTick()
    ensures TickTimer(Timer(Some(5), 50, 249, 249, Running)) == (Timer(Some(5), 50, 250, 250, Finished), [Tick(250), TickSecond(5), Stop(5, 0)])
  {
    var t2 := Timer(Some(5), 50, 250, 250, Running);
    assert 250 % 50 == 0 && 250 / 50 == 5 && 0 / 50 == 0;
    assert CheckFinished(t2);
    assert StopTimer(t2).1 == [Stop(5, 0)];
    assert [Tick(250), TickSecond(5)] + [Stop(5, 0)] == [Tick(250), TickSecond(5), Stop(5, 0)];
  }
}
