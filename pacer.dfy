/**
 * The fixed-timestep frame pacer of the main loop of src/glyphs.c.
 *
 * Timestamps are 64-bit unsigned millisecond counts and every subtraction is
 * the wrapping `uint64_t` one. The clock is a sequence of readings consumed
 * in order; the pending input events are one batch per catch-up pass, a
 * missing batch meaning that nothing was pending.
 *
 * One outer iteration: read the clock; run up to five catch-up passes while
 * more than one tick has elapsed since the last update, each draining the
 * pending events and advancing the last update by one tick; clamp the last
 * update to one tick behind the clock; render; then wait, re-reading the
 * clock, until 16 ms have passed since `last_render_time` (the startup
 * reading, never reassigned) or a tick since the last update. A quit event, or a `q` key press while Ctrl is held, seen
 * while draining ends the loop at once.
 */
module Pacer {

  const Modulus: int := 0x1_0000_0000_0000_0000

  /** A `uint64_t` millisecond timestamp. */
  type Ticks = t: int | 0 <= t < Modulus

  /** SP_TIME_BETWEEN_UPDATES: (uint64_t)(1000 / 30.0), truncated to 33. */
  const TickMs: Ticks := 33
  /** SP_TARGET_TIME_BETWEEN_RENDERS: 1000 / 60 in integer division. */
  const RenderMs: Ticks := 16
  /** SP_MAX_UPDATES_BEFORE_RENDER. */
  const MaxUpdates: nat := 5
  /** SDLK_q, the key code of 'q'. */
  const KeyQ: int := 113

  /** `a - b` on uint64_t: wraps modulo 2^64 when b > a. */
  function Minus(a: Ticks, b: Ticks): (d: Ticks)
    ensures b <= a ==> d == a - b
    ensures a < b ==> d == Modulus + a - b
  {
    (a - b) % Modulus
  }

  /** `a + b` on uint64_t. */
  function Plus(a: Ticks, b: Ticks): (s: Ticks)
    ensures a + b < Modulus ==> s == a + b
    ensures Modulus <= a + b ==> s == a + b - Modulus
  {
    (a + b) % Modulus
  }

  /** An event as SDL_PollEvent delivers it; a key press carries whether SDL_GetModState reported Ctrl when it was handled. */
  datatype Event = QuitEvent | KeyDown(sym: int, ctrlHeld: bool) | OtherEvent

  type Batches = seq<seq<Event>>

  /** The events that leave the running loop: a quit, or `q` with Ctrl held. */
  predicate EndsRun(e: Event)
  {
    e.QuitEvent? || (e.KeyDown? && e.sym == KeyQ && e.ctrlHeld)
  }

  predicate HasQuit(batch: seq<Event>)
  {
    exists i | 0 <= i < |batch| :: EndsRun(batch[i])
  }

  /** The events pending at catch-up pass `pass`. */
  function BatchAt(batches: Batches, pass: nat): seq<Event>
  {
    if pass < |batches| then batches[pass] else []
  }

  /** No catch-up pass from `from` up to (not including) `to` sees a quit. */
  predicate NoQuitIn(batches: Batches, from: nat, to: nat)
  {
    forall j | from <= j < to :: !HasQuit(BatchAt(batches, j))
  }

  predicate Nondecreasing(clock: seq<Ticks>)
  {
    forall i, j | 0 <= i <= j < |clock| :: clock[i] <= clock[j]
  }

  /** The inner `while(SDL_PollEvent(...))` loop: reports whether a loop-ending event came up. */
  method Drain(batch: seq<Event>) returns (quit: bool)
    ensures quit <==> HasQuit(batch)
  {
    var i := 0;
    while i < |batch|
      invariant 0 <= i <= |batch|
      invariant forall j | 0 <= j < i :: !EndsRun(batch[j])
    {
      match batch[i] {
        case QuitEvent =>
          return true;
        case KeyDown(sym, ctrlHeld) =>
          if sym == KeyQ && ctrlHeld {
            return true;
          }
        case OtherEvent =>
      }
      i := i + 1;
    }
    return false;
  }

  /** How the catch-up phase ends: by a loop-ending event at pass `pass`, or with a new last update after `passes` passes. */
  datatype CatchUp = Interrupted(pass: nat) | CaughtUp(lastUpdate: Ticks, passes: nat)

  /** The catch-up phase from pass `pass` on, with clock reading `now`. */
  function CatchUpFrom(now: Ticks, lastUpdate: Ticks, batches: Batches, pass: nat): CatchUp
    requires pass <= MaxUpdates
    decreases MaxUpdates - pass
  {
    if Minus(now, lastUpdate) > TickMs && pass < MaxUpdates then
      if HasQuit(BatchAt(batches, pass)) then Interrupted(pass)
      else CatchUpFrom(now, Plus(lastUpdate, TickMs), batches, pass + 1)
    else CaughtUp(lastUpdate, pass)
  }

  /** The catch-up loop of main (src/glyphs.c, the `update_loops` loop). */
  method CatchUpLoop(now: Ticks, lastUpdate: Ticks, batches: Batches) returns (r: CatchUp)
    ensures r == CatchUpFrom(now, lastUpdate, batches, 0)
  {
    var updateLoops := 0;
    var last := lastUpdate;
    while Minus(now, last) > TickMs && updateLoops < MaxUpdates
      invariant 0 <= updateLoops <= MaxUpdates
      invariant CatchUpFrom(now, last, batches, updateLoops) == CatchUpFrom(now, lastUpdate, batches, 0)
      decreases MaxUpdates - updateLoops
    {
      var quit := Drain(BatchAt(batches, updateLoops));
      if quit {
        return Interrupted(updateLoops);
      }
      last := Plus(last, TickMs);
      updateLoops := updateLoops + 1;
    }
    return CaughtUp(last, updateLoops);
  }

  /** The clamp after catch-up: never let the last update fall more than one tick behind `now`. */
  function Clamp(now: Ticks, lastUpdate: Ticks): Ticks
  {
    if Minus(now, lastUpdate) > TickMs then Minus(now, TickMs) else lastUpdate
  }

  /**
   * Measured with the same wrapping subtraction, the clamped last update is
   * at most one tick behind `now`, exactly one when it was moved, and a last
   * update within one tick is kept.
   */
  lemma ClampFacts(now: Ticks, lastUpdate: Ticks)
    ensures Minus(now, Clamp(now, lastUpdate)) <= TickMs
    ensures Minus(now, lastUpdate) <= TickMs ==> Clamp(now, lastUpdate) == lastUpdate
    ensures Minus(now, lastUpdate) > TickMs ==> Minus(now, Clamp(now, lastUpdate)) == TickMs
  {
  }

  /** The idle loop keeps waiting at reading `now`. */
  predicate Waits(lastRender: Ticks, lastUpdate: Ticks, now: Ticks)
  {
    Minus(now, lastRender) < RenderMs && Minus(now, lastUpdate) < TickMs
  }

  /** How the idle wait ends: at reading `at` with value `now`, or still waiting when the readings run out. */
  datatype Idle = Woke(now: Ticks, at: nat) | StillWaiting

  /** The idle wait, with the current reading `clock[i]`. */
  function IdleFrom(lastRender: Ticks, lastUpdate: Ticks, clock: seq<Ticks>, i: nat): (r: Idle)
    requires i < |clock|
    ensures r.Woke? ==> i <= r.at < |clock| && r.now == clock[r.at]
    decreases |clock| - i
  {
    if Waits(lastRender, lastUpdate, clock[i]) then
      if i + 1 == |clock| then StillWaiting else IdleFrom(lastRender, lastUpdate, clock, i + 1)
    else Woke(clock[i], i)
  }

  /** The idle loop of main: yields and re-reads the clock while it Waits. */
  method IdleWait(lastRender: Ticks, lastUpdate: Ticks, clock: seq<Ticks>) returns (r: Idle)
    requires |clock| > 0
    ensures r == IdleFrom(lastRender, lastUpdate, clock, 0)
  {
    var i := 0;
    var now := clock[0];
    while Minus(now, lastRender) < RenderMs && Minus(now, lastUpdate) < TickMs
      invariant 0 <= i < |clock| && now == clock[i]
      invariant IdleFrom(lastRender, lastUpdate, clock, i) == IdleFrom(lastRender, lastUpdate, clock, 0)
      decreases |clock| - i
    {
      if i + 1 == |clock| {
        return StillWaiting;
      }
      i := i + 1;
      now := clock[i];
    }
    return Woke(now, i);
  }

  /** The result of one outer iteration. */
  datatype Iteration =
    | Quit(passes: nat)
    | Rendered(now: Ticks, lastUpdate: Ticks, passes: nat, idle: Idle)

  /** One outer iteration with the readings `clock` (clock[0] is the one taken at its start). */
  function Iterate(lastRender: Ticks, lastUpdate: Ticks, clock: seq<Ticks>, batches: Batches): (r: Iteration)
    requires |clock| > 0
    ensures r.Rendered? ==> r.now == clock[0]
    ensures r.Rendered? && r.idle.Woke? ==> r.idle.at < |clock| && r.idle.now == clock[r.idle.at]
  {
    match CatchUpFrom(clock[0], lastUpdate, batches, 0)
    case Interrupted(p) => Quit(p)
    case CaughtUp(l, p) =>
      var clamped := Clamp(clock[0], l);
      Rendered(clock[0], clamped, p, IdleFrom(lastRender, clamped, clock, 0))
  }

  /** The batches still pending after `n` catch-up passes. */
  function Drop(batches: Batches, n: nat): Batches
  {
    if n <= |batches| then batches[n..] else []
  }

  /**
   * The iterations of the running loop over the readings `clock`, each one
   * started from the last update the previous one left and with the reading
   * after the one its idle wait woke at. The run stops after a quit, when an
   * idle wait uses up the readings, or when no reading is left to start
   * another iteration; every iteration takes at least one reading.
   */
  function Run(lastRender: Ticks, lastUpdate: Ticks, clock: seq<Ticks>, batches: Batches): (run: seq<Iteration>)
    ensures |run| <= |clock|
    decreases |clock|, 1
  {
    if clock == [] then []
    else RunAfter(lastRender, Iterate(lastRender, lastUpdate, clock, batches), clock, batches)
  }

  /** The run whose first iteration, on the readings `clock`, was `r`. */
  function RunAfter(lastRender: Ticks, r: Iteration, clock: seq<Ticks>, batches: Batches): (run: seq<Iteration>)
    requires clock != [] && (r.Rendered? && r.idle.Woke? ==> r.idle.at < |clock|)
    ensures |run| <= |clock|
    decreases |clock|, 0
  {
    match r
    case Quit(_) => [r]
    case Rendered(_, l, p, Woke(_, at)) => [r] + Run(lastRender, l, clock[at + 1..], Drop(batches, p))
    case Rendered(_, _, _, StillWaiting) => [r]
  }

  /**
   * Catch-up from pass `pass`, when the last update is not ahead of the clock:
   * a quit ends it at the first pass whose batch holds one; otherwise it runs
   * at most MaxUpdates passes in all, each adding exactly one tick, never
   * passes the clock, and stops early only when at most one tick is left.
   */
  lemma {:induction false} CatchUpFacts(now: Ticks, lastUpdate: Ticks, batches: Batches, pass: nat)
    requires pass <= MaxUpdates && lastUpdate <= now
    ensures match CatchUpFrom(now, lastUpdate, batches, pass)
      case Interrupted(p) =>
        && pass <= p < MaxUpdates
        && NoQuitIn(batches, pass, p) && HasQuit(BatchAt(batches, p))
        && now - (lastUpdate + TickMs * (p - pass)) > TickMs
      case CaughtUp(l, p) =>
        && pass <= p <= MaxUpdates
        && NoQuitIn(batches, pass, p)
        && l == lastUpdate + TickMs * (p - pass)
        && l <= now
        && (p < MaxUpdates ==> now - l <= TickMs)
    decreases MaxUpdates - pass
  {
    if now - lastUpdate > TickMs && pass < MaxUpdates && !HasQuit(BatchAt(batches, pass)) {
      CatchUpFacts(now, lastUpdate + TickMs, batches, pass + 1);
    }
  }

  /**
   * One iteration, when the last update is not ahead of the clock: a quit
   * comes from the first catch-up pass whose batch holds one, before any
   * render; otherwise the iteration renders after at most MaxUpdates passes,
   * with the last update advanced by one tick per pass, or clamped to one
   * tick behind the clock, so that `now - lastUpdate` is at most one tick and
   * never wraps.
   */
  lemma IterationBounds(lastRender: Ticks, lastUpdate: Ticks, clock: seq<Ticks>, batches: Batches)
    requires |clock| > 0 && lastUpdate <= clock[0]
    ensures match Iterate(lastRender, lastUpdate, clock, batches)
      case Quit(p) =>
        p < MaxUpdates && NoQuitIn(batches, 0, p) && HasQuit(BatchAt(batches, p))
      case Rendered(now, l, p, _) =>
        && now == clock[0]
        && p <= MaxUpdates && NoQuitIn(batches, 0, p)
        && lastUpdate <= l <= now && now - l <= TickMs
        && (l == lastUpdate + TickMs * p || (p == MaxUpdates && l == now - TickMs))
  {
    CatchUpFacts(clock[0], lastUpdate, batches, 0);
  }

  /**
   * When the clock has run ten ticks ahead and no quit is pending, the
   * iteration runs five passes, clamps the last update to one tick behind
   * the clock, and still renders.
   */
  lemma StallIsClamped(lastRender: Ticks, lastUpdate: Ticks, clock: seq<Ticks>, batches: Batches)
    requires |clock| > 0 && clock[0] == lastUpdate + 10 * TickMs
    requires NoQuitIn(batches, 0, MaxUpdates)
    ensures Iterate(lastRender, lastUpdate, clock, batches)
      == Rendered(clock[0], clock[0] - TickMs, MaxUpdates, IdleFrom(lastRender, clock[0] - TickMs, clock, 0))
  {
    CatchUpFacts(clock[0], lastUpdate, batches, 0);
  }

  /** Events are drained only inside a catch-up pass: with at most one tick elapsed, even a pending quit is not seen. */
  lemma NoPassNoDrain(lastRender: Ticks, lastUpdate: Ticks, clock: seq<Ticks>, batches: Batches)
    requires |clock| > 0 && Minus(clock[0], lastUpdate) <= TickMs
    ensures Iterate(lastRender, lastUpdate, clock, batches)
      == Rendered(clock[0], lastUpdate, 0, IdleFrom(lastRender, lastUpdate, clock, 0))
  {
  }

  /**
   * The idle wait from reading `i` wakes at the first reading at which it no
   * longer Waits (16 ms since `lastRender`, the startup reading, or a tick
   * since the last update), and keeps waiting only while every reading Waits.
   */
  lemma {:induction false} IdleFacts(lastRender: Ticks, lastUpdate: Ticks, clock: seq<Ticks>, i: nat)
    requires i < |clock|
    ensures match IdleFrom(lastRender, lastUpdate, clock, i)
      case Woke(now, at) =>
        && i <= at < |clock| && now == clock[at]
        && (Minus(now, lastRender) >= RenderMs || Minus(now, lastUpdate) >= TickMs)
        && forall k | i <= k < at :: Waits(lastRender, lastUpdate, clock[k])
      case StillWaiting =>
        forall k | i <= k < |clock| :: Waits(lastRender, lastUpdate, clock[k])
    decreases |clock| - i
  {
    if Waits(lastRender, lastUpdate, clock[i]) && i + 1 < |clock| {
      IdleFacts(lastRender, lastUpdate, clock, i + 1);
    }
  }

  /**
   * The last render time is the reading taken at startup and is never
   * updated: once a reading is 16 ms past it, the idle wait returns at once.
   */
  lemma IdleEndsOnceStartIsPast(lastRender: Ticks, lastUpdate: Ticks, clock: seq<Ticks>)
    requires |clock| > 0 && lastRender + RenderMs <= clock[0]
    ensures IdleFrom(lastRender, lastUpdate, clock, 0) == Woke(clock[0], 0)
  {
  }

  /**
   * With a clock that never goes back, a rendered iteration leaves the state
   * the next one needs: `lastRender <= lastUpdate <=` every later reading.
   */
  lemma IterationKeepsOrder(lastRender: Ticks, lastUpdate: Ticks, clock: seq<Ticks>, batches: Batches)
    requires |clock| > 0 && Nondecreasing(clock)
    requires lastRender <= lastUpdate <= clock[0]
    ensures match Iterate(lastRender, lastUpdate, clock, batches)
      case Quit(_) => true
      case Rendered(now, l, _, idle) =>
        && lastRender <= l <= now
        && (idle.Woke? ==> idle.at < |clock| && idle.now == clock[idle.at] && l <= idle.now)
  {
    IterationBounds(lastRender, lastUpdate, clock, batches);
    var r := Iterate(lastRender, lastUpdate, clock, batches);
    if r.Rendered? {
      IdleFacts(lastRender, r.lastUpdate, clock, 0);
    }
  }

  /**
   * The reading the iteration after `r` starts at, when `r` started at
   * reading `from`: the one after its wake-up, or `end` when it did not wake.
   */
  function NextReading(r: Iteration, from: nat, end: nat): nat
  {
    if r.Rendered? && r.idle.Woke? then from + r.idle.at + 1 else end
  }

  /**
   * A run on the readings from `from` on is its first iteration `r`,
   * followed, unless `r` quits, by the run from `r`'s next reading on, with
   * its clamped last update and the batches its catch-up passes left.
   */
  lemma RunStep(lastRender: Ticks, lastUpdate: Ticks, clock: seq<Ticks>, from: nat, batches: Batches, r: Iteration)
    requires from < |clock| && r == Iterate(lastRender, lastUpdate, clock[from..], batches)
    ensures r.Quit? ==> Run(lastRender, lastUpdate, clock[from..], batches) == [r]
    ensures r.Rendered? ==>
      && from < NextReading(r, from, |clock|) <= |clock|
      && Run(lastRender, lastUpdate, clock[from..], batches)
           == [r] + Run(lastRender, r.lastUpdate, clock[NextReading(r, from, |clock|)..], Drop(batches, r.passes))
  {
    assert Run(lastRender, lastUpdate, clock[from..], batches) == RunAfter(lastRender, r, clock[from..], batches);
    if r.Rendered? && r.idle.Woke? {
      assert clock[from..][r.idle.at + 1..] == clock[from + r.idle.at + 1..];
    } else if r.Rendered? {
      assert clock[|clock|..] == [];
    }
  }

  /** Every iteration but the last renders and wakes from its idle wait. */
  predicate StopsOnlyAtTheEnd(run: seq<Iteration>)
  {
    forall k | 0 <= k < |run| - 1 :: run[k].Rendered? && run[k].idle.Woke?
  }

  /** A run ends only by a quit, by an idle wait that outlasts the readings, or when no reading is left. */
  lemma {:induction false} RunStopsOnlyAtTheEnd(lastRender: Ticks, lastUpdate: Ticks, clock: seq<Ticks>, batches: Batches)
    ensures StopsOnlyAtTheEnd(Run(lastRender, lastUpdate, clock, batches))
    decreases |clock|
  {
    if clock != [] {
      var r := Iterate(lastRender, lastUpdate, clock, batches);
      if r.Rendered? && r.idle.Woke? {
        var tail := Run(lastRender, r.lastUpdate, clock[r.idle.at + 1..], Drop(batches, r.passes));
        var run := Run(lastRender, lastUpdate, clock, batches);
        assert run == RunAfter(lastRender, r, clock, batches);
        assert run == [r] + tail;
        RunStopsOnlyAtTheEnd(lastRender, r.lastUpdate, clock[r.idle.at + 1..], Drop(batches, r.passes));
        forall k | 1 <= k < |run| - 1
          ensures run[k].Rendered? && run[k].idle.Woke?
        {
          assert run[k] == tail[k - 1];
        }
      }
    }
  }

  /**
   * Every rendered iteration has its last update at most one tick behind its
   * reading and not ahead of it, and skips the idle wait once its reading is
   * 16 ms past `lastRender`.
   */
  predicate PacedUpdates(lastRender: Ticks, run: seq<Iteration>)
  {
    forall k | 0 <= k < |run| && run[k].Rendered? ::
      && run[k].lastUpdate <= run[k].now <= run[k].lastUpdate + TickMs
      && (lastRender + RenderMs <= run[k].now ==> run[k].idle == Woke(run[k].now, 0))
  }

  /**
   * With a clock that never goes back, started with `lastRender` not after
   * the last update and that not after the first reading, a run keeps its
   * updates paced; since `lastRender` is never reassigned, every
   * iteration whose reading is 16 ms past it skips the idle wait.
   */
  lemma {:induction false} RunPacesUpdates(lastRender: Ticks, lastUpdate: Ticks, clock: seq<Ticks>, batches: Batches)
    requires Nondecreasing(clock)
    requires lastRender <= lastUpdate && (clock != [] ==> lastUpdate <= clock[0])
    ensures PacedUpdates(lastRender, Run(lastRender, lastUpdate, clock, batches))
    decreases |clock|
  {
    if clock != [] {
      var r := Iterate(lastRender, lastUpdate, clock, batches);
      IterationBounds(lastRender, lastUpdate, clock, batches);
      IterationKeepsOrder(lastRender, lastUpdate, clock, batches);
      if r.Rendered? {
        if lastRender + RenderMs <= r.now {
          IdleEndsOnceStartIsPast(lastRender, r.lastUpdate, clock);
        }
        if r.idle.Woke? {
          var rest := clock[r.idle.at + 1..];
          assert Nondecreasing(rest);
          var tail := Run(lastRender, r.lastUpdate, rest, Drop(batches, r.passes));
          var run := Run(lastRender, lastUpdate, clock, batches);
          assert run == RunAfter(lastRender, r, clock, batches);
          assert run == [r] + tail;
          RunPacesUpdates(lastRender, r.lastUpdate, rest, Drop(batches, r.passes));
          forall k | 1 <= k < |run| && run[k].Rendered?
            ensures run[k].lastUpdate <= run[k].now <= run[k].lastUpdate + TickMs
            ensures lastRender + RenderMs <= run[k].now ==> run[k].idle == Woke(run[k].now, 0)
          {
            assert run[k] == tail[k - 1];
          }
        }
      }
    }
  }
}
