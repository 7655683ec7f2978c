/**
 * The running loop of `main` in src/glyphs.c: each outer iteration runs the
 * pacer's catch-up and clamp, renders "hello, world!" at (100, 100) with the
 * font's writer, and idles; a quit seen while draining events jumps to the
 * teardown of the glyph textures.
 */
module Glyphs {
  import opened Atlas
  import opened Pacer

  /** "hello, world!", the text every frame draws. */
  const Greeting: seq<Byte> := [104, 101, 108, 108, 111, 44, 32, 119, 111, 114, 108, 100, 33]

  /** The same text as the NUL-terminated C string literal. */
  const GreetingLiteral: seq<Byte> := Greeting + [0]

  const Origin: Point := Point(100, 100)

  /** The literal reads back as the greeting. */
  lemma GreetingLiteralText()
    ensures 0 in GreetingLiteral && GreetingLiteral[0] != 0
    ensures GreetingLiteral[..StrLen(GreetingLiteral)] == Greeting
  {
    assert GreetingLiteral[13] == 0;
    assert forall i | 0 <= i < 13 :: GreetingLiteral[i] != 0;
    assert StrLen(GreetingLiteral) == 13;
  }

  /**
   * One outer iteration of the running loop: catch-up, clamp, the render of
   * the greeting, and the idle wait; a quit skips the render and the wait.
   */
  method Frame(f: Font, lastRender: Ticks, lastUpdate: Ticks, clock: seq<Ticks>, batches: Batches)
    returns (r: Iteration, drawn: seq<Draw>)
    requires f.Valid() && |clock| > 0
    ensures r == Iterate(lastRender, lastUpdate, clock, batches)
    ensures r.Quit? ==> drawn == []
    ensures r.Rendered? ==> f.Line(Origin, Greeting, drawn)
  {
    var now := clock[0];
    var caught := CatchUpLoop(now, lastUpdate, batches);
    match caught {
      case Interrupted(p) =>
        return Quit(p), [];
      case CaughtUp(l, p) =>
        var last := Clamp(now, l);
        GreetingLiteralText();
        drawn := f.Write(Origin, GreetingLiteral);
        var idle := IdleWait(lastRender, last, clock);
        r := Rendered(now, last, p, idle);
    }
  }

  /**
   * The iteration of the running loop that starts at reading `from`: the
   * run from there is this iteration followed, unless it quits, by the run
   * from reading `next` on, with the clamped last update and the batches
   * its catch-up passes left.
   */
  method RunIteration(f: Font, lastRender: Ticks, lastUpdate: Ticks, clock: seq<Ticks>, from: nat, batches: Batches)
    returns (r: Iteration, drawn: seq<Draw>, next: nat)
    requires f.Valid() && from < |clock|
    ensures r.Quit? ==> drawn == [] && Run(lastRender, lastUpdate, clock[from..], batches) == [r]
    ensures r.Rendered? ==>
      && f.Line(Origin, Greeting, drawn)
      && from < next <= |clock|
      && Run(lastRender, lastUpdate, clock[from..], batches)
           == [r] + Run(lastRender, r.lastUpdate, clock[next..], Drop(batches, r.passes))
  {
    r, drawn := Frame(f, lastRender, lastUpdate, clock[from..], batches);
    RunStep(lastRender, lastUpdate, clock, from, batches, r);
    next := NextReading(r, from, |clock|);
  }

  /**
   * The `while (is_running)` loop from startup: the first two readings are
   * the last render and last update times, every later reading is taken by
   * an iteration. The iterations are the `Run` from those two times over
   * the rest of the readings and all the batches; each one renders the
   * greeting unless it quits, and a quit leaves the loop at once. The loop
   * also stops when the readings are used up.
   */
  method RunningLoop(f: Font, clock: seq<Ticks>, batches: Batches)
    returns (trace: seq<Iteration>, frames: seq<seq<Draw>>, quit: bool)
    requires f.Valid() && |clock| >= 2
    ensures trace == Run(clock[0], clock[1], clock[2..], batches)
    ensures quit <==> trace != [] && trace[|trace| - 1].Quit?
    ensures |frames| == |trace| - (if quit then 1 else 0)
    ensures forall k | 0 <= k < |frames| :: f.Line(Origin, Greeting, frames[k])
  {
    var lastRender := clock[0];
    var lastUpdate := clock[1];
    var c := 2;
    var pending := batches;
    ghost var run := Run(clock[0], clock[1], clock[2..], batches);
    ghost var todo := run;
    trace, frames, quit := [], [], false;
    while c < |clock|
      invariant 2 <= c <= |clock|
      invariant lastRender == clock[0]
      invariant run == trace + todo
      invariant todo == Run(lastRender, lastUpdate, clock[c..], pending)
      invariant forall k | 0 <= k < |trace| :: trace[k].Rendered?
      invariant |frames| == |trace|
      invariant forall k | 0 <= k < |frames| :: f.Line(Origin, Greeting, frames[k])
      decreases |clock| - c
    {
      var r, drawn, next := RunIteration(f, lastRender, lastUpdate, clock, c, pending);
      ghost var before := trace;
      trace := trace + [r];
      if r.Quit? {
        MoveHead(run, before, r, []);
        return trace, frames, true;
      }
      frames := frames + [drawn];
      todo := Run(lastRender, r.lastUpdate, clock[next..], Drop(pending, r.passes));
      MoveHead(run, before, r, todo);
      c, lastUpdate, pending := next, r.lastUpdate, Drop(pending, r.passes);
    }
    assert clock[c..] == [];
  }

  /**
   * `main` from the font's creation on: the running loop, then, after a quit,
   * the teardown of the glyph textures. Every iteration but a quitting last
   * one renders the greeting once; only the last iteration may quit or run
   * out of readings; a quit tears down the 255 textures of slots 1 to 255;
   * and with a clock that never goes back, every rendered iteration has its
   * last update at most 33 ms behind, and none idles once 16 ms have passed
   * since startup.
   */
  method MainLoop(f: Font, clock: seq<Ticks>, batches: Batches)
    returns (trace: seq<Iteration>, frames: seq<seq<Draw>>, destroyed: seq<nat>)
    requires f.Built() && |clock| >= 2
    ensures trace == Run(clock[0], clock[1], clock[2..], batches)
    ensures StopsOnlyAtTheEnd(trace)
    ensures |frames| == |trace| - (if trace != [] && trace[|trace| - 1].Quit? then 1 else 0)
    ensures forall k | 0 <= k < |frames| :: f.Line(Origin, Greeting, frames[k])
    ensures trace != [] && trace[|trace| - 1].Quit? ==>
      && destroyed == TexturedSlots(f.glyphs[..], f.glyphsLen)
      && |destroyed| == GlyphsCapacity - 1
    ensures !(trace != [] && trace[|trace| - 1].Quit?) ==> destroyed == []
    ensures Nondecreasing(clock) ==> PacedUpdates(clock[0], trace)
  {
    var quit;
    trace, frames, quit := RunningLoop(f, clock, batches);
    RunFacts(clock, batches);
    destroyed := [];
    if quit {
      destroyed := f.Teardown();
      BuiltTeardown(f);
    }
  }

  /** Moving the first of the iterations still to come onto the trace. */
  lemma MoveHead<T>(whole: seq<T>, done: seq<T>, x: T, rest: seq<T>)
    requires whole == done + ([x] + rest)
    ensures whole == (done + [x]) + rest
  {
  }

  /** The facts about `Run` the running loop's contract restates for its trace. */
  lemma RunFacts(clock: seq<Ticks>, batches: Batches)
    requires |clock| >= 2
    ensures StopsOnlyAtTheEnd(Run(clock[0], clock[1], clock[2..], batches))
    ensures Nondecreasing(clock) ==> PacedUpdates(clock[0], Run(clock[0], clock[1], clock[2..], batches))
  {
    RunStopsOnlyAtTheEnd(clock[0], clock[1], clock[2..], batches);
    if Nondecreasing(clock) {
      RunPacesUpdates(clock[0], clock[1], clock[2..], batches);
    }
  }
}
