/** The libretro core's clock and audio counters over whole sequences of runs. */
module FrameClock {
  import opened Arithmetic
  import opened Bytes

  const AUDIO_RATE: nat := 48000
  const DECLARED_FPS: nat := 60
  const TICK_NS: nat := 1_000_000_000 / DECLARED_FPS
  const MAX_AUDIO_FRAMES_PER_RUN: nat := 4096
  const CATCH_UPS_MAX: nat := 3

  /** Samples due after that many runs. */
  function Ideal(rate: nat, fps: nat, runs: nat): nat
    requires fps > 0
  {
    runs * rate / fps
  }

  /** `adapter_compute_audio_frames`. Products are 64-bit and the result is a C int. */
  function AudioFrames(rate: nat, fps: nat, pushed: nat, runs: nat): int {
    if fps == 0 then 0
    else
      var ideal := (runs + 1) * rate % U64 / fps;
      if ideal <= pushed then 0
      else
        var w := (ideal - pushed) % U32;
        if w < U32 / 2 then w else w - U32
  }

  /** No product wraps and the count fits the int. */
  predicate InRange(rate: nat, fps: nat, pushed: nat, runs: nat) {
    fps > 0 && (runs + 1) * rate < U64 && Ideal(rate, fps, runs + 1) < pushed + U32 / 2
  }

  /** In range, pushing the result lands exactly on the ideal count unless that is already passed. */
  lemma LandsOnIdeal(rate: nat, fps: nat, pushed: nat, runs: nat)
    requires InRange(rate, fps, pushed, runs)
    ensures var n := AudioFrames(rate, fps, pushed, runs);
            n >= 0 && pushed + n == if Ideal(rate, fps, runs + 1) <= pushed then pushed else Ideal(rate, fps, runs + 1)
  {
    Unwrapped((runs + 1) * rate);
    var ideal := Ideal(rate, fps, runs + 1);
    if ideal > pushed {
      assert (ideal - pushed) % U32 == ideal - pushed;
    }
  }

  lemma Unwrapped(x: nat)
    requires x < U64
    ensures x % U64 == x
  {
  }

  /** Updates made and time left by one run whose accumulator starts at `pre`. */
  function Updates(pre: nat): (u: nat)
    ensures u <= CATCH_UPS_MAX && u * TICK_NS <= pre
    ensures u < CATCH_UPS_MAX ==> pre < (u + 1) * TICK_NS
  {
    if pre < TICK_NS then 0 else if pre < 2 * TICK_NS then 1 else if pre < 3 * TICK_NS then 2 else 3
  }

  function Left(pre: nat): (left: nat)
    ensures left < TICK_NS && Updates(pre) * TICK_NS + left <= pre
  {
    Min(pre - Updates(pre) * TICK_NS, TICK_NS - 1)
  }

  function Dropped(pre: nat): nat {
    pre - Updates(pre) * TICK_NS - Left(pre)
  }

  /** Time is thrown away exactly when four ticks or more have piled up. */
  lemma DropsExactly(pre: nat)
    ensures Dropped(pre) == 0 <==> pre < 4 * TICK_NS
    ensures pre < 4 * TICK_NS ==> Updates(pre) == pre / TICK_NS && Left(pre) == pre % TICK_NS
    ensures pre >= 4 * TICK_NS ==> Updates(pre) == 3 && Left(pre) == TICK_NS - 1
  {
    var u := Updates(pre);
    if pre < 4 * TICK_NS {
      assert pre - u * TICK_NS < TICK_NS;
    }
  }

  class Core {
    var accumulator: nat
    var lastRun: nat
    var pushed: nat
    var runs: nat
    ghost var updates: nat  // updates made so far
    ghost var elapsed: nat  // wall-clock time seen so far
    ghost var dropped: nat  // time thrown away so far

    ghost predicate Valid()
      reads this
    {
      && accumulator < TICK_NS && elapsed == updates * TICK_NS + accumulator + dropped
      && pushed <= Ideal(AUDIO_RATE, DECLARED_FPS, runs)
    }

    constructor (now: nat)
      ensures Valid() && lastRun == now && accumulator == 0 && pushed == 0 && runs == 0
      ensures updates == 0 && elapsed == 0 && dropped == 0
    {
      accumulator, lastRun, pushed, runs := 0, now, 0, 0;
      updates, elapsed, dropped := 0, 0, 0;
    }

    /** The catch-up loop and the cap after it. */
    method CatchUp(delta: nat)
      requires accumulator < TICK_NS
      modifies this`accumulator, this`updates, this`dropped
      ensures var pre := old(accumulator) + delta;
              && accumulator == Left(pre) && updates == old(updates) + Updates(pre)
              && dropped == old(dropped) + Dropped(pre)
    {
      ghost var pre := accumulator + delta;
      accumulator := accumulator + delta;
      var catchUps := 0;
      while accumulator >= TICK_NS && catchUps < CATCH_UPS_MAX
        modifies this`accumulator, this`updates
        invariant 0 <= catchUps <= CATCH_UPS_MAX && accumulator == pre - catchUps * TICK_NS
        invariant updates == old(updates) + catchUps
        decreases CATCH_UPS_MAX - catchUps
      {
        updates := updates + 1;
        accumulator := accumulator - TICK_NS;
        catchUps := catchUps + 1;
      }
      assert catchUps == Updates(pre);
      dropped := dropped + Dropped(pre);
      if accumulator >= TICK_NS {
        accumulator := TICK_NS - 1;
      }
    }

    /** The audio half: the mixer hands over at most what it has. */
    method PushAudio(available: nat)
      requires pushed <= Ideal(AUDIO_RATE, DECLARED_FPS, runs)
      requires InRange(AUDIO_RATE, DECLARED_FPS, pushed, runs)
      modifies this`pushed, this`runs
      ensures runs == old(runs) + 1 && pushed <= Ideal(AUDIO_RATE, DECLARED_FPS, runs)
      ensures var owed := Ideal(AUDIO_RATE, DECLARED_FPS, runs) - old(pushed);
              pushed == old(pushed) + Min(available, Min(MAX_AUDIO_FRAMES_PER_RUN, owed))
    {
      LandsOnIdeal(AUDIO_RATE, DECLARED_FPS, pushed, runs);
      IdealGrows(AUDIO_RATE, DECLARED_FPS, runs);
      var target := AudioFrames(AUDIO_RATE, DECLARED_FPS, pushed, runs);
      if target > MAX_AUDIO_FRAMES_PER_RUN {
        target := MAX_AUDIO_FRAMES_PER_RUN;
      }
      var n := Min(available, target);
      pushed := pushed + n;
      runs := runs + 1;
    }

    /** `retro_run` in wall-clock mode. */
    method Run(now: nat, available: nat)
      requires Valid() && lastRun <= now && InRange(AUDIO_RATE, DECLARED_FPS, pushed, runs)
      modifies this
      ensures Valid() && lastRun == now && runs == old(runs) + 1
      ensures var pre := old(accumulator) + (now - old(lastRun));
              && elapsed == old(elapsed) + (now - old(lastRun)) && updates == old(updates) + Updates(pre)
              && accumulator == Left(pre) && dropped == old(dropped) + Dropped(pre)
      ensures var owed := Ideal(AUDIO_RATE, DECLARED_FPS, runs) - old(pushed);
              pushed == old(pushed) + Min(available, Min(MAX_AUDIO_FRAMES_PER_RUN, owed))
    {
      var delta := now - lastRun;
      lastRun := now;
      ghost var pre := accumulator + delta;
      elapsed := elapsed + delta;
      Accounted(updates, Updates(pre));
      CatchUp(delta);
      PushAudio(available);
    }

    /** `retro_run` with one update forced per call. */
    method RunForced(now: nat, available: nat)
      requires lastRun <= now && pushed <= Ideal(AUDIO_RATE, DECLARED_FPS, runs)
      requires InRange(AUDIO_RATE, DECLARED_FPS, pushed, runs)
      modifies this
      ensures updates == old(updates) + 1 && accumulator == 0 && lastRun == now && runs == old(runs) + 1
      ensures var owed := Ideal(AUDIO_RATE, DECLARED_FPS, runs) - old(pushed);
              pushed == old(pushed) + Min(available, Min(MAX_AUDIO_FRAMES_PER_RUN, owed))
    {
      lastRun := now;
      updates := updates + 1;
      accumulator := 0;
      PushAudio(available);
    }
  }

  lemma Accounted(u: nat, v: nat)
    ensures (u + v) * TICK_NS == u * TICK_NS + v * TICK_NS
  {
  }

  lemma IdealGrows(rate: nat, fps: nat, runs: nat)
    requires fps > 0
    ensures Ideal(rate, fps, runs) <= Ideal(rate, fps, runs + 1)
  {
    assert (runs + 1) * rate == runs * rate + rate;
    DivGrows(runs * rate, (runs + 1) * rate, fps);
  }

  // Whole sequences.

  /** The clock after runs at the given distances in time. */
  datatype Clock = Clock(accumulator: nat, updates: nat, dropped: nat)

  function Tick(c: Clock, delta: nat): Clock {
    var pre := c.accumulator + delta;
    Clock(Left(pre), c.updates + Updates(pre), c.dropped + Dropped(pre))
  }

  function Ticks(deltas: seq<nat>): Clock {
    if deltas == [] then Clock(0, 0, 0) else Tick(Ticks(deltas[..|deltas| - 1]), deltas[|deltas| - 1])
  }

  function Total(deltas: seq<nat>): nat {
    if deltas == [] then 0 else Total(deltas[..|deltas| - 1]) + deltas[|deltas| - 1]
  }

  /** However the runs are spaced: no time is lost that is not counted as dropped. */
  lemma {:induction false} TimeIsAccounted(deltas: seq<nat>)
    ensures var c := Ticks(deltas);
            && c.accumulator < TICK_NS && c.updates <= CATCH_UPS_MAX * |deltas|
            && Total(deltas) == c.updates * TICK_NS + c.accumulator + c.dropped
  {
    if deltas != [] {
      var front := deltas[..|deltas| - 1];
      TimeIsAccounted(front);
      Accounted(Ticks(front).updates, Updates(Ticks(front).accumulator + deltas[|deltas| - 1]));
    }
  }

  /** No run finds four ticks piled up. */
  predicate NeverLate(deltas: seq<nat>) {
    || deltas == []
    || (var front := deltas[..|deltas| - 1];
        NeverLate(front) && Ticks(front).accumulator + deltas[|deltas| - 1] < 4 * TICK_NS)
  }

  /** Then, and only then, the updates made are exactly the ticks that have gone by. */
  lemma {:induction false} OnTimeExactly(deltas: seq<nat>)
    ensures NeverLate(deltas) <==> Ticks(deltas).dropped == 0
    ensures NeverLate(deltas) ==>
              && Ticks(deltas).updates == Total(deltas) / TICK_NS
              && Ticks(deltas).accumulator == Total(deltas) % TICK_NS
  {
    TimeIsAccounted(deltas);
    if deltas != [] {
      var front := deltas[..|deltas| - 1];
      OnTimeExactly(front);
      DropsExactly(Ticks(front).accumulator + deltas[|deltas| - 1]);
    }
    if NeverLate(deltas) {
      Quotient(Total(deltas), Ticks(deltas).updates, Ticks(deltas).accumulator);
    }
  }

  lemma Quotient(t: nat, q: nat, r: nat)
    requires t == q * TICK_NS + r && r < TICK_NS
    ensures t / TICK_NS == q && t % TICK_NS == r
  {
  }

  /** Samples pushed after k runs with a full mixer. */
  function Pushed(rate: nat, fps: nat, k: nat): nat
    requires fps > 0
  {
    if k == 0 then 0
    else
      var p := Pushed(rate, fps, k - 1);
      p + (if Ideal(rate, fps, k) <= p then 0 else Min(MAX_AUDIO_FRAMES_PER_RUN, Ideal(rate, fps, k) - p))
  }

  /** Each run pushes what `adapter_compute_audio_frames` asks for, clamped. */
  lemma PushedStep(rate: nat, fps: nat, k: nat)
    requires fps > 0 && InRange(rate, fps, Pushed(rate, fps, k), k)
    ensures Pushed(rate, fps, k + 1)
         == Pushed(rate, fps, k) + Min(MAX_AUDIO_FRAMES_PER_RUN, AudioFrames(rate, fps, Pushed(rate, fps, k), k))
  {
    LandsOnIdeal(rate, fps, Pushed(rate, fps, k), k);
  }

  lemma {:induction false} NeverAhead(rate: nat, fps: nat, k: nat)
    requires fps > 0
    ensures Pushed(rate, fps, k) <= Ideal(rate, fps, k) && Pushed(rate, fps, k) <= MAX_AUDIO_FRAMES_PER_RUN * k
  {
    if k > 0 {
      NeverAhead(rate, fps, k - 1);
      IdealGrows(rate, fps, k - 1);
    } else {
      assert 0 * rate / fps == 0;
    }
  }

  lemma {:induction false} OnIdeal(rate: nat, fps: nat, k: nat)
    requires fps > 0 && rate <= MAX_AUDIO_FRAMES_PER_RUN * fps
    ensures Pushed(rate, fps, k) == Ideal(rate, fps, k)
  {
    if k > 0 {
      OnIdeal(rate, fps, k - 1);
      IdealGrows(rate, fps, k - 1);
      StepFits(rate, fps, k - 1);
    } else {
      assert 0 * rate / fps == 0;
    }
  }

  /** One run never owes more than the clamp. */
  lemma StepFits(rate: nat, fps: nat, k: nat)
    requires fps > 0 && rate <= MAX_AUDIO_FRAMES_PER_RUN * fps
    ensures Ideal(rate, fps, k + 1) <= Ideal(rate, fps, k) + MAX_AUDIO_FRAMES_PER_RUN
  {
    var x, m := k * rate, MAX_AUDIO_FRAMES_PER_RUN;
    assert (k + 1) * rate == x + rate;
    DivGrows(x + rate, x + fps * m, fps);
    DivPlus(x, m, fps);
  }

  lemma FallsBehind(rate: nat, fps: nat)
    requires fps > 0 && rate > MAX_AUDIO_FRAMES_PER_RUN * fps
    ensures Pushed(rate, fps, fps) < Ideal(rate, fps, fps)
  {
    NeverAhead(rate, fps, fps);
    DivideUp(fps, fps * rate, rate, 0);
  }

  /** With the mixer full, the total is floor(k * rate / fps) after every number of runs, exactly when
      the clamp is at least the rate's share of one run. */
  lemma ExactlyOnIdeal(rate: nat, fps: nat)
    requires fps > 0
    ensures (forall k: nat :: Pushed(rate, fps, k) == Ideal(rate, fps, k)) <==> rate <= MAX_AUDIO_FRAMES_PER_RUN * fps
  {
    if rate <= MAX_AUDIO_FRAMES_PER_RUN * fps {
      forall k: nat
        ensures Pushed(rate, fps, k) == Ideal(rate, fps, k)
      {
        OnIdeal(rate, fps, k);
      }
    } else {
      FallsBehind(rate, fps);
    }
  }

  /** The core's own constants: 800 samples a run, for ever. */
  lemma CoreOnIdeal(k: nat)
    ensures Pushed(AUDIO_RATE, DECLARED_FPS, k) == 800 * k
  {
    OnIdeal(AUDIO_RATE, DECLARED_FPS, k);
    DivPlus(0, 800 * k, DECLARED_FPS);
  }

  // The core's own runs.

  /** When run i happens; run 0 comes after the core was made at `start`. */
  function Since(start: nat, times: seq<nat>, i: nat): nat
    requires i <= |times|
  {
    if i == 0 then start else times[i - 1]
  }

  predicate Forward(start: nat, times: seq<nat>) {
    forall i :: 0 <= i < |times| ==> Since(start, times, i) <= times[i]
  }

  /** The time between each run and the one before it. */
  function Deltas(start: nat, times: seq<nat>): (ds: seq<nat>)
    requires Forward(start, times)
    ensures |ds| == |times| && forall i :: 0 <= i < |times| ==> ds[i] == times[i] - Since(start, times, i)
  {
    seq(|times|, i requires 0 <= i < |times| => times[i] - Since(start, times, i))
  }

  lemma NextInRange(runs: nat)
    requires (runs + 1) * AUDIO_RATE < U64
    ensures InRange(AUDIO_RATE, DECLARED_FPS, Pushed(AUDIO_RATE, DECLARED_FPS, runs), runs)
    ensures var p := Pushed(AUDIO_RATE, DECLARED_FPS, runs);
            Pushed(AUDIO_RATE, DECLARED_FPS, runs + 1)
              == p + Min(MAX_AUDIO_FRAMES_PER_RUN, Ideal(AUDIO_RATE, DECLARED_FPS, runs + 1) - p)
  {
    OnIdeal(AUDIO_RATE, DECLARED_FPS, runs);
    StepFits(AUDIO_RATE, DECLARED_FPS, runs);
    IdealGrows(AUDIO_RATE, DECLARED_FPS, runs);
  }

  /** The core is where the two recurrences are after those runs. */
  ghost predicate Follows(core: Core, deltas: seq<nat>)
    reads core
  {
    && core.Valid() && core.runs == |deltas| && core.elapsed == Total(deltas)
    && Clock(core.accumulator, core.updates, core.dropped) == Ticks(deltas)
    && core.pushed == Pushed(AUDIO_RATE, DECLARED_FPS, |deltas|)
  }

  method RunFull(core: Core, now: nat, ghost ds: seq<nat>, ghost i: nat)
    requires i < |ds| && Follows(core, ds[..i]) && core.lastRun + ds[i] == now && (i + 1) * AUDIO_RATE < U64
    modifies core
    ensures Follows(core, ds[..i + 1]) && core.lastRun == now
  {
    NextInRange(i);
    ghost var next := ds[..i + 1];
    assert next[..|next| - 1] == ds[..i];
    core.Run(now, MAX_AUDIO_FRAMES_PER_RUN);
  }

  /** A core that is run at those times with a full mixer goes through exactly the clock and the sample
      count of the two recurrences. */
  method RunAll(start: nat, times: seq<nat>) returns (core: Core)
    requires Forward(start, times) && |times| * AUDIO_RATE < U64
    ensures fresh(core) && Follows(core, Deltas(start, times)) && core.lastRun == Since(start, times, |times|)
  {
    core := new Core(start);
    ghost var ds := Deltas(start, times);
    for i := 0 to |times|
      invariant fresh(core) && Follows(core, ds[..i]) && core.lastRun == Since(start, times, i)
    {
      RunFull(core, times[i], ds, i);
    }
    assert ds[..|times|] == ds;
  }
}
