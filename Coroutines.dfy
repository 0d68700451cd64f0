/** Model of the job scheduler of `CoM` (Unidirect/Helpers/CoM.cs): `CoroutineJob` is a
    countdown that calls its action every so many seconds and/or frames, after an optional
    start delay, a given number of times; `CoM` keeps the active jobs in a linked list,
    visits them once per frame from a coroutine, and recycles finished jobs through a pool.

    Callbacks (the job's `Action` and its `OnComplete` subscribers) are opaque ids, and
    calling them is recorded in a trace. An action may dispose its own job: the set `quits`
    of a tick names the actions that do. Other effects of callbacks on the scheduler are
    not modelled.
    Seconds are exact reals; frame counters and repeat counts are C# `int`s, whose unchecked
    decrement wraps at `int.MinValue`. */
module Coroutines {
  import opened LinkedLists
  import Stacks

  const MinInt: int := -0x8000_0000
  const MaxInt: int := 0x7fff_ffff

  /** A C# `int`. */
  type Int32 = x: int | -0x8000_0000 <= x <= 0x7fff_ffff

  /** A `null` delegate. */
  const NoCallback: int := 0

  /** C#'s unchecked `--x`. */
  function Dec(x: Int32): (r: Int32)
    ensures x > MinInt ==> r == x - 1
    ensures x == MinInt ==> r == MaxInt
    ensures r == (x - 1 - MinInt) % 0x1_0000_0000 + MinInt
  {
    if x == -0x8000_0000 then 0x7fff_ffff else x - 1
  }

  /** The counters of one `CoroutineJob`. */
  datatype Countdown = Countdown(
    initSeconds: real, initFrames: Int32,   // the period, `_initSeconds` and `_initFrames`
    seconds: real, frames: Int32,           // what is left of it, `_seconds` and `_frames`
    delaySeconds: real, delayFrames: Int32, // what is left of the start delay
    hasDelay: bool,                         // `_hasDelay`
    times: Int32)                           // repeats left, `int.MaxValue` for no limit

  /** What `_Reset` leaves: both dimensions of the period unset at -1, no start delay, and
      no limit on repeats. */
  const Unset := Countdown(-1.0, -1, -1.0, -1, 0.0, 0, false, 0x7fff_ffff)

  /** The repeat count after a call: `int.MaxValue` stays, any other count goes down by
      one and stops at 0. */
  function Counted(times: Int32): (r: Int32)
    ensures times == MaxInt ==> r == MaxInt
    ensures 0 < times < MaxInt ==> r == times - 1
    ensures times <= 0 ==> r == 0 || times == MinInt
    ensures r >= 0
  {
    if times < 0x7fff_ffff then
      var t := Dec(times);
      if t > 0 then t else 0
    else times
  }

  /** What one `Process(timeStep)` does to the counters. */
  datatype Outcome = Outcome(next: Countdown, fired: bool, done: bool)

  /** `Process(timeStep)`: while a start delay is pending, only the delay counts down;
      otherwise both period counters count down, and the action is called when neither is
      above 0, after which the period starts again and one repeat is used up.  The result
      says whether the job is finished. */
  function Step(c: Countdown, timeStep: real): (o: Outcome)
    ensures o.fired <==> !c.hasDelay && c.seconds - timeStep <= 0.0 && Dec(c.frames) <= 0
    ensures o.done <==> o.fired && o.next.times == 0
    ensures c.hasDelay ==>
      o.next == c.(delaySeconds := c.delaySeconds - timeStep, delayFrames := Dec(c.delayFrames),
                   hasDelay := c.delaySeconds - timeStep > 0.0 || Dec(c.delayFrames) > 0)
    ensures o.fired ==> o.next == c.(seconds := c.initSeconds, frames := c.initFrames, times := Counted(c.times))
    ensures !c.hasDelay && !o.fired ==> o.next == c.(seconds := c.seconds - timeStep, frames := Dec(c.frames))
    ensures c.times == MaxInt ==> !o.done
    ensures c.times == 1 && o.fired ==> o.done
  {
    if c.hasDelay then
      var ds, df := c.delaySeconds - timeStep, Dec(c.delayFrames);
      Outcome(c.(delaySeconds := ds, delayFrames := df, hasDelay := ds > 0.0 || df > 0), false, false)
    else
      var s, f := c.seconds - timeStep, Dec(c.frames);
      if s > 0.0 || f > 0 then
        Outcome(c.(seconds := s, frames := f), false, false)
      else
        var t := Counted(c.times);
        Outcome(c.(seconds := c.initSeconds, frames := c.initFrames, times := t), true, t == 0)
  }

  /** `Process` called once per time step of `steps`, ignoring whether the job finished:
      the final counters, and for each call whether the action was called. */
  function Run(c: Countdown, steps: seq<real>): (r: (Countdown, seq<bool>))
    ensures |r.1| == |steps|
    decreases |steps|
  {
    if steps == [] then (c, [])
    else
      var o := Step(c, steps[0]);
      var rest := Run(o.next, steps[1..]);
      (rest.0, [o.fired] + rest.1)
  }

  /** No time step is negative. */
  ghost predicate Forward(steps: seq<real>)
  {
    forall i :: 0 <= i < |steps| ==> steps[i] >= 0.0
  }

  /** A job counting frames, whose seconds are unset or used up, calls its action at the
      `frames`th call and not before, and then starts its period again. */
  lemma {:induction false} FramesCountDown(c: Countdown, steps: seq<real>)
    requires !c.hasDelay && c.initSeconds <= 0.0 && c.seconds <= 0.0
    requires 1 <= c.frames && |steps| == c.frames && Forward(steps)
    ensures Run(c, steps).1 == seq(|steps| - 1, _ => false) + [true]
    ensures Run(c, steps).0 == c.(seconds := c.initSeconds, frames := c.initFrames, times := Counted(c.times))
    decreases c.frames
  {
    var o := Step(c, steps[0]);
    if c.frames > 1 {
      assert steps[1..][0] == steps[1];
      FramesCountDown(o.next, steps[1..]);
      assert [false] + (seq(|steps| - 2, _ => false) + [true]) == seq(|steps| - 1, _ => false) + [true];
    }
  }

  /** `InFrames(n)` on a reset job: the action is called every `n`th frame, for ever. */
  lemma EveryFrames(n: Int32, steps: seq<real>)
    requires 1 <= n && |steps| == n && Forward(steps)
    ensures Run(Unset.(initFrames := n, frames := n), steps) ==
            (Unset.(initFrames := n, frames := n), seq(n - 1, _ => false) + [true])
  {
    FramesCountDown(Unset.(initFrames := n, frames := n), steps);
  }

  /** A start delay of `d` frames (and no seconds) swallows the first `d` calls and then
      ends, leaving the period as it was. */
  lemma {:induction false} DelayFramesSwallowed(c: Countdown, steps: seq<real>)
    requires c.hasDelay && c.delaySeconds <= 0.0
    requires 1 <= c.delayFrames && |steps| == c.delayFrames && Forward(steps)
    ensures Run(c, steps).1 == seq(|steps|, _ => false)
    ensures Run(c, steps).0.(delaySeconds := c.delaySeconds) == c.(delayFrames := 0, hasDelay := false)
    decreases c.delayFrames
  {
    var o := Step(c, steps[0]);
    if c.delayFrames > 1 {
      assert steps[1..][0] == steps[1];
      DelayFramesSwallowed(o.next, steps[1..]);
      assert [false] + seq(|steps| - 1, _ => false) == seq(|steps|, _ => false);
    }
  }

  /** A reset job that is given neither seconds nor frames calls its action on every
      call, for ever: an unset dimension never holds the job back. */
  lemma {:induction false} UnsetFiresEveryCall(steps: seq<real>)
    requires Forward(steps)
    ensures Run(Unset, steps).0 == Unset
    ensures Run(Unset, steps).1 == seq(|steps|, _ => true)
    decreases |steps|
  {
    if steps != [] {
      assert Forward(steps[1..]) by {
        assert forall i :: 0 <= i < |steps| - 1 ==> steps[1..][i] == steps[i + 1];
      }
      assert steps[0] >= 0.0;
      assert Step(Unset, steps[0]) == Outcome(Unset, true, false);
      UnsetFiresEveryCall(steps[1..]);
      assert Run(Unset, steps) == (Run(Unset, steps[1..]).0, [true] + Run(Unset, steps[1..]).1);
      assert [true] + seq(|steps| - 1, _ => true) == seq(|steps|, _ => true);
    }
  }

  /** How many of `flags` are set: the calls of the action over a run. */
  function Firings(flags: seq<bool>): (r: nat)
    ensures r <= |flags|
  {
    if flags == [] then 0 else (if flags[0] then 1 else 0) + Firings(flags[1..])
  }

  /** A limited repeat count goes down by one at each call of the action and nowhere else,
      and stops at 0. */
  lemma {:induction false} TimesCountDown(c: Countdown, steps: seq<real>)
    requires 0 <= c.times < MaxInt
    ensures var r := Run(c, steps);
      r.0.times == if Firings(r.1) >= c.times then 0 else c.times - Firings(r.1)
    decreases |steps|
  {
    if steps != [] {
      var o := Step(c, steps[0]);
      TimesCountDown(o.next, steps[1..]);
      assert Run(c, steps).1 == [o.fired] + Run(o.next, steps[1..]).1;
      assert ([o.fired] + Run(o.next, steps[1..]).1)[1..] == Run(o.next, steps[1..]).1;
    }
  }

  /** A job limited to `times` calls, `Times(times)`, is done at the `times`th call of its
      action and at no call before: after any run, the next `Process` is done exactly when it
      fires and the calls so far and this one reach `times`. */
  lemma DoneAtTimesthFiring(c: Countdown, steps: seq<real>, timeStep: real)
    requires 1 <= c.times < MaxInt
    ensures var r := Run(c, steps);
      Step(r.0, timeStep).done <==> Step(r.0, timeStep).fired && Firings(r.1) + 1 >= c.times
  {
    TimesCountDown(c, steps);
  }

  /** A job counting seconds, whose frames are unset or used up, called with a fixed time
      step `dt` calls its action at the call that uses up its seconds and not before, and
      then starts its period again. */
  lemma {:induction false} SecondsCountDown(c: Countdown, steps: seq<real>, dt: real)
    requires !c.hasDelay && dt > 0.0 && |steps| >= 1
    requires forall i :: 0 <= i < |steps| ==> steps[i] == dt
    requires c.seconds == |steps| as real * dt
    requires MinInt + |steps| <= c.frames <= 0
    ensures Run(c, steps).1 == seq(|steps| - 1, _ => false) + [true]
    ensures Run(c, steps).0 == c.(seconds := c.initSeconds, frames := c.initFrames, times := Counted(c.times))
    decreases |steps|
  {
    var n := |steps|;
    assert steps[0] == dt;
    if n > 1 {
      assert c.seconds - dt == (n - 1) as real * dt;
      Stacks.MulStrict(0.0, (n - 1) as real, dt);
      var o := Step(c, steps[0]);
      assert o.next == c.(seconds := (n - 1) as real * dt, frames := c.frames - 1);
      assert forall i :: 0 <= i < n - 1 ==> steps[1..][i] == steps[i + 1];
      SecondsCountDown(o.next, steps[1..], dt);
      assert [false] + (seq(n - 2, _ => false) + [true]) == seq(n - 1, _ => false) + [true];
    }
  }

  /** A run made of two runs. */
  lemma {:induction false} RunAppend(c: Countdown, xs: seq<real>, ys: seq<real>)
    ensures Run(c, xs + ys) == (Run(Run(c, xs).0, ys).0, Run(c, xs).1 + Run(Run(c, xs).0, ys).1)
    decreases |xs|
  {
    if xs == [] {
      assert xs + ys == ys && Run(c, xs) == (c, []);
      assert [] + Run(c, ys).1 == Run(c, ys).1;
    } else {
      var o := Step(c, xs[0]);
      assert (xs + ys)[0] == xs[0] && (xs + ys)[1..] == xs[1..] + ys;
      RunAppend(o.next, xs[1..], ys);
      var mid := Run(o.next, xs[1..]);
      assert Run(c, xs) == (mid.0, [o.fired] + mid.1);
      assert Run(c, xs + ys) == (Run(o.next, xs[1..] + ys).0, [o.fired] + Run(o.next, xs[1..] + ys).1);
      assert [o.fired] + (mid.1 + Run(mid.0, ys).1) == ([o.fired] + mid.1) + Run(mid.0, ys).1;
    }
  }

  /** `InSeconds(2).Times(3)` on a reset job, called once a second: the action is called
      every other second, and the job is done at the third call, after six seconds. */
  lemma EveryTwoSecondsThreeTimes()
    ensures var c := Unset.(initSeconds := 2.0, seconds := 2.0, times := 3);
      var r := Run(c, [1.0, 1.0, 1.0, 1.0, 1.0]);
      && Run(c, [1.0, 1.0, 1.0, 1.0, 1.0, 1.0]) == (c.(times := 0), [false, true, false, true, false, true])
      && Step(r.0, 1.0).done
  {
    var c := Unset.(initSeconds := 2.0, seconds := 2.0, times := 3);
    var two := [1.0, 1.0];
    SecondsCountDown(c, two, 1.0);
    SecondsCountDown(c.(times := 2), two, 1.0);
    SecondsCountDown(c.(times := 1), two, 1.0);
    assert Run(c, two).0 == c.(times := 2);
    RunAppend(c, two, two);
    assert Run(c, two + two).0 == c.(times := 1);
    RunAppend(c, two + two, two);
    assert Run(c, two + two + two).0 == c.(times := 0);
    assert seq(1, _ => false) + [true] == [false, true];
    assert Run(c, two + two + two).1 == [false, true] + [false, true] + [false, true];
    assert [false, true] + [false, true] + [false, true] == [false, true, false, true, false, true];
    assert Run(c, [1.0, 1.0, 1.0, 1.0, 1.0, 1.0]).1 == [false, true, false, true, false, true];
    var five := [1.0, 1.0, 1.0, 1.0, 1.0];
    assert two + two + two == five + [1.0] == [1.0, 1.0, 1.0, 1.0, 1.0, 1.0];
    RunAppend(c, five, [1.0]);
    DoneAtTimesthFiring(c, [1.0, 1.0, 1.0, 1.0, 1.0], 1.0);
  }

  /** Everything of a `CoroutineJob` that a tick reads or writes. */
  datatype JobState = JobState(clock: Countdown, paused: bool, action: int, onComplete: seq<int>)

  /** A job after `Put`: reset, with its `OnComplete` subscribers kept. */
  function Recycled(s: JobState): JobState
  {
    JobState(Unset, false, NoCallback, s.onComplete)
  }

  /** `CoroutineJob`.  `Node`, and so `IsDisposed`, belongs to the scheduler's list; see
      `Scheduler.IsDisposed`. */
  class Job {
    var initSeconds: real
    var initFrames: Int32
    var seconds: real
    var frames: Int32
    var delaySeconds: real
    var delayFrames: Int32
    var hasDelay: bool
    var times: Int32
    /** `_method`, `IsPaused`, and the subscribers of `OnComplete` in subscription order. */
    var action: int
    var isPaused: bool
    var onComplete: seq<int>

    function Clock(): Countdown
      reads this
    {
      Countdown(initSeconds, initFrames, seconds, frames, delaySeconds, delayFrames, hasDelay, times)
    }

    function State(): JobState
      reads this
    {
      JobState(Clock(), isPaused, action, onComplete)
    }

    /** `CoroutineJob(action, isPaused)`: `_Reset`, then `Set`. */
    constructor (action: int, isPaused: bool)
      ensures State() == JobState(Unset, isPaused, action, [])
    {
      onComplete := [];
      new;
      Reset();
      Set(action, isPaused);
    }

    /** `Set`. */
    method Set(action: int, isPaused: bool)
      modifies this
      ensures State() == old(State()).(action := action, paused := isPaused)
    {
      this.action := action;
      this.isPaused := isPaused;
    }

    /** The `IsPaused` setter. */
    method SetPaused(isPaused: bool)
      modifies this
      ensures State() == old(State()).(paused := isPaused)
    {
      this.isPaused := isPaused;
    }

    /** `InFrames(frames)`: the period in frames, starting afresh. */
    method InFrames(frames: Int32)
      modifies this
      ensures State() == old(State()).(clock := old(Clock()).(initFrames := frames, frames := frames))
    {
      initFrames := frames;
      this.frames := initFrames;
    }

    /** `InSeconds(seconds)`: the period in seconds, starting afresh. */
    method InSeconds(seconds: real)
      modifies this
      ensures State() == old(State()).(clock := old(Clock()).(initSeconds := seconds, seconds := seconds))
    {
      initSeconds := seconds;
      this.seconds := initSeconds;
    }

    /** `Times(times)`. */
    method Times(times: Int32)
      modifies this
      ensures State() == old(State()).(clock := old(Clock()).(times := times))
    {
      this.times := times;
    }

    /** `DelaySeconds(seconds)`: a start delay in seconds.  Whether there is a delay is
        decided by the seconds alone, so a delay in frames set before is dropped when
        `seconds <= 0`. */
    method DelaySeconds(seconds: real)
      modifies this
      ensures State() == old(State()).(clock := old(Clock()).(delaySeconds := seconds, hasDelay := seconds > 0.0))
    {
      delaySeconds := seconds;
      hasDelay := delaySeconds > 0.0;
    }

    /** `DelayFrames(frames)`: a start delay in frames, decided by the frames alone. */
    method DelayFrames(frames: Int32)
      modifies this
      ensures State() == old(State()).(clock := old(Clock()).(delayFrames := frames, hasDelay := frames > 0))
    {
      delayFrames := frames;
      hasDelay := delayFrames > 0;
    }

    /** `OnComplete += handler`; adding `null` changes nothing. */
    method Subscribe(handler: int)
      modifies this
      ensures State() == old(State()).(onComplete := if handler == NoCallback then old(onComplete)
                                                      else old(onComplete) + [handler])
    {
      if handler != NoCallback {
        onComplete := onComplete + [handler];
      }
    }

    /** `Process(timeStep)`, proved to be `Step`.  `fired` records the call of `_method`,
        which throws when the action is `null`. */
    method Process(timeStep: real) returns (done: bool, fired: bool)
      requires Step(Clock(), timeStep).fired ==> action != NoCallback
      modifies this
      ensures Clock() == Step(old(Clock()), timeStep).next
      ensures fired == Step(old(Clock()), timeStep).fired && done == Step(old(Clock()), timeStep).done
      ensures isPaused == old(isPaused) && action == old(action) && onComplete == old(onComplete)
    {
      if hasDelay {
        delaySeconds := delaySeconds - timeStep;
        delayFrames := Dec(delayFrames);
        hasDelay := delaySeconds > 0.0 || delayFrames > 0;
        return false, false;
      }
      seconds := seconds - timeStep;
      frames := Dec(frames);
      if seconds > 0.0 || frames > 0 {
        return false, false;
      }
      fired := true;
      seconds := initSeconds;
      frames := initFrames;
      if times < 0x7fff_ffff {
        times := Dec(times);
        times := if times > 0 then times else 0;
      }
      done := times == 0;
    }

    /** `_Reset`: every counter back to `Unset`, not paused, no action; the `OnComplete`
        subscribers stay. */
    method Reset()
      modifies this
      ensures State() == Recycled(old(State()))
    {
      initSeconds, initFrames := -1.0, -1;
      seconds, frames := -1.0, -1;
      delaySeconds, delayFrames := 0.0, 0;
      hasDelay := false;
      isPaused := false;
      times := 0x7fff_ffff;
      action := NoCallback;
    }
  }

  /** The static job `Pool` of `CoroutineJob`, top last. */
  class JobPool {
    var stack: seq<Job>

    constructor ()
      ensures stack == []
    {
      stack := [];
    }

    /** `Get(action, isPaused)`: the top pooled job, set to `action` and `isPaused`, or a
        new job when the pool is empty. */
    method Get(action: int, isPaused: bool) returns (job: Job)
      modifies this, if stack != [] then {stack[|stack| - 1]} else {}
      ensures old(stack) == [] ==> fresh(job) && stack == [] && job.State() == JobState(Unset, isPaused, action, [])
      ensures old(stack) != [] ==>
        job == old(stack[|stack| - 1]) && stack == old(stack[..|stack| - 1])
        && job.State() == old(job.State()).(action := action, paused := isPaused)
    {
      if |stack| == 0 {
        job := new Job(action, isPaused);
        return;
      }
      job := stack[|stack| - 1];
      stack := stack[..|stack| - 1];
      job.Set(action, isPaused);
    }

    /** `Put(job)`: resets the job and pushes it. */
    method Put(job: Job)
      modifies this, job
      ensures stack == old(stack) + [job] && job.State() == Recycled(old(job.State()))
    {
      job.Reset();
      stack := stack + [job];
    }

    /** `Clear`. */
    method Clear()
      modifies this
      ensures stack == []
    {
      stack := [];
    }
  }

  /** The states of `js`, in order. */
  ghost function States(js: seq<Job>): (r: seq<JobState>)
    reads js
    ensures |r| == |js| && forall i {:trigger r[i]} :: 0 <= i < |js| ==> r[i] == js[i].State()
  {
    if js == [] then [] else States(js[..|js| - 1]) + [js[|js| - 1].State()]
  }

  /** A visit in a tick disposes the job: it is not paused and either `Process` says it is
      done, or it fires an action of `quits`, the actions that dispose their own job. */
  predicate Finishes(s: JobState, dt: real, quits: set<int>)
  {
    !s.paused && (Step(s.clock, dt).done || (Step(s.clock, dt).fired && s.action in quits))
  }

  /** A visit in a tick does not call a `null` action. */
  predicate Callable(s: JobState, dt: real)
  {
    s.paused || !Step(s.clock, dt).fired || s.action != NoCallback
  }

  /** No visit of a tick over jobs in the states `states` calls a `null` action. */
  predicate AllCallable(states: seq<JobState>, dt: real)
  {
    states == [] || (AllCallable(states[..|states| - 1], dt) && Callable(states[|states| - 1], dt))
  }

  /** A job whose visit does not call a `null` action, added at the end. */
  lemma CallableAppend(states: seq<JobState>, s: JobState, dt: real)
    requires AllCallable(states, dt) && Callable(s, dt)
    ensures AllCallable(states + [s], dt)
  {
    assert (states + [s])[..|states|] == states;
  }

  lemma {:induction false} CallableAt(states: seq<JobState>, k: int, dt: real)
    requires AllCallable(states, dt) && 0 <= k < |states|
    ensures Callable(states[k], dt)
    decreases |states|
  {
    if k < |states| - 1 {
      CallableAt(states[..|states| - 1], k, dt);
    }
  }

  /** A job after its visit in a tick: untouched while paused, recycled when finished,
      otherwise moved on by `Process`. */
  function After(s: JobState, dt: real, quits: set<int>): (r: JobState)
    ensures s.paused ==> r == s
    ensures Finishes(s, dt, quits) ==> r == Recycled(s)
    ensures !s.paused && !Finishes(s, dt, quits) ==> r == s.(clock := Step(s.clock, dt).next)
    ensures r.onComplete == s.onComplete
  {
    if s.paused then s
    else
      var o := Step(s.clock, dt);
      if o.done || (o.fired && s.action in quits) then Recycled(s) else s.(clock := o.next)
  }

  /** The callbacks a visit calls, in order: the action when `Process` fires it, then the
      `OnComplete` subscribers when the job is disposed. */
  function Calls(s: JobState, dt: real, quits: set<int>): (r: seq<int>)
    ensures s.paused ==> r == []
    ensures !s.paused && Step(s.clock, dt).fired && !Finishes(s, dt, quits) ==> r == [s.action]
    ensures Finishes(s, dt, quits) ==> r == [s.action] + s.onComplete
    ensures !s.paused && !Step(s.clock, dt).fired ==> r == []
  {
    if s.paused then []
    else
      var o := Step(s.clock, dt);
      (if o.fired then [s.action] else []) + (if o.done || (o.fired && s.action in quits) then s.onComplete else [])
  }

  /** What a visit in a tick does to one job: its state afterwards, the callbacks called,
      and whether the job is disposed. */
  datatype Fate = Fate(after: JobState, calls: seq<int>, finishes: bool)

  /** The fate of each job of a tick over jobs in the states `states`. */
  function Fates(states: seq<JobState>, dt: real, quits: set<int>): (r: seq<Fate>)
    ensures |r| == |states|
  {
    if states == [] then []
    else
      var s := states[|states| - 1];
      Fates(states[..|states| - 1], dt, quits) + [Fate(After(s, dt, quits), Calls(s, dt, quits), Finishes(s, dt, quits))]
  }

  lemma {:induction false} FateAt(states: seq<JobState>, i: int, dt: real, quits: set<int>)
    requires 0 <= i < |states|
    ensures Fates(states, dt, quits)[i] == Fate(After(states[i], dt, quits), Calls(states[i], dt, quits), Finishes(states[i], dt, quits))
    decreases |states|
  {
    if i < |states| - 1 {
      FateAt(states[..|states| - 1], i, dt, quits);
    }
  }

  /** The callbacks a tick calls while visiting the first `n` jobs. */
  function Traced(fates: seq<Fate>, n: nat): seq<int>
    requires n <= |fates|
  {
    if n == 0 then [] else Traced(fates, n - 1) + fates[n - 1].calls
  }

  /** The jobs among the first `n` of `walk` that a tick keeps in the list, in their order. */
  function Kept(walk: seq<Job>, fates: seq<Fate>, n: nat): (r: seq<Job>)
    requires n <= |walk| == |fates|
    ensures forall x :: x in r ==> x in walk[..n]
  {
    if n == 0 then []
    else if fates[n - 1].finishes then Kept(walk, fates, n - 1)
    else Kept(walk, fates, n - 1) + [walk[n - 1]]
  }

  /** The jobs among the first `n` of `walk` that a tick disposes, in the order they reach the
      pool. */
  function Finished(walk: seq<Job>, fates: seq<Fate>, n: nat): (r: seq<Job>)
    requires n <= |walk| == |fates|
    ensures forall x :: x in r ==> x in walk[..n]
  {
    if n == 0 then []
    else if fates[n - 1].finishes then Finished(walk, fates, n - 1) + [walk[n - 1]]
    else Finished(walk, fates, n - 1)
  }

  /** Every job a tick visits is either kept or disposed, and not both. */
  lemma {:induction false} KeptOrFinished(walk: seq<Job>, fates: seq<Fate>, n: nat)
    requires n <= |walk| == |fates|
    ensures multiset(Kept(walk, fates, n)) + multiset(Finished(walk, fates, n)) == multiset(walk[..n])
  {
    if n > 0 {
      KeptOrFinished(walk, fates, n - 1);
      assert walk[..n] == walk[..n - 1] + [walk[n - 1]];
      SplitStep(Kept(walk, fates, n - 1), Finished(walk, fates, n - 1), walk[..n - 1],
                Kept(walk, fates, n), Finished(walk, fates, n), walk[..n], walk[n - 1]);
    }
  }

  /** Adding one element to a sequence and to exactly one of two parts of it keeps the parts
      a split of it. */
  lemma SplitStep<X>(a: seq<X>, b: seq<X>, s: seq<X>, a': seq<X>, b': seq<X>, s': seq<X>, x: X)
    requires multiset(a) + multiset(b) == multiset(s) && s' == s + [x]
    requires (a' == a + [x] && b' == b) || (a' == a && b' == b + [x])
    ensures multiset(a') + multiset(b') == multiset(s')
  {
  }

  /** A visited job that does not finish stays in the list; one that finishes is pooled. */
  lemma {:induction false} KeptAt(walk: seq<Job>, fates: seq<Fate>, n: nat, i: int)
    requires n <= |walk| == |fates| && 0 <= i < n
    ensures !fates[i].finishes ==> walk[i] in Kept(walk, fates, n)
    ensures fates[i].finishes ==> walk[i] in Finished(walk, fates, n)
  {
    if i < n - 1 {
      KeptAt(walk, fates, n - 1, i);
    }
  }

  /** An element of a sequence without repetitions occurs in it once. */
  lemma {:induction false} OccursOnce<X>(s: seq<X>, i: int)
    requires Distinct(s) && 0 <= i < |s|
    ensures multiset(s)[s[i]] == 1
    decreases |s|
  {
    var t := s[..|s| - 1];
    assert s == t + [s[|s| - 1]];
    if i < |s| - 1 {
      OccursOnce(t, i);
      assert s[i] == t[i];
    }
  }

  /** With every job in the list once, a job stays after a whole tick exactly when it does not
      finish. */
  lemma KeptIff(walk: seq<Job>, fates: seq<Fate>, i: int)
    requires Distinct(walk) && |walk| == |fates| && 0 <= i < |walk|
    ensures walk[i] in Kept(walk, fates, |walk|) <==> !fates[i].finishes
  {
    var n := |walk|;
    assert walk[..n] == walk;
    KeptAt(walk, fates, n, i);
    KeptOrFinished(walk, fates, n);
    OccursOnce(walk, i);
  }

  /** The states of the jobs of a tick once the first `n` have been visited. */
  function Advanced(states: seq<JobState>, fates: seq<Fate>, n: nat): (r: seq<JobState>)
    requires n <= |states| == |fates|
    ensures |r| == |states|
    ensures forall i {:trigger r[i]} :: 0 <= i < n ==> r[i] == fates[i].after
    ensures forall i {:trigger r[i]} :: n <= i < |states| ==> r[i] == states[i]
  {
    if n == 0 then states else Advanced(states, fates, n - 1)[n - 1 := fates[n - 1].after]
  }

  /** The two parts of a list without repetitions have none and share nothing. */
  lemma DistinctParts<X>(a: seq<X>, b: seq<X>)
    requires Distinct(a + b)
    ensures Distinct(a) && Distinct(b) && forall x :: x in a ==> x !in b
  {
    DistinctNoDup(a);
    DistinctNoDup(b);
    DistinctNoDup(a + b);
    forall i, j | 0 <= i < j < |a|
      ensures a[i] != a[j]
    {
      assert (a + b)[i] == a[i] && (a + b)[j] == a[j];
    }
    forall i, j | 0 <= i < j < |b|
      ensures b[i] != b[j]
    {
      assert (a + b)[|a| + i] == b[i] && (a + b)[|a| + j] == b[j];
    }
    forall i, j | 0 <= i < |a| && 0 <= j < |b|
      ensures a[i] != b[j]
    {
      assert (a + b)[i] == a[i] && (a + b)[|a| + j] == b[j];
    }
  }

  /** Two lists without repetitions and without common elements, joined, have none. */
  lemma DistinctJoin<X>(a: seq<X>, b: seq<X>)
    requires Distinct(a) && Distinct(b) && forall x :: x in a ==> x !in b
    ensures Distinct(a + b)
  {
    DistinctNoDup(a);
    DistinctNoDup(b);
    DistinctNoDup(a + b);
    forall i, j | 0 <= i < j < |a + b|
      ensures (a + b)[i] != (a + b)[j]
    {
      if j < |a| {
        assert (a + b)[i] == a[i] && (a + b)[j] == a[j];
      } else if i >= |a| {
        assert (a + b)[i] == b[i - |a|] && (a + b)[j] == b[j - |a|];
      } else {
        assert (a + b)[i] in a && (a + b)[j] == b[j - |a|];
      }
    }
  }

  /** Taking out an element that occurs once. */
  lemma EraseFront<X>(before: seq<X>, x: X, after: seq<X>)
    requires Distinct(before + [x] + after)
    ensures Erase(before + [x] + after, x) == before + after
  {
    var s := before + [x] + after;
    DistinctPrefix(s, |before|);
    assert s[..|before|] == before;
    IndexOfDistinct(s, |before|);
    assert s[|before| + 1..] == after;
  }

  /** The jobs of `walk` from position `n` on, last first: the order in which
      `_DisposeAllJobs` disposes them. */
  function Unwound(walk: seq<Job>, n: nat): (r: seq<Job>)
    requires n <= |walk|
    ensures |r| == |walk| - n
    decreases |walk| - n
  {
    if n == |walk| then [] else Unwound(walk, n + 1) + [walk[n]]
  }

  /** Unwinding hands over every job once. */
  lemma {:induction false} UnwoundAll(walk: seq<Job>, n: nat)
    requires n <= |walk|
    ensures multiset(Unwound(walk, n)) == multiset(walk[n..])
    decreases |walk| - n
  {
    if n < |walk| {
      UnwoundAll(walk, n + 1);
      assert walk[n..] == [walk[n]] + walk[n + 1..];
    }
  }

  /** The `OnComplete` subscribers of the jobs in states `states` from position `n` on,
      called last job first. */
  function Drained(states: seq<JobState>, n: nat): seq<int>
    requires n <= |states|
    decreases |states| - n
  {
    if n == |states| then [] else Drained(states, n + 1) + states[n].onComplete
  }

  /** The states `states` with every job from position `n` on disposed. */
  function Recycling(states: seq<JobState>, n: nat): (r: seq<JobState>)
    requires n <= |states|
    ensures |r| == |states|
    ensures forall i {:trigger r[i]} :: 0 <= i < n ==> r[i] == states[i]
    ensures forall i {:trigger r[i]} :: n <= i < |states| ==> r[i] == Recycled(states[i])
    decreases |states| - n
  {
    if n == |states| then states else Recycling(states, n + 1)[n := Recycled(states[n])]
  }

  /** `xs`, with `x` added at the end when `joins` holds. */
  function Queued<X>(xs: seq<X>, x: X, joins: bool): (r: seq<X>)
    ensures joins ==> |r| == |xs| + 1 && r[..|xs|] == xs && r[|xs|] == x
    ensures !joins ==> r == xs
  {
    if joins then xs + [x] else xs
  }

  /** `CoM`: the active jobs `_jobs`, the jobs waiting for the next frame `_skipFrameJobs`,
      whether `_CoroutineLoop` is running, and the job pool. */
  class Scheduler {
    var jobs: seq<Job>
    var skip: seq<Job>
    var running: bool
    const pool: JobPool

    /** A job is linked at most once, so it is in at most one of the two lists. */
    ghost predicate Valid()
      reads this
    {
      Distinct(jobs + skip)
    }

    /** `Awake`. */
    constructor (pool: JobPool)
      ensures Valid() && jobs == [] && skip == [] && !running && this.pool == pool
    {
      jobs, skip := [], [];
      running := false;
      this.pool := pool;
    }

    /** `CoroutineJob.IsDisposed`: the job's node is not in the list. */
    predicate IsDisposed(job: Job)
      reads this
    {
      job !in jobs
    }

    /** No active job would call a `null` action in a tick of `dt`. */
    ghost predicate Runnable(dt: real)
      reads this, jobs
    {
      AllCallable(States(jobs), dt)
    }

    /** `CoroutineJob.Dispose`: nothing for a job that is not linked; otherwise the job is
        unlinked, its action dropped, reset and pooled, and then its `OnComplete`
        subscribers are called. */
    method Dispose(job: Job) returns (called: seq<int>)
      requires Valid()
      modifies this, pool, job
      ensures Valid() && skip == old(skip) && running == old(running)
      ensures job !in old(jobs) ==>
        jobs == old(jobs) && pool.stack == old(pool.stack) && job.State() == old(job.State()) && called == []
      ensures job in old(jobs) ==>
        jobs == Erase(old(jobs), job) && pool.stack == old(pool.stack) + [job]
        && job.State() == Recycled(old(job.State())) && called == old(job.onComplete)
    {
      called := [];
      if job !in jobs {
        return;
      }
      DistinctParts(jobs, skip);
      EraseMembers(jobs, job);
      jobs := Erase(jobs, job);
      DistinctJoin(jobs, skip);
      job.action := NoCallback;
      pool.Put(job);
      called := job.onComplete;
    }

    /** One job of a tick: unless paused, `Process`, and `Dispose` when it is done.
        An action in `quits` disposes its own job while `Process` calls it: `Dispose` resets
        the job, `times` to `int.MaxValue`, so the rest of `Process` writes back the unset
        counters and returns false, and the loop does not dispose it again. The job ends as
        a finished one does, recycled and pooled once, with its `OnComplete` subscribers
        called right after the action; the model disposes it once `Process` returns. */
    method Visit(job: Job, dt: real, quits: set<int>, ghost before: seq<Job>, ghost after: seq<Job>) returns (called: seq<int>)
      requires Valid() && jobs == before + [job] + after && Callable(job.State(), dt)
      modifies this, pool, job
      ensures Valid() && skip == old(skip) && running == old(running)
      ensures job.State() == After(old(job.State()), dt, quits) && called == Calls(old(job.State()), dt, quits)
      ensures jobs == before + (if Finishes(old(job.State()), dt, quits) then [] else [job]) + after
      ensures pool.stack == old(pool.stack) + (if Finishes(old(job.State()), dt, quits) then [job] else [])
    {
      called := [];
      if !job.isPaused {
        var action := job.action;
        var done, fired := job.Process(dt);
        if fired {
          called := [action];
        }
        if done || (fired && action in quits) {
          DistinctParts(jobs, skip);
          EraseFront(before, job, after);
          var handlers := Dispose(job);
          called := called + handlers;
        }
      }
    }

    /** The traversal of `_CoroutineLoop`: visits the jobs in list order, the successor
        taken before the visit, and stops early once the list is empty. */
    method Traverse(dt: real, quits: set<int>) returns (trace: seq<int>)
      requires Valid() && Runnable(dt)
      modifies this, pool, jobs
      ensures Valid() && skip == old(skip) && running == old(running)
      ensures var fates := Fates(old(States(jobs)), dt, quits);
        && jobs == Kept(old(jobs), fates, |fates|)
        && pool.stack == old(pool.stack) + Finished(old(jobs), fates, |fates|)
        && trace == Traced(fates, |fates|)
        && States(old(jobs)) == Advanced(old(States(jobs)), fates, |fates|)
      ensures States(skip) == old(States(skip))
    {
      var walk := jobs;
      ghost var states := States(walk);
      ghost var fates := Fates(states, dt, quits);
      ghost var skipped := States(skip);
      DistinctParts(jobs, skip);
      var k := 0;
      trace := [];
      while k < |walk| && |jobs| > 0
        invariant 0 <= k <= |walk|
        invariant Midway(walk, states, fates, k, old(pool.stack), old(skip), skipped, old(running), trace)
      {
        trace, k := VisitNext(walk, states, fates, k, dt, quits, old(pool.stack), old(skip), skipped, old(running), trace);
      }
      assert |walk[k..]| <= |jobs|;
      assert k == |walk|;
      assert old(States(jobs)) == states;
    }

    /** A traversal over `walk`, the jobs in states `states` and with fates `fates`, has
        visited the first `k`: the visited jobs that finished are out of the list and in the
        pool, their callbacks are in `trace`, and nothing else has changed. */
    ghost predicate Midway(walk: seq<Job>, states: seq<JobState>, fates: seq<Fate>, k: int, pooled: seq<Job>,
                           skip0: seq<Job>, skipped: seq<JobState>, running0: bool, trace: seq<int>)
      reads this, pool, walk, skip
    {
      |states| == |walk| == |fates| && 0 <= k <= |walk|
      && Valid() && Distinct(walk) && skip == skip0 && running == running0
      && jobs == Kept(walk, fates, k) + walk[k..]
      && pool.stack == pooled + Finished(walk, fates, k)
      && trace == Traced(fates, k)
      && States(walk) == Advanced(states, fates, k)
      && States(skip) == skipped
    }

    /** The visit of the `k`th job of a traversal over `walk`. */
    method VisitNext(walk: seq<Job>, ghost states: seq<JobState>, ghost fates: seq<Fate>, k: int, dt: real, quits: set<int>,
                     ghost pooled: seq<Job>, ghost skip0: seq<Job>, ghost skipped: seq<JobState>,
                     ghost running0: bool, trace: seq<int>)
      returns (trace': seq<int>, k': int)
      requires Midway(walk, states, fates, k, pooled, skip0, skipped, running0, trace) && k < |walk|
      requires fates == Fates(states, dt, quits) && AllCallable(states, dt)
      modifies this, pool, walk[k]
      ensures k' == k + 1 && Midway(walk, states, fates, k', pooled, skip0, skipped, running0, trace')
    {
      k' := k + 1;
      var job := walk[k];
      ghost var before := Kept(walk, fates, k);
      assert walk[k..] == [job] + walk[k + 1..];
      assert job.State() == States(walk)[k] == states[k];
      CallableAt(states, k, dt);
      FateAt(states, k, dt, quits);
      var called := VisitAt(walk, k, dt, quits, before, pooled, Finished(walk, fates, k));
      trace' := trace + called;
    }

    /** The visit of `walk[k]`, with what it leaves unchanged among `walk` and `skip`. */
    method VisitAt(walk: seq<Job>, k: int, dt: real, quits: set<int>, ghost before: seq<Job>, ghost pooled: seq<Job>,
                   ghost done: seq<Job>)
      returns (called: seq<int>)
      requires Valid() && Distinct(walk) && 0 <= k < |walk| && jobs == before + [walk[k]] + walk[k + 1..]
      requires pool.stack == pooled + done
      requires Callable(walk[k].State(), dt)
      modifies this, pool, walk[k]
      ensures Valid() && skip == old(skip) && running == old(running)
      ensures called == Calls(old(walk[k].State()), dt, quits)
      ensures Finishes(old(walk[k].State()), dt, quits) ==>
                jobs == before + walk[k + 1..] && pool.stack == pooled + (done + [walk[k]])
      ensures !Finishes(old(walk[k].State()), dt, quits) ==>
                jobs == before + [walk[k]] + walk[k + 1..] && pool.stack == pooled + done
      ensures States(walk) == old(States(walk))[k := After(old(walk[k].State()), dt, quits)]
      ensures States(skip) == old(States(skip))
    {
      var job := walk[k];
      DistinctParts(jobs, skip);
      assert job !in skip;
      called := Visit(job, dt, quits, before, walk[k + 1..]);
      forall i | 0 <= i < |walk| && i != k
        ensures walk[i] != job
      {
        DistinctAt(walk, i, k);
      }
    }

    /** The end of a pass of `_CoroutineLoop`: the waiting jobs join the end of the list in
        their order, and the waiting list is emptied. */
    method Merge()
      requires Valid()
      modifies this
      ensures Valid() && jobs == old(jobs) + old(skip) && skip == [] && running == old(running)
    {
      var i := 0;
      while i < |skip|
        invariant 0 <= i <= |skip| && skip == old(skip) && running == old(running)
        invariant jobs == old(jobs) + skip[..i]
      {
        assert skip[..i + 1] == skip[..i] + [skip[i]];
        jobs := jobs + [skip[i]];
        i := i + 1;
      }
      assert skip[..i] == skip;
      assert jobs + [] == jobs;
      skip := [];
    }

    /** The state after a pass of `_CoroutineLoop` that started from the list `jobs0`, its
        jobs in the states `states0`, the waiting list `skip0` and the pool holding `stack0`:
        the list keeps the jobs that did not finish, in their order, followed by the waiting
        jobs; the finished jobs went to the pool in list order; `trace` holds the callbacks. */
    ghost predicate Passed(jobs0: seq<Job>, states0: seq<JobState>, skip0: seq<Job>, stack0: seq<Job>, dt: real, quits: set<int>,
                           jobs1: seq<Job>, skip1: seq<Job>, stack1: seq<Job>, trace: seq<int>)
      requires |jobs0| == |states0|
    {
      var fates := Fates(states0, dt, quits);
      && jobs1 == Kept(jobs0, fates, |fates|) + skip0 && skip1 == []
      && stack1 == stack0 + Finished(jobs0, fates, |fates|)
      && trace == Traced(fates, |fates|)
    }

    /** One pass of `_CoroutineLoop`: the traversal, then the waiting jobs join the list.
        Waiting jobs are not visited in the pass that moves them. */
    method Pass(dt: real, quits: set<int>) returns (trace: seq<int>)
      requires Valid() && Runnable(dt)
      modifies this, pool, jobs
      ensures Valid() && running == old(running)
      ensures Passed(old(jobs), old(States(jobs)), old(skip), old(pool.stack), dt, quits, jobs, skip, pool.stack, trace)
      ensures States(old(jobs)) == Advanced(old(States(jobs)), Fates(old(States(jobs)), dt, quits), |old(jobs)|)
      ensures States(old(skip)) == old(States(skip))
    {
      ghost var jobs0, states0, skip0, skipStates0 := jobs, States(jobs), skip, States(skip);
      trace := Traverse(dt, quits);
      ghost var advanced := States(jobs0);
      assert advanced == Advanced(states0, Fates(states0, dt, quits), |jobs0|);
      if |skip| > 0 {
        Merge();
        assert States(jobs0) == advanced;
        assert States(skip0) == skipStates0;
      } else {
        assert jobs + skip == jobs;
      }
    }

    /** `_CoroutineLoop` taken up again in a later frame: once both lists are empty the loop
        ends and `_Stop` takes it out of the running coroutines; otherwise it makes another
        pass. */
    method Resume(dt: real, quits: set<int>) returns (trace: seq<int>)
      requires Valid() && Runnable(dt)
      modifies this, pool, jobs
      ensures Valid()
      ensures !old(running) ==>
        !running && jobs == old(jobs) && skip == old(skip) && pool.stack == old(pool.stack)
        && States(jobs) == old(States(jobs)) && trace == []
      ensures old(running) && old(jobs) == [] && old(skip) == [] ==>
        !running && jobs == [] && skip == [] && pool.stack == old(pool.stack) && trace == []
      ensures old(running) && (old(jobs) != [] || old(skip) != []) ==>
        running && Passed(old(jobs), old(States(jobs)), old(skip), old(pool.stack), dt, quits, jobs, skip, pool.stack, trace)
        && States(old(jobs)) == Advanced(old(States(jobs)), Fates(old(States(jobs)), dt, quits), |old(jobs)|)
        && States(old(skip)) == old(States(skip))
    {
      trace := [];
      if !running {
        return;
      }
      if |jobs| == 0 && |skip| == 0 {
        running := false;
        return;
      }
      trace := Pass(dt, quits);
    }

    /** The first half of `_RunJob`: the job joins the waiting list or the end of the list. */
    method Enqueue(job: Job, skipFrame: bool, ghost dt: real)
      requires Valid() && job !in jobs && job !in skip && Runnable(dt) && Callable(job.State(), dt)
      modifies this
      ensures Valid() && running == old(running) && Runnable(dt)
      ensures jobs == Queued(old(jobs), job, !skipFrame) && skip == Queued(old(skip), job, skipFrame)
      ensures States(jobs) == Queued(old(States(jobs)), job.State(), !skipFrame)
    {
      if skipFrame {
        JoinSkip(job);
      } else {
        JoinJobs(job, dt);
      }
    }

    /** `_skipFrameJobs.Add(job)`. */
    method JoinSkip(job: Job)
      requires Valid() && job !in jobs && job !in skip
      modifies this
      ensures Valid() && running == old(running) && jobs == old(jobs) && skip == old(skip) + [job]
    {
      DistinctParts(jobs, skip);
      skip := skip + [job];
      assert jobs + skip == (old(jobs) + old(skip)) + [job];
      assert (jobs + skip)[..|jobs + skip| - 1] == old(jobs) + old(skip);
    }

    /** `_jobs.Add(job)`. */
    method JoinJobs(job: Job, ghost dt: real)
      requires Valid() && job !in jobs && job !in skip && Runnable(dt) && Callable(job.State(), dt)
      modifies this
      ensures Valid() && running == old(running) && Runnable(dt)
      ensures jobs == old(jobs) + [job] && skip == old(skip)
      ensures States(jobs) == old(States(jobs)) + [job.State()]
    {
      DistinctParts(jobs, skip);
      ghost var states := States(jobs);
      jobs := jobs + [job];
      assert jobs[..|jobs| - 1] == old(jobs);
      DistinctJoin(jobs, skip);
      assert States(jobs) == states + [job.State()];
      CallableAppend(states, job.State(), dt);
    }

    /** Starting `_CoroutineLoop`: a coroutine runs up to its first `yield` when it is
        started, so a new loop makes its first pass at once, and it is running from then on. */
    method Start(dt: real, quits: set<int>, ghost other: Job) returns (trace: seq<int>)
      requires Valid() && Runnable(dt) && !running
      modifies this, pool, jobs
      ensures Valid() && running
      ensures Passed(old(jobs), old(States(jobs)), old(skip), old(pool.stack), dt, quits, jobs, skip, pool.stack, trace)
      ensures States(old(jobs)) == Advanced(old(States(jobs)), Fates(old(States(jobs)), dt, quits), |old(jobs)|)
      ensures States(old(skip)) == old(States(skip))
      ensures other !in old(jobs) ==> other.State() == old(other.State())
    {
      ghost var states0, skipStates0, otherState0 := States(jobs), States(skip), other.State();
      running := true;
      assert States(jobs) == states0;
      assert States(skip) == skipStates0;
      assert other.State() == otherState0;
      trace := Pass(dt, quits);
    }

    /** `_RunJob`: the job joins the waiting list or the end of the list, and the loop is
        started unless it runs already. */
    method RunJob(job: Job, skipFrame: bool, dt: real, quits: set<int>) returns (trace: seq<int>)
      requires Valid() && job !in jobs && job !in skip && Runnable(dt) && Callable(job.State(), dt)
      modifies this, pool, jobs, job
      ensures Valid() && running
      ensures old(running) ==>
        jobs == Queued(old(jobs), job, !skipFrame) && skip == Queued(old(skip), job, skipFrame)
        && pool.stack == old(pool.stack) && trace == [] && job.State() == old(job.State())
      ensures !old(running) ==>
        Passed(Queued(old(jobs), job, !skipFrame), Queued(old(States(jobs)), old(job.State()), !skipFrame),
               Queued(old(skip), job, skipFrame), old(pool.stack), dt, quits, jobs, skip, pool.stack, trace)
        && States(Queued(old(jobs), job, !skipFrame))
           == Advanced(Queued(old(States(jobs)), old(job.State()), !skipFrame),
                       Fates(Queued(old(States(jobs)), old(job.State()), !skipFrame), dt, quits),
                       |Queued(old(jobs), job, !skipFrame)|)
      ensures old(running) ==> States(old(jobs)) == old(States(jobs))
      ensures skipFrame ==> job.State() == old(job.State())
    {
      ghost var states0, state0 := States(jobs), job.State();
      Enqueue(job, skipFrame, dt);
      ghost var queued, queuedStates := jobs, States(jobs);
      assert queuedStates == Queued(states0, state0, !skipFrame);
      trace := [];
      if !running {
        trace := Start(dt, quits, job);
        assert States(queued) == Advanced(queuedStates, Fates(queuedStates, dt, quits), |queued|);
      }
    }

    /** `_DisposeAllJobs` has disposed the jobs of `walk` from position `n` on, last first,
        and the list holds the rest. */
    ghost predicate Draining(walk: seq<Job>, states: seq<JobState>, n: int, stack0: seq<Job>, skip0: seq<Job>,
                             skipped: seq<JobState>, running0: bool, trace: seq<int>)
      reads this, pool, walk, skip
    {
      |states| == |walk| && 0 <= n <= |walk|
      && Valid() && Distinct(walk) && skip == skip0 && running == running0
      && jobs == walk[..n]
      && pool.stack == stack0 + Unwound(walk, n)
      && trace == Drained(states, n)
      && States(walk) == Recycling(states, n)
      && States(skip) == skipped
    }

    /** `_DisposeAllJobs`: disposes the last job of the list until the list is empty. */
    method DisposeAllJobs() returns (trace: seq<int>)
      requires Valid()
      modifies this, pool, jobs
      ensures Valid() && jobs == [] && skip == old(skip) && running == old(running)
      ensures pool.stack == old(pool.stack) + Unwound(old(jobs), 0)
      ensures trace == Drained(old(States(jobs)), 0)
      ensures States(old(jobs)) == Recycling(old(States(jobs)), 0)
      ensures States(skip) == old(States(skip))
    {
      var walk := jobs;
      ghost var states := States(walk);
      ghost var skipped := States(skip);
      DistinctParts(jobs, skip);
      assert walk[..|walk|] == walk;
      trace := [];
      var n := |walk|;
      while |jobs| > 0
        invariant n == |jobs| && Draining(walk, states, n, old(pool.stack), old(skip), skipped, old(running), trace)
        decreases n
      {
        trace, n := DisposeLast(walk, states, n, old(pool.stack), old(skip), skipped, old(running), trace);
      }
    }

    /** One round of `_DisposeAllJobs`. */
    method DisposeLast(walk: seq<Job>, ghost states: seq<JobState>, n: int, ghost stack0: seq<Job>,
                       ghost skip0: seq<Job>, ghost skipped: seq<JobState>, ghost running0: bool, trace: seq<int>)
      returns (trace': seq<int>, n': int)
      requires Draining(walk, states, n, stack0, skip0, skipped, running0, trace) && n > 0
      modifies this, pool, walk[n - 1]
      ensures n' == n - 1 && Draining(walk, states, n', stack0, skip0, skipped, running0, trace')
    {
      n' := n - 1;
      assert walk[n - 1].State() == States(walk)[n - 1] == states[n - 1];
      var called := DisposeAt(walk, n - 1, stack0, Unwound(walk, n));
      trace' := trace + called;
    }

    /** The disposal of `walk[k]`, the last job of the list, with what it leaves unchanged
        among `walk` and `skip`. */
    method DisposeAt(walk: seq<Job>, k: int, ghost stack0: seq<Job>, ghost done: seq<Job>) returns (called: seq<int>)
      requires Valid() && Distinct(walk) && 0 <= k < |walk| && jobs == walk[..k + 1]
      requires pool.stack == stack0 + done
      modifies this, pool, walk[k]
      ensures Valid() && skip == old(skip) && running == old(running)
      ensures jobs == walk[..k] && pool.stack == stack0 + (done + [walk[k]])
      ensures called == old(walk[k].onComplete)
      ensures States(walk) == old(States(walk))[k := Recycled(old(walk[k].State()))]
      ensures States(skip) == old(States(skip))
    {
      var job := walk[k];
      assert jobs == walk[..k] + [job] + [];
      DistinctParts(jobs, skip);
      assert job !in skip;
      EraseFront(walk[..k], job, []);
      called := Dispose(job);
      forall i | 0 <= i < |walk| && i != k
        ensures walk[i] != job
      {
        DistinctAt(walk, i, k);
      }
    }
  }

  /** Disposing a job a second time does nothing: `Dispose` checks that the job is still
      linked. */
  method DisposeTwice(s: Scheduler, job: Job) returns (first: seq<int>, second: seq<int>)
    requires s.Valid()
    modifies s, s.pool, job
    ensures s.Valid() && s.IsDisposed(job) && second == []
    ensures job in old(s.jobs) ==> first == old(job.onComplete)
  {
    DistinctParts(s.jobs, s.skip);
    first := s.Dispose(job);
    if job in old(s.jobs) {
      EraseMembers(old(s.jobs), job);
    }
    second := s.Dispose(job);
  }
}
