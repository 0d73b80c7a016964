/** The wake timer of the managed refresh loop (service/managed_session.go:747-827): schedule, fire,
    callback, start and stop, interleaved in any order. */
module WakeTimer {
  import opened Json

  /** A timer is armed; its callback may then wait for the lock; a waiting callback cannot be stopped.
      `Ran` records at which step the callback got the lock and whether it went on to a pass. */
  datatype Status = Armed | Waiting | Stopped | Ran(step: nat, passed: bool)

  datatype Timer = Timer(deadline: int, generation: nat, status: Status)

  /** A wake asked for at the clock reading `now` while generation `generation` was running, at step `step`. */
  datatype Request = Request(now: int, deadline: int, generation: nat, step: nat)

  /** `running` is the generation whose stop channel is open; `wake` is the timer the loop knows of;
      `step` counts actions. Requests are kept for the statements only. */
  datatype Sys = Sys(
    clock: int, step: nat, running: Option<nat>, generations: nat, wake: Option<nat>, wakeAt: Option<int>,
    timers: seq<Timer>, requests: seq<Request>)

  /** Schedule reads the clock at `now`, possibly long before it gets the lock. */
  datatype Action =
    | Tick(clock: int)
    | Schedule(now: int, delay: int)
    | Fire(timer: nat)
    | Callback(timer: nat)
    | Start
    | Stop

  predicate Enabled(s: Sys, a: Action) {
    match a
    case Tick(clock) => clock >= s.clock
    case Schedule(now, _) => now <= s.clock
    case Fire(t) => t < |s.timers| && s.timers[t].status.Armed? && s.timers[t].deadline <= s.clock
    case Callback(t) => t < |s.timers| && s.timers[t].status.Waiting?
    case _ => true
  }

  // ---- One action ----

  function WithStatus(timers: seq<Timer>, t: nat, status: Status): seq<Timer> {
    if t < |timers| then timers[t := timers[t].(status := status)] else timers
  }

  /** Timer.Stop: no effect once the callback is under way. */
  function StopTimer(timers: seq<Timer>, wake: Option<nat>): (r: seq<Timer>)
    ensures |r| == |timers|
  {
    if wake.Some? && wake.value < |timers| && timers[wake.value].status.Armed?
    then WithStatus(timers, wake.value, Stopped) else timers
  }

  function Scheduled(s: Sys, now: int, delay: int): Sys {
    var deadline := now + delay;
    if delay <= 0 || s.running.None? then s
    else
      var asked := s.(requests := s.requests + [Request(now, deadline, s.running.value, s.step)]);
      if s.wake.Some? && (s.wakeAt.None? || deadline >= s.wakeAt.value) then asked
      else
        asked.(timers := StopTimer(s.timers, s.wake) + [Timer(deadline, s.running.value, Armed)],
               wake := Some(|s.timers|), wakeAt := Some(deadline))
  }

  function CalledBack(s: Sys, t: nat): Sys
    requires t < |s.timers|
  {
    if s.running != Some(s.timers[t].generation) then s.(timers := WithStatus(s.timers, t, Ran(s.step, false)))
    else s.(timers := WithStatus(s.timers, t, Ran(s.step, true)), wake := None, wakeAt := None)
  }

  function WakeStopped(s: Sys): Sys {
    s.(timers := StopTimer(s.timers, s.wake), wake := None, wakeAt := None)
  }

  function Effect(s: Sys, a: Action): Sys
    requires Enabled(s, a)
  {
    match a
    case Tick(clock) => s.(clock := clock)
    case Schedule(now, delay) => Scheduled(s, now, delay)
    case Fire(t) => s.(timers := WithStatus(s.timers, t, Waiting))
    case Callback(t) => CalledBack(s, t)
    case Start => WakeStopped(s).(running := Some(s.generations), generations := s.generations + 1)
    case Stop => WakeStopped(s).(running := None)
  }

  function Apply(s: Sys, a: Action): Sys
    requires Enabled(s, a)
  {
    Effect(s, a).(step := s.step + 1)
  }

  /** The package-level variables, changed under the loop lock; clock, step and requests only observe. */
  class RefreshLoop {
    var running: Option<nat>
    var generations: nat
    var wake: Option<nat>
    var wakeAt: Option<int>
    var timers: seq<Timer>
    var clock: int
    var step: nat
    var requests: seq<Request>

    ghost function Value(): Sys
      reads this
    {
      Sys(clock, step, running, generations, wake, wakeAt, timers, requests)
    }

    constructor ()
      ensures Value() == Sys(0, 0, None, 0, None, None, [], [])
    {
      running, generations, wake, wakeAt, timers := None, 0, None, None, [];
      clock, step, requests := 0, 0, [];
    }

    method ScheduleManagedRefreshWake(now: int, delay: int)
      requires Enabled(Value(), Schedule(now, delay))
      modifies this
      ensures Value() == Apply(old(Value()), Schedule(now, delay))
    {
      step := step + 1;
      if delay <= 0 {
        return;
      }
      var deadline := now + delay;
      if running.None? {
        return;
      }
      requests := requests + [Request(now, deadline, running.value, step - 1)];
      if wake.Some? && (wakeAt.None? || !(deadline < wakeAt.value)) {
        return;
      }
      timers := StopTimer(timers, wake);
      wake := Some(|timers|);
      timers := timers + [Timer(deadline, running.value, Armed)];
      wakeAt := Some(deadline);
    }

    /** The body of the timer function; `pass` says that it goes on to ExecuteManagedRefreshPass. */
    method WakeUp(t: nat) returns (pass: bool)
      requires Enabled(Value(), Callback(t))
      modifies this
      ensures Value() == Apply(old(Value()), Callback(t))
      ensures pass == (old(running) == Some(old(timers[t].generation)))
    {
      step := step + 1;
      if running != Some(timers[t].generation) {
        timers := timers[t := timers[t].(status := Ran(step - 1, false))];
        return false;
      }
      timers := timers[t := timers[t].(status := Ran(step - 1, true))];
      wake := None;
      wakeAt := None;
      pass := true;
    }

    method StopManagedRefreshWakeLocked()
      modifies this
      ensures Value() == WakeStopped(old(Value()))
    {
      if wake.Some? {
        timers := StopTimer(timers, wake);
        wake := None;
      }
      wakeAt := None;
    }

    method StartManagedRefreshScheduler()
      modifies this
      ensures Value() == Apply(old(Value()), Start)
    {
      StopManagedRefreshWakeLocked();
      running := Some(generations);
      generations := generations + 1;
      step := step + 1;
    }

    method StopManagedRefreshScheduler()
      modifies this
      ensures Value() == Apply(old(Value()), Stop)
    {
      StopManagedRefreshWakeLocked();
      if running.Some? {
        running := None;
      }
      step := step + 1;
    }
  }

  // ---- No lost wake ----

  /** A timer that will still run, or whose callback ran after the request was made. */
  predicate Serves(timer: Timer, r: Request) {
    && timer.generation == r.generation
    && timer.deadline <= r.deadline
    && (timer.status.Armed? || timer.status.Waiting?
        || (timer.status.Ran? && timer.status.passed && timer.status.step >= r.step))
  }

  predicate Served(timers: seq<Timer>, r: Request) {
    exists t :: 0 <= t < |timers| && Serves(timers[t], r)
  }

  predicate Passed(timer: Timer) {
    timer.status.Ran? && timer.status.passed
  }

  /** The timer is armed without the loop knowing of it. */
  predicate IsOrphan(s: Sys, t: nat)
    requires t < |s.timers|
  {
    s.timers[t].status.Armed? && s.wake != Some(t)
  }

  /** An earlier timer of the same generation led to a pass. */
  predicate Overtaken(timers: seq<Timer>, t: nat)
    requires t < |timers|
  {
    exists u :: 0 <= u < t && Passed(timers[u]) && timers[u].generation == timers[t].generation
  }

  predicate KnownIsLive(s: Sys) {
    s.wake.Some? ==>
      && s.running.Some? && s.wake.value < |s.timers| && s.wakeAt.Some?
      && var timer := s.timers[s.wake.value];
         timer.generation == s.running.value && timer.deadline == s.wakeAt.value
         && (timer.status.Armed? || timer.status.Waiting?)
  }

  /** The timer the loop knows of belongs to the running generation and has not run; a callback racing
      its replacement may make the loop forget a timer, which stays armed all the same. */
  ghost predicate Inv(s: Sys) {
    && (s.running.Some? ==> s.running.value < s.generations)
    && (forall t :: 0 <= t < |s.timers| ==> s.timers[t].generation < s.generations)
    && (forall k :: 0 <= k < |s.requests| ==> s.requests[k].generation < s.generations && s.requests[k].step < s.step)
    && KnownIsLive(s)
    && (forall k :: 0 <= k < |s.requests| && s.running == Some(s.requests[k].generation)
          ==> Served(s.timers, s.requests[k]))
    && (forall t :: 0 <= t < |s.timers| ==> AskedFor(s.requests, s.timers[t]))
    && (s.wake.Some? ==> s.wake.value == |s.timers| - 1)
    && (forall t :: 0 <= t < |s.timers| && IsOrphan(s, t) ==> Overtaken(s.timers, t))
  }

  lemma StepKeepsOrphans(s: Sys, a: Action)
    requires Inv(s) && Enabled(s, a)
    ensures var s' := Apply(s, a);
      && (s'.wake.Some? ==> s'.wake.value == |s'.timers| - 1)
      && forall t :: 0 <= t < |s'.timers| && IsOrphan(s', t) ==> Overtaken(s'.timers, t)
  {
    hide Served, AskedFor;
    var s' := Apply(s, a);
    forall t | 0 <= t < |s'.timers| && IsOrphan(s', t) ensures Overtaken(s'.timers, t) {
      if s.wake == Some(t) {
        assert a.Callback? && Passed(s'.timers[a.timer]) && a.timer != t;
        assert s'.timers[t].generation == s'.timers[a.timer].generation;
      } else {
        assert t < |s.timers| && s.timers[t].status.Armed?;
        assert IsOrphan(s, t);
        var u :| 0 <= u < t && Passed(s.timers[u]) && s.timers[u].generation == s.timers[t].generation;
        assert Passed(s'.timers[u]);
      }
    }
  }

  /** A request of the timer's generation asked for the very instant of the timer, which was still to come. */
  predicate AskedFor(requests: seq<Request>, timer: Timer) {
    exists k :: 0 <= k < |requests| && AsksFor(requests[k], timer)
  }

  predicate AsksFor(r: Request, timer: Timer) {
    r.generation == timer.generation && r.deadline == timer.deadline && r.now < r.deadline
  }

  /** Neither more requests nor another status take that away. */
  lemma StaysAskedFor(requests: seq<Request>, requests': seq<Request>, timer: Timer, timer': Timer)
    requires AskedFor(requests, timer) && requests <= requests'
    requires timer'.generation == timer.generation && timer'.deadline == timer.deadline
    ensures AskedFor(requests', timer')
  {
    var k :| 0 <= k < |requests| && AsksFor(requests[k], timer);
    assert AsksFor(requests'[k], timer');
  }

  lemma StepKeepsAskedFor(s: Sys, a: Action)
    requires Inv(s) && Enabled(s, a)
    ensures var s' := Apply(s, a); forall t :: 0 <= t < |s'.timers| ==> AskedFor(s'.requests, s'.timers[t])
  {
    hide Served, AskedFor;
    var s' := Apply(s, a);
    forall t | 0 <= t < |s'.timers| ensures AskedFor(s'.requests, s'.timers[t]) {
      if t < |s.timers| {
        StaysAskedFor(s.requests, s'.requests, s.timers[t], s'.timers[t]);
      } else {
        LastIsAskedFor(s'.requests, s'.timers[t]);
      }
    }
  }

  lemma LastIsAskedFor(requests: seq<Request>, timer: Timer)
    requires requests != [] && AsksFor(requests[|requests| - 1], timer)
    ensures AskedFor(requests, timer)
  {
  }

  /** Another timer in the place of one that served, if it serves too. */
  lemma ServedAfterUpdate(timers: seq<Timer>, timers': seq<Timer>, r: Request)
    requires Served(timers, r) && |timers| <= |timers'|
    requires forall t :: 0 <= t < |timers| && Serves(timers[t], r) ==> Serves(timers'[t], r) || Served(timers', r)
    ensures Served(timers', r)
  {
    var t :| 0 <= t < |timers| && Serves(timers[t], r);
    assert Serves(timers'[t], r) || Served(timers', r);
  }

  lemma ScheduleKeepsServed(s: Sys, now: int, delay: int)
    requires Inv(s) && delay > 0 && s.running.Some?
    ensures var s' := Scheduled(s, now, delay);
      forall k :: 0 <= k < |s'.requests| && s.running == Some(s'.requests[k].generation)
        ==> Served(s'.timers, s'.requests[k])
  {
    hide Served;
    var s' := Scheduled(s, now, delay);
    forall k | 0 <= k < |s'.requests| && s.running == Some(s'.requests[k].generation)
      ensures Served(s'.timers, s'.requests[k])
    {
      if k == |s.requests| {
        NewRequestServed(s, now, delay);
      } else {
        assert s'.requests[k] == s.requests[k];
        OldRequestServed(s, now, delay, s.requests[k]);
      }
    }
  }

  lemma NewRequestServed(s: Sys, now: int, delay: int)
    requires KnownIsLive(s) && delay > 0 && s.running.Some?
    ensures Served(Scheduled(s, now, delay).timers, Request(now, now + delay, s.running.value, s.step))
  {
    var s' := Scheduled(s, now, delay);
    var r := Request(now, now + delay, s.running.value, s.step);
    if s.wake.Some? && s.wakeAt.value <= now + delay {
      assert Serves(s'.timers[s.wake.value], r);
    } else {
      assert Serves(s'.timers[|s.timers|], r);
    }
  }

  lemma OldRequestServed(s: Sys, now: int, delay: int, r: Request)
    requires KnownIsLive(s) && delay > 0 && s.running == Some(r.generation) && Served(s.timers, r)
    ensures Served(Scheduled(s, now, delay).timers, r)
  {
    var timers' := Scheduled(s, now, delay).timers;
    var t :| 0 <= t < |s.timers| && Serves(s.timers[t], r);
    if timers'[t] == s.timers[t] {
      assert Serves(timers'[t], r);
    } else {
      assert Serves(timers'[|s.timers|], r);
    }
  }

  lemma StepKeepsInv(s: Sys, a: Action)
    requires Inv(s) && Enabled(s, a)
    ensures Inv(Apply(s, a))
  {
    hide Served, Serves, AskedFor, IsOrphan, Overtaken;
    var s' := Apply(s, a);
    StepKeepsAskedFor(s, a);
    StepKeepsOrphans(s, a);
    match a
    case Schedule(now, delay) => {
      if delay > 0 && s.running.Some? {
        ScheduleKeepsServed(s, now, delay);
      }
    }
    case Fire(t) => {
      forall k | 0 <= k < |s.requests| && Served(s.timers, s.requests[k]) ensures Served(s'.timers, s.requests[k]) {
        FireKeepsServed(s, t, s.requests[k]);
      }
    }
    case Callback(t) => {
      forall k | 0 <= k < |s.requests| && s.running == Some(s.requests[k].generation) && Served(s.timers, s.requests[k])
        ensures Served(s'.timers, s.requests[k])
      {
        CallbackKeepsServed(s, t, s.requests[k]);
      }
    }
    case _ => {
    }
  }

  lemma FireKeepsServed(s: Sys, t: nat, r: Request)
    requires Enabled(s, Fire(t)) && Served(s.timers, r)
    ensures Served(WithStatus(s.timers, t, Waiting), r)
  {
    ServedAfterUpdate(s.timers, WithStatus(s.timers, t, Waiting), r);
  }

  lemma CallbackKeepsServed(s: Sys, t: nat, r: Request)
    requires Enabled(s, Callback(t)) && Served(s.timers, r) && s.running == Some(r.generation) && r.step < s.step
    ensures Served(CalledBack(s, t).timers, r)
  {
    ServedAfterUpdate(s.timers, CalledBack(s, t).timers, r);
  }

  // ---- Over runs ----

  predicate Possible(s: Sys, run: seq<Action>)
    decreases |run|
  {
    run == [] || (Enabled(s, run[0]) && Possible(Apply(s, run[0]), run[1..]))
  }

  function After(s: Sys, run: seq<Action>): Sys
    requires Possible(s, run)
    decreases |run|
  {
    if run == [] then s else After(Apply(s, run[0]), run[1..])
  }

  const INIT := Sys(0, 0, None, 0, None, None, [], [])

  lemma {:induction false} RunKeepsInv(s: Sys, run: seq<Action>)
    requires Inv(s) && Possible(s, run)
    ensures Inv(After(s, run))
    decreases |run|
  {
    hide Inv, Apply, Enabled;
    if run != [] {
      StepKeepsInv(s, run[0]);
      RunKeepsInv(Apply(s, run[0]), run[1..]);
    }
  }

  /** In every reachable state, each wake asked for by the running generation is still to come, at its
      deadline or earlier, or came after it was asked for. */
  lemma NoLostWake(run: seq<Action>, k: nat)
    requires Possible(INIT, run) && k < |After(INIT, run).requests|
    requires After(INIT, run).running == Some(After(INIT, run).requests[k].generation)
    ensures Served(After(INIT, run).timers, After(INIT, run).requests[k])
  {
    hide Possible, After, Served;
    RunKeepsInv(INIT, run);
  }

  /** Nor does it wake up for nothing: in every reachable state each timer stands for a request of its own
      generation, and comes neither earlier than asked for nor at once. */
  lemma NoUnaskedWake(run: seq<Action>, t: nat)
    requires Possible(INIT, run) && t < |After(INIT, run).timers|
    ensures AskedFor(After(INIT, run).requests, After(INIT, run).timers[t])
  {
    hide Possible, After, AskedFor;
    RunKeepsInv(INIT, run);
  }

  /** In every reachable state the loop knows each timer that is still armed, unless an earlier timer of the
      same generation led to a pass meanwhile: replaced and stopped timers do not stay behind. */
  lemma OrphansAreOvertaken(run: seq<Action>, t: nat)
    requires Possible(INIT, run) && t < |After(INIT, run).timers| && IsOrphan(After(INIT, run), t)
    ensures Overtaken(After(INIT, run).timers, t)
  {
    hide Possible, After, Overtaken;
    RunKeepsInv(INIT, run);
  }

  /** A timer of a generation that does not run, or no longer runs, starts no pass from then on. */
  lemma {:induction false} StaleNeverPasses(s: Sys, run: seq<Action>, t: nat)
    requires Inv(s) && Possible(s, run) && t < |s.timers|
    requires s.running != Some(s.timers[t].generation)
    ensures var s' := After(s, run);
      t < |s'.timers| && s'.running != Some(s.timers[t].generation)
      && (Passed(s'.timers[t]) <==> Passed(s.timers[t]))
    decreases |run|
  {
    hide Inv, Apply, Enabled;
    if run != [] {
      StepKeepsInv(s, run[0]);
      StaleStep(s, run[0], t);
      StaleNeverPasses(Apply(s, run[0]), run[1..], t);
    }
  }

  lemma StaleStep(s: Sys, a: Action, t: nat)
    requires Inv(s) && Enabled(s, a) && t < |s.timers|
    requires s.running != Some(s.timers[t].generation)
    ensures var s' := Apply(s, a);
      && t < |s'.timers| && s'.timers[t].generation == s.timers[t].generation
      && s'.running != Some(s.timers[t].generation)
      && (Passed(s'.timers[t]) <==> Passed(s.timers[t]))
  {
    hide Served;
  }

  /** After a stop or a restart every timer there was is stale: a pass can only come from a timer
      scheduled afterwards. */
  lemma NoPassAfterStop(s: Sys, stop: Action, run: seq<Action>, t: nat)
    requires Inv(s) && (stop.Stop? || stop.Start?) && Possible(Apply(s, stop), run) && t < |s.timers|
    ensures var s' := After(Apply(s, stop), run);
      t < |s'.timers| && (Passed(s'.timers[t]) <==> Passed(s.timers[t]))
  {
    hide Served, Possible, After;
    StepKeepsInv(s, stop);
    StaleNeverPasses(Apply(s, stop), run, t);
  }
}
