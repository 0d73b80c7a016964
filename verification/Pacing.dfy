/** Pacing of one site and route (service/managed_session.go:477-524, 596-618): any number of accounts
    compete for the slot, in any interleaving of clock, admission, upstream call and release. */
module Pacing {
  import opened Json
  import ManagedAuth
  import opened RefreshTiming
  import opened ManagedSession
  import NewApiV1
  import SessionRuns

  // ---- The state machine ----

  /** What a worker that owns the slot is doing: it read the clock, it is inside RefreshAuth, or
      RefreshAuth returned. */
  datatype Phase = Started(observed: int) | Calling | Done(ended: int)

  /** `starts` and `ends` are the instants at which calls of RefreshAuth began and ended, `waits` the waits
      with which the slot was released. */
  datatype Sys =
    Sys(clock: int, slot: Slot, active: map<int, Phase>, starts: seq<int>, ends: seq<int>, waits: seq<int>)

  datatype Action =
    | Tick(clock: int)
    | TryStart(worker: int, observed: int)
    | Call(worker: int)
    | Return(worker: int)
    | Finish(worker: int, stamp: int, res: Option<ManagedAuth.RefreshResult>, err: Option<int>)

  predicate Enabled(s: Sys, a: Action) {
    match a
    case Tick(clock) => clock >= s.clock
    case TryStart(w, observed) => w !in s.active && observed <= s.clock && Admits(s.slot, observed)
    case Call(w) => w in s.active && s.active[w].Started?
    case Return(w) => w in s.active && s.active[w].Calling?
    case Finish(w, stamp, _, _) => w in s.active && s.active[w].Done? && s.active[w].ended <= stamp <= s.clock
  }

  function Apply(spacing: int, s: Sys, a: Action): Sys
    requires Enabled(s, a)
  {
    match a
    case Tick(clock) => s.(clock := clock)
    case TryStart(w, observed) => s.(slot := s.slot.(inFlight := true), active := s.active[w := Started(observed)])
    case Call(w) => s.(active := s.active[w := Calling], starts := s.starts + [s.clock])
    case Return(w) => s.(active := s.active[w := Done(s.clock)], ends := s.ends + [s.clock])
    case Finish(w, stamp, res, err) =>
      s.(slot := Finished(stamp, spacing, res, err), active := s.active - {w},
         waits := s.waits + [FinishWait(spacing, res, err)])
  }

  function Init(clock: int): Sys {
    Sys(clock, Slot(false, None), map[], [], [], [])
  }

  predicate Possible(spacing: int, s: Sys, run: seq<Action>)
    decreases |run|
  {
    run == [] || (Enabled(s, run[0]) && Possible(spacing, Apply(spacing, s, run[0]), run[1..]))
  }

  function After(spacing: int, s: Sys, run: seq<Action>): Sys
    requires Possible(spacing, s, run)
    decreases |run|
  {
    if run == [] then s else After(spacing, Apply(spacing, s, run[0]), run[1..])
  }

  // ---- Spacing ----

  /** The retry hint of an answer: 0 if there is none. */
  function Hint(res: Option<ManagedAuth.RefreshResult>, err: Option<int>): int {
    if res.Some? && res.value.retryAfter > 0 then res.value.retryAfter
    else if err.Some? && err.value > 0 then err.value
    else 0
  }

  predicate KeepsSpacing(spacing: int, hint: int) {
    hint == 0 || hint >= spacing
  }

  /** A release keeps the next admission `spacing` away exactly when the hint is absent or long enough. */
  lemma SpacingKeptIff(stamp: int, spacing: int, res: Option<ManagedAuth.RefreshResult>, err: Option<int>)
    requires spacing > 0
    ensures (forall now :: Admits(Finished(stamp, spacing, res, err), now) ==> now >= stamp + spacing)
       <==> KeepsSpacing(spacing, Hint(res, err))
  {
    assert Admits(Finished(stamp, spacing, res, err), stamp + FinishWait(spacing, res, err));
  }

  predicate HintsKeepSpacing(spacing: int, run: seq<Action>) {
    forall i :: 0 <= i < |run| && run[i].Finish? ==> KeepsSpacing(spacing, Hint(run[i].res, run[i].err))
  }

  /** Calls one after the other, each beginning at least the wait of the release before it after the end of
      the call before it. */
  predicate Waited(starts: seq<int>, ends: seq<int>, waits: seq<int>) {
    && |waits| <= |ends| <= |starts| <= |waits| + 1
    && (forall i :: 0 <= i < |ends| ==> starts[i] <= ends[i])
    && (forall i :: 0 <= i < |starts| - 1 ==> starts[i + 1] >= ends[i] + waits[i])
  }

  predicate ReadyFrom(s: Sys, instant: int) {
    && |s.starts| == |s.ends| == |s.waits|
    && (|s.ends| > 0 ==> instant >= s.ends[|s.ends| - 1] + s.waits[|s.ends| - 1])
  }

  /** At most one worker owns the slot, and only the owner is ever inside RefreshAuth. */
  ghost predicate Inv(s: Sys) {
    && Waited(s.starts, s.ends, s.waits)
    && (forall i :: 0 <= i < |s.ends| ==> s.ends[i] <= s.clock)
    && (forall i :: 0 <= i < |s.starts| ==> s.starts[i] <= s.clock)
    && (s.slot.inFlight <==> s.active != map[])
    && (forall v, w :: v in s.active && w in s.active ==> v == w)
    && (forall w :: w in s.active ==>
          match s.active[w]
          case Started(observed) => observed <= s.clock && ReadyFrom(s, observed)
          case Calling => |s.starts| == |s.ends| + 1
          case Done(ended) => |s.starts| == |s.ends| == |s.waits| + 1 && ended == s.ends[|s.ends| - 1])
    && (!s.slot.inFlight ==>
          if |s.ends| == 0 then ReadyFrom(s, 0)
          else s.slot.nextAttempt.Some? && ReadyFrom(s, s.slot.nextAttempt.value))
  }

  lemma StepKeepsInv(spacing: int, s: Sys, a: Action)
    requires spacing > 0 && Inv(s) && Enabled(s, a)
    ensures Inv(Apply(spacing, s, a))
  {
    var s' := Apply(spacing, s, a);
    match a
    case TryStart(w, _) => {
      assert w in s'.active;
    }
    case Finish(w, _, _, _) => {
      assert forall v :: v in s.active ==> v == w;
      assert s'.active == map[];
    }
    case _ => {
    }
  }

  lemma {:induction false} RunKeepsInv(spacing: int, s: Sys, run: seq<Action>)
    requires spacing > 0 && Inv(s) && Possible(spacing, s, run)
    ensures Inv(After(spacing, s, run))
    decreases |run|
  {
    hide Inv, Enabled, Apply;
    if run != [] {
      StepKeepsInv(spacing, s, run[0]);
      RunKeepsInv(spacing, Apply(spacing, s, run[0]), run[1..]);
    }
  }

  /** The waits of the releases of a run, in order. */
  function WaitsOf(spacing: int, run: seq<Action>): seq<int> {
    if run == [] then []
    else (if run[0].Finish? then [FinishWait(spacing, run[0].res, run[0].err)] else []) + WaitsOf(spacing, run[1..])
  }

  lemma {:induction false} WaitsAreRecorded(spacing: int, s: Sys, run: seq<Action>)
    requires Possible(spacing, s, run)
    ensures After(spacing, s, run).waits == s.waits + WaitsOf(spacing, run)
    decreases |run|
  {
    hide FinishWait, Enabled;
    if run != [] {
      WaitsAreRecorded(spacing, Apply(spacing, s, run[0]), run[1..]);
    }
  }

  /** Over every interleaving, calls on one scope never overlap, and each begins at least as long after the
      end of the call before it as the release of that one asked for. */
  lemma CallsWait(spacing: int, clock: int, run: seq<Action>)
    requires spacing > 0 && Possible(spacing, Init(clock), run)
    ensures var s := After(spacing, Init(clock), run);
      s.waits == WaitsOf(spacing, run) && Waited(s.starts, s.ends, s.waits)
  {
    hide Apply, Enabled, WaitsOf, Possible, After, Inv, Waited;
    WaitsAreRecorded(spacing, Init(clock), run);
    InitInv(clock);
    RunKeepsInv(spacing, Init(clock), run);
    InvIsWaited(After(spacing, Init(clock), run));
    assert [] + WaitsOf(spacing, run) == WaitsOf(spacing, run);
  }

  lemma InitInv(clock: int)
    ensures Inv(Init(clock))
  {
  }

  lemma InvIsWaited(s: Sys)
    requires Inv(s)
    ensures Waited(s.starts, s.ends, s.waits)
  {
    hide Waited;
  }

  predicate AllAtLeast(waits: seq<int>, least: int) {
    forall i :: 0 <= i < |waits| ==> waits[i] >= least
  }

  /** Calls one after the other, each beginning at least `spacing` after the end of the one before. */
  predicate Spaced(spacing: int, starts: seq<int>, ends: seq<int>) {
    && |ends| <= |starts| <= |ends| + 1
    && (forall i :: 0 <= i < |ends| ==> starts[i] <= ends[i])
    && (forall i :: 0 <= i < |starts| - 1 ==> starts[i + 1] >= ends[i] + spacing)
  }

  lemma {:induction false} HintsGiveWaits(spacing: int, run: seq<Action>)
    requires HintsKeepSpacing(spacing, run)
    ensures AllAtLeast(WaitsOf(spacing, run), spacing)
  {
    if run != [] {
      assert run[0].Finish? ==> KeepsSpacing(spacing, Hint(run[0].res, run[0].err));
      HintsGiveWaits(spacing, run[1..]);
    }
  }

  /** So if hints keep the spacing, calls keep it. */
  lemma CallsSpaced(spacing: int, clock: int, run: seq<Action>)
    requires spacing > 0 && Possible(spacing, Init(clock), run) && HintsKeepSpacing(spacing, run)
    ensures var s := After(spacing, Init(clock), run); Spaced(spacing, s.starts, s.ends)
  {
    hide Apply, Enabled, WaitsOf, After, Possible, HintsKeepSpacing;
    CallsWait(spacing, clock, run);
    HintsGiveWaits(spacing, run);
  }

  // ---- Budget ----

  /** How many of `instants` lie in the half-open interval. */
  function CountIn(instants: seq<int>, from: int, to: int): nat {
    if instants == [] then 0
    else
      CountIn(instants[..|instants| - 1], from, to) + (if from <= instants[|instants| - 1] < to then 1 else 0)
  }

  lemma {:induction false} CountBelow(instants: seq<int>, from: int, to: int, to': int)
    requires forall i :: 0 <= i < |instants| ==> instants[i] < to'
    requires to' <= to
    ensures CountIn(instants, from, to) == CountIn(instants, from, to')
  {
    if instants != [] {
      CountBelow(instants[..|instants| - 1], from, to, to');
    }
  }

  lemma CountLast(instants: seq<int>, from: int, to: int)
    requires instants != []
    ensures var last := instants[|instants| - 1];
      CountIn(instants, from, to)
      == CountIn(instants[..|instants| - 1], from, to) + (if from <= last < to then 1 else 0)
  {
  }

  /** Instants at least `gap` apart: an interval n gaps long holds at most n of them. */
  lemma {:induction false} AtMostOnePerGap(instants: seq<int>, gap: int, from: int, n: nat)
    requires gap > 0
    requires forall i :: 0 <= i < |instants| - 1 ==> instants[i + 1] >= instants[i] + gap
    ensures CountIn(instants, from, from + n * gap) <= n
  {
    if instants != [] {
      var rest, last, to := instants[..|instants| - 1], instants[|instants| - 1], from + n * gap;
      CountLast(instants, from, to);
      hide CountIn;
      if from <= last < to {
        EmptyInterval(n, gap);
        var to' := from + (n - 1) * gap;
        assert to' == to - gap by { OneGapLess(n, gap); }
        GapsAscend(instants, gap, |rest|);
        CountBelow(rest, from, to, to');
        AtMostOnePerGap(rest, gap, from, n - 1);
      } else {
        AtMostOnePerGap(rest, gap, from, n);
      }
    }
  }

  lemma EmptyInterval(n: nat, gap: int)
    ensures n == 0 ==> n * gap == 0
  {
  }

  lemma OneGapLess(n: int, gap: int)
    ensures (n - 1) * gap == n * gap - gap
  {
  }

  lemma {:induction false} GapsAscend(instants: seq<int>, gap: int, k: nat)
    requires gap > 0 && k < |instants|
    requires forall i :: 0 <= i < |instants| - 1 ==> instants[i + 1] >= instants[i] + gap
    ensures forall i :: 0 <= i < k ==> instants[i] <= instants[k] - gap
  {
    if k > 0 {
      GapsAscend(instants, gap, k - 1);
    }
  }

  /** Without any hypothesis on the hints: an interval n times the least wait of a run holds at most n
      calls. */
  lemma WithinLeastWait(spacing: int, clock: int, run: seq<Action>, least: int, from: int, n: nat)
    requires spacing > 0 && Possible(spacing, Init(clock), run)
    requires least > 0 && AllAtLeast(WaitsOf(spacing, run), least)
    ensures CountIn(After(spacing, Init(clock), run).starts, from, from + n * least) <= n
  {
    hide Possible, After, CountIn, WaitsOf;
    CallsWait(spacing, clock, run);
    AtMostOnePerGap(After(spacing, Init(clock), run).starts, least, from, n);
  }

  /** The upstream limits: at most 20 new-api-v1 calls in any 20 minutes, and at most 30 sub2api calls in
      any 60 seconds, on the scope of this row, while no answer carries a positive hint shorter than the
      spacing. */
  lemma WithinUpstreamLimits(row: Row, clock: int, run: seq<Action>, from: int)
    requires Possible(SiteSpacing(row), Init(clock), run) && HintsKeepSpacing(SiteSpacing(row), run)
    ensures PlatformName(row) == "new-api-v1" ==>
      CountIn(After(SiteSpacing(row), Init(clock), run).starts, from, from + 20 * 60 * SECOND) <= 20
    ensures PlatformName(row) == "sub2api" ==>
      CountIn(After(SiteSpacing(row), Init(clock), run).starts, from, from + 60 * SECOND) <= 30
  {
    hide Possible, After, HintsKeepSpacing, CountIn, PlatformName;
    if PlatformName(row) in {"new-api-v1", "sub2api"} {
      CallsSpaced(SiteSpacing(row), clock, run);
      AtMostOnePerGap(After(SiteSpacing(row), Init(clock), run).starts, SiteSpacing(row), from,
                      if PlatformName(row) == "new-api-v1" then 20 else 30);
    }
  }

  // ---- Why the hypothesis is needed ----

  /** A conflict answer, which is a refresh race, asks for a retry after two seconds. */
  const RACED := NewApiV1.ClassifiedFailure("", 409, 0)

  const RACE_WAIT := NewApiV1.REFRESH_RACE_BACKOFF

  /** Raced refreshes one after the other, each followed by the two seconds its answer asks for. */
  function Races(clock: int, n: nat): seq<Action>
    decreases n
  {
    if n == 0 then [] else Race(clock, Races(clock + RACE_WAIT, n - 1))
  }

  function Race(clock: int, later: seq<Action>): seq<Action> {
    [TryStart(0, clock)] + ([Call(0)] + ([Action.Return(0)] + ([Finish(0, clock, Some(RACED), None)]
      + ([Tick(clock + RACE_WAIT)] + later))))
  }

  /** The state after one race. */
  function Raced(s: Sys): Sys {
    Sys(s.clock + RACE_WAIT, Slot(false, Some(s.clock + RACE_WAIT)), map[], s.starts + [s.clock], s.ends + [s.clock],
        s.waits + [RACE_WAIT])
  }

  lemma FirstAction(spacing: int, s: Sys, a: Action, run: seq<Action>)
    requires Enabled(s, a)
    ensures Possible(spacing, s, [a] + run) == Possible(spacing, Apply(spacing, s, a), run)
    ensures Possible(spacing, s, [a] + run) ==>
      After(spacing, s, [a] + run) == After(spacing, Apply(spacing, s, a), run)
  {
    hide Enabled, Apply;
    assert ([a] + run)[1..] == run;
  }

  lemma {:induction false} RacesRun(s: Sys, n: nat)
    requires s.active == map[] && Admits(s.slot, s.clock)
    ensures Possible(MINUTE, s, Races(s.clock, n))
    ensures var s' := After(MINUTE, s, Races(s.clock, n));
      && |s'.starts| == |s.starts| + n && s'.starts[..|s.starts|] == s.starts
      && forall i :: |s.starts| <= i < |s'.starts| ==> s.clock <= s'.starts[i] < s.clock + n * RACE_WAIT
    decreases n
  {
    hide Possible, After, Race;
    if n == 0 {
      EmptyRun(s);
    } else {
      OneRace(s, Races(s.clock + RACE_WAIT, n - 1));
      RacesRun(Raced(s), n - 1);
      var s' := After(MINUTE, s, Races(s.clock, n));
      assert s'.starts[|s.starts|] == Raced(s).starts[|s.starts|];
    }
  }

  lemma OneRace(s: Sys, later: seq<Action>)
    requires s.active == map[] && Admits(s.slot, s.clock)
    ensures Possible(MINUTE, s, Race(s.clock, later)) == Possible(MINUTE, Raced(s), later)
    ensures Possible(MINUTE, Raced(s), later) ==>
      After(MINUTE, s, Race(s.clock, later)) == After(MINUTE, Raced(s), later)
  {
    hide Possible, After, NewApiV1.ClassifiedFailure;
    var finish := Finish(0, s.clock, Some(RACED), None);
    RaceIsRace();
    var s1 := Apply(MINUTE, s, TryStart(0, s.clock));
    var s2 := Apply(MINUTE, s1, Call(0));
    var s3 := Apply(MINUTE, s2, Action.Return(0));
    var s4 := Apply(MINUTE, s3, finish);
    assert s4 == Sys(s.clock, Slot(false, Some(s.clock + RACE_WAIT)), map[], s.starts + [s.clock], s.ends + [s.clock],
        s.waits + [RACE_WAIT]);
    var done := [Tick(s.clock + RACE_WAIT)] + later;
    FirstAction(MINUTE, s4, Tick(s.clock + RACE_WAIT), later);
    FirstAction(MINUTE, s3, finish, done);
    FirstAction(MINUTE, s2, Action.Return(0), [finish] + done);
    FirstAction(MINUTE, s1, Call(0), [Action.Return(0)] + ([finish] + done));
    FirstAction(MINUTE, s, TryStart(0, s.clock), [Call(0)] + ([Action.Return(0)] + ([finish] + done)));
  }

  lemma EmptyRun(s: Sys)
    ensures Possible(MINUTE, s, []) && After(MINUTE, s, []) == s
  {
  }

  lemma RaceIsRace()
    ensures RACED == NewApiV1.RetryIn(RACE_WAIT)
  {
  }

  lemma {:induction false} CountAll(instants: seq<int>, from: int, to: int)
    requires forall i :: 0 <= i < |instants| ==> from <= instants[i] < to
    ensures CountIn(instants, from, to) == |instants|
  {
    if instants != [] {
      CountAll(instants[..|instants| - 1], from, to);
    }
  }

  /** Without the hypothesis the limit is missed by far: a race hint replaces the minute of spacing, so
      one account can make 600 new-api-v1 calls in 20 minutes. */
  lemma RacesExceedLimit(clock: int)
    ensures var run := Races(clock, 600);
      && Possible(NEW_API_SITE_SPACING, Init(clock), run)
      && CountIn(After(NEW_API_SITE_SPACING, Init(clock), run).starts, clock, clock + 20 * MINUTE) == 600
  {
    hide Possible, After, CountIn, Races;
    RacesRun(Init(clock), 600);
    CountAll(After(NEW_API_SITE_SPACING, Init(clock), Races(clock, 600)).starts, clock, clock + 20 * MINUTE);
  }

  // ---- The same through the account record ----

  /** A forced refresh at `t` that meets a race. */
  function RaceCall(row: Row, t: int): Attempt {
    Attempt(row, true, t, true, t, true, Answer(Some(RACED), None), t, t, true, true)
  }

  function RaceCalls(row: Row, t: int, n: nat): (calls: seq<Attempt>)
    ensures |calls| == n
    ensures forall k :: 0 <= k < n ==> calls[k] == RaceCall(row, t + k * RACE_WAIT)
  {
    seq(n, k => RaceCall(row, t + k * RACE_WAIT))
  }

  /** Neither the record of the account nor the slot holds off a refresh at `t`, and none succeeded yet. */
  predicate Ready(env: Env, s: Session, t: int) {
    var rec := Sync(s.record, FingerprintOf(env, s.row));
    RetryDelay(rec, t) == 0 && rec.lastSuccess == None && Admits(s.slot, t)
  }

  /** A raced refresh reaches the upstream, and the account may go on two seconds later. */
  lemma RaceStep(env: Env, s: Session, t: int)
    requires PlatformName(s.row) == NEW_API_V1 && Ready(env, s, t)
    ensures var e := Refresh(env, s, RaceCall(s.row, t));
      e.asked && e.session.row == s.row && Ready(env, e.session, t + RACE_WAIT)
  {
    hide FingerprintOf, IsRefreshDue, PlatformName, NewApiV1.ClassifiedFailure;
    RaceIsRace();
  }

  lemma {:induction false} AccountRaces(env: Env, row: Row, t: int, n: nat, k: nat)
    requires PlatformName(row) == NEW_API_V1 && k <= n
    ensures var s := SessionRuns.SessionAfter(env, Session(FRESH, Slot(false, None), row), RaceCalls(row, t, n)[..k]);
      s.row == row && Ready(env, s, t + k * RACE_WAIT)
  {
    hide FingerprintOf, Refresh, Ready, RaceCall, PlatformName, RaceCalls;
    var start, calls := Session(FRESH, Slot(false, None), row), RaceCalls(row, t, n);
    if k == 0 {
      FreshIsReady(env, start, t);
    } else {
      AccountRaces(env, row, t, n, k - 1);
      hide SessionRuns.SessionAfter;
      SessionRuns.SessionStep(env, start, calls, k - 1);
      RaceStep(env, SessionRuns.SessionAfter(env, start, calls[..k - 1]), t + (k - 1) * RACE_WAIT);
      OneGapLess(k, RACE_WAIT);
    }
  }

  lemma FreshIsReady(env: Env, s: Session, t: int)
    requires s.record == FRESH && s.slot == Slot(false, None)
    ensures Ready(env, s, t)
  {
    hide FingerprintOf;
  }

  /** One account alone, from a fresh start: 600 forced refreshes in 20 minutes that all reach the upstream. */
  lemma OneAccountExceedsLimit(env: Env, row: Row, t: int, k: nat)
    requires PlatformName(row) == NEW_API_V1 && k < 600
    ensures var start, calls := Session(FRESH, Slot(false, None), row), RaceCalls(row, t, 600);
      SessionRuns.EffectOf(env, start, calls, k).asked && t <= calls[k].now < t + 20 * MINUTE
  {
    hide FingerprintOf, Refresh, Ready, SessionRuns.SessionAfter;
    var start, calls := Session(FRESH, Slot(false, None), row), RaceCalls(row, t, 600);
    AccountRaces(env, row, t, 600, k);
    RaceStep(env, SessionRuns.SessionAfter(env, start, calls[..k]), t + k * RACE_WAIT);
  }
}
