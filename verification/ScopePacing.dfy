/** Pacing of the refresh calls that share one scope, whatever accounts they are for
    (service/managed_session.go:461-524, 596-618). */
module ScopePacing {
  import opened Json
  import opened RefreshTiming
  import opened ManagedSession
  import Pacing

  /** The hint of the answer as the slot sees it. */
  function HintOf(a: Attempt): int {
    Pacing.Hint(Heard(a), a.answer.err)
  }

  /** How far apart calls of a platform are kept. */
  function SpacingOf(platform: string): int {
    if platform == "new-api-v1" then 60 * SECOND else if platform == "sub2api" then 2 * SECOND else 0
  }

  /** A call is made only if the slot admits it; afterwards the slot admits the next one exactly from the
      spacing of the platform after the end, or from the hint of the answer if there is one. A call that is
      not made leaves the slot alone. */
  lemma NextAdmission(env: Env, s: Session, a: Attempt)
    requires SpacingOf(PlatformName(s.row)) > 0
    ensures var e := Refresh(env, s, a);
      && (e.asked ==> Admits(s.slot, a.now))
      && (e.asked ==> forall t :: Admits(e.session.slot, t) <==>
            t >= a.finishedAt + (if HintOf(a) > 0 then HintOf(a) else SpacingOf(PlatformName(s.row))))
      && (!e.asked ==> e.session.slot == s.slot)
  {
    hide FingerprintOf, IsRefreshDue, PlatformName, RetryDelay, Backoff, Heard;
    OneSpacing(s.row);
    SlotEffect(env, s, a);
  }

  lemma OneSpacing(row: Row)
    ensures SiteSpacing(row) == SpacingOf(PlatformName(row))
  {
    hide PlatformName;
  }

  lemma SlotEffect(env: Env, s: Session, a: Attempt)
    requires SiteSpacing(s.row) > 0
    ensures var e := Refresh(env, s, a);
      && (e.asked ==> Admits(s.slot, a.now))
      && (e.asked ==> e.session.slot == Finished(a.finishedAt, SiteSpacing(s.row), Heard(a), a.answer.err))
      && (!e.asked ==> e.session.slot == s.slot)
  {
    hide FingerprintOf, IsRefreshDue, SiteSpacing, RetryDelay, Backoff, Heard, Finished, Settle;
  }

  // ---- A run of calls on one scope ----

  /** One call: the record and the row of its account, and the call. */
  datatype Turn = Turn(record: Record, row: Row, attempt: Attempt)

  function EffectAt(env: Env, slot: Slot, turns: seq<Turn>, k: nat): Effect
    requires k < |turns|
    decreases k, 1
  {
    Refresh(env, Session(turns[k].record, SlotBefore(env, slot, turns, k), turns[k].row), turns[k].attempt)
  }

  function SlotBefore(env: Env, slot: Slot, turns: seq<Turn>, k: nat): Slot
    requires k <= |turns|
    decreases k, 0
  {
    if k == 0 then slot else EffectAt(env, slot, turns, k - 1).session.slot
  }

  /** The instants at which the first `k` calls reached the upstream, if they did. */
  function Calls(env: Env, slot: Slot, turns: seq<Turn>, k: nat): seq<int>
    requires k <= |turns|
  {
    if k == 0 then []
    else
      Calls(env, slot, turns, k - 1)
      + if EffectAt(env, slot, turns, k - 1).asked then [turns[k - 1].attempt.now] else []
  }

  /** Accounts of one platform; calls end after they begin, and no hint is shorter than the spacing. */
  predicate OnPlatform(turns: seq<Turn>, platform: string) {
    forall k :: 0 <= k < |turns| ==>
      && PlatformName(turns[k].row) == platform
      && turns[k].attempt.now <= turns[k].attempt.finishedAt
      && Pacing.KeepsSpacing(SpacingOf(platform), HintOf(turns[k].attempt))
  }

  predicate Apart(instants: seq<int>, gap: int) {
    forall i :: 0 <= i < |instants| - 1 ==> instants[i + 1] >= instants[i] + gap
  }

  lemma {:induction false} CallsApart(env: Env, slot: Slot, turns: seq<Turn>, platform: string, k: nat)
    requires k <= |turns| && OnPlatform(turns, platform) && SpacingOf(platform) > 0
    ensures var calls := Calls(env, slot, turns, k);
      && Apart(calls, SpacingOf(platform))
      && (calls != [] ==> forall t :: Admits(SlotBefore(env, slot, turns, k), t) ==>
            t >= calls[|calls| - 1] + SpacingOf(platform))
  {
    hide Refresh, PlatformName, HintOf, Admits, SpacingOf;
    if k > 0 {
      CallsApart(env, slot, turns, platform, k - 1);
      var turn := turns[k - 1];
      NextAdmission(env, Session(turn.record, SlotBefore(env, slot, turns, k - 1), turn.row), turn.attempt);
    }
  }

  /** The upstream limits over any run of refresh calls on one scope: at most 20 calls of new-api-v1 in any 20
      minutes, at most 30 of sub2api in any minute. */
  lemma ScopeWithinLimits(env: Env, slot: Slot, turns: seq<Turn>, from: int)
    ensures OnPlatform(turns, "new-api-v1") ==>
      Pacing.CountIn(Calls(env, slot, turns, |turns|), from, from + 20 * 60 * SECOND) <= 20
    ensures OnPlatform(turns, "sub2api") ==>
      Pacing.CountIn(Calls(env, slot, turns, |turns|), from, from + 60 * SECOND) <= 30
  {
    hide OnPlatform, Calls, Pacing.CountIn;
    if OnPlatform(turns, "new-api-v1") {
      CallsApart(env, slot, turns, "new-api-v1", |turns|);
      Pacing.AtMostOnePerGap(Calls(env, slot, turns, |turns|), 60 * SECOND, from, 20);
    }
    if OnPlatform(turns, "sub2api") {
      CallsApart(env, slot, turns, "sub2api", |turns|);
      Pacing.AtMostOnePerGap(Calls(env, slot, turns, |turns|), 2 * SECOND, from, 30);
    }
  }
}
