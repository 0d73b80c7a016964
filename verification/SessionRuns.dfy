/** What the managed refresh guarantees over whole runs of one account. */
module SessionRuns {
  import opened Text
  import opened Json
  import opened ManagedAuth
  import opened RefreshTiming
  import opened ManagedSession

  // ---- When a token is due ----

  /** The expiry claimed by the token itself counts, if it claims one, else the recorded one. A token is due
      from its lead before that on - never more than ten minutes before, and always four minutes before - and
      without any expiry never. */
  lemma DueExactly(env: Env, row: Row, now: int)
    ensures var claimed, recorded := env.jwtExpiry(row.accessToken), ReadExpiry(Decoded(row.extraConfig));
      var expiry := if claimed > 0 then claimed else recorded;
      var left := expiry * MILLISECOND - now;
      && (IsRefreshDue(env, row, now) <==> expiry > 0 && left <= LeadFor(env.jwtLifetime(row.accessToken)))
      && (IsRefreshDue(env, row, now) ==> expiry > 0 && left <= 10 * 60 * SECOND)
      && (expiry > 0 && left <= 4 * 60 * SECOND ==> IsRefreshDue(env, row, now))
  {
    hide IsDueWithLead, LeadMillis, ReadExpiry;
    DueIff(TokenExpiresAt(env, row), now, env.jwtLifetime(row.accessToken));
  }

  // ---- One step ----

  /** Past the account lock: managed, due or forced, and the row could be read. */
  predicate PastLock(env: Env, a: Attempt) {
    IsManaged(a.caller) && (a.force || IsRefreshDue(env, a.caller, a.enteredAt)) && a.readOk
  }

  /** Every return past the lock carries the access token and the configuration stored at that moment. Only
      didRefresh says that the row changed. Before the lock the caller gets its own row back, and nothing
      changes. */
  lemma ReturnsStoredToken(env: Env, s: Session, a: Attempt)
    ensures var e := Refresh(env, s, a);
      && (PastLock(env, a) ==> e.ret.token == e.session.row.accessToken && e.ret.config == e.session.row.extraConfig)
      && (!PastLock(env, a) ==>
            && e.session == s && !e.asked
            && e.ret.token == a.caller.accessToken && e.ret.config == a.caller.extraConfig)
      && (e.ret.didRefresh ==> PastLock(env, a) && e.asked && e.ret.error.None?)
      && (!e.ret.didRefresh ==> e.session.row == s.row)
  {
    hide FingerprintOf, IsRefreshDue, Backoff, Trim, SiteSpacing;
  }

  /** An answer worth storing: a success with an access token and a configuration. */
  predicate IsRenewal(answer: Answer) {
    && answer.err.None? && answer.res.Some? && answer.res.value.success && Trim(answer.res.value.accessToken) != ""
    && HasConfig(answer.res.value)
  }

  predicate HasConfig(res: RefreshResult) {
    !res.extraConfig.Absent? && !res.extraConfig.Blank?
  }

  /** A call that reaches the adapter refreshes exactly if the answer is worth storing and a write succeeds.
      The row then holds the token and the configuration of the answer; an expired account is active again,
      any other status and all other columns are as they were. */
  lemma RenewalIsStored(env: Env, s: Session, a: Attempt)
    requires Refresh(env, s, a).asked
    ensures var e := Refresh(env, s, a);
      && (e.ret.didRefresh <==> IsRenewal(a.answer) && (a.firstWrite || a.secondWrite))
      && (e.ret.didRefresh ==>
            && e.session.row.accessToken == a.answer.res.value.accessToken
            && e.session.row.extraConfig == a.answer.res.value.extraConfig
            && e.session.row.status == (if s.row.status == Some("expired") then Some("active") else s.row.status)
            && s.row == e.session.row.(accessToken := s.row.accessToken, extraConfig := s.row.extraConfig,
                                       status := s.row.status))
  {
    hide FingerprintOf, IsRefreshDue, Backoff, Trim, SiteSpacing;
  }

  /** A refresh records the fingerprint of the row it just wrote. */
  lemma OwnWriteMatches(env: Env, s: Session, a: Attempt)
    ensures var e := Refresh(env, s, a);
      e.ret.didRefresh ==> e.session.record.credential == Some(FingerprintOf(env, e.session.row))
                           && Sync(e.session.record, FingerprintOf(env, e.session.row)) == e.session.record
  {
    hide FingerprintOf, IsRefreshDue, Backoff, Trim, SiteSpacing;
  }

  /** The wait an answer asks for, if `failures` calls in a row have failed by now: a minute after a
      renewal, six hours if both writes of it failed, else the backoff - six hours for a dead credential. */
  function WaitAfter(a: Attempt, failures: nat): int {
    if a.answer.err.None? && Usable(Heard(a)) then
      if a.firstWrite || a.secondWrite then MIN_SPACING else DEAD_BACKOFF
    else Backoff(failures, Heard(a))
  }

  /** What ends a credential if it is not stored: a renewal, or an answer that says it is gone - other than a
      success without a configuration, which says nothing. */
  predicate EndsCredential(answer: Answer) {
    && answer.err.None? && answer.res.Some?
    && (IsRenewal(answer) || (answer.res.value.dead && (answer.res.value.success ==> HasConfig(answer.res.value))))
  }

  /** A call is made only when no wait is pending. It renews exactly on a usable answer that is stored;
      otherwise it reports that wait, six hours if it reports the credential dead. The next call has to
      wait as long. */
  lemma AfterCall(env: Env, s: Session, a: Attempt)
    requires Refresh(env, s, a).asked
    ensures var e := Refresh(env, s, a);
      && RetryDelay(Sync(s.record, FingerprintOf(env, s.row)), a.now) == 0
      && (e.ret.didRefresh <==> a.answer.err.None? && Usable(Heard(a)) && (a.firstWrite || a.secondWrite))
      && (e.ret.didRefresh <==> e.ret.error.None?)
      && e.session.record.failures
         == (if e.ret.didRefresh then 0 else Sync(s.record, FingerprintOf(env, s.row)).failures + 1)
      && (e.ret.error.Some? ==> e.ret.error.value.wait == WaitAfter(a, e.session.record.failures))
      && (e.ret.error.Some? && e.ret.error.value.kind == CredentialDead ==> e.ret.error.value.wait == DEAD_BACKOFF)
      && (e.ret.error.Some? ==>
            e.ret.error.value.kind == if EndsCredential(a.answer) then CredentialDead else Retryable)
      && forall t :: RetryDelay(e.session.record, t) == 0
           ==> t >= a.recordedAt + WaitAfter(a, e.session.record.failures)
  {
    hide FingerprintOf, IsRefreshDue, Trim, SiteSpacing;
  }

  // ---- Spacing over a run ----

  /** One call of a run: what it saw of the shared slot and the stored row, and the call itself. */
  datatype Turn = Turn(slot: Slot, row: Row, attempt: Attempt)

  function EffectAt(env: Env, rec: Record, turns: seq<Turn>, k: nat): Effect
    requires k < |turns|
    decreases k, 1
  {
    Refresh(env, Session(RecordBefore(env, rec, turns, k), turns[k].slot, turns[k].row), turns[k].attempt)
  }

  function RecordBefore(env: Env, rec: Record, turns: seq<Turn>, k: nat): Record
    requires k <= |turns|
    decreases k, 0
  {
    if k == 0 then rec else EffectAt(env, rec, turns, k - 1).session.record
  }

  /** The credential the call reads is the one the record is about. */
  predicate Unchanged(env: Env, rec: Record, turns: seq<Turn>, k: nat)
    requires k < |turns|
  {
    turns[k].attempt.readOk ==> RecordBefore(env, rec, turns, k).credential == Some(FingerprintOf(env, turns[k].row))
  }

  /** A call that does not reach the adapter keeps the record while the credential is unchanged. */
  lemma QuietKeepsRecord(env: Env, s: Session, a: Attempt)
    requires a.readOk ==> s.record.credential == Some(FingerprintOf(env, s.row))
    requires !Refresh(env, s, a).asked
    ensures Refresh(env, s, a).session.record == s.record
  {
    hide FingerprintOf, IsRefreshDue, Trim, SiteSpacing, Backoff;
  }

  lemma {:induction false} RecordKept(env: Env, rec: Record, turns: seq<Turn>, i: nat, j: nat)
    requires i < j < |turns|
    requires forall k :: i < k < j ==> !EffectAt(env, rec, turns, k).asked
    requires forall k :: i < k <= j ==> Unchanged(env, rec, turns, k)
    ensures RecordBefore(env, rec, turns, j) == EffectAt(env, rec, turns, i).session.record
  {
    hide Refresh, FingerprintOf;
    if j > i + 1 {
      RecordKept(env, rec, turns, i, j - 1);
      assert Unchanged(env, rec, turns, j - 1);
      assert !EffectAt(env, rec, turns, j - 1).asked;
      QuietKeepsRecord(env, Session(RecordBefore(env, rec, turns, j - 1), turns[j - 1].slot, turns[j - 1].row),
                       turns[j - 1].attempt);
    }
  }

  /** While the credential of the account is unchanged, two calls in a row to the upstream - forced or
      not, whatever other accounts do to the slot - are at least a minute apart after a success, the
      backoff of the answer after a failure, and six hours after a dead credential. */
  lemma ConsecutiveCallsSpaced(env: Env, rec: Record, turns: seq<Turn>, i: nat, j: nat)
    requires i < j < |turns|
    requires EffectAt(env, rec, turns, i).asked && EffectAt(env, rec, turns, j).asked
    requires forall k :: i < k < j ==> !EffectAt(env, rec, turns, k).asked
    requires forall k :: i < k <= j ==> Unchanged(env, rec, turns, k)
    ensures
      var a, e := turns[i].attempt, EffectAt(env, rec, turns, i);
      var gap := turns[j].attempt.now - a.recordedAt;
      && (e.ret.didRefresh ==> gap >= 60 * SECOND)
      && (e.ret.error.Some? && e.ret.error.value.kind == CredentialDead ==> gap >= 6 * 60 * 60 * SECOND)
      && (a.answer.err.Some? || !Usable(Heard(a)) ==> gap >= Backoff(e.session.record.failures, Heard(a)))
  {
    hide Refresh, FingerprintOf, RetryDelay, Backoff, Usable;
    RecordKept(env, rec, turns, i, j);
    AfterCall(env, Session(RecordBefore(env, rec, turns, i), turns[i].slot, turns[i].row), turns[i].attempt);
    AfterCall(env, Session(RecordBefore(env, rec, turns, j), turns[j].slot, turns[j].row), turns[j].attempt);
    AskedMeansRead(env, Session(RecordBefore(env, rec, turns, j), turns[j].slot, turns[j].row), turns[j].attempt);
    assert Unchanged(env, rec, turns, j);
  }

  /** Failed calls since the last success. */
  function FailuresInARow(env: Env, rec: Record, turns: seq<Turn>, k: nat): nat
    requires k <= |turns|
  {
    if k == 0 then rec.failures
    else
      var e := EffectAt(env, rec, turns, k - 1);
      if !e.asked then FailuresInARow(env, rec, turns, k - 1)
      else if e.ret.didRefresh then 0
      else FailuresInARow(env, rec, turns, k - 1) + 1
  }

  /** The backoff of a failing call is computed from the number of failures in a row, whatever deferred
      and refused calls lie between them. */
  lemma {:induction false} FailuresAreCounted(env: Env, rec: Record, turns: seq<Turn>, k: nat)
    requires k <= |turns| && forall j :: 0 <= j < k ==> Unchanged(env, rec, turns, j)
    ensures RecordBefore(env, rec, turns, k).failures == FailuresInARow(env, rec, turns, k)
  {
    hide Refresh, FingerprintOf, RetryDelay;
    if k > 0 {
      FailuresAreCounted(env, rec, turns, k - 1);
      assert Unchanged(env, rec, turns, k - 1);
      var s := Session(RecordBefore(env, rec, turns, k - 1), turns[k - 1].slot, turns[k - 1].row);
      if EffectAt(env, rec, turns, k - 1).asked {
        AfterCall(env, s, turns[k - 1].attempt);
        AskedMeansRead(env, s, turns[k - 1].attempt);
      } else {
        QuietKeepsRecord(env, s, turns[k - 1].attempt);
      }
    }
  }

  /** After f failures in a row without a hint or a dead mark, the next call comes min(2 min * 2^(f-1),
      30 min) later or more, whatever deferred and refused calls lie between the failures. */
  lemma FailureGapsDouble(env: Env, rec: Record, turns: seq<Turn>, i: nat, j: nat)
    requires i < j < |turns|
    requires EffectAt(env, rec, turns, i).asked && EffectAt(env, rec, turns, j).asked
    requires forall k :: i < k < j ==> !EffectAt(env, rec, turns, k).asked
    requires forall k :: 0 <= k <= j ==> Unchanged(env, rec, turns, k)
    requires var a := turns[i].attempt;
      && (a.answer.err.Some? || !Usable(Heard(a)))
      && (Heard(a).Some? ==> !Heard(a).value.dead && Heard(a).value.retryAfter <= 0)
    ensures var f := FailuresInARow(env, rec, turns, i + 1);
      && f > 0
      && turns[j].attempt.now - turns[i].attempt.recordedAt >= Min(2 * 60 * SECOND * Pow2(f - 1), 30 * 60 * SECOND)
  {
    hide Refresh, FingerprintOf, RetryDelay, Usable, FailuresInARow, Checked;
    ConsecutiveCallsSpaced(env, rec, turns, i, j);
    FailuresAreCounted(env, rec, turns, i + 1);
    AfterCall(env, Session(RecordBefore(env, rec, turns, i), turns[i].slot, turns[i].row), turns[i].attempt);
  }

  lemma AskedMeansRead(env: Env, s: Session, a: Attempt)
    requires Refresh(env, s, a).asked
    ensures a.readOk
  {
    hide FingerprintOf, IsRefreshDue, Trim, SiteSpacing, Backoff;
  }

  // ---- Callers that hold the same stale row ----

  /** The sessions a sequence of calls goes through when nothing else writes the row. */
  function SessionAfter(env: Env, s: Session, calls: seq<Attempt>): Session {
    if calls == [] then s
    else Refresh(env, SessionAfter(env, s, calls[..|calls| - 1]), calls[|calls| - 1]).session
  }

  function EffectOf(env: Env, s: Session, calls: seq<Attempt>, k: nat): Effect
    requires k < |calls|
  {
    Refresh(env, SessionAfter(env, s, calls[..k]), calls[k])
  }

  /** All callers hold `stale`; the upstream never hands out the stale token again; and a caller that
      does not force finds the stored credential not due once it was renewed. */
  ghost predicate SameStaleRow(env: Env, s: Session, calls: seq<Attempt>, stale: Row) {
    forall k :: 0 <= k < |calls| ==>
      && calls[k].caller == stale
      && (calls[k].answer.res.Some? && calls[k].answer.res.value.success
          ==> calls[k].answer.res.value.accessToken != stale.accessToken)
      && var row := SessionAfter(env, s, calls[..k]).row;
         (!calls[k].force && row.accessToken != stale.accessToken ==> !IsRefreshDue(env, row, calls[k].now))
  }

  lemma RenewedStaysRenewed(env: Env, s: Session, a: Attempt, stale: Row)
    requires a.caller == stale
    requires a.answer.res.Some? && a.answer.res.value.success ==> a.answer.res.value.accessToken != stale.accessToken
    requires !a.force && s.row.accessToken != stale.accessToken ==> !IsRefreshDue(env, s.row, a.now)
    ensures var e := Refresh(env, s, a);
      && (e.ret.didRefresh ==> e.session.row.accessToken != stale.accessToken)
      && (s.row.accessToken != stale.accessToken ==> !e.asked && !e.ret.didRefresh && e.session.row == s.row)
      && (!e.ret.didRefresh ==> e.session.row == s.row)
  {
    hide FingerprintOf, IsRefreshDue, Trim, SiteSpacing, Backoff;
  }

  lemma SessionStep(env: Env, s: Session, calls: seq<Attempt>, k: nat)
    requires k < |calls|
    ensures SessionAfter(env, s, calls[..k + 1]) == EffectOf(env, s, calls, k).session
  {
    hide Refresh;
    assert calls[..k + 1][..k] == calls[..k];
  }

  /** Once a call renewed the credential, the row stays as that call left it. */
  lemma {:induction false} RenewedRowKept(env: Env, s: Session, calls: seq<Attempt>, stale: Row, i: nat, k: nat)
    requires SameStaleRow(env, s, calls, stale)
    requires i < k <= |calls| && EffectOf(env, s, calls, i).ret.didRefresh
    ensures SessionAfter(env, s, calls[..k]).row == EffectOf(env, s, calls, i).session.row
    ensures SessionAfter(env, s, calls[..k]).row.accessToken != stale.accessToken
  {
    hide Refresh, IsRefreshDue, SessionAfter;
    SessionStep(env, s, calls, k - 1);
    RenewedStaysRenewed(env, SessionAfter(env, s, calls[..k - 1]), calls[k - 1], stale);
    if k - 1 > i {
      RenewedRowKept(env, s, calls, stale, i, k - 1);
    }
  }

  /** When a caller reaches the upstream: with force, only if it holds the stored token; without, only if the
      token stored by now is itself due; and either way only past its waits and with the slot free. */
  lemma CallerAsksIff(env: Env, s: Session, a: Attempt)
    ensures Refresh(env, s, a).asked <==>
      && PastLock(env, a) && a.adapterKnown
      && (if a.force then s.row.accessToken == a.caller.accessToken else IsRefreshDue(env, s.row, a.now))
      && RetryDelay(Sync(s.record, FingerprintOf(env, s.row)), a.now) == 0
      && (SiteSpacing(s.row) > 0 ==> Admits(s.slot, a.now))
  {
    hide FingerprintOf, IsRefreshDue, Trim, SiteSpacing, Backoff;
  }

  /** A call that does not reach the upstream is silent exactly if there was nothing to do for it: the account
      is not managed, or not due and not forced, or its token was replaced meanwhile, or the scheduler found
      it waiting. The database and a missing adapter are reported as such. */
  lemma SilentIff(env: Env, s: Session, a: Attempt)
    requires !Refresh(env, s, a).asked
    ensures var error := Refresh(env, s, a).ret.error;
      var wanted := IsManaged(a.caller) && (a.force || IsRefreshDue(env, a.caller, a.enteredAt));
      var waits := RetryDelay(Refresh(env, s, a).session.record, a.now) > 0;
      && (error.None? <==>
            || !wanted
            || (a.readOk && a.force && s.row.accessToken != a.caller.accessToken)
            || (a.readOk && !a.force && (waits || !IsRefreshDue(env, s.row, a.now))))
      && (error.Some? ==> (error.value.kind == DatabaseError <==> !a.readOk))
      && (error.Some? && a.readOk ==> (error.value.kind == Unsupported <==> !a.adapterKnown && !waits))
      && (error.Some? ==> error.value.kind != Retryable)
  {
    hide FingerprintOf, IsRefreshDue, Trim, SiteSpacing, Backoff;
  }

  /** A caller that is told to wait without a call having been made learns the very instant: before it the
      account, or else the slot, would hold it back again, and then that one no longer does. While another
      call occupies the slot it is told the spacing. The scheduler, which does not force, is not told about
      the account's own waits. */
  lemma ToldWaitIsExact(env: Env, s: Session, a: Attempt)
    requires !Refresh(env, s, a).asked && Refresh(env, s, a).ret.error.Some?
    requires Refresh(env, s, a).ret.error.value.kind in {Deferred, CredentialDead}
    ensures var e := Refresh(env, s, a);
      var rec, wait := e.session.record, e.ret.error.value.wait;
      && wait > 0
      && if RetryDelay(rec, a.now) > 0
         then
           && a.force && (e.ret.error.value.kind == CredentialDead <==> rec.dead)
           && forall t :: RetryDelay(rec, t) == 0 <==> t >= a.now + wait
         else
           && e.ret.error.value.kind == Deferred
           && if s.slot.inFlight then wait == SiteSpacing(s.row)
              else forall t :: Admits(s.slot, t) <==> t >= a.now + wait
  {
    hide FingerprintOf, IsRefreshDue, Trim, SiteSpacing, Backoff;
  }

  /** Any number of such callers cause at most one rotation: once one of them renewed the credential, no
      later one reaches the upstream, and each one gets the renewed token. */
  lemma AtMostOneRotation(env: Env, s: Session, calls: seq<Attempt>, stale: Row, i: nat, j: nat)
    requires SameStaleRow(env, s, calls, stale)
    requires i < j < |calls| && EffectOf(env, s, calls, i).ret.didRefresh
    ensures !EffectOf(env, s, calls, j).asked && !EffectOf(env, s, calls, j).ret.didRefresh
    ensures PastLock(env, calls[j]) ==> EffectOf(env, s, calls, j).ret.token == EffectOf(env, s, calls, i).ret.token
  {
    hide Refresh, IsRefreshDue, SessionAfter, PastLock;
    RenewedRowKept(env, s, calls, stale, i, j);
    var was, now := SessionAfter(env, s, calls[..i]), SessionAfter(env, s, calls[..j]);
    RenewedStaysRenewed(env, now, calls[j], stale);
    RefreshedPastLock(env, was, calls[i]);
    ReturnsStoredToken(env, was, calls[i]);
    if PastLock(env, calls[j]) {
      ReturnsStoredToken(env, now, calls[j]);
    }
  }

  lemma RefreshedPastLock(env: Env, s: Session, a: Attempt)
    requires Refresh(env, s, a).ret.didRefresh
    ensures PastLock(env, a)
  {
    hide FingerprintOf, IsRefreshDue, Trim, SiteSpacing, Backoff;
  }
}
