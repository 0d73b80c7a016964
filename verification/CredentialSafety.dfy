/** No rotation is lost silently: the managed refresh step (service/managed_session.go:618-682) over the
    two rotating exchanges (platform/sub2api.go, platform/newapi_v1.go). */
module CredentialSafety {
  import opened Text
  import opened Json
  import Cookie
  import ManagedAuth
  import RefreshTiming
  import opened ManagedSession
  import opened FetchLoop
  import Sub2Api
  import NewApiV1

  const BEARER := "Bearer "

  function StripBearerPrefix(value: string): string {
    var trimmed := Trim(value);
    if |trimmed| >= |BEARER| && EqualFold(trimmed[..|BEARER|], BEARER) then Trim(trimmed[|BEARER|..]) else trimmed
  }

  /** The refresh cookie of an account that was imported as a raw cookie jar. */
  function Jar(row: Row): Cookie.Lookup {
    Cookie.CookieValueFromHeader(StripBearerPrefix(row.accessToken), NewApiV1.REFRESH_COOKIE_NAME)
  }

  /** The refresh credential the next exchange of this account submits. */
  function Submitted(row: Row): string {
    if PlatformName(row) == SUB2API then Sub2Api.StoredToken(row.extraConfig)
    else NewApiV1.StoredCookie(row.extraConfig, Jar(row))
  }

  /** One exchange with a platform: replies, clock of the adapter, and the server around it. */
  datatype Upstream =
    | Sub2(reply: Reply, when: int, before: Sub2Api.Server, after: Sub2Api.Server)
    | NewApi(custom: string, first: Reply, second: Reply, when: int,
             start: NewApiV1.Server, mid: NewApiV1.Server, resumed: NewApiV1.Server, end: NewApiV1.Server)

  function NewApiReading(env: Env, row: Row, custom: string, reply: Reply, when: int): (NewApiV1.Reading, Fetched) {
    var cookie := Submitted(row);
    var f := FetchOnce(custom, NewApiV1.REFRESH_COOKIE_NAME + "=" + cookie, reply);
    (NewApiV1.Read(f, cookie, when, env.jwtExpiry), f)
  }

  /** What the adapter reports for this exchange. */
  function Reported(env: Env, row: Row, up: Upstream): ManagedAuth.RefreshResult {
    match up
    case Sub2(reply, when, _, _) => Sub2Api.Outcome(row.extraConfig, reply, when, env.jwtExpiry)
    case NewApi(custom, first, second, when, _, _, _, _) =>
      if row.extraConfig.Malformed? || Submitted(row) == "" then NewApiV1.DEAD
      else
        var (r, f) := NewApiReading(env, row, custom, first, when);
        var (r', f') := NewApiReading(env, row, custom, second, when);
        NewApiV1.Outcome(row.extraConfig, r, f, r', f')
  }

  /** The credential the server accepts before and after the exchange. */
  function Accepted(up: Upstream): string {
    match up
    case Sub2(_, _, before, _) => before.current
    case NewApi(_, _, _, _, start, _, _, _) => start.current
  }

  function AcceptedAfter(env: Env, row: Row, up: Upstream): string {
    match up
    case Sub2(_, _, _, after) => after.current
    case NewApi(custom, first, _, when, _, mid, _, end) =>
      if NewApiV1.Recovers(NewApiReading(env, row, custom, first, when).0) then end.current else mid.current
  }

  /** The server follows its platform's rules for what this row submits. */
  ghost predicate Lawful(env: Env, row: Row, up: Upstream) {
    match up
    case Sub2(reply, _, before, after) =>
      PlatformName(row) == SUB2API && Sub2Api.Exchange(before, Submitted(row), reply, after)
    case NewApi(_, first, second, _, start, mid, resumed, end) =>
      && PlatformName(row) == NEW_API_V1
      && NewApiV1.Exchange(start, Submitted(row), first, mid)
      && NewApiV1.Elapses(mid, resumed)
      && NewApiV1.Exchange(resumed, Submitted(row), second, end)
  }

  /** A call of refreshManagedSession together with the exchange it makes if it gets that far. */
  datatype Step = Step(session: Session, attempt: Attempt, upstream: Upstream)

  function Result(env: Env, step: Step): Effect {
    Refresh(env, step.session, step.attempt)
  }

  function ServerAfter(env: Env, step: Step): string {
    if Result(env, step).asked then AcceptedAfter(env, step.session.row, step.upstream) else Accepted(step.upstream)
  }

  ghost predicate Plausible(env: Env, step: Step) {
    Result(env, step).asked ==>
      && Lawful(env, step.session.row, step.upstream)
      && step.attempt.answer == Answer(Some(Reported(env, step.session.row, step.upstream)), None)
  }

  predicate InStep(env: Env, step: Step) {
    Submitted(step.session.row) == Accepted(step.upstream)
  }

  /** The call says the credential is gone and blocks the account for six hours. */
  predicate ReportsLoss(env: Env, step: Step) {
    var e := Result(env, step);
    && e.ret.error == Some(WaitError(CredentialDead, RefreshTiming.DEAD_BACKOFF))
    && e.session.record.dead
    && e.session.record.nextAttempt == Some(step.attempt.recordedAt + RefreshTiming.DEAD_BACKOFF)
  }

  /** One exchange: the reported result carries the server's current credential, or is dead, or nothing
      rotated. */
  lemma ExchangeInStep(env: Env, row: Row, up: Upstream)
    requires Lawful(env, row, up) && Submitted(row) == Accepted(up)
    ensures var r := Reported(env, row, up);
      || (r.dead && !r.success)
      || (!r.success && AcceptedAfter(env, row, up) == Accepted(up))
      || (r.success && r.extraConfig.Object? && Trim(r.accessToken) != ""
          && forall row' :: PlatformName(row') == PlatformName(row) && row'.extraConfig == r.extraConfig
               ==> Submitted(row') == AcceptedAfter(env, row, up))
  {
    match up
    case Sub2(reply, when, before, after) => {
      Sub2InStep(env, row, reply, when, before, after);
    }
    case NewApi(_, _, _, _, _, _, _, _) => {
      NewApiInStep(env, row, up);
    }
  }

  lemma Sub2InStep(env: Env, row: Row, reply: Reply, when: int, before: Sub2Api.Server, after: Sub2Api.Server)
    requires PlatformName(row) == SUB2API && Submitted(row) == before.current
    requires Sub2Api.Exchange(before, before.current, reply, after)
    ensures var r := Sub2Api.Outcome(row.extraConfig, reply, when, env.jwtExpiry);
      || (r.dead && !r.success)
      || (!r.success && after.current == before.current)
      || (r.success && r.extraConfig.Object? && Trim(r.accessToken) != ""
          && Sub2Api.StoredToken(r.extraConfig) == after.current)
  {
    hide Trim, Sub2Api.Outcome, Sub2Api.StoredToken, Sub2Api.Exchange, Lower;
    Sub2Api.ExchangeKeepsInStep(row.extraConfig, reply, when, env.jwtExpiry, before, after);
    Sub2Api.OutcomeIsOneOfThree(row.extraConfig, reply, when, env.jwtExpiry);
    AccessTrimmed(row.extraConfig, reply, when, env.jwtExpiry);
  }

  lemma AccessTrimmed(config: ConfigText, reply: Reply, when: int, jwtExpiry: string -> int)
    ensures var r := Sub2Api.Outcome(config, reply, when, jwtExpiry); r.success ==> Trim(r.accessToken) == r.accessToken
  {
    hide Trim, ManagedAuth.WithExpiry, ManagedAuth.ParseInt, Received, Sub2Api.Rotated;
    if Sub2Api.Outcome(config, reply, when, jwtExpiry).success {
      TrimOfTrim(StringAt(Sub2Api.Envelope(reply.body.value).value.fields, "access_token"));
    }
  }

  lemma NewApiInStep(env: Env, row: Row, up: Upstream)
    requires up.NewApi? && Lawful(env, row, up) && Submitted(row) == Accepted(up)
    ensures var r := Reported(env, row, up);
      || (r.dead && !r.success)
      || (!r.success && AcceptedAfter(env, row, up) == Accepted(up))
      || (r.success && r.extraConfig.Object? && Trim(r.accessToken) != ""
          && forall jar :: NewApiV1.StoredCookie(r.extraConfig, jar) == AcceptedAfter(env, row, up))
  {
    hide Trim, NewApiV1.Success, NewApiV1.Read, NewApiV1.StoredCookie, NewApiV1.Exchange, Lower, FetchOnce,
      Cookie.CookieValueFromHeader, NewApiV1.ClassifiedFailure;
    if !row.extraConfig.Malformed? && Submitted(row) != "" {
      var jar := Jar(row);
      NewApiV1.SoleClientKeepsInStep(
        row.extraConfig, jar, up.custom, up.first, up.second, up.when, env.jwtExpiry, up.start, up.mid, up.resumed,
        up.end);
      NewApiV1.StoredCookieTrimmed(row.extraConfig, jar);
      var (first, f) := NewApiReading(env, row, up.custom, up.first, up.when);
      var (last, f') := NewApiReading(env, row, up.custom, up.second, up.when);
      NewApiV1.OutcomesExclusive(row.extraConfig, first, f, last, f');
      var used, g := if first.Renewed? then first else last, if first.Renewed? then f else f';
      if Reported(env, row, up).success {
        assert Reported(env, row, up) == NewApiV1.Success(row.extraConfig, used);
        RenewedAccess(g, Submitted(row), up.when, env.jwtExpiry);
        SuccessReports(row.extraConfig, used);
        forall any
          ensures NewApiV1.StoredCookie(NewApiV1.Success(row.extraConfig, used).extraConfig, any) == used.cookie
        {
          NewApiV1.SuccessStores(row.extraConfig, used, g, Submitted(row), any, up.when, env.jwtExpiry);
        }
      }
    }
  }

  lemma SuccessReports(config: ConfigText, r: NewApiV1.Reading)
    requires r.Renewed?
    ensures NewApiV1.Success(config, r).accessToken == r.access
  {
    hide NewApiV1.Stored;
  }

  lemma RenewedAccess(f: Fetched, cookie: string, now: int, jwtExpiry: string -> int)
    requires NewApiV1.Read(f, cookie, now, jwtExpiry).Renewed?
    ensures var access := NewApiV1.Read(f, cookie, now, jwtExpiry).access; access != "" && Trim(access) == access
  {
    hide Trim, NewApiV1.NewCookie, EqualFold, NewApiV1.ReportedExpiry, NewApiV1.ErrorCode;
    var data := NodeAt(f.body.value, "data");
    TrimOfTrim(StringAt(data.value, "access_token"));
  }

  /** One step of the refresh path ends with the stored credential the server's current one, if it began
      so, or it reports the loss - both database writes failing included. */
  lemma StepKeepsOrReports(env: Env, step: Step)
    requires Plausible(env, step) && InStep(env, step)
    ensures Submitted(Result(env, step).session.row) == ServerAfter(env, step) || ReportsLoss(env, step)
  {
    hide Trim, Submitted, Reported, AcceptedAfter, Lawful, FingerprintOf, IsRefreshDue, SiteSpacing, Lower;
    var e := Result(env, step);
    if e.asked {
      ExchangeInStep(env, step.session.row, step.upstream);
      var r := Reported(env, step.session.row, step.upstream);
      if r.success {
        assert PlatformName(Persisted(step.session.row, r)) == PlatformName(step.session.row);
      }
    } else {
      assert e.session.row == step.session.row;
    }
  }

  // ---- Over a run ----

  predicate EndsInStep(env: Env, step: Step) {
    Submitted(Result(env, step).session.row) == ServerAfter(env, step)
  }

  /** The refresh path is the only one to rotate the credential or to overwrite it. Records, slots, and
      all other columns may change between two calls. */
  ghost predicate SoleWriter(env: Env, steps: seq<Step>) {
    && (forall k :: 0 <= k < |steps| ==> Plausible(env, steps[k]))
    && (forall k :: 0 < k < |steps| ==>
          && Submitted(steps[k].session.row) == Submitted(Result(env, steps[k - 1]).session.row)
          && Accepted(steps[k].upstream) == ServerAfter(env, steps[k - 1]))
  }

  /** Whatever gets lost, garbled or refused in a run that began in step with the server: if the run ever
      leaves it, the very call that did so reported the loss. */
  lemma {:induction false} LossIsReported(env: Env, steps: seq<Step>, n: nat) returns (k: nat)
    requires SoleWriter(env, steps) && n < |steps|
    requires InStep(env, steps[0]) && !EndsInStep(env, steps[n])
    ensures k <= n && InStep(env, steps[k]) && !EndsInStep(env, steps[k]) && ReportsLoss(env, steps[k])
    ensures forall j :: 0 <= j < k ==> EndsInStep(env, steps[j])
  {
    hide Plausible, Submitted, Result, ServerAfter, Accepted, ReportsLoss;
    if exists j :: 0 <= j < n && !EndsInStep(env, steps[j]) {
      var j :| 0 <= j < n && !EndsInStep(env, steps[j]);
      k := LossIsReported(env, steps, j);
    } else {
      assert n > 0 ==> EndsInStep(env, steps[n - 1]);
      k := n;
      StepKeepsOrReports(env, steps[n]);
    }
  }
}
