/** What a managed refresh (service/managed_session.go:648-682) means for the status of an account
    (db/archive.go): each call is the refresh of the account runs, or changes nothing. */
module RefreshedRows {
  import opened Text
  import opened Json
  import opened ManagedAuth
  import opened ManagedSession
  import opened SessionRuns
  import opened CredentialSafety
  import FetchLoop
  import Sub2Api
  import NewApiV1
  import Archive
  import AccountStatus
  import AccountRuns

  function AccountOf(row: Row): Archive.Account {
    Archive.Account(row.siteId, row.status, row.extraConfig)
  }

  const SESSION_NODES := {"managedAuth", "sub2apiAuth", "newApiV1Auth"}

  /** Only session nodes differ. */
  ghost predicate SameButSession(a: Object, b: Object) {
    forall k :: k !in SESSION_NODES ==> (k in a <==> k in b) && (k in a ==> a[k] == b[k])
  }

  /** The edit that makes `b` of `a`. */
  function SessionEdit(b: Object): Object {
    map k | k in b && k in SESSION_NODES :: b[k]
  }

  lemma EditGives(a: Object, b: Object)
    requires SameButSession(a, b)
    ensures (a - SESSION_NODES) + SessionEdit(b) == b
    ensures AccountRuns.NoMarker(SessionEdit(b), SESSION_NODES)
  {
    assert Archive.MARKERS !! SESSION_NODES;
  }

  /** What an adapter hands over differs from the stored configuration in session nodes only. */
  lemma ReportedEditsSession(env: Env, row: Row, up: Upstream)
    requires Lawful(env, row, up) && Reported(env, row, up).success
    ensures var r := Reported(env, row, up);
      r.extraConfig.Object? && SameButSession(Decoded(row.extraConfig), r.extraConfig.cfg)
  {
    hide Trim, Sub2Api.Outcome, NewApiV1.Outcome, NewApiV1.Read, FetchLoop.FetchOnce, NewApiV1.StoredCookie,
      Sub2Api.Exchange, NewApiV1.Exchange, Lower, NewApiV1.Renews, NewApiV1.Refuses, NewApiV1.RaceError,
      NewApiV1.AccessIn, NewApiV1.Succeeds, Jar;
    match up
    case Sub2(reply, when, before, after) => {
      var millis := Sub2Api.WhenExpires(reply, when, env.jwtExpiry);
      Sub2Api.RenewalIsStored(row.extraConfig, reply, when, env.jwtExpiry, millis);
    }
    case NewApi(custom, first, second, when, _, _, _, _) => {
      NewApiV1.StoredCookieTrimmed(row.extraConfig, Jar(row));
      NewApiV1.ExchangeReports(row.extraConfig, custom, Submitted(row), first, second, when, env.jwtExpiry);
    }
  }

  /** Every call of the refresh path leaves the account as it is, or refreshes it with an edit of session
      nodes: what the account runs and the plan say of a refresh, they say of this one. */
  lemma RefreshIsAccountRefresh(env: Env, step: Step)
    requires Plausible(env, step)
    ensures var was, now := AccountOf(step.session.row), AccountOf(Result(env, step).session.row);
      if Result(env, step).ret.didRefresh then
        var edit := SessionEdit(Decoded(now.extra));
        && AccountRuns.NoMarker(edit, SESSION_NODES)
        && now == AccountStatus.Refreshed(was, edit, SESSION_NODES)
      else now == was
  {
    hide Trim, Submitted, Reported, AcceptedAfter, Lawful, FingerprintOf, IsRefreshDue, SiteSpacing, Lower, Refresh,
      SessionEdit, AccountRuns.NoMarker, SameButSession;
    var s, a := step.session, step.attempt;
    ReturnsStoredToken(env, s, a);
    if Refresh(env, s, a).ret.didRefresh {
      RenewalIsStored(env, s, a);
      ReportedEditsSession(env, s.row, step.upstream);
      EditGives(Decoded(s.row.extraConfig), Reported(env, s.row, step.upstream).extraConfig.cfg);
    }
  }

  /** So no refresh moves an account into or out of a stored "disabled", or touches its archive marker. */
  lemma RefreshKeepsDisabled(env: Env, step: Step)
    requires Plausible(env, step)
    ensures var was, now := AccountOf(step.session.row), AccountOf(Result(env, step).session.row);
      && (was.status == Some("disabled") <==> now.status == Some("disabled"))
      && (now.status != was.status ==> was.status == Some("expired") && now.status == Some("active"))
      && Archive.IsAccountArchived(was.extra) == Archive.IsAccountArchived(now.extra)
  {
    hide Result, Plausible, Archive.IsAccountArchived, AccountRuns.NoMarker, SessionEdit;
    RefreshIsAccountRefresh(env, step);
    var was, now := AccountOf(step.session.row), AccountOf(Result(env, step).session.row);
    if Result(env, step).ret.didRefresh {
      AccountRuns.MarkerKept(was.extra, SessionEdit(Decoded(now.extra)), SESSION_NODES);
    }
  }
}
