/** The managed-session refresh (service/managed_session.go): per-account record, shared slot of a
    site and route, and the refresh step that ties them to the stored row. */
module ManagedSession {
  import opened Text
  import opened Json
  import Cookie
  import opened ManagedAuth
  import RefreshTiming
  import NewApiV1

  /** An account joined with its site: the columns the refresh looks at. */
  datatype Row = Row(
    id: int, siteId: int, createdAt: string, platform: string, siteUrl: string, accessToken: string,
    extraConfig: ConfigText, status: Option<string>, siteProxyUrl: Option<string>,
    siteUseSystemProxy: Option<bool>, customHeaders: string, turnstileSiteKey: string)

  /** Code outside this model: the claims of a token, the outbound route of proxy settings, JSON text. */
  datatype Env = Env(
    jwtExpiry: string -> int, jwtLifetime: string -> int, route: (Option<string>, Option<bool>) -> string,
    encode: Value -> string)

  const SUB2API := "sub2api"
  const NEW_API_V1 := "new-api-v1"

  function PlatformName(row: Row): string {
    Lower(Trim(row.platform))
  }

  predicate IsManaged(row: Row) {
    PlatformName(row) in {SUB2API, NEW_API_V1}
  }

  // ---- Expiry ----

  /** A token's own exp wins over the recorded expiry. */
  function TokenExpiresAt(env: Env, row: Row): int {
    if env.jwtExpiry(row.accessToken) > 0 then env.jwtExpiry(row.accessToken)
    else ReadExpiry(Decoded(row.extraConfig))
  }

  predicate IsRefreshDue(env: Env, row: Row, now: int) {
    RefreshTiming.IsDueWithLead(TokenExpiresAt(env, row), now, RefreshTiming.LeadFor(env.jwtLifetime(row.accessToken)))
  }

  // ---- Fingerprint ----

  datatype Credential = Text(value: string) | Invalid(raw: Value)

  const INVALID := "invalid:"

  /** What of a credential is hashed: a malformed one as text too. */
  function Hashed(env: Env, credential: Credential): string {
    match credential
    case Text(value) => value
    case Invalid(raw) => INVALID + env.encode(raw)
  }

  /** The parts hashed into the fingerprint; the hash is taken to be injective. */
  datatype Fingerprint = Fingerprint(
    siteId: int, createdAt: string, platform: string, siteUrl: string, accessToken: string,
    credential: string, proxyUrl: string, useSystemProxy: Option<bool>, route: string,
    customHeaders: string, turnstileSiteKey: string, autoRelogin: string, invalidConfig: string)

  function StripSlashes(s: string): (r: string)
    ensures r <= s && (r != "" ==> r[|r| - 1] != '/')
    ensures forall i :: |r| <= i < |s| ==> s[i] == '/'
  {
    if s != "" && s[|s| - 1] == '/' then StripSlashes(s[..|s| - 1]) else s
  }

  /** The credential held in `cfg[nodeKey][valueKey]`; malformed ones are kept as they are. */
  function CredentialIn(cfg: Object, nodeKey: string, valueKey: string): Option<Credential> {
    if nodeKey !in cfg then None
    else if !cfg[nodeKey].Obj? then Some(Invalid(cfg[nodeKey]))
    else
      var node := cfg[nodeKey].fields;
      if valueKey !in node then None
      else if node[valueKey].Str? then Some(Text(Trim(node[valueKey].s)))
      else Some(Invalid(node[valueKey]))
  }

  function RefreshCredential(row: Row, cfg: Object): Credential {
    if PlatformName(row) == SUB2API then
      var stored := CredentialIn(cfg, SUB2API_AUTH, REFRESH_TOKEN);
      if stored.Some? then stored.value else Text("")
    else if PlatformName(row) == NEW_API_V1 then
      var stored := CredentialIn(cfg, NEW_API_V1_AUTH, REFRESH_COOKIE);
      var jar := Cookie.CookieValueFromHeader(row.accessToken, NewApiV1.REFRESH_COOKIE_NAME);
      if stored.Some? then stored.value else if jar.Found? then Text(Trim(jar.value)) else Text("")
    else Text("")
  }

  /** The proxy settings of requestOptionForAccount. */
  function OptionProxy(row: Row, cfg: Object): Option<string> {
    if StringAt(cfg, "proxyUrl") != "" then Some(StringAt(cfg, "proxyUrl")) else row.siteProxyUrl
  }

  function UseSystemProxy(row: Row, cfg: Object): Option<bool> {
    if "useSystemProxy" in cfg && cfg["useSystemProxy"].Bool? then Some(cfg["useSystemProxy"].b)
    else row.siteUseSystemProxy
  }

  function FingerprintOf(env: Env, row: Row): Fingerprint {
    var cfg := Decoded(row.extraConfig);
    Fingerprint(
      row.siteId, row.createdAt, PlatformName(row), StripSlashes(Trim(row.siteUrl)), row.accessToken,
      Hashed(env, RefreshCredential(row, cfg)),
      if Trim(StringAt(cfg, "proxyUrl")) != "" then Trim(StringAt(cfg, "proxyUrl"))
      else if row.siteProxyUrl.Some? then row.siteProxyUrl.value else "",
      UseSystemProxy(row, cfg),
      env.route(OptionProxy(row, cfg), UseSystemProxy(row, cfg)),
      row.customHeaders, row.turnstileSiteKey,
      if "autoRelogin" in cfg then env.encode(cfg["autoRelogin"]) else "",
      if row.extraConfig.Malformed? then row.extraConfig.text else "")
  }

  // ---- Account record ----

  /** What is remembered about the refreshes of one account. */
  datatype Record = Record(
    credential: Option<Fingerprint>, lastSuccess: Option<int>, nextAttempt: Option<int>, failures: nat, dead: bool)

  const FRESH := Record(None, None, None, 0, false)

  /** A credential that changed behind our back starts with a clean slate. */
  function Sync(rec: Record, fp: Fingerprint): Record {
    if rec.credential == Some(fp) then rec else FRESH.(credential := Some(fp))
  }

  function Max(a: int, b: int): int {
    if a > b then a else b
  }

  function RetryDelay(rec: Record, now: int): (wait: int)
    ensures wait >= 0
    ensures rec.lastSuccess.Some? ==> now + wait >= rec.lastSuccess.value + RefreshTiming.MIN_SPACING
    ensures rec.nextAttempt.Some? ==> now + wait >= rec.nextAttempt.value
    ensures wait > 0 ==>
      || rec.nextAttempt == Some(now + wait)
      || (rec.lastSuccess.Some? && now + wait == rec.lastSuccess.value + RefreshTiming.MIN_SPACING)
  {
    var spacing := if rec.lastSuccess.Some? then RefreshTiming.MIN_SPACING - (now - rec.lastSuccess.value) else 0;
    var backoff := if rec.nextAttempt.Some? then rec.nextAttempt.value - now else 0;
    Max(Max(0, spacing), backoff)
  }

  function Succeeded(rec: Record, now: int, fp: Fingerprint): Record {
    Record(Some(fp), Some(now), None, 0, false)
  }

  function Failed(rec: Record, now: int, res: Option<RefreshResult>): Record {
    rec.(failures := rec.failures + 1,
         dead := res.Some? && res.value.dead,
         nextAttempt := Some(now + RefreshTiming.Backoff(rec.failures + 1, res)))
  }

  class ManagedRefreshState {
    var credential: Option<Fingerprint>
    var lastSuccess: Option<int>
    var nextAttempt: Option<int>
    var failures: nat
    var credentialDead: bool

    ghost function Value(): Record
      reads this
    {
      Record(credential, lastSuccess, nextAttempt, failures, credentialDead)
    }

    constructor ()
      ensures Value() == FRESH
    {
      credential, lastSuccess, nextAttempt, failures, credentialDead := None, None, None, 0, false;
    }

    method SyncCredential(fp: Fingerprint)
      modifies this
      ensures Value() == Sync(old(Value()), fp)
    {
      if credential == Some(fp) {
        return;
      }
      credential, lastSuccess, nextAttempt, failures, credentialDead := Some(fp), None, None, 0, false;
    }

    method GetRetryDelay(now: int) returns (wait: int)
      ensures wait == RetryDelay(Value(), now)
    {
      wait := 0;
      if lastSuccess.Some? {
        var remaining := RefreshTiming.MIN_SPACING - (now - lastSuccess.value);
        if remaining > wait {
          wait := remaining;
        }
      }
      if nextAttempt.Some? {
        var remaining := nextAttempt.value - now;
        if remaining > wait {
          wait := remaining;
        }
      }
    }

    method RecordSuccess(now: int, fp: Fingerprint)
      modifies this
      ensures Value() == Succeeded(old(Value()), now, fp)
    {
      credential, lastSuccess, nextAttempt, failures, credentialDead := Some(fp), Some(now), None, 0, false;
    }

    method RecordFailure(now: int, res: Option<RefreshResult>) returns (backoff: int)
      modifies this
      ensures Value() == Failed(old(Value()), now, res)
      ensures backoff == RefreshTiming.Backoff(old(failures) + 1, res)
    {
      failures := failures + 1;
      credentialDead := res.Some? && res.value.dead;
      backoff := RefreshTiming.ManagedRefreshBackoff(failures, res);
      nextAttempt := Some(now + backoff);
    }
  }

  // ---- Slot of one site and route ----

  datatype Slot = Slot(inFlight: bool, nextAttempt: Option<int>)

  predicate Admits(slot: Slot, now: int) {
    !slot.inFlight && (slot.nextAttempt.None? || now >= slot.nextAttempt.value)
  }

  /** How long a refused caller is told to wait. */
  function SlotWait(slot: Slot, now: int, spacing: int): int
    requires !Admits(slot, now)
  {
    if slot.inFlight then spacing else slot.nextAttempt.value - now
  }

  /** A positive retry hint replaces the spacing, even a shorter one. */
  function FinishWait(spacing: int, res: Option<RefreshResult>, err: Option<int>): int {
    if res.Some? && res.value.retryAfter > 0 then res.value.retryAfter
    else if err.Some? && err.value > 0 then err.value
    else spacing
  }

  function Finished(now: int, spacing: int, res: Option<RefreshResult>, err: Option<int>): Slot {
    var wait := FinishWait(spacing, res, err);
    Slot(false, if wait > 0 then Some(now + wait) else None)
  }

  class ManagedRefreshSiteState {
    var inFlight: bool
    var nextAttempt: Option<int>

    ghost function Value(): Slot
      reads this
    {
      Slot(inFlight, nextAttempt)
    }

    constructor ()
      ensures Value() == Slot(false, None)
    {
      inFlight, nextAttempt := false, None;
    }

    method TryStart(now: int, spacing: int) returns (started: bool, wait: int)
      modifies this
      ensures started <==> Admits(old(Value()), now)
      ensures Value() == if started then old(Value()).(inFlight := true) else old(Value())
      ensures wait == if started then 0 else SlotWait(old(Value()), now, spacing)
    {
      if inFlight {
        return false, spacing;
      }
      if nextAttempt.Some? && now < nextAttempt.value {
        return false, nextAttempt.value - now;
      }
      inFlight := true;
      return true, 0;
    }

    method Finish(now: int, spacing: int, res: Option<RefreshResult>, err: Option<int>)
      modifies this
      ensures Value() == Finished(now, spacing, res, err)
    {
      var wait := spacing;
      if res.Some? && res.value.retryAfter > 0 {
        wait := res.value.retryAfter;
      } else if err.Some? && err.value > 0 {
        wait := err.value;
      }
      inFlight := false;
      if wait > 0 {
        nextAttempt := Some(now + wait);
      } else {
        nextAttempt := None;
      }
    }
  }

  function SiteSpacing(row: Row): int {
    if PlatformName(row) == NEW_API_V1 then RefreshTiming.NEW_API_SITE_SPACING
    else if PlatformName(row) == SUB2API then RefreshTiming.SUB2_SITE_SPACING
    else 0
  }

  // ---- The refresh step ----

  /** The adapter's answer: a result, or an error with its retry hint, or both. */
  datatype Answer = Answer(res: Option<RefreshResult>, err: Option<int>)

  /** One call of refreshManagedSession and everything its environment decides: the caller's row, the
      clock at each reading, whether reads and writes succeed, and what the adapter answers. */
  datatype Attempt = Attempt(
    caller: Row, force: bool, enteredAt: int, readOk: bool, now: int, adapterKnown: bool,
    answer: Answer, recordedAt: int, finishedAt: int, firstWrite: bool, secondWrite: bool)

  datatype Kind = Deferred | Retryable | CredentialDead | DatabaseError | Unsupported

  datatype WaitError = WaitError(kind: Kind, wait: int)

  datatype Return = Return(token: string, config: ConfigText, didRefresh: bool, error: Option<WaitError>)

  /** The record and slot in use, and the stored row. */
  datatype Session = Session(record: Record, slot: Slot, row: Row)

  /** `asked` says whether RefreshAuth was called. */
  datatype Effect = Effect(session: Session, asked: bool, ret: Return)

  predicate IsBlank(config: ConfigText) {
    config.Absent? || config.Blank?
  }

  /** A success without configuration is treated as a failure. */
  function Checked(res: Option<RefreshResult>): Option<RefreshResult> {
    if res.Some? && res.value.success && IsBlank(res.value.extraConfig)
    then Some(RefreshResult(false, "", Absent, 0, false)) else res
  }

  /** The answer as record and slot see it. */
  function Heard(a: Attempt): Option<RefreshResult> {
    if a.answer.err.Some? then a.answer.res else Checked(a.answer.res)
  }

  predicate Usable(res: Option<RefreshResult>) {
    res.Some? && res.value.success && Trim(res.value.accessToken) != ""
  }

  function Persisted(row: Row, res: RefreshResult): Row {
    row.(accessToken := res.accessToken, extraConfig := res.extraConfig,
         status := if row.status == Some("expired") then Some("active") else row.status)
  }

  const LOST := Some(RefreshResult(false, "", Absent, 0, true))

  function Current(row: Row, error: Option<WaitError>): Return {
    Return(row.accessToken, row.extraConfig, false, error)
  }

  /** What happens once the adapter answered: record, stored row, and return. */
  function Settle(env: Env, rec: Record, row: Row, a: Attempt): (Record, Row, Return) {
    var res := Heard(a);
    if a.answer.err.Some? || !Usable(res) then
      var kind := if a.answer.err.None? && res.Some? && res.value.dead then CredentialDead else Retryable;
      (Failed(rec, a.recordedAt, res), row,
       Current(row, Some(WaitError(kind, RefreshTiming.Backoff(rec.failures + 1, res)))))
    else if !a.firstWrite && !a.secondWrite then
      (Failed(rec, a.recordedAt, LOST), row, Current(row, Some(WaitError(CredentialDead, RefreshTiming.DEAD_BACKOFF))))
    else
      var updated := Persisted(row, res.value);
      (Succeeded(rec, a.recordedAt, FingerprintOf(env, updated)), updated,
       Return(updated.accessToken, updated.extraConfig, true, None))
  }

  function Refresh(env: Env, s: Session, a: Attempt): Effect {
    var untouched := Return(a.caller.accessToken, a.caller.extraConfig, false, None);
    if !IsManaged(a.caller) || (!a.force && !IsRefreshDue(env, a.caller, a.enteredAt)) then
      Effect(s, false, untouched)
    else if !a.readOk then
      Effect(s, false, untouched.(error := Some(WaitError(DatabaseError, 0))))
    else
      var latest := s.row;
      var rec := Sync(s.record, FingerprintOf(env, latest));
      var synced := s.(record := rec);
      var wait := RetryDelay(rec, a.now);
      var spacing := SiteSpacing(latest);
      if a.force && latest.accessToken != a.caller.accessToken then
        Effect(synced, false, Current(latest, None))
      else if wait > 0 then
        var kind := if rec.dead then CredentialDead else Deferred;
        Effect(synced, false, Current(latest, if a.force then Some(WaitError(kind, wait)) else None))
      else if !a.force && !IsRefreshDue(env, latest, a.now) then
        Effect(synced, false, Current(latest, None))
      else if !a.adapterKnown then
        Effect(synced, false, Current(latest, Some(WaitError(Unsupported, 0))))
      else if spacing > 0 && !Admits(s.slot, a.now) then
        Effect(synced, false, Current(latest, Some(WaitError(Deferred, SlotWait(s.slot, a.now, spacing)))))
      else
        var (rec', row', ret) := Settle(env, rec, latest, a);
        var res := Heard(a);
        var slot' := if spacing > 0 then Finished(a.finishedAt, spacing, res, a.answer.err) else s.slot;
        Effect(Session(rec', slot', row'), true, ret)
  }

  /** The database row of the account. */
  class AccountStore {
    var row: Row

    constructor (row: Row)
      ensures this.row == row
    {
      this.row := row;
    }

    method Update(res: RefreshResult, ok: bool)
      modifies this
      ensures row == if ok then Persisted(old(row), res) else old(row)
    {
      if ok {
        row := row.(accessToken := res.accessToken, extraConfig := res.extraConfig);
        if row.status == Some("expired") {
          row := row.(status := Some("active"));
        }
      }
    }
  }

  /** refreshManagedSession, with the account lock held from the read to the return. */
  method RefreshManagedSession(
    env: Env, state: ManagedRefreshState, site: ManagedRefreshSiteState, store: AccountStore, a: Attempt)
    returns (ret: Return, asked: bool)
    modifies state, site, store
    ensures Effect(Session(state.Value(), site.Value(), store.row), asked, ret)
         == Refresh(env, old(Session(state.Value(), site.Value(), store.row)), a)
  {
    hide Trim, FingerprintOf, IsRefreshDue, SiteSpacing, PlatformName;
    asked := false;
    ret := Return(a.caller.accessToken, a.caller.extraConfig, false, None);
    if !IsManaged(a.caller) {
      return;
    }
    if !a.force {
      if !IsRefreshDue(env, a.caller, a.enteredAt) {
        return;
      }
    }
    if !a.readOk {
      ret := ret.(error := Some(WaitError(DatabaseError, 0)));
      return;
    }
    var latest := store.row;
    ret := Return(latest.accessToken, latest.extraConfig, false, None);
    state.SyncCredential(FingerprintOf(env, latest));
    if a.force && latest.accessToken != a.caller.accessToken {
      return;
    }
    var wait := state.GetRetryDelay(a.now);
    if wait > 0 {
      if a.force {
        if state.credentialDead {
          ret := ret.(error := Some(WaitError(CredentialDead, wait)));
          return;
        }
        ret := ret.(error := Some(WaitError(Deferred, wait)));
        return;
      }
      return;
    }
    if !a.force && !IsRefreshDue(env, latest, a.now) {
      return;
    }
    if !a.adapterKnown {
      ret := ret.(error := Some(WaitError(Unsupported, 0)));
      return;
    }
    var spacing := SiteSpacing(latest);
    if spacing > 0 {
      var started, slotWait := site.TryStart(a.now, spacing);
      if !started {
        ret := ret.(error := Some(WaitError(Deferred, slotWait)));
        return;
      }
    }
    asked := true;
    var res, err := a.answer.res, a.answer.err;
    if err.Some? {
      var backoff := state.RecordFailure(a.recordedAt, res);
      ret := ret.(error := Some(WaitError(Retryable, backoff)));
    } else {
      if res.Some? && res.value.success && IsBlank(res.value.extraConfig) {
        res := Some(RefreshResult(false, "", Absent, 0, false));
      }
      if !Usable(res) {
        var backoff := state.RecordFailure(a.recordedAt, res);
        var kind := if res.Some? && res.value.dead then CredentialDead else Retryable;
        ret := ret.(error := Some(WaitError(kind, backoff)));
      } else {
        store.Update(res.value, a.firstWrite);
        if !a.firstWrite {
          store.Update(res.value, a.secondWrite);
        }
        if !a.firstWrite && !a.secondWrite {
          var backoff := state.RecordFailure(a.recordedAt, LOST);
          ret := ret.(error := Some(WaitError(CredentialDead, backoff)));
        } else {
          state.RecordSuccess(a.recordedAt, FingerprintOf(env, store.row));
          ret := Return(res.value.accessToken, res.value.extraConfig, true, None);
        }
      }
    }
    // The deferred release of the slot.
    if spacing > 0 {
      site.Finish(a.finishedAt, spacing, res, err);
    }
  }
}
