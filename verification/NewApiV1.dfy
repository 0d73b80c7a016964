/** The new-api refresh exchange (platform/newapi_v1.go): a rotating refresh cookie, and one immediate
    second submission while the upstream still replays the rotation it may already have done. */
module NewApiV1 {
  import opened Text
  import opened Json
  import opened Cookie
  import opened ManagedAuth
  import RefreshTiming
  import opened FetchLoop

  const REFRESH_COOKIE_NAME := "new_api_refresh"
  const FALLBACK_TOKEN_TTL := 15 * RefreshTiming.MINUTE
  const RATE_LIMIT_BACKOFF := 20 * RefreshTiming.MINUTE
  const REFRESH_RACE_BACKOFF := 2 * RefreshTiming.SECOND

  const RACE := "AUTH_REFRESH_RACE"
  const ORIGIN_FORBIDDEN := "AUTH_ORIGIN_FORBIDDEN"

  predicate CodeIsFatal(code: string) {
    code in {"AUTH_SESSION_REVOKED", "AUTH_UNAUTHORIZED", "AUTH_TOKEN_EXPIRED", "AUTH_SESSION_MISMATCH",
             "AUTH_USER_DISABLED"}
  }

  function ErrorCode(body: Object): string {
    Trim(StringAt(body, "code"))
  }

  const DEAD := RefreshResult(false, "", Absent, 0, true)
  const FAILED := RefreshResult(false, "", Absent, 0, false)

  function RetryIn(wait: int): RefreshResult {
    RefreshResult(false, "", Absent, wait, false)
  }

  /** Structured codes first, then the status. */
  function ClassifiedFailure(rawCode: string, status: int, retryHint: int): (r: RefreshResult)
    ensures !r.success && r.retryAfter >= 0 && (r.dead ==> r == DEAD)
  {
    var code := Upper(Trim(rawCode));
    if code == RACE then RetryIn(REFRESH_RACE_BACKOFF)
    else if CodeIsFatal(code) then DEAD
    else if code == ORIGIN_FORBIDDEN then FAILED
    else if status == 429 then RetryIn(if retryHint > 0 then retryHint else RATE_LIMIT_BACKOFF)
    else if status == 409 then RetryIn(REFRESH_RACE_BACKOFF)
    else if status == 401 then DEAD
    else FAILED
  }

  // ---- The cookie ----

  /** The last refresh cookie among raw Set-Cookie values. */
  function LatestRefreshCookie(setCookies: seq<string>): Lookup {
    if setCookies == [] then Missing
    else
      var last := CookieValueFromHeader(setCookies[|setCookies| - 1], REFRESH_COOKIE_NAME);
      if last.Found? then Found(Trim(last.value)) else LatestRefreshCookie(setCookies[..|setCookies| - 1])
  }

  /** The new cookie of a successful answer, if it differs from the one sent. */
  function NewCookie(cookies: Option<Cookies>, sent: string): Option<string> {
    if cookies.None? then None
    else match LatestRefreshCookie(cookies.value.setCookies)
      case Missing => None
      case Found(v) => if v == "" || v == Trim(sent) then None else Some(v)
  }

  method RotatedRefreshCookie(cookies: Option<Cookies>, previous: string) returns (latest: string, rotated: bool)
    ensures NewCookie(cookies, previous) == if rotated then Some(latest) else None
  {
    hide CookieValueFromHeader, Trim;
    if cookies.None? {
      return "", false;
    }
    latest := "";
    var found := false;
    var raws := cookies.value.setCookies;
    for i := 0 to |raws|
      invariant LatestRefreshCookie(raws[..i]) == if found then Found(latest) else Missing
    {
      assert raws[..i + 1][..i] == raws[..i];
      var value := CookieValueFromHeader(raws[i], REFRESH_COOKIE_NAME);
      if value.Found? {
        latest := Trim(value.value);
        found := true;
      }
    }
    assert raws[..|raws|] == raws;
    rotated := found && latest != "" && latest != Trim(previous);
  }

  /** The refresh cookie the next exchange submits: the stored one, else the one in the cookie jar. */
  function StoredCookie(config: ConfigText, jar: Lookup): string {
    var node := NodeAt(Decoded(config), NEW_API_V1_AUTH);
    var stored := if node.Some? then Trim(StringAt(node.value, REFRESH_COOKIE)) else "";
    if stored != "" then stored else if jar.Found? then Trim(jar.value) else ""
  }

  // ---- One reply ----

  /** How one completed exchange reads. */
  datatype Reading =
    | Uncertain                                            // no usable answer
    | Raced                                                // an error answer carrying AUTH_REFRESH_RACE
    | Refused(code: string, status: int, retryAfter: int)  // an error answer, or success: false
    | Incomplete                                           // success without data or access token
    | Unrotated                                            // success, but no new cookie came with it
    | Renewed(access: string, cookie: string, expiresAt: int)

  function ReportedExpiry(data: Object, access: string, now: int, jwtExpiry: string -> int): int {
    var reported :=
      if "access_expires_at" in data && data["access_expires_at"].Num? && data["access_expires_at"].n > 0.0
      then NormalizeEpochMillis(Truncate(data["access_expires_at"].n)) else 0;
    if reported > 0 then reported
    else if jwtExpiry(access) > 0 then jwtExpiry(access)
    else RefreshTiming.UnixMilli(now + FALLBACK_TOKEN_TTL)
  }

  function Read(fetched: Fetched, sent: string, now: int, jwtExpiry: string -> int): Reading {
    var body := if fetched.body.Some? then fetched.body.value else map[];
    if fetched.error.Some? then
      if EqualFold(ErrorCode(body), RACE) then Raced
      else if fetched.error.value.status == 0 then Uncertain
      else Refused(ErrorCode(body), fetched.error.value.status, fetched.error.value.retryAfter)
    else if !TrueAt(body, "success") then Refused(ErrorCode(body), 0, 0)
    else
      var data := NodeAt(body, "data");
      var access := if data.Some? then Trim(StringAt(data.value, "access_token")) else "";
      if access == "" then Incomplete
      else
        var cookie := NewCookie(fetched.cookies, sent);
        if cookie.None? then Unrotated
        else Renewed(access, cookie.value, ReportedExpiry(data.value, access, now, jwtExpiry))
  }

  /** How an answer reads, case by case. */
  lemma ReadingOf(fetched: Fetched, sent: string, now: int, jwtExpiry: string -> int)
    ensures
      var r := Read(fetched, sent, now, jwtExpiry);
      var body := if fetched.body.Some? then fetched.body.value else map[];
      var data := NodeAt(body, "data");
      var access := if data.Some? then Trim(StringAt(data.value, "access_token")) else "";
      var cookie := NewCookie(fetched.cookies, sent);
      && (fetched.error.Some? ==>
            r == if EqualFold(ErrorCode(body), RACE) then Raced
                 else if fetched.error.value.status == 0 then Uncertain
                 else Refused(ErrorCode(body), fetched.error.value.status, fetched.error.value.retryAfter))
      && (fetched.error.None? && !TrueAt(body, "success") ==> r == Refused(ErrorCode(body), 0, 0))
      && (fetched.error.None? && TrueAt(body, "success") && access == "" ==> r == Incomplete)
      && (fetched.error.None? && TrueAt(body, "success") && access != "" ==>
            r == if cookie.None? then Unrotated
                 else Renewed(access, cookie.value, ReportedExpiry(data.value, access, now, jwtExpiry)))
  {
    hide Trim, EqualFold, ErrorCode, NewCookie, ReportedExpiry, TrueAt, StringAt;
  }

  function Stored(cfg: Object, cookie: string, expiresAt: int): Object {
    var node := NodeAt(cfg, NEW_API_V1_AUTH);
    var fields := if node.Some? then node.value else map[];
    WithExpiry(cfg[NEW_API_V1_AUTH := Obj(fields[REFRESH_COOKIE := Str(cookie)])], expiresAt)
  }

  function Success(config: ConfigText, r: Reading): (res: RefreshResult)
    requires r.Renewed?
    ensures res.success && !res.dead && res.retryAfter == 0 && res.extraConfig.Object?
  {
    RefreshResult(true, r.access, ConfigText.Object(Stored(Decoded(config), r.cookie, r.expiresAt)), 0, false)
  }

  /** The status of a raced answer still classifies it when no recovery is allowed. */
  function RacedFailure(fetched: Fetched): RefreshResult {
    var body := if fetched.body.Some? then fetched.body.value else map[];
    ClassifiedFailure(ErrorCode(body),
                      if fetched.error.Some? then fetched.error.value.status else 0,
                      if fetched.error.Some? then fetched.error.value.retryAfter else 0)
  }

  /** What the second, last submission is reported as. */
  function LastOutcome(config: ConfigText, r: Reading, fetched: Fetched): RefreshResult {
    match r
    case Renewed(_, _, _) => Success(config, r)
    case Raced => if fetched.error.Some? && fetched.error.value.status == 0 then DEAD else RacedFailure(fetched)
    case Refused(code, status, retryAfter) => ClassifiedFailure(code, status, retryAfter)
    case _ => DEAD
  }

  /** What RefreshAuth reports after at most two submissions of the same cookie. */
  function Outcome(
    config: ConfigText, first: Reading, firstFetched: Fetched, last: Reading, lastFetched: Fetched): RefreshResult
  {
    match first
    case Renewed(_, _, _) => Success(config, first)
    case Incomplete => DEAD
    case Refused(code, status, retryAfter) => ClassifiedFailure(code, status, retryAfter)
    case Raced => LastOutcome(config, last, lastFetched)
    case _ =>
      // The first answer was lost, or its new cookie was: only a full recovery is worth anything.
      if last.Renewed? then Success(config, last) else DEAD
  }

  /** The first lines of refreshAuth: which cookie to submit. */
  method CookieToSubmit(config: ConfigText, jar: Lookup) returns (refreshCookie: string)
    ensures refreshCookie == StoredCookie(config, jar)
  {
    hide Trim;
    var authNode := NodeAt(Decoded(config), NEW_API_V1_AUTH);
    refreshCookie := "";
    if authNode.Some? {
      refreshCookie := Trim(StringAt(authNode.value, REFRESH_COOKIE));
    }
    if refreshCookie == "" {
      if jar.Found? {
        refreshCookie := Trim(jar.value);
      }
    }
  }

  /** The last lines of refreshAuth: store the new cookie and the expiry in place. */
  method StoreRenewal(config: ConfigText, r: Reading) returns (res: RefreshResult)
    requires r.Renewed?
    ensures res == Success(config, r)
  {
    hide WithExpiry;
    var cfg := new Config(Decoded(config));
    var authNode := NodeAt(cfg.fields, NEW_API_V1_AUTH);
    var fields := if authNode.Some? then authNode.value else map[];
    cfg.fields := cfg.fields[NEW_API_V1_AUTH := Obj(fields[REFRESH_COOKIE := Str(r.cookie)])];
    cfg.SetManagedTokenExpiresAt(r.expiresAt);
    res := RefreshResult(true, r.access, ConfigText.Object(cfg.fields), 0, false);
  }

  /** refreshAuth, with its bounded recursion: `first` and `second` answer the submissions, of which
      the second happens only while recovery is allowed. `submitted` lists the cookies sent. */
  method RefreshAuth(
    config: ConfigText, jar: Lookup, first: (nat, string) -> Reply, second: (nat, string) -> Reply, custom: string,
    now: int, jwtExpiry: string -> int, allowImmediateRecovery: bool)
    returns (res: RefreshResult, submitted: seq<string>)
    ensures !config.Malformed? && StoredCookie(config, jar) != "" ==>
      var cookie := StoredCookie(config, jar);
      var f := FetchOf(first, custom, cookie);
      var r := Read(f, cookie, now, jwtExpiry);
      if !allowImmediateRecovery then res == LastOutcome(config, r, f) && submitted == [cookie]
      else
        var f' := FetchOf(second, custom, cookie);
        && res == Outcome(config, r, f, Read(f', cookie, now, jwtExpiry), f')
        && submitted == if Recovers(r) then [cookie, cookie] else [cookie]
    ensures config.Malformed? || StoredCookie(config, jar) == "" ==> res == DEAD && submitted == []
    decreases allowImmediateRecovery
  {
    hide Trim, FetchOnce, NewCookie, ClassifiedFailure, EqualFold, MergeHeaders, ErrorCode, StringAt, TrueAt,
      ReportedExpiry, StoredCookie, Success, Sent, NodeAt, Read;
    if config.Malformed? {
      return DEAD, [];
    }
    var refreshCookie := CookieToSubmit(config, jar);
    if refreshCookie == "" {
      return DEAD, [];
    }
    submitted := [refreshCookie];
    var fetched, _ := FetchJsonOnce(first, custom, REFRESH_COOKIE_NAME + "=" + refreshCookie);
    var body := if fetched.body.Some? then fetched.body.value else map[];
    ReadingOf(fetched, refreshCookie, now, jwtExpiry);
    if fetched.error.Some? {
      var status := fetched.error.value.status;
      if !allowImmediateRecovery && status == 0 {
        return DEAD, submitted;
      }
      if allowImmediateRecovery && EqualFold(ErrorCode(body), RACE) {
        var recovered, again := RefreshAuth(config, jar, second, second, custom, now, jwtExpiry, false);
        return recovered, submitted + again;
      }
      if allowImmediateRecovery && status == 0 {
        var recovered, again := RefreshAuth(config, jar, second, second, custom, now, jwtExpiry, false);
        return if recovered.success then recovered else DEAD, submitted + again;
      }
      return ClassifiedFailure(ErrorCode(body), status, fetched.error.value.retryAfter), submitted;
    }
    if !TrueAt(body, "success") {
      return ClassifiedFailure(ErrorCode(body), 0, 0), submitted;
    }
    var data := NodeAt(body, "data");
    if data.None? {
      return DEAD, submitted;
    }
    var newAccessToken := Trim(StringAt(data.value, "access_token"));
    if newAccessToken == "" {
      return DEAD, submitted;
    }
    var newRefreshCookie, rotated := RotatedRefreshCookie(fetched.cookies, refreshCookie);
    if !rotated {
      if allowImmediateRecovery {
        var recovered, again := RefreshAuth(config, jar, second, second, custom, now, jwtExpiry, false);
        return if recovered.success then recovered else DEAD, submitted + again;
      }
      return DEAD, submitted;
    }
    var expiresAt := ReportedExpiry(data.value, newAccessToken, now, jwtExpiry);
    res := StoreRenewal(config, Renewed(newAccessToken, newRefreshCookie, expiresAt));
  }

  function FetchOf(upstream: (nat, string) -> Reply, custom: string, cookie: string): Fetched {
    var header := REFRESH_COOKIE_NAME + "=" + cookie;
    FetchOnce(custom, header, upstream(0, Sent(custom, header)))
  }

  /** The readings after which the cookie is submitted once more. */
  predicate Recovers(r: Reading) {
    r.Uncertain? || r.Raced? || r.Unrotated?
  }

  // ---- What the outcomes mean ----

  /** Success, a wait and a dead credential exclude each other. */
  lemma OutcomesExclusive(config: ConfigText, first: Reading, f: Fetched, last: Reading, f': Fetched)
    ensures var r := Outcome(config, first, f, last, f');
      && r.retryAfter >= 0
      && (r.success ==> !r.dead && r.retryAfter == 0)
      && (r.dead ==> !r.success && r.retryAfter == 0)
      && (r.retryAfter > 0 ==> !r.success && !r.dead)
  {
    hide ClassifiedFailure, Stored;
  }

  /** Success needs a Set-Cookie value that differs from the cookie sent; it is the one stored. */
  lemma SuccessCarriesNewCookie(
    config: ConfigText, jar: Lookup, cookie: string, f: Fetched, f': Fetched, now: int, jwtExpiry: string -> int)
    requires Trimmed(cookie)
    ensures
      var first, last := Read(f, cookie, now, jwtExpiry), Read(f', cookie, now, jwtExpiry);
      var r := Outcome(config, first, f, last, f');
      r.success ==>
        var used := if first.Renewed? then f else f';
        && used.cookies.Some?
        && LatestRefreshCookie(used.cookies.value.setCookies) == Found(StoredCookie(r.extraConfig, jar))
        && StoredCookie(r.extraConfig, jar) != cookie
        && r.accessToken != "" && r.extraConfig.Object?
  {
    hide Trim, ClassifiedFailure, LatestRefreshCookie, Stored, EqualFold, ReportedExpiry, Read, StoredCookie;
    var first, last := Read(f, cookie, now, jwtExpiry), Read(f', cookie, now, jwtExpiry);
    var r := if first.Renewed? then first else last;
    if r.Renewed? {
      var used := if first.Renewed? then f else f';
      RenewedReading(used, cookie, now, jwtExpiry);
      LatestTrimmed(used.cookies.value.setCookies);
      StoredIsRead(Decoded(config), r.cookie, r.expiresAt, jar);
    }
  }

  lemma RenewedReading(f: Fetched, cookie: string, now: int, jwtExpiry: string -> int)
    requires Read(f, cookie, now, jwtExpiry).Renewed? && Trimmed(cookie)
    ensures var r := Read(f, cookie, now, jwtExpiry);
      && f.error.None? && f.body.Some? && TrueAt(f.body.value, "success") && f.cookies.Some?
      && LatestRefreshCookie(f.cookies.value.setCookies) == Found(r.cookie)
      && r.cookie != "" && r.cookie != cookie && r.access != ""
  {
    hide Trim, LatestRefreshCookie, EqualFold, ReportedExpiry, ErrorCode;
  }

  lemma {:induction false} LatestTrimmed(setCookies: seq<string>)
    ensures LatestRefreshCookie(setCookies).Found? ==> Trimmed(LatestRefreshCookie(setCookies).value)
  {
    hide Trim, CookieValueFromHeader;
    if setCookies != [] {
      LatestTrimmed(setCookies[..|setCookies| - 1]);
    }
  }

  /** Writing the expiry after the cookie keeps the cookie. */
  lemma StoredIsRead(cfg: Object, cookie: string, expiresAt: int, jar: Lookup)
    requires Trimmed(cookie) && cookie != ""
    ensures StoredCookie(ConfigText.Object(Stored(cfg, cookie, expiresAt)), jar) == cookie
    ensures expiresAt > 0 ==> ReadExpiry(Stored(cfg, cookie, expiresAt)) == NormalizeEpochMillis(expiresAt)
  {
    hide Trim, WithExpiry, Trimmed;
    var node := NodeAt(cfg, NEW_API_V1_AUTH);
    var fields := if node.Some? then node.value else map[];
    var mid := cfg[NEW_API_V1_AUTH := Obj(fields[REFRESH_COOKIE := Str(cookie)])];
    assert FieldAt(mid, NEW_API_V1_AUTH, REFRESH_COOKIE) == Some(Str(cookie));
    ExpiryWriteKeepsFields(mid, expiresAt);
    assert FieldAt(WithExpiry(mid, expiresAt), NEW_API_V1_AUTH, REFRESH_COOKIE) == Some(Str(cookie));
    if expiresAt > 0 {
      SetThenRead(mid, expiresAt);
    }
  }

  // ---- What a reply means ----

  /** One raw Set-Cookie value sets the refresh cookie to `value`. */
  predicate SetsTo(raw: string, value: string) {
    var cookie := CookieValueFromHeader(raw, "new_api_refresh");
    cookie.Found? && Trim(cookie.value) == value
  }

  /** The last one that sets the refresh cookie sets it to `value`. */
  ghost predicate SetsLast(setCookies: seq<string>, value: string) {
    exists i :: 0 <= i < |setCookies| && SetsTo(setCookies[i], value)
      && forall j :: i < j < |setCookies| ==> CookieValueFromHeader(setCookies[j], "new_api_refresh").Missing?
  }

  lemma {:induction false} LatestIsLast(setCookies: seq<string>, value: string)
    ensures LatestRefreshCookie(setCookies) == Found(value) <==> SetsLast(setCookies, value)
  {
    hide Trim, CookieValueFromHeader;
    if setCookies != [] {
      var n := |setCookies| - 1;
      LatestIsLast(setCookies[..n], value);
      if SetsLast(setCookies[..n], value) && CookieValueFromHeader(setCookies[n], "new_api_refresh").Missing? {
        var i :| 0 <= i < n && SetsTo(setCookies[..n][i], value)
          && forall j :: i < j < n ==> CookieValueFromHeader(setCookies[..n][j], "new_api_refresh").Missing?;
        assert SetsTo(setCookies[i], value);
        assert forall j :: i < j < n ==> setCookies[j] == setCookies[..n][j];
      }
    }
  }

  /** The code a reply carries, in capitals. */
  function CodeOf(reply: Reply): string {
    if reply.Reply? && reply.body.Some? then Upper(Trim(StringAt(reply.body.value, "code"))) else ""
  }

  /** A success as a whole. */
  predicate Succeeds(reply: Reply) {
    reply.Reply? && Is2xx(reply.status) && reply.body.Some? && TrueAt(reply.body.value, "success")
  }

  /** An error answer that says another client won the rotation. */
  predicate RaceError(reply: Reply) {
    reply.Reply? && !Is2xx(reply.status) && CodeOf(reply) == "AUTH_REFRESH_RACE"
  }

  /** Any other completed error answer, or a completed answer without success. */
  predicate Refuses(reply: Reply) {
    && reply.Reply? && !RaceError(reply)
    && if Is2xx(reply.status) then reply.body.Some? && !TrueAt(reply.body.value, "success")
       else reply.status != 0 && (reply.body.Some? || !reply.challenge)
  }

  /** The access token of a success, "" if there is none. */
  function AccessIn(reply: Reply): string {
    if Succeeds(reply) && NodeAt(reply.body.value, "data").Some?
    then Trim(StringAt(NodeAt(reply.body.value, "data").value, "access_token")) else ""
  }

  /** A success with an access token that sets another refresh cookie than the one sent. */
  ghost predicate Renews(reply: Reply, sent: string, cookie: string) {
    AccessIn(reply) != "" && SetsLast(reply.setCookies, cookie) && cookie !in {"", sent}
  }

  ghost predicate RenewsAny(reply: Reply, sent: string) {
    exists cookie :: Renews(reply, sent, cookie)
  }

  /** The replies after which the cookie is submitted once more: a race, an answer that is none, and a success
      without a new cookie. */
  ghost predicate AsksAgain(reply: Reply, sent: string) {
    || RaceError(reply)
    || (!Refuses(reply) && !Succeeds(reply))
    || (AccessIn(reply) != "" && !RenewsAny(reply, sent))
  }

  /** How a reply reads: each reading from what the reply says alone. */
  lemma ReadingIff(custom: string, header: string, sent: string, reply: Reply, now: int, jwtExpiry: string -> int)
    requires Trimmed(sent)
    ensures var r := Read(FetchOnce(custom, header, reply), sent, now, jwtExpiry);
      && (r.Raced? <==> RaceError(reply))
      && (r.Refused? <==> Refuses(reply))
      && (r.Uncertain? <==> !RaceError(reply) && !Refuses(reply) && !Succeeds(reply))
      && (r.Incomplete? <==> Succeeds(reply) && AccessIn(reply) == "")
      && (forall cookie :: r.Renewed? && r.cookie == cookie <==> Renews(reply, sent, cookie))
      && (r.Refused? ==>
            && Upper(Trim(r.code)) == CodeOf(reply)
            && r.status == (if Is2xx(reply.status) then 0 else reply.status)
            && r.retryAfter == (if Is2xx(reply.status) then 0 else reply.retryAfter))
      && (r.Renewed? ==>
            && r.access == AccessIn(reply) && NodeAt(reply.body.value, "data").Some?
            && r.expiresAt == ReportedExpiry(NodeAt(reply.body.value, "data").value, r.access, now, jwtExpiry))
  {
    hide Trim, LatestRefreshCookie, ReportedExpiry, MergeSetCookies, MergeHeaders, EqualFold, SetsLast, Upper;
    var f := FetchOnce(custom, header, reply);
    NoCodeNoRace();
    if reply.Reply? {
      assert [] + reply.setCookies == reply.setCookies;
      if reply.body.Some? {
        RaceEitherWay(ErrorCode(reply.body.value));
        TrimOfTrim(StringAt(reply.body.value, "code"));
      }
      forall cookie
        ensures LatestRefreshCookie(reply.setCookies) == Found(cookie) <==> SetsLast(reply.setCookies, cookie)
      {
        LatestIsLast(reply.setCookies, cookie);
      }
    }
  }

  /** The cookie is submitted a second time exactly after these replies. */
  lemma RecoversIff(custom: string, header: string, sent: string, reply: Reply, now: int, jwtExpiry: string -> int)
    requires Trimmed(sent)
    ensures Recovers(Read(FetchOnce(custom, header, reply), sent, now, jwtExpiry)) <==> AsksAgain(reply, sent)
  {
    hide Trim, FetchOnce, CodeOf, SetsLast, Read, AccessIn, Renews;
    ReadingIff(custom, header, sent, reply, now, jwtExpiry);
    RenewsHasAccess(reply, sent);
    var r := Read(FetchOnce(custom, header, reply), sent, now, jwtExpiry);
    assert r.Renewed? ==> Renews(reply, sent, r.cookie);
  }

  lemma NoCodeNoRace()
    ensures ErrorCode(map[]) == "" && Upper(Trim("")) == "" && !EqualFold("", RACE)
  {
    hide Trim;
    assert Trim("") == "" by { assert Trimmed(""); }
  }

  /** Folding and capitals agree on this code. */
  lemma RaceEitherWay(code: string)
    ensures EqualFold(code, RACE) <==> Upper(code) == "AUTH_REFRESH_RACE"
  {
    if |code| == |RACE| {
      forall i | 0 <= i < |RACE| ensures FoldChar(code[i]) == FoldChar(RACE[i]) <==> UpperChar(code[i]) == RACE[i] {
        CapitalEitherWay(code[i], RACE[i]);
      }
      assert Upper(code) == RACE <==> forall i :: 0 <= i < |RACE| ==> UpperChar(code[i]) == RACE[i];
    }
  }

  lemma CapitalEitherWay(c: char, capital: char)
    requires capital in RACE
    ensures FoldChar(c) == FoldChar(capital) <==> UpperChar(c) == capital
  {
    assert capital == '_' || ('A' <= capital <= 'Z' && capital !in {'I', 'K'});
  }

  // ---- What an exchange reports ----

  const FATAL_CODES := {"AUTH_SESSION_REVOKED", "AUTH_UNAUTHORIZED", "AUTH_TOKEN_EXPIRED", "AUTH_SESSION_MISMATCH",
                        "AUTH_USER_DISABLED"}

  /** A structured code counts before any status. A refusal is fatal for one of the fatal codes, or as a 401;
      it asks for a wait as a 429, of what the server says or else 20 minutes, and as a race or a 409, of two
      seconds. Anything else is neither. */
  predicate ReportsRefusal(r: RefreshResult, reply: Reply)
    requires reply.Reply?
  {
    var code, status := CodeOf(reply), if Is2xx(reply.status) then 0 else reply.status;
    var plain := code !in FATAL_CODES + {"AUTH_REFRESH_RACE", "AUTH_ORIGIN_FORBIDDEN"};
    && !r.success
    && (r.dead <==> code in FATAL_CODES || (plain && status == 401))
    && r.retryAfter
       == (if code == "AUTH_REFRESH_RACE" || (plain && status == 409) then 2 * RefreshTiming.SECOND
           else if plain && status == 429 then
             (if reply.retryAfter > 0 then reply.retryAfter else 20 * 60 * RefreshTiming.SECOND)
           else 0)
  }

  /** When the new token expires: what the answer says, else the token's own claim, else in 15 minutes. */
  predicate Expires(reply: Reply, now: int, jwtExpiry: string -> int, millis: int) {
    var data := if Succeeds(reply) && NodeAt(reply.body.value, "data").Some?
      then NodeAt(reply.body.value, "data").value else map[];
    if "access_expires_at" in data && data["access_expires_at"].Num?
       && Truncate(data["access_expires_at"].n) > 0
    then millis == NormalizeEpochMillis(Truncate(data["access_expires_at"].n))
    else if jwtExpiry(AccessIn(reply)) > 0 then millis == jwtExpiry(AccessIn(reply))
    else millis == RefreshTiming.UnixMilli(now + 15 * 60 * RefreshTiming.SECOND)
  }

  /** A renewal hands out the access token of the answer, stores its refresh cookie and its expiry where the
      next exchange and the scheduler look for them, and changes no other field. */
  ghost predicate ReportsRenewal(
    r: RefreshResult, config: ConfigText, reply: Reply, sent: string, now: int, jwtExpiry: string -> int)
  {
    && r.success && !r.dead && r.retryAfter == 0 && r.accessToken == AccessIn(reply) && r.extraConfig.Object?
    && (forall cookie :: Renews(reply, sent, cookie) ==>
          FieldAt(r.extraConfig.cfg, "newApiV1Auth", "refreshCookie") == Some(Str(cookie)))
    && (forall millis :: millis > 0 && Expires(reply, now, jwtExpiry, millis) ==>
          ReadExpiry(r.extraConfig.cfg) == NormalizeEpochMillis(millis))
    && (forall k, f :: f != "tokenExpiresAt" && (k != "newApiV1Auth" || f != "refreshCookie") ==>
          FieldAt(r.extraConfig.cfg, k, f) == FieldAt(Decoded(config), k, f))
    && (forall k :: k !in {"sub2apiAuth", "managedAuth", "newApiV1Auth"} ==>
          (k in r.extraConfig.cfg <==> k in Decoded(config))
          && (k in r.extraConfig.cfg ==> r.extraConfig.cfg[k] == Decoded(config)[k]))
  }

  function ExchangeOutcome(
    config: ConfigText, custom: string, sent: string, r0: Reply, r1: Reply, now: int, jwtExpiry: string -> int)
    : RefreshResult
  {
    var header := REFRESH_COOKIE_NAME + "=" + sent;
    var f, f' := FetchOnce(custom, header, r0), FetchOnce(custom, header, r1);
    Outcome(config, Read(f, sent, now, jwtExpiry), f, Read(f', sent, now, jwtExpiry), f')
  }

  /** What the whole exchange reports, from the two replies alone: the first renewal it gets; the refusal of
      the first reply, or of the second after a race; and a dead credential otherwise. */
  lemma ExchangeReports(
    config: ConfigText, custom: string, sent: string, r0: Reply, r1: Reply, now: int, jwtExpiry: string -> int)
    requires Trimmed(sent)
    ensures var r, again := ExchangeOutcome(config, custom, sent, r0, r1, now, jwtExpiry), AsksAgain(r0, sent);
      var last := if again then r1 else r0;
      && (RenewsAny(last, sent) ==> ReportsRenewal(r, config, last, sent, now, jwtExpiry))
      && (Refuses(r0) ==> ReportsRefusal(r, r0))
      && (RaceError(r0) && (Refuses(r1) || (RaceError(r1) && r1.status != 0)) ==> ReportsRefusal(r, r1))
      && (RenewsAny(last, sent) || Refuses(r0) || r == DEAD
          || (RaceError(r0) && (Refuses(r1) || (RaceError(r1) && r1.status != 0))))
  {
    hide Read, FetchOnce, Trim, CodeOf, AccessIn, SetsLast, Renews, ReportsRenewal, ReportsRefusal,
      ClassifiedFailure, Success, RacedFailure;
    var header := REFRESH_COOKIE_NAME + "=" + sent;
    var f, f' := FetchOnce(custom, header, r0), FetchOnce(custom, header, r1);
    var first, second := Read(f, sent, now, jwtExpiry), Read(f', sent, now, jwtExpiry);
    RenewsHasAccess(r0, sent);
    RenewsHasAccess(r1, sent);
    ReadingIff(custom, header, sent, r0, now, jwtExpiry);
    ReadingIff(custom, header, sent, r1, now, jwtExpiry);
    if first.Renewed? {
      assert Renews(r0, sent, first.cookie);
      RenewalReported(config, first, r0, sent, now, jwtExpiry);
    }
    if second.Renewed? {
      assert Renews(r1, sent, second.cookie);
      RenewalReported(config, second, r1, sent, now, jwtExpiry);
    }
    if Refuses(r0) {
      RefusalReported(r0, first.code);
    }
    if Refuses(r1) {
      RefusalReported(r1, second.code);
    }
    if RaceError(r1) {
      RaceReported(custom, header, r1);
    }
  }

  lemma RenewsHasAccess(reply: Reply, sent: string)
    ensures RenewsAny(reply, sent) ==> AccessIn(reply) != ""
    ensures AccessIn(reply) != "" ==> Succeeds(reply)
    ensures Succeeds(reply) ==> !Refuses(reply) && !RaceError(reply)
  {
    hide Trim, CodeOf, SetsLast;
  }

  lemma RefusalReported(reply: Reply, code: string)
    requires reply.Reply? && Upper(Trim(code)) == CodeOf(reply)
    ensures ReportsRefusal(
      ClassifiedFailure(code, if Is2xx(reply.status) then 0 else reply.status,
                        if Is2xx(reply.status) then 0 else reply.retryAfter), reply)
  {
    hide Trim, CodeOf, Upper;
  }

  lemma RaceReported(custom: string, header: string, reply: Reply)
    requires RaceError(reply)
    ensures var f := FetchOnce(custom, header, reply);
      f.error.Some? && f.error.value.status == reply.status && ReportsRefusal(RacedFailure(f), reply)
  {
    hide Trim, ClassifiedFailure, MergeSetCookies, MergeHeaders, Upper;
    TrimOfTrim(StringAt(reply.body.value, "code"));
    NoCodeNoRace();
    RefusalReported(reply, ErrorCode(reply.body.value));
  }

  /** Storing a cookie and an expiry changes these two and no other field. */
  lemma StoredChanges(cfg: Object, cookie: string, expiresAt: int)
    ensures var to := Stored(cfg, cookie, expiresAt);
      && FieldAt(to, NEW_API_V1_AUTH, REFRESH_COOKIE) == Some(Str(cookie))
      && (expiresAt > 0 ==> ReadExpiry(to) == NormalizeEpochMillis(expiresAt))
      && (forall k, f :: f != TOKEN_EXPIRES_AT && (k != NEW_API_V1_AUTH || f != REFRESH_COOKIE) ==>
            FieldAt(to, k, f) == FieldAt(cfg, k, f))
      && (forall k :: !IsExpiryNode(k) ==> (k in to <==> k in cfg) && (k in to ==> to[k] == cfg[k]))
  {
    hide WithExpiry, ReadExpiry;
    var node := NodeAt(cfg, NEW_API_V1_AUTH);
    var fields := if node.Some? then node.value else map[];
    var mid := cfg[NEW_API_V1_AUTH := Obj(fields[REFRESH_COOKIE := Str(cookie)])];
    assert FieldAt(mid, NEW_API_V1_AUTH, REFRESH_COOKIE) == Some(Str(cookie));
    ExpiryWriteKeepsFields(mid, expiresAt);
    assert FieldAt(WithExpiry(mid, expiresAt), NEW_API_V1_AUTH, REFRESH_COOKIE) == Some(Str(cookie));
    if expiresAt > 0 {
      SetThenRead(mid, expiresAt);
    }
  }

  lemma RenewalReported(
    config: ConfigText, r: Reading, reply: Reply, sent: string, now: int, jwtExpiry: string -> int)
    requires r.Renewed? && r.access == AccessIn(reply) != "" && Succeeds(reply)
    requires forall cookie :: Renews(reply, sent, cookie) ==> cookie == r.cookie
    requires NodeAt(reply.body.value, "data").Some?
    requires r.expiresAt == ReportedExpiry(NodeAt(reply.body.value, "data").value, r.access, now, jwtExpiry)
    ensures ReportsRenewal(Success(config, r), config, reply, sent, now, jwtExpiry)
  {
    hide Trim, Renews, Stored, ReadExpiry, AccessIn, FieldAt, NormalizeEpochMillis, Expires, ReportedExpiry, Succeeds;
    StoredChanges(Decoded(config), r.cookie, r.expiresAt);
    forall millis | Expires(reply, now, jwtExpiry, millis) ensures millis == r.expiresAt {
      ExpiresAsReported(reply, now, jwtExpiry, millis);
    }
  }

  lemma ExpiresAsReported(reply: Reply, now: int, jwtExpiry: string -> int, millis: int)
    requires Succeeds(reply) && NodeAt(reply.body.value, "data").Some? && Expires(reply, now, jwtExpiry, millis)
    ensures millis == ReportedExpiry(NodeAt(reply.body.value, "data").value, AccessIn(reply), now, jwtExpiry)
  {
    hide Trim, AccessIn;
  }

  // ---- The server's side ----

  /** The cookie the server accepts next, and the one it still replays while its grace window lasts. */
  datatype Server = Server(current: string, replayed: Option<string>)

  /** A completed error answer, or a completed answer that says success: false. */
  predicate CompletedFailure(reply: Reply) {
    reply.Reply? && (!Is2xx(reply.status) || (reply.body.Some? && !TrueAt(reply.body.value, "success")))
  }

  /** A whole successful answer whose last refresh cookie is this one. */
  ghost predicate IssuesCookie(reply: Reply, cookie: string) {
    Succeeds(reply) && SetsLast(reply.setCookies, cookie)
  }

  /** One submission by the only client. The current cookie may be rotated, and is then the one replayed;
      a completed failure rotates nothing. Only for the current cookie, or for the replayed one, a cookie is
      issued: the one current afterwards. Whether any answer arrives, and whole, is left open. */
  ghost predicate Exchange(s: Server, sent: string, reply: Reply, s': Server) {
    && (s' == s || (sent == s.current && !CompletedFailure(reply) && s' == Server(s'.current, Some(sent))))
    && (forall cookie :: IssuesCookie(reply, cookie) ==>
          (sent == s.current || s.replayed == Some(sent)) && cookie == s'.current)
  }

  /** Between two submissions the grace window may end. */
  predicate Elapses(s: Server, s': Server) {
    s' == s || s' == s.(replayed := None)
  }

  /** What a reading says about the reply it comes from. */
  lemma ReadingOfReply(custom: string, header: string, cookie: string, reply: Reply, now: int, jwtExpiry: string -> int)
    requires Trimmed(cookie)
    ensures var r := Read(FetchOnce(custom, header, reply), cookie, now, jwtExpiry);
      && (r.Refused? || r.Raced? ==> CompletedFailure(reply))
      && (r.Renewed? ==> IssuesCookie(reply, r.cookie))
  {
    hide Trim, ReportedExpiry, FetchOnce, CodeOf, SetsLast, Read, AccessIn;
    ReadingIff(custom, header, cookie, reply, now, jwtExpiry);
    RenewsHasAccess(reply, cookie);
    var r := Read(FetchOnce(custom, header, reply), cookie, now, jwtExpiry);
    assert r.Renewed? ==> Renews(reply, cookie, r.cookie);
  }

  /** Against such a server, whether or not the grace window ends between the two submissions, the exchange
      ends with the server's current cookie, or dead, or with the cookie unrotated. */
  lemma SoleClientKeepsInStep(
    config: ConfigText, jar: Lookup, custom: string, r0: Reply, r1: Reply, now: int, jwtExpiry: string -> int,
    s0: Server, s1: Server, resumed: Server, s2: Server)
    requires StoredCookie(config, jar) != "" && StoredCookie(config, jar) == s0.current
    requires Exchange(s0, s0.current, r0, s1)
    requires Elapses(s1, resumed)
    requires Exchange(resumed, s0.current, r1, s2)
    ensures
      var cookie := StoredCookie(config, jar);
      var header := REFRESH_COOKIE_NAME + "=" + cookie;
      var f, f' := FetchOnce(custom, header, r0), FetchOnce(custom, header, r1);
      var first, last := Read(f, cookie, now, jwtExpiry), Read(f', cookie, now, jwtExpiry);
      var end := if Recovers(first) then s2 else s1;
      var r := Outcome(config, first, f, last, f');
      || (r.success && StoredCookie(r.extraConfig, jar) == end.current)
      || r.dead
      || (!r.success && end.current == s0.current)
  {
    hide Trim, ClassifiedFailure, LatestRefreshCookie, Success, Read, FetchOnce, CompletedFailure, TrueAt, StoredCookie;
    var cookie := StoredCookie(config, jar);
    StoredCookieTrimmed(config, jar);
    var header := REFRESH_COOKIE_NAME + "=" + cookie;
    var f, f' := FetchOnce(custom, header, r0), FetchOnce(custom, header, r1);
    ReadingOfReply(custom, header, cookie, r0, now, jwtExpiry);
    ReadingOfReply(custom, header, cookie, r1, now, jwtExpiry);
    var first, last := Read(f, cookie, now, jwtExpiry), Read(f', cookie, now, jwtExpiry);
    var r := Outcome(config, first, f, last, f');
    if first.Renewed? {
      SuccessStores(config, first, f, cookie, jar, now, jwtExpiry);
    }
    if last.Renewed? {
      SuccessStores(config, last, f', cookie, jar, now, jwtExpiry);
    }
  }

  lemma StoredCookieTrimmed(config: ConfigText, jar: Lookup)
    ensures Trimmed(StoredCookie(config, jar))
  {
    hide Trim;
  }

  lemma SuccessStores(
    config: ConfigText, r: Reading, f: Fetched, cookie: string, jar: Lookup, now: int, jwtExpiry: string -> int)
    requires Trimmed(cookie) && r == Read(f, cookie, now, jwtExpiry) && r.Renewed?
    ensures StoredCookie(Success(config, r).extraConfig, jar) == r.cookie
  {
    hide Trim, LatestRefreshCookie, Stored, Read, StoredCookie;
    RenewedReading(f, cookie, now, jwtExpiry);
    LatestTrimmed(f.cookies.value.setCookies);
    StoredIsRead(Decoded(config), r.cookie, r.expiresAt, jar);
  }
}
