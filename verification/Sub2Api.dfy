/** The Sub2API refresh exchange (platform/sub2api.go): a one-time refresh token is traded for the
    next one, over a connection that may lose or garble the answer. */
module Sub2Api {
  import opened Text
  import opened Json
  import opened ManagedAuth
  import RefreshTiming
  import opened FetchLoop

  const RATE_LIMIT_BACKOFF := RefreshTiming.MINUTE
  const FALLBACK_TOKEN_TTL := 15 * RefreshTiming.MINUTE
  const TOO_MANY_REQUESTS := 429

  function ParseCode(body: Object): Option<int> {
    if "code" !in body then None
    else match body["code"]
      case Num(n) => Some(Truncate(n))
      case Str(s) => ParseInt(Trim(s))
      case _ => None
  }

  /** parseSub2Envelope: the data of an answer with code 0. */
  function Envelope(body: Object): Option<Value> {
    if ParseCode(body) == Some(0) && "data" in body then Some(body["data"]) else None
  }

  datatype Tokens = Tokens(access: string, refresh: string, expiresIn: real)

  /** The complete token pair of an accepted exchange, if there is one. */
  function IssuedTokens(body: Object): Option<Tokens> {
    var data := Envelope(body);
    if data.None? || !data.value.Obj? then None
    else
      var fields := data.value.fields;
      var access, refresh := Trim(StringAt(fields, "access_token")), Trim(StringAt(fields, "refresh_token"));
      if access == "" || refresh == "" then None
      else Some(Tokens(access, refresh,
                       if "expires_in" in fields && fields["expires_in"].Num? then fields["expires_in"].n else 0.0))
  }

  const DEAD := RefreshResult(false, "", Absent, 0, true)

  /** sub2RefreshFailure: only throttling is retried; any other failure may have consumed the token. */
  function Failure(status: int, retryAfter: int, body: Object): RefreshResult {
    var code := if status != 0 then status else if ParseCode(body).Some? then ParseCode(body).value else 0;
    if code == TOO_MANY_REQUESTS
    then RefreshResult(false, "", Absent, if retryAfter > 0 then retryAfter else RATE_LIMIT_BACKOFF, false)
    else DEAD
  }

  /** The refresh token the next exchange will submit. */
  function StoredToken(config: ConfigText): string {
    var node := NodeAt(Decoded(config), SUB2API_AUTH);
    if node.Some? then Trim(StringAt(node.value, REFRESH_TOKEN)) else ""
  }

  function ExpiryOf(tokens: Tokens, now: int, jwtExpiry: string -> int): int {
    var reported :=
      if tokens.expiresIn > 0.0 then RefreshTiming.UnixMilli(now) + Truncate(tokens.expiresIn * 1000.0) else 0;
    if reported > 0 then reported
    else if jwtExpiry(tokens.access) > 0 then jwtExpiry(tokens.access)
    else RefreshTiming.UnixMilli(now + FALLBACK_TOKEN_TTL)
  }

  /** The configuration after an exchange that issued `tokens`. */
  function Rotated(cfg: Object, tokens: Tokens, expiresAt: int): Object
    requires NodeAt(cfg, SUB2API_AUTH).Some?
  {
    var node := NodeAt(cfg, SUB2API_AUTH).value[REFRESH_TOKEN := Str(tokens.refresh)];
    WithExpiry(cfg[SUB2API_AUTH := Obj(node)], expiresAt)
  }

  /** What RefreshAuth makes of the one reply it gets. */
  function Outcome(config: ConfigText, reply: Reply, now: int, jwtExpiry: string -> int): RefreshResult {
    if StoredToken(config) == "" then DEAD
    else
      var fetched := FetchOnce("", "", reply);
      var body := if fetched.body.Some? then fetched.body.value else map[];
      if fetched.error.Some? then Failure(fetched.error.value.status, fetched.error.value.retryAfter, body)
      else if Envelope(body).None? then Failure(0, 0, body)
      else
        var tokens := IssuedTokens(body);
        if tokens.None? || tokens.value.refresh == StoredToken(config) then DEAD
        else
          RefreshResult(true, tokens.value.access,
            ConfigText.Object(Rotated(Decoded(config), tokens.value, ExpiryOf(tokens.value, now, jwtExpiry))), 0, false)
  }

  /** RefreshAuth, editing the decoded configuration in place. `submitted` lists the tokens sent. */
  method RefreshAuth(config: ConfigText, upstream: (nat, string) -> Reply, now: int, jwtExpiry: string -> int)
    returns (res: RefreshResult, submitted: seq<string>)
    ensures res == Outcome(config, upstream(0, Sent("", "")), now, jwtExpiry)
    ensures submitted == if StoredToken(config) == "" then [] else [StoredToken(config)]
  {
    hide Trim, WithExpiry, FetchOnce;
    if config.Malformed? {
      return DEAD, [];
    }
    var cfg := new Config(Decoded(config));
    var node := NodeAt(cfg.fields, SUB2API_AUTH);
    TrimEmpty();
    if node.None? {
      return DEAD, [];
    }
    var refreshToken := Trim(StringAt(node.value, REFRESH_TOKEN));
    if refreshToken == "" {
      return DEAD, [];
    }
    submitted := [refreshToken];
    var fetched, _ := FetchJsonOnce(upstream, "", "");
    var body := if fetched.body.Some? then fetched.body.value else map[];
    if fetched.error.Some? {
      return Failure(fetched.error.value.status, fetched.error.value.retryAfter, body), submitted;
    }
    var data := Envelope(body);
    if data.None? {
      return Failure(0, 0, body), submitted;
    }
    var tokens := IssuedTokens(body);
    if tokens.None? {
      return DEAD, submitted;
    }
    if tokens.value.refresh == refreshToken {
      return DEAD, submitted;
    }
    cfg.fields := cfg.fields[SUB2API_AUTH := Obj(node.value[REFRESH_TOKEN := Str(tokens.value.refresh)])];
    cfg.SetManagedTokenExpiresAt(ExpiryOf(tokens.value, now, jwtExpiry));
    res := RefreshResult(true, tokens.value.access, ConfigText.Object(cfg.fields), 0, false);
  }

  // ---- What an answer means ----

  /** The code an answer carries, as a number or as a text. */
  predicate SaysCode(body: Object, code: int) {
    "code" in body
    && match body["code"]
       case Num(n) => Truncate(n) == code
       case Str(s) => ParseInt(Trim(s)) == Some(code)
       case _ => false
  }

  /** The data object of a complete 2xx answer with code 0; no fields if there is none. */
  function AcceptedData(reply: Reply): Object {
    if reply.Reply? && Is2xx(reply.status) && reply.body.Some? && SaysCode(reply.body.value, 0)
       && "data" in reply.body.value && reply.body.value["data"].Obj?
    then reply.body.value["data"].fields else map[]
  }

  /** The two tokens of an accepted exchange, "" if one is missing. */
  function AccessIn(reply: Reply): string {
    Trim(StringAt(AcceptedData(reply), "access_token"))
  }

  function RefreshIn(reply: Reply): string {
    Trim(StringAt(AcceptedData(reply), "refresh_token"))
  }

  /** Answers that say "too many requests": by their status or, without an error status, by their code. */
  predicate Throttles(reply: Reply) {
    && reply.Reply?
    && if Is2xx(reply.status) || reply.status == 0 then reply.body.Some? && SaysCode(reply.body.value, 429)
       else reply.status == 429 && (reply.body.Some? || !reply.challenge)
  }

  /** The wait the server asks for, or else a minute. */
  function AskedWait(reply: Reply): int {
    if reply.Reply? && !Is2xx(reply.status) && reply.retryAfter > 0 then reply.retryAfter
    else 60 * RefreshTiming.SECOND
  }

  /** Every outcome is exactly one of: renewed, throttled, dead. It is renewed exactly if a token was there to
      submit and the answer carries an access token and another refresh token; throttled exactly if the answer
      says so, for the wait asked for. */
  lemma OutcomeIsOneOfThree(config: ConfigText, reply: Reply, now: int, jwtExpiry: string -> int)
    ensures var r, sent := Outcome(config, reply, now, jwtExpiry), StoredToken(config);
      && (r.success <==> sent != "" && AccessIn(reply) != "" && RefreshIn(reply) !in {"", sent})
      && (r.retryAfter > 0 <==> sent != "" && Throttles(reply))
      && (r.dead <==> !r.success && r.retryAfter <= 0)
      && (r.success ==> r.accessToken == AccessIn(reply) && r.retryAfter == 0 && r.extraConfig.Object?)
      && (r.retryAfter > 0 ==> !r.success && r.retryAfter == AskedWait(reply))
  {
    hide Trim, Rotated, ParseInt, Received, ExpiryOf, StringAt, Truncate;
    NothingIn();
  }

  lemma NothingIn()
    ensures Trim(StringAt(map[], "access_token")) == "" == Trim(StringAt(map[], "refresh_token"))
  {
    hide Trim;
    TrimEmpty();
  }

  /** When the issued tokens expire: what the answer says, else the token's own claim, else in 15 minutes. */
  predicate Expires(reply: Reply, now: int, jwtExpiry: string -> int, millis: int) {
    var data := AcceptedData(reply);
    if "expires_in" in data && data["expires_in"].Num? && data["expires_in"].n > 0.0
       && RefreshTiming.UnixMilli(now) + Truncate(data["expires_in"].n * 1000.0) > 0
    then millis == RefreshTiming.UnixMilli(now) + Truncate(data["expires_in"].n * 1000.0)
    else if jwtExpiry(AccessIn(reply)) > 0 then millis == jwtExpiry(AccessIn(reply))
    else millis == RefreshTiming.UnixMilli(now + 15 * 60 * RefreshTiming.SECOND)
  }

  /** A renewal stores the issued refresh token and when the tokens expire, where the next exchange and the
      scheduler look for them, and changes no other field. */
  lemma RenewalIsStored(config: ConfigText, reply: Reply, now: int, jwtExpiry: string -> int, millis: int)
    requires Outcome(config, reply, now, jwtExpiry).success && Expires(reply, now, jwtExpiry, millis)
    ensures var r := Outcome(config, reply, now, jwtExpiry);
      && r.extraConfig.Object?
      && FieldAt(r.extraConfig.cfg, "sub2apiAuth", "refreshToken") == Some(Str(RefreshIn(reply)))
      && StoredToken(r.extraConfig) == RefreshIn(reply)
      && (millis > 0 ==> ReadExpiry(r.extraConfig.cfg) == NormalizeEpochMillis(millis))
      && (forall k, f :: f != "tokenExpiresAt" && (k != "sub2apiAuth" || f != "refreshToken") ==>
            FieldAt(r.extraConfig.cfg, k, f) == FieldAt(Decoded(config), k, f))
      && (forall k :: k !in {"sub2apiAuth", "managedAuth", "newApiV1Auth"} ==>
            (k in r.extraConfig.cfg <==> k in Decoded(config))
            && (k in r.extraConfig.cfg ==> r.extraConfig.cfg[k] == Decoded(config)[k]))
  {
    hide Trim, ParseInt, Received, StringAt, Truncate, WithExpiry, ReadExpiry;
    var tokens := IssuedTokens(reply.body.value).value;
    var cfg := Decoded(config);
    assert tokens.refresh == RefreshIn(reply) && tokens.access == AccessIn(reply);
    assert millis == ExpiryOf(tokens, now, jwtExpiry);
    RotatedStores(cfg, tokens, millis);
    TrimOfTrim(StringAt(AcceptedData(reply), "refresh_token"));
  }

  // ---- The server's side ----

  /** The refresh token the server accepts next. */
  datatype Server = Server(current: string)

  /** One submission. Only the current token can rotate the session; throttling does not consume it;
      a complete answer with another refresh token carries the one that is current afterwards. Everything
      else about the answer - lost, garbled, incomplete, refused - is left open. */
  ghost predicate Exchange(s: Server, sent: string, reply: Reply, s': Server) {
    && (sent != s.current || Throttles(reply) ==> s' == s)
    && (AccessIn(reply) != "" && RefreshIn(reply) !in {"", sent} ==> RefreshIn(reply) == s'.current)
  }

  /** The stored token of the rotated configuration is the issued one; writing the expiry keeps it and all
      other fields. */
  lemma RotatedStores(cfg: Object, tokens: Tokens, expiresAt: int)
    requires NodeAt(cfg, SUB2API_AUTH).Some?
    ensures var to := Rotated(cfg, tokens, expiresAt);
      && FieldAt(to, SUB2API_AUTH, REFRESH_TOKEN) == Some(Str(tokens.refresh))
      && StoredToken(ConfigText.Object(to)) == Trim(tokens.refresh)
      && (expiresAt > 0 ==> ReadExpiry(to) == NormalizeEpochMillis(expiresAt))
      && (forall k :: !IsExpiryNode(k) ==> (k in to <==> k in cfg) && (k in to ==> to[k] == cfg[k]))
      && (forall k, f :: f != TOKEN_EXPIRES_AT && (k != SUB2API_AUTH || f != REFRESH_TOKEN) ==>
            FieldAt(to, k, f) == FieldAt(cfg, k, f))
  {
    hide Trim, WithExpiry;
    var mid := cfg[SUB2API_AUTH := Obj(NodeAt(cfg, SUB2API_AUTH).value[REFRESH_TOKEN := Str(tokens.refresh)])];
    assert FieldAt(mid, SUB2API_AUTH, REFRESH_TOKEN) == Some(Str(tokens.refresh));
    ExpiryWriteKeepsFields(mid, expiresAt);
    assert FieldAt(WithExpiry(mid, expiresAt), SUB2API_AUTH, REFRESH_TOKEN) == Some(Str(tokens.refresh));
    if expiresAt > 0 {
      SetThenRead(mid, expiresAt);
    }
  }

  /** Whatever the connection and the server do, an exchange that began in step with the server ends
      in step with it, or reports the credential dead; a throttled one consumed nothing. */
  lemma ExchangeKeepsInStep(config: ConfigText, reply: Reply, now: int, jwtExpiry: string -> int, s: Server, s': Server)
    requires StoredToken(config) == s.current
    requires Exchange(s, s.current, reply, s')
    ensures var r := Outcome(config, reply, now, jwtExpiry);
      || (r.success && StoredToken(r.extraConfig) == s'.current)
      || r.dead
      || (r.retryAfter > 0 && s' == s)
  {
    hide Outcome, AccessIn, RefreshIn, StoredToken;
    OutcomeIsOneOfThree(config, reply, now, jwtExpiry);
    if Outcome(config, reply, now, jwtExpiry).success {
      var millis := WhenExpires(reply, now, jwtExpiry);
      RenewalIsStored(config, reply, now, jwtExpiry, millis);
    }
  }

  lemma WhenExpires(reply: Reply, now: int, jwtExpiry: string -> int) returns (millis: int)
    ensures Expires(reply, now, jwtExpiry, millis)
  {
    hide AcceptedData, AccessIn;
    var data := AcceptedData(reply);
    millis := if "expires_in" in data && data["expires_in"].Num? && data["expires_in"].n > 0.0
                 && RefreshTiming.UnixMilli(now) + Truncate(data["expires_in"].n * 1000.0) > 0
      then RefreshTiming.UnixMilli(now) + Truncate(data["expires_in"].n * 1000.0)
      else if jwtExpiry(AccessIn(reply)) > 0 then jwtExpiry(AccessIn(reply))
      else RefreshTiming.UnixMilli(now + 15 * 60 * RefreshTiming.SECOND);
  }
}
