/** What a new credential does to a remembered outcome: which changes the fingerprint notices
    (service/managed_session.go:263-275, 373-459). */
module CredentialChange {
  import opened Text
  import opened Json
  import opened Cookie
  import ManagedAuth
  import opened ManagedSession
  import opened CredentialSafety
  import NewApiV1

  // ---- A new credential ----

  /** A cookie found in an access token, "" if there is none. */
  function CookieText(cookie: Lookup): string {
    if cookie.Found? then Trim(cookie.value) else ""
  }

  /** The fingerprint looks for the refresh cookie in the access token as it is, the exchange behind a
      Bearer prefix: what the fingerprint finds is nothing, or what the exchange finds. */
  predicate SameCookieBehindPrefix(accessToken: string) {
    var hashed := CookieText(CookieValueFromHeader(accessToken, NewApiV1.REFRESH_COOKIE_NAME));
    var submitted := CookieText(CookieValueFromHeader(StripBearerPrefix(accessToken), NewApiV1.REFRESH_COOKIE_NAME));
    hashed == "" || hashed == submitted
  }

  /** The text under which a credential is hashed. */
  function HashedOf(env: Env, row: Row): string {
    Hashed(env, RefreshCredential(row, Decoded(row.extraConfig)))
  }

  /** A text that a malformed credential is hashed as, too. */
  ghost predicate LooksMalformed(env: Env, text: string) {
    exists v :: text == INVALID + env.encode(v)
  }

  /** Equal fingerprints of new-api-v1 rows with this access token mean equal submitted credentials, unless
      they look malformed. */
  ghost predicate Covered(env: Env, accessToken: string) {
    forall a, b ::
      PlatformName(a) == NEW_API_V1 && a.accessToken == accessToken && FingerprintOf(env, a) == FingerprintOf(env, b)
      && !LooksMalformed(env, HashedOf(env, a))
      ==> Submitted(a) == Submitted(b)
  }

  lemma EqualFingerprints(env: Env, a: Row, b: Row)
    requires IsManaged(a) && FingerprintOf(env, a) == FingerprintOf(env, b)
    ensures PlatformName(a) == PlatformName(b) && a.accessToken == b.accessToken
    ensures HashedOf(env, a) == HashedOf(env, b)
  {
    hide Trim, Lower, CookieValueFromHeader, StripSlashes, UseSystemProxy, OptionProxy, RefreshCredential;
  }

  /** Equal fingerprints mean that nothing changed that a refresh depends on: site, platform, address but for
      slashes behind it, access token, outbound route, headers, captcha key and relogin setting. */
  lemma EqualFingerprintsAgree(env: Env, a: Row, b: Row)
    requires FingerprintOf(env, a) == FingerprintOf(env, b)
    ensures a.siteId == b.siteId && a.createdAt == b.createdAt && PlatformName(a) == PlatformName(b)
    ensures a.accessToken == b.accessToken && a.customHeaders == b.customHeaders
    ensures a.turnstileSiteKey == b.turnstileSiteKey && StripSlashes(Trim(a.siteUrl)) == StripSlashes(Trim(b.siteUrl))
    ensures RouteOf(env, a) == RouteOf(env, b)
    ensures ReloginOf(env, a) == ReloginOf(env, b)
    ensures a.extraConfig.Malformed? && a.extraConfig.text != "" ==> b.extraConfig == a.extraConfig
  {
    hide Trim, Lower, CookieValueFromHeader, RefreshCredential, StripSlashes;
  }

  /** The outbound route of an account: its own proxy or else its site's, and whether the system proxy is used. */
  function RouteOf(env: Env, row: Row): string {
    var cfg := Decoded(row.extraConfig);
    var proxy := if StringAt(cfg, "proxyUrl") != "" then Some(StringAt(cfg, "proxyUrl")) else row.siteProxyUrl;
    var system :=
      if "useSystemProxy" in cfg && cfg["useSystemProxy"].Bool? then Some(cfg["useSystemProxy"].b)
      else row.siteUseSystemProxy;
    env.route(proxy, system)
  }

  function ReloginOf(env: Env, row: Row): string {
    var cfg := Decoded(row.extraConfig);
    if "autoRelogin" in cfg then env.encode(cfg["autoRelogin"]) else ""
  }

  /** The fingerprint covers the credential that an exchange would submit, unless that looks malformed, or
      an access token of new-api-v1 hides another cookie than it shows. */
  lemma FingerprintCoversCredential(env: Env, a: Row, b: Row)
    requires IsManaged(a) && FingerprintOf(env, a) == FingerprintOf(env, b)
    requires !LooksMalformed(env, HashedOf(env, a))
    requires PlatformName(a) == NEW_API_V1 ==> SameCookieBehindPrefix(a.accessToken)
    ensures PlatformName(a) == PlatformName(b) && a.accessToken == b.accessToken && Submitted(a) == Submitted(b)
  {
    hide Trim, Lower, CookieValueFromHeader, FingerprintOf, StripBearerPrefix, PlatformName;
    EqualFingerprints(env, a, b);
    WellFormedIsText(env, a);
    WellFormedIsText(env, b);
    TrimEmpty();
  }

  lemma WellFormedIsText(env: Env, row: Row)
    requires !LooksMalformed(env, HashedOf(env, row))
    ensures RefreshCredential(row, Decoded(row.extraConfig)) == Credential.Text(HashedOf(env, row))
  {
    hide RefreshCredential, LooksMalformed;
    MalformedLooksSo(env, RefreshCredential(row, Decoded(row.extraConfig)));
  }

  lemma MalformedLooksSo(env: Env, credential: Credential)
    ensures credential.Invalid? ==> LooksMalformed(env, Hashed(env, credential))
  {
  }

  // ---- A credential that looks malformed ----

  /** JSON text: not empty, without white space around it. */
  ghost predicate EncodesJson(env: Env) {
    forall v :: env.encode(v) != "" && Trimmed(env.encode(v))
  }

  /** The row with this Sub2API node, or with this value as the refresh token of the node. */
  function WithNode(row: Row, node: Value): Row {
    row.(extraConfig := ConfigText.Object(Decoded(row.extraConfig)[ManagedAuth.SUB2API_AUTH := node]))
  }

  function TokenNode(v: Value): Value {
    Obj(map[ManagedAuth.REFRESH_TOKEN := v])
  }

  /** Where `v` is a malformed credential: in place of the node, unless it is one itself. */
  function MalformedNode(v: Value): Value {
    if v.Obj? then TokenNode(v) else v
  }

  lemma NodeChangesOnlyCredential(env: Env, row: Row, node: Value)
    requires PlatformName(row) == SUB2API && row.extraConfig.Object?
    requires HashedOf(env, WithNode(row, node)) == HashedOf(env, row)
    ensures FingerprintOf(env, WithNode(row, node)) == FingerprintOf(env, row)
  {
    hide Trim, Lower, CookieValueFromHeader, StripSlashes, RefreshCredential;
    var cfg, next := row.extraConfig.cfg, row.extraConfig.cfg[ManagedAuth.SUB2API_AUTH := node];
    assert forall k :: k in ["proxyUrl", "useSystemProxy", "autoRelogin"] ==> k != ManagedAuth.SUB2API_AUTH;
    assert StringAt(cfg, "proxyUrl") == StringAt(next, "proxyUrl");
  }

  /** A malformed value and the text it is hashed as give one fingerprint, and different exchanges: the
      text is submitted, the value submits nothing. */
  lemma MalformedCollides(env: Env, row: Row, v: Value)
    requires PlatformName(row) == SUB2API && EncodesJson(env) && row.extraConfig.Object?
    requires HashedOf(env, row) == INVALID + env.encode(v)
    ensures var text, malformed := WithNode(row, TokenNode(Str(INVALID + env.encode(v)))),
        WithNode(row, MalformedNode(v));
      && FingerprintOf(env, text) == FingerprintOf(env, row) == FingerprintOf(env, malformed)
      && Submitted(text) == INVALID + env.encode(v) && Submitted(malformed) == ""
  {
    hide Trim, Lower, CookieValueFromHeader, FingerprintOf, PlatformName, StripBearerPrefix;
    var c := INVALID + env.encode(v);
    var text, malformed := WithNode(row, TokenNode(Str(c))), WithNode(row, MalformedNode(v));
    assert Trimmed(c) && c[0] == 'i' by { TrimmedAppend(env.encode(v)); }
    SamePlatform(row, text);
    SamePlatform(row, malformed);
    TrimEmpty();
    NodeChangesOnlyCredential(env, row, TokenNode(Str(c)));
    NodeChangesOnlyCredential(env, row, MalformedNode(v));
  }

  lemma TrimmedAppend(s: string)
    requires s != "" && Trimmed(s)
    ensures Trimmed(INVALID + s)
  {
    var t := INVALID + s;
    assert t[0] == 'i' && t[|t| - 1] == s[|s| - 1];
  }

  /** Concretely the text "invalid:5" and the number 5. */
  lemma NumberCollides(env: Env, row: Row)
    requires PlatformName(row) == SUB2API && EncodesJson(env) && env.encode(Num(5.0)) == "5"
    requires row.extraConfig.Object? && HashedOf(env, row) == "invalid:5"
    ensures var text, number := WithNode(row, TokenNode(Str("invalid:5"))), WithNode(row, Num(5.0));
      FingerprintOf(env, text) == FingerprintOf(env, number)
      && Submitted(text) == "invalid:5" && Submitted(number) == ""
  {
    hide FingerprintOf, Submitted, PlatformName, WithNode, HashedOf, EncodesJson, TokenNode;
    assert INVALID + "5" == "invalid:5";
    MalformedCollides(env, row, Num(5.0));
  }

  /** For sub2api the fingerprint covers the credential exactly unless it looks malformed. */
  lemma Sub2IsCoveredIff(env: Env, row: Row)
    requires PlatformName(row) == SUB2API && EncodesJson(env)
    ensures (forall b :: FingerprintOf(env, b) == FingerprintOf(env, row) ==> Submitted(b) == Submitted(row))
       <==> !LooksMalformed(env, HashedOf(env, row))
  {
    hide Trim, Lower, CookieValueFromHeader, FingerprintOf, PlatformName, StripBearerPrefix, Submitted, HashedOf;
    if LooksMalformed(env, HashedOf(env, row)) {
      var v :| HashedOf(env, row) == INVALID + env.encode(v);
      NothingIsNotMalformed(env, row);
      MalformedCollides(env, row, v);
    } else {
      assert IsManaged(row);
      forall b | FingerprintOf(env, b) == FingerprintOf(env, row) ensures Submitted(b) == Submitted(row) {
        NewApiIsManaged();
        FingerprintCoversCredential(env, row, b);
      }
    }
  }

  lemma NothingIsNotMalformed(env: Env, row: Row)
    requires PlatformName(row) == SUB2API && HashedOf(env, row) != ""
    ensures row.extraConfig.Object?
  {
    hide Trim, Lower;
  }

  // ---- An access token that hides a cookie ----

  /** A row whose configuration holds nothing, and one that stores the cookie found in the token. */
  function Bare(row: Row): Row {
    row.(extraConfig := Absent)
  }

  function Storing(row: Row, cookie: string): Row {
    var node := Obj(map[ManagedAuth.REFRESH_COOKIE := Str(cookie)]);
    row.(extraConfig := ConfigText.Object(map[ManagedAuth.NEW_API_V1_AUTH := node]))
  }

  /** Storing the cookie that the fingerprint already found in the token does not change the fingerprint. */
  lemma StoringFoundCookie(env: Env, row: Row, cookie: string)
    requires PlatformName(row) == NEW_API_V1
    requires cookie == CookieText(CookieValueFromHeader(row.accessToken, NewApiV1.REFRESH_COOKIE_NAME)) && cookie != ""
    ensures FingerprintOf(env, Bare(row)) == FingerprintOf(env, Storing(row, cookie))
  {
    hide Trim, Lower, CookieValueFromHeader, StripSlashes;
    TrimOfTrim(CookieValueFromHeader(row.accessToken, NewApiV1.REFRESH_COOKIE_NAME).value);
    assert NEW_API_V1 != SUB2API;
  }

  /** For new-api-v1 the condition is exact: with any other access token there are two rows that look
      alike to the fingerprint and submit different cookies. */
  lemma TokenIsCoveredIff(env: Env, row: Row)
    requires PlatformName(row) == NEW_API_V1
    ensures Covered(env, row.accessToken)
       <==> || SameCookieBehindPrefix(row.accessToken)
            || LooksMalformed(env, CookieText(CookieValueFromHeader(row.accessToken, NewApiV1.REFRESH_COOKIE_NAME)))
  {
    hide Trim, Lower, CookieValueFromHeader, FingerprintOf, StripBearerPrefix, PlatformName;
    TrimEmpty();
    NewApiIsManaged();
    assert PlatformName(Bare(row)) == PlatformName(row) by { SamePlatform(row, Bare(row)); }
    var hashed := CookieText(CookieValueFromHeader(row.accessToken, NewApiV1.REFRESH_COOKIE_NAME));
    if SameCookieBehindPrefix(row.accessToken) {
      forall a, b | PlatformName(a) == NEW_API_V1 && a.accessToken == row.accessToken
                    && FingerprintOf(env, a) == FingerprintOf(env, b) && !LooksMalformed(env, HashedOf(env, a))
        ensures Submitted(a) == Submitted(b)
      {
        FingerprintCoversCredential(env, a, b);
      }
    } else if LooksMalformed(env, hashed) {
      forall a, b | PlatformName(a) == NEW_API_V1 && a.accessToken == row.accessToken
                    && FingerprintOf(env, a) == FingerprintOf(env, b) && !LooksMalformed(env, HashedOf(env, a))
        ensures Submitted(a) == Submitted(b)
      {
        BothStoreText(env, row, a, b);
      }
    } else {
      SamePlatform(row, Storing(row, hashed));
      StoringFoundCookie(env, row, hashed);
      TrimOfTrim(CookieValueFromHeader(row.accessToken, NewApiV1.REFRESH_COOKIE_NAME).value);
      assert HashedOf(env, Bare(row)) == hashed;
      assert Submitted(Storing(row, hashed)) == hashed;
      assert Submitted(Bare(row)) != hashed;
    }
  }

  /** If the cookie shown looks malformed, a credential that does not is stored in the configuration. */
  lemma BothStoreText(env: Env, row: Row, a: Row, b: Row)
    requires PlatformName(a) == NEW_API_V1 && a.accessToken == row.accessToken
    requires FingerprintOf(env, a) == FingerprintOf(env, b) && !LooksMalformed(env, HashedOf(env, a))
    requires LooksMalformed(env, CookieText(CookieValueFromHeader(row.accessToken, NewApiV1.REFRESH_COOKIE_NAME)))
    ensures Submitted(a) == Submitted(b)
  {
    hide Trim, Lower, CookieValueFromHeader, FingerprintOf, StripBearerPrefix, PlatformName, LooksMalformed;
    NewApiIsManaged();
    EqualFingerprints(env, a, b);
    WellFormedIsText(env, a);
    WellFormedIsText(env, b);
    TrimEmpty();
  }

  lemma SamePlatform(a: Row, b: Row)
    requires a.platform == b.platform
    ensures PlatformName(a) == PlatformName(b)
  {
  }

  lemma NewApiIsManaged()
    ensures forall row: Row :: PlatformName(row) == NEW_API_V1 ==> IsManaged(row)
    ensures NEW_API_V1 != SUB2API
  {
    hide PlatformName;
  }

  // ---- An access token that is not covered ----

  function RefreshPair(value: string): Pair {
    Pair(NewApiV1.REFRESH_COOKIE_NAME, value)
  }

  /** Two refresh cookies behind a Bearer prefix. */
  function BearerJar(first: string, second: string): string {
    BEARER + Join([RefreshPair(first), RefreshPair(second)])
  }

  lemma JoinTwo(p: Pair, q: Pair)
    requires WellFormed(p) && WellFormed(q)
    ensures Join([p, q]) == PrintPair(p) + "; " + PrintPair(q)
  {
    hide WellFormed, PrintPair, PrintPairs;
    PrintNonEmpty([p, q]);
    var parts := PrintPairs([p, q]);
    assert parts == [PrintPair(p), PrintPair(q)];
    assert parts[..1] == [PrintPair(p)];
    assert JoinStrings(parts[..1], "; ") == PrintPair(p);
  }

  /** The field with the prefix is no cookie: its name holds a space. */
  lemma BearerFieldIsNone(p: Pair)
    requires WellFormed(p)
    ensures ParseField(BEARER + PrintPair(p)) == []
    ensures ';' !in BEARER + PrintPair(p)
  {
    hide Trim, IsSetCookieAttribute, IsPadding, IsSpace, PrintPair;
    PrintedPairShape(p);
    var field := BEARER + PrintPair(p);
    BearerText();
    var n := |BEARER| + |p.name|;
    assert field[|field| - 1] == PrintPair(p)[|PrintPair(p)| - 1];
    assert Trimmed(field);
    IndexOfIs(field, '=', n);
    var name := field[..n];
    assert name == BEARER + p.name;
    assert name[|name| - 1] == p.name[|p.name| - 1];
    assert Trimmed(name) && name[6] == ' ';
    assert !IsNameChar(name[6]);
  }

  lemma BearerText()
    ensures |BEARER| == 7 && BEARER[6] == ' ' && !IsSpace(BEARER[0])
    ensures forall c :: c in BEARER ==> c !in {'=', ';', '\n', '\r', ':'}
  {
  }

  lemma BearerJarShape(first: string, second: string)
    requires WellFormed(RefreshPair(first)) && WellFormed(RefreshPair(second))
    ensures var token := BearerJar(first, second);
      && Trimmed(token) && '\n' !in token && '\r' !in token && BEARER <= token
      && StripBearerPrefix(token) == Join([RefreshPair(first), RefreshPair(second)])
  {
    hide Trim, IsSpace, WellFormed, Join, Parse, ParseFields, Split;
    var header, token := Join([RefreshPair(first), RefreshPair(second)]), BearerJar(first, second);
    assert AllWellFormed([RefreshPair(first), RefreshPair(second)]);
    JoinShape([RefreshPair(first), RefreshPair(second)]);
    BearerText();
    assert token[0] == BEARER[0] && token[|token| - 1] == header[|header| - 1];
    assert token[..|BEARER|] == BEARER && token[|BEARER|..] == header;
  }

  /** With the prefix in front, the parser finds only the second cookie. */
  lemma ParseBearerJar(first: string, second: string)
    requires WellFormed(RefreshPair(first)) && WellFormed(RefreshPair(second))
    ensures Parse(BearerJar(first, second)) == [RefreshPair(second)]
  {
    hide Trim, IsSpace, WellFormed, ParseField, ParseFields, Split, IndexOf, Join, PrintPair,
      StripBearerPrefix, BearerJar,
      HasLabel, RefreshPair;
    var p, q, token := RefreshPair(first), RefreshPair(second), BearerJar(first, second);
    BearerJarShape(first, second);
    NoBearerLabel(token, "cookie:");
    NoBearerLabel(token, "set-cookie:");
    SplitNone(token, '\n');
    OneLine(token);
    BearerJarFields(first, second);
    BearerFieldIsNone(p);
    TwoFields(BEARER + PrintPair(p), " " + PrintPair(q));
    ParsePrintedPair(q);
  }

  lemma BearerJarFields(first: string, second: string)
    requires WellFormed(RefreshPair(first)) && WellFormed(RefreshPair(second))
    ensures Split(BearerJar(first, second), ';')
         == [BEARER + PrintPair(RefreshPair(first))] + [" " + PrintPair(RefreshPair(second))]
  {
    hide Trim, WellFormed, Split, Join, PrintPair, RefreshPair;
    var p, q := RefreshPair(first), RefreshPair(second);
    JoinTwo(p, q);
    BearerFieldIsNone(p);
    PrintedPairShape(q);
    var head := BEARER + PrintPair(p);
    assert BearerJar(first, second) == head + [';'] + (" " + PrintPair(q));
    SplitAppend(head, " " + PrintPair(q), ';');
    SplitNone(head, ';');
  }

  lemma NoBearerLabel(token: string, prefix: string)
    requires BEARER <= token && prefix in {"cookie:", "set-cookie:"}
    ensures !HasLabel(token, prefix)
  {
    assert |prefix| <= |token| ==> AsciiLower(token[..|prefix|])[0] == AsciiLowerChar(BEARER[0]) == 'b';
  }

  lemma TwoFields(a: string, b: string)
    ensures ParseFields([a] + [b]) == ParseField(a) + ParseField(b)
  {
    hide ParseField;
    assert ([a] + [b])[..1] == [a];
    OneField(a);
  }

  /** The fingerprint finds the second cookie of such a token, the exchange the first. */
  lemma BearerJarLookups(first: string, second: string)
    requires WellFormed(RefreshPair(first)) && WellFormed(RefreshPair(second))
    ensures var token := BearerJar(first, second);
      && CookieValueFromHeader(token, NewApiV1.REFRESH_COOKIE_NAME) == Found(second)
      && CookieValueFromHeader(StripBearerPrefix(token), NewApiV1.REFRESH_COOKIE_NAME) == Found(first)
  {
    hide Trim, Parse, Join, BearerJar, StripBearerPrefix, WellFormed;
    ParseBearerJar(first, second);
    BearerJarShape(first, second);
    assert AllWellFormed([RefreshPair(first), RefreshPair(second)]);
    ParseJoin([RefreshPair(first), RefreshPair(second)]);
    RefreshName();
  }

  lemma RefreshName()
    ensures Trim(NewApiV1.REFRESH_COOKIE_NAME) == NewApiV1.REFRESH_COOKIE_NAME != ""
  {
    hide Trim;
    assert Trimmed(NewApiV1.REFRESH_COOKIE_NAME);
  }

  /** So with any two different cookies the token is not covered. */
  lemma BearerJarIsNotCovered(first: string, second: string)
    requires WellFormed(RefreshPair(first)) && WellFormed(RefreshPair(second)) && first != second
    ensures !SameCookieBehindPrefix(BearerJar(first, second))
  {
    hide Trim, CookieValueFromHeader, BearerJar, StripBearerPrefix, IsLikelyCookieName, IsSetCookieAttribute;
    BearerJarLookups(first, second);
  }

  lemma LettersAreWellFormed()
    ensures WellFormed(RefreshPair("A")) && WellFormed(RefreshPair("B"))
  {
    hide Trim;
    var name := NewApiV1.REFRESH_COOKIE_NAME;
    RefreshName();
    assert Trimmed(name) && AllNameChars(name);
    assert AsciiLower(name)[3] == '_';
  }

  lemma JarOfLetters()
    ensures BearerJar("A", "B") == "Bearer new_api_refresh=A; new_api_refresh=B"
  {
    hide *;
    LettersAreWellFormed();
    JoinTwo(RefreshPair("A"), RefreshPair("B"));
    PrintedLetters();
    JarText();
    UnfoldJar("A", "B");
  }

  lemma UnfoldJar(first: string, second: string)
    ensures BearerJar(first, second) == "Bearer " + Join([RefreshPair(first), RefreshPair(second)])
  {
    hide Join, RefreshPair;
  }

  lemma PrintedLetters()
    ensures PrintPair(RefreshPair("A")) == "new_api_refresh=A" && PrintPair(RefreshPair("B")) == "new_api_refresh=B"
  {
    hide Trim;
    RefreshName();
    assert "new_api_refresh" + "=" + "A" == "new_api_refresh=A";
    assert "new_api_refresh" + "=" + "B" == "new_api_refresh=B";
  }

  lemma JarText()
    ensures "Bearer " + ("new_api_refresh=A" + "; " + "new_api_refresh=B")
         == "Bearer new_api_refresh=A; new_api_refresh=B"
  {
  }

  /** Concretely "Bearer new_api_refresh=A; new_api_refresh=B": a row that stores nothing and one that
      stores B look alike to the fingerprint, and submit A and B. */
  lemma UncoveredToken(env: Env, row: Row)
    requires PlatformName(row) == NEW_API_V1 && row.accessToken == "Bearer new_api_refresh=A; new_api_refresh=B"
    ensures FingerprintOf(env, Bare(row)) == FingerprintOf(env, Storing(row, "B"))
    ensures Submitted(Bare(row)) == "A" && Submitted(Storing(row, "B")) == "B"
  {
    hide Trim, CookieValueFromHeader, BearerJar, StripBearerPrefix, FingerprintOf, PlatformName, WellFormed;
    LettersAreWellFormed();
    JarOfLetters();
    BearerJarLookups("A", "B");
    assert Trim("A") == "A" && Trim("B") == "B" by { LettersTrimmed(); }
    StoringFoundCookie(env, row, "B");
    SamePlatform(row, Bare(row));
    SamePlatform(row, Storing(row, "B"));
    NewApiIsManaged();
    TrimEmpty();
  }

  lemma LettersTrimmed()
    ensures Trimmed("A") && Trimmed("B")
  {
  }

  /** A credential stored in place of another one - by a login, a rebind or an edit - is not held back by
      what happened to the old one, a dead mark included. */
  lemma NewCredentialStartsClean(env: Env, rec: Record, was: Row, next: Row, instant: int)
    requires IsManaged(was) && rec.credential == Some(FingerprintOf(env, was))
    requires !LooksMalformed(env, HashedOf(env, was))
    requires PlatformName(was) == NEW_API_V1 ==> SameCookieBehindPrefix(was.accessToken)
    requires next.accessToken != was.accessToken || Submitted(next) != Submitted(was)
    ensures var synced := Sync(rec, FingerprintOf(env, next));
      RetryDelay(synced, instant) == 0 && !synced.dead && synced.failures == 0
  {
    hide FingerprintOf, Submitted, IsManaged, PlatformName, SameCookieBehindPrefix, LooksMalformed, HashedOf;
    if FingerprintOf(env, next) == FingerprintOf(env, was) {
      FingerprintCoversCredential(env, was, next);
    }
  }
}
