/** The expiry of a managed session inside extra_config (platform/managed_auth.go and the reader in
    service/managed_session.go): one canonical node, two legacy ones. */
module ManagedAuth {
  import opened Text
  import opened Json

  const MANAGED_AUTH := "managedAuth"
  const SUB2API_AUTH := "sub2apiAuth"
  const NEW_API_V1_AUTH := "newApiV1Auth"
  const TOKEN_EXPIRES_AT := "tokenExpiresAt"
  const REFRESH_TOKEN := "refreshToken"
  const REFRESH_COOKIE := "refreshCookie"

  /** What an adapter's RefreshAuth reports, messages aside. `retryAfter` is in nanoseconds. */
  datatype RefreshResult =
    RefreshResult(success: bool, accessToken: string, extraConfig: ConfigText, retryAfter: int, dead: bool)

  // ---- Seconds or milliseconds ----

  const FIRST_MILLIS := 1_000_000_000_000

  function NormalizeEpochMillis(value: int): int {
    if 0 < value < FIRST_MILLIS then value * 1000 else value
  }

  /** Normalizing twice changes nothing exactly outside 1..10^9-1. */
  lemma NormalizeIdempotentIff(value: int)
    ensures NormalizeEpochMillis(NormalizeEpochMillis(value)) == NormalizeEpochMillis(value)
      <==> !(1 <= value <= 999_999_999)
  {
  }

  // ---- Edits, as functions of the configuration ----

  /** Drop one legacy copy, and its node when nothing else is left in it. */
  function DropLegacy(cfg: Object, key: string): Object {
    var node := NodeAt(cfg, key);
    if node.None? || TOKEN_EXPIRES_AT !in node.value then cfg
    else
      var rest := node.value - {TOKEN_EXPIRES_AT};
      if rest == map[] then cfg - {key} else cfg[key := Obj(rest)]
  }

  function DropLegacyExpiry(cfg: Object): Object {
    DropLegacy(DropLegacy(cfg, SUB2API_AUTH), NEW_API_V1_AUTH)
  }

  function WithExpiry(cfg: Object, expiresAtMillis: int): Object {
    if expiresAtMillis <= 0 then cfg
    else
      var node := NodeAt(cfg, MANAGED_AUTH);
      var fields := if node.Some? then node.value else map[];
      DropLegacyExpiry(cfg[MANAGED_AUTH := Obj(fields[TOKEN_EXPIRES_AT := Num(expiresAtMillis as real)])])
  }

  function WithoutExpiry(cfg: Object): Object {
    var node := NodeAt(cfg, MANAGED_AUTH);
    DropLegacyExpiry(
      if node.None? then cfg
      else
        var rest := node.value - {TOKEN_EXPIRES_AT};
        if rest == map[] then cfg - {MANAGED_AUTH} else cfg[MANAGED_AUTH := Obj(rest)])
  }

  // ---- The same edits in place ----

  class Config {
    var fields: Object

    constructor (fields: Object)
      ensures this.fields == fields
    {
      this.fields := fields;
    }

    method DropLegacyExpiryNodes()
      modifies this
      ensures fields == DropLegacyExpiry(old(fields))
    {
      var keys := [SUB2API_AUTH, NEW_API_V1_AUTH];
      for i := 0 to 2
        invariant i == 0 ==> fields == old(fields)
        invariant i == 1 ==> fields == DropLegacy(old(fields), SUB2API_AUTH)
        invariant i == 2 ==> fields == DropLegacyExpiry(old(fields))
      {
        var key := keys[i];
        var node := NodeAt(fields, key);
        if node.None? || TOKEN_EXPIRES_AT !in node.value {
          continue;
        }
        var rest := node.value - {TOKEN_EXPIRES_AT};
        if rest == map[] {
          fields := fields - {key};
        } else {
          fields := fields[key := Obj(rest)];
        }
      }
    }

    method SetManagedTokenExpiresAt(expiresAtMillis: int)
      modifies this
      ensures fields == WithExpiry(old(fields), expiresAtMillis)
    {
      if expiresAtMillis <= 0 {
        return;
      }
      var node := NodeAt(fields, MANAGED_AUTH);
      var inner := if node.Some? then node.value else map[];
      inner := inner[TOKEN_EXPIRES_AT := Num(expiresAtMillis as real)];
      fields := fields[MANAGED_AUTH := Obj(inner)];
      DropLegacyExpiryNodes();
    }

    method ClearManagedTokenExpiresAt()
      modifies this
      ensures fields == WithoutExpiry(old(fields))
    {
      var node := NodeAt(fields, MANAGED_AUTH);
      if node.Some? {
        var rest := node.value - {TOKEN_EXPIRES_AT};
        if rest == map[] {
          fields := fields - {MANAGED_AUTH};
        } else {
          fields := fields[MANAGED_AUTH := Obj(rest)];
        }
      }
      DropLegacyExpiryNodes();
    }
  }

  // ---- The reader ----

  predicate IsDigit(c: char) {
    '0' <= c <= '9'
  }

  function ParseDigits(s: string): nat
    requires forall i :: 0 <= i < |s| ==> IsDigit(s[i])
  {
    if s == "" then 0
    else
      assert IsDigit(s[|s| - 1]);
      10 * ParseDigits(s[..|s| - 1]) + ((s[|s| - 1] as int) - ('0' as int))
  }

  const INT64_LIMIT := 0x8000_0000_0000_0000

  /** strconv.ParseInt in base 10 for 64 bits. */
  function ParseInt(text: string): Option<int> {
    var negative := text != "" && text[0] == '-';
    var body := if text != "" && text[0] in {'+', '-'} then text[1..] else text;
    if body == "" || exists i :: 0 <= i < |body| && !IsDigit(body[i]) then None
    else
      var n: int := ParseDigits(body);
      if negative then (if n <= INT64_LIMIT then Some(-n) else None)
      else (if n < INT64_LIMIT then Some(n) else None)
  }

  /** Conversion of a float64 to an integer: toward zero. */
  function Truncate(n: real): int {
    if n >= 0.0 then n.Floor else -((-n).Floor)
  }

  function ParseTokenExpiresAt(raw: Value): (millis: int)
    ensures millis >= 0
  {
    match raw
    case Num(n) => if n <= 0.0 then 0 else NormalizeEpochMillis(Truncate(n))
    case Str(s) =>
      var parsed := ParseInt(Trim(s));
      if parsed.Some? && parsed.value > 0 then NormalizeEpochMillis(parsed.value) else 0
    case _ => 0
  }

  function ExpiryIn(cfg: Object, key: string): (millis: int)
    ensures millis >= 0
  {
    var node := NodeAt(cfg, key);
    if node.Some? && TOKEN_EXPIRES_AT in node.value
    then ParseTokenExpiresAt(node.value[TOKEN_EXPIRES_AT]) else 0
  }

  /** getManagedTokenExpiresAt: the first positive expiry, canonical node first. */
  function ReadExpiry(cfg: Object): int {
    if ExpiryIn(cfg, MANAGED_AUTH) > 0 then ExpiryIn(cfg, MANAGED_AUTH)
    else if ExpiryIn(cfg, SUB2API_AUTH) > 0 then ExpiryIn(cfg, SUB2API_AUTH)
    else ExpiryIn(cfg, NEW_API_V1_AUTH)
  }

  // ---- Claims of a token ----

  /** A numeric or textual claim of a decoded token payload, in milliseconds; 0 if there is none. */
  function ClaimMillis(payload: Object, name: string): (millis: int)
    ensures millis >= 0
  {
    if name in payload then ParseTokenExpiresAt(payload[name]) else 0
  }

  /** How long the token was issued for, 0 if a claim is missing or makes no sense. */
  function JwtLifetimeMillis(payload: Object): (millis: int)
    ensures millis >= 0
  {
    var exp, iat := ClaimMillis(payload, "exp"), ClaimMillis(payload, "iat");
    if exp <= 0 || iat <= 0 || exp <= iat then 0 else exp - iat
  }

  /** The decimal notation of a number. */
  function Decimal(n: nat): (s: string)
    ensures s != "" && forall i :: 0 <= i < |s| ==> IsDigit(s[i])
  {
    var digit := [((n % 10) as char) + '0'];
    if n < 10 then digit else Decimal(n / 10) + digit
  }

  lemma {:induction false} ParseDecimal(n: nat)
    ensures ParseDigits(Decimal(n)) == n
  {
    var s := Decimal(n);
    if n >= 10 {
      ParseDecimal(n / 10);
      assert s[..|s| - 1] == Decimal(n / 10);
    } else {
      assert s[..|s| - 1] == "";
    }
  }

  /** Reading a number back from its notation. */
  lemma ParseIntOfDecimal(n: nat)
    requires n < INT64_LIMIT
    ensures ParseInt(Trim(Decimal(n))) == Some(n)
  {
    hide Decimal, Trim;
    var s := Decimal(n);
    ParseDecimal(n);
    assert IsDigit(s[0]) && IsDigit(s[|s| - 1]);
    assert Trimmed(s);
  }

  /** With either sign in front, and nothing else. */
  lemma ParseIntOfSigned(n: nat)
    requires n < INT64_LIMIT
    ensures ParseInt("-" + Decimal(n)) == Some(0 - (n as int)) && ParseInt("+" + Decimal(n)) == Some(n)
  {
    hide Decimal;
    ParseDecimal(n);
    assert ("-" + Decimal(n))[1..] == Decimal(n) && ("+" + Decimal(n))[1..] == Decimal(n);
  }

  /** The integer next to a number on the side of zero. */
  lemma TruncatesTowardZero(n: real)
    ensures n >= 0.0 ==> 0.0 <= Truncate(n) as real <= n < Truncate(n) as real + 1.0
    ensures n <= 0.0 ==> Truncate(n) as real - 1.0 < n <= Truncate(n) as real <= 0.0
  {
  }

  /** A JSON number or text that stands for the instant `millis`: in whole seconds, as a NumericDate is
      (sections 4.1.4 and 4.1.6 of RFC 7519), or in milliseconds; a fraction of a number is dropped. */
  predicate Denotes(v: Value, millis: int) {
    exists n: nat | n in {millis / 1000, millis} ::
      && ((v.Num? && v.n > 0.0 && v.n.Floor == n) || (v == Str(Decimal(n)) && n < INT64_LIMIT))
      && (if n < FIRST_MILLIS then millis == 1000 * n && n > 0 else millis == n)
  }

  lemma DenotedIsRead(v: Value, millis: int)
    requires Denotes(v, millis)
    ensures ParseTokenExpiresAt(v) == millis > 0
  {
    hide Decimal, ParseInt, Trim;
    var n: nat :| n in {millis / 1000, millis}
      && ((v.Num? && v.n > 0.0 && v.n.Floor == n) || (v == Str(Decimal(n)) && n < INT64_LIMIT))
      && (if n < FIRST_MILLIS then millis == 1000 * n && n > 0 else millis == n);
    if v.Str? {
      ParseIntOfDecimal(n);
    }
  }

  /** Whatever notation the two claims of a payload use, the lifetime is the time between them, or 0 if
      the token expires no later than it was issued. */
  lemma LifetimeIsDifference(payload: Object, exp: int, iat: int)
    requires "exp" in payload && "iat" in payload
    requires Denotes(payload["exp"], exp) && Denotes(payload["iat"], iat)
    ensures JwtLifetimeMillis(payload) == if iat < exp then exp - iat else 0
  {
    hide Denotes, ParseTokenExpiresAt;
    DenotedIsRead(payload["exp"], exp);
    DenotedIsRead(payload["iat"], iat);
  }

  /** The canonical node counts before the legacy ones, in this order. */
  lemma CanonicalFirst(cfg: Object, millis: int)
    ensures var canonical := FieldAt(cfg, "managedAuth", "tokenExpiresAt");
      var sub2, newApi := FieldAt(cfg, "sub2apiAuth", "tokenExpiresAt"), FieldAt(cfg, "newApiV1Auth", "tokenExpiresAt");
      && (canonical.Some? && Denotes(canonical.value, millis) ==> ReadExpiry(cfg) == millis)
      && (canonical.None? && sub2.Some? && Denotes(sub2.value, millis) ==> ReadExpiry(cfg) == millis)
      && (canonical.None? && sub2.None? && newApi.Some? && Denotes(newApi.value, millis) ==> ReadExpiry(cfg) == millis)
      && (canonical.None? && sub2.None? && newApi.None? ==> ReadExpiry(cfg) == 0)
  {
    hide Denotes, ParseTokenExpiresAt;
    var fields := [FieldAt(cfg, "managedAuth", "tokenExpiresAt"), FieldAt(cfg, "sub2apiAuth", "tokenExpiresAt"),
                   FieldAt(cfg, "newApiV1Auth", "tokenExpiresAt")];
    forall i | 0 <= i < 3 && fields[i].Some? && Denotes(fields[i].value, millis)
      ensures ParseTokenExpiresAt(fields[i].value) == millis > 0
    {
      DenotedIsRead(fields[i].value, millis);
    }
    assert fields[0] == FieldAt(cfg, "managedAuth", "tokenExpiresAt");
    assert fields[1] == FieldAt(cfg, "sub2apiAuth", "tokenExpiresAt");
    assert fields[2] == FieldAt(cfg, "newApiV1Auth", "tokenExpiresAt");
  }

  // ---- One source of truth ----

  /** The value at `path` = (node, field), or at a top-level key that is no node. */
  function FieldAt(cfg: Object, key: string, field: string): Option<Value> {
    var node := NodeAt(cfg, key);
    if node.Some? && field in node.value then Some(node.value[field]) else None
  }

  predicate IsExpiryNode(key: string) {
    key in {MANAGED_AUTH, SUB2API_AUTH, NEW_API_V1_AUTH}
  }

  /** Nothing but expiry fields differs: every other top-level key is kept, and so is every other
      field of the three session nodes. */
  ghost predicate SameButExpiry(a: Object, b: Object) {
    && (forall k :: !IsExpiryNode(k) ==> (k in a <==> k in b) && (k in a ==> a[k] == b[k]))
    && (forall k, f :: IsExpiryNode(k) && f != TOKEN_EXPIRES_AT ==> FieldAt(a, k, f) == FieldAt(b, k, f))
  }

  lemma FieldsAfterDrop(fields: Object, f: string)
    ensures f in fields - {TOKEN_EXPIRES_AT} <==> f in fields && f != TOKEN_EXPIRES_AT
    ensures fields - {TOKEN_EXPIRES_AT} == map[] && f in fields ==> f == TOKEN_EXPIRES_AT
  {
    if f in fields && f != TOKEN_EXPIRES_AT {
      assert f in fields - {TOKEN_EXPIRES_AT};
    }
  }

  lemma DropLegacyEffect(cfg: Object, key: string)
    requires key == SUB2API_AUTH || key == NEW_API_V1_AUTH
    ensures SameButExpiry(cfg, DropLegacy(cfg, key))
    ensures FieldAt(DropLegacy(cfg, key), key, TOKEN_EXPIRES_AT) == None
    ensures forall k :: k != key ==> NodeAt(DropLegacy(cfg, key), k) == NodeAt(cfg, k)
  {
    var node := NodeAt(cfg, key);
    if node.Some? {
      forall f { FieldsAfterDrop(node.value, f); }
    }
  }

  lemma SameButExpiryTransitive(a: Object, b: Object, c: Object)
    requires SameButExpiry(a, b) && SameButExpiry(b, c)
    ensures SameButExpiry(a, c)
  {
  }

  /** Dropping both legacy copies leaves the canonical node alone. */
  lemma DropBothEffect(cfg: Object)
    ensures SameButExpiry(cfg, DropLegacyExpiry(cfg))
    ensures FieldAt(DropLegacyExpiry(cfg), SUB2API_AUTH, TOKEN_EXPIRES_AT) == None
    ensures FieldAt(DropLegacyExpiry(cfg), NEW_API_V1_AUTH, TOKEN_EXPIRES_AT) == None
    ensures NodeAt(DropLegacyExpiry(cfg), MANAGED_AUTH) == NodeAt(cfg, MANAGED_AUTH)
  {
    hide SameButExpiry, DropLegacy;
    var mid := DropLegacy(cfg, SUB2API_AUTH);
    DropLegacyEffect(cfg, SUB2API_AUTH);
    DropLegacyEffect(mid, NEW_API_V1_AUTH);
    SameButExpiryTransitive(cfg, mid, DropLegacyExpiry(cfg));
  }

  /** After a write of e > 0 the reader returns e normalized - so e itself exactly from 10^12 on -
      no legacy node holds a copy, and every other field survives. */
  lemma SetThenRead(cfg: Object, e: int)
    requires e > 0
    ensures ReadExpiry(WithExpiry(cfg, e)) == NormalizeEpochMillis(e)
    ensures ReadExpiry(WithExpiry(cfg, e)) == e <==> e >= FIRST_MILLIS
    ensures FieldAt(WithExpiry(cfg, e), SUB2API_AUTH, TOKEN_EXPIRES_AT) == None
    ensures FieldAt(WithExpiry(cfg, e), NEW_API_V1_AUTH, TOKEN_EXPIRES_AT) == None
    ensures SameButExpiry(cfg, WithExpiry(cfg, e))
  {
    hide DropLegacyExpiry;
    var node := NodeAt(cfg, MANAGED_AUTH);
    var fields := if node.Some? then node.value else map[];
    var mid := cfg[MANAGED_AUTH := Obj(fields[TOKEN_EXPIRES_AT := Num(e as real)])];
    assert SameButExpiry(cfg, mid);
    DropBothEffect(mid);
    SameButExpiryTransitive(cfg, mid, WithExpiry(cfg, e));
  }

  /** Writing any expiry keeps every field that is no expiry. */
  lemma ExpiryWriteKeepsFields(cfg: Object, e: int)
    ensures SameButExpiry(cfg, WithExpiry(cfg, e))
  {
    hide DropLegacyExpiry;
    if e > 0 {
      SetThenRead(cfg, e);
    }
  }

  /** After a clear the reader returns 0, whatever the configuration looked like. */
  lemma ClearThenRead(cfg: Object)
    ensures ReadExpiry(WithoutExpiry(cfg)) == 0
    ensures SameButExpiry(cfg, WithoutExpiry(cfg))
  {
    hide DropLegacyExpiry;
    var node := NodeAt(cfg, MANAGED_AUTH);
    var mid := if node.None? then cfg
      else if node.value - {TOKEN_EXPIRES_AT} == map[] then cfg - {MANAGED_AUTH}
      else cfg[MANAGED_AUTH := Obj(node.value - {TOKEN_EXPIRES_AT})];
    if node.Some? {
      forall f { FieldsAfterDrop(node.value, f); }
    }
    assert SameButExpiry(cfg, mid);
    DropBothEffect(mid);
    SameButExpiryTransitive(cfg, mid, WithoutExpiry(cfg));
  }
}
