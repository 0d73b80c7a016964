/** Which writes to an account leave its credential fingerprint alone
    (service/managed_session.go:419-459). */
module Fingerprints {
  import opened Text
  import opened Json
  import Cookie
  import opened ManagedAuth
  import opened ManagedSession
  import ExtraConfig

  /** The configuration keys the fingerprint looks at. */
  const FINGERPRINTED := {SUB2API_AUTH, NEW_API_V1_AUTH, "proxyUrl", "useSystemProxy", "autoRelogin"}

  /** Text that does not decode is itself part of the fingerprint. */
  predicate HashedAsText(config: ConfigText) {
    config.Malformed? && config.text != ""
  }

  /** Two configurations that decode alike where it matters. */
  ghost predicate SameSession(a: Object, b: Object) {
    && (forall k :: k in FINGERPRINTED - {SUB2API_AUTH, NEW_API_V1_AUTH} ==>
          (k in a <==> k in b) && (k in a ==> a[k] == b[k]))
    && CredentialIn(a, SUB2API_AUTH, REFRESH_TOKEN) == CredentialIn(b, SUB2API_AUTH, REFRESH_TOKEN)
    && CredentialIn(a, NEW_API_V1_AUTH, REFRESH_COOKIE) == CredentialIn(b, NEW_API_V1_AUTH, REFRESH_COOKIE)
  }

  /** Rewriting the configuration keeps the fingerprint exactly when its undecodable text was no part of it. */
  lemma RewriteKeepsFingerprintIff(env: Env, row: Row, cfg: Object)
    requires SameSession(Decoded(row.extraConfig), cfg)
    ensures FingerprintOf(env, row.(extraConfig := ConfigText.Object(cfg))) == FingerprintOf(env, row)
       <==> !HashedAsText(row.extraConfig)
  {
    hide Trim, CredentialIn, Cookie.CookieValueFromHeader, StripSlashes, Lower;
    var was := Decoded(row.extraConfig);
    var row' := row.(extraConfig := ConfigText.Object(cfg));
    assert forall k :: k in ["proxyUrl", "useSystemProxy", "autoRelogin"] ==> k in FINGERPRINTED;
    assert StringAt(was, "proxyUrl") == StringAt(cfg, "proxyUrl");
    assert UseSystemProxy(row, was) == UseSystemProxy(row', cfg);
    assert OptionProxy(row, was) == OptionProxy(row', cfg);
    assert RefreshCredential(row, was) == RefreshCredential(row', cfg);
  }

  /** Writes and deletions of other keys - runtimeHealth, archivedBySite, archivedPrevStatus - whenever
      they go through at all. */
  lemma KeyedWriteKeepsFingerprintIff(env: Env, row: Row, values: Object, unset: set<string>)
    requires values.Keys !! FINGERPRINTED && unset !! FINGERPRINTED
    requires ExtraConfig.Merged(row.extraConfig, values, unset).Some?
    ensures FingerprintOf(env, row.(extraConfig := ExtraConfig.Merged(row.extraConfig, values, unset).value))
         == FingerprintOf(env, row)
       <==> !HashedAsText(row.extraConfig)
  {
    hide FingerprintOf;
    if row.extraConfig.NullLiteral? {
      assert row.(extraConfig := NullLiteral) == row;
    } else {
      var cfg := (Decoded(row.extraConfig) - unset) + values;
      assert forall k :: k in FINGERPRINTED ==> k !in values && k !in unset;
      RewriteKeepsFingerprintIff(env, row, cfg);
    }
  }

  lemma DropKeepsCredentials(cfg: Object, key: string)
    requires key == SUB2API_AUTH || key == NEW_API_V1_AUTH
    ensures SameSession(cfg, DropLegacy(cfg, key))
  {
    hide Trim;
    var node := NodeAt(cfg, key);
    if node.Some? {
      forall f { FieldsAfterDrop(node.value, f); }
    }
  }

  /** Dropping both legacy expiries, next to any write of the canonical node. */
  lemma LegacyDropKeepsSession(cfg: Object, written: Object)
    requires SameSession(cfg, written)
    ensures SameSession(cfg, DropLegacyExpiry(written))
  {
    hide DropLegacy, CredentialIn;
    var mid := DropLegacy(written, SUB2API_AUTH);
    DropKeepsCredentials(written, SUB2API_AUTH);
    DropKeepsCredentials(mid, NEW_API_V1_AUTH);
  }

  /** Writing or clearing the expiry. */
  lemma ExpiryKeepsFingerprintIff(env: Env, row: Row, expiresAt: int)
    ensures FingerprintOf(env, row.(extraConfig := ConfigText.Object(WithExpiry(Decoded(row.extraConfig), expiresAt))))
         == FingerprintOf(env, row)
       <==> !HashedAsText(row.extraConfig)
    ensures FingerprintOf(env, row.(extraConfig := ConfigText.Object(WithoutExpiry(Decoded(row.extraConfig)))))
         == FingerprintOf(env, row)
       <==> !HashedAsText(row.extraConfig)
  {
    hide FingerprintOf, DropLegacyExpiry, Trim;
    var cfg := Decoded(row.extraConfig);
    var node := NodeAt(cfg, MANAGED_AUTH);
    var fields := if node.Some? then node.value else map[];
    var written := cfg[MANAGED_AUTH := Obj(fields[TOKEN_EXPIRES_AT := Num(expiresAt as real)])];
    LegacyDropKeepsSession(cfg, written);
    RewriteKeepsFingerprintIff(env, row, WithExpiry(cfg, expiresAt));
    var cleared := if node.None? then cfg
      else if node.value - {TOKEN_EXPIRES_AT} == map[] then cfg - {MANAGED_AUTH}
      else cfg[MANAGED_AUTH := Obj(node.value - {TOKEN_EXPIRES_AT})];
    LegacyDropKeepsSession(cfg, cleared);
    RewriteKeepsFingerprintIff(env, row, WithoutExpiry(cfg));
  }
}
