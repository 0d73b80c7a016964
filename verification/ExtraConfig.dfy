/** The read-merge-write of single keys of an extra_config column (db/archive.go,
    service/account_health.go). */
module ExtraConfig {
  import opened Json

  /** The column after deleting the keys `unset` and writing the keys of `set`. None: the write panics,
      because decoding the literal null leaves a nil map. Undecodable text is replaced as if empty. */
  function Merged(config: ConfigText, values: Object, unset: set<string>): Option<ConfigText> {
    if !config.NullLiteral? then Some(ConfigText.Object((Decoded(config) - unset) + values))
    else if values == map[] then Some(NullLiteral)
    else None
  }

  function Elements(keys: seq<string>): set<string> {
    set k | k in keys
  }

  /** mergeExtraConfigKeyed on the decoded map, key by key. `nil` says the map is nil. */
  method MergeKeyed(config: ConfigText, keys: seq<string>, values: Object, unset: seq<string>)
    returns (merged: Option<ConfigText>)
    requires Elements(keys) == values.Keys
    ensures merged == Merged(config, values, Elements(unset))
  {
    var cfg := Decoded(config);
    var nil := config.NullLiteral?;
    for i := 0 to |unset|
      invariant cfg == Decoded(config) - Elements(unset[..i])
    {
      cfg := cfg - {unset[i]};
      assert Elements(unset[..i + 1]) == Elements(unset[..i]) + {unset[i]};
    }
    assert unset[..|unset|] == unset;
    ghost var deleted := cfg;
    for i := 0 to |keys|
      invariant nil ==> i == 0
      invariant forall k :: k in cfg <==> k in deleted || k in keys[..i]
      invariant forall k :: k in cfg ==> cfg[k] == if k in keys[..i] then values[k] else deleted[k]
    {
      assert keys[i] in Elements(keys);
      if nil {
        assert keys[i] in values;
        return None;
      }
      cfg := cfg[keys[i] := values[keys[i]]];
      assert keys[..i + 1] == keys[..i] + [keys[i]];
    }
    assert keys[..|keys|] == keys;
    assert cfg == deleted + values by {
      assert forall k :: k in values <==> k in Elements(keys);
    }
    if nil {
      assert values == map[] by {
        assert keys == [];
      }
      return Some(NullLiteral);
    }
    merged := Some(ConfigText.Object(cfg));
  }
}
