/** The cache of resolved user ids (platform/newapi.go:30-107, 153-168): entries live for an hour, and a
    background cleanup removes dead ones. */
module UserIdCache {
  import opened Json
  import RefreshTiming

  const TTL := RefreshTiming.HOUR

  datatype Entry = Entry(userId: int, expiresAt: int)

  type Entries = map<string, Entry>

  // ---- The operations ----

  /** An entry is dead strictly after its expiry. */
  function Answer(entries: Entries, key: string, now: int): Option<int> {
    if key in entries && now <= entries[key].expiresAt then Some(entries[key].userId) else None
  }

  function LookedUp(entries: Entries, key: string, now: int): Entries {
    if key in entries && now > entries[key].expiresAt then entries - {key} else entries
  }

  function Stored(entries: Entries, key: string, userId: int, now: int): Entries {
    if userId <= 0 then entries else entries[key := Entry(userId, now + TTL)]
  }

  function Cleaned(entries: Entries, now: int): Entries {
    map k | k in entries && now <= entries[k].expiresAt :: entries[k]
  }

  class ResolvedUserIdCache {
    var entries: Entries

    constructor ()
      ensures entries == map[]
    {
      entries := map[];
    }

    method Lookup(key: string, now: int) returns (answer: Option<int>)
      modifies this
      ensures entries == LookedUp(old(entries), key, now) && answer == Answer(old(entries), key, now)
    {
      if key !in entries {
        return None;
      }
      if now > entries[key].expiresAt {
        entries := entries - {key};
        return None;
      }
      answer := Some(entries[key].userId);
    }

    method Store(key: string, userId: int, now: int)
      modifies this
      ensures entries == Stored(old(entries), key, userId, now)
    {
      if userId <= 0 {
        return;
      }
      entries := entries[key := Entry(userId, now + TTL)];
    }

    /** One tick of the cleanup: it goes over the keys in any order. */
    method Cleanup(now: int)
      modifies this
      ensures entries == Cleaned(old(entries), now)
    {
      var keys := entries.Keys;
      var all := entries;
      while keys != {}
        invariant keys <= all.Keys
        invariant entries == map k | k in all && (k in keys || now <= all[k].expiresAt) :: all[k]
        decreases keys
      {
        var k :| k in keys;
        if now > all[k].expiresAt {
          entries := entries - {k};
        }
        keys := keys - {k};
      }
    }

    /** discoverUserId: a known id wins, then the cache, then a probe whose result is remembered. */
    method DiscoverUserId(key: string, platformUserId: int, now: int, probed: int, later: int) returns (id: int)
      modifies this
      ensures platformUserId > 0 ==> id == platformUserId && entries == old(entries)
      ensures platformUserId <= 0 && Answer(old(entries), key, now).Some? ==>
        id == Answer(old(entries), key, now).value && entries == old(entries)
      ensures platformUserId <= 0 && Answer(old(entries), key, now).None? ==>
        id == probed && entries == Stored(LookedUp(old(entries), key, now), key, probed, later)
    {
      if platformUserId > 0 {
        return platformUserId;
      }
      var cached := Lookup(key, now);
      if cached.Some? {
        return cached.value;
      }
      id := probed;
      Store(key, id, later);
    }
  }

  // ---- Against the history ----

  datatype Op =
    | Lookup(key: string, now: int)
    | Store(key: string, userId: int, now: int)
    | Cleanup(now: int)

  function Apply(entries: Entries, op: Op): Entries {
    match op
    case Lookup(key, now) => LookedUp(entries, key, now)
    case Store(key, userId, now) => Stored(entries, key, userId, now)
    case Cleanup(now) => Cleaned(entries, now)
  }

  function After(ops: seq<Op>): Entries {
    if ops == [] then map[] else Apply(After(ops[..|ops| - 1]), ops[|ops| - 1])
  }

  /** The last id stored for a key, with its expiry. */
  function LastStored(ops: seq<Op>, key: string): Option<Entry> {
    if ops == [] then None
    else
      var op := ops[|ops| - 1];
      if op.Store? && op.key == key && op.userId > 0 then
        Some(Entry(op.userId, op.now + 60 * 60 * RefreshTiming.SECOND))
      else LastStored(ops[..|ops| - 1], key)
  }

  /** What a lookup should answer: the last id stored, for an hour. */
  function Expected(ops: seq<Op>, key: string, now: int): Option<int> {
    var last := LastStored(ops, key);
    if last.Some? && now <= last.value.expiresAt then Some(last.value.userId) else None
  }

  /** The clock does not go back. */
  predicate InTime(ops: seq<Op>, now: int) {
    forall i, j :: 0 <= i <= j < |ops| ==> ops[i].now <= ops[j].now <= now
  }

  /** What is missing from the cache was dead already. */
  ghost predicate Agrees(entries: Entries, ops: seq<Op>, now: int) {
    forall key :: if key in entries then LastStored(ops, key) == Some(entries[key])
                  else LastStored(ops, key).Some? ==> LastStored(ops, key).value.expiresAt < now
  }

  lemma {:induction false} CacheAgrees(ops: seq<Op>, now: int)
    requires InTime(ops, now)
    ensures Agrees(After(ops), ops, now)
  {
    if ops != [] {
      var rest, op := ops[..|ops| - 1], ops[|ops| - 1];
      assert forall i :: 0 <= i < |rest| ==> rest[i] == ops[i];
      assert op.now <= now;
      CacheAgrees(rest, op.now);
    }
  }

  /** After any run of lookups, stores and cleanups, a lookup answers as the history says. */
  lemma LookupIsExpected(ops: seq<Op>, key: string, now: int)
    requires InTime(ops, now)
    ensures Answer(After(ops), key, now) == Expected(ops, key, now)
  {
    hide After;
    CacheAgrees(ops, now);
  }

  function WithoutCleanup(ops: seq<Op>): (r: seq<Op>)
    ensures forall i :: 0 <= i < |r| ==> r[i] in ops
  {
    if ops == [] then []
    else if ops[|ops| - 1].Cleanup? then WithoutCleanup(ops[..|ops| - 1])
    else WithoutCleanup(ops[..|ops| - 1]) + [ops[|ops| - 1]]
  }

  /** A cache that is never cleaned up answers alike. */
  lemma CleanupIsInvisible(ops: seq<Op>, key: string, now: int)
    requires InTime(ops, now)
    ensures Answer(After(ops), key, now) == Answer(After(WithoutCleanup(ops)), key, now)
  {
    LookupIsExpected(ops, key, now);
    SameHistory(ops, key, now);
    LookupIsExpected(WithoutCleanup(ops), key, now);
  }

  lemma LastStoredSnoc(ops: seq<Op>, op: Op, key: string)
    ensures LastStored(ops + [op], key)
         == if op.Store? && op.key == key && op.userId > 0 then Some(Entry(op.userId, op.now + TTL))
            else LastStored(ops, key)
  {
    assert (ops + [op])[..|ops|] == ops;
  }

  lemma {:induction false} SameHistory(ops: seq<Op>, key: string, now: int)
    requires InTime(ops, now)
    ensures InTime(WithoutCleanup(ops), now)
    ensures LastStored(WithoutCleanup(ops), key) == LastStored(ops, key)
  {
    hide LastStored, InTime;
    if ops != [] {
      var rest, op := ops[..|ops| - 1], ops[|ops| - 1];
      assert ops == rest + [op];
      InTimeSnoc(rest, op, now);
      SameHistory(rest, key, op.now);
      InTimeSnoc(WithoutCleanup(rest), op, now);
      LastStoredSnoc(rest, op, key);
      LastStoredSnoc(WithoutCleanup(rest), op, key);
      InTimeLater(WithoutCleanup(rest), op.now, now);
    }
  }

  lemma InTimeSnoc(ops: seq<Op>, op: Op, now: int)
    ensures InTime(ops + [op], now) <==> InTime(ops, op.now) && op.now <= now
  {
    assert (ops + [op])[|ops|] == op;
    assert forall i :: 0 <= i < |ops| ==> (ops + [op])[i] == ops[i];
  }

  lemma InTimeLater(ops: seq<Op>, now: int, later: int)
    requires InTime(ops, now) && now <= later
    ensures InTime(ops, later)
  {
  }
}
