/** When a managed credential is renewed and how long a failing one waits
    (service/managed_session.go). Instants and durations are nanoseconds; expiries are unix
    milliseconds. */
module RefreshTiming {
  import opened Json
  import ManagedAuth

  const MILLISECOND := 1_000_000
  const SECOND := 1000 * MILLISECOND
  const MINUTE := 60 * SECOND
  const HOUR := 60 * MINUTE

  const REFRESH_INTERVAL := 2 * MINUTE
  const REFRESH_LEAD := 4 * MINUTE
  const REFRESH_MAX_LEAD := 10 * MINUTE
  const LEAD_DIVISOR := 4
  const MIN_SPACING := 60 * SECOND
  const BACKOFF_BASE := 2 * MINUTE
  const BACKOFF_MAX := 30 * MINUTE
  const DEAD_BACKOFF := 6 * HOUR
  const NEW_API_SITE_SPACING := MINUTE
  const SUB2_SITE_SPACING := 2 * SECOND

  // ---- Backoff ----

  function Pow2(n: nat): (p: nat)
    ensures p >= 1
  {
    if n == 0 then 1 else 2 * Pow2(n - 1)
  }

  function Min(a: int, b: int): int {
    if a < b then a else b
  }

  /** The wait after `failures` failures in a row. */
  function Backoff(failures: int, res: Option<ManagedAuth.RefreshResult>): (wait: int)
    ensures wait > 0
  {
    if res.Some? && res.value.dead then DEAD_BACKOFF
    else if res.Some? && res.value.retryAfter > 0 then res.value.retryAfter
    else Min(BACKOFF_BASE * Pow2(if failures < 1 then 0 else failures - 1), BACKOFF_MAX)
  }

  lemma {:induction false} Pow2Monotone(a: nat, b: nat)
    requires a <= b
    ensures Pow2(a) <= Pow2(b)
  {
    if a < b {
      Pow2Monotone(a, b - 1);
    }
  }

  /** The doubling loop computes min(2 min * 2^(failures-1), 30 min). */
  method ManagedRefreshBackoff(failures: int, res: Option<ManagedAuth.RefreshResult>) returns (backoff: int)
    ensures backoff == Backoff(failures, res)
  {
    if res.Some? {
      if res.value.dead {
        return DEAD_BACKOFF;
      }
      if res.value.retryAfter > 0 {
        return res.value.retryAfter;
      }
    }
    var n := if failures < 1 then 1 else failures;
    backoff := BACKOFF_BASE;
    var i := 1;
    while i < n && backoff < BACKOFF_MAX
      invariant 1 <= i <= n
      invariant backoff == BACKOFF_BASE * Pow2(i - 1)
    {
      backoff := backoff * 2;
      i := i + 1;
    }
    Pow2Monotone(i - 1, n - 1);
    if backoff > BACKOFF_MAX {
      backoff := BACKOFF_MAX;
    }
  }

  /** More failures never wait less, and the wait stays between 2 and 30 minutes. */
  lemma BackoffMonotone(f: int, g: int)
    requires f <= g
    ensures 2 * 60 * SECOND <= Backoff(f, None) <= Backoff(g, None) <= 30 * 60 * SECOND
  {
    Pow2Monotone(if f < 1 then 0 else f - 1, if g < 1 then 0 else g - 1);
    Pow2Monotone(0, if f < 1 then 0 else f - 1);
  }

  // ---- Due ----

  function UnixMilli(now: int): int {
    now / MILLISECOND
  }

  predicate IsDueWithLead(expiresAt: int, now: int, lead: int) {
    expiresAt > 0 && expiresAt - UnixMilli(now) <= lead / MILLISECOND
  }

  /** In milliseconds: the last quarter of the credential's own lifetime (0 if unknown), but between
      4 and 10 minutes. */
  function LeadMillis(lifetimeMillis: int): (lead: int)
    ensures REFRESH_LEAD <= lead * MILLISECOND <= REFRESH_MAX_LEAD
  {
    var lead := lifetimeMillis / LEAD_DIVISOR;
    if lifetimeMillis <= 0 || lead < REFRESH_LEAD / MILLISECOND then REFRESH_LEAD / MILLISECOND
    else if lead > REFRESH_MAX_LEAD / MILLISECOND then REFRESH_MAX_LEAD / MILLISECOND
    else lead
  }

  function LeadFor(lifetimeMillis: int): int {
    LeadMillis(lifetimeMillis) * MILLISECOND
  }

  /** Renewal starts in the last quarter of the lifetime, if that is between 4 and 10 minutes, and never
      earlier or later than these. */
  lemma LeadIsLastQuarter(lifetimeMillis: int)
    ensures var lead := LeadMillis(lifetimeMillis);
      && (REFRESH_LEAD < lead * MILLISECOND < REFRESH_MAX_LEAD ==> 4 * lead <= lifetimeMillis < 4 * (lead + 1))
      && (lead * MILLISECOND == REFRESH_LEAD
          <==> lifetimeMillis * MILLISECOND < 16 * MINUTE + LEAD_DIVISOR * MILLISECOND)
      && (lead * MILLISECOND == REFRESH_MAX_LEAD <==> lifetimeMillis * MILLISECOND >= 40 * MINUTE)
  {
  }

  /** Due from the lead before the expiry on, and not before; without an expiry never. */
  lemma DueIff(expiresAt: int, now: int, lifetimeMillis: int)
    ensures IsDueWithLead(expiresAt, now, LeadFor(lifetimeMillis))
       <==> expiresAt > 0 && now >= expiresAt * MILLISECOND - LeadFor(lifetimeMillis)
  {
    hide LeadMillis;
    var lead := LeadMillis(lifetimeMillis);
    assert lead * MILLISECOND / MILLISECOND == lead;
    assert UnixMilli(now) * MILLISECOND <= now < (UnixMilli(now) + 1) * MILLISECOND;
  }

  /** Scans no further apart than the scan interval. */
  predicate ScansOften(scans: seq<int>) {
    forall i :: 0 <= i < |scans| - 1 ==> scans[i] <= scans[i + 1] <= scans[i] + REFRESH_INTERVAL
  }

  /** A token seen not due at the first scan is found due by a later one, with more than lead minus
      two minutes - so at least two minutes - left, provided scanning goes on until its renewal
      window opened. */
  lemma {:induction false} FoundDueInTime(scans: seq<int>, expiresAt: int, lifetimeMillis: int) returns (k: nat)
    requires |scans| > 0 && ScansOften(scans)
    requires expiresAt > 0 && !IsDueWithLead(expiresAt, scans[0], LeadFor(lifetimeMillis))
    requires IsDueWithLead(expiresAt, scans[|scans| - 1], LeadFor(lifetimeMillis))
    ensures 0 < k < |scans| && IsDueWithLead(expiresAt, scans[k], LeadFor(lifetimeMillis))
    ensures forall j :: 0 <= j < k ==> !IsDueWithLead(expiresAt, scans[j], LeadFor(lifetimeMillis))
    ensures expiresAt * MILLISECOND - scans[k] > LeadFor(lifetimeMillis) - REFRESH_INTERVAL >= 2 * MINUTE
  {
    hide IsDueWithLead, LeadMillis;
    var lead := LeadFor(lifetimeMillis);
    var n := |scans| - 1;
    k := n;
    if exists j :: 0 <= j < n && IsDueWithLead(expiresAt, scans[j], lead) {
      var j :| 0 <= j < n && IsDueWithLead(expiresAt, scans[j], lead);
      var prefix := scans[..j + 1];
      k := FoundDueInTime(prefix, expiresAt, lifetimeMillis);
      assert forall i :: 0 <= i < k ==> prefix[i] == scans[i];
    } else {
      assert n > 0;
      NotDueMargin(expiresAt, scans[n - 1], LeadMillis(lifetimeMillis));
    }
  }

  lemma NotDueMargin(expiresAt: int, now: int, leadMillis: int)
    requires expiresAt > 0 && !IsDueWithLead(expiresAt, now, leadMillis * MILLISECOND)
    ensures expiresAt * MILLISECOND - now > leadMillis * MILLISECOND
  {
    assert leadMillis * MILLISECOND / MILLISECOND == leadMillis;
    assert now < (UnixMilli(now) + 1) * MILLISECOND;
  }
}
