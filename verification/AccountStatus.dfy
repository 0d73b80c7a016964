/** Who changes the status of an account: site toggles, user edits and background jobs
    (handler/site.go, handler/account.go, handler/account_login.go, service/checkin.go,
    service/balance.go, service/managed_session.go). */
module AccountStatus {
  import opened Text
  import opened Json
  import ExtraConfig
  import opened Archive

  datatype Sys = Sys(sites: map<int, string>, accounts: seq<Account>)

  // ---- Site toggles ----

  /** cascadeSiteStatusChange: which cascade a status change triggers, if any. */
  function CascadeFor(before: string, after: string): Option<bool> {
    if after == DISABLED then Some(true)
    else if after == ACTIVE && before == DISABLED then Some(false)
    else None
  }

  /** A site's new status and the cascade after it, whose writes may fail. `always` is false for
      UpdateSite, which triggers nothing when the status stays the same. */
  function SiteChanged(s: Sys, siteId: int, status: string, always: bool, ok: nat -> bool): (Sys, Ending)
    requires siteId in s.sites
  {
    var before := s.sites[siteId];
    var s' := s.(sites := s.sites[siteId := status]);
    var cascade := if always || status != before then CascadeFor(before, status) else None;
    if cascade.None? then (s', Completed)
    else
      var c := Cascaded(Toggle(cascade.value), s.accounts, siteId, ok, |s.accounts|);
      (s'.(accounts := c.accounts), c.ending)
  }

  /** PUT of a site: a text member `status` cascades if it changes the status. `column` is what a member that
      only reaches the UPDATE statement, such as "Status", leaves in the column: it cascades nothing. */
  function SiteUpdated(s: Sys, siteId: int, status: Option<string>, column: Option<string>,
      ok: nat -> bool): (Sys, Ending)
    requires status.Some? ==> siteId in s.sites
  {
    var (u, ending) := if status.Some? then SiteChanged(s, siteId, status.value, false, ok) else (s, Completed);
    (if column.Some? && siteId in s.sites then u.(sites := u.sites[siteId := column.value]) else u, ending)
  }

  /** What a batch does to its k-th site: whether the site row can be written, and which account rows. */
  datatype Writes = Writes(site: bool, accounts: nat -> bool)

  datatype BatchResult = BatchResult(state: Sys, succeeded: seq<int>, failed: seq<int>, panicked: bool)

  /** BatchSites over the first `k` ids: unknown sites and failed site writes are reported and skipped - a
      cascade that fails is not - and a panic ends the request. */
  function Batched(s: Sys, ids: seq<int>, status: string, writes: nat -> Writes, k: nat): BatchResult
    requires k <= |ids|
  {
    if k == 0 then BatchResult(s, [], [], false)
    else
      var r := Batched(s, ids, status, writes, k - 1);
      var id := ids[k - 1];
      if r.panicked then r
      else if id !in r.state.sites || !writes(k - 1).site then r.(failed := r.failed + [id])
      else
        var (u, ending) := SiteChanged(r.state, id, status, true, writes(k - 1).accounts);
        if ending.Panicked? then r.(state := u, panicked := true)
        else r.(state := u, succeeded := r.succeeded + [id])
  }

  // ---- User edits ----

  /** PUT of an account. `status` is the member of that name if it is a text, `raw` an extra_config member,
      and `edits` says whether members edit single keys of the configuration. Members that only reach the
      UPDATE statement - a status that is null, a number or a boolean, or a name that differs in case or in
      characters the statement drops - pass all rules by: `column` and `rawColumn` are what they leave in the
      status and extra_config columns. */
  datatype PutInput = PutInput(
    status: Option<string>, column: Option<Option<string>>, raw: Option<ConfigText>, rawColumn: Option<ConfigText>,
    edits: bool, written: Object, deleted: set<string>)

  function StatusAfter(acc: Account, input: PutInput): Option<string> {
    if input.column.Some? then input.column.value
    else if input.status.Some? then Some(Trim(input.status.value))
    else acc.status
  }

  /** A text that differs from the status shown. */
  predicate ChangesStatus(acc: Account, input: PutInput) {
    input.status.Some? && Trim(input.status.value) != NormalizeAccountStatus(acc.status)
  }

  /** An explicit change of status supersedes the archive marker. */
  predicate DropsMarker(acc: Account, input: PutInput, cfg: Object) {
    ChangesStatus(acc, input) && ARCHIVED_BY_SITE in cfg
  }

  function ExtraAfter(acc: Account, input: PutInput): ConfigText {
    var cfg := if input.edits then (Decoded(acc.extra) - input.deleted) + input.written else Decoded(acc.extra);
    if input.rawColumn.Some? then input.rawColumn.value
    else if DropsMarker(acc, input, cfg) then ConfigText.Object(cfg - MARKERS)
    else if input.edits then ConfigText.Object(cfg)
    else if input.raw.Some? then input.raw.value
    else acc.extra
  }

  function Put(acc: Account, input: PutInput): Account {
    acc.(status := StatusAfter(acc, input), extra := ExtraAfter(acc, input))
  }

  /** SetAccountStatusUserDriven, for batch enable and disable. */
  function UserDriven(acc: Account, status: string): Account {
    acc.(status := Some(status),
         extra := if IsAccountArchived(acc.extra) then ExtraConfig.Merged(acc.extra, map[], MARKERS).value
                  else acc.extra)
  }

  /** A new account: archived right away under a disabled site, with the requested status as snapshot. */
  function Created(sites: map<int, string>, siteId: int, status: string, cfg: Object): Account
    requires siteId in sites
  {
    var requested := if Lower(Trim(status)) == EXPIRED then EXPIRED else ACTIVE;
    if sites[siteId] == DISABLED then
      Account(siteId, Some(DISABLED),
              ConfigText.Object(map[ARCHIVED_BY_SITE := Bool(true), ARCHIVED_PREV_STATUS := Str(requested)] + cfg))
    else
      Account(siteId, Some(if Trim(status) == "" then ACTIVE else Trim(status)), ConfigText.Object(cfg))
  }

  /** A login re-activates an account and drops its marker. */
  function LoggedIn(acc: Account, cfg: Object): Account {
    acc.(status := Some(ACTIVE), extra := ConfigText.Object((Decoded(acc.extra) - MARKERS) + cfg))
  }

  // ---- Background jobs ----

  /** What a check-in or balance refresh found out; `health` is the runtime health it records. */
  datatype Finding = Healthy(health: Value) | HealthOnly(health: Value) | TokenExpired(health: Value)

  const RUNTIME_HEALTH := "runtimeHealth"

  function WithHealth(acc: Account, health: Value): Account {
    var extra := ExtraConfig.Merged(acc.extra, map[RUNTIME_HEALTH := health], {});
    if extra.Some? then acc.(extra := extra.value) else acc
  }

  /** Whether the write of a job reaches the database: recording health panics on the literal null. */
  predicate Writable(acc: Account) {
    !acc.extra.NullLiteral?
  }

  function JobStatus(status: Option<string>, finding: Finding): Option<string> {
    if finding.Healthy? && status == Some(EXPIRED) then Some(ACTIVE)
    else if finding.TokenExpired? then Some(EXPIRED)
    else status
  }

  /** CheckinAccount and RefreshBalance alike: a disabled site or account only has its health recorded. */
  function JobDone(acc: Account, siteStatus: string, finding: Finding): Account {
    if !Writable(acc) then acc
    else if siteStatus == DISABLED || acc.status == Some(DISABLED) then WithHealth(acc, finding.health)
    else WithHealth(acc, finding.health).(status := JobStatus(acc.status, finding))
  }

  /** A managed refresh stores its configuration and revives an expired account. */
  function Refreshed(acc: Account, written: Object, deleted: set<string>): Account {
    acc.(status := if acc.status == Some(EXPIRED) then Some(ACTIVE) else acc.status,
         extra := ConfigText.Object((Decoded(acc.extra) - deleted) + written))
  }

  // ---- The stored state ----

  class Store {
    var sites: map<int, string>
    var accounts: seq<Account>

    ghost function Value(): Sys
      reads this
    {
      Sys(sites, accounts)
    }

    constructor (sites: map<int, string>, accounts: seq<Account>)
      ensures Value() == Sys(sites, accounts)
    {
      this.sites, this.accounts := sites, accounts;
    }

    method CascadeSiteStatusChange(siteId: int, before: string, after: string, ok: nat -> bool) returns (ending: Ending)
      modifies this`accounts
      ensures var cascade := CascadeFor(before, after);
        if cascade.None? then accounts == old(accounts) && ending == Completed
        else
          var c := Cascaded(Toggle(cascade.value), old(accounts), siteId, ok, |old(accounts)|);
          accounts == c.accounts && ending == c.ending
    {
      ending := Completed;
      var table := new AccountTable(accounts);
      if after == DISABLED {
        var _, archived := table.ArchiveAccountsBySite(siteId, ok);
        ending := archived;
      } else if after == ACTIVE && before == DISABLED {
        var _, restored := table.RestoreAccountsBySite(siteId, ok);
        ending := restored;
      }
      accounts := table.accounts;
    }

    /** `done` is false if the site is unknown or cannot be written; `ending` tells how the cascade ended. */
    method UpdateSite(siteId: int, status: Option<string>, column: Option<string>, writes: Writes)
      returns (done: bool, ending: Ending)
      modifies this
      ensures done == (writes.site && (status.Some? ==> siteId in old(sites)))
      ensures (Value(), ending)
           == if done then SiteUpdated(old(Value()), siteId, status, column, writes.accounts)
              else (old(Value()), Completed)
    {
      done, ending := false, Completed;
      if status.Some? && siteId !in sites {
        return;
      }
      if !writes.site {
        return;
      }
      done := true;
      if siteId !in sites {
        return;
      }
      var oldStatus := sites[siteId];
      ghost var before := sites;
      if column.Some? {
        sites := sites[siteId := column.value];
        assert status.Some? ==> sites == before[siteId := status.value][siteId := column.value];
      } else if status.Some? {
        sites := sites[siteId := status.value];
      }
      if status.Some? && status.value != oldStatus {
        ending := CascadeSiteStatusChange(siteId, oldStatus, status.value, writes.accounts);
      }
    }

    /** Batch enable (status active) or disable. */
    method BatchSites(ids: seq<int>, status: string, writes: nat -> Writes)
      returns (succeeded: seq<int>, failed: seq<int>, panicked: bool)
      modifies this
      ensures BatchResult(Value(), succeeded, failed, panicked) == Batched(old(Value()), ids, status, writes, |ids|)
    {
      succeeded, failed, panicked := [], [], false;
      for k := 0 to |ids|
        invariant !panicked
        invariant BatchResult(Value(), succeeded, failed, panicked) == Batched(old(Value()), ids, status, writes, k)
      {
        if ids[k] !in sites || !writes(k).site {
          failed := failed + [ids[k]];
          continue;
        }
        var oldStatus := sites[ids[k]];
        sites := sites[ids[k] := status];
        var ending := CascadeSiteStatusChange(ids[k], oldStatus, status, writes(k).accounts);
        if ending == Panicked {
          panicked := true;
          PanicStays(old(Value()), ids, status, writes, k + 1, |ids|);
          return;
        }
        succeeded := succeeded + [ids[k]];
      }
    }

    method UpdateAccount(i: nat, input: PutInput) returns (found: bool)
      modifies this`accounts
      ensures found == (i < |old(accounts)|)
      ensures accounts == if found then old(accounts)[i := Put(old(accounts)[i], input)] else old(accounts)
    {
      if i >= |accounts| {
        return false;
      }
      found := true;
      var account := accounts[i];
      var cfg := Decoded(account.extra);
      var cfgModified := false;
      if input.edits {
        cfg := (cfg - input.deleted) + input.written;
        cfgModified := true;
      }
      var status := account.status;
      if input.status.Some? {
        var newStatus := Trim(input.status.value);
        status := Some(newStatus);
        if newStatus != NormalizeAccountStatus(account.status) {
          if ARCHIVED_BY_SITE in cfg {
            cfg := cfg - MARKERS;
            cfgModified := true;
          }
        }
      }
      var extra := if input.raw.Some? then input.raw.value else account.extra;
      if cfgModified {
        extra := ConfigText.Object(cfg);
      }
      // The UPDATE statement, with whatever other members name the same columns.
      if input.column.Some? {
        status := input.column.value;
      }
      if input.rawColumn.Some? {
        extra := input.rawColumn.value;
      }
      accounts := accounts[i := Account(account.siteId, status, extra)];
    }

    method SetAccountStatusUserDriven(i: nat, status: string) returns (found: bool)
      modifies this`accounts
      ensures found == (i < |old(accounts)|)
      ensures accounts == if found then old(accounts)[i := UserDriven(old(accounts)[i], status)] else old(accounts)
    {
      if i >= |accounts| {
        return false;
      }
      found := true;
      var account := accounts[i].(status := Some(status));
      if IsAccountArchived(account.extra) {
        account := account.(extra := ExtraConfig.Merged(account.extra, map[], MARKERS).value);
      }
      accounts := accounts[i := account];
    }

    /** What CheckinAccount stores; RefreshBalance stores the same. `wrote` is false if the account or its
        site does not exist, or recording the health panicked. */
    method CheckinAccount(i: nat, finding: Finding) returns (wrote: bool)
      modifies this`accounts
      ensures wrote == (i < |old(accounts)| && old(accounts)[i].siteId in sites && Writable(old(accounts)[i]))
      ensures accounts
           == if wrote then old(accounts)[i := JobDone(old(accounts)[i], sites[old(accounts)[i].siteId], finding)]
              else old(accounts)
    {
      if i >= |accounts| || accounts[i].siteId !in sites {
        return false;
      }
      var account := accounts[i];
      assert RUNTIME_HEALTH in map[RUNTIME_HEALTH := finding.health];
      var extra := ExtraConfig.Merged(account.extra, map[RUNTIME_HEALTH := finding.health], {});
      if extra.None? {
        return false;
      }
      wrote := true;
      var updated := account.(extra := extra.value);
      if sites[account.siteId] == DISABLED {
        accounts := accounts[i := updated];
        return;
      }
      if account.status == Some(DISABLED) {
        accounts := accounts[i := updated];
        return;
      }
      if finding.Healthy? {
        if account.status == Some(EXPIRED) {
          updated := updated.(status := Some(ACTIVE));
        }
      } else if finding.TokenExpired? {
        updated := updated.(status := Some(EXPIRED));
      }
      accounts := accounts[i := updated];
    }
  }

  lemma {:induction false} PanicStays(s: Sys, ids: seq<int>, status: string, writes: nat -> Writes, i: nat, k: nat)
    requires i <= k <= |ids| && Batched(s, ids, status, writes, i).panicked
    ensures Batched(s, ids, status, writes, k) == Batched(s, ids, status, writes, i)
  {
    hide SiteChanged;
    if i < k {
      PanicStays(s, ids, status, writes, i, k - 1);
    }
  }
}
