/** Invariants of account statuses over every run of toggles, edits and jobs. */
module AccountRuns {
  import opened Text
  import opened Json
  import ExtraConfig
  import opened Archive
  import opened AccountStatus

  // ---- The invariants ----

  /** A marked account is disabled. */
  predicate MarkedIsDisabled(acc: Account) {
    IsAccountArchived(acc.extra) ==> acc.status == Some(DISABLED)
  }

  /** What one account must satisfy on a site of this status: an active site has no marked account. */
  predicate Sound(siteStatus: string, acc: Account) {
    && !acc.extra.NullLiteral? && MarkedIsDisabled(acc)
    && (siteStatus == ACTIVE ==> !IsAccountArchived(acc.extra))
  }

  ghost predicate Inv(s: Sys) {
    && (forall id :: id in s.sites ==> s.sites[id] in {ACTIVE, DISABLED})
    && (forall i :: 0 <= i < |s.accounts| ==>
          s.accounts[i].siteId in s.sites && Sound(s.sites[s.accounts[i].siteId], s.accounts[i]))
  }

  // ---- Runs ----

  datatype Action =
    | UpdateSite(siteId: int, text: Option<string>, column: Option<string>)
    | BatchSites(ids: seq<int>, status: string, refused: set<nat>)
    | EditAccount(i: nat, input: PutInput)
    | SetStatus(i: nat, status: string)
    | Create(siteId: int, status: string, cfg: Object)
    | Login(i: nat, cfg: Object)
    | Job(i: nat, finding: Finding)
    | Refresh(i: nat, written: Object, deleted: set<string>)

  predicate NoMarker(written: Object, deleted: set<string>) {
    written.Keys !! MARKERS && deleted !! MARKERS
  }

  /** The raw configuration an edit stores, if it does: one past the rules always, an extra_config member
      unless edits of single keys or a dropped marker override it. */
  function RawStored(acc: Account, input: PutInput): Option<ConfigText> {
    if input.rawColumn.Some? then input.rawColumn
    else if !input.edits && !DropsMarker(acc, input, Decoded(acc.extra)) then input.raw
    else None
  }

  /** A marked account whose status is overwritten past the rules. */
  predicate ReenablesMarked(acc: Account, input: PutInput) {
    && IsAccountArchived(acc.extra) && !ChangesStatus(acc, input)
    && input.column.Some? && input.column.value != Some(DISABLED)
  }

  /** The edits that keep the invariants. A raw configuration that is stored must not be the literal null,
      nor carry a marker unless the site is not active and the account ends up disabled; any other edit
      must not re-enable a marked account past the rules. */
  predicate SafeEdit(siteStatus: string, acc: Account, input: PutInput) {
    var raw := RawStored(acc, input);
    if raw.Some? then
      && !raw.value.NullLiteral?
      && (IsAccountArchived(raw.value) ==> siteStatus != ACTIVE && StatusAfter(acc, input) == Some(DISABLED))
    else !ReenablesMarked(acc, input)
  }

  /** The site requests that keep the invariants. Past the rules, only a site without marked accounts may
      become active, nor may it hide accounts at the same time. */
  predicate SafeSiteEdit(s: Sys, siteId: int, status: Option<string>, column: Option<string>)
    requires siteId in s.sites
  {
    var before := s.sites[siteId];
    var after := if column.Some? then column.value else if status.Some? then status.value else before;
    && after in {ACTIVE, DISABLED}
    && (after == ACTIVE && column.Some? && status != Some(ACTIVE) ==>
          forall i :: 0 <= i < |s.accounts| && s.accounts[i].siteId == siteId ==>
            && !IsAccountArchived(s.accounts[i].extra)
            && (status == Some(DISABLED) != Some(before) ==>
                  NormalizeAccountStatus(s.accounts[i].status) == DISABLED))
  }

  /** All account rows can be written, and all site rows but those at these positions. */
  function WritesBut(refused: set<nat>): nat -> Writes {
    k => Writes(k !in refused, _ => true)
  }

  /** Site statuses are active and disabled, accounts stay on their site, and every write of an account
      succeeds. */
  predicate Allowed(s: Sys, a: Action) {
    match a
    case UpdateSite(siteId, status, column) => siteId in s.sites && SafeSiteEdit(s, siteId, status, column)
    case BatchSites(_, status, _) => status in {ACTIVE, DISABLED}
    case EditAccount(i, input) =>
      && i < |s.accounts| && s.accounts[i].siteId in s.sites && NoMarker(input.written, input.deleted)
      && SafeEdit(s.sites[s.accounts[i].siteId], s.accounts[i], input)
    case SetStatus(i, _) => i < |s.accounts|
    case Create(siteId, _, cfg) => siteId in s.sites && NoMarker(cfg, {})
    case Login(i, cfg) => i < |s.accounts| && NoMarker(cfg, {})
    case Job(i, _) => i < |s.accounts|
    case Refresh(i, written, deleted) => i < |s.accounts| && NoMarker(written, deleted)
  }

  function Apply(s: Sys, a: Action): Sys
    requires Allowed(s, a)
  {
    match a
    case UpdateSite(siteId, status, column) => SiteUpdated(s, siteId, status, column, _ => true).0
    case BatchSites(ids, status, refused) => Batched(s, ids, status, WritesBut(refused), |ids|).state
    case EditAccount(i, input) => s.(accounts := s.accounts[i := Put(s.accounts[i], input)])
    case SetStatus(i, status) => s.(accounts := s.accounts[i := UserDriven(s.accounts[i], status)])
    case Create(siteId, status, cfg) => s.(accounts := s.accounts + [Created(s.sites, siteId, status, cfg)])
    case Login(i, cfg) => s.(accounts := s.accounts[i := LoggedIn(s.accounts[i], cfg)])
    case Job(i, finding) =>
      var siteStatus := if s.accounts[i].siteId in s.sites then s.sites[s.accounts[i].siteId] else ACTIVE;
      s.(accounts := s.accounts[i := JobDone(s.accounts[i], siteStatus, finding)])
    case Refresh(i, written, deleted) =>
      s.(accounts := s.accounts[i := Refreshed(s.accounts[i], written, deleted)])
  }

  // ---- One account ----

  lemma MarkerKept(config: ConfigText, written: Object, deleted: set<string>)
    requires NoMarker(written, deleted)
    ensures IsAccountArchived(ConfigText.Object((Decoded(config) - deleted) + written)) == IsAccountArchived(config)
    ensures ARCHIVED_BY_SITE in (Decoded(config) - deleted) + written <==> ARCHIVED_BY_SITE in Decoded(config)
  {
    assert ARCHIVED_BY_SITE in MARKERS;
  }

  lemma MarkerDropped(cfg: Object)
    ensures !IsAccountArchived(ConfigText.Object(cfg - MARKERS))
  {
  }

  /** Without a raw extra_config, an edit keeps "marked is disabled" exactly if it does not re-enable a
      marked account past the rules. */
  lemma EditKeepsMarkedIff(acc: Account, input: PutInput)
    requires MarkedIsDisabled(acc) && input.raw.None? && input.rawColumn.None? && NoMarker(input.written, input.deleted)
    ensures MarkedIsDisabled(Put(acc, input)) <==> !ReenablesMarked(acc, input)
  {
    hide Trim, Lower;
    MarkerKept(acc.extra, input.written, input.deleted);
    MarkerDropped(Decoded(acc.extra));
    MarkerDropped((Decoded(acc.extra) - input.deleted) + input.written);
    PlainStatuses();
  }

  /** An edit that changes the status by its text unmarks the account, whatever else it does under the rules. */
  lemma StatusChangeUnmarks(acc: Account, input: PutInput)
    requires ChangesStatus(acc, input) && IsAccountArchived(acc.extra) && NoMarker(input.written, input.deleted)
    ensures IsAccountArchived(Put(acc, input).extra)
       <==> input.rawColumn.Some? && IsAccountArchived(input.rawColumn.value)
  {
    hide Trim, Lower;
    MarkerKept(acc.extra, input.written, input.deleted);
    MarkerDropped(Decoded(acc.extra));
    MarkerDropped((Decoded(acc.extra) - input.deleted) + input.written);
  }

  /** Moved by a completed cascade. */
  lemma CascadeEffect(acc: Account, disable: bool)
    requires !acc.extra.NullLiteral? && MarkedIsDisabled(acc)
    ensures var to := Target(acc, Toggle(disable)(acc));
      && !to.extra.NullLiteral? && to.siteId == acc.siteId && MarkedIsDisabled(to)
      && (!disable ==> !IsAccountArchived(to.extra))
  {
    hide NormalizeAccountStatus, ArchivedPrevStatus;
    if disable {
      MergedMarks(acc.extra, NormalizeAccountStatus(acc.status));
    } else if acc.extra.Object? {
      MergedUnmarks(acc.extra);
    }
  }

  /** Which accounts of its site a change of status archives or restores, if it cascades. */
  function CascadeOf(before: string, status: string, always: bool): Option<bool> {
    if !always && status == before then None else CascadeFor(before, status)
  }

  predicate NoNull(s: Sys) {
    forall i :: 0 <= i < |s.accounts| ==> !s.accounts[i].extra.NullLiteral?
  }

  /** A completed change, account by account. */
  lemma ChangedAt(s: Sys, siteId: int, status: string, always: bool, i: nat)
    requires siteId in s.sites && i < |s.accounts| && NoNull(s)
    ensures var (s', ending) := SiteChanged(s, siteId, status, always, _ => true);
      var acc, cascade := s.accounts[i], CascadeOf(s.sites[siteId], status, always);
      && ending == Completed && s'.sites == s.sites[siteId := status] && |s'.accounts| == |s.accounts|
      && s'.accounts[i]
         == (if acc.siteId == siteId && cascade.Some? then Target(acc, Toggle(cascade.value)(acc)) else acc)
  {
    hide Cascaded, Changed, ArchiveMove, RestoreMove;
    var cascade := CascadeOf(s.sites[siteId], status, always);
    if cascade.Some? {
      NeverEndsEarly(s.accounts, siteId, cascade.value);
      EachAt(Toggle(cascade.value), s.accounts, siteId, i);
    }
  }

  lemma ChangedSites(s: Sys, siteId: int, status: string, always: bool)
    requires siteId in s.sites && NoNull(s)
    ensures var (s', ending) := SiteChanged(s, siteId, status, always, _ => true);
      ending == Completed && s'.sites == s.sites[siteId := status] && |s'.accounts| == |s.accounts| && NoNull(s')
  {
    hide Cascaded, Changed, ArchiveMove, RestoreMove, Toggle;
    var cascade := CascadeOf(s.sites[siteId], status, always);
    if cascade.Some? {
      NeverEndsEarly(s.accounts, siteId, cascade.value);
      var moved := Each(Toggle(cascade.value), s.accounts, siteId);
      forall i | 0 <= i < |s.accounts| ensures !moved[i].extra.NullLiteral? {
        EachAt(Toggle(cascade.value), s.accounts, siteId, i);
        ToggledIsNotNull(s.accounts[i]);
      }
    }
  }

  lemma ToggledIsNotNull(acc: Account)
    requires !acc.extra.NullLiteral?
    ensures forall disable :: !Target(acc, Toggle(disable)(acc)).extra.NullLiteral?
  {
    hide NormalizeAccountStatus, ArchivedPrevStatus;
    forall disable {
      ToggleOne(acc, disable);
    }
  }

  /** What holds at every site whose status was not written past the rules. */
  lemma ChangeKeepsSound(s: Sys, siteId: int, status: string, always: bool, i: nat)
    requires Inv(s) && siteId in s.sites && i < |s.accounts|
    ensures NoNull(s)
    ensures var s' := SiteChanged(s, siteId, status, always, _ => true).0;
      && |s'.accounts| == |s.accounts| && s'.sites == s.sites[siteId := status]
      && s'.accounts[i].siteId == s.accounts[i].siteId && Sound(s'.sites[s.accounts[i].siteId], s'.accounts[i])
  {
    hide SiteChanged, IsAccountArchived, MarkedIsDisabled, Toggle;
    ChangedAt(s, siteId, status, always, i);
    var cascade := CascadeOf(s.sites[siteId], status, always);
    if cascade.Some? {
      CascadeEffect(s.accounts[i], cascade.value);
    }
  }

  lemma ChangeKeepsInv(s: Sys, siteId: int, status: string, always: bool)
    requires Inv(s) && siteId in s.sites && status in {ACTIVE, DISABLED}
    ensures var (s', ending) := SiteChanged(s, siteId, status, always, _ => true);
      ending == Completed && Inv(s') && s'.sites.Keys == s.sites.Keys
  {
    hide SiteChanged, Sound;
    NotNull(s);
    ChangedSites(s, siteId, status, always);
    var s' := SiteChanged(s, siteId, status, always, _ => true).0;
    forall i | 0 <= i < |s.accounts|
      ensures s'.accounts[i].siteId in s'.sites && Sound(s'.sites[s'.accounts[i].siteId], s'.accounts[i])
    {
      ChangeKeepsSound(s, siteId, status, always, i);
    }
  }

  lemma NotNull(s: Sys)
    requires Inv(s)
    ensures NoNull(s)
  {
  }

  /** Exactly these site requests keep the invariants. */
  lemma SiteEditKeepsInvIff(s: Sys, siteId: int, status: Option<string>, column: Option<string>)
    requires Inv(s) && siteId in s.sites
    ensures Inv(SiteUpdated(s, siteId, status, column, _ => true).0) <==> SafeSiteEdit(s, siteId, status, column)
  {
    hide SiteChanged, IsAccountArchived, MarkedIsDisabled, NormalizeAccountStatus;
    NotNull(s);
    var s' := SiteUpdated(s, siteId, status, column, _ => true).0;
    if status.Some? {
      ChangedSites(s, siteId, status.value, false);
      forall i | 0 <= i < |s.accounts|
        ensures var acc, to := s.accounts[i], s'.accounts[i];
          && to.siteId == acc.siteId && !to.extra.NullLiteral? && MarkedIsDisabled(to)
          && (acc.siteId != siteId ==> to == acc)
          && (acc.siteId == siteId && status == Some(ACTIVE) ==> !IsAccountArchived(to.extra))
          && (acc.siteId == siteId && status != Some(ACTIVE) ==>
                (IsAccountArchived(to.extra) <==>
                   || IsAccountArchived(acc.extra)
                   || (status == Some(DISABLED) != Some(s.sites[siteId])
                       && NormalizeAccountStatus(acc.status) != DISABLED)))
      {
        ChangeKeepsSound(s, siteId, status.value, false, i);
        ChangedAt(s, siteId, status.value, false, i);
        if CascadeOf(s.sites[siteId], status.value, false) == Some(true) {
          ArchivedIff(s.accounts[i]);
        }
      }
    }
    assert |s'.accounts| == |s.accounts|;
    assert s'.sites.Keys == s.sites.Keys;
  }

  /** Archiving marks exactly the accounts that are not disabled. */
  lemma ArchivedIff(acc: Account)
    requires !acc.extra.NullLiteral?
    ensures IsAccountArchived(Target(acc, ArchiveMove(acc)).extra)
       <==> IsAccountArchived(acc.extra) || NormalizeAccountStatus(acc.status) != DISABLED
  {
    hide NormalizeAccountStatus;
    MergedMarks(acc.extra, NormalizeAccountStatus(acc.status));
  }

  lemma {:induction false} BatchKeepsInv(s: Sys, ids: seq<int>, status: string, refused: set<nat>, k: nat)
    requires Inv(s) && status in {ACTIVE, DISABLED} && k <= |ids|
    ensures var r := Batched(s, ids, status, WritesBut(refused), k);
      !r.panicked && Inv(r.state) && r.state.sites.Keys == s.sites.Keys
  {
    hide Inv, SiteChanged;
    if k > 0 {
      BatchKeepsInv(s, ids, status, refused, k - 1);
      var before := Batched(s, ids, status, WritesBut(refused), k - 1);
      if ids[k - 1] in before.state.sites {
        ChangeKeepsInv(before.state, ids[k - 1], status, true);
        SameWrites(before.state, ids[k - 1], status, refused, k - 1);
      }
    }
  }

  lemma SameWrites(s: Sys, siteId: int, status: string, refused: set<nat>, k: nat)
    requires siteId in s.sites && Inv(s)
    ensures SiteChanged(s, siteId, status, true, WritesBut(refused)(k).accounts)
         == SiteChanged(s, siteId, status, true, _ => true)
  {
    hide Toggle;
    SameCascade(s.accounts, siteId, WritesBut(refused)(k).accounts, _ => true, |s.accounts|);
  }

  lemma {:induction false} SameCascade(
    accounts: seq<Account>, siteId: int, ok: nat -> bool, ok': nat -> bool, k: nat)
    requires k <= |accounts| && forall i :: ok(i) == ok'(i)
    ensures forall disable :: Cascaded(Toggle(disable), accounts, siteId, ok, k)
                           == Cascaded(Toggle(disable), accounts, siteId, ok', k)
  {
    hide Toggle;
    if k > 0 {
      SameCascade(accounts, siteId, ok, ok', k - 1);
    }
  }

  lemma StepKeepsInv(s: Sys, a: Action)
    requires Inv(s) && Allowed(s, a)
    ensures Inv(Apply(s, a))
  {
    hide Trim, Lower, IsAccountArchived, ExtraConfig.Merged;
    match a
    case UpdateSite(siteId, status, column) => {
      SiteEditKeepsInvIff(s, siteId, status, column);
    }
    case BatchSites(ids, status, refused) => {
      BatchKeepsInv(s, ids, status, refused, |ids|);
    }
    case EditAccount(i, input) => {
      EditKeepsInvIff(s, i, input);
    }
    case SetStatus(i, status) => {
      UserDrivenEffect(s.accounts[i], status);
    }
    case Create(siteId, status, cfg) => {
      CreatedEffect(s.sites, siteId, status, cfg);
    }
    case Login(i, cfg) => {
      MarkerDropped(Decoded(s.accounts[i].extra));
      MarkerKept(ConfigText.Object(Decoded(s.accounts[i].extra) - MARKERS), cfg, {});
      assert (Decoded(s.accounts[i].extra) - MARKERS) - {} == Decoded(s.accounts[i].extra) - MARKERS;
    }
    case Job(i, finding) => {
      HealthEffect(s.accounts[i], finding.health);
    }
    case Refresh(i, written, deleted) => {
      MarkerKept(s.accounts[i].extra, written, deleted);
    }
  }

  function Edited(s: Sys, i: nat, input: PutInput): Sys
    requires i < |s.accounts|
  {
    s.(accounts := s.accounts[i := Put(s.accounts[i], input)])
  }

  /** Exactly these edits keep the invariants, for every site status, account and request. */
  lemma EditKeepsInvIff(s: Sys, i: nat, input: PutInput)
    requires Inv(s) && i < |s.accounts| && NoMarker(input.written, input.deleted)
    ensures Inv(Edited(s, i, input)) <==> SafeEdit(s.sites[s.accounts[i].siteId], s.accounts[i], input)
  {
    hide Trim, Lower, IsAccountArchived, Put;
    var acc, to := s.accounts[i], Put(s.accounts[i], input);
    EditEffect(s.sites[acc.siteId], acc, input);
    assert Edited(s, i, input).accounts[i] == to;
  }

  lemma EditEffect(siteStatus: string, acc: Account, input: PutInput)
    requires Sound(siteStatus, acc) && NoMarker(input.written, input.deleted)
    ensures Put(acc, input).siteId == acc.siteId
    ensures Sound(siteStatus, Put(acc, input)) <==> SafeEdit(siteStatus, acc, input)
  {
    hide Trim, Lower;
    PlainStatuses();
    MarkerKept(acc.extra, input.written, input.deleted);
    MarkerDropped(Decoded(acc.extra));
    MarkerDropped((Decoded(acc.extra) - input.deleted) + input.written);
  }

  const UNCHANGED := PutInput(None, None, None, None, false, map[], {})

  /** Requests that break them on an active site: a marker put on its account, even together with the status
      "disabled", and a configuration set to the literal null. */
  lemma RawEditsBreakInv()
    ensures var s := Sys(map[1 := ACTIVE], [Account(1, Some(ACTIVE), ConfigText.Object(map[]))]);
      var marked := ConfigText.Object(map[ARCHIVED_BY_SITE := Bool(true)]);
      && Inv(s)
      && !Inv(Edited(s, 0, UNCHANGED.(status := Some(DISABLED), raw := Some(marked))))
      && !Inv(Edited(s, 0, UNCHANGED.(raw := Some(NullLiteral))))
  {
    var s := Sys(map[1 := ACTIVE], [Account(1, Some(ACTIVE), ConfigText.Object(map[]))]);
    EditKeepsInvIff(s, 0, UNCHANGED.(raw := Some(NullLiteral)));
    var marked := ConfigText.Object(map[ARCHIVED_BY_SITE := Bool(true)]);
    EditKeepsInvIff(s, 0, UNCHANGED.(status := Some(DISABLED), raw := Some(marked)));
  }

  /** Requests that break them on a disabled site with an archived account: a status that is null, one that
      is false and stored as "0", and a member "Status" that holds "active". */
  lemma ColumnEditsBreakInv()
    ensures var s := Sys(map[1 := DISABLED], [ARCHIVED_ACCOUNT]);
      && Inv(s)
      && !Inv(Edited(s, 0, UNCHANGED.(column := Some(None))))
      && !Inv(Edited(s, 0, UNCHANGED.(column := Some(Some("0")))))
      && !Inv(Edited(s, 0, UNCHANGED.(column := Some(Some(ACTIVE)))))
  {
    var s := Sys(map[1 := DISABLED], [ARCHIVED_ACCOUNT]);
    EditKeepsInvIff(s, 0, UNCHANGED.(column := Some(None)));
    EditKeepsInvIff(s, 0, UNCHANGED.(column := Some(Some("0"))));
    EditKeepsInvIff(s, 0, UNCHANGED.(column := Some(Some(ACTIVE))));
  }

  const ARCHIVED_ACCOUNT := Account(1, Some(DISABLED), ConfigText.Object(map[ARCHIVED_BY_SITE := Bool(true)]))

  lemma UserDrivenEffect(acc: Account, status: string)
    requires !acc.extra.NullLiteral?
    ensures var to := UserDriven(acc, status);
      to.siteId == acc.siteId && !to.extra.NullLiteral? && !IsAccountArchived(to.extra)
  {
    if IsAccountArchived(acc.extra) {
      MergedUnmarks(acc.extra);
    }
  }

  lemma CreatedEffect(sites: map<int, string>, siteId: int, status: string, cfg: Object)
    requires siteId in sites && NoMarker(cfg, {})
    ensures var to := Created(sites, siteId, status, cfg);
      && to.siteId == siteId && !to.extra.NullLiteral? && MarkedIsDisabled(to)
      && (IsAccountArchived(to.extra) <==> sites[siteId] == DISABLED)
  {
    hide Trim, Lower;
    assert ARCHIVED_BY_SITE in MARKERS;
  }

  lemma HealthEffect(acc: Account, health: Value)
    requires !acc.extra.NullLiteral?
    ensures var to := WithHealth(acc, health);
      && to.siteId == acc.siteId && to.status == acc.status && !to.extra.NullLiteral?
      && IsAccountArchived(to.extra) == IsAccountArchived(acc.extra)
  {
    assert RUNTIME_HEALTH !in MARKERS;
    MarkerKept(acc.extra, map[RUNTIME_HEALTH := health], {});
  }

  /** A recorded health is there to be read, and no other key changed. */
  lemma HealthIsRecorded(acc: Account, siteStatus: string, finding: Finding)
    requires !acc.extra.NullLiteral?
    ensures var to := JobDone(acc, siteStatus, finding);
      && to.extra.Object? && to.siteId == acc.siteId
      && "runtimeHealth" in to.extra.cfg && to.extra.cfg["runtimeHealth"] == finding.health
      && to.extra.cfg - {"runtimeHealth"} == Decoded(acc.extra) - {"runtimeHealth"}
  {
    var to := JobDone(acc, siteStatus, finding);
    assert to.extra.cfg == (Decoded(acc.extra) - {}) + map["runtimeHealth" := finding.health];
  }

  ghost predicate SameKeys(a: Object, b: Object, but: set<string>) {
    forall k :: k !in but ==> (k in a <==> k in b) && (k in a ==> a[k] == b[k])
  }

  /** Choosing a status, logging in, refreshing and editing single keys leave all other keys alone, but for
      the two markers; what they write is there. */
  lemma OtherKeysSurvive(acc: Account, status: string, cfg: Object, input: PutInput)
    requires !acc.extra.NullLiteral?
    ensures var markers := {"archivedBySite", "archivedPrevStatus"};
      && SameKeys(Decoded(acc.extra), Decoded(UserDriven(acc, status).extra), markers)
      && SameKeys(Decoded(acc.extra), Decoded(LoggedIn(acc, cfg).extra), markers + cfg.Keys)
      && SameKeys(cfg, Decoded(LoggedIn(acc, cfg).extra), Decoded(acc.extra).Keys)
      && (input.raw.None? && input.rawColumn.None? && input.edits ==>
            && SameKeys(Decoded(acc.extra), Decoded(Put(acc, input).extra),
                        markers + input.written.Keys + input.deleted)
            && forall k :: k in input.written && k !in markers ==>
                 k in Decoded(Put(acc, input).extra) && Decoded(Put(acc, input).extra)[k] == input.written[k])
      && (input.raw.None? && input.rawColumn.None? && !input.edits ==>
            SameKeys(Decoded(acc.extra), Decoded(Put(acc, input).extra), markers))
  {
    hide Trim, NormalizeAccountStatus;
    if IsAccountArchived(acc.extra) {
      MergedUnmarks(acc.extra);
    }
  }

  predicate Possible(s: Sys, run: seq<Action>)
    decreases |run|
  {
    run == [] || (Allowed(s, run[0]) && Possible(Apply(s, run[0]), run[1..]))
  }

  function After(s: Sys, run: seq<Action>): Sys
    requires Possible(s, run)
    decreases |run|
  {
    if run == [] then s else After(Apply(s, run[0]), run[1..])
  }

  /** In every reachable state a marked account is disabled, and an active site has no marked account. */
  lemma {:induction false} RunKeepsInv(s: Sys, run: seq<Action>)
    requires Inv(s) && Possible(s, run)
    ensures Inv(After(s, run))
    decreases |run|
  {
    hide Inv, Allowed, Apply;
    if run != [] {
      StepKeepsInv(s, run[0]);
      RunKeepsInv(Apply(s, run[0]), run[1..]);
    }
  }

  // ---- What a user asked for ----

  /** An explicit choice is what the account is meant to be from then on, whatever the site did before. */
  lemma UserChoiceWins(acc: Account, status: string)
    requires !acc.extra.NullLiteral?
    ensures Intended(UserDriven(acc, status)) == NormalizeAccountStatus(Some(status))
  {
    hide NormalizeAccountStatus;
    UserDrivenEffect(acc, status);
  }

  /** So is a status changed by an edit of an account, archived or not. */
  lemma EditedStatusWins(acc: Account, input: PutInput)
    requires ChangesStatus(acc, input) && input.column.None? && input.rawColumn.None?
    requires input.raw.None? && NoMarker(input.written, input.deleted)
    ensures Intended(Put(acc, input)) == NormalizeAccountStatus(Some(Trim(input.status.value)))
  {
    hide Trim, NormalizeAccountStatus;
    if IsAccountArchived(acc.extra) {
      StatusChangeUnmarks(acc, input);
    } else {
      MarkerKept(acc.extra, input.written, input.deleted);
      MarkerDropped(Decoded(acc.extra));
      MarkerDropped((Decoded(acc.extra) - input.deleted) + input.written);
    }
  }

  /** An edit that repeats the status of an archived account leaves it archived with its snapshot. */
  lemma ResavingKeepsArchive(acc: Account, input: PutInput)
    requires input.status.Some? && !ChangesStatus(acc, input)
    requires input.raw.None? && input.rawColumn.None? && NoMarker(input.written, input.deleted)
    requires IsAccountArchived(acc.extra)
    ensures IsAccountArchived(Put(acc, input).extra) && Intended(Put(acc, input)) == Intended(acc)
  {
    hide Trim, Lower;
    MarkerKept(acc.extra, input.written, input.deleted);
    assert ARCHIVED_PREV_STATUS in MARKERS;
    assert StringAt((Decoded(acc.extra) - input.deleted) + input.written, ARCHIVED_PREV_STATUS)
        == StringAt(Decoded(acc.extra), ARCHIVED_PREV_STATUS);
  }

  /** An account created under a disabled site comes back with the status that was asked for, if that was
      expired, and as active otherwise. */
  lemma CreatedComesBack(sites: map<int, string>, siteId: int, status: string, cfg: Object)
    requires siteId in sites && sites[siteId] == DISABLED && NoMarker(cfg, {})
    ensures var acc := Created(sites, siteId, status, cfg);
      && NormalizeAccountStatus(acc.status) == DISABLED
      && Target(acc, RestoreMove(acc)).status == Some(if Lower(Trim(status)) == EXPIRED then EXPIRED else ACTIVE)
      && !IsAccountArchived(Target(acc, RestoreMove(acc)).extra)
  {
    hide Trim, Lower;
    PlainStatuses();
    CreatedEffect(sites, siteId, status, cfg);
    var acc := Created(sites, siteId, status, cfg);
    assert ARCHIVED_PREV_STATUS in MARKERS;
    assert StringAt(Decoded(acc.extra), ARCHIVED_PREV_STATUS)
        == if Lower(Trim(status)) == EXPIRED then EXPIRED else ACTIVE;
    RestoreUnmarks(acc);
  }

  // ---- Background jobs ----

  predicate Background(a: Action) {
    a.Job? || a.Refresh?
  }

  /** No job moves an account into disabled, nor out of it: a stored status "disabled" stays, and only
      such a status - or the site's - holds off the check-in. */
  lemma JobsKeepDisabled(s: Sys, a: Action, i: nat)
    requires Background(a) && Allowed(s, a) && i < |s.accounts|
    ensures var was, now := s.accounts[i].status, Apply(s, a).accounts[i].status;
      && (was == Some(DISABLED) <==> now == Some(DISABLED))
      && (NormalizeAccountStatus(now) == DISABLED ==> NormalizeAccountStatus(was) == DISABLED)
      && (IsAccountArchived(s.accounts[i].extra) == IsAccountArchived(Apply(s, a).accounts[i].extra))
  {
    hide Trim, Lower, IsAccountArchived;
    PlainStatuses();
    match a
    case Job(j, finding) => {
      if Writable(s.accounts[j]) {
        HealthEffect(s.accounts[j], finding.health);
      }
    }
    case Refresh(j, written, deleted) => {
      MarkerKept(s.accounts[j].extra, written, deleted);
    }
  }

  lemma {:induction false} BackgroundRunKeepsDisabled(s: Sys, run: seq<Action>, i: nat)
    requires Possible(s, run) && i < |s.accounts|
    requires forall k :: 0 <= k < |run| ==> Background(run[k])
    ensures i < |After(s, run).accounts|
    ensures s.accounts[i].status == Some(DISABLED) <==> After(s, run).accounts[i].status == Some(DISABLED)
    decreases |run|
  {
    hide NormalizeAccountStatus, IsAccountArchived, WithHealth;
    if run != [] {
      assert Background(run[0]);
      JobsKeepDisabled(s, run[0], i);
      BackgroundRunKeepsDisabled(Apply(s, run[0]), run[1..], i);
    }
  }

  /** A status that only normalizes to disabled is lost to a check-in with an expired token, exactly if
      the site is not disabled and the status is not literally "disabled". */
  lemma SpelledDifferentlyIff(acc: Account, siteStatus: string, health: Value)
    requires !acc.extra.NullLiteral? && NormalizeAccountStatus(acc.status) == DISABLED
    ensures NormalizeAccountStatus(JobDone(acc, siteStatus, TokenExpired(health)).status) == DISABLED
       <==> siteStatus == DISABLED || acc.status == Some(DISABLED)
  {
    hide Trim, Lower;
    PlainStatuses();
  }

  // ---- Where the invariants need their hypotheses ----

  /** Activating a site leaves it without marked accounts exactly if it was disabled right before, or had
      none: after any other status in between they stay archived until the site is disabled and enabled
      once more. */
  lemma ActivationClearsIff(s: Sys, siteId: int)
    requires siteId in s.sites && NoNull(s)
    ensures var s' := SiteUpdated(s, siteId, Some(ACTIVE), None, _ => true).0;
      (forall i :: 0 <= i < |s'.accounts| && s'.accounts[i].siteId == siteId
         ==> !IsAccountArchived(s'.accounts[i].extra))
      <==> || s.sites[siteId] == DISABLED
           || (forall i :: 0 <= i < |s.accounts| && s.accounts[i].siteId == siteId
                 ==> !IsAccountArchived(s.accounts[i].extra))
  {
    hide Cascaded, ArchivedPrevStatus, IsAccountArchived, RestoreMove, ArchiveMove;
    var s' := SiteUpdated(s, siteId, Some(ACTIVE), None, _ => true).0;
    if s.sites[siteId] == DISABLED {
      NeverEndsEarly(s.accounts, siteId, false);
      forall i | 0 <= i < |s'.accounts| && s'.accounts[i].siteId == siteId
        ensures !IsAccountArchived(s'.accounts[i].extra)
      {
        EachAt(Toggle(false), s.accounts, siteId, i);
        RestoreUnmarks(s.accounts[i]);
      }
    }
  }

  lemma RestoreUnmarks(acc: Account)
    ensures var to := Target(acc, RestoreMove(acc)); !IsAccountArchived(to.extra) && to.siteId == acc.siteId
  {
    hide ArchivedPrevStatus;
    if acc.extra.Object? {
      MergedUnmarks(acc.extra);
    }
  }

  /** Disabling the site would leave its accounts alone: they are archived or disabled already. */
  predicate Settled(accounts: seq<Account>, siteId: int) {
    forall i :: 0 <= i < |accounts| && accounts[i].siteId == siteId ==> ArchiveMove(accounts[i]).Keep?
  }

  lemma {:induction false} SettledStays(accounts: seq<Account>, siteId: int, ok: nat -> bool, k: nat)
    requires k <= |accounts| && Settled(accounts, siteId)
    ensures Cascaded(Toggle(true), accounts, siteId, ok, k) == Cascade(accounts, 0, Completed)
  {
    hide ArchiveMove;
    if k > 0 {
      SettledStays(accounts, siteId, ok, k - 1);
    }
  }

  /** disabled, any third status, active: every account stays as it is on an active site, archived or not.
      Disabling the site once more brings back the state before the detour, so that activating it then
      restores what it would have restored at once. */
  lemma DetourStrandsAccount(s: Sys, siteId: int, between: string, ok: nat -> bool)
    requires siteId in s.sites && s.sites[siteId] == DISABLED && between !in {ACTIVE, DISABLED}
    requires Settled(s.accounts, siteId)
    ensures var paused := SiteUpdated(s, siteId, Some(between), None, ok).0;
      var stranded := SiteUpdated(paused, siteId, Some(ACTIVE), None, ok).0;
      && stranded == s.(sites := s.sites[siteId := ACTIVE])
      && SiteUpdated(stranded, siteId, Some(DISABLED), None, ok) == (s, Completed)
  {
    hide Cascaded, Settled;
    SettledStays(s.accounts, siteId, ok, |s.accounts|);
    assert DISABLED != ACTIVE;
    var stranded := s.(sites := s.sites[siteId := ACTIVE]);
    assert stranded.sites[siteId := DISABLED] == s.sites;
    assert s.sites[siteId := between][siteId := ACTIVE] == stranded.sites;
  }

  /** A site status stored past the rules cascades nothing: writing "active" so leaves a site without marked
      accounts exactly if it had none. */
  lemma ColumnActivationIff(s: Sys, siteId: int)
    requires siteId in s.sites
    ensures var s' := SiteUpdated(s, siteId, None, Some(ACTIVE), _ => true).0;
      && s'.sites[siteId] == ACTIVE
      && ((forall i :: 0 <= i < |s'.accounts| && s'.accounts[i].siteId == siteId
             ==> !IsAccountArchived(s'.accounts[i].extra))
          <==> (forall i :: 0 <= i < |s.accounts| && s.accounts[i].siteId == siteId
                  ==> !IsAccountArchived(s.accounts[i].extra)))
  {
  }

  /** PUT {"status": null} on an archived account: marked, yet no longer disabled. */
  lemma NullStatusBreaksMarker()
    ensures MarkedIsDisabled(ARCHIVED_ACCOUNT)
    ensures !MarkedIsDisabled(Put(ARCHIVED_ACCOUNT, UNCHANGED.(column := Some(None))))
  {
  }
}
