/** Accounts refine a plan of intended statuses: whatever sites, users and jobs do, the stored rows show
    what the plan says (db/archive.go, handler/site.go, handler/account.go, service/checkin.go). */
module IntentRuns {
  import opened Text
  import opened Json
  import opened Archive
  import opened AccountStatus
  import opened AccountRuns

  // ---- The plan ----

  /** What an account is meant to be, and whether its site's disabling hides it for now. */
  datatype Want = Want(siteId: int, intent: string, archived: bool)

  datatype Plan = Plan(sites: map<int, string>, wants: seq<Want>)

  /** The status to be seen. */
  function Shown(w: Want): string {
    if w.archived then DISABLED else w.intent
  }

  /** Toggling a site touches no intent. */
  function Hidden(w: Want, disable: bool): Want {
    w.(archived := disable && (w.archived || w.intent != DISABLED))
  }

  /** A different text is a new intent, the status already shown is none; what is stored past the rules is
      one unless the account stays archived. */
  function Reworded(w: Want, input: PutInput): Want {
    var asked :=
      if input.status.Some? && Trim(input.status.value) != Shown(w) then Want(w.siteId, Trim(input.status.value), false)
      else w;
    if input.column.None? || asked.archived then asked
    else asked.(intent := if input.column.value.Some? then input.column.value.value else ACTIVE)
  }

  /** Jobs leave disabled accounts and sites alone, and move between active and expired. */
  function Observed(w: Want, siteStatus: string, finding: Finding): Want {
    if siteStatus == DISABLED || Shown(w) == DISABLED then w
    else if finding.Healthy? && w.intent == EXPIRED then w.(intent := ACTIVE)
    else if finding.TokenExpired? then w.(intent := EXPIRED)
    else w
  }

  function NewWant(siteStatus: string, siteId: int, status: string): Want {
    if siteStatus == DISABLED then Want(siteId, if Lower(Trim(status)) == EXPIRED then EXPIRED else ACTIVE, true)
    else Want(siteId, if Trim(status) == "" then ACTIVE else Trim(status), false)
  }

  /** Disabling a site hides its accounts, activating a disabled one shows them. A request that repeats the
      status of a site does neither, a batch that disables it again does. */
  predicate Moves(before: string, status: string, batch: bool) {
    (status == DISABLED && (batch || before != DISABLED)) || (status == ACTIVE && before == DISABLED)
  }

  function SitePlanned(p: Plan, siteId: int, status: string, batch: bool): (q: Plan)
    requires siteId in p.sites
    ensures q.sites.Keys == p.sites.Keys
  {
    Plan(p.sites[siteId := status],
         seq(|p.wants|, i requires 0 <= i < |p.wants| =>
               if p.wants[i].siteId == siteId && Moves(p.sites[siteId], status, batch)
               then Hidden(p.wants[i], status == DISABLED) else p.wants[i]))
  }

  /** A batch after its first `k` sites: unknown ones and those it cannot write are left alone. */
  function BatchPlanned(p: Plan, ids: seq<int>, status: string, refused: set<nat>, k: nat): (q: Plan)
    requires k <= |ids|
    ensures q.sites.Keys == p.sites.Keys
  {
    if k == 0 then p
    else
      var q := BatchPlanned(p, ids, status, refused, k - 1);
      if ids[k - 1] in p.sites && k - 1 !in refused then SitePlanned(q, ids[k - 1], status, true) else q
  }

  predicate InPlan(p: Plan, a: Action) {
    match a
    case UpdateSite(siteId, _, _) => siteId in p.sites
    case BatchSites(_, _, _) => true
    case Create(siteId, _, _) => siteId in p.sites
    case Job(i, _) => i < |p.wants| && p.wants[i].siteId in p.sites
    case _ => a.i < |p.wants|
  }

  function Planned(p: Plan, a: Action): Plan
    requires InPlan(p, a)
  {
    match a
    case UpdateSite(siteId, text, column) =>
      var q := if text.Some? then SitePlanned(p, siteId, text.value, false) else p;
      if column.Some? then q.(sites := q.sites[siteId := column.value]) else q
    case BatchSites(ids, status, refused) => BatchPlanned(p, ids, status, refused, |ids|)
    case EditAccount(i, input) => p.(wants := p.wants[i := Reworded(p.wants[i], input)])
    case SetStatus(i, status) => p.(wants := p.wants[i := Want(p.wants[i].siteId, status, false)])
    case Create(siteId, status, _) => p.(wants := p.wants + [NewWant(p.sites[siteId], siteId, status)])
    case Login(i, _) => p.(wants := p.wants[i := Want(p.wants[i].siteId, ACTIVE, false)])
    case Job(i, finding) => p.(wants := p.wants[i := Observed(p.wants[i], p.sites[p.wants[i].siteId], finding)])
    case Refresh(i, _, _) =>
      p.(wants := p.wants[i := if Shown(p.wants[i]) == EXPIRED then p.wants[i].(intent := ACTIVE) else p.wants[i]])
  }

  // ---- The rows as a plan ----

  function WantOf(acc: Account): (w: Want)
    ensures w.siteId == acc.siteId && w.archived == IsAccountArchived(acc.extra)
  {
    Want(acc.siteId, Intended(acc), IsAccountArchived(acc.extra))
  }

  function PlanOf(s: Sys): Plan {
    Plan(s.sites, seq(|s.accounts|, i requires 0 <= i < |s.accounts| => WantOf(s.accounts[i])))
  }

  predicate PlainStatus(status: string) {
    status in {ACTIVE, EXPIRED, DISABLED}
  }

  /** A status as the program itself writes it. */
  predicate Plain(acc: Account) {
    acc.status.Some? ==> PlainStatus(acc.status.value)
  }

  ghost predicate AllPlain(s: Sys) {
    forall i :: 0 <= i < |s.accounts| ==> Plain(s.accounts[i])
  }

  /** Users ask for these statuses only, and store no raw configuration. */
  predicate PlainAction(a: Action) {
    match a
    case EditAccount(_, input) =>
      && input.raw.None? && input.rawColumn.None?
      && (input.status.Some? ==> PlainStatus(Trim(input.status.value)))
      && (input.column.Some? && input.column.value.Some? ==> PlainStatus(input.column.value.value))
    case SetStatus(_, status) => PlainStatus(status)
    case Create(_, status, _) => Trim(status) == "" || PlainStatus(Trim(status))
    case _ => true
  }

  lemma PlainIsNormal(status: string)
    requires PlainStatus(status)
    ensures NormalizeAccountStatus(Some(status)) == status
  {
    hide Trim, Lower;
    PlainStatuses();
  }

  /** Keys other than the markers say nothing about what is wanted. */
  lemma OtherKeysSayNothing(acc: Account, written: Object, deleted: set<string>)
    requires NoMarker(written, deleted)
    ensures WantOf(acc.(extra := ConfigText.Object((Decoded(acc.extra) - deleted) + written))) == WantOf(acc)
  {
    hide Trim, Lower, NormalizeAccountStatus;
    MarkerKept(acc.extra, written, deleted);
    assert ARCHIVED_PREV_STATUS in MARKERS;
    var cfg := (Decoded(acc.extra) - deleted) + written;
    assert StringAt(cfg, ARCHIVED_PREV_STATUS) == StringAt(Decoded(acc.extra), ARCHIVED_PREV_STATUS);
  }

  lemma UnmarkedWant(acc: Account)
    requires !IsAccountArchived(acc.extra) && Plain(acc)
    ensures WantOf(acc) == Want(acc.siteId, if acc.status.Some? then acc.status.value else ACTIVE, false)
  {
    hide NormalizeAccountStatus, IsAccountArchived;
    if acc.status.Some? {
      PlainIsNormal(acc.status.value);
    } else {
      assert NormalizeAccountStatus(None) == ACTIVE by { NoStatusIsActive(); }
    }
  }

  lemma NoStatusIsActive()
    ensures NormalizeAccountStatus(None) == ACTIVE
  {
  }

  // ---- One action ----

  lemma MoveRefines(acc: Account, disable: bool)
    requires !acc.extra.NullLiteral? && Plain(acc) && MarkedIsDisabled(acc)
    ensures var to := Target(acc, Toggle(disable)(acc)); Plain(to) && WantOf(to) == Hidden(WantOf(acc), disable)
  {
    hide NormalizeAccountStatus, ArchivedPrevStatus;
    var status := NormalizeAccountStatus(acc.status);
    if !IsAccountArchived(acc.extra) {
      UnmarkedWant(acc);
    }
    PrevIsPlain(acc.extra);
    if disable {
      ArchiveKeepsIntentIff(acc);
      MergedMarks(acc.extra, status);
    } else {
      RestoreKeepsIntent(acc);
    }
  }

  lemma PrevIsPlain(extra: ConfigText)
    ensures PlainStatus(ArchivedPrevStatus(extra)) && ArchivedPrevStatus(extra) != DISABLED
  {
    hide Trim, Lower;
  }

  lemma ChangeRefines(s: Sys, siteId: int, status: string, always: bool)
    requires Inv(s) && AllPlain(s) && siteId in s.sites
    ensures var s' := SiteChanged(s, siteId, status, always, _ => true).0;
      AllPlain(s') && PlanOf(s') == SitePlanned(PlanOf(s), siteId, status, always)
  {
    hide SiteChanged, IsAccountArchived, MarkedIsDisabled, WantOf, Plain, Hidden, Toggle, CascadeOf;
    var s' := SiteChanged(s, siteId, status, always, _ => true).0;
    NotNull(s);
    ChangedSites(s, siteId, status, always);
    forall i | 0 <= i < |s.accounts|
      ensures Plain(s'.accounts[i])
      ensures WantOf(s'.accounts[i])
           == if s.accounts[i].siteId == siteId && Moves(s.sites[siteId], status, always)
              then Hidden(WantOf(s.accounts[i]), status == DISABLED) else WantOf(s.accounts[i])
    {
      ChangedAt(s, siteId, status, always, i);
      MovesIff(s.sites[siteId], status, always);
      MoveRefines(s.accounts[i], status == DISABLED);
    }
    assert PlanOf(s').wants == SitePlanned(PlanOf(s), siteId, status, always).wants;
  }

  /** The plan's rule for when a site hides or shows its accounts is the handlers'. */
  lemma MovesIff(before: string, status: string, always: bool)
    ensures CascadeOf(before, status, always)
         == if Moves(before, status, always) then Some(status == DISABLED) else None
  {
  }

  lemma SiteEditRefines(s: Sys, siteId: int, text: Option<string>, column: Option<string>)
    requires Inv(s) && AllPlain(s) && siteId in s.sites
    ensures var a, s' := UpdateSite(siteId, text, column), SiteUpdated(s, siteId, text, column, _ => true).0;
      AllPlain(s') && PlanOf(s') == Planned(PlanOf(s), a)
  {
    hide SiteChanged, WantOf, Plain, SitePlanned, Inv;
    if text.Some? {
      ChangeRefines(s, siteId, text.value, false);
    }
    var s' := SiteUpdated(s, siteId, text, column, _ => true).0;
    var u := if text.Some? then SiteChanged(s, siteId, text.value, false, _ => true).0 else s;
    assert s'.accounts == u.accounts;
    assert PlanOf(s').wants == PlanOf(u).wants;
  }

  lemma {:induction false} BatchRefines(s: Sys, ids: seq<int>, status: string, refused: set<nat>, k: nat)
    requires Inv(s) && AllPlain(s) && status in {ACTIVE, DISABLED} && k <= |ids|
    ensures var s' := Batched(s, ids, status, WritesBut(refused), k).state;
      AllPlain(s') && PlanOf(s') == BatchPlanned(PlanOf(s), ids, status, refused, k)
  {
    hide Inv, SiteChanged, AllPlain, PlanOf, SitePlanned;
    if k > 0 {
      BatchRefines(s, ids, status, refused, k - 1);
      BatchKeepsInv(s, ids, status, refused, k - 1);
      var before := Batched(s, ids, status, WritesBut(refused), k - 1);
      SitesOfPlan(before.state);
      if ids[k - 1] in before.state.sites {
        ChangeRefines(before.state, ids[k - 1], status, true);
        ChangeKeepsInv(before.state, ids[k - 1], status, true);
        SameWrites(before.state, ids[k - 1], status, refused, k - 1);
      }
    }
  }

  lemma SitesOfPlan(s: Sys)
    ensures PlanOf(s).sites == s.sites
  {
  }

  lemma EditRefines(siteStatus: string, acc: Account, input: PutInput)
    requires Sound(siteStatus, acc) && Plain(acc) && SafeEdit(siteStatus, acc, input)
    requires NoMarker(input.written, input.deleted) && PlainAction(EditAccount(0, input))
    ensures Plain(Put(acc, input)) && WantOf(Put(acc, input)) == Reworded(WantOf(acc), input)
  {
    hide Trim, NormalizeAccountStatus, IsAccountArchived, ArchivedPrevStatus, WantOf;
    var to := Put(acc, input);
    var cfg := if input.edits then (Decoded(acc.extra) - input.deleted) + input.written else Decoded(acc.extra);
    MarkerDropped(cfg);
    OtherKeysSayNothing(acc, input.written, input.deleted);
    MarkerKept(acc.extra, input.written, input.deleted);
    ShownIsStatus(acc);
    KeyOfMarked(acc.extra);
    if !IsAccountArchived(acc.extra) {
      UnmarkedWant(acc);
    }
    if !IsAccountArchived(to.extra) {
      UnmarkedWant(to);
    } else {
      SameWant(acc.(extra := to.extra), to);
    }
  }

  /** The status of an archived account does not matter. */
  lemma SameWant(a: Account, b: Account)
    requires IsAccountArchived(a.extra) && a.extra == b.extra && a.siteId == b.siteId
    ensures WantOf(a) == WantOf(b)
  {
  }

  lemma KeyOfMarked(extra: ConfigText)
    ensures IsAccountArchived(extra) ==> ARCHIVED_BY_SITE in Decoded(extra)
  {
  }

  lemma ShownIsStatus(acc: Account)
    requires Plain(acc) && MarkedIsDisabled(acc)
    ensures Shown(WantOf(acc)) == NormalizeAccountStatus(acc.status)
  {
    hide NormalizeAccountStatus, IsAccountArchived, ArchivedPrevStatus;
    PlainIsNormal(DISABLED);
  }

  lemma UserDrivenRefines(acc: Account, status: string)
    requires !acc.extra.NullLiteral? && PlainStatus(status)
    ensures Plain(UserDriven(acc, status)) && WantOf(UserDriven(acc, status)) == Want(acc.siteId, status, false)
  {
    hide NormalizeAccountStatus, IsAccountArchived, WantOf;
    UserDrivenEffect(acc, status);
    UnmarkedWant(UserDriven(acc, status));
  }

  lemma LoginRefines(acc: Account, cfg: Object)
    requires NoMarker(cfg, {})
    ensures Plain(LoggedIn(acc, cfg)) && WantOf(LoggedIn(acc, cfg)) == Want(acc.siteId, ACTIVE, false)
  {
    hide NormalizeAccountStatus, IsAccountArchived, WantOf;
    var rest := Decoded(acc.extra) - MARKERS;
    MarkerDropped(Decoded(acc.extra));
    MarkerKept(ConfigText.Object(rest), cfg, {});
    assert rest - {} == rest;
    UnmarkedWant(LoggedIn(acc, cfg));
  }

  lemma CreateRefines(sites: map<int, string>, siteId: int, status: string, cfg: Object)
    requires siteId in sites && NoMarker(cfg, {}) && PlainAction(Create(siteId, status, cfg))
    ensures var acc := Created(sites, siteId, status, cfg);
      Plain(acc) && WantOf(acc) == NewWant(sites[siteId], siteId, status)
  {
    hide Trim, Lower, NormalizeAccountStatus, IsAccountArchived, WantOf;
    var acc := Created(sites, siteId, status, cfg);
    CreatedEffect(sites, siteId, status, cfg);
    if sites[siteId] == DISABLED {
      var requested := if Lower(Trim(status)) == EXPIRED then EXPIRED else ACTIVE;
      PlainStatuses();
      assert ARCHIVED_PREV_STATUS in MARKERS;
      assert StringAt(Decoded(acc.extra), ARCHIVED_PREV_STATUS) == requested;
      ArchivedWant(acc, requested);
    } else {
      UnmarkedWant(acc);
    }
  }

  lemma ArchivedWant(acc: Account, snapshot: string)
    requires IsAccountArchived(acc.extra) && snapshot in {ACTIVE, EXPIRED}
    requires StringAt(Decoded(acc.extra), ARCHIVED_PREV_STATUS) == snapshot
    ensures WantOf(acc) == Want(acc.siteId, snapshot, true)
  {
    hide Trim, Lower;
    PlainStatuses();
  }

  lemma JobRefines(acc: Account, siteStatus: string, finding: Finding)
    requires Sound(siteStatus, acc) && Plain(acc)
    ensures Plain(JobDone(acc, siteStatus, finding))
    ensures WantOf(JobDone(acc, siteStatus, finding)) == Observed(WantOf(acc), siteStatus, finding)
  {
    hide NormalizeAccountStatus, IsAccountArchived, ArchivedPrevStatus, WantOf, Trim, Lower;
    var health := map[RUNTIME_HEALTH := finding.health];
    assert RUNTIME_HEALTH !in MARKERS;
    OtherKeysSayNothing(acc, health, {});
    MarkerKept(acc.extra, health, {});
    var mid, to := WithHealth(acc, finding.health), JobDone(acc, siteStatus, finding);
    assert mid == acc.(extra := ConfigText.Object((Decoded(acc.extra) - {}) + health));
    StatusMatters(acc, mid, to);
  }

  lemma RefreshRefines(siteStatus: string, acc: Account, written: Object, deleted: set<string>)
    requires Sound(siteStatus, acc) && Plain(acc) && NoMarker(written, deleted)
    ensures var to := Refreshed(acc, written, deleted);
      && Plain(to)
      && WantOf(to) == if Shown(WantOf(acc)) == EXPIRED then WantOf(acc).(intent := ACTIVE) else WantOf(acc)
  {
    hide NormalizeAccountStatus, IsAccountArchived, ArchivedPrevStatus, WantOf, Trim, Lower;
    OtherKeysSayNothing(acc, written, deleted);
    MarkerKept(acc.extra, written, deleted);
    var mid := acc.(extra := ConfigText.Object((Decoded(acc.extra) - deleted) + written));
    StatusMatters(acc, mid, Refreshed(acc, written, deleted));
  }

  /** Three rows with the same marker, the middle one wanted like the first: what the statuses show. */
  lemma StatusMatters(acc: Account, mid: Account, to: Account)
    requires Plain(acc) && MarkedIsDisabled(acc) && acc.siteId == mid.siteId == to.siteId
    requires IsAccountArchived(acc.extra) == IsAccountArchived(mid.extra) && mid.extra == to.extra
    requires WantOf(mid) == WantOf(acc)
    ensures IsAccountArchived(acc.extra) ==> WantOf(to) == WantOf(acc) && acc.status == Some(DISABLED)
    ensures WantOf(acc).archived == IsAccountArchived(acc.extra)
    ensures !IsAccountArchived(acc.extra) && Plain(to) ==>
      && WantOf(acc) == Want(acc.siteId, if acc.status.Some? then acc.status.value else ACTIVE, false)
      && WantOf(to) == Want(acc.siteId, if to.status.Some? then to.status.value else ACTIVE, false)
  {
    hide NormalizeAccountStatus, ArchivedPrevStatus;
    if IsAccountArchived(acc.extra) {
      SameWant(mid, to);
    } else {
      UnmarkedWant(acc);
      if Plain(to) {
        UnmarkedWant(to);
      }
    }
  }

  // ---- Over runs ----

  /** One step of the rows is one step of the plan. */
  lemma StepRefines(s: Sys, a: Action)
    requires Inv(s) && AllPlain(s) && Allowed(s, a) && PlainAction(a)
    ensures AllPlain(Apply(s, a)) && InPlan(PlanOf(s), a) && PlanOf(Apply(s, a)) == Planned(PlanOf(s), a)
  {
    hide WantOf, Plain, Trim, Lower, IsAccountArchived, Put, UserDriven, LoggedIn, JobDone, Refreshed, Created, Sound,
      Reworded, Observed, NewWant, SiteUpdated, Batched, SafeEdit, SafeSiteEdit, BatchPlanned, SitePlanned;
    var s', p := Apply(s, a), PlanOf(s);
    match a
    case UpdateSite(siteId, text, column) => {
      SiteEditRefines(s, siteId, text, column);
    }
    case BatchSites(ids, status, refused) => {
      BatchRefines(s, ids, status, refused, |ids|);
    }
    case EditAccount(i, input) => {
      EditRefines(s.sites[s.accounts[i].siteId], s.accounts[i], input);
      assert PlanOf(s').wants == Planned(p, a).wants;
    }
    case SetStatus(i, status) => {
      NotNull(s);
      UserDrivenRefines(s.accounts[i], status);
      assert PlanOf(s').wants == Planned(p, a).wants;
    }
    case Create(siteId, status, cfg) => {
      CreateRefines(s.sites, siteId, status, cfg);
      assert PlanOf(s').wants == Planned(p, a).wants;
    }
    case Login(i, cfg) => {
      LoginRefines(s.accounts[i], cfg);
      assert PlanOf(s').wants == Planned(p, a).wants;
    }
    case Job(i, finding) => {
      JobRefines(s.accounts[i], s.sites[s.accounts[i].siteId], finding);
      assert PlanOf(s').wants == Planned(p, a).wants;
    }
    case Refresh(i, written, deleted) => {
      RefreshRefines(s.sites[s.accounts[i].siteId], s.accounts[i], written, deleted);
      assert PlanOf(s').wants == Planned(p, a).wants;
    }
  }

  /** The plan after a run. */
  function PlannedRun(p: Plan, run: seq<Action>): Option<Plan>
    decreases |run|
  {
    if run == [] then Some(p)
    else if InPlan(p, run[0]) then PlannedRun(Planned(p, run[0]), run[1..])
    else None
  }

  /** Over every run of site toggles, edits, creations, logins and jobs, the rows show what the plan says. */
  lemma {:induction false} RunRefinesPlan(s: Sys, run: seq<Action>)
    requires Inv(s) && AllPlain(s) && Possible(s, run)
    requires forall k :: 0 <= k < |run| ==> PlainAction(run[k])
    ensures PlannedRun(PlanOf(s), run) == Some(PlanOf(After(s, run)))
    decreases |run|
  {
    hide Inv, AllPlain, Allowed, Apply, PlainAction, Planned, PlanOf, InPlan;
    if run != [] {
      StepRefines(s, run[0]);
      StepKeepsInv(s, run[0]);
      RunRefinesPlan(Apply(s, run[0]), run[1..]);
    }
  }

  // ---- What the plan guarantees ----

  predicate Automatic(a: Action) {
    a.UpdateSite? || a.BatchSites? || a.Job? || a.Refresh?
  }

  lemma {:induction false} BatchKeepsDisabled(
    p: Plan, ids: seq<int>, status: string, refused: set<nat>, k: nat, i: nat)
    requires k <= |ids| && i < |p.wants|
    ensures var q := BatchPlanned(p, ids, status, refused, k);
      |q.wants| == |p.wants| && (q.wants[i].intent == DISABLED <==> p.wants[i].intent == DISABLED)
  {
    if k > 0 {
      BatchKeepsDisabled(p, ids, status, refused, k - 1, i);
    }
  }

  /** While no user acts on accounts - sites toggled and jobs run in any order - an account meant to be
      disabled stays so, and no other becomes it. */
  lemma {:induction false} ManualDisableSurvives(p: Plan, run: seq<Action>, i: nat)
    requires i < |p.wants| && PlannedRun(p, run).Some?
    requires forall k :: 0 <= k < |run| ==> Automatic(run[k])
    ensures var q := PlannedRun(p, run).value;
      |q.wants| == |p.wants| && (q.wants[i].intent == DISABLED <==> p.wants[i].intent == DISABLED)
    decreases |run|
  {
    if run != [] {
      assert Automatic(run[0]);
      if run[0].BatchSites? {
        BatchKeepsDisabled(p, run[0].ids, run[0].status, run[0].refused, |run[0].ids|, i);
      }
      ManualDisableSurvives(Planned(p, run[0]), run[1..], i);
    }
  }

  /** And once the site is active, a row shows its intent. */
  lemma ActiveSiteShowsIntent(s: Sys, i: nat)
    requires Inv(s) && AllPlain(s) && i < |s.accounts| && s.sites[s.accounts[i].siteId] == ACTIVE
    ensures NormalizeAccountStatus(s.accounts[i].status) == WantOf(s.accounts[i]).intent
  {
    hide NormalizeAccountStatus, ArchivedPrevStatus;
  }
}
