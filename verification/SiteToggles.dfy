/** What a site request does to accounts: one site (handler/site.go:79-161) and a batch
    (handler/site.go:198-235). */
module SiteToggles {
  import opened Json
  import opened Archive
  import opened AccountStatus
  import opened AccountRuns

  // ---- What disabling and activating mean for an account ----

  /** Disabled by its site: archived unless it was disabled anyway, with what is wanted of it remembered. */
  ghost predicate HiddenBySite(acc: Account, to: Account) {
    && to.siteId == acc.siteId && SameOtherKeys(acc.extra, to.extra)
    && (MarkedIsDisabled(acc) ==> NormalizeAccountStatus(to.status) == "disabled")
    && (IsAccountArchived(to.extra) <==>
          IsAccountArchived(acc.extra) || NormalizeAccountStatus(acc.status) != "disabled")
    && (NormalizeAccountStatus(acc.status) in {"active", "expired"} || IsAccountArchived(acc.extra) ==>
          Intended(to) == Intended(acc))
    && (NormalizeAccountStatus(acc.status) == "disabled" ==> to == acc)
  }

  /** Brought back by its site: no longer archived, and showing what is wanted of it. */
  ghost predicate BroughtBack(acc: Account, to: Account) {
    && to.siteId == acc.siteId && SameOtherKeys(acc.extra, to.extra)
    && !IsAccountArchived(to.extra) && NormalizeAccountStatus(to.status) == Intended(acc)
    && (!IsAccountArchived(acc.extra) ==> to == acc)
  }

  lemma ArchivingHides(acc: Account)
    requires !acc.extra.NullLiteral?
    ensures HiddenBySite(acc, Target(acc, ArchiveMove(acc)))
  {
    hide NormalizeAccountStatus, ArchivedPrevStatus;
    ToggleOne(acc, true);
    ArchivedIff(acc);
    NormalOfDisabled();
    MergedMarks(acc.extra, NormalizeAccountStatus(acc.status));
  }

  lemma NormalOfDisabled()
    ensures NormalizeAccountStatus(Some(DISABLED)) == DISABLED
  {
    PlainStatuses();
  }

  lemma RestoringBringsBack(acc: Account)
    ensures BroughtBack(acc, Target(acc, RestoreMove(acc)))
  {
    hide NormalizeAccountStatus, ArchivedPrevStatus;
    RestoreKeepsIntent(acc);
    RestoreUnmarks(acc);
  }

  // ---- One site ----

  /** A request with a status of type text, all writes succeeding. A changed status "disabled" hides every
      account of the site, "active" after "disabled" brings every one back; any other status, a repeated one
      included, and any other site: nothing changes. */
  lemma SiteRequest(s: Sys, siteId: int, text: string, i: nat)
    requires siteId in s.sites && i < |s.accounts| && NoNull(s)
    ensures var (s', ending) := SiteUpdated(s, siteId, Some(text), None, _ => true);
      var before, acc := s.sites[siteId], s.accounts[i];
      && ending == Completed && s'.sites == s.sites[siteId := text] && |s'.accounts| == |s.accounts|
      && var to := s'.accounts[i];
         if acc.siteId == siteId && text == "disabled" && before != "disabled" then HiddenBySite(acc, to)
         else if acc.siteId == siteId && text == "active" && before == "disabled" then BroughtBack(acc, to)
         else to == acc
  {
    hide SiteChanged, HiddenBySite, BroughtBack, ArchiveMove, RestoreMove;
    ChangedAt(s, siteId, text, false, i);
    ArchivingHides(s.accounts[i]);
    RestoringBringsBack(s.accounts[i]);
  }

  // ---- A batch ----

  /** The ids of the first `k` that are known and whose site row can be written, or the other ones. */
  function Listed(s: Sys, ids: seq<int>, writes: nat -> Writes, k: nat, served: bool): seq<int>
    requires k <= |ids|
  {
    if k == 0 then []
    else
      Listed(s, ids, writes, k - 1, served)
      + if (ids[k - 1] in s.sites && writes(k - 1).site) == served then [ids[k - 1]] else []
  }

  /** Whatever account rows can be written, a cascade without null configurations does not panic. */
  lemma NoPanic(s: Sys, siteId: int, status: string, ok: nat -> bool)
    requires siteId in s.sites && NoNull(s)
    ensures var (s', ending) := SiteChanged(s, siteId, status, true, ok);
      ending != Panicked && NoNull(s') && s'.sites == s.sites[siteId := status] && |s'.accounts| == |s.accounts|
  {
    hide Cascaded, Toggle, Changed;
    var cascade := CascadeFor(s.sites[siteId], status);
    if cascade.Some? {
      MovesEitherWay(cascade.value);
      var c := Cascaded(Toggle(cascade.value), s.accounts, siteId, ok, |s.accounts|);
      var reached := CascadeIsExact(Toggle(cascade.value), s.accounts, siteId, ok, |s.accounts|);
      if reached < |s.accounts| {
        NullOnlyPanics(s.accounts[reached], cascade.value);
      }
      forall i | 0 <= i < |s.accounts| ensures !c.accounts[i].extra.NullLiteral? {
        MovedOrNot(s.accounts, siteId, cascade.value, ok, i);
        ToggledIsNotNull(s.accounts[i]);
      }
    }
  }

  lemma MovesEitherWay(disable: bool)
    ensures Archive.Moves(Toggle(disable))
  {
    hide ArchiveMove, RestoreMove;
    MovesChange();
  }

  /** Without null configurations a batch never panics, and whichever account rows can be written: it lists
      as succeeded, in order, exactly the known sites whose row can be written, all others as failed, and
      gives the status to exactly those that it lists as succeeded. */
  lemma {:induction false} BatchLists(s: Sys, ids: seq<int>, status: string, writes: nat -> Writes, k: nat)
    requires k <= |ids| && NoNull(s)
    ensures var r := Batched(s, ids, status, writes, k);
      && !r.panicked && NoNull(r.state) && |r.state.accounts| == |s.accounts|
      && r.succeeded == Listed(s, ids, writes, k, true) && r.failed == Listed(s, ids, writes, k, false)
      && r.state.sites.Keys == s.sites.Keys
      && forall id :: id in s.sites ==> r.state.sites[id] == if id in r.succeeded then status else s.sites[id]
  {
    hide SiteChanged, NoNull;
    if k > 0 {
      BatchLists(s, ids, status, writes, k - 1);
      var before := Batched(s, ids, status, writes, k - 1);
      if ids[k - 1] in before.state.sites {
        NoPanic(before.state, ids[k - 1], status, writes(k - 1).accounts);
      }
    }
  }

  /** The k-th site of a batch that does not panic. */
  lemma BatchStep(s: Sys, ids: seq<int>, status: string, writes: nat -> Writes, k: nat)
    requires k < |ids| && NoNull(s)
    ensures var before, r := Batched(s, ids, status, writes, k), Batched(s, ids, status, writes, k + 1);
      && NoNull(before.state) && before.state.sites.Keys == s.sites.Keys
      && (ids[k] in s.sites && writes(k).site ==>
            r.state == SiteChanged(before.state, ids[k], status, true, writes(k).accounts).0)
      && (!(ids[k] in s.sites && writes(k).site) ==> r.state == before.state)
  {
    hide SiteChanged, NoNull, Listed;
    BatchLists(s, ids, status, writes, k);
    BatchLists(s, ids, status, writes, k + 1);
  }

  /** Where the accounts of a site move in a batch, given the status of the site when its turn comes. */
  function MovedTo(acc: Account, before: string, status: string): Account {
    if status == DISABLED then Target(acc, ArchiveMove(acc))
    else if status == ACTIVE && before == DISABLED then Target(acc, RestoreMove(acc))
    else acc
  }

  lemma MovedOnce(acc: Account, before: string, status: string)
    requires !acc.extra.NullLiteral?
    ensures var to := MovedTo(acc, before, status); to.siteId == acc.siteId && MovedTo(to, status, status) == to
  {
    hide ArchiveMove, RestoreMove, SameOtherKeys;
    ToggleOne(acc, true);
    ToggleOne(acc, false);
    NullOnlyPanics(acc, true);
    MoveSettles(acc, true);
  }

  lemma ChangeMoves(s: Sys, siteId: int, status: string, ok: nat -> bool, i: nat)
    requires siteId in s.sites && i < |s.accounts| && NoNull(s) && forall a :: ok(a)
    ensures var s' := SiteChanged(s, siteId, status, true, ok).0;
      && |s'.accounts| == |s.accounts| && s'.sites == s.sites[siteId := status]
      && s'.accounts[i] == if s.accounts[i].siteId == siteId then MovedTo(s.accounts[i], s.sites[siteId], status)
                           else s.accounts[i]
  {
    hide SiteChanged, ArchiveMove, RestoreMove, NoNull;
    AllWritten(s, siteId, status, ok);
    ChangedAt(s, siteId, status, true, i);
  }

  /** What a batch leaves at an account, all writes of accounts succeeding: an id listed twice is served once. */
  lemma {:induction false} BatchMoves(s: Sys, ids: seq<int>, status: string, writes: nat -> Writes, k: nat, i: nat)
    requires k <= |ids| && NoNull(s) && i < |s.accounts| && forall j, a :: writes(j).accounts(a)
    ensures |Batched(s, ids, status, writes, k).state.accounts| == |s.accounts|
    ensures var acc, r := s.accounts[i], Batched(s, ids, status, writes, k).state;
      var served := acc.siteId in s.sites && acc.siteId in Listed(s, ids, writes, k, true);
      && r.accounts[i] == (if served then MovedTo(acc, s.sites[acc.siteId], status) else acc)
      && (acc.siteId in s.sites ==>
            acc.siteId in r.sites && r.sites[acc.siteId] == if served then status else s.sites[acc.siteId])
  {
    if k > 0 {
      hide SiteChanged, NoNull, MovedTo, Batched;
      BatchMoves(s, ids, status, writes, k - 1, i);
      BatchStep(s, ids, status, writes, k - 1);
      var before, acc := Batched(s, ids, status, writes, k - 1).state, s.accounts[i];
      NotNullAt(s, i);
      MovedOnce(acc, if acc.siteId in s.sites then s.sites[acc.siteId] else status, status);
      if ids[k - 1] in s.sites && writes(k - 1).site {
        ChangeMoves(before, ids[k - 1], status, writes(k - 1).accounts, i);
      }
    }
  }

  lemma {:induction false} ServedAreKnown(s: Sys, ids: seq<int>, writes: nat -> Writes, k: nat)
    requires k <= |ids|
    ensures forall id :: id in Listed(s, ids, writes, k, true) ==> id in s.sites
  {
    if k > 0 {
      ServedAreKnown(s, ids, writes, k - 1);
    }
  }

  lemma NotNullAt(s: Sys, i: nat)
    requires NoNull(s) && i < |s.accounts|
    ensures !s.accounts[i].extra.NullLiteral?
  {
  }

  lemma AllWritten(s: Sys, siteId: int, status: string, ok: nat -> bool)
    requires siteId in s.sites && forall a :: ok(a)
    ensures SiteChanged(s, siteId, status, true, ok) == SiteChanged(s, siteId, status, true, _ => true)
  {
    hide Toggle;
    SameCascade(s.accounts, siteId, ok, _ => true, |s.accounts|);
  }

  /** A batch "disabled" hides every account of the sites it lists as succeeded, a batch "active" brings back
      those of the ones that were disabled; all other accounts stay as they are. */
  lemma BatchRequest(s: Sys, ids: seq<int>, status: string, writes: nat -> Writes, i: nat)
    requires NoNull(s) && i < |s.accounts| && forall j, a :: writes(j).accounts(a)
    ensures |Batched(s, ids, status, writes, |ids|).state.accounts| == |s.accounts|
    ensures var r := Batched(s, ids, status, writes, |ids|);
      var acc, to := s.accounts[i], r.state.accounts[i];
      && (acc.siteId in r.succeeded ==> acc.siteId in s.sites)
      && if acc.siteId in r.succeeded && status == "disabled" then HiddenBySite(acc, to)
         else if acc.siteId in r.succeeded && status == "active" && s.sites[acc.siteId] == "disabled" then
           BroughtBack(acc, to)
         else to == acc
  {
    hide Batched, HiddenBySite, BroughtBack, ArchiveMove, RestoreMove, NoNull, Listed;
    BatchLists(s, ids, status, writes, |ids|);
    ServedAreKnown(s, ids, writes, |ids|);
    BatchMoves(s, ids, status, writes, |ids|, i);
    NotNullAt(s, i);
    ArchivingHides(s.accounts[i]);
    RestoringBringsBack(s.accounts[i]);
  }
}
