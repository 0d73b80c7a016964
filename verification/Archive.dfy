/** Archiving the accounts of a disabled site and restoring them (db/archive.go). */
module Archive {
  import opened Text
  import opened Json
  import ExtraConfig

  const ARCHIVED_BY_SITE := "archivedBySite"
  const ARCHIVED_PREV_STATUS := "archivedPrevStatus"
  const MARKERS := {ARCHIVED_BY_SITE, ARCHIVED_PREV_STATUS}

  const ACTIVE := "active"
  const EXPIRED := "expired"
  const DISABLED := "disabled"

  datatype Account = Account(siteId: int, status: Option<string>, extra: ConfigText)

  function NormalizeAccountStatus(status: Option<string>): string {
    if status.None? || Lower(Trim(status.value)) == "" then ACTIVE else Lower(Trim(status.value))
  }

  predicate IsAccountArchived(extra: ConfigText) {
    TrueAt(Decoded(extra), ARCHIVED_BY_SITE)
  }

  /** The snapshot to restore; anything but expired restores to active. */
  function ArchivedPrevStatus(extra: ConfigText): string {
    var v := Lower(Trim(StringAt(Decoded(extra), ARCHIVED_PREV_STATUS)));
    if v == ACTIVE || v == EXPIRED then v else ACTIVE
  }

  // ---- One account ----

  /** What a cascade does about one account. */
  datatype Move = Keep | Write(account: Account) | Panics

  function ArchiveMove(acc: Account): Move {
    var status := NormalizeAccountStatus(acc.status);
    if IsAccountArchived(acc.extra) || status == DISABLED then Keep
    else
      var marks := map[ARCHIVED_BY_SITE := Bool(true), ARCHIVED_PREV_STATUS := Str(status)];
      var extra := ExtraConfig.Merged(acc.extra, marks, {});
      if extra.None? then Panics else Write(Account(acc.siteId, Some(DISABLED), extra.value))
  }

  function RestoreMove(acc: Account): Move {
    if !IsAccountArchived(acc.extra) then Keep
    else
      var extra := ExtraConfig.Merged(acc.extra, map[], MARKERS).value;
      Write(Account(acc.siteId, Some(ArchivedPrevStatus(acc.extra)), extra))
  }

  function Target(acc: Account, move: Move): Account {
    if move.Write? then move.account else acc
  }

  // ---- A whole cascade ----

  datatype Ending = Completed | WriteFailed | Panicked

  datatype Cascade = Cascade(accounts: seq<Account>, count: nat, ending: Ending)

  /** The cascade over the first `k` accounts; `ok(i)` says whether the write of account i succeeds. */
  function Cascaded(move: Account -> Move, accounts: seq<Account>, siteId: int, ok: nat -> bool, k: nat): (c: Cascade)
    requires k <= |accounts|
    ensures |c.accounts| == |accounts|
    ensures c.accounts[k..] == accounts[k..]
  {
    if k == 0 then Cascade(accounts, 0, Completed)
    else
      var c := Cascaded(move, accounts, siteId, ok, k - 1);
      var acc := accounts[k - 1];
      if !c.ending.Completed? || acc.siteId != siteId then c
      else match move(acc)
        case Keep => c
        case Panics => c.(ending := Panicked)
        case Write(to) =>
          if !ok(k - 1) then c.(ending := WriteFailed)
          else Cascade(c.accounts[k - 1 := to], c.count + 1, Completed)
  }

  /** Every account of the site moved. */
  function Each(move: Account -> Move, accounts: seq<Account>, siteId: int): (r: seq<Account>)
    ensures |r| == |accounts|
  {
    seq(|accounts|, i requires 0 <= i < |accounts| =>
      if accounts[i].siteId == siteId then Target(accounts[i], move(accounts[i])) else accounts[i])
  }

  function Changed(a: seq<Account>, b: seq<Account>): nat
    requires |a| == |b|
  {
    if a == [] then 0
    else Changed(a[..|a| - 1], b[..|b| - 1]) + (if a[|a| - 1] != b[|b| - 1] then 1 else 0)
  }

  class AccountTable {
    var accounts: seq<Account>

    constructor (accounts: seq<Account>)
      ensures this.accounts == accounts
    {
      this.accounts := accounts;
    }

    method ArchiveAccountsBySite(siteId: int, ok: nat -> bool) returns (count: nat, ending: Ending)
      modifies this
      ensures Cascade(accounts, count, ending) == Cascaded(ArchiveMove, old(accounts), siteId, ok, |old(accounts)|)
    {
      hide IsAccountArchived, NormalizeAccountStatus;
      var rows := accounts;
      count, ending := 0, Completed;
      for i := 0 to |rows|
        invariant ending == Completed
        invariant Cascade(accounts, count, ending) == Cascaded(ArchiveMove, rows, siteId, ok, i)
      {
        var acc := rows[i];
        if acc.siteId != siteId || IsAccountArchived(acc.extra) {
          continue;
        }
        var status := NormalizeAccountStatus(acc.status);
        if status == DISABLED {
          continue;
        }
        var extra :=
          ExtraConfig.Merged(acc.extra, map[ARCHIVED_BY_SITE := Bool(true), ARCHIVED_PREV_STATUS := Str(status)], {});
        if extra.None? {
          ending := Panicked;
          StaysEnded(ArchiveMove, rows, siteId, ok, i + 1, |rows|);
          return;
        }
        if !ok(i) {
          ending := WriteFailed;
          StaysEnded(ArchiveMove, rows, siteId, ok, i + 1, |rows|);
          return;
        }
        accounts := accounts[i := Account(acc.siteId, Some(DISABLED), extra.value)];
        count := count + 1;
      }
    }

    method RestoreAccountsBySite(siteId: int, ok: nat -> bool) returns (count: nat, ending: Ending)
      modifies this
      ensures Cascade(accounts, count, ending) == Cascaded(RestoreMove, old(accounts), siteId, ok, |old(accounts)|)
    {
      hide ArchivedPrevStatus, IsAccountArchived;
      var rows := accounts;
      count, ending := 0, Completed;
      for i := 0 to |rows|
        invariant ending == Completed
        invariant Cascade(accounts, count, ending) == Cascaded(RestoreMove, rows, siteId, ok, i)
      {
        var acc := rows[i];
        if acc.siteId != siteId || !IsAccountArchived(acc.extra) {
          continue;
        }
        var prevStatus := ArchivedPrevStatus(acc.extra);
        var extra := ExtraConfig.Merged(acc.extra, map[], MARKERS).value;
        if !ok(i) {
          ending := WriteFailed;
          StaysEnded(RestoreMove, rows, siteId, ok, i + 1, |rows|);
          return;
        }
        accounts := accounts[i := Account(acc.siteId, Some(prevStatus), extra)];
        count := count + 1;
      }
    }
  }

  lemma {:induction false} StaysEnded(
    move: Account -> Move, accounts: seq<Account>, siteId: int, ok: nat -> bool, i: nat, k: nat)
    requires i <= k <= |accounts| && !Cascaded(move, accounts, siteId, ok, i).ending.Completed?
    ensures Cascaded(move, accounts, siteId, ok, k) == Cascaded(move, accounts, siteId, ok, i)
  {
    if i < k {
      StaysEnded(move, accounts, siteId, ok, i, k - 1);
    }
  }

  // ---- What a cascade amounts to ----

  /** The moves that always change what they write. */
  ghost predicate Moves(move: Account -> Move) {
    forall acc :: move(acc).Write? ==> move(acc).account != acc && move(acc).account.siteId == acc.siteId
  }

  lemma MergedMarks(config: ConfigText, status: string)
    requires !config.NullLiteral?
    ensures var marks := map[ARCHIVED_BY_SITE := Bool(true), ARCHIVED_PREV_STATUS := Str(status)];
      var r := ExtraConfig.Merged(config, marks, {});
      r.Some? && IsAccountArchived(r.value) && StringAt(Decoded(r.value), ARCHIVED_PREV_STATUS) == status
      && Decoded(r.value) - MARKERS == Decoded(config) - MARKERS
  {
  }

  lemma MergedUnmarks(config: ConfigText)
    requires config.Object?
    ensures var r := ExtraConfig.Merged(config, map[], MARKERS);
      r.Some? && r.value == ConfigText.Object(config.cfg - MARKERS) && !IsAccountArchived(r.value)
  {
    assert (config.cfg - MARKERS) + map[] == config.cfg - MARKERS;
  }

  /** Both directions only write rows that change. */
  lemma MovesChange()
    ensures Moves(ArchiveMove) && Moves(RestoreMove)
  {
    hide NormalizeAccountStatus;
    forall acc ensures ArchiveMove(acc).Write? ==> ArchiveMove(acc).account != acc {
      if !acc.extra.NullLiteral? {
        MergedMarks(acc.extra, NormalizeAccountStatus(acc.status));
      }
    }
    forall acc ensures RestoreMove(acc).Write? ==> RestoreMove(acc).account != acc {
      if acc.extra.Object? {
        MergedUnmarks(acc.extra);
      }
    }
  }

  /** The accounts after the first `k` moved. */
  function Prefix(move: Account -> Move, accounts: seq<Account>, siteId: int, k: nat): seq<Account>
    requires k <= |accounts|
  {
    Each(move, accounts, siteId)[..k] + accounts[k..]
  }

  lemma PrefixGrows(move: Account -> Move, accounts: seq<Account>, siteId: int, k: nat)
    requires k < |accounts|
    ensures Prefix(move, accounts, siteId, k + 1)
         == Prefix(move, accounts, siteId, k)[k := Each(move, accounts, siteId)[k]]
    ensures Prefix(move, accounts, siteId, k)[k] == accounts[k]
  {
  }

  lemma {:induction false} WhileCompleted(
    move: Account -> Move, accounts: seq<Account>, siteId: int, ok: nat -> bool, k: nat)
    requires k <= |accounts| && Moves(move)
    requires Cascaded(move, accounts, siteId, ok, k).ending.Completed?
    ensures var c := Cascaded(move, accounts, siteId, ok, k);
      c.accounts == Prefix(move, accounts, siteId, k) && c.count == Changed(accounts, c.accounts)
  {
    hide Prefix, Changed;
    if k == 0 {
      assert Prefix(move, accounts, siteId, 0) == accounts by {
        WholeSuffix(move, accounts, siteId);
      }
      NothingChanged(accounts);
    } else {
      WhileCompleted(move, accounts, siteId, ok, k - 1);
      PrefixGrows(move, accounts, siteId, k - 1);
      var before, c := Cascaded(move, accounts, siteId, ok, k - 1), Cascaded(move, accounts, siteId, ok, k);
      if c.count != before.count {
        OneMoreChanged(accounts, before.accounts, k - 1, c.accounts[k - 1]);
      } else {
        assert Prefix(move, accounts, siteId, k) == before.accounts;
      }
    }
  }

  lemma WholeSuffix(move: Account -> Move, accounts: seq<Account>, siteId: int)
    ensures Prefix(move, accounts, siteId, 0) == accounts
  {
  }

  /** A cascade moves a prefix of the accounts and counts exactly those it changed. It stops early only
      at a write that failed or, on archiving, at an account whose configuration is the literal null. */
  lemma {:induction false} CascadeIsExact(
    move: Account -> Move, accounts: seq<Account>, siteId: int, ok: nat -> bool, k: nat) returns (reached: nat)
    requires k <= |accounts| && Moves(move)
    ensures reached <= k
    ensures var c := Cascaded(move, accounts, siteId, ok, k);
      && c.accounts == Prefix(move, accounts, siteId, reached)
      && c.count == Changed(accounts, c.accounts)
      && (c.ending.Completed? <==> reached == k)
      && (c.ending.WriteFailed? ==> reached < k && move(accounts[reached]).Write? && !ok(reached))
      && (c.ending.Panicked? ==> reached < k && move(accounts[reached]).Panics?)
      && (reached < k ==> accounts[reached].siteId == siteId)
  {
    hide Prefix, Changed;
    reached := k;
    if Cascaded(move, accounts, siteId, ok, k).ending.Completed? {
      WhileCompleted(move, accounts, siteId, ok, k);
    } else if Cascaded(move, accounts, siteId, ok, k - 1).ending.Completed? {
      WhileCompleted(move, accounts, siteId, ok, k - 1);
      reached := k - 1;
    } else {
      reached := CascadeIsExact(move, accounts, siteId, ok, k - 1);
    }
  }

  lemma {:induction false} NothingChanged(accounts: seq<Account>)
    ensures Changed(accounts, accounts) == 0
  {
    if accounts != [] {
      NothingChanged(accounts[..|accounts| - 1]);
    }
  }

  lemma {:induction false} OneMoreChanged(a: seq<Account>, b: seq<Account>, i: nat, to: Account)
    requires i < |a| == |b| && a[i] == b[i] && to != a[i]
    ensures Changed(a, b[i := to]) == Changed(a, b) + 1
  {
    var n := |a| - 1;
    if i == n {
      assert b[i := to][..n] == b[..n];
    } else {
      OneMoreChanged(a[..n], b[..n], i, to);
      assert b[i := to][..n] == b[..n][i := to];
    }
  }

  // ---- The status a user wants ----

  /** What the account is meant to be once its site is active. */
  function Intended(acc: Account): string {
    if IsAccountArchived(acc.extra) then ArchivedPrevStatus(acc.extra) else NormalizeAccountStatus(acc.status)
  }

  predicate SameOtherKeys(a: ConfigText, b: ConfigText) {
    Decoded(a) - MARKERS == Decoded(b) - MARKERS
  }

  /** Statuses the snapshot can hold, and manual disabling. */
  predicate Snapshotable(acc: Account) {
    IsAccountArchived(acc.extra) || NormalizeAccountStatus(acc.status) in {ACTIVE, EXPIRED, DISABLED}
  }

  lemma LowerTrimIdempotent(s: string)
    ensures Lower(Trim(Lower(Trim(s)))) == Lower(Trim(s))
  {
    hide Trim;
    var t := Lower(Trim(s));
    if t != "" {
      SpaceHasNoCase(Trim(s)[0]);
      SpaceHasNoCase(Trim(s)[|t| - 1]);
    }
    assert Trimmed(t);
    assert Lower(t) == t;
  }

  lemma SpaceHasNoCase(c: char)
    ensures IsSpace(LowerChar(c)) == IsSpace(c)
  {
  }

  /** Archiving keeps the intended status exactly of the accounts it can snapshot; all others it would
      later restore as active. */
  lemma ArchiveKeepsIntentIff(acc: Account)
    requires !ArchiveMove(acc).Panics?
    ensures var to := Target(acc, ArchiveMove(acc));
      && (Intended(to) == Intended(acc) <==> Snapshotable(acc))
      && (!Snapshotable(acc) ==> Intended(to) == ACTIVE)
      && SameOtherKeys(acc.extra, to.extra) && Snapshotable(to)
  {
    hide Trim, Lower;
    var status := NormalizeAccountStatus(acc.status);
    if ArchiveMove(acc).Write? {
      MergedMarks(acc.extra, status);
      NormalIsFixed(acc.status);
    }
  }

  lemma NormalIsFixed(status: Option<string>)
    ensures var s := NormalizeAccountStatus(status); Lower(Trim(s)) == s
  {
    hide Trim, Lower;
    if status.Some? {
      LowerTrimIdempotent(status.value);
    }
    PlainStatuses();
  }

  lemma PlainStatuses()
    ensures forall s :: s in {ACTIVE, EXPIRED, DISABLED} ==> Lower(Trim(s)) == s
  {
    hide Trim;
    assert forall s :: s in {ACTIVE, EXPIRED, DISABLED} ==> Trimmed(s);
    assert Lower(ACTIVE) == ACTIVE && Lower(EXPIRED) == EXPIRED && Lower(DISABLED) == DISABLED;
  }

  /** Restoring always gives back what was intended. */
  lemma RestoreKeepsIntent(acc: Account)
    ensures var to := Target(acc, RestoreMove(acc));
      && Intended(to) == Intended(acc) && SameOtherKeys(acc.extra, to.extra)
      && !IsAccountArchived(to.extra)
      && (Snapshotable(acc) ==> Snapshotable(to))
  {
    hide Trim, Lower;
    PlainStatuses();
    if acc.extra.Object? {
      MergedUnmarks(acc.extra);
      assert (acc.extra.cfg - MARKERS) - MARKERS == acc.extra.cfg - MARKERS;
    }
  }

  // ---- Any sequence of toggles ----

  function Toggle(disable: bool): Account -> Move {
    if disable then ArchiveMove else RestoreMove
  }

  /** The accounts after disabling and enabling the site, once per entry of `toggles`. */
  function Toggled(accounts: seq<Account>, siteId: int, toggles: seq<bool>): (r: seq<Account>)
    ensures |r| == |accounts|
    decreases |toggles|
  {
    if toggles == [] then accounts
    else Toggled(Each(Toggle(toggles[0]), accounts, siteId), siteId, toggles[1..])
  }

  /** Whatever the toggles, an account keeps its intended status and all other configuration keys -
      exactly if it can be snapshotted, or the site is never disabled, or is not its own. */
  lemma {:induction false} TogglesKeepIntentIff(accounts: seq<Account>, siteId: int, toggles: seq<bool>, i: nat)
    requires i < |accounts| && !accounts[i].extra.NullLiteral?
    ensures var to := Toggled(accounts, siteId, toggles)[i];
      && SameOtherKeys(accounts[i].extra, to.extra)
      && (Intended(to) == Intended(accounts[i])
          <==> Snapshotable(accounts[i]) || accounts[i].siteId != siteId || true !in toggles)
    decreases |toggles|
  {
    hide NormalizeAccountStatus, IsAccountArchived, ArchivedPrevStatus, Each;
    if toggles != [] {
      var next := Each(Toggle(toggles[0]), accounts, siteId);
      EachAt(Toggle(toggles[0]), accounts, siteId, i);
      ToggleOne(accounts[i], toggles[0]);
      TogglesKeepIntentIff(next, siteId, toggles[1..], i);
      assert toggles == [toggles[0]] + toggles[1..];
      if accounts[i].siteId == siteId && !Snapshotable(accounts[i]) && toggles[0] {
        ToggledIsActive(next, siteId, toggles[1..], i);
        NotActive(accounts[i]);
      }
    }
  }

  lemma EachAt(move: Account -> Move, accounts: seq<Account>, siteId: int, i: nat)
    requires i < |accounts|
    ensures Each(move, accounts, siteId)[i]
         == if accounts[i].siteId == siteId then Target(accounts[i], move(accounts[i])) else accounts[i]
  {
  }

  lemma ToggleOne(acc: Account, disable: bool)
    requires !acc.extra.NullLiteral?
    ensures var to := Target(acc, Toggle(disable)(acc));
      && !to.extra.NullLiteral? && to.siteId == acc.siteId && SameOtherKeys(acc.extra, to.extra)
      && (Snapshotable(acc) || disable ==> Snapshotable(to))
      && (Intended(to) == Intended(acc) <==> Snapshotable(acc) || !disable)
      && (!Snapshotable(acc) && disable ==> Intended(to) == ACTIVE)
      && (!Snapshotable(acc) && !disable ==> to == acc)
  {
    hide NormalizeAccountStatus, ArchivedPrevStatus;
    if disable {
      ArchiveKeepsIntentIff(acc);
    } else {
      RestoreKeepsIntent(acc);
    }
  }

  lemma NotActive(acc: Account)
    requires !Snapshotable(acc)
    ensures Intended(acc) != ACTIVE
  {
    hide NormalizeAccountStatus;
  }

  lemma {:induction false} ToggledIsActive(accounts: seq<Account>, siteId: int, toggles: seq<bool>, i: nat)
    requires i < |accounts| && !accounts[i].extra.NullLiteral?
    requires Snapshotable(accounts[i]) && Intended(accounts[i]) == ACTIVE
    ensures Intended(Toggled(accounts, siteId, toggles)[i]) == ACTIVE
    decreases |toggles|
  {
    hide NormalizeAccountStatus, IsAccountArchived, ArchivedPrevStatus, Each;
    if toggles != [] {
      EachAt(Toggle(toggles[0]), accounts, siteId, i);
      ToggleOne(accounts[i], toggles[0]);
      ToggledIsActive(Each(Toggle(toggles[0]), accounts, siteId), siteId, toggles[1..], i);
    }
  }

  /** With every write succeeding and no configuration the literal null, a cascade completes. */
  lemma NeverEndsEarly(accounts: seq<Account>, siteId: int, disable: bool)
    requires forall i :: 0 <= i < |accounts| ==> !accounts[i].extra.NullLiteral?
    ensures var c := Cascaded(Toggle(disable), accounts, siteId, _ => true, |accounts|);
      c.accounts == Each(Toggle(disable), accounts, siteId) && c.ending.Completed?
  {
    hide Cascaded, Changed, ArchiveMove, RestoreMove;
    MovesChange();
    var reached := CascadeIsExact(Toggle(disable), accounts, siteId, _ => true, |accounts|);
    if reached < |accounts| {
      NullOnlyPanics(accounts[reached], disable);
    }
  }

  lemma NullOnlyPanics(acc: Account, disable: bool)
    requires !acc.extra.NullLiteral?
    ensures !Toggle(disable)(acc).Panics?
  {
    hide NormalizeAccountStatus;
  }

  /** The same toggles with cascades that may be cut short: `ok(k)` says which writes of toggle k
      succeed. */
  function ToggledWith(accounts: seq<Account>, siteId: int, toggles: seq<bool>,
      ok: nat -> nat -> bool): (r: seq<Account>)
    ensures |r| == |accounts|
  {
    if toggles == [] then accounts
    else
      var k := |toggles| - 1;
      Cascaded(Toggle(toggles[k]), ToggledWith(accounts, siteId, toggles[..k], ok), siteId, ok(k), |accounts|).accounts
  }

  /** A cascade, cut short or not, moves an account or leaves it. */
  lemma MovedOrNot(accounts: seq<Account>, siteId: int, disable: bool, ok: nat -> bool, i: nat)
    requires i < |accounts|
    ensures var to := Cascaded(Toggle(disable), accounts, siteId, ok, |accounts|).accounts[i];
      || to == accounts[i]
      || (accounts[i].siteId == siteId && !accounts[i].extra.NullLiteral?
          && to == Target(accounts[i], Toggle(disable)(accounts[i])))
  {
    hide Cascaded, Changed, NormalizeAccountStatus, ArchivedPrevStatus, Each;
    MovesChange();
    var reached := CascadeIsExact(Toggle(disable), accounts, siteId, ok, |accounts|);
    EachAt(Toggle(disable), accounts, siteId, i);
    NullStays(accounts[i], disable);
  }

  lemma NullStays(acc: Account, disable: bool)
    ensures acc.extra.NullLiteral? ==> Target(acc, Toggle(disable)(acc)) == acc
  {
    hide NormalizeAccountStatus, ArchivedPrevStatus;
    NullConfigStopsCascade(acc);
  }

  /** Even if cascades stop at failed writes, or panic on some account, every account keeps all other
      keys, and its intended status if it can be snapshotted; any other keeps it exactly if no cascade
      reached it. */
  lemma {:induction false} InterruptedTogglesKeepIntent(
    accounts: seq<Account>, siteId: int, toggles: seq<bool>, ok: nat -> nat -> bool, i: nat)
    requires i < |accounts|
    ensures var acc, to := accounts[i], ToggledWith(accounts, siteId, toggles, ok)[i];
      && to.siteId == acc.siteId && SameOtherKeys(acc.extra, to.extra)
      && (Snapshotable(acc) ==> Snapshotable(to) && Intended(to) == Intended(acc))
      && (!Snapshotable(acc) ==> to == acc || (Snapshotable(to) && Intended(to) == ACTIVE != Intended(acc)))
      && (acc.siteId != siteId || true !in toggles ==> Intended(to) == Intended(acc))
  {
    hide Cascaded, NormalizeAccountStatus, IsAccountArchived, ArchivedPrevStatus, Snapshotable,
      ArchiveMove, RestoreMove;
    if toggles != [] {
      var k := |toggles| - 1;
      InterruptedTogglesKeepIntent(accounts, siteId, toggles[..k], ok, i);
      var before := ToggledWith(accounts, siteId, toggles[..k], ok);
      MovedOrNot(before, siteId, toggles[k], ok(k), i);
      assert toggles == toggles[..k] + [toggles[k]];
      if !before[i].extra.NullLiteral? {
        ToggleOne(before[i], toggles[k]);
      }
      if !Snapshotable(accounts[i]) {
        NotActive(accounts[i]);
      }
    }
  }

  /** A completed cascade leaves nothing for a second one in the same direction to do: it changes no
      account and counts none. */
  lemma RepeatDoesNothing(accounts: seq<Account>, siteId: int, disable: bool, ok: nat -> bool, ok': nat -> bool)
    requires Cascaded(Toggle(disable), accounts, siteId, ok, |accounts|).ending.Completed?
    ensures var c := Cascaded(Toggle(disable), accounts, siteId, ok, |accounts|);
      Cascaded(Toggle(disable), c.accounts, siteId, ok', |accounts|) == Cascade(c.accounts, 0, Completed)
  {
    hide Cascaded, Changed, NormalizeAccountStatus;
    var c := Cascaded(Toggle(disable), accounts, siteId, ok, |accounts|);
    MovesChange();
    WhileCompleted(Toggle(disable), accounts, siteId, ok, |accounts|);
    forall i | 0 <= i < |accounts| && c.accounts[i].siteId == siteId ensures Toggle(disable)(c.accounts[i]).Keep? {
      EachAt(Toggle(disable), accounts, siteId, i);
      CompletedAt(Toggle(disable), accounts, siteId, ok, |accounts|, i);
      MoveSettles(accounts[i], disable);
    }
    AllKeep(Toggle(disable), c.accounts, siteId, ok', |accounts|);
  }

  lemma MoveSettles(acc: Account, disable: bool)
    requires !Toggle(disable)(acc).Panics?
    ensures Toggle(disable)(Target(acc, Toggle(disable)(acc))).Keep?
  {
    hide NormalizeAccountStatus, ArchivedPrevStatus;
    if disable {
      if !acc.extra.NullLiteral? {
        MergedMarks(acc.extra, NormalizeAccountStatus(acc.status));
      }
    } else if acc.extra.Object? {
      MergedUnmarks(acc.extra);
    }
  }

  lemma {:induction false} CompletedAt(
    move: Account -> Move, accounts: seq<Account>, siteId: int, ok: nat -> bool, k: nat, i: nat)
    requires i < k <= |accounts| && Cascaded(move, accounts, siteId, ok, k).ending.Completed?
    ensures accounts[i].siteId == siteId ==> !move(accounts[i]).Panics?
  {
    if i < k - 1 {
      CompletedAt(move, accounts, siteId, ok, k - 1, i);
    }
  }

  lemma {:induction false} AllKeep(move: Account -> Move, accounts: seq<Account>, siteId: int, ok: nat -> bool, k: nat)
    requires k <= |accounts|
    requires forall i :: 0 <= i < |accounts| && accounts[i].siteId == siteId ==> move(accounts[i]).Keep?
    ensures Cascaded(move, accounts, siteId, ok, k) == Cascade(accounts, 0, Completed)
  {
    if k > 0 {
      AllKeep(move, accounts, siteId, ok, k - 1);
    }
  }

  /** A cascade that was cut short is finished by running it again. */
  lemma InterruptedResumes(accounts: seq<Account>, siteId: int, disable: bool, ok: nat -> bool)
    requires forall i :: 0 <= i < |accounts| ==> !accounts[i].extra.NullLiteral?
    ensures var c := Cascaded(Toggle(disable), accounts, siteId, ok, |accounts|);
      Each(Toggle(disable), c.accounts, siteId) == Each(Toggle(disable), accounts, siteId)
  {
    hide Cascaded, Changed, NormalizeAccountStatus, ArchivedPrevStatus;
    MovesChange();
    var reached := CascadeIsExact(Toggle(disable), accounts, siteId, ok, |accounts|);
    var c := Cascaded(Toggle(disable), accounts, siteId, ok, |accounts|);
    forall i | 0 <= i < |accounts|
      ensures Each(Toggle(disable), c.accounts, siteId)[i] == Each(Toggle(disable), accounts, siteId)[i]
    {
      EachAt(Toggle(disable), accounts, siteId, i);
      EachAt(Toggle(disable), c.accounts, siteId, i);
      if i < reached && accounts[i].siteId == siteId {
        MoveSettles(accounts[i], disable);
        ToggleOne(accounts[i], disable);
      }
    }
  }

  /** Disable and enable give back the very same row exactly if the account was not touched by the
      disable, or its status was already in normal form and its configuration an object without markers. */
  lemma RoundTripIsLosslessIff(acc: Account)
    requires !acc.extra.NullLiteral? && !IsAccountArchived(acc.extra)
    ensures var archived := Target(acc, ArchiveMove(acc));
      Target(archived, RestoreMove(archived)) == acc
      <==> || NormalizeAccountStatus(acc.status) == DISABLED
           || (acc.status in {Some(ACTIVE), Some(EXPIRED)} && acc.extra.Object? && MARKERS !! acc.extra.cfg.Keys)
  {
    hide Trim, Lower;
    PlainStatuses();
    NormalIsFixed(acc.status);
    var status := NormalizeAccountStatus(acc.status);
    var archived := Target(acc, ArchiveMove(acc));
    if status != DISABLED {
      MergedMarks(acc.extra, status);
      MergedUnmarks(archived.extra);
      var restored := Target(archived, RestoreMove(archived));
      assert restored.extra == ConfigText.Object(Decoded(acc.extra) - MARKERS);
      if MARKERS !! Decoded(acc.extra).Keys {
        assert Decoded(acc.extra) - MARKERS == Decoded(acc.extra);
      } else {
        assert (Decoded(acc.extra) - MARKERS).Keys != Decoded(acc.extra).Keys;
      }
    }
  }

  /** With all writes succeeding and no null configuration the two notions of toggling agree. */
  lemma {:induction false} UninterruptedToggles(accounts: seq<Account>, siteId: int, toggles: seq<bool>)
    requires forall i :: 0 <= i < |accounts| ==> !accounts[i].extra.NullLiteral?
    ensures ToggledWith(accounts, siteId, toggles, _ => _ => true) == Toggled(accounts, siteId, toggles)
    ensures forall i :: 0 <= i < |accounts| ==> !Toggled(accounts, siteId, toggles)[i].extra.NullLiteral?
  {
    hide Cascaded, Each, ArchiveMove, RestoreMove;
    if toggles != [] {
      var k := |toggles| - 1;
      var before := Toggled(accounts, siteId, toggles[..k]);
      UninterruptedToggles(accounts, siteId, toggles[..k]);
      NeverEndsEarly(before, siteId, toggles[k]);
      ToggledSnoc(accounts, siteId, toggles[..k], toggles[k]);
      assert toggles == toggles[..k] + [toggles[k]];
      forall i | 0 <= i < |accounts| ensures !Toggled(accounts, siteId, toggles)[i].extra.NullLiteral? {
        EachAt(Toggle(toggles[k]), before, siteId, i);
        ToggleOne(before[i], toggles[k]);
      }
    }
  }

  lemma {:induction false} ToggledSnoc(accounts: seq<Account>, siteId: int, toggles: seq<bool>, last: bool)
    ensures Toggled(accounts, siteId, toggles + [last])
         == Each(Toggle(last), Toggled(accounts, siteId, toggles), siteId)
    decreases |toggles|
  {
    hide Each;
    if toggles != [] {
      assert (toggles + [last])[1..] == toggles[1..] + [last];
      ToggledSnoc(Each(Toggle(toggles[0]), accounts, siteId), siteId, toggles[1..], last);
    } else {
      assert Toggled(accounts, siteId, [last]) == Toggled(Each(Toggle(last), accounts, siteId), siteId, []);
    }
  }

  /** extra_config `null` stops the cascade, and the accounts behind it stay as they are. */
  lemma NullConfigStopsCascade(acc: Account)
    ensures ArchiveMove(acc).Panics?
       <==> acc.extra.NullLiteral? && NormalizeAccountStatus(acc.status) != DISABLED
  {
    hide NormalizeAccountStatus;
    assert map[ARCHIVED_BY_SITE := Bool(true), ARCHIVED_PREV_STATUS := Str("")] != map[] by {
      assert ARCHIVED_BY_SITE in map[ARCHIVED_BY_SITE := Bool(true), ARCHIVED_PREV_STATUS := Str("")];
    }
  }
}
