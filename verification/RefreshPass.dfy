/** One scan of the managed refresh loop over many accounts (service/managed_session.go:482-493,
    685-745): visiting order, next wake, and how passes drain the due accounts of one scope. */
module RefreshPass {
  import opened Text
  import opened Json
  import RefreshTiming
  import opened ManagedSession
  import StableSort

  // ---- Many accounts ----

  /** What shares a slot: platform, site address and outbound route. */
  datatype Scope = Scope(platform: string, url: string, route: string)

  /** The scope of the stored row `latest` under the proxy settings of the caller's row. */
  function ScopeUnder(env: Env, latest: Row, caller: Row): Scope {
    var cfg := Decoded(caller.extraConfig);
    Scope(PlatformName(latest), StripSlashes(Trim(latest.siteUrl)),
          env.route(OptionProxy(caller, cfg), UseSystemProxy(caller, cfg)))
  }

  function ScopeOf(env: Env, row: Row): Scope {
    ScopeUnder(env, row, row)
  }

  datatype World = World(records: map<int, Record>, slots: map<Scope, Slot>, rows: map<int, Row>)

  function RecordOf(w: World, id: int): Record {
    if id in w.records then w.records[id] else FRESH
  }

  function SlotOf(w: World, scope: Scope): Slot {
    if scope in w.slots then w.slots[scope] else Slot(false, None)
  }

  /** What one visit of the pass sees: the clock at its own check, and the refresh call. */
  datatype Visit = Visit(checkedAt: int, attempt: Attempt)

  /** EnsureManagedSession for a listed row; what counts is the row stored by now, if it still exists. */
  function Visited(env: Env, w: World, row: Row, v: Visit): (World, Return) {
    var stored := row.id in w.rows;
    var latest := if stored then w.rows[row.id] else row;
    var scope := ScopeUnder(env, latest, row);
    var attempt := v.attempt.(readOk := v.attempt.readOk && stored);
    var e := Refresh(env, Session(RecordOf(w, row.id), SlotOf(w, scope), latest), attempt);
    (World(w.records[row.id := e.session.record], w.slots[scope := e.session.slot],
           if stored then w.rows[row.id := e.session.row] else w.rows),
     e.ret)
  }

  // ---- The pass ----

  function Expiry(env: Env): Row -> Option<int> {
    (row: Row) => if TokenExpiresAt(env, row) > 0 then Some(TokenExpiresAt(env, row)) else None
  }

  /** The order of the visits. */
  function Order(env: Env, listed: seq<Row>): (order: seq<Row>)
    ensures |order| == |listed|
  {
    StableSort.Sort(listed, Expiry(env))
  }

  datatype Tally = Tally(world: World, visited: seq<Row>, delays: seq<int>, refreshed: nat, failed: nat)

  /** The pass after its first `k` rows. */
  function Passed(env: Env, w: World, order: seq<Row>, visits: seq<Visit>, k: nat): Tally
    requires k <= |order| == |visits|
  {
    if k == 0 then Tally(w, [], [], 0, 0)
    else
      var t := Passed(env, w, order, visits, k - 1);
      var row, v := order[k - 1], visits[k - 1];
      if !IsRefreshDue(env, row, v.checkedAt) then t
      else
        var (w', ret) := Visited(env, t.world, row, v);
        Tally(w', t.visited + [row],
              if ret.error.Some? then t.delays + [ret.error.value.wait] else t.delays,
              if ret.error.None? && ret.didRefresh then t.refreshed + 1 else t.refreshed,
              if ret.error.Some? && ret.error.value.kind != Deferred then t.failed + 1 else t.failed)
  }

  /** The least positive delay, 0 if there is none. */
  predicate IsNextWake(delays: seq<int>, wake: int) {
    && (wake == 0 ==> forall d :: d in delays ==> d <= 0)
    && (wake != 0 ==> wake > 0 && wake in delays && forall d :: d in delays && d > 0 ==> wake <= d)
  }

  class Fleet {
    var world: World

    constructor (world: World)
      ensures this.world == world
    {
      this.world := world;
    }

    /** ExecuteManagedRefreshPass: `busy` says that another pass is running, no rows that the query
        failed. `wake` is handed to the wake timer if positive. */
    method ExecuteManagedRefreshPass(env: Env, busy: bool, rows: Option<seq<Row>>, visits: seq<Visit>)
      returns (visited: seq<Row>, refreshed: nat, failed: nat, wake: int)
      requires rows.Some? ==> |visits| == |rows.value|
      modifies this
      ensures busy || rows.None? ==>
        world == old(world) && visited == [] && refreshed == 0 && failed == 0 && wake == 0
      ensures !busy && rows.Some? ==>
        var t := Passed(env, old(world), Order(env, rows.value), visits, |rows.value|);
        && world == t.world && visited == t.visited && refreshed == t.refreshed && failed == t.failed
        && IsNextWake(t.delays, wake)
    {
      hide IsRefreshDue, Visited;
      visited, refreshed, failed, wake := [], 0, 0, 0;
      if busy || rows.None? {
        return;
      }
      var order := Order(env, rows.value);
      ghost var start := world;
      for i := 0 to |order|
        invariant var t := Passed(env, start, order, visits, i);
          && world == t.world && visited == t.visited && refreshed == t.refreshed && failed == t.failed
          && IsNextWake(t.delays, wake)
      {
        var row := order[i];
        if !IsRefreshDue(env, row, visits[i].checkedAt) {
          continue;
        }
        var (after, ret) := Visited(env, world, row, visits[i]);
        world := after;
        visited := visited + [row];
        if ret.error.Some? {
          var delay := ret.error.value.wait;
          if delay > 0 && (wake <= 0 || delay < wake) {
            wake := delay;
          }
          if ret.error.value.kind == Deferred {
            continue;
          }
          failed := failed + 1;
        } else if ret.didRefresh {
          refreshed := refreshed + 1;
        }
      }
    }
  }

  lemma DueIsKnown(env: Env, row: Row, now: int)
    requires IsRefreshDue(env, row, now)
    ensures Expiry(env)(row).Some?
  {
    hide RefreshTiming.LeadFor;
  }

  /** Accounts are visited by ascending expiry, each with a known one. */
  lemma {:induction false} VisitsAscend(env: Env, w: World, listed: seq<Row>, visits: seq<Visit>, k: nat)
    requires k <= |listed| == |visits|
    ensures var t := Passed(env, w, Order(env, listed), visits, k);
      && StableSort.Sorted(t.visited, Expiry(env))
      && (forall i :: 0 <= i < |t.visited| ==> Expiry(env)(t.visited[i]).Some?)
      && (forall i :: 0 <= i < |t.visited| ==> t.visited[i] in Order(env, listed)[..k])
  {
    hide Visited, IsRefreshDue, StableSort.AtMost, StableSort.Sort, TokenExpiresAt;
    if k > 0 {
      VisitsAscend(env, w, listed, visits, k - 1);
      StableSort.SortIsStableSort(listed, Expiry(env));
      var order := Order(env, listed);
      assert order[..k] == order[..k - 1] + [order[k - 1]];
      if IsRefreshDue(env, order[k - 1], visits[k - 1].checkedAt) {
        DueIsKnown(env, order[k - 1], visits[k - 1].checkedAt);
      }
    }
  }

  /** A visit touches the record of its account and one slot: that of the stored platform and address, and of
      the route that the listed row asks for - its own proxy or else its site's. */
  lemma VisitTouchesOneScope(env: Env, w: World, row: Row, v: Visit, scope: Scope, id: int)
    ensures var w' := Visited(env, w, row, v).0;
      var latest, cfg := if row.id in w.rows then w.rows[row.id] else row, Decoded(row.extraConfig);
      var proxy := if StringAt(cfg, "proxyUrl") != "" then Some(StringAt(cfg, "proxyUrl")) else row.siteProxyUrl;
      var system :=
        if "useSystemProxy" in cfg && cfg["useSystemProxy"].Bool? then Some(cfg["useSystemProxy"].b)
        else row.siteUseSystemProxy;
      && (SlotOf(w', scope) != SlotOf(w, scope) ==>
            && scope.platform == PlatformName(latest) && scope.url == StripSlashes(Trim(latest.siteUrl))
            && scope.route == env.route(proxy, system))
      && (id != row.id ==> RecordOf(w', id) == RecordOf(w, id))
      && (id in w'.rows <==> id in w.rows)
      && (id != row.id && id in w.rows ==> w'.rows[id] == w.rows[id])
  {
    hide Refresh, Trim, Lower, StripSlashes;
  }

  // ---- What the pass reports ----

  /** What the refresh of the j-th row returned, if that row was found due. */
  function ReturnAt(env: Env, w: World, order: seq<Row>, visits: seq<Visit>, j: nat): Option<Return>
    requires j < |order| == |visits|
  {
    if IsRefreshDue(env, order[j], visits[j].checkedAt)
    then Some(Visited(env, Passed(env, w, order, visits, j).world, order[j], visits[j]).1) else None
  }

  /** The rows among the first `k` that were refreshed. */
  function Renewed(env: Env, w: World, order: seq<Row>, visits: seq<Visit>, k: nat): set<nat>
    requires k <= |order| == |visits|
  {
    set j: nat | j < k && ReturnAt(env, w, order, visits, j).Some?
                 && var ret := ReturnAt(env, w, order, visits, j).value; ret.error.None? && ret.didRefresh
  }

  /** Those that failed; one held back by a wait did not. */
  function Failed(env: Env, w: World, order: seq<Row>, visits: seq<Visit>, k: nat): set<nat>
    requires k <= |order| == |visits|
  {
    set j: nat | j < k && ReturnAt(env, w, order, visits, j).Some?
                 && var ret := ReturnAt(env, w, order, visits, j).value;
                    ret.error.Some? && ret.error.value.kind != Deferred
  }

  predicate ToldToWait(env: Env, w: World, order: seq<Row>, visits: seq<Visit>, j: nat, wait: int)
    requires j < |order| == |visits|
  {
    var ret := ReturnAt(env, w, order, visits, j);
    ret.Some? && ret.value.error.Some? && ret.value.error.value.wait == wait
  }

  /** One more row: what its return adds. */
  lemma OneMoreReturn(env: Env, w: World, order: seq<Row>, visits: seq<Visit>, k: nat)
    requires 0 < k <= |order| == |visits|
    ensures var t, before := Passed(env, w, order, visits, k), Passed(env, w, order, visits, k - 1);
      var ret := ReturnAt(env, w, order, visits, k - 1);
      && t.refreshed == before.refreshed + (if ret.Some? && ret.value.error.None? && ret.value.didRefresh then 1 else 0)
      && t.failed == before.failed
           + (if ret.Some? && ret.value.error.Some? && ret.value.error.value.kind != Deferred then 1 else 0)
      && t.delays == before.delays
           + (if ret.Some? && ret.value.error.Some? then [ret.value.error.value.wait] else [])
  {
    hide Visited, IsRefreshDue;
  }

  lemma OneMoreOfEach(env: Env, w: World, order: seq<Row>, visits: seq<Visit>, k: nat)
    requires 0 < k <= |order| == |visits|
    ensures var ret := ReturnAt(env, w, order, visits, k - 1);
      && |Renewed(env, w, order, visits, k)| == |Renewed(env, w, order, visits, k - 1)|
           + (if ret.Some? && ret.value.error.None? && ret.value.didRefresh then 1 else 0)
      && |Failed(env, w, order, visits, k)| == |Failed(env, w, order, visits, k - 1)|
           + (if ret.Some? && ret.value.error.Some? && ret.value.error.value.kind != Deferred then 1 else 0)
  {
    hide ReturnAt;
    var renewed, failed := Renewed(env, w, order, visits, k - 1), Failed(env, w, order, visits, k - 1);
    var last: nat := k - 1;
    if last in Renewed(env, w, order, visits, k) {
      assert Renewed(env, w, order, visits, k) == renewed + {last};
    } else {
      assert Renewed(env, w, order, visits, k) == renewed;
    }
    if last in Failed(env, w, order, visits, k) {
      assert Failed(env, w, order, visits, k) == failed + {last};
    } else {
      assert Failed(env, w, order, visits, k) == failed;
    }
  }

  lemma NoReturns(env: Env, w: World, order: seq<Row>, visits: seq<Visit>)
    requires |order| == |visits|
    ensures Passed(env, w, order, visits, 0) == Tally(w, [], [], 0, 0)
    ensures Renewed(env, w, order, visits, 0) == {} && Failed(env, w, order, visits, 0) == {}
  {
  }

  /** The tallies count the rows that were refreshed and those that failed. */
  lemma {:induction false} TalliesCount(env: Env, w: World, order: seq<Row>, visits: seq<Visit>, k: nat)
    requires k <= |order| == |visits|
    ensures var t := Passed(env, w, order, visits, k);
      t.refreshed == |Renewed(env, w, order, visits, k)| && t.failed == |Failed(env, w, order, visits, k)|
  {
    hide Passed, Renewed, Failed, ReturnAt;
    NoReturns(env, w, order, visits);
    if k > 0 {
      TalliesCount(env, w, order, visits, k - 1);
      OneMoreReturn(env, w, order, visits, k);
      OneMoreOfEach(env, w, order, visits, k);
    }
  }

  predicate AnyToldToWait(env: Env, w: World, order: seq<Row>, visits: seq<Visit>, k: nat, wait: int)
    requires k <= |order| == |visits|
  {
    exists j: nat :: j < k && ToldToWait(env, w, order, visits, j, wait)
  }

  lemma OneMoreTold(env: Env, w: World, order: seq<Row>, visits: seq<Visit>, k: nat, wait: int)
    requires 0 < k <= |order| == |visits|
    ensures AnyToldToWait(env, w, order, visits, k, wait)
       <==> AnyToldToWait(env, w, order, visits, k - 1, wait) || ToldToWait(env, w, order, visits, k - 1, wait)
  {
    hide ToldToWait;
  }

  lemma {:induction false} DelaysAreWaits(env: Env, w: World, order: seq<Row>, visits: seq<Visit>, k: nat, d: int)
    requires k <= |order| == |visits|
    ensures d in Passed(env, w, order, visits, k).delays <==> AnyToldToWait(env, w, order, visits, k, d)
  {
    hide Passed, ReturnAt, AnyToldToWait;
    if k == 0 {
      NobodyTold(env, w, order, visits, d);
    } else {
      DelaysAreWaits(env, w, order, visits, k - 1, d);
      OneMoreReturn(env, w, order, visits, k);
      OneMoreTold(env, w, order, visits, k, d);
    }
  }

  lemma NobodyTold(env: Env, w: World, order: seq<Row>, visits: seq<Visit>, d: int)
    requires |order| == |visits|
    ensures d !in Passed(env, w, order, visits, 0).delays && !AnyToldToWait(env, w, order, visits, 0, d)
  {
    hide ToldToWait;
  }

  /** The wake asked for after a pass is the least positive wait that a visited account was told, if any. */
  lemma WakeIsLeastWait(env: Env, w: World, order: seq<Row>, visits: seq<Visit>, wake: int, d: int)
    requires |order| == |visits| && IsNextWake(Passed(env, w, order, visits, |order|).delays, wake)
    ensures wake >= 0
    ensures wake > 0 ==> AnyToldToWait(env, w, order, visits, |order|, wake)
    ensures d > 0 && AnyToldToWait(env, w, order, visits, |order|, d) ==> 0 < wake <= d
  {
    hide AnyToldToWait, Passed;
    DelaysAreWaits(env, w, order, visits, |order|, wake);
    DelaysAreWaits(env, w, order, visits, |order|, d);
  }

  // ---- Draining one scope ----

  /** The accounts of a scope whose stored token is due at `horizon`. */
  function Pending(env: Env, w: World, scope: Scope, horizon: int): set<int> {
    set id | id in w.rows && IsManaged(w.rows[id]) && ScopeOf(env, w.rows[id]) == scope
             && IsRefreshDue(env, w.rows[id], horizon)
  }

  /** The refresh of this row would go through, and its new token is not due before `horizon`. */
  predicate Renews(env: Env, w: World, row: Row, v: Visit, horizon: int) {
    var a := v.attempt;
    && IsRefreshDue(env, row, v.checkedAt) && IsRefreshDue(env, row, a.enteredAt) && IsRefreshDue(env, row, a.now)
    && a.readOk && a.adapterKnown
    && RetryDelay(Sync(RecordOf(w, row.id), FingerprintOf(env, row)), a.now) == 0
    && a.answer.err.None? && Usable(a.answer.res) && !IsBlank(a.answer.res.value.extraConfig)
    && (a.firstWrite || a.secondWrite)
    && !IsRefreshDue(env, Persisted(row, a.answer.res.value), horizon)
  }

  /** What is asked of a pass over `scope` that starts at `start`: it lists the stored rows of all pending
      accounts; each of them would renew; refreshes leave the scope of an account alone. Accounts on
      other scopes may do anything. */
  ghost predicate Drains(
    env: Env, w: World, listed: seq<Row>, visits: seq<Visit>, scope: Scope, start: int, horizon: int)
  {
    && |visits| == |listed|
    && (forall i, j :: 0 <= i < j < |listed| ==> listed[i].id != listed[j].id)
    && (forall i :: 0 <= i < |listed| ==> listed[i].id in w.rows && w.rows[listed[i].id] == listed[i])
    && (forall id :: id in Pending(env, w, scope, horizon) ==> w.rows[id] in listed)
    && Admits(SlotOf(w, scope), start)
    && forall i :: 0 <= i < |listed| ==>
         var row, v := Order(env, listed)[i], visits[i];
         && v.attempt.caller == row && !v.attempt.force
         && start <= v.attempt.now && v.checkedAt <= horizon
         && (row.id in Pending(env, w, scope, horizon) ==> Renews(env, w, row, v, horizon))
         && (v.attempt.answer.res.Some? ==>
              ScopeOf(env, Persisted(row, v.attempt.answer.res.value)) == ScopeOf(env, row))
  }

  lemma DueStaysDue(env: Env, row: Row, earlier: int, later: int)
    requires earlier <= later && IsRefreshDue(env, row, earlier)
    ensures IsRefreshDue(env, row, later)
  {
    hide TokenExpiresAt, RefreshTiming.LeadFor;
    assert RefreshTiming.UnixMilli(earlier) <= RefreshTiming.UnixMilli(later);
  }

  /** A call leaves the row alone or stores the answer in it; it leaves the slot of an unmanaged row alone. */
  lemma RowAfter(env: Env, s: Session, a: Attempt)
    ensures var row' := Refresh(env, s, a).session.row;
      row' == s.row || (a.answer.res.Some? && !IsBlank(a.answer.res.value.extraConfig)
                        && row' == Persisted(s.row, a.answer.res.value))
    ensures !IsManaged(a.caller) ==> Refresh(env, s, a).session == s
  {
    hide FingerprintOf, IsRefreshDue, Trim, SiteSpacing, RefreshTiming.Backoff, RetryDelay, PlatformName;
  }

  /** With the slot free, a refresh that would renew does. */
  lemma RenewalGoesThrough(env: Env, w: World, row: Row, v: Visit, slot: Slot, horizon: int)
    requires IsManaged(row) && v.attempt.caller == row && !v.attempt.force
    requires Renews(env, w, row, v, horizon) && Admits(slot, v.attempt.now)
    ensures Refresh(env, Session(RecordOf(w, row.id), slot, row), v.attempt).session.row
         == Persisted(row, v.attempt.answer.res.value)
  {
    hide FingerprintOf, IsRefreshDue, Trim, SiteSpacing, RefreshTiming.Backoff, RetryDelay, Lower;
  }

  /** A visit is local to its account and its scope. */
  lemma VisitFrame(env: Env, w: World, row: Row, v: Visit)
    requires row.id in w.rows && w.rows[row.id] == row
    ensures var w' := Visited(env, w, row, v).0;
      var e := Refresh(env, Session(RecordOf(w, row.id), SlotOf(w, ScopeOf(env, row)), row), v.attempt);
      && w'.rows == w.rows[row.id := e.session.row]
      && (forall id :: id != row.id ==> RecordOf(w', id) == RecordOf(w, id))
      && (forall scope :: SlotOf(w', scope) == if scope == ScopeOf(env, row) then e.session.slot else SlotOf(w, scope))
  {
    hide Refresh, ScopeUnder;
    assert v.attempt.(readOk := v.attempt.readOk && true) == v.attempt;
  }

  /** One visited row: what it does to the pending accounts and the slot of `scope`. */
  lemma VisitEffect(env: Env, w: World, row: Row, v: Visit, scope: Scope, horizon: int)
    requires row.id in w.rows && w.rows[row.id] == row
    requires v.attempt.caller == row && !v.attempt.force && v.checkedAt <= horizon
    requires IsRefreshDue(env, row, v.checkedAt)
    requires row.id in Pending(env, w, scope, horizon) ==> Renews(env, w, row, v, horizon)
    requires v.attempt.answer.res.Some? ==>
      ScopeOf(env, Persisted(row, v.attempt.answer.res.value)) == ScopeOf(env, row)
    ensures var w' := Visited(env, w, row, v).0;
      && (forall id :: id != row.id ==> (id in w'.rows <==> id in w.rows) && RecordOf(w', id) == RecordOf(w, id))
      && (forall id :: id != row.id && id in w.rows ==> w'.rows[id] == w.rows[id])
      && Pending(env, w', scope, horizon) <= Pending(env, w, scope, horizon)
      && (row.id !in Pending(env, w, scope, horizon) ==> SlotOf(w', scope) == SlotOf(w, scope))
      && (row.id in Pending(env, w, scope, horizon) && Admits(SlotOf(w, scope), v.attempt.now) ==>
            row.id !in Pending(env, w', scope, horizon))
  {
    hide IsRefreshDue, Trim, Refresh, StripSlashes, UseSystemProxy, OptionProxy, Lower, RetryDelay,
      FingerprintOf, IsBlank,
      Visited, RecordOf, SlotOf;
    VisitFrame(env, w, row, v);
    DueStaysDue(env, row, v.checkedAt, horizon);
    RowAfter(env, Session(RecordOf(w, row.id), SlotOf(w, ScopeOf(env, row)), row), v.attempt);
    if row.id in Pending(env, w, scope, horizon) && Admits(SlotOf(w, scope), v.attempt.now) {
      RenewalGoesThrough(env, w, row, v, SlotOf(w, scope), horizon);
    }
  }

  /** Sorting keeps the listed rows, each once. */
  lemma OrderKeepsRows(env: Env, listed: seq<Row>)
    requires forall i, j :: 0 <= i < j < |listed| ==> listed[i].id != listed[j].id
    ensures forall row :: row in Order(env, listed) <==> row in listed
    ensures forall i, j :: 0 <= i < j < |listed| ==> Order(env, listed)[i].id != Order(env, listed)[j].id
  {
    hide StableSort.Sort;
    var order := Order(env, listed);
    StableSort.SortIsStableSort(listed, Expiry(env));
    forall row ensures row in order <==> row in listed {
      assert row in multiset(order) <==> row in multiset(listed);
    }
    forall i, j | 0 <= i < j < |order| ensures order[i].id != order[j].id {
      AtMostOnce(listed, order[i]);
      assert multiset(order)[order[i]] == multiset(listed)[order[i]];
      assert order[i] in listed && order[j] in listed;
      if order[i] == order[j] {
        Twice(order, i, j);
      }
    }
  }

  lemma {:induction false} AtMostOnce(rows: seq<Row>, row: Row)
    requires forall i, j :: 0 <= i < j < |rows| ==> rows[i].id != rows[j].id
    ensures multiset(rows)[row] <= 1
  {
    if rows != [] {
      var rest := rows[..|rows| - 1];
      assert rows == rest + [rows[|rest|]];
      AtMostOnce(rest, row);
      if rows[|rest|] == row {
        assert row !in rest;
        assert row !in multiset(rest);
      }
    }
  }

  lemma Twice(rows: seq<Row>, i: nat, j: nat)
    requires i < j < |rows| && rows[i] == rows[j]
    ensures multiset(rows)[rows[i]] >= 2
  {
    assert rows == rows[..j] + [rows[j]] + rows[j + 1..];
    assert rows[..j][i] in multiset(rows[..j]);
  }

  lemma RowPending(env: Env, w: World, u: World, row: Row, scope: Scope, horizon: int)
    requires row.id in w.rows && row.id in u.rows && w.rows[row.id] == u.rows[row.id]
    ensures row.id in Pending(env, w, scope, horizon) <==> row.id in Pending(env, u, scope, horizon)
  {
  }

  lemma SameRenewal(env: Env, w: World, u: World, row: Row, v: Visit, horizon: int)
    requires RecordOf(w, row.id) == RecordOf(u, row.id)
    ensures Renews(env, w, row, v, horizon) == Renews(env, u, row, v, horizon)
    ensures Renews(env, w, row, v, horizon) ==> IsRefreshDue(env, row, v.checkedAt)
  {
  }

  /** Part of a pass: rows still to come are untouched, nothing becomes pending, and the first pending
      row finds the slot free. */
  lemma {:induction false} PartOfPass(
    env: Env, w: World, listed: seq<Row>, visits: seq<Visit>, scope: Scope, start: int, horizon: int, k: nat)
    requires Drains(env, w, listed, visits, scope, start, horizon) && k <= |listed|
    ensures
      var order, pending := Order(env, listed), Pending(env, w, scope, horizon);
      var w' := Passed(env, w, order, visits, k).world;
      && (forall j :: k <= j < |order| ==> order[j].id in w'.rows && w'.rows[order[j].id] == order[j]
                                           && RecordOf(w', order[j].id) == RecordOf(w, order[j].id))
      && Pending(env, w', scope, horizon) <= pending
      && ((forall j :: 0 <= j < k ==> order[j].id !in pending) ==> SlotOf(w', scope) == SlotOf(w, scope))
      && ((exists j :: 0 <= j < k && order[j].id in pending) ==> Pending(env, w', scope, horizon) != pending)
  {
    hide IsRefreshDue, Pending, Visited, RecordOf, SlotOf, ScopeOf, Renews, StableSort.Sort;
    OrderKeepsRows(env, listed);
    var order, pending := Order(env, listed), Pending(env, w, scope, horizon);
    forall j | 0 <= j < |order| ensures order[j].id in w.rows && w.rows[order[j].id] == order[j] {
      assert order[j] in listed;
    }
    if k > 0 {
      PartOfPass(env, w, listed, visits, scope, start, horizon, k - 1);
      var u := Passed(env, w, order, visits, k - 1).world;
      var row, v := order[k - 1], visits[k - 1];
      assert row in listed;
      RowPending(env, w, u, row, scope, horizon);
      SameRenewal(env, w, u, row, v, horizon);
      if IsRefreshDue(env, row, v.checkedAt) {
        VisitEffect(env, u, row, v, scope, horizon);
      }
    }
  }

  function AfterPass(env: Env, w: World, listed: seq<Row>, visits: seq<Visit>): World
    requires |visits| == |listed|
  {
    Passed(env, w, Order(env, listed), visits, |listed|).world
  }

  /** A pass that finds the slot free renews at least one pending account and makes none pending. */
  lemma PassRenewsOne(
    env: Env, w: World, listed: seq<Row>, visits: seq<Visit>, scope: Scope, start: int, horizon: int)
    requires Drains(env, w, listed, visits, scope, start, horizon)
    ensures var left := Pending(env, AfterPass(env, w, listed, visits), scope, horizon);
      var pending := Pending(env, w, scope, horizon);
      left <= pending && (pending != {} ==> |left| < |pending|)
  {
    hide Passed, Order, Renews, SlotOf, ScopeOf, IsRefreshDue, IsManaged;
    var order, pending := Order(env, listed), Pending(env, w, scope, horizon);
    PartOfPass(env, w, listed, visits, scope, start, horizon, |listed|);
    var left := Pending(env, AfterPass(env, w, listed, visits), scope, horizon);
    if pending != {} {
      var id := AnyOf(pending);
      OrderKeepsRows(env, listed);
      assert w.rows[id] in order;
      var j :| 0 <= j < |order| && order[j] == w.rows[id];
      assert order[j].id in pending;
      assert left < pending;
      SmallerSet(left, pending);
    }
  }

  lemma AnyOf(ids: set<int>) returns (id: int)
    requires ids != {}
    ensures id in ids
  {
    assert (forall x :: x !in ids) ==> ids == {};
    id :| id in ids;
  }

  lemma SmallerSet(a: set<int>, b: set<int>)
    requires a < b
    ensures |a| < |b|
  {
    assert b == a + (b - a);
    assert b - a != {};
  }

  /** A pass, and the instant from which its scope's slot is free. */
  datatype Pass = Pass(before: World, listed: seq<Row>, visits: seq<Visit>, start: int)

  /** Passes one after the other; between them anything may happen that makes no account pending. */
  ghost predicate DrainingPasses(env: Env, passes: seq<Pass>, scope: Scope, horizon: int) {
    && (forall k :: 0 <= k < |passes| ==>
          Drains(env, passes[k].before, passes[k].listed, passes[k].visits, scope, passes[k].start, horizon))
    && (forall k :: 0 < k < |passes| ==>
          Pending(env, passes[k].before, scope, horizon)
          <= Pending(env, AfterPass(env, passes[k - 1].before, passes[k - 1].listed, passes[k - 1].visits),
                     scope, horizon))
  }

  /** n due accounts of one scope are all renewed after n passes. */
  lemma {:induction false} ScopeDrains(env: Env, passes: seq<Pass>, scope: Scope, horizon: int, k: nat)
    requires k < |passes| && DrainingPasses(env, passes, scope, horizon)
    ensures var left := Pending(env, AfterPass(env, passes[k].before, passes[k].listed, passes[k].visits),
                                scope, horizon);
      |left| <= Max(0, |Pending(env, passes[0].before, scope, horizon)| - (k + 1))
  {
    hide Pending, AfterPass, StableSort.Sort, Renews, SlotOf, ScopeOf, Order;
    PassRenewsOne(env, passes[k].before, passes[k].listed, passes[k].visits, scope, passes[k].start, horizon);
    var pending := Pending(env, passes[k].before, scope, horizon);
    var left := Pending(env, AfterPass(env, passes[k].before, passes[k].listed, passes[k].visits), scope, horizon);
    SubsetSize(left, pending);
    if k > 0 {
      ScopeDrains(env, passes, scope, horizon, k - 1);
      var p := passes[k - 1];
      SubsetSize(pending, Pending(env, AfterPass(env, p.before, p.listed, p.visits), scope, horizon));
    }
  }

  lemma SubsetSize(a: set<int>, b: set<int>)
    requires a <= b
    ensures |a| <= |b|
  {
    assert b == a + (b - a);
  }
}
