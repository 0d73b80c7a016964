/** Randomized check-ins (service/scheduler.go:134-161, 228-248): the window clamp and the pass that
    keeps accounts of one site apart. Instants and delays are nanoseconds of local time, in days of
    24 hours. */
module CheckinSpacing {
  import opened RefreshTiming

  const DAY := 24 * HOUR
  const LEAST_GAP := 2 * MINUTE
  const MOST_GAP := 5 * MINUTE

  /** What the random generator returns: a minute of 60, a minute of 30, a second. */
  datatype Draw = Draw(late: nat, early: nat, second: nat)

  predicate ValidDraw(d: Draw) {
    d.late < 60 && d.early < 30 && d.second < 60
  }

  /** The hours of the check-in window, from `start` up to but not including `end`. */
  datatype Window = Window(start: int, end: int)

  predicate ValidWindow(w: Window) {
    0 <= w.start < w.end <= 24
  }

  function HourOf(t: int): int {
    t % DAY / HOUR
  }

  /** time.Date on the day of `t`. */
  function OnDayOf(t: int, hour: int, minute: int, second: int): int {
    t - t % DAY + hour * HOUR + minute * MINUTE + second * SECOND
  }

  function Late(t: int, w: Window, d: Draw): int {
    OnDayOf(t, if w.end - 1 < 0 then 0 else w.end - 1, d.late, d.second)
  }

  function Early(t: int, w: Window, d: Draw): int {
    OnDayOf(t, w.start, d.early, d.second)
  }

  function ClampCheckinTime(base: int, delay: int, w: Window, d: Draw): int {
    var scheduled := base + delay;
    if HourOf(scheduled) >= w.end then
      var end := Late(scheduled, w, d);
      if end < base then 0 else end - base
    else if HourOf(scheduled) < w.start then
      var start := Early(scheduled, w, d);
      if start < base then 0 else start - base
    else delay
  }

  predicate InWindow(t: int, w: Window) {
    w.start <= HourOf(t) < w.end
  }

  lemma QuotientOf(q: int, r: int, d: int)
    requires 0 <= r < d
    ensures (q * d + r) / d == q && (q * d + r) % d == r
  {
    var x := q * d + r;
    var e := x / d - q;
    assert e * d == r - x % d;
    assert e >= 1 ==> e * d >= d;
    assert e <= -1 ==> e * d <= -d;
  }

  lemma HourOnDay(t: int, hour: int, minute: int, second: int)
    requires 0 <= hour < 24 && 0 <= minute < 60 && 0 <= second < 60
    ensures HourOf(OnDayOf(t, hour, minute, second)) == hour
    ensures OnDayOf(t, hour, minute, second) % DAY == hour * HOUR + minute * MINUTE + second * SECOND
  {
    var within := minute * MINUTE + second * SECOND;
    QuotientOf(t / DAY, hour * HOUR + within, DAY);
    QuotientOf(hour, within, HOUR);
  }

  /** The clamped instant lies in the window, unless the schedule fell behind the window's end and the
      instant drawn in the last hour of that day is already past; then the delay is 0. A schedule within
      the window is kept. */
  lemma ClampHitsWindow(base: int, delay: int, w: Window, d: Draw)
    requires ValidWindow(w) && ValidDraw(d) && delay >= 0
    ensures var r := ClampCheckinTime(base, delay, w, d);
      var missed := HourOf(base + delay) >= w.end && Late(base + delay, w, d) < base;
      && r >= 0
      && (missed ==> r == 0)
      && (!missed ==> InWindow(base + r, w))
      && (InWindow(base + delay, w) ==> r == delay)
  {
    HourOnDay(base + delay, w.end - 1, d.late, d.second);
    HourOnDay(base + delay, w.start, d.early, d.second);
    hide OnDayOf, HourOf;
    if HourOf(base + delay) < w.start {
      EarlyIsLater(base + delay, w, d);
    }
  }

  /** Where a check-in outside the window goes: on its own day, into the last hour of the window at a drawn
      minute, or into the first half hour of it, at a drawn second. */
  lemma ClampedInstant(base: int, delay: int, w: Window, d: Draw)
    requires ValidWindow(w) && ValidDraw(d) && delay >= 0
    ensures var t, r := base + delay, ClampCheckinTime(base, delay, w, d);
      var midnight := t / DAY * DAY;
      var late := midnight + (w.end - 1) * HOUR + d.late * MINUTE + d.second * SECOND;
      && (HourOf(t) >= w.end ==> r == if late < base then 0 else late - base)
      && (HourOf(t) < w.start ==> base + r == midnight + w.start * HOUR + d.early * MINUTE + d.second * SECOND)
  {
    assert base + delay == (base + delay) / DAY * DAY + (base + delay) % DAY;
    if HourOf(base + delay) < w.start {
      EarlyIsLater(base + delay, w, d);
    }
  }

  /** Pushing forward to the window's start on the same day never goes back in time. */
  lemma EarlyIsLater(t: int, w: Window, d: Draw)
    requires ValidWindow(w) && ValidDraw(d) && HourOf(t) < w.start
    ensures Early(t, w, d) > t
  {
  }

  /** Clamping a clamped delay again changes nothing, whatever is drawn. */
  lemma ClampIsIdempotent(base: int, delay: int, w: Window, d: Draw, d': Draw)
    requires ValidWindow(w) && ValidDraw(d) && ValidDraw(d') && delay >= 0
    ensures var r := ClampCheckinTime(base, delay, w, d); ClampCheckinTime(base, r, w, d') == r
  {
    hide OnDayOf, HourOf;
    var scheduled := base + delay;
    ClampHitsWindow(base, delay, w, d);
    if HourOf(scheduled) >= w.end && Late(scheduled, w, d) < base {
      MissedIsSameDay(base, scheduled, w, d);
      if HourOf(base) >= w.end {
        LateIsEarlier(base, w, d');
      }
    }
  }

  /** The last hour of the window lies before an instant of the same day behind the window. */
  lemma LateIsEarlier(t: int, w: Window, d: Draw)
    requires ValidWindow(w) && ValidDraw(d) && HourOf(t) >= w.end
    ensures Late(t, w, d) < t
  {
  }

  /** If the instant drawn is past, today is its day and its hour has begun. */
  lemma MissedIsSameDay(base: int, scheduled: int, w: Window, d: Draw)
    requires ValidWindow(w) && ValidDraw(d) && base <= scheduled && Late(scheduled, w, d) < base
    ensures HourOf(base) >= w.end - 1
  {
    var midnight := scheduled / DAY * DAY;
    assert midnight + (w.end - 1) * HOUR <= Late(scheduled, w, d);
    assert midnight <= base < midnight + DAY;
    QuotientOf(scheduled / DAY, base - midnight, DAY);
    assert base % DAY == base - midnight;
  }

  // ---- Gaps ----

  /** The random choices of one step of the pass. */
  datatype Luck = Luck(gapMinutes: int, draw: Draw)

  ghost predicate ValidLuck(luck: nat -> Luck) {
    forall k :: 2 <= luck(k).gapMinutes <= 5 && ValidDraw(luck(k).draw)
  }

  /** The delay of the k-th account of a group, given the one before. */
  function Spread(delay: int, prev: int, base: int, w: Window, l: Luck): int {
    if delay - prev < l.gapMinutes * MINUTE
    then ClampCheckinTime(base, prev + l.gapMinutes * MINUTE, w, l.draw) else delay
  }

  /** The delays after the first `k` accounts of the group `order` were gone through. */
  function Gapped(delays: seq<int>, order: seq<nat>, base: int, w: Window, luck: nat -> Luck, k: nat): (r: seq<int>)
    requires k <= |order| && forall j :: 0 <= j < |order| ==> order[j] < |delays|
    ensures |r| == |delays|
  {
    if k <= 1 then delays
    else
      var r := Gapped(delays, order, base, w, luck, k - 1);
      r[order[k - 1] := Spread(r[order[k - 1]], r[order[k - 2]], base, w, luck(k - 1))]
  }

  /** Indices of one site, each once, by ascending delay: any result of sorting them, stable or not. */
  predicate IsOrder(delays: seq<int>, order: seq<nat>) {
    && (forall j :: 0 <= j < |order| ==> order[j] < |delays|)
    && (forall i, j :: 0 <= i < j < |order| ==> order[i] != order[j] && delays[order[i]] <= delays[order[j]])
  }

  /** The pass over one site, in place. */
  method EnforceGaps(delays: array<int>, order: seq<nat>, base: int, w: Window, luck: nat -> Luck)
    requires forall j :: 0 <= j < |order| ==> order[j] < delays.Length
    modifies delays
    ensures delays[..] == Gapped(old(delays[..]), order, base, w, luck, |order|)
  {
    hide ClampCheckinTime;
    if |order| <= 1 {
      return;
    }
    var k := 1;
    while k < |order|
      invariant 1 <= k <= |order|
      invariant delays[..] == Gapped(old(delays[..]), order, base, w, luck, k)
    {
      var minGap := luck(k).gapMinutes * MINUTE;
      var prev := delays[order[k - 1]];
      if delays[order[k]] - prev < minGap {
        delays[order[k]] := prev + minGap;
        delays[order[k]] := ClampCheckinTime(base, delays[order[k]], w, luck(k).draw);
      }
      k := k + 1;
    }
  }

  /** A step keeps its account at least two minutes behind the one before, whatever the clamp draws,
      exactly if it bumps nothing or bumps to an hour before the window's end. */
  lemma StepKeepsGapIff(delay: int, prev: int, base: int, w: Window, gapMinutes: int)
    requires ValidWindow(w) && prev >= 0 && 2 <= gapMinutes <= 5
    ensures (forall d :: ValidDraw(d) ==> Spread(delay, prev, base, w, Luck(gapMinutes, d)) - prev >= LEAST_GAP)
       <==> delay - prev >= gapMinutes * MINUTE || HourOf(base + prev + gapMinutes * MINUTE) < w.end
  {
    hide HourOf, OnDayOf;
    var bumped := prev + gapMinutes * MINUTE;
    if HourOf(base + bumped) >= w.end {
      var first := Draw(0, 0, 0);
      LateByAnHour(base + bumped, w);
      assert ValidDraw(first);
      assert ClampCheckinTime(base, bumped, w, first) - prev < LEAST_GAP;
      if delay - prev < gapMinutes * MINUTE {
        assert Spread(delay, prev, base, w, Luck(gapMinutes, first)) == ClampCheckinTime(base, bumped, w, first);
      }
    } else {
      forall d | ValidDraw(d) ensures ClampCheckinTime(base, bumped, w, d) >= bumped {
        if HourOf(base + bumped) < w.start {
          EarlyIsLater(base + bumped, w, d);
        }
      }
    }
  }

  /** The first instant of the window's last hour is at least an hour before anything behind the window. */
  lemma LateByAnHour(t: int, w: Window)
    requires ValidWindow(w) && HourOf(t) >= w.end
    ensures Late(t, w, Draw(0, 0, 0)) <= t - HOUR
  {
  }

  // ---- A whole group ----

  /** None of the delays bumped in the first `n` steps is moved by the clamp. */
  ghost predicate BumpsStay(delays: seq<int>, order: seq<nat>, base: int, w: Window, luck: nat -> Luck, n: nat)
    requires n <= |order| && forall j :: 0 <= j < |order| ==> order[j] < |delays|
  {
    forall k :: 1 <= k < n ==>
      var r := Gapped(delays, order, base, w, luck, k);
      var bumped := r[order[k - 1]] + luck(k).gapMinutes * MINUTE;
      r[order[k]] < bumped ==> InWindow(base + bumped, w)
  }

  /** Delays the pass has not come to are as they were. */
  ghost predicate Untouched(delays: seq<int>, order: seq<nat>, r: seq<int>, k: nat)
    requires k <= |order| && |r| == |delays|
  {
    forall i :: 0 <= i < |r| && i !in order[..k] ==> r[i] == delays[i]
  }

  /** No delay decreased, nor exceeds the largest by more than five minutes for each account before it. */
  ghost predicate Bounded(delays: seq<int>, order: seq<nat>, r: seq<int>, k: nat)
    requires k <= |order| && |r| == |delays| && forall j :: 0 <= j < |order| ==> order[j] < |delays|
  {
    forall j :: 0 <= j < k ==> delays[order[j]] <= r[order[j]] <= delays[order[|order| - 1]] + j * MOST_GAP
  }

  ghost predicate Apart(order: seq<nat>, r: seq<int>, k: nat)
    requires k <= |order| && forall j :: 0 <= j < |order| ==> order[j] < |r|
  {
    forall j :: 1 <= j < k ==> r[order[j]] - r[order[j - 1]] >= LEAST_GAP
  }

  /** If no bumped delay is moved by the clamp, accounts of the site end up at least two minutes apart, no
      delay decreases, none exceeds the largest by more than five minutes for each account before it, and
      all other delays stay. */
  lemma {:induction false} GapsKept(delays: seq<int>, order: seq<nat>, base: int, w: Window, luck: nat -> Luck, k: nat)
    requires IsOrder(delays, order) && 0 < k <= |order| && ValidLuck(luck)
    requires BumpsStay(delays, order, base, w, luck, k)
    ensures var r := Gapped(delays, order, base, w, luck, k);
      Untouched(delays, order, r, k) && Bounded(delays, order, r, k) && Apart(order, r, k)
  {
    hide BumpsStay, HourOf, Untouched, Bounded, Apart;
    if k > 1 {
      FewerBumpsStay(delays, order, base, w, luck, k - 1, k);
      GapsKept(delays, order, base, w, luck, k - 1);
      BumpStays(delays, order, base, w, luck, k - 1);
      var r := Gapped(delays, order, base, w, luck, k - 1);
      var spread := Spread(r[order[k - 1]], r[order[k - 2]], base, w, luck(k - 1));
      OneMoreGap(delays, order, r, spread, luck(k - 1).gapMinutes, k);
    } else {
      FirstHolds(delays, order);
    }
  }

  lemma FirstHolds(delays: seq<int>, order: seq<nat>)
    requires IsOrder(delays, order) && 0 < |order|
    ensures Untouched(delays, order, delays, 1) && Bounded(delays, order, delays, 1) && Apart(order, delays, 1)
  {
    assert delays[order[0]] <= delays[order[|order| - 1]];
  }

  lemma OneMoreGap(delays: seq<int>, order: seq<nat>, r: seq<int>, v: int, gapMinutes: int, k: nat)
    requires IsOrder(delays, order) && |r| == |delays| && 1 < k <= |order| && 2 <= gapMinutes <= 5
    requires Untouched(delays, order, r, k - 1) && Bounded(delays, order, r, k - 1) && Apart(order, r, k - 1)
    requires var bumped := r[order[k - 2]] + gapMinutes * MINUTE;
      v == if r[order[k - 1]] < bumped then bumped else r[order[k - 1]]
    ensures var r' := r[order[k - 1] := v];
      Untouched(delays, order, r', k) && Bounded(delays, order, r', k) && Apart(order, r', k)
  {
    hide Bounded, Apart;
    var r' := r[order[k - 1] := v];
    assert order[k - 1] !in order[..k - 1];
    assert order[..k] == order[..k - 1] + [order[k - 1]];
    forall j | 0 <= j < k - 1 ensures r'[order[j]] == r[order[j]] {
      assert order[j] != order[k - 1];
    }
    OneMoreBounded(delays, order, r, r', gapMinutes, k);
    OneMoreApart(delays, order, r, r', k);
  }

  lemma OneMoreBounded(delays: seq<int>, order: seq<nat>, r: seq<int>, r': seq<int>, gapMinutes: int, k: nat)
    requires IsOrder(delays, order) && |r| == |r'| == |delays| && 1 < k <= |order| && gapMinutes <= 5
    requires Bounded(delays, order, r, k - 1) && forall j :: 0 <= j < k - 1 ==> r'[order[j]] == r[order[j]]
    requires r[order[k - 1]] == delays[order[k - 1]]
    requires var bumped := r[order[k - 2]] + gapMinutes * MINUTE;
      r'[order[k - 1]] == if r[order[k - 1]] < bumped then bumped else r[order[k - 1]]
    ensures Bounded(delays, order, r', k)
  {
    var last := delays[order[|order| - 1]];
    assert delays[order[k - 1]] <= last;
    assert r[order[k - 2]] <= last + (k - 2) * MOST_GAP;
    assert gapMinutes * MINUTE <= MOST_GAP;
  }

  lemma OneMoreApart(delays: seq<int>, order: seq<nat>, r: seq<int>, r': seq<int>, k: nat)
    requires IsOrder(delays, order) && |r| == |r'| == |delays| && 1 < k <= |order|
    requires Apart(order, r, k - 1) && forall j :: 0 <= j < k - 1 ==> r'[order[j]] == r[order[j]]
    requires r'[order[k - 1]] - r'[order[k - 2]] >= LEAST_GAP
    ensures Apart(order, r', k)
  {
    hide IsOrder;
  }

  lemma BumpStays(delays: seq<int>, order: seq<nat>, base: int, w: Window, luck: nat -> Luck, k: nat)
    requires IsOrder(delays, order) && 1 <= k < |order|
    requires BumpsStay(delays, order, base, w, luck, k + 1)
    ensures var r := Gapped(delays, order, base, w, luck, k);
      var bumped := r[order[k - 1]] + luck(k).gapMinutes * MINUTE;
      Spread(r[order[k]], r[order[k - 1]], base, w, luck(k)) == if r[order[k]] < bumped then bumped else r[order[k]]
  {
    hide HourOf, Gapped, OnDayOf;
  }

  lemma FewerBumpsStay(
    delays: seq<int>, order: seq<nat>, base: int, w: Window, luck: nat -> Luck, n: nat, more: nat)
    requires n <= more <= |order| && forall j :: 0 <= j < |order| ==> order[j] < |delays|
    requires BumpsStay(delays, order, base, w, luck, more)
    ensures BumpsStay(delays, order, base, w, luck, n)
  {
    hide InWindow;
  }

  // ---- Room before the window closes ----

  /** What can be checked before the pass: the first check-in of the group lies in the window, and so
      does the last one with five minutes more for each account before it, on the same day. */
  predicate HasRoom(delays: seq<int>, order: seq<nat>, base: int, w: Window)
    requires forall j :: 0 <= j < |order| ==> order[j] < |delays|
  {
    order != [] ==>
      var first := base + delays[order[0]];
      var latest := base + delays[order[|order| - 1]] + (|order| - 1) * MOST_GAP;
      first / DAY == latest / DAY && InWindow(first, w) && InWindow(latest, w)
  }

  /** Between two instants of one day's window there are only instants of the window. */
  lemma WindowIsConvex(first: int, t: int, latest: int, w: Window)
    requires first <= t <= latest && first / DAY == latest / DAY
    requires InWindow(first, w) && InWindow(latest, w)
    ensures InWindow(t, w)
  {
    var midnight := first / DAY * DAY;
    assert midnight <= first && latest < midnight + DAY;
    QuotientOf(first / DAY, t - midnight, DAY);
    assert first % DAY == first - midnight && latest % DAY == latest - midnight && t % DAY == t - midnight;
    HoursAscend(first % DAY, t % DAY);
    HoursAscend(t % DAY, latest % DAY);
  }

  lemma HoursAscend(a: int, b: int)
    requires a <= b
    ensures a / HOUR <= b / HOUR
  {
  }

  /** With room, whatever is drawn, no bumped delay is moved by the clamp. */
  lemma {:induction false} RoomKeepsBumps(
    delays: seq<int>, order: seq<nat>, base: int, w: Window, luck: nat -> Luck, n: nat)
    requires IsOrder(delays, order) && ValidLuck(luck) && HasRoom(delays, order, base, w) && n <= |order|
    ensures BumpsStay(delays, order, base, w, luck, n)
  {
    hide InWindow, Gapped, Untouched, Apart, HourOf;
    if n > 1 {
      RoomKeepsBumps(delays, order, base, w, luck, n - 1);
      GapsKept(delays, order, base, w, luck, n - 1);
      var r := Gapped(delays, order, base, w, luck, n - 1);
      BumpInRoom(delays, order, base, w, r, luck(n - 1).gapMinutes, n - 1);
    }
  }

  lemma BumpInRoom(
    delays: seq<int>, order: seq<nat>, base: int, w: Window, r: seq<int>, gapMinutes: int, k: nat)
    requires IsOrder(delays, order) && HasRoom(delays, order, base, w) && |r| == |delays| && 1 <= k < |order|
    requires 2 <= gapMinutes <= 5 && Bounded(delays, order, r, k)
    ensures InWindow(base + (r[order[k - 1]] + gapMinutes * MINUTE), w)
  {
    hide InWindow;
    var last := delays[order[|order| - 1]];
    assert delays[order[0]] <= delays[order[k - 1]] <= r[order[k - 1]] by {
      assert k - 1 > 0 ==> delays[order[0]] <= delays[order[k - 1]];
    }
    assert r[order[k - 1]] <= last + (k - 1) * MOST_GAP;
    assert (k - 1) * MOST_GAP + MOST_GAP <= (|order| - 1) * MOST_GAP;
    WindowIsConvex(base + delays[order[0]], base + (r[order[k - 1]] + gapMinutes * MINUTE),
                   base + last + (|order| - 1) * MOST_GAP, w);
  }

  // ---- All sites ----

  /** Groups of different sites have no account in common. */
  predicate Disjoint(groups: seq<seq<nat>>) {
    forall g, h, i, j :: 0 <= g < h < |groups| && 0 <= i < |groups[g]| && 0 <= j < |groups[h]|
      ==> groups[g][i] != groups[h][j]
  }

  predicate Within(groups: seq<seq<nat>>, n: nat) {
    forall g, j :: 0 <= g < |groups| && 0 <= j < |groups[g]| ==> groups[g][j] < n
  }

  /** The delays after the first `m` groups, in any order of the sites. */
  function AllGapped(
    delays: seq<int>, groups: seq<seq<nat>>, base: int, w: Window, luck: nat -> nat -> Luck, m: nat): (r: seq<int>)
    requires m <= |groups| && Within(groups, |delays|)
    ensures |r| == |delays|
  {
    if m == 0 then delays
    else
      Gapped(AllGapped(delays, groups, base, w, luck, m - 1), groups[m - 1], base, w, luck(m - 1), |groups[m - 1]|)
  }

  method EnforceAllGaps(delays: array<int>, groups: seq<seq<nat>>, base: int, w: Window, luck: nat -> nat -> Luck)
    requires Within(groups, delays.Length)
    modifies delays
    ensures delays[..] == AllGapped(old(delays[..]), groups, base, w, luck, |groups|)
  {
    hide Gapped;
    for m := 0 to |groups|
      invariant delays[..] == AllGapped(old(delays[..]), groups, base, w, luck, m)
    {
      EnforceGaps(delays, groups[m], base, w, luck(m));
    }
  }

  /** The pass over a group reads and writes only that group. */
  lemma {:induction false} GappedIsLocal(
    delays: seq<int>, other: seq<int>, order: seq<nat>, base: int, w: Window, luck: nat -> Luck, k: nat)
    requires |delays| == |other| && k <= |order| && forall j :: 0 <= j < |order| ==> order[j] < |delays|
    requires forall j :: 0 <= j < |order| ==> delays[order[j]] == other[order[j]]
    ensures var r, r' := Gapped(delays, order, base, w, luck, k), Gapped(other, order, base, w, luck, k);
      && (forall j :: 0 <= j < |order| ==> r[order[j]] == r'[order[j]])
      && (forall i :: 0 <= i < |delays| && i !in order ==> r[i] == delays[i])
  {
    hide Spread;
    if k > 1 {
      GappedIsLocal(delays, other, order, base, w, luck, k - 1);
      assert order[k - 1] in order;
    }
  }

  /** What the whole pass leaves at a group is what the pass over that group alone makes of it. */
  lemma {:induction false} EachGroupAlone(
    delays: seq<int>, groups: seq<seq<nat>>, base: int, w: Window, luck: nat -> nat -> Luck, m: nat, g: nat, j: nat)
    requires m <= |groups| && Within(groups, |delays|) && Disjoint(groups)
    requires g < |groups| && j < |groups[g]|
    ensures AllGapped(delays, groups, base, w, luck, m)[groups[g][j]]
         == if g < m then Gapped(delays, groups[g], base, w, luck(g), |groups[g]|)[groups[g][j]]
            else delays[groups[g][j]]
  {
    hide Gapped, Disjoint;
    if m > 0 {
      EachGroupAlone(delays, groups, base, w, luck, m - 1, g, j);
      var before := AllGapped(delays, groups, base, w, luck, m - 1);
      if g == m - 1 {
        forall i | 0 <= i < |groups[g]| ensures before[groups[g][i]] == delays[groups[g][i]] {
          EachGroupAlone(delays, groups, base, w, luck, m - 1, g, i);
        }
        GappedIsLocal(before, delays, groups[g], base, w, luck(g), |groups[g]|);
      } else {
        OtherGroup(groups, g, m - 1, j);
        GappedIsLocal(before, before, groups[m - 1], base, w, luck(m - 1), |groups[m - 1]|);
      }
    }
  }

  lemma OtherGroup(groups: seq<seq<nat>>, g: nat, h: nat, j: nat)
    requires Disjoint(groups) && g < |groups| && h < |groups| && g != h && j < |groups[g]|
    ensures groups[g][j] !in groups[h]
  {
  }

  /** Same-site accounts at least two minutes apart, for every site at once. */
  lemma AllGapsKept(
    delays: seq<int>, groups: seq<seq<nat>>, base: int, w: Window, luck: nat -> nat -> Luck, g: nat)
    requires Within(groups, |delays|) && Disjoint(groups) && g < |groups|
    requires IsOrder(delays, groups[g]) && ValidLuck(luck(g))
    requires BumpsStay(delays, groups[g], base, w, luck(g), |groups[g]|)
    ensures var r := AllGapped(delays, groups, base, w, luck, |groups|);
      && (forall j :: 1 <= j < |groups[g]| ==> r[groups[g][j]] - r[groups[g][j - 1]] >= LEAST_GAP)
      && (forall j :: 0 <= j < |groups[g]| ==>
            delays[groups[g][j]] <= r[groups[g][j]] <= delays[groups[g][|groups[g]| - 1]] + j * MOST_GAP)
  {
    hide Gapped, AllGapped, BumpsStay, Disjoint;
    if |groups[g]| > 0 {
      GapsKept(delays, groups[g], base, w, luck(g), |groups[g]|);
      forall j | 0 <= j < |groups[g]|
        ensures AllGapped(delays, groups, base, w, luck, |groups|)[groups[g][j]]
             == Gapped(delays, groups[g], base, w, luck(g), |groups[g]|)[groups[g][j]]
      {
        EachGroupAlone(delays, groups, base, w, luck, |groups|, g, j);
      }
    }
  }

  /** In particular whenever the group has room before its window closes, whatever is drawn. */
  lemma GapsWithRoom(
    delays: seq<int>, groups: seq<seq<nat>>, base: int, w: Window, luck: nat -> nat -> Luck, g: nat)
    requires Within(groups, |delays|) && Disjoint(groups) && g < |groups|
    requires IsOrder(delays, groups[g]) && ValidLuck(luck(g)) && HasRoom(delays, groups[g], base, w)
    ensures var r := AllGapped(delays, groups, base, w, luck, |groups|);
      && (forall j :: 1 <= j < |groups[g]| ==> r[groups[g][j]] - r[groups[g][j - 1]] >= LEAST_GAP)
      && (forall j :: 0 <= j < |groups[g]| ==>
            delays[groups[g][j]] <= r[groups[g][j]] <= delays[groups[g][|groups[g]| - 1]] + j * MOST_GAP)
  {
    hide Gapped, AllGapped, BumpsStay, Disjoint, HasRoom;
    RoomKeepsBumps(delays, groups[g], base, w, luck(g), |groups[g]|);
    AllGapsKept(delays, groups, base, w, luck, g);
  }
}
