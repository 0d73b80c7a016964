/** When the pass over one site keeps its check-ins apart for all random draws
    (service/scheduler.go:134-161, 229-248). */
module CheckinWorstCase {
  import opened RefreshTiming
  import opened CheckinSpacing

  // ---- The worst draw ----

  /** The k-th delay if every gap drawn is five minutes and the clamp moves nothing. */
  function Worst(delays: seq<int>, order: seq<nat>, k: nat): (d: int)
    requires k < |order| && forall j :: 0 <= j < |order| ==> order[j] < |delays|
    ensures d >= delays[order[k]]
  {
    if k == 0 then delays[order[0]]
    else
      var bumped := Worst(delays, order, k - 1) + MOST_GAP;
      if delays[order[k]] < bumped then bumped else delays[order[k]]
  }

  /** Even then, each of the first `n` delays is bumped, if at all, to an hour before the window's end. */
  predicate WorstFits(delays: seq<int>, order: seq<nat>, base: int, w: Window, n: nat)
    requires n <= |order| && forall j :: 0 <= j < |order| ==> order[j] < |delays|
  {
    forall k :: 1 <= k < n ==>
      var bumped := Worst(delays, order, k - 1) + MOST_GAP;
      delays[order[k]] < bumped ==> HourOf(base + bumped) < w.end
  }

  /** Every drawn check-in lies in the window. */
  predicate AllInWindow(delays: seq<int>, order: seq<nat>, base: int, w: Window)
    requires forall j :: 0 <= j < |order| ==> order[j] < |delays|
  {
    forall j :: 0 <= j < |order| ==> delays[order[j]] >= 0 && InWindow(base + delays[order[j]], w)
  }

  /** A few minutes past an instant of a window that ends before midnight it is still the same day. */
  lemma SameDayBump(t: int, gap: int, w: Window)
    requires ValidWindow(w) && w.end < 24 && InWindow(t, w) && 0 <= gap <= MOST_GAP
    ensures (t + gap) / DAY == t / DAY && HourOf(t + gap) >= w.start
  {
    assert t % DAY < 23 * HOUR;
    QuotientOf(t / DAY, t % DAY + gap, DAY);
    assert t == t / DAY * DAY + t % DAY;
    HoursAscend(t % DAY, t % DAY + gap);
  }

  /** While the worst draw fits, any other stays behind it, on the same day and in the window. */
  lemma {:induction false} BehindWorst(
    delays: seq<int>, order: seq<nat>, base: int, w: Window, luck: nat -> Luck, k: nat)
    requires IsOrder(delays, order) && ValidLuck(luck) && ValidWindow(w) && w.end < 24
    requires AllInWindow(delays, order, base, w) && 0 < k <= |order| && WorstFits(delays, order, base, w, k)
    ensures var r, worst := Gapped(delays, order, base, w, luck, k)[order[k - 1]], Worst(delays, order, k - 1);
      && delays[order[k - 1]] <= r <= worst
      && InWindow(base + r, w) && InWindow(base + worst, w) && (base + r) / DAY == (base + worst) / DAY
    ensures BumpsStay(delays, order, base, w, luck, k)
  {
    hide InWindow, HourOf, OnDayOf, Gapped, Worst, BumpsStay, AllInWindow, WorstFits, ValidLuck;
    if k == 1 {
      FirstStays(delays, order, base, w, luck);
    } else {
      FewerFit(delays, order, base, w, k - 1, k);
      BehindWorst(delays, order, base, w, luck, k - 1);
      StepBehindWorst(delays, order, base, w, luck, k - 1);
    }
  }

  lemma FirstStays(delays: seq<int>, order: seq<nat>, base: int, w: Window, luck: nat -> Luck)
    requires IsOrder(delays, order) && 0 < |order| && AllInWindow(delays, order, base, w)
    ensures Gapped(delays, order, base, w, luck, 1) == delays && Worst(delays, order, 0) == delays[order[0]]
    ensures InWindow(base + delays[order[0]], w) && BumpsStay(delays, order, base, w, luck, 1)
  {
    hide InWindow;
  }

  lemma FewerFit(delays: seq<int>, order: seq<nat>, base: int, w: Window, n: nat, more: nat)
    requires n <= more <= |order| && forall j :: 0 <= j < |order| ==> order[j] < |delays|
    requires WorstFits(delays, order, base, w, more)
    ensures WorstFits(delays, order, base, w, n)
  {
    hide HourOf;
  }

  lemma StepBehindWorst(delays: seq<int>, order: seq<nat>, base: int, w: Window, luck: nat -> Luck, k: nat)
    requires IsOrder(delays, order) && ValidLuck(luck) && ValidWindow(w) && w.end < 24
    requires AllInWindow(delays, order, base, w) && 0 < k < |order| && WorstFits(delays, order, base, w, k + 1)
    requires BumpsStay(delays, order, base, w, luck, k)
    requires var r, worst := Gapped(delays, order, base, w, luck, k)[order[k - 1]], Worst(delays, order, k - 1);
      && r <= worst && InWindow(base + r, w) && InWindow(base + worst, w) && (base + r) / DAY == (base + worst) / DAY
    ensures var r, worst := Gapped(delays, order, base, w, luck, k + 1)[order[k]], Worst(delays, order, k);
      && delays[order[k]] <= r <= worst
      && InWindow(base + r, w) && InWindow(base + worst, w) && (base + r) / DAY == (base + worst) / DAY
    ensures BumpsStay(delays, order, base, w, luck, k + 1)
  {
    hide InWindow, HourOf, OnDayOf, Gapped, Untouched, Apart, Bounded, WorstFits, BumpsStay;
    GapsKept(delays, order, base, w, luck, k);
    var r := Gapped(delays, order, base, w, luck, k);
    NotYetTouched(delays, order, r, k);
    var prev, worst := r[order[k - 1]], Worst(delays, order, k - 1);
    var bumped, most := prev + luck(k).gapMinutes * MINUTE, worst + MOST_GAP;
    assert 2 <= luck(k).gapMinutes <= 5;
    SameDayBump(base + prev, luck(k).gapMinutes * MINUTE, w);
    SameDayBump(base + worst, MOST_GAP, w);
    if delays[order[k]] < most {
      FitsAt(delays, order, base, w, k);
      BumpedFits(base + prev, base + bumped, base + most, w);
      BumpedFits(base + worst, base + most, base + most, w);
    }
    OneMoreStays(delays, order, base, w, luck, k);
    BumpStays(delays, order, base, w, luck, k);
    GappedStep(delays, order, base, w, luck, k);
    if bumped <= delays[order[k]] < most {
      BetweenDays(base + worst, base + prev, base + delays[order[k]], base + most);
    }
  }

  /** Between two instants of a day lies nothing but that day. */
  lemma BetweenDays(worst: int, prev: int, t: int, most: int)
    requires prev / DAY == worst / DAY == most / DAY && prev <= t <= most
    ensures t / DAY == most / DAY
  {
  }

  lemma NotYetTouched(delays: seq<int>, order: seq<nat>, r: seq<int>, k: nat)
    requires IsOrder(delays, order) && k < |order| && |r| == |delays| && Untouched(delays, order, r, k)
    ensures r[order[k]] == delays[order[k]]
  {
    assert order[k] !in order[..k];
  }

  lemma FitsAt(delays: seq<int>, order: seq<nat>, base: int, w: Window, k: nat)
    requires IsOrder(delays, order) && 0 < k < |order| && WorstFits(delays, order, base, w, k + 1)
    requires delays[order[k]] < Worst(delays, order, k - 1) + MOST_GAP
    ensures HourOf(base + (Worst(delays, order, k - 1) + MOST_GAP)) < w.end
  {
    hide HourOf, Worst, IsOrder;
  }

  /** What lies between an instant of the window and one of the same day before its end. */
  lemma BumpedFits(prev: int, t: int, most: int, w: Window)
    requires prev <= t <= most && prev / DAY == most / DAY && InWindow(prev, w) && HourOf(most) < w.end
    ensures InWindow(t, w)
  {
    hide OnDayOf;
    var midnight := prev / DAY * DAY;
    QuotientOf(prev / DAY, most % DAY, DAY);
    assert most == most / DAY * DAY + most % DAY && prev == midnight + prev % DAY;
    QuotientOf(prev / DAY, t - midnight, DAY);
    assert t == midnight + (t - midnight);
    HoursAscend(prev % DAY, t % DAY);
    HoursAscend(t % DAY, most % DAY);
  }

  lemma OneMoreStays(delays: seq<int>, order: seq<nat>, base: int, w: Window, luck: nat -> Luck, k: nat)
    requires IsOrder(delays, order) && 0 < k < |order| && BumpsStay(delays, order, base, w, luck, k)
    requires var r := Gapped(delays, order, base, w, luck, k);
      var bumped := r[order[k - 1]] + luck(k).gapMinutes * MINUTE;
      r[order[k]] < bumped ==> InWindow(base + bumped, w)
    ensures BumpsStay(delays, order, base, w, luck, k + 1)
  {
    hide InWindow, Gapped;
  }

  lemma GappedStep(delays: seq<int>, order: seq<nat>, base: int, w: Window, luck: nat -> Luck, k: nat)
    requires IsOrder(delays, order) && 0 < k < |order|
    ensures var r := Gapped(delays, order, base, w, luck, k);
      Gapped(delays, order, base, w, luck, k + 1)
      == r[order[k] := Spread(r[order[k]], r[order[k - 1]], base, w, luck(k))]
  {
    hide Spread;
  }

  // ---- The draw that attains it ----

  /** The draw in which every gap is five minutes and every clamp hits the start of the window's last hour. */
  function WorstLuck(): nat -> Luck {
    _ => Luck(5, Draw(0, 0, 0))
  }

  /** As long as the worst draw fits, the pass with that draw computes it. */
  lemma {:induction false} WorstIsReached(delays: seq<int>, order: seq<nat>, base: int, w: Window, k: nat)
    requires IsOrder(delays, order) && ValidWindow(w) && w.end < 24 && AllInWindow(delays, order, base, w)
    requires 0 < k <= |order| && WorstFits(delays, order, base, w, k)
    ensures Gapped(delays, order, base, w, WorstLuck(), k)[order[k - 1]] == Worst(delays, order, k - 1)
  {
    hide InWindow, HourOf, OnDayOf, Gapped, AllInWindow, WorstFits, BumpsStay, Untouched, Apart, Bounded;
    if k == 1 {
      FirstStays(delays, order, base, w, WorstLuck());
    } else {
      FewerFit(delays, order, base, w, k - 1, k);
      WorstIsReached(delays, order, base, w, k - 1);
      WorstIsValid();
      BehindWorst(delays, order, base, w, WorstLuck(), k);
      BehindWorst(delays, order, base, w, WorstLuck(), k - 1);
      GapsKept(delays, order, base, w, WorstLuck(), k - 1);
      NotYetTouched(delays, order, Gapped(delays, order, base, w, WorstLuck(), k - 1), k - 1);
      BumpStays(delays, order, base, w, WorstLuck(), k - 1);
      GappedStep(delays, order, base, w, WorstLuck(), k - 1);
    }
  }

  lemma WorstIsValid()
    ensures ValidLuck(WorstLuck())
  {
  }

  /** Later steps do not touch an account the pass has been through. */
  lemma {:induction false} LaterStepsKeep(
    delays: seq<int>, order: seq<nat>, base: int, w: Window, luck: nat -> Luck, k: nat, n: nat)
    requires IsOrder(delays, order) && 0 < k <= n <= |order|
    ensures forall j :: 0 <= j < k ==>
      Gapped(delays, order, base, w, luck, n)[order[j]] == Gapped(delays, order, base, w, luck, k)[order[j]]
  {
    hide Spread, Gapped;
    if n > k {
      LaterStepsKeep(delays, order, base, w, luck, k, n - 1);
      GappedStep(delays, order, base, w, luck, n - 1);
    }
  }

  /** Where the worst draw does not fit, it breaks a gap. */
  lemma WorstBreaksGap(delays: seq<int>, order: seq<nat>, base: int, w: Window, k: nat)
    requires IsOrder(delays, order) && ValidWindow(w) && w.end < 24 && AllInWindow(delays, order, base, w)
    requires 0 < k < |order| && WorstFits(delays, order, base, w, k) && !WorstFits(delays, order, base, w, k + 1)
    ensures !Apart(order, Gapped(delays, order, base, w, WorstLuck(), |order|), |order|)
  {
    hide InWindow, HourOf, OnDayOf, Gapped, BumpsStay, Untouched, Bounded, AllInWindow, Worst, WorstFits, ValidLuck,
      Spread, Apart;
    var luck := WorstLuck();
    WorstIsValid();
    WorstIsReached(delays, order, base, w, k);
    BehindWorst(delays, order, base, w, luck, k);
    GapsKept(delays, order, base, w, luck, k);
    var r := Gapped(delays, order, base, w, luck, k);
    NotYetTouched(delays, order, r, k);
    MisfitAt(delays, order, base, w, k);
    NonNegative(delays, order, base, w, r, k);
    LateBreaks(delays[order[k]], r[order[k - 1]], base, w);
    GappedStep(delays, order, base, w, luck, k);
    LaterStepsKeep(delays, order, base, w, luck, k + 1, |order|);
    BrokenGap(order, Gapped(delays, order, base, w, luck, |order|), k);
  }

  lemma BrokenGap(order: seq<nat>, r: seq<int>, k: nat)
    requires 0 < k < |order| && forall j :: 0 <= j < |order| ==> order[j] < |r|
    requires r[order[k]] - r[order[k - 1]] < LEAST_GAP
    ensures !Apart(order, r, |order|)
  {
  }

  lemma MisfitAt(delays: seq<int>, order: seq<nat>, base: int, w: Window, k: nat)
    requires 0 < k < |order| && forall j :: 0 <= j < |order| ==> order[j] < |delays|
    requires WorstFits(delays, order, base, w, k) && !WorstFits(delays, order, base, w, k + 1)
    ensures var bumped := Worst(delays, order, k - 1) + MOST_GAP;
      delays[order[k]] < bumped && HourOf(base + bumped) >= w.end
  {
    hide HourOf, Worst;
  }

  lemma NonNegative(delays: seq<int>, order: seq<nat>, base: int, w: Window, r: seq<int>, k: nat)
    requires IsOrder(delays, order) && 0 < k <= |order| && |r| == |delays| && Bounded(delays, order, r, k)
    requires AllInWindow(delays, order, base, w)
    ensures r[order[k - 1]] >= 0
  {
    hide InWindow;
  }

  lemma LateBreaks(delay: int, prev: int, base: int, w: Window)
    requires ValidWindow(w) && prev >= 0 && delay < prev + MOST_GAP && HourOf(base + (prev + MOST_GAP)) >= w.end
    ensures Spread(delay, prev, base, w, Luck(5, Draw(0, 0, 0))) - prev < LEAST_GAP
  {
    hide HourOf, OnDayOf;
    LateByAnHour(base + (prev + MOST_GAP), w);
  }

  ghost predicate GapsForAllDraws(delays: seq<int>, order: seq<nat>, base: int, w: Window)
    requires forall j :: 0 <= j < |order| ==> order[j] < |delays|
  {
    forall luck :: ValidLuck(luck) ==> Apart(order, Gapped(delays, order, base, w, luck, |order|), |order|)
  }

  lemma FirstMisfit(delays: seq<int>, order: seq<nat>, base: int, w: Window) returns (k: nat)
    requires forall j :: 0 <= j < |order| ==> order[j] < |delays|
    requires !WorstFits(delays, order, base, w, |order|)
    ensures 0 < k < |order| && WorstFits(delays, order, base, w, k) && !WorstFits(delays, order, base, w, k + 1)
  {
    hide HourOf, Worst;
    k := |order| - 1;
    assert WorstFits(delays, order, base, w, 1);
    while !WorstFits(delays, order, base, w, k)
      invariant 0 < k < |order| && !WorstFits(delays, order, base, w, k + 1)
      decreases k
    {
      k := k - 1;
    }
  }

  /** With every drawn check-in in the window, the pass keeps a site's accounts two minutes apart for all
      draws exactly if every bump of the worst draw stays before the window's end. */
  lemma GroupKeepsGapsIff(delays: seq<int>, order: seq<nat>, base: int, w: Window)
    requires IsOrder(delays, order) && ValidWindow(w) && AllInWindow(delays, order, base, w)
    ensures GapsForAllDraws(delays, order, base, w) <==> WorstFits(delays, order, base, w, |order|)
  {
    hide InWindow, HourOf, OnDayOf, Gapped, BumpsStay, Untouched, Bounded, Apart, AllInWindow, WorstFits, ValidLuck;
    if w.end == 24 {
      MidnightFits(delays, order, base, w);
      forall luck | ValidLuck(luck) ensures Apart(order, Gapped(delays, order, base, w, luck, |order|), |order|) {
        MidnightKeepsGaps(delays, order, base, w, luck, |order|);
      }
    } else if WorstFits(delays, order, base, w, |order|) {
      forall luck | ValidLuck(luck) ensures Apart(order, Gapped(delays, order, base, w, luck, |order|), |order|) {
        if |order| > 0 {
          BehindWorst(delays, order, base, w, luck, |order|);
          GapsKept(delays, order, base, w, luck, |order|);
        } else {
          NobodyApart(order, Gapped(delays, order, base, w, luck, |order|));
        }
      }
    } else {
      var k := FirstMisfit(delays, order, base, w);
      WorstBreaksGap(delays, order, base, w, k);
      WorstIsValid();
    }
  }

  lemma NobodyApart(order: seq<nat>, r: seq<int>)
    requires |order| == 0
    ensures Apart(order, r, 0)
  {
  }

  /** A window up to midnight has no late hours. */
  lemma MidnightFits(delays: seq<int>, order: seq<nat>, base: int, w: Window)
    requires w.end == 24 && forall j :: 0 <= j < |order| ==> order[j] < |delays|
    ensures WorstFits(delays, order, base, w, |order|)
  {
    hide Worst, HourOf;
    forall t ensures HourOf(t) < 24 {
      HourBelow24(t);
    }
  }

  lemma HourBelow24(t: int)
    ensures HourOf(t) < 24
  {
  }

  lemma {:induction false} MidnightKeepsGaps(
    delays: seq<int>, order: seq<nat>, base: int, w: Window, luck: nat -> Luck, k: nat)
    requires IsOrder(delays, order) && ValidLuck(luck) && ValidWindow(w) && w.end == 24 && k <= |order|
    ensures Apart(order, Gapped(delays, order, base, w, luck, k), k)
  {
    hide HourOf, OnDayOf, Gapped, Spread;
    if k > 1 {
      MidnightKeepsGaps(delays, order, base, w, luck, k - 1);
      LaterStepsKeep(delays, order, base, w, luck, k - 1, k);
      GappedStep(delays, order, base, w, luck, k - 1);
      var r := Gapped(delays, order, base, w, luck, k - 1);
      assert ValidDraw(luck(k - 1).draw);
      SpreadBeforeMidnight(r[order[k - 1]], r[order[k - 2]], base, w, luck(k - 1));
    }
  }

  lemma SpreadBeforeMidnight(delay: int, prev: int, base: int, w: Window, l: Luck)
    requires ValidWindow(w) && w.end == 24 && 2 <= l.gapMinutes <= 5 && ValidDraw(l.draw)
    ensures Spread(delay, prev, base, w, l) - prev >= LEAST_GAP
  {
    hide HourOf, OnDayOf;
    var bumped := prev + l.gapMinutes * MINUTE;
    HourBelow24(base + bumped);
    if HourOf(base + bumped) < w.start {
      EarlyIsLater(base + bumped, w, l.draw);
    }
  }
}
