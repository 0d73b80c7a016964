/** Finding the user id of a session cookie (platform/newapi.go:220-245, 352-378,
    platform/cookie.go:558-576): a budgeted search through candidate ids and cookie variants. */
module UserIdProbe {

  /** How many probes with other than the first cookie a search may make. */
  const EXTRA_COOKIE_BUDGET := 8

  const COMMON_IDS := [1, 2, 3, 4, 5, 6, 7, 8, 9, 10, 15, 20, 50, 100, 8899, 11494]

  /** The first position of `id`, or |ids|. */
  function FirstAt(ids: seq<int>, id: int): (i: nat)
    ensures i <= |ids| && (i < |ids| <==> id in ids)
    ensures i < |ids| ==> ids[i] == id
    ensures forall j :: 0 <= j < i ==> ids[j] != id
  {
    if ids == [] || ids[0] == id then 0 else 1 + FirstAt(ids[1..], id)
  }

  lemma FirstAtPrefix(ids: seq<int>, k: nat, id: int)
    requires k <= |ids|
    ensures id in ids[..k] <==> FirstAt(ids, id) < k
  {
    var i := FirstAt(ids, id);
    if i < k {
      assert ids[..k][i] == id;
    }
  }

  /** The candidates: positive, each once, extracted ids before common ones, each in order of its first
      appearance. */
  method BuildUserIDProbeCandidates(extracted: seq<int>) returns (candidates: seq<int>)
    ensures forall id :: id in candidates <==> id > 0 && id in extracted + COMMON_IDS
    ensures forall id :: id in {1, 2, 3, 4, 5, 6, 7, 8, 9, 10, 15, 20, 50, 100, 8899, 11494} ==> id in candidates
    ensures InOrderOf(extracted + COMMON_IDS, candidates)
  {
    hide FirstAt, InOrderOf;
    var sources := extracted + COMMON_IDS;
    candidates := [];
    var seen: set<int> := {};
    NothingInOrder(sources);
    for k := 0 to |sources|
      invariant forall id :: id in seen <==> id in candidates
      invariant forall id :: id in candidates <==> id > 0 && id in sources[..k]
      invariant InOrderOf(sources, candidates)
    {
      assert sources[..k + 1] == sources[..k] + [sources[k]];
      if sources[k] > 0 && sources[k] !in seen {
        NextInOrder(sources, candidates, k);
        seen := seen + {sources[k]};
        candidates := candidates + [sources[k]];
      }
    }
    assert sources[..|sources|] == sources;
  }

  /** The ids are in order of their first appearance, so each is there once. */
  predicate InOrderOf(sources: seq<int>, ids: seq<int>) {
    forall i, j :: 0 <= i < j < |ids| ==> FirstAt(sources, ids[i]) < FirstAt(sources, ids[j])
  }

  lemma NothingInOrder(sources: seq<int>)
    ensures InOrderOf(sources, [])
  {
  }

  lemma NextInOrder(sources: seq<int>, ids: seq<int>, k: nat)
    requires InOrderOf(sources, ids) && k < |sources| && sources[k] !in sources[..k]
    requires forall id :: id in ids ==> id in sources[..k]
    ensures InOrderOf(sources, ids + [sources[k]])
  {
    hide FirstAt;
    FirstAtPrefix(sources, k, sources[k]);
    forall i | 0 <= i < |ids| ensures FirstAt(sources, ids[i]) < k {
      FirstAtPrefix(sources, k, ids[i]);
    }
  }

  // ---- The search ----

  /** Whether the site accepts a candidate id with the cookie of a given index. */
  type Site = (int, nat) -> bool

  /** The first cookie index from `lo` on that the site accepts for `id`, or `hi`. */
  function FirstAccepted(site: Site, id: int, lo: nat, hi: nat): (c: nat)
    requires lo <= hi
    ensures lo <= c <= hi
    ensures c < hi ==> site(id, c)
    ensures forall k :: lo <= k < c ==> !site(id, k)
    decreases hi - lo
  {
    if lo == hi || site(id, lo) then lo else FirstAccepted(site, id, lo + 1, hi)
  }

  /** How many cookies are tried for one candidate: the first always, the others while the budget lasts. */
  function Tried(cookies: nat, budget: nat): (n: nat)
    ensures n <= cookies && (cookies > 0 ==> 0 < n <= budget + 1)
  {
    if cookies <= budget + 1 then cookies else budget + 1
  }

  function Left(cookies: nat, budget: nat): nat {
    if cookies == 0 then budget else budget - (Tried(cookies, budget) - 1)
  }

  datatype Search = Search(found: int, probes: nat)

  function Searched(site: Site, ids: seq<int>, cookies: nat, budget: nat): Search {
    if ids == [] then Search(0, 0)
    else
      var c := FirstAccepted(site, ids[0], 0, Tried(cookies, budget));
      if c < Tried(cookies, budget) then Search(ids[0], c + 1)
      else
        var rest := Searched(site, ids[1..], cookies, Left(cookies, budget));
        Search(rest.found, Tried(cookies, budget) + rest.probes)
  }

  function Without(ids: seq<int>, skip: int): (r: seq<int>)
    ensures |r| <= |ids|
    ensures skip !in ids ==> r == ids
    ensures forall id :: id in r <==> id in ids && id != skip
  {
    if ids == [] then [] else (if ids[0] == skip then [] else [ids[0]]) + Without(ids[1..], skip)
  }

  /** The inner loop: the cookies tried for one candidate. */
  method ProbeCookies(site: Site, id: int, cookies: nat, budget: nat) returns (accepted: bool, probes: nat, left: nat)
    ensures accepted <==> FirstAccepted(site, id, 0, Tried(cookies, budget)) < Tried(cookies, budget)
    ensures accepted ==> probes == FirstAccepted(site, id, 0, Tried(cookies, budget)) + 1
    ensures !accepted ==> probes == Tried(cookies, budget) && left == Left(cookies, budget)
  {
    hide Tried, Left;
    probes, left := 0, budget;
    while probes < cookies
      invariant 0 <= probes <= Tried(cookies, budget)
      invariant FirstAccepted(site, id, 0, Tried(cookies, budget))
             == FirstAccepted(site, id, probes, Tried(cookies, budget))
      invariant left as int == if probes == 0 then budget else budget - (probes - 1)
    {
      BudgetLasts(cookies, budget, probes);
      if probes > 0 {
        if left <= 0 {
          break;
        }
        left := left - 1;
      }
      probes := probes + 1;
      if site(id, probes - 1) {
        return true, probes, left;
      }
    }
    BudgetLasts(cookies, budget, probes);
    accepted := false;
  }

  /** probeAlternateCookieUserId, and the last step of probeUserId with nothing to skip. */
  method ProbeCandidates(site: Site, ids: seq<int>, cookies: nat, skip: int) returns (found: int, probes: nat)
    ensures Search(found, probes) == Searched(site, Without(ids, skip), cookies, 8)
    ensures probes <= |ids| + 8
  {
    hide Tried, Left, FirstAccepted;
    SearchCost(site, Without(ids, skip), cookies, EXTRA_COOKIE_BUDGET);
    probes := 0;
    var extraCookieBudget: nat := EXTRA_COOKIE_BUDGET;
    for i := 0 to |ids|
      invariant var rest := Searched(site, Without(ids[i..], skip), cookies, extraCookieBudget);
        Searched(site, Without(ids, skip), cookies, EXTRA_COOKIE_BUDGET) == Search(rest.found, probes + rest.probes)
    {
      WithoutFirst(ids[i..], skip);
      assert ids[i..][1..] == ids[i + 1..];
      if ids[i] == skip {
        continue;
      }
      var accepted, more, left := ProbeCookies(site, ids[i], cookies, extraCookieBudget);
      SearchedFirst(site, ids[i], Without(ids[i + 1..], skip), cookies, extraCookieBudget);
      probes := probes + more;
      if accepted {
        return ids[i], probes;
      }
      extraCookieBudget := left;
    }
    found := 0;
  }

  lemma WithoutFirst(ids: seq<int>, skip: int)
    requires ids != []
    ensures Without(ids, skip) == if ids[0] == skip then Without(ids[1..], skip) else [ids[0]] + Without(ids[1..], skip)
  {
  }

  lemma SearchedFirst(site: Site, id: int, rest: seq<int>, cookies: nat, budget: nat)
    ensures var c := FirstAccepted(site, id, 0, Tried(cookies, budget));
      var later := Searched(site, rest, cookies, Left(cookies, budget));
      Searched(site, [id] + rest, cookies, budget)
      == if c < Tried(cookies, budget) then Search(id, c + 1)
         else Search(later.found, Tried(cookies, budget) + later.probes)
  {
    assert ([id] + rest)[1..] == rest;
  }

  lemma BudgetLasts(cookies: nat, budget: nat, c: nat)
    requires c <= Tried(cookies, budget)
    ensures c < Tried(cookies, budget) <==> c < cookies && (c == 0 || budget - (c - 1) > 0)
    ensures Left(cookies, budget) == if cookies == 0 then budget else budget - (Tried(cookies, budget) - 1)
  {
  }

  // ---- What the budget costs ----

  /** At most one probe for each candidate, and the budget. */
  lemma {:induction false} SearchCost(site: Site, ids: seq<int>, cookies: nat, budget: nat)
    ensures Searched(site, ids, cookies, budget).probes <= |ids| + budget
  {
    if ids != [] {
      SearchCost(site, ids[1..], cookies, Left(cookies, budget));
    }
  }

  /** A search without a budget: the full matrix of candidates and cookies. */
  function FullMatrix(site: Site, ids: seq<int>, cookies: nat): int {
    if ids == [] then 0
    else if FirstAccepted(site, ids[0], 0, cookies) < cookies then ids[0]
    else FullMatrix(site, ids[1..], cookies)
  }

  predicate Candidates(ids: seq<int>) {
    forall i :: 0 <= i < |ids| ==> ids[i] > 0
  }

  /** 0 is returned only after every candidate failed with the first cookie. */
  lemma {:induction false} ZeroMeansAllFailed(site: Site, ids: seq<int>, cookies: nat, budget: nat, i: nat)
    requires cookies > 0 && Candidates(ids) && i < |ids|
    requires Searched(site, ids, cookies, budget).found == 0
    ensures !site(ids[i], 0)
  {
    assert ids[0] > 0;
    if i > 0 {
      ZeroMeansAllFailed(site, ids[1..], cookies, Left(cookies, budget), i - 1);
    }
  }

  /** An id that is returned is a candidate that the site accepts with some cookie, and no candidate before
      it is accepted with the first cookie. */
  lemma {:induction false} FoundIsAccepted(site: Site, ids: seq<int>, cookies: nat, budget: nat)
    returns (i: nat, c: nat)
    requires cookies > 0 && Searched(site, ids, cookies, budget).found != 0
    ensures i < |ids| && c < cookies && site(ids[i], c) && Searched(site, ids, cookies, budget).found == ids[i]
    ensures forall j :: 0 <= j < i ==> !site(ids[j], 0)
  {
    i, c := 0, FirstAccepted(site, ids[0], 0, Tried(cookies, budget));
    if c == Tried(cookies, budget) {
      var k;
      k, c := FoundIsAccepted(site, ids[1..], cookies, Left(cookies, budget));
      i := k + 1;
      forall j | 0 <= j < i ensures !site(ids[j], 0) {
        assert j > 0 ==> ids[j] == ids[1..][j - 1];
      }
    }
  }

  /** What is left of the budget when the candidate at index `i` is reached. */
  function BudgetAt(cookies: nat, budget: nat, i: nat): nat {
    if i == 0 then budget else BudgetAt(cookies, Left(cookies, budget), i - 1)
  }

  /** The candidate the full matrix finds, and the cookie it is found with. */
  ghost predicate Winner(site: Site, ids: seq<int>, cookies: nat, i: nat, c: nat) {
    && i < |ids| && c < cookies && c == FirstAccepted(site, ids[i], 0, cookies)
    && forall j :: 0 <= j < i ==> FirstAccepted(site, ids[j], 0, cookies) == cookies
  }

  lemma {:induction false} SkipLosers(site: Site, ids: seq<int>, cookies: nat, budget: nat, i: nat)
    requires i <= |ids| && forall j :: 0 <= j < i ==> FirstAccepted(site, ids[j], 0, cookies) == cookies
    ensures FullMatrix(site, ids, cookies) == FullMatrix(site, ids[i..], cookies)
    ensures Searched(site, ids, cookies, budget).found
         == Searched(site, ids[i..], cookies, BudgetAt(cookies, budget, i)).found
  {
    if i > 0 {
      assert FirstAccepted(site, ids[0], 0, cookies) == cookies;
      assert FirstAccepted(site, ids[0], 0, Tried(cookies, budget)) == Tried(cookies, budget);
      forall j | 0 <= j < i - 1 ensures FirstAccepted(site, ids[1..][j], 0, cookies) == cookies {
        assert ids[1..][j] == ids[j + 1];
      }
      SkipLosers(site, ids[1..], cookies, Left(cookies, budget), i - 1);
      assert ids[1..][i - 1..] == ids[i..];
    }
  }

  lemma {:induction false} FoundIsCandidate(site: Site, ids: seq<int>, cookies: nat, budget: nat)
    ensures var found := Searched(site, ids, cookies, budget).found; found == 0 || found in ids
  {
    if ids != [] {
      FoundIsCandidate(site, ids[1..], cookies, Left(cookies, budget));
    }
  }

  /** The budgeted search finds what the full matrix finds exactly if the winning cookie is the first one,
      or the budget left at the winner reaches it. */
  lemma BudgetSufficesIff(site: Site, ids: seq<int>, cookies: nat, budget: nat, i: nat, c: nat)
    requires Winner(site, ids, cookies, i, c)
    requires Candidates(ids) && forall k :: i < k < |ids| ==> ids[k] != ids[i]
    ensures FullMatrix(site, ids, cookies) == ids[i]
    ensures Searched(site, ids, cookies, budget).found == FullMatrix(site, ids, cookies)
       <==> c <= BudgetAt(cookies, budget, i)
  {
    hide BudgetAt, Tried, Left;
    SkipLosers(site, ids, cookies, budget, i);
    AtWinner(site, ids[i..], cookies, BudgetAt(cookies, budget, i), c);
  }

  /** The same when the first candidate is the winner. */
  lemma AtWinner(site: Site, ids: seq<int>, cookies: nat, budget: nat, c: nat)
    requires Winner(site, ids, cookies, 0, c) && Candidates(ids)
    requires forall k :: 0 < k < |ids| ==> ids[k] != ids[0]
    ensures FullMatrix(site, ids, cookies) == ids[0]
    ensures Searched(site, ids, cookies, budget).found == ids[0] <==> c <= budget
  {
    var tried := FirstAccepted(site, ids[0], 0, Tried(cookies, budget));
    assert tried < Tried(cookies, budget) <==> c <= budget;
    FoundIsCandidate(site, ids[1..], cookies, Left(cookies, budget));
    assert ids[0] > 0 && ids[0] !in ids[1..];
  }

  /** The budget left after `i` candidates: each costs all cookies but the first, as long as it lasts. */
  lemma {:induction false} BudgetLeft(cookies: nat, budget: nat, i: nat)
    requires cookies > 0
    ensures BudgetAt(cookies, budget, i) == if i * (cookies - 1) <= budget then budget - i * (cookies - 1) else 0
  {
    hide Left;
    if i > 0 {
      LeftOf(cookies, budget);
      BudgetLeft(cookies, Left(cookies, budget), i - 1);
      var before := (i - 1) * (cookies - 1);
      assert i * (cookies - 1) == before + (cookies - 1);
      assert before >= 0;
      assert cookies - 1 > budget ==> Left(cookies, budget) == 0;
    }
  }

  lemma LeftOf(cookies: nat, budget: nat)
    requires cookies > 0
    ensures Left(cookies, budget) == if cookies - 1 <= budget then budget - (cookies - 1) else 0
  {
  }

  /** If the cookie variant makes no difference, the budget makes none. */
  lemma {:induction false} BudgetIrrelevant(site: Site, ids: seq<int>, cookies: nat, budget: nat)
    requires forall id, c, c' :: id in ids && 0 <= c < cookies && 0 <= c' < cookies ==> site(id, c) == site(id, c')
    ensures Searched(site, ids, cookies, budget).found == FullMatrix(site, ids, cookies)
  {
    if ids != [] {
      if cookies > 0 {
        assert FirstAccepted(site, ids[0], 0, cookies) < cookies <==> site(ids[0], 0);
        assert FirstAccepted(site, ids[0], 0, Tried(cookies, budget)) < Tried(cookies, budget) <==> site(ids[0], 0);
      }
      BudgetIrrelevant(site, ids[1..], cookies, Left(cookies, budget));
    }
  }
}
