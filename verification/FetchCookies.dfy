/** What the request loop sends and learns (platform/cookie.go:838-971), cookie by cookie. */
module FetchCookies {
  import opened Text
  import opened Json
  import opened Cookie
  import opened CookieHeaders
  import opened FetchLoop

  /** Each attempt sends the site's custom cookies and the current ones, each name once, the current value
      winning. */
  lemma SentIsMerged(custom: string, current: string)
    ensures current == "" ==> Sent(custom, current) == custom
    ensures current != "" ==> LastWriteWins(Parse(custom) + Parse(current), Parse(Sent(custom, current)))
  {
    hide Parse, Join, Merge, WellFormed, LastWriteWins;
    ParseWellFormed(custom);
    ParseWellFormed(current);
    ParseMerged(Parse(custom) + Parse(current));
    MergeIsLastWriteWins(Parse(custom) + Parse(current));
  }

  /** A cookie that a reply sets last is in the next header; all raw values received are handed on. */
  lemma ReplySetsCookie(custom: string, before: Cookies, reply: Reply, earlier: seq<string>, p: Pair, tail: string)
    requires reply.Reply? && reply.setCookies == earlier + [PrintPair(p) + tail] && WellFormed(p) && IsTail(tail)
    ensures var after := Received(custom, before, reply);
      p in Parse(after.header) && after.setCookies == before.setCookies + reply.setCookies
  {
    hide Parse, MergeSetCookies, NormalizeHeader, MergeHeaders, WellFormed, PrintPair, DistinctNames;
    SetCookieIsMerged(Carried(custom, before.header), earlier, p, tail, p);
  }

  /** Nothing that was sent is lost by a reply that sets no cookie. */
  lemma SilentReplyKeepsCookies(custom: string, before: Cookies, reply: Reply)
    requires reply.Reply? && reply.setCookies == [] && Sent(custom, before.header) != ""
    ensures LastWriteWins(Parse(Sent(custom, before.header)), Parse(Received(custom, before, reply).header))
  {
    hide Parse, Join, Merge, WellFormed, LastWriteWins, MergeHeaders;
    var sent := Sent(custom, before.header);
    ParseWellFormed(sent);
    ParseMerged(Parse(sent));
    MergeIsLastWriteWins(Parse(sent));
  }

  /** The solution of a shield page is sent with the next attempt. */
  lemma SolutionIsSent(upstream: (nat, string) -> Reply, custom: string, initial: string, k: nat)
    requires var reply := ReplyTo(upstream, custom, initial, k);
      reply.Reply? && reply.solution.Some? && WellFormed(Pair("acw_sc__v2", reply.solution.value))
    ensures var p := Pair("acw_sc__v2", ReplyTo(upstream, custom, initial, k).solution.value);
      && p in Parse(After(upstream, custom, initial, k + 1).header)
      && p in Parse(Sent(custom, After(upstream, custom, initial, k + 1).header))
  {
    hide Parse, Join, Merge, MergeSetCookies, MergeHeaders, WellFormed, ReplyTo, After, DistinctNames;
    var reply := ReplyTo(upstream, custom, initial, k);
    var p := Pair("acw_sc__v2", reply.solution.value);
    var before := Received(custom, After(upstream, custom, initial, k), reply).header;
    var header := After(upstream, custom, initial, k + 1).header;
    NextHeader(upstream, custom, initial, k);
    assert header == UpsertCookie(before, "acw_sc__v2", reply.solution.value);
    ParseWellFormed(before);
    ParseMerged(Parse(before) + [p]);
    MergeOneMore(Parse(before), p, p);
    PairIsSent(custom, header, p);
  }

  lemma NextHeader(upstream: (nat, string) -> Reply, custom: string, initial: string, k: nat)
    requires ReplyTo(upstream, custom, initial, k).Reply? && ReplyTo(upstream, custom, initial, k).solution.Some?
    ensures var reply := ReplyTo(upstream, custom, initial, k);
      After(upstream, custom, initial, k + 1).header
      == UpsertCookie(Received(custom, After(upstream, custom, initial, k), reply).header, "acw_sc__v2",
                      reply.solution.value)
  {
    hide UpsertCookie, Received;
  }

  /** A current cookie, in a header with distinct names, is sent whatever the custom ones are. */
  lemma PairIsSent(custom: string, header: string, p: Pair)
    requires p in Parse(header) && DistinctNames(Parse(header)) && p.name != ""
    ensures p in Parse(Sent(custom, header))
  {
    hide Parse, MergeHeaders, WellFormed, FirstAt;
    if header != "" {
      SentIsMerged(custom, header);
      ParseWellFormed(header);
      var ps := Parse(custom) + Parse(header);
      LastValueOf(Parse(custom), Parse(header), p);
      var i :| 0 <= i < |Parse(Sent(custom, header))| && Parse(Sent(custom, header))[i].name == p.name;
      assert Parse(Sent(custom, header))[i] == p;
    } else {
      EmptyText();
    }
  }

  lemma {:induction false} LastValueOf(cs: seq<Pair>, ps: seq<Pair>, p: Pair)
    requires p in ps && DistinctNames(ps) && AllWellFormed(ps)
    ensures LastValue(cs + ps, p.name) == Found(p.value)
  {
    hide WellFormed, Trim;
    var all, n := cs + ps, |ps| - 1;
    assert all[..|all| - 1] == cs + ps[..n];
    assert WellFormed(ps[n]) && WellFormed(p);
    NameTrimmed(ps[n]);
    if ps[n] != p {
      var i :| 0 <= i < |ps| && ps[i] == p;
      assert ps[..n][i] == p;
      LastValueOf(cs, ps[..n], p);
    }
  }
}
