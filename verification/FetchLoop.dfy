/** The bounded request loop of platform/cookie.go: it folds Set-Cookie values and solved shield
    challenges into the cookie header of the next attempt. */
module FetchLoop {
  import opened Json
  import Cookie

  const SHIELD_COOKIE := "acw_sc__v2"

  /** One answer of the upstream. `body` is the decoded JSON object, if the body is one - the literal null
      decodes like an object without fields; `challenge` says the body looks like a shield page,
      `solution` what the solver made of it. */
  datatype Reply =
    | NoReply
    | Reply(status: int, retryAfter: int, setCookies: seq<string>, body: Option<Object>,
            challenge: bool, solution: Option<string>)

  /** An error seen by the caller; status 0 for anything but a completed non-2xx answer. */
  datatype FetchError = FetchError(status: int, retryAfter: int)

  datatype Cookies = Cookies(header: string, setCookies: seq<string>)

  datatype Fetched = Fetched(error: Option<FetchError>, body: Option<Object>, cookies: Option<Cookies>)

  predicate Is2xx(status: int) {
    200 <= status < 300
  }

  /** The Cookie header put on the request: the site's custom one with the current one on top. */
  function Sent(custom: string, current: string): string {
    if current == "" then custom else Cookie.MergeHeaders(custom, current)
  }

  /** The header the request really carried, which the loop goes on with. */
  function Carried(custom: string, current: string): string {
    if Sent(custom, current) == "" then current else Sent(custom, current)
  }

  /** The cookies once a reply to them arrived. */
  function Received(custom: string, before: Cookies, reply: Reply): Cookies {
    if reply.NoReply? then before
    else Cookies(Cookie.MergeSetCookies(Carried(custom, before.header), reply.setCookies),
                 before.setCookies + reply.setCookies)
  }

  /** The cookies after `k` attempts: the left fold of Set-Cookie values and solved challenges over
      the initial header. */
  function After(upstream: (nat, string) -> Reply, custom: string, initial: string, k: nat): Cookies
    decreases k, 0
  {
    if k == 0 then Cookies(initial, [])
    else
      var reply := ReplyTo(upstream, custom, initial, k - 1);
      var received := Received(custom, After(upstream, custom, initial, k - 1), reply);
      if reply.Reply? && reply.solution.Some?
      then Cookies(Cookie.UpsertCookie(received.header, SHIELD_COOKIE, reply.solution.value), received.setCookies)
      else received
  }

  /** The reply to attempt `k`. */
  function ReplyTo(upstream: (nat, string) -> Reply, custom: string, initial: string, k: nat): Reply
    decreases k, 1
  {
    upstream(k, Sent(custom, After(upstream, custom, initial, k).header))
  }

  /** The body as the caller wants it: none of it without an out parameter to decode into. */
  function Wanted(reply: Reply, wantsBody: bool): Reply {
    if reply.Reply? && !wantsBody then reply.(body := None) else reply
  }

  /** Whether a reply of this status answers a caller that wants no body. */
  predicate Suffices(reply: Reply, wantsBody: bool) {
    reply.Reply? && !wantsBody && Is2xx(reply.status)
  }

  /** A reply that is no answer yet: a shield page that was solved, or that at least moved a cookie. */
  predicate AsksAgain(custom: string, before: Cookies, reply: Reply, wantsBody: bool) {
    && reply.Reply? && !Suffices(reply, wantsBody) && Wanted(reply, wantsBody).body.None? && reply.challenge
    && (reply.solution.Some? || Received(custom, before, reply).header != Carried(custom, before.header))
  }

  const FAILED := Fetched(Some(FetchError(0, 0)), None, None)

  /** What a reply that ends the loop is reported as. */
  function Verdict(reply: Reply, cookies: Cookies, wantsBody: bool): Fetched {
    if reply.NoReply? then FAILED
    else if Suffices(reply, wantsBody) then Fetched(None, None, Some(cookies))
    else
      var body := Wanted(reply, wantsBody).body;
      if !Is2xx(reply.status) && (body.Some? || !reply.challenge) then
        Fetched(Some(FetchError(reply.status, reply.retryAfter)), body, Some(cookies))
      else if body.Some? then Fetched(None, body, Some(cookies))
      else if reply.challenge then FAILED
      else Fetched(Some(FetchError(0, 0)), None, Some(cookies))
  }

  /** Only a shield page asks for another attempt: never an answer in JSON, nor a 2xx if no body is wanted; and
      only if it was solved, or its Set-Cookie values changed the header that was sent. */
  lemma AsksAgainIff(custom: string, before: Cookies, reply: Reply, wantsBody: bool)
    ensures AsksAgain(custom, before, reply, wantsBody) <==>
      && reply.Reply? && reply.challenge
      && (if wantsBody then reply.body.None? else !(200 <= reply.status < 300))
      && var sent := Sent(custom, before.header);
         var header := if sent == "" then before.header else sent;
         reply.solution.Some? || Cookie.MergeSetCookies(header, reply.setCookies) != header
  {
    hide Cookie.MergeSetCookies, Cookie.MergeHeaders;
  }

  /** What the caller sees of a last reply. Success: a 2xx, with its JSON if one is wanted. The status and its
      retry hint: any other status, if the answer is JSON or no shield page. Anything else: an error without
      a status, and without cookies if nothing arrived or a shield page did. */
  lemma VerdictIff(reply: Reply, cookies: Cookies, wantsBody: bool)
    ensures var f := Verdict(reply, cookies, wantsBody);
      var json := reply.Reply? && wantsBody && reply.body.Some?;
      && (f.error.None? <==> reply.Reply? && 200 <= reply.status < 300 && (wantsBody ==> json))
      && (f.body == if json then reply.body else None)
      && (reply.Reply? && !(200 <= reply.status < 300) && (json || !reply.challenge) ==>
            f.error == Some(FetchError(reply.status, reply.retryAfter)))
      && (f.error.Some? && !(reply.Reply? && !(200 <= reply.status < 300) && (json || !reply.challenge)) ==>
            f.error == Some(FetchError(0, 0)))
      && f.cookies == (if f.error.Some? && !json && (reply.NoReply? || reply.challenge) then None else Some(cookies))
  {
  }

  /** fetchJSONWithCookieAttempts. `constructible` says whether the body can be marshalled and the request
      built, `wantsBody` whether there is an out parameter. */
  method FetchJsonWithCookieAttempts(
    upstream: (nat, string) -> Reply, custom: string, cookieHeader: string, constructible: bool, wantsBody: bool,
    maxAttempts: int)
    returns (result: Fetched, requests: nat)
    ensures constructible ==> 1 <= requests <= (if maxAttempts < 1 then 1 else maxAttempts)
    ensures !constructible ==> requests == 0 && result == FAILED
    ensures forall k :: 0 <= k < requests - 1 ==>
      AsksAgain(custom, After(upstream, custom, cookieHeader, k), ReplyTo(upstream, custom, cookieHeader, k), wantsBody)
    ensures constructible ==>
      var before := After(upstream, custom, cookieHeader, requests - 1);
      var reply := ReplyTo(upstream, custom, cookieHeader, requests - 1);
      if AsksAgain(custom, before, reply, wantsBody)
      then requests >= maxAttempts && result == FAILED
      else result == Verdict(reply, Received(custom, before, reply), wantsBody)
  {
    hide Cookie.MergeSetCookies, Cookie.UpsertCookie, Cookie.MergeHeaders;
    var attempts := if maxAttempts < 1 then 1 else maxAttempts;
    if !constructible {
      return FAILED, 0;
    }
    var currentCookie := cookieHeader;
    var receivedSetCookies: seq<string> := [];
    requests := 0;
    while requests < attempts
      invariant requests <= attempts
      invariant Cookies(currentCookie, receivedSetCookies) == After(upstream, custom, cookieHeader, requests)
      invariant forall k :: 0 <= k < requests ==>
        AsksAgain(custom, After(upstream, custom, cookieHeader, k),
                  ReplyTo(upstream, custom, cookieHeader, k), wantsBody)
    {
      var sent := Sent(custom, currentCookie);
      var reply := upstream(requests, sent);
      assert reply == ReplyTo(upstream, custom, cookieHeader, requests);
      requests := requests + 1;
      if reply.NoReply? {
        return FAILED, requests;
      }
      if sent != "" {
        currentCookie := sent;
      }
      var cookieBeforeSetCookie := currentCookie;
      receivedSetCookies := receivedSetCookies + reply.setCookies;
      currentCookie := Cookie.MergeSetCookies(currentCookie, reply.setCookies);
      var cookies := Some(Cookies(currentCookie, receivedSetCookies));
      if !wantsBody && Is2xx(reply.status) {
        return Fetched(None, None, cookies), requests;
      }
      if wantsBody && reply.body.Some? {
        if !Is2xx(reply.status) {
          return Fetched(Some(FetchError(reply.status, reply.retryAfter)), reply.body, cookies), requests;
        }
        return Fetched(None, reply.body, cookies), requests;
      }
      if !reply.challenge {
        if !Is2xx(reply.status) {
          return Fetched(Some(FetchError(reply.status, reply.retryAfter)), None, cookies), requests;
        }
        return Fetched(Some(FetchError(0, 0)), None, cookies), requests;
      }
      if reply.solution.None? {
        if currentCookie != cookieBeforeSetCookie {
          continue;
        }
        return FAILED, requests;
      }
      currentCookie := Cookie.UpsertCookie(currentCookie, SHIELD_COOKIE, reply.solution.value);
    }
    return FAILED, requests;
  }

  /** fetchJSONOnce: the one reply of a one-shot exchange, as its caller sees it. A shield page is
      never retried, so it is an error without a status whatever code came with it. */
  function FetchOnce(custom: string, cookieHeader: string, reply: Reply): (f: Fetched)
    ensures reply.Reply? && reply.challenge && reply.body.None? ==> f == FAILED
  {
    Verdict(reply, Received(custom, Cookies(cookieHeader, []), reply), true)
  }

  /** One-shot mode submits the request exactly once, whatever comes back. */
  method FetchJsonOnce(upstream: (nat, string) -> Reply, custom: string, cookieHeader: string)
    returns (result: Fetched, requests: nat)
    ensures requests == 1
    ensures result == FetchOnce(custom, cookieHeader, upstream(0, Sent(custom, cookieHeader)))
  {
    hide Cookie.MergeSetCookies, Cookie.UpsertCookie, Cookie.MergeHeaders;
    result, requests := FetchJsonWithCookieAttempts(upstream, custom, cookieHeader, true, true, 1);
    assert After(upstream, custom, cookieHeader, 0) == Cookies(cookieHeader, []);
  }
}
