# Verification of the aggregation-site manager

A Dafny model of the parts of the program that keep shared accounts alive: renewing short-lived
credentials against upstreams that may lose or garble answers, merging cookies, archiving the accounts of
a disabled site, spacing check-ins, and finding user ids. `dafny verify dfyconfig.toml` checks everything.

## What is modelled

**Managed refresh.** `ManagedSession` is one call of the refresh: the account's record, the slot shared by
the accounts of one site and route, and the stored row. Everything the environment decides - the clock at
each reading, whether database reads and writes succeed, what the adapter answers - is part of an
`Attempt`, so a statement for all attempts covers every behaviour of the environment. The fingerprint of a
credential is the tuple of its parts, the refresh credential being the text it is hashed as; the hash over
the parts is taken to be injective. `Sub2Api` and `NewApiV1` are the two rotating exchanges: what each reply means,
read from the reply alone, and the upstream as a relation that may rotate, throttle, refuse or lose answers.
On top of them:

- `SessionRuns`: when a token is due, what one call stores and reports, spacing of upstream calls, counting of
  failures, and concurrent callers with a stale row. The account lock makes calls sequential, so concurrency
  is any sequence of calls.
- `CredentialSafety`: no rotation is lost silently.
- `CredentialChange`: a new credential is not held back by what happened to the old one.
- `Fingerprints`: which writes leave a remembered outcome in force.
- `Pacing`: the slot under any interleaving of workers, as a state machine; `ScopePacing`: the refresh calls of
  any accounts that share it.
- `RefreshedRows`: a refresh is the one that the statuses of accounts are reasoned about with.
- `WakeTimer`: the wake timer, its callbacks and restarts, as a state machine.
- `StableSort`, `RefreshPass`: one scan over many accounts.
- `RefreshTiming`, `ManagedAuth`: backoff, renewal windows, and where an expiry is stored.

**Cookies.** `Text` holds the string functions the program relies on. `Cookie` is the parser, printer and
merge of cookie headers (section 4.2.1 of RFC 6265 is the syntax the program aims at), `CookieHeaders` what that
means for labelled, multi-line and received headers, `FetchLoop` and `FetchCookies` the bounded request loop,
`Gob` the scanner for ids in encoded sessions.

**Accounts and sites.** `Archive` is the cascade over the accounts of a site, `AccountStatus` every other
operation that changes a status, `SiteToggles` what a site request or a batch does to accounts, `AccountRuns` the
invariants all of them keep, and `IntentRuns` a plan of intended statuses that the stored rows refine. `Json` and
`ExtraConfig` describe the `extra_config` column: absent, blank, the literal `null`, an object, or undecodable
text.

**Check-ins and ids.** `CheckinSpacing` is the window clamp and the pass that keeps accounts of one site
apart, `CheckinWorstCase` the draw that decides whether it does; `UserIdProbe` the budgeted search for a user
id; `UserIdCache` the cache in front of it.

Code that changes things in place is a class or a method with loops, proved against a function; the
properties are lemmas about that function and about runs of it.

## What does not hold

Each of these is stated as an exact condition, most with a concrete counterexample.

- A positive retry hint replaces the site spacing even when it is shorter. After refresh races (2 s) one
  account can make 600 calls in the 20 minutes meant for 20 (`Pacing.SpacingKeptIff`,
  `Pacing.OneAccountExceedsLimit`).
- Only a text member named exactly `status` runs the rules for statuses of an account edit. One that is null, a
  number or a boolean (`false` is stored as "0"), or is named "Status", goes straight into the UPDATE
  statement and leaves an archived account marked but not disabled. A raw `extra_config` can plant a
  marker on an account of an active site or set the literal `null` (`AccountRuns.EditKeepsInvIff`,
  `AccountRuns.ColumnEditsBreakInv`, `AccountRuns.RawEditsBreakInv`).
- The accounts of a site that goes from disabled through any other status to active stay archived until the
  site is disabled and enabled once more (`AccountRuns.ActivationClearsIff`,
  `AccountRuns.DetourStrandsAccount`). A site status stored by such another member cascades nothing
  (`AccountRuns.ColumnActivationIff`).
- An account whose `extra_config` is the literal `null` makes the archive cascade panic
  (`Archive.NullConfigStopsCascade`).
- Statuses other than active, expired and disabled come back as active after a site was disabled
  (`Archive.TogglesKeepIntentIff`).
- A status spelled "Disabled" counts as disabled, but not in the check-in and in the balance refresh, which
  may turn it into expired (`AccountRuns.SpelledDifferentlyIff`).
- The clamp can undo the gap between two check-ins of a site (`CheckinSpacing.StepKeepsGapIff`,
  `CheckinWorstCase.GroupKeepsGapsIff`).
- Normalizing an epoch twice changes 1..10^9-1 (`ManagedAuth.NormalizeIdempotentIff`).
- The fingerprint looks for a refresh cookie in the access token as it is, the exchange behind its Bearer
  prefix. With the token "Bearer new_api_refresh=A; new_api_refresh=B" a row that stores no cookie and one
  that stores B have the same fingerprint, and submit A and B (`CredentialChange.TokenIsCoveredIff`,
  `CredentialChange.UncoveredToken`).
- A malformed credential is hashed as "invalid:" and its JSON text, so the number 5 and the text "invalid:5"
  have the same fingerprint; the text is submitted, the number submits nothing
  (`CredentialChange.Sub2IsCoveredIff`, `CredentialChange.NumberCollides`).
- The budgeted id search misses an id whose first accepted cookie lies behind the budget
  (`UserIdProbe.BudgetSufficesIff`).

## Model

| member | source | states |
|---|---|---|
| CredentialSafety.StepKeepsOrReports | service/managed_session.go:618-682 | a refresh that begins with the stored credential equal to the server's ends so, or returns the credential-dead error and blocks the account for six hours, also when both database writes fail |
| CredentialSafety.LossIsReported | service/managed_session.go:540-683 | over any run in which the refresh path alone writes the credential: the call after which row and server first differ is the one that reported the loss |
| CredentialSafety.ExchangeInStep | platform/newapi_v1.go:50-222 | for either platform, any lawful exchange yields the server's current credential, or dead, or nothing rotated |
| CredentialChange.FingerprintCoversCredential | service/managed_session.go:373-459 | rows with equal fingerprints submit the same credential, unless it looks like the hashed text of a malformed one, or a new-api-v1 access token hides another refresh cookie behind a Bearer prefix than it shows |
| CredentialChange.EqualFingerprintsAgree | service/managed_session.go:412-459 | rows with equal fingerprints agree in everything else a refresh depends on: site, platform, address, access token, outbound route, headers, captcha key, relogin setting |
| CredentialChange.TokenIsCoveredIff | service/managed_session.go:404-409 | for new-api-v1 that condition on the access token is exact: it hides no other cookie, or the cookie it shows looks malformed, so that no row relies on it |
| CredentialChange.Sub2IsCoveredIff | service/managed_session.go:381-399 | for sub2api the fingerprint covers the credential of a row exactly unless it begins with "invalid:" and goes on with the JSON text of a value |
| CredentialChange.MalformedCollides | service/managed_session.go:390-399 | a malformed value and the text it is hashed as share a fingerprint; the text is submitted, the value submits nothing |
| CredentialChange.NumberCollides | service/managed_session.go:390-399 | concretely the number 5 and the text "invalid:5" |
| CredentialChange.UncoveredToken | platform/newapi_v1.go:61-71 | with the token "Bearer new_api_refresh=A; new_api_refresh=B" two rows have one fingerprint and submit A and B |
| CredentialChange.BearerJarIsNotCovered | platform/adapter.go:235-241 | the same for any two different cookies behind a Bearer prefix |
| CredentialChange.NewCredentialStartsClean | service/managed_session.go:263-275 | with such a token, another access token, or another refresh credential that does not look malformed, is held back by no wait, failure count or dead mark of the old one |
| ManagedSession.RefreshManagedSession | service/managed_session.go:540-683 | the imperative call changes record, slot and row, calls the adapter, and returns exactly as the step function says |
| ManagedSession.ManagedRefreshState.SyncCredential | service/managed_session.go:266-275 | a changed fingerprint wipes the remembered outcome, an equal one keeps it |
| ManagedSession.ManagedRefreshState.GetRetryDelay | service/managed_session.go:283-296 | the wait is the remaining minute after a success or the remaining backoff, whichever is longer |
| ManagedSession.ManagedRefreshState.RecordSuccess | service/managed_session.go:298-304 | a success clears failures, backoff and the dead mark and records fingerprint and time |
| ManagedSession.ManagedRefreshState.RecordFailure | service/managed_session.go:306-312 | a failure counts up, takes over the dead mark of the answer, and backs off accordingly |
| ManagedSession.RetryDelay | service/managed_session.go:283-296 | the wait ends exactly at the later of two deadlines, a minute after the last success and the end of the backoff, and is zero when both are over |
| ManagedSession.ManagedRefreshSiteState.TryStart | service/managed_session.go:495-506 | the slot is taken exactly if nobody holds it and its wait is over; a refused caller learns how long to wait |
| ManagedSession.ManagedRefreshSiteState.Finish | service/managed_session.go:508-524 | the slot is released and blocked for the hint of the answer or the spacing |
| SessionRuns.ReturnsStoredToken | service/managed_session.go:540-683 | each return past the account lock carries the token and the configuration stored at that moment, and only didRefresh says that the row changed; before the lock the caller gets back its own and nothing changes |
| SessionRuns.RenewalIsStored | service/managed_session.go:638-682 | a call that reaches the adapter refreshes exactly if the answer is a success with token and configuration and a write succeeds; the row then holds these two, "expired" became "active", and nothing else changed |
| SessionRuns.DueExactly | service/managed_session.go:202-244 | due exactly from the lead before the expiry on, between 4 and 10 minutes, and never without one; the expiry the token itself claims wins over the recorded one |
| RefreshedRows.RefreshIsAccountRefresh | service/managed_session.go:648-682 | for the account rows every call is the refresh of the account runs, editing session nodes only, or changes nothing |
| RefreshedRows.RefreshKeepsDisabled | service/managed_session.go:652-658 | no refresh moves an account into or out of "disabled" or touches its marker; the only change of status is from "expired" to "active" |
| SessionRuns.OwnWriteMatches | service/managed_session.go:676-682 | a renewal records the fingerprint of the row it wrote, so its own write never resets the record |
| SessionRuns.AfterCall | service/managed_session.go:283-312 | a call is made only when no wait is pending, renews exactly on a usable answer that is stored, and leaves a wait of a minute, six hours after a lost write, or else the backoff of its answer and failure count; it reports the credential dead exactly if the answer did or a renewal was lost |
| SessionRuns.ConsecutiveCallsSpaced | service/managed_session.go:561-586 | with the fingerprint unchanged, consecutive upstream calls, forced or not and with any other calls between them, are at least 60 s apart after a success, the backoff of the answer after a failure, 6 h after a dead credential |
| SessionRuns.FailureGapsDouble | service/managed_session.go:351-371 | after f failures in a row without hint or dead mark, the next call comes at least min(2 min * 2^(f-1), 30 min) later |
| SessionRuns.FailuresAreCounted | service/managed_session.go:306-312 | the failure count is the number of failed upstream calls since the last success |
| SessionRuns.CallerAsksIff | service/managed_session.go:541-616 | exactly when a caller reaches the upstream: with force, only while it holds the stored token; without, only if the token stored by now is due; and always past its waits and with the slot free |
| SessionRuns.ToldWaitIsExact | service/managed_session.go:561-616 | a caller held back learns the very instant from which the account's waits, or else the slot, let it through; only forced callers are told about the account's own waits |
| SessionRuns.SilentIff | service/managed_session.go:541-616 | a call that asks nobody is silent exactly if nothing was to be done: not managed, not due and not forced, token replaced meanwhile, or the scheduler found a wait pending |
| SessionRuns.AtMostOneRotation | service/managed_session.go:551-683 | callers holding the same stale row cause at most one rotation; all later ones get the renewed token without an upstream call |
| Fingerprints.KeyedWriteKeepsFingerprintIff | service/account_health.go:10-23 | runtime health and archive markers never change the fingerprint, unless the configuration was undecodable text |
| Fingerprints.ExpiryKeepsFingerprintIff | service/managed_session.go:412-459 | nor does writing or clearing the expiry |
| Pacing.SpacingKeptIff | service/managed_session.go:508-524 | a release keeps the next admission the spacing away exactly if the hint is absent or at least the spacing |
| Pacing.CallsWait | service/managed_session.go:495-524 | over every interleaving and with any hints, calls on one scope never overlap, and each begins at least the wait its predecessor was released with after the end of that one |
| Pacing.CallsSpaced | service/managed_session.go:495-524 | so they begin at least the spacing after the previous one ended, if hints keep the spacing |
| Pacing.WithinUpstreamLimits | service/managed_session.go:46-50 | then, on the scope of a row, any half-open 20 minutes hold at most 20 calls if its platform is new-api-v1, and any half-open 60 s at most 30 if it is sub2api |
| ScopePacing.NextAdmission | service/managed_session.go:461-524 | a refresh call is made only if the slot admits it, and the slot admits the next one exactly from the hint, or else 60 s (new-api-v1) or 2 s (sub2api), after its end |
| ScopePacing.ScopeWithinLimits | service/managed_session.go:46-50 | over any run of refresh calls on one scope, for any accounts: the same two limits, if no hint is shorter than the spacing |
| Pacing.WithinLeastWait | service/managed_session.go:508-524 | with any hints: an interval of n times the least wait of a run holds at most n calls |
| Pacing.AtMostOnePerGap | service/managed_session.go:46-50 | instants at least a gap apart: an interval of n gaps holds at most n of them |
| Pacing.RacesExceedLimit | platform/newapi_v1.go:251-289 | with race hints of two seconds, the slot admits 600 calls in 20 minutes |
| Pacing.OneAccountExceedsLimit | service/managed_session.go:540-683 | each of 600 forced refreshes of one account within 20 minutes reaches the upstream if each meets a race |
| WakeTimer.RefreshLoop.ScheduleManagedRefreshWake | service/managed_session.go:747-767 | a request arms a timer unless an earlier one is known, and stops the later one it replaces |
| WakeTimer.RefreshLoop.WakeUp | service/managed_session.go:767-778 | a callback starts a pass exactly if its generation still runs, and forgets the known timer |
| WakeTimer.RefreshLoop.StartManagedRefreshScheduler | service/managed_session.go:789-798 | a start stops the known timer and opens a new generation |
| WakeTimer.RefreshLoop.StopManagedRefreshScheduler | service/managed_session.go:816-827 | a stop stops the known timer and closes the generation |
| WakeTimer.NoLostWake | service/managed_session.go:747-779 | in every reachable state each wake requested by the running generation is still to come, no later than asked, or came after it was asked for |
| WakeTimer.NoUnaskedWake | service/managed_session.go:747-767 | in every reachable state each timer stands for a request of its generation, for the very instant asked for, which lay ahead |
| WakeTimer.OrphansAreOvertaken | service/managed_session.go:755-827 | in every reachable state the loop knows each timer still armed, unless an earlier one of the generation led to a pass: replaced timers and those of a stopped loop are stopped |
| WakeTimer.StaleNeverPasses | service/managed_session.go:768-773 | a timer of a generation that no longer runs never starts a pass |
| WakeTimer.NoPassAfterStop | service/managed_session.go:789-827 | after a stop or restart no timer from before starts a pass |
| StableSort.SortIsStableSort | service/managed_session.go:696-707 | sorting is ascending, a permutation, and keeps the order of equal keys |
| StableSort.StableSortIsUnique | service/managed_session.go:696-707 | there is only one such result, so any stable sort gives it |
| RefreshPass.Fleet.ExecuteManagedRefreshPass | service/managed_session.go:693-745 | unless another pass is running or the query fails, a pass visits the due accounts in order and asks for a wake at the least positive delay it met |
| RefreshPass.VisitsAscend | service/managed_session.go:696-727 | accounts are visited by ascending known expiry |
| RefreshPass.VisitTouchesOneScope | service/managed_session.go:476-493 | a visit touches the record of its account and one slot: of the stored platform and address and the route the listed row asks for |
| RefreshPass.TalliesCount | service/managed_session.go:715-741 | the tallies are the numbers of accounts whose refresh returned a renewal, and of those whose refresh failed, deferred ones not counted |
| RefreshPass.WakeIsLeastWait | service/managed_session.go:728-745 | the wake asked for is the least positive wait that a visited account was told, and none without one |
| RefreshPass.PassRenewsOne | service/managed_session.go:715-736 | a pass that finds the slot of a scope free renews at least one of its due accounts and makes none due |
| RefreshPass.ScopeDrains | service/managed_session.go:693-745 | n due accounts of a scope whose refreshes succeed are all renewed after n such passes |
| RefreshTiming.ManagedRefreshBackoff | service/managed_session.go:351-371 | the doubling loop computes min(2 min * 2^(f-1), 30 min), with dead and hinted answers first |
| RefreshTiming.BackoffMonotone | service/managed_session.go:351-371 | more failures never wait less; 2 to 30 minutes |
| RefreshTiming.LeadIsLastQuarter | service/managed_session.go:227-240 | the renewal lead is a quarter of the lifetime, 4 minutes exactly for lifetimes below 16 min 4 ms and 10 minutes exactly from 40 min on |
| RefreshTiming.DueIff | service/managed_session.go:217-244 | a credential is due exactly from its lead before its expiry on, to the nanosecond, and never without expiry |
| RefreshTiming.FoundDueInTime | service/managed_session.go:217-244 | with scans at most two minutes apart a token is found due with more than its lead minus two minutes left |
| Sub2Api.RefreshAuth | platform/sub2api.go:179-277 | the stored token is submitted at most once, and the result is the outcome function's |
| Sub2Api.OutcomeIsOneOfThree | platform/sub2api.go:134-277 | from the reply alone: renewed exactly if a token was sent and a 2xx with code 0 carries an access token and another refresh token; throttled exactly if the status, or the code of a 2xx, is 429, for the server's wait or a minute; else dead |
| Sub2Api.RenewalIsStored | platform/sub2api.go:230-277 | a renewal hands out data.access_token and stores data.refresh_token and the expiry where they are read next: what expires_in says, else the token's own claim, else 15 minutes; no other field changes |
| Sub2Api.RotatedStores | platform/sub2api.go:262-264 | the token handed in is what the next exchange reads, writing the expiry after it does not disturb it, and all other fields survive |
| Sub2Api.ExchangeKeepsInStep | platform/sub2api.go:134-277 | whatever the connection does, an exchange in step with the server ends in step, or dead, or throttled and unconsumed |
| NewApiV1.RefreshAuth | platform/newapi_v1.go:50-222 | the same cookie is submitted at most twice, the second time only after an uncertain, raced or unrotated answer, and the result is the outcome function's |
| NewApiV1.ReadingIff | platform/newapi_v1.go:86-180 | from the reply alone, when an answer reads as a race, a refusal with its code and status, lost, incomplete, unrotated or renewed |
| NewApiV1.RecoversIff | platform/newapi_v1.go:97-200 | the cookie is submitted once more exactly after a race, an answer that is none, or a success without a new cookie |
| NewApiV1.ExchangeReports | platform/newapi_v1.go:50-289 | from the two replies alone: the first renewal, with its access token, cookie and expiry stored and nothing else changed; or the refusal of the first reply, or of the second after a race - dead for the fatal codes and an unstructured 401, waiting as asked or 20 minutes for a 429, 2 s for a race or 409, neither for anything else; dead in all other cases |
| NewApiV1.RotatedRefreshCookie | platform/newapi_v1.go:224-237 | the last refresh cookie set counts, if it is new |
| NewApiV1.LatestIsLast | platform/newapi_v1.go:224-237 | the cookie taken is that of the last Set-Cookie value that sets it |
| NewApiV1.ClassifiedFailure | platform/newapi_v1.go:251-289 | a failure is never a success, and dead or waiting, not both; ExchangeReports says which |
| NewApiV1.OutcomesExclusive | platform/newapi_v1.go:50-289 | success, a wait and a dead credential exclude each other |
| NewApiV1.SuccessCarriesNewCookie | platform/newapi_v1.go:181-222 | success stores a Set-Cookie value of the answer that differs from the cookie sent |
| NewApiV1.StoredIsRead | platform/newapi_v1.go:188-222 | the configuration stored after a success submits the new cookie next and carries the normalized expiry |
| NewApiV1.SoleClientKeepsInStep | platform/newapi_v1.go:50-222 | against an upstream that replays a rotation for a while, and one client: the server's current cookie, or dead, or unrotated, even if the window ends between the two submissions |
| ManagedAuth.NormalizeIdempotentIff | platform/managed_auth.go:76-81 | normalizing twice is normalizing once exactly outside 1..10^9-1 |
| ManagedAuth.Config.SetManagedTokenExpiresAt | platform/managed_auth.go:85-96 | the in-place write equals the function whose properties follow |
| ManagedAuth.Config.ClearManagedTokenExpiresAt | platform/managed_auth.go:99-112 | likewise for the clear |
| ManagedAuth.Config.DropLegacyExpiryNodes | platform/managed_auth.go:114-130 | both legacy copies go, with their node when nothing is left in it |
| ManagedAuth.SetThenRead | service/managed_session.go:177-200 | after a write the reader returns the normalized expiry - itself exactly from 10^12 on - no legacy node holds a copy, and all other fields survive |
| ManagedAuth.ClearThenRead | platform/managed_auth.go:99-130 | after a clear the reader returns 0 for any configuration, and all other fields survive |
| ManagedAuth.CanonicalFirst | service/managed_session.go:177-200 | the reader takes the canonical node first, then the two legacy ones in order, and 0 if none holds an expiry |
| ManagedAuth.LifetimeIsDifference | platform/cookie.go:355-380 | the lifetime of a token is the time between iat and exp, whether these are numbers, fractions dropped, or decimal texts, in seconds or milliseconds |
| Cookie.ParseCookiePairsFromSingle | platform/cookie.go:67-105 | the loop over one line equals the parser function |
| Cookie.ParseCookiePairs | platform/cookie.go:107-128 | the loop over all lines equals the parser function |
| Cookie.JoinCookiePairs | platform/cookie.go:152-161 | the printing loop equals the printer function |
| Cookie.MergeCookiePairLists | platform/cookie.go:130-150 | the merge with its index map equals the fold of single writes |
| Cookie.MergeIsLastWriteWins | platform/cookie.go:130-150 | that fold has distinct names, in order of first occurrence, with the last value of each |
| Cookie.LastWriteWinsIsUnique | platform/cookie.go:130-150 | no other list fits this description |
| Cookie.MergeAssociative | platform/cookie.go:130-150 | merging is associative and absorbs merged arguments |
| Cookie.ParseWellFormed | platform/cookie.go:40-128 | parsing any text yields well-formed pairs |
| Cookie.ParseJoin | platform/cookie.go:67-161 | parsing a printed list of well-formed pairs gives back that list |
| Cookie.NormalizeIdempotent | platform/cookie.go:163-165 | normalizing a cookie header is idempotent on every string |
| Cookie.MergeHeadersAssociative | platform/cookie.go:231-233 | merging headers is associative on all strings and ignores normalization |
| Cookie.MergeSetCookiePairs | platform/cookie.go:735-754 | the loop over Set-Cookie values is the fold of unvalidated writes |
| CookieHeaders.PlainCookieIsRead | platform/cookie.go:27-105 | any cookie with an ordinary name of up to 80 characters that is no attribute, and a value not of "=" only, is read |
| CookieHeaders.ParsedAreNoAttributes | platform/cookie.go:27-105 | no Set-Cookie attribute is ever read as a cookie, and names and values hold no separator |
| CookieHeaders.FirstOfName | platform/cookie.go:202-213 | a look-up finds the first cookie of that name in any case, or nothing |
| CookieHeaders.LabelIsDropped | platform/cookie.go:56-65 | a header labelled "Cookie:" or "Set-Cookie:", in any case, reads like the bare one |
| CookieHeaders.LinesAreRead | platform/cookie.go:107-128 | headers on two lines, with either line ending, read one after the other |
| CookieHeaders.SetCookieGivesPair | platform/cookie.go:735-754 | a Set-Cookie value gives its pair whatever attributes follow |
| CookieHeaders.SetCookieIsMerged | platform/cookie.go:735-754 | after a merge the last Set-Cookie cookie is in the header, once, and any other cookie exactly if it was without it |
| CookieHeaders.SetCookieIsRead | platform/cookie.go:202-213 | and a look-up finds its value, unless the header holds the name in another case |
| FetchLoop.FetchJsonWithCookieAttempts | platform/cookie.go:838-971 | with or without a body wanted: at most maxAttempts requests, none if the request cannot be built; cookies are the left fold of replies and solved challenges; each reply but the last asked for another attempt |
| FetchLoop.AsksAgainIff | platform/cookie.go:918-967 | another attempt follows exactly a shield page that is no answer, if it was solved or its Set-Cookie values changed the header |
| FetchLoop.VerdictIff | platform/cookie.go:918-961 | which last replies are a success, which an error with status and hint, which an error without, and when cookies are handed on |
| FetchCookies.SentIsMerged | platform/adapter.go:261-276 | each attempt sends the custom and the current cookies, each name once, the current value winning |
| FetchCookies.ReplySetsCookie | platform/cookie.go:911-916 | a cookie that a reply sets last is in the next header |
| FetchCookies.SolutionIsSent | platform/cookie.go:954-967 | the solution of a shield page is sent with the next attempt |
| FetchLoop.FetchJsonOnce | platform/cookie.go:980-986 | one-shot mode submits exactly once whatever is answered |
| Gob.DecodeGobSignedInt | platform/cookie.go:382-408 | the byte loop with 64-bit shifts equals the decoding function |
| Gob.DecodeEncode | platform/cookie.go:382-408 | decoding inverts the signed-integer encoding on 1..10^7 and yields 0 outside |
| Gob.MarkersDisjoint | platform/cookie.go:410-446 | markers do not overlap, so skipping past one misses none |
| Gob.ExtractGobIds | platform/cookie.go:410-446 | the scan found what is encoded behind the markers passed so far |
| Gob.ScanIsExact | platform/cookie.go:410-446 | a complete scan holds, without duplicates, exactly the ids that stand, with length and delimiter, behind some field marker |
| Gob.EncodedIsScanned | platform/cookie.go:410-446 | an id of 1..10^7 written as gob writes it is found wherever it stands in a payload |
| ExtraConfig.MergeKeyed | db/archive.go:191-204 | the key-by-key write equals the merged column, and panics exactly on writing into the literal null |
| Archive.AccountTable.ArchiveAccountsBySite | db/archive.go:229-256 | the loop is the cascade of archive moves, with its count, up to the first failing write |
| Archive.AccountTable.RestoreAccountsBySite | db/archive.go:262-283 | likewise for restore moves |
| Archive.CascadeIsExact | db/archive.go:229-283 | a cascade moves a prefix of the accounts, counts exactly those it changed, and stops only at a failed write or a panic |
| Archive.ArchiveKeepsIntentIff | db/archive.go:206-256 | archiving keeps the intended status exactly of accounts that are active, expired, disabled or already archived |
| Archive.RestoreKeepsIntent | db/archive.go:262-283 | restoring always keeps the intended status and all other keys |
| Archive.TogglesKeepIntentIff | handler/site.go:133-161 | any sequence of completed disables and enables keeps all other keys, and the intended status exactly of those accounts |
| Archive.InterruptedTogglesKeepIntent | db/archive.go:229-283 | the same for cascades cut short by failed writes or panics: those accounts keep their intent, any other keeps its row or becomes active |
| Archive.UninterruptedToggles | db/archive.go:229-283 | with every write succeeding and no null configuration each cascade of such a sequence completes |
| Archive.RepeatDoesNothing | db/archive.go:224-283 | repeating a completed cascade changes no account and counts none |
| Archive.InterruptedResumes | db/archive.go:229-283 | running an interrupted cascade again leaves what an uninterrupted one would have |
| Archive.RoundTripIsLosslessIff | db/archive.go:229-283 | when disable and enable give back the very same row |
| Archive.NullConfigStopsCascade | db/archive.go:191-204 | archiving panics exactly on an enabled account whose configuration is null |
| AccountStatus.Store.CascadeSiteStatusChange | handler/site.go:133-161 | disabling archives, activating from disabled restores, anything else does nothing |
| AccountStatus.Store.UpdateSite | handler/site.go:79-123 | a changed text status is stored and cascades, unless the site row cannot be written; an unchanged one, or one stored by another member, does not cascade |
| AccountStatus.Store.BatchSites | handler/site.go:198-235 | each known site whose row can be written is switched, cascades even when unchanged, and is listed as succeeded, any other as failed; a panic ends the batch |
| SiteToggles.SiteRequest | handler/site.go:98-161 | a text status that changes to "disabled" hides every account of the site, one that changes from "disabled" to "active" brings every one back with what is wanted of it; anything else, a repeated status included, changes no account |
| SiteToggles.BatchLists | handler/site.go:198-235 | whichever account rows can be written: the batch lists as succeeded, in order, exactly the known sites whose row can be written, all others as failed, and gives the status to exactly the former |
| SiteToggles.BatchRequest | handler/site.go:198-235 | each account of a listed site is hidden, or brought back if its site was disabled; an id listed twice counts once, and no other account changes |
| AccountStatus.Store.UpdateAccount | handler/account.go:751-913 | an edit of status and configuration, dropping the marker on an explicit change, with whatever other members leave in the two columns |
| AccountStatus.Store.SetAccountStatusUserDriven | db/archive.go:290-300 | the status is set and the marker dropped |
| AccountStatus.Store.CheckinAccount | service/checkin.go:314-577 | what a check-in stores: health alone for a disabled site or account, else also the status it found |
| AccountRuns.RunKeepsInv | handler/account.go:519-528 | over any run of site requests, batches, edits, creations, logins and jobs: in every reachable state a marked account is disabled and an active site has no marked account |
| AccountRuns.SiteEditKeepsInvIff | handler/site.go:79-123 | a site request keeps both invariants exactly if the site ends active or disabled, and if a member past the rules makes it active, none of its accounts ends up marked |
| AccountRuns.HealthIsRecorded | service/account_health.go:33-37 | the health a job found is recorded, and no other key changes |
| AccountRuns.OtherKeysSurvive | handler/account.go:751-913 | edits, logins and chosen statuses leave all keys alone but those they write or delete and the two markers |
| AccountRuns.EditKeepsMarkedIff | handler/account.go:888-908 | an edit without raw configuration keeps a marked account disabled exactly if it does not store another status past the rules for a text `status` |
| AccountRuns.EditKeepsInvIff | handler/account.go:751-913 | for every request, account and site status: the edit keeps both invariants exactly if a raw configuration that is stored is not null and carries a marker only for an account ending disabled on a site that is not active, and otherwise no other status than disabled reaches the column of a marked account past the rules |
| AccountRuns.RawEditsBreakInv | handler/account.go:905-913 | a marker on an account of an active site breaks them even with status "disabled", and so does the literal null |
| AccountRuns.ColumnEditsBreakInv | db/models.go:343-375 | a status null, a status false stored as "0", and a member "Status" with "active" break them on an archived account |
| AccountRuns.StatusChangeUnmarks | handler/account.go:888-903 | an explicit change of status unmarks the account exactly unless a configuration stored past the rules carries a marker |
| AccountRuns.UserChoiceWins | db/archive.go:285-300 | a batch enable or disable is what the account is meant to be, whatever the site did before |
| AccountRuns.EditedStatusWins | handler/account.go:888-903 | so is a status changed by an edit |
| AccountRuns.ResavingKeepsArchive | handler/account.go:891-896 | an edit that repeats the status of an archived account leaves it archived with its snapshot |
| AccountRuns.CreatedComesBack | handler/account.go:519-528 | an account created under a disabled site is restored with the requested status, expired or else active |
| IntentRuns.StepRefines | handler/site.go:98-235 | each site request, batch, edit, user choice, creation, login or job acts on intended statuses as planned: sites touch none, users set them, jobs move only between active and expired |
| IntentRuns.RunRefinesPlan | db/archive.go:229-300 | over every run of such actions with plain statuses the stored rows show what the plan says |
| IntentRuns.ManualDisableSurvives | service/checkin.go:330-338 | while no user acts, an account meant to be disabled stays so and no other becomes it, through any toggles and jobs |
| IntentRuns.ActiveSiteShowsIntent | db/archive.go:258-283 | on an active site the stored status is the intended one |
| AccountRuns.ActivationClearsIff | handler/site.go:98-161 | a request "active" leaves no marked account exactly if the site was disabled right before or had none |
| AccountRuns.DetourStrandsAccount | handler/site.go:146-161 | from disabled through any third status to active no account changes; disabling once more leads back to the state before the detour, whatever writes would fail |
| AccountRuns.ColumnActivationIff | handler/site.go:98-120 | a site made active by a member other than a text `status` has no marked account exactly if it had none |
| AccountRuns.NullStatusBreaksMarker | db/models.go:343-375 | a null status leaves an archived account marked and enabled |
| AccountRuns.JobsKeepDisabled | service/balance.go:56-66 | no background job moves an account into or out of a stored "disabled", or touches a marker |
| AccountRuns.BackgroundRunKeepsDisabled | service/managed_session.go:656-658 | nor does any sequence of them |
| AccountRuns.SpelledDifferentlyIff | service/checkin.go:330-338 | a status that only normalizes to disabled survives a failed check-in exactly if the site is disabled |
| CheckinSpacing.ClampHitsWindow | service/scheduler.go:134-161 | the clamped instant is in the window, or the delay is 0 because the instant drawn in the last hour of that day is past |
| CheckinSpacing.ClampedInstant | service/scheduler.go:134-161 | outside the window a check-in goes to the drawn minute and second of the last hour, or of the first half hour, of the window on its own day |
| CheckinSpacing.ClampIsIdempotent | service/scheduler.go:134-161 | clamping again changes nothing, for any random draws |
| CheckinSpacing.EnforceGaps | service/scheduler.go:237-247 | the in-place pass over one site equals the function whose properties follow |
| CheckinSpacing.EnforceAllGaps | service/scheduler.go:229-248 | likewise over all sites |
| CheckinSpacing.StepKeepsGapIff | service/scheduler.go:241-246 | a step keeps two minutes for all draws exactly if it bumps nothing or bumps before the window's end |
| CheckinSpacing.GapsKept | service/scheduler.go:229-248 | if no bumped delay is moved by the clamp: gaps of two minutes, no delay decreases, at most five minutes more for each account before, others untouched |
| CheckinSpacing.EachGroupAlone | service/scheduler.go:229-248 | what the whole pass leaves at a site is what the pass over that site alone makes of it |
| CheckinSpacing.AllGapsKept | service/scheduler.go:229-248 | the gaps hold for every site at once, in any order of the sites |
| CheckinSpacing.GapsWithRoom | service/scheduler.go:229-248 | they hold for any draws whenever the first check-in of the group and its last plus five minutes for each account before it lie in the window of one day |
| CheckinWorstCase.GroupKeepsGapsIff | service/scheduler.go:229-248 | with all drawn check-ins of a site in the window, gaps of two minutes hold for all draws exactly if every bump of the draw of five-minute gaps stays before the window's end |
| UserIdProbe.BuildUserIDProbeCandidates | platform/cookie.go:558-576 | candidates are the positive extracted and common ids, each once, extracted ones first and each in order of its first appearance |
| UserIdProbe.ProbeCandidates | platform/newapi.go:220-245 | the nested loops with their shared budget of 8 equal the search function, at the cost of at most one probe for each candidate and 8 more |
| UserIdProbe.SearchCost | platform/newapi.go:100-107 | at most one probe for each candidate plus the budget |
| UserIdProbe.ZeroMeansAllFailed | platform/newapi.go:220-245 | 0 is returned only after every candidate failed with the first cookie |
| UserIdProbe.FoundIsAccepted | platform/newapi.go:352-378 | a returned id is an accepted candidate, and none before it is accepted with the first cookie |
| UserIdProbe.BudgetSufficesIff | platform/newapi.go:220-245 | the search equals the full matrix exactly if the budget left at the winner reaches its cookie |
| UserIdProbe.BudgetLeft | platform/newapi.go:220-245 | the budget left at the i-th candidate |
| UserIdProbe.BudgetIrrelevant | platform/newapi.go:100-107 | it equals the full matrix whenever the cookie variant does not matter |
| UserIdCache.ResolvedUserIdCache.Lookup | platform/newapi.go:75-89 | an entry answers until strictly after its expiry, and is dropped then |
| UserIdCache.ResolvedUserIdCache.Store | platform/newapi.go:91-99 | positive ids are kept for an hour |
| UserIdCache.ResolvedUserIdCache.Cleanup | platform/newapi.go:52-69 | a cleanup drops exactly the dead entries, in any order |
| UserIdCache.ResolvedUserIdCache.DiscoverUserId | platform/newapi.go:153-168 | a given id wins, then the cache, then a probe that is remembered |
| UserIdCache.LookupIsExpected | platform/newapi.go:52-99 | after any run, a lookup answers the last id stored for the key within the hour |
| UserIdCache.CleanupIsInvisible | platform/newapi.go:52-69 | every lookup answers as if there were no cleanup |

## Left out

- CredentialSafety.LossIsReported: assumes that a throttled exchange (429) consumed nothing, that a completed error answer of new-api-v1 rotated nothing, and that nothing else writes the credential; loss is reported per step, since a later probe may clear the dead mark.
- SessionRuns.AtMostOneRotation: assumes that the upstream does not hand out the stale token again and that the renewed token is not due for a caller that does not force; CallerAsksIff says exactly when another call is made.
- Pacing.WithinUpstreamLimits: counts calls of RefreshAuth; a new-api-v1 call may make two requests.
- WakeTimer.NoLostWake: a callback that finds another pass under way starts none; the two-minute ticker then picks the work up.
- WakeTimer.RefreshLoop.StartManagedRefreshScheduler: the goroutine it starts, with a first pass and one every two minutes until its generation is closed, is not part of the state machine.
- RefreshPass.ScopeDrains: assumes that refreshes keep the scope of their account and that no further account of the scope becomes due meanwhile.
- FetchLoop.FetchJsonWithCookieAttempts: HTTP redirects, which send a request more than once, and the solver of shield pages are outside; replies are values.
- AccountRuns.RunKeepsInv: site statuses are active and disabled, cascades complete, accounts stay on their site, and a read of a row with the write after it is one step.
- AccountStatus.Store.UpdateSite: the status column of a site holds a text; a null written into it, which makes the row unreadable, is not modelled.
- AccountStatus.Store.CheckinAccount: the relogin inside a check-in is a separate edit of other configuration keys; RefreshBalance, which writes the same way, has no method of its own.
- AccountStatus.Store.UpdateAccount: edits of single configuration keys are sets of keys written and deleted, none of them a marker; columns other than status and extra_config, site_id among them, are not part of an account.
- IntentRuns.RunRefinesPlan: users ask for the statuses active, expired and disabled, also by members past the rules, and store no raw configuration; for anything else the lemmas about single operations apply.
- CheckinSpacing.AllGapsKept: local time has days of 24 hours; daylight saving and cron expressions are not modelled.
- ManagedAuth.SetThenRead: JSON numbers are exact; rounding of float64 beyond 2^53 and numbers outside its range are not modelled.
- Text: case mapping covers ASCII and the characters that map into it; texts are sequences of Unicode scalar values, without invalid UTF-8.
- Failure messages and their keyword tables, and the reason codes of Sub2API, which only choose a message.
- The Retry-After parser (section 10.2.3 of RFC 9110): hints are numbers.
- HTTP transport, proxies, JSON text and SQL: replies, objects and rows are values.
- Base64, token signatures, encryption and hashing: library code; claims of a token are functions of it.
- Turnstile solvers, balance, model and token listings: input and output without state worth proving.
- Races inside a read-merge-write of the configuration outside the account lock, and state lost at a restart of the process: the code promises nothing there.
- Backup, statistics, settings, authentication and the user interface: each request reads or writes rows of its own, without a state or protocol that the parts above share.
