# Auth API: a verified model

A Dafny model of the parts of the Auth API that keep state over time or that
parse what strangers send, with proofs of what they guarantee over every run and
every input. `dafny verify dfyconfig.toml` checks the whole project.

| file | what it models |
|---|---|
| `SlidingWindow.dfy`, `RateLimiter.dfy`, `RateLimiterRuns.dfy` | the sliding-window limiter: one bucket's arithmetic, the script over all buckets of a layer, whole runs |
| `Sessions.dfy`, `SessionFamilies.dfy`, `SessionOutcomes.dfy`, `SessionFutures.dfy` | the verdict on a refresh token, the refresh protocol with requests interleaved between database operations, what becomes of each request, and what can still happen from each state |
| `Base64Url.dfy`, `AuditCursor.dfy`, `AuditLog.dfy` | the audit log, its cursor codec, and keyset paging over a growing table |
| `AuthenticatorData.dfy`, `CborItems.dfy`, `CborValues.dfy` | WebAuthn authenticator data, and the CBOR item lengths its parser relies on |
| `ClientIp.dfy`, `PrefixSearch.dfy`, `Text.dfy` | the forwarded-address walk, the `LIKE` pattern of a search |
| `ScopeParameter.dfy`, `Scopes.dfy` | the `scope` parameter, and the path from consent to token claims |
| `TotpReplay.dfy`, `EmailCodes.dfy` | the replay guard of time-based codes, one-time codes by email |
| `LatencyHistogram.dfy`, `LoadRecorder.dfy` | the load generator's histogram and its per-operation results |
| `Basics.dfy`, `Time.dfy` | shared types and facts |

Places where the code does not do what a comment or a first reading says, each
with the exact condition under which it does:

- The limiter announces the milliseconds "until the first refusing bucket frees a
  slot" (`src/middleware/rate_limit.rs:35-36`). They free one exactly when the
  current window has room (`WaitFreesSlotIff`): a full window becomes a full
  previous window, and one more refusal follows.
- A client waiting the whole seconds of `Retry-After` is said to find a free slot
  (`src/domain/rate_limit.rs:32-33`). It does exactly when the current window has
  room, or when the milliseconds the rounding adds are enough for the full window
  to give one request back (`RetryAfterFreesSlotIff`); both outcomes occur for
  full windows (`WaitingOnceIsNotAlwaysEnough`). Honouring every wait ends in
  admission after at most two refusals per bucket
  (`FollowingWaitsEndsInAdmission`, `RetryAfterEndsInAdmission`).
- `src/config/validate.rs:446-448` speaks of codes remembered for 90 seconds; the
  repository keeps them for 120 (`src/repositories/two_factor.rs:265-268`). The
  model follows the repository. `GuardHoldsIff` gives the condition for any
  window: with 90 seconds a code would have to be consumed within a nanosecond of
  being verified.
- `src/repositories/email_2fa.rs:13` says a new code invalidates the user's active
  ones; the latest unused code survives it (`src/repositories/email_2fa.rs:114-116`).
  The model follows the code: at most two are open (`CodesAreBounded`), and exactly
  the previous latest and the new one after a resend (`CreateKeepsLatest`).
- Judging a refresh and rotating its session are separate database operations, so
  a token can be judged `Rotate` twice (`GrantedTwice`). It can be granted again,
  at a given time or later, exactly while its row stands unrevoked and refreshable
  at that time (`GrantedAgainIff`). No interleaving rotates it twice
  (`NoTokenRotatesTwice`).
- A `Replay` verdict does not by itself stop the family: a rotation can commit
  before the revocation does (`RotatedBetweenReplayAndRevocation`), and when
  retention deletes the replayed row first, `revoke_session_family` raises and
  revokes nothing (`CleanedUpReplayEndsNothing`). A family can rotate again
  exactly while one of its sessions stands unrevoked and is refreshable or already
  granted (`RotatesAgainIff`); a revocation ends exactly the family of the row it
  finds (`RevocationEndsExactly`); and a family ended in any way never returns
  (`EndedFamilyNeverReturns`, `LogoutEndsTheFamily`).

Assumptions: each script call, SQL statement or transaction is atomic. The stamps
of the limiter's processes do not go back to an earlier fixed window, though they
may disagree inside one (`StepBackBreaksTheBound` shows that crossing a window is
what breaks the bounds), and key expiry follows the same stamps. Time-based codes
are consumed in the order of the application's clock, and a sweep removes only
rows older than the replay window by that clock. The primary key of the audit log
is unique and none of its partitions is dropped while a client pages.

## Model

| member | source | states |
|---|---|---|
| SlidingWindow.EstimateNeverRises | src/middleware/rate_limit.rs:42-55 | with no further admission the estimate never rises, window turns included |
| SlidingWindow.DecayWaitIsLeast | src/middleware/rate_limit.rs:55-63 | while only the previous window is in the way, the bucket admits after t ms exactly when t is at least the announced wait: division and ceiling give the least such number |
| SlidingWindow.WaitFreesSlotIff | src/middleware/rate_limit.rs:34-63 | the announced wait frees a slot if and only if the current window holds fewer requests than the limit |
| RateLimiter.WaitingOnceIsNotAlwaysEnough | src/domain/rate_limit.rs:32-36 | a full bucket that refuses after the milliseconds and after the header's seconds, and one that refuses after the former and admits after the latter |
| SlidingWindow.WaitUsesUpARefusal | src/middleware/rate_limit.rs:55-63 | waiting as told, or longer, lowers the number of refusals a bucket can still give |
| RateLimiter.Limiter.SlidingWindow | src/middleware/rate_limit.rs:37-75 | the check loop and the commit loop, in place, compute the first refusing bucket's wait and the store with all buckets counted and their deadlines set, or none |
| RateLimiter.AllBucketsOrNone | src/middleware/rate_limit.rs:45-72 | a request is admitted exactly when no bucket refuses it; then it is counted once in each of its buckets and in no other, and a refused one changes nothing |
| RateLimiter.AnswerMeans | src/middleware/rate_limit.rs:46-66 | a refusal announces, for the first refusing bucket, the least milliseconds after which it admits if its window has room, and otherwise the least that lead into the next window |
| RateLimiter.DeadlineIsTwoWindows | src/middleware/rate_limit.rs:68-71 | a counted key is kept for two windows from the request, and no other deadline moves |
| RateLimiter.FollowingWaitsEndsInAdmission | src/middleware/rate_limit.rs:34-66 | a lone client that honours every wait meets at most two refusals per bucket, over any buckets and stored counts |
| RateLimiter.RetryAfterSecs | src/domain/rate_limit.rs:32-36 | the header covers the wait, is the smallest number of whole seconds that does, and is never zero |
| RateLimiter.RetryAfterFreesSlotIff | src/domain/rate_limit.rs:32-36 | the header's seconds free a slot if and only if the window has room or, full, has decayed enough in the milliseconds the rounding adds |
| RateLimiter.VerdictMeans | src/domain/rate_limit.rs:21-36 | the seconds a client is told are the least whole ones, at least one, that cover what the announced milliseconds mean |
| RateLimiter.AllowedIff | src/domain/rate_limit.rs:21-30 | a request is let through exactly when no bucket refuses it, and without Redis exactly when told to fail open |
| RateLimiter.RetryAfterEndsInAdmission | src/domain/rate_limit.rs:21-36 | among any 2n+1 attempts spaced by Retry-After, n buckets let one through |
| RateLimiterRuns.CountersRefineLog | src/middleware/rate_limit.rs:40-72 | after every run whose stamps keep to advancing windows, the two counters a request sees are the admissions of its fixed window and of the one before in the full log of timestamps |
| RateLimiterRuns.AdmittedByLogIff | src/middleware/rate_limit.rs:3-8 | after every run a request is admitted exactly when, in each bucket, the log's previous window weighed by the part still inside the sliding minute, plus the current one and this request, is within the limit |
| RateLimiterRuns.WindowsAreBounded | src/middleware/rate_limit.rs:46-72 | in every run a bucket of limit L admits at most L requests per fixed window and 2L less L/60000, rounded down, in two consecutive ones |
| RateLimiterRuns.AnyMinuteIsBounded | src/middleware/rate_limit.rs:31-72 | any span of 60 000 ms, wherever it starts, holds at most 2L less 2L/60000 admissions, rounded down: 2L-1 for limits up to 30 000 |
| RateLimiterRuns.BoundIsReached | src/middleware/rate_limit.rs:55-64 | for every limit some run, under one clock that never steps back, puts exactly that many admissions in one minute: no smaller bound holds |
| RateLimiterRuns.StepBackBreaksTheBound | src/middleware/rate_limit.rs:50-54 | one request stamped in an earlier window makes a bucket of limit 3 admit more than 3 in a fixed window |
| RateLimiterRuns.StrictNeverExceedsGeneral | src/handlers/mod.rs:305-324 | in every reachable state of the two layers a client's strict counts are at most its general counts, window by window |
| RateLimiterRuns.ExpiryIsInvisible | src/middleware/rate_limit.rs:68-71 | whatever keys past their deadline are dropped and whenever, every answer of the run is that of a store that keeps them all |
| Sessions.CappedExpiry | src/domain/session.rs:26-40 | the expiry is the earlier of the refresh lifetime's end and the sign-in's end, saturation included |
| Sessions.VerdictIff | src/domain/session.rs:150-179 | each of the five verdicts exactly by the row's fields: revocation first, excused within the grace unless compromised, then expiry and lifetime, then the address |
| Sessions.LifetimeCheckMeetsCap | src/domain/session.rs:171-174 | for a lifetime of at least a second, and before the last representable instant, the truncated check ends the sign-in exactly when the saturating cap does |
| Sessions.LifetimeCheckIsRedundantIff | src/domain/session.rs:155-179 | the lifetime check never decides alone for sessions dated by the cap if and only if the configured lifetime is at least one second |
| Sessions.RotationIsBornAliveIff | src/services/auth/session.rs:72-169 | a rotation granted at one reading of the clock and dated at a later one yields a running session exactly when the sign-in has not ended in between |
| SessionFamilies.StepKeepsInv | src/repositories/session.rs:130-185 | every database operation of the protocol keeps the family invariant: one live tip, one rotation per session, one chain, dead families dead, rotations dated by the cap |
| SessionFamilies.ChainGrowsAtTip | src/repositories/session.rs:145-181 | a rotation of a family's tip extends its chain and moves the tip |
| SessionFamilies.ReachableInv | src/services/auth/session.rs:9-236 | the invariant holds in every state any interleaving reaches |
| SessionFamilies.AtMostOneUnrevoked | src/repositories/session.rs:1-5 | at no point of any interleaving do two sessions of a family stand unrevoked |
| SessionFamilies.NoTokenRotatesTwice | src/repositories/session.rs:128-185 | no token is rotated twice, and the rotations of a family form a single chain |
| SessionFamilies.RotatedTokenIsNotGranted | src/domain/session.rs:155-179 | once a token's rotation has committed no presentation of it is judged `Rotate` |
| SessionOutcomes.PresentedIff | src/services/auth/session.rs:62-107 | which phase a presented token puts its request in, and that judging changes nothing else |
| SessionOutcomes.ComparedIff | src/services/auth/session.rs:74-87 | a second use within the grace is excused exactly when the stored successor has this network and user agent |
| SessionOutcomes.CondemnedIff | src/services/auth/session.rs:72-109 | with any other requests in between, a presented token condemns its family exactly when its row is revoked, unless rotated within the grace, uncompromised, by a client of this network and user agent |
| SessionOutcomes.RaceLostIff | src/repositories/session.rs:137-147 | a granted request loses the race exactly when its row is gone or revoked, and then changes nothing |
| SessionOutcomes.LoserCondemnsIff | src/services/auth/session.rs:193-202 | a request that lost condemns the family unless the row, read again, stands rotated within the grace, uncompromised, by this client |
| SessionOutcomes.SecondUseIsExcusedIff | src/services/auth/session.rs:74-82 | from every reachable state, a token just rotated and presented again is refused without harm exactly within the grace from the network and user agent that rotated it, and otherwise condemns the family |
| SessionOutcomes.SignInOpens | src/repositories/session.rs:101-126 | a sign-in opens a session of its client, address and choice, whose token works until its refresh lifetime or sign-in is over; other rows stay |
| SessionOutcomes.RotationOpens | src/repositories/session.rs:149-181 | a rotation revokes, dates and links the old row, and opens one for the same family, client and choice that works until its refresh lifetime or the sign-in is over; other rows stay |
| SessionOutcomes.UnrevokedIsUncompromised | migrations/0005_sessions.sql:109-117 | no run leaves a session marked compromised and unrevoked |
| SessionOutcomes.LogoutRevokesExactly | src/repositories/session.rs:187-193 | a logout marks exactly the unrevoked rows it names and touches nothing else |
| SessionOutcomes.LogoutEndsExactly | src/repositories/session.rs:187-193 | a logout ends exactly the families whose unrevoked sessions it names |
| SessionOutcomes.LogoutEndsTheFamily | src/repositories/session.rs:187-193 | after a logout of the session a family issued last, no continuation of any run rotates or grants a token of it |
| SessionOutcomes.RevocationMarksExactly | migrations/0005_sessions.sql:109-117 | a revocation marks every row of the family it finds, keeping earlier marks, and touches no other row |
| SessionFamilies.ReplayEndsTheFamily | src/services/auth/session.rs:107-125 | from the commit of a revocation that finds the replayed row, in every continuation, the family has no unrevoked session, rotates nothing, and each stored token of it is judged `Replay` at any time from any address |
| SessionFamilies.RevocationOutlivesRun | migrations/0005_sessions.sql:91-123 | no event of any continuation lifts the revocation of a family |
| SessionFutures.GrantedTwice | src/services/auth/session.rs:62-73 | a run in which two requests are granted one token and only one of them rotates it |
| SessionFutures.GrantedIff | src/services/auth/session.rs:62-73 | judging grants a rotation exactly to an unrevoked row of the asking client that is active, within its sign-in and, when bound, rightly addressed |
| SessionFutures.GrantedAgainIff | src/services/auth/session.rs:62-73 | from every reachable state, some continuation presenting tokens at a time or later grants a given token if and only if its row stands unrevoked and refreshable at that time |
| SessionFutures.RotatedBetweenReplayAndRevocation | src/services/auth/session.rs:107-125 | a run in which a rotation commits between a `Replay` verdict and its revocation |
| SessionFutures.CleanedUpReplayEndsNothing | migrations/0005_sessions.sql:100-108 | a run in which the replayed row is cleaned up before the revocation, and the family rotates after it |
| SessionFutures.RevocationEndsExactly | migrations/0005_sessions.sql:91-123 | after a revocation the families without an unrevoked session are those before and the family of the row it found, and no other |
| SessionFutures.RotatesAgainIff | src/repositories/session.rs:130-185 | from every reachable state, some continuation presenting tokens at a time or later rotates a token of a family if and only if a session of it stands unrevoked that is refreshable at that time or already granted |
| SessionFutures.DeadFamilyStaysDead | src/repositories/session.rs:187-193 | no event brings back a family without an unrevoked session, or rotates it |
| SessionFutures.EndedFamilyNeverReturns | src/repositories/session.rs:187-193 | once a family has no unrevoked session, however it got there, nothing rotates it and no token of it is granted in any continuation |
| SessionFamilies.RotationsEndWithTheSignIn | src/services/auth/session.rs:164-169 | every session any run rotated into expires by the end of its sign-in and never meets the lifetime check while active |
| SessionFamilies.FirstSessionIsCappedIff | src/services/auth/tokens.rs:33-39 | the first session is dated within its sign-in exactly when the application clock is not ahead of the database's, or ahead by no more than the refresh lifetime leaves, or the sign-in outlasts representable time |
| Base64Url.DecodeEncode | src/handlers/audit.rs:133-136 | decoding gives back the encoded bytes |
| Base64Url.EncodeDecode | src/handlers/audit.rs:138-141 | only encodings are accepted: no two texts decode to the same bytes |
| Base64Url.Alphabet | src/handlers/audit.rs:12 | the symbols of the URL-safe alphabet, in order |
| Base64Url.GroupIsOneNumber | src/handlers/audit.rs:133-136 | three bytes and their four symbols are the same number, first byte and first symbol highest |
| AuditCursor.SignedDecimalRoundTrip | src/handlers/audit.rs:143 | a number in the 128-bit range parses back from its text, which holds no separator |
| AuditCursor.UuidRoundTrip | src/handlers/audit.rs:145 | an identifier parses back from its hyphenated text |
| AuditCursor.CursorRoundTrip | src/handlers/audit.rs:133-147 | every representable time, negative ones included, and every id survive the cursor |
| AuditCursor.DecimalIsCanonical | src/handlers/audit.rs:143 | a number is read from its decimal digits after any zeros, and from nothing else |
| AuditCursor.HexReadIff | src/handlers/audit.rs:145 | hexadecimal text is read as the one number whose digits it shows, in either case |
| AuditCursor.DecodedIff | src/handlers/audit.rs:138-147 | a cursor is read as a position if and only if it is the encoded text of that time and identifier in one of the accepted writings |
| AuditLog.Table.Append | src/repositories/audit.rs:27-43 | an insert, dated by the clock, adds its row at the end and nothing else, and is refused exactly when its key exists |
| AuditLog.OrderIsNewestFirst | src/repositories/audit.rs:62-67 | with unique keys the ordering is strict, by time and then id |
| AuditLog.NewestFirstIff | src/repositories/audit.rs:62-67 | the order is by time, and by id among rows of one time |
| AuditLog.PageLimit | src/handlers/audit.rs:115-118 | 50 when absent, otherwise the count asked for, cut to between 1 and 200 |
| AuditLog.PageIsNewestSelected | src/repositories/audit.rs:47-88 | a page is the newest rows the query selects, as many as asked for, strictly ordered; without `next_cursor` it holds them all, with one it is full and its last row bounds everything left |
| AuditLog.ListFromPosition | src/handlers/audit.rs:70-113 | a cursor the handler gave out is accepted and read as the position it stands for |
| AuditLog.RefusedIff | src/handlers/audit.rs:75-76 | a request is refused exactly when its cursor spells no position |
| AuditLog.PagingListsEverythingOnce | src/handlers/audit.rs:75-131 | following `next_cursor` with any limits while rows are appended lists strictly newest first, without repeats, only the user's rows dated by the first request, once complete all of those present then, and is complete once the requests outnumber them, however fast the table grows |
| AuditLog.HistoriesGrow | src/repositories/audit.rs:27-43 | whatever is inserted between requests, with whatever dates, the requests read a growing table with unique keys |
| AuditLog.PagingWhileOthersWrite | src/repositories/audit.rs:47-50 | the same guarantees for the requests of any history of inserts and reads |
| AuditLog.WrittenRowIsListed | src/repositories/audit.rs:27-50 | a row of the user written before the first request under a free key, and dated by it, is listed once paging completes, whatever else is written |
| AuditLog.PagingRefinesOneQuery | src/repositories/audit.rs:60-88 | over a table at rest the pages in sequence are the one unlimited query |
| AuthenticatorData.ParseCredential | src/domain/webauthn.rs:143-163 | credential data is accepted exactly when it fits, each refusal for its own reason, and what is returned spells out the bytes read |
| AuthenticatorData.ParseAuthenticatorData | src/domain/webauthn.rs:132-180 | an accepted input is the serialization of the value and the skipped extensions, to the last byte; the serialization of any well-formed value gives it back; trailing bytes are reported exactly for a layout followed by more, and every other refusal has its own cause |
| AuthenticatorData.LayoutIsPrefixFree | src/domain/webauthn.rs:132-180 | no byte string starts with the layouts of two values |
| AuthenticatorData.SameValueSameInput | src/domain/webauthn.rs:167-170 | inputs that parse to one value differ in their extension bytes alone, and without the extension flag not at all |
| AuthenticatorData.FlagBits | src/domain/webauthn.rs:24-29 | the two flags are the second highest and the highest bit |
| AuthenticatorData.CounterOrder | src/domain/webauthn.rs:140 | counters compare as the bytes that spell them, most significant first |
| CborItems.ItemsLenOfPrefix | src/domain/webauthn.rs:182-188 | items are read from their own bytes, nesting and indefinite lengths included, whatever follows |
| CborItems.CborIsPrefixDetermined | src/domain/webauthn.rs:182-188 | a decoder of well-formed CBOR recognizes an item by its own bytes, as the parser requires |
| CborValues.EncodedItemIsRead | src/domain/webauthn.rs:182-188 | the decoder takes exactly the encoding of any well-formed item, in any width and indefinite or not, whatever follows |
| CborValues.ItemLenIff | src/domain/webauthn.rs:182-188 | the decoder reads an item of so many bytes if and only if they are the encoding of one |
| PrefixSearch.EscapedPrefixMatches | src/domain/user.rs:99-111 | an escaped text followed by `%` matches exactly the texts it is a prefix of |
| PrefixSearch.PrefixPattern | src/domain/user.rs:99-111 | a text matches the pattern under `LIKE` exactly when the trimmed, lower-cased query is a prefix of it |
| ClientIp.GatherHops | src/middleware/client_ip.rs:93-96 | the hops of all lines in order, or nothing when a line is unreadable |
| ClientIp.WalkFromRight | src/middleware/client_ip.rs:98-106 | the reverse loop computes the walk |
| ClientIp.ForwardedClientIp | src/middleware/client_ip.rs:76-107 | the forwarding headers are read as specified, `X-Real-IP` only without `X-Forwarded-For` |
| ClientIp.UntrustedPeerIsTheClient | src/middleware/client_ip.rs:54-57 | a peer outside the trusted networks is the client whatever the headers say, and without a peer there is none |
| ClientIp.TrustedPeerForwards | src/middleware/client_ip.rs:58 | behind a trusted peer the deciding hop of the forwarded lines is the client, and the peer if that hop is no address |
| ClientIp.SomeHopDecides | src/middleware/client_ip.rs:98-106 | every list of hops has a deciding one |
| ClientIp.TrustedPeerWithRealIp | src/middleware/client_ip.rs:84-91 | behind a trusted peer without forwarded lines the trimmed `X-Real-IP` is the client if it is an address, else the peer |
| ClientIp.UnreadableLinesLeavePeer | src/middleware/client_ip.rs:93-96 | an unreadable line leaves the peer |
| ClientIp.MappedIsIpv4 | src/middleware/client_ip.rs:61-74 | a mapped address is judged and answered as the IPv4 address it carries, and no other address is changed |
| ClientIp.ContainsIff | src/middleware/client_ip.rs:61-66 | a network holds exactly the addresses of its kind that agree with it on its first bits |
| ClientIp.WrittenHopsAreRead | src/middleware/client_ip.rs:93-96 | hops written with commas between and any white space around them are read back |
| ClientIp.WalkMeetsSpecification | src/middleware/client_ip.rs:76-83 | the rightmost hop that is not a trusted proxy decides, else the leftmost hop |
| ClientIp.WalkOfConcatenation | src/middleware/client_ip.rs:98-106 | what stands to the left of some hops matters exactly when all of them are trusted |
| ClientIp.PrependedLinesChangeNothingIff | src/middleware/client_ip.rs:49-107 | behind a hop the proxies vouch for, lines put in front leave the resolved address unchanged if and only if they are readable or it was the peer already, and can change it to nothing but the peer |
| ClientIp.JoinedLinesReadAsTwo | src/middleware/client_ip.rs:93-96 | a comma inside a header line and a new line read the same, anywhere in the list |
| ClientIp.PrependedTextChangesNothing | src/middleware/client_ip.rs:49-107 | text put in front inside the line a proxy appends to changes nothing, and leaves the peer when it makes the line unreadable |
| ScopeParameter.ParseScope | src/domain/oauth.rs:91-111 | nothing for an absent or blank parameter, an error exactly when a token leaves the grammar, else the tokens sorted without repeats |
| ScopeParameter.ScopeCharIff | src/domain/oauth.rs:100-103 | a token holds printable ASCII other than the double quote and the backslash |
| ScopeParameter.BeforeIff | src/domain/oauth.rs:108 | one token sorts before another at their first difference, or as its beginning |
| ScopeParameter.AscendingIsCanonical | src/domain/oauth.rs:108-110 | sorting and deduplicating has one possible answer for a set of tokens |
| ScopeParameter.ScopesRoundTrip | src/domain/oauth.rs:91-111 | a parsed list written with spaces parses to itself |
| Scopes.RequestedScopes | src/domain/oauth.rs:113-139 | a request to a restricted client fails exactly when it names a scope that is neither registered nor an OpenID Connect one, and the error lists exactly those; otherwise it asks for what it named, or without a parameter for the registered scopes |
| Scopes.ClaimsAreTheIntersection | src/services/auth/tokens.rs:219-251 | a token carries exactly the user's permissions that the stored consent and the client's present scopes cover; roles vanish when either restricts it or the client is a third party; identity scopes grant nothing |
| Scopes.GrantIsFrozen | src/repositories/session.rs:165 | no change of user or registration and no number of rotations alters the scopes stored with the code and with every session since: they are the consent of the approval |
| Scopes.StoredScopesIff | src/services/authorize.rs:187-199 | after any run every stored row holds exactly the scopes asked for that are identity scopes or were held at the approval, in the order asked, or no restriction when none was asked |
| Scopes.NarrowingIff | src/domain/oauth.rs:268-288 | narrowing keeps identity scopes and drops exactly what is no longer registered |
| Scopes.TokenAfterAnyChanges | src/services/authorize.rs:134-139 | after any changes and rotations a permission is carried exactly when held now, admitted by the client now, and asked for and held at approval |
| TotpReplay.SecondAcceptanceIsLate | src/repositories/two_factor.rs:270-309 | in every run a code a user spent is accepted again only more than the window later |
| TotpReplay.AcceptedIff | src/services/auth/second_factor.rs:73-113 | in every run an attempt completes exactly when its code is valid, not in the fast path, and not one the same user spent within the window |
| TotpReplay.GuardHoldsIff | src/repositories/two_factor.rs:265-268 | no code of a time step is ever accepted twice if and only if the window covers the steps it is valid in and the delay between verifying and consuming |
| TotpReplay.MaxSkewIsLargestSafe | src/config/validate.rs:446-460 | with the window as configured, the largest safe skew is the configured maximum, even with a delay of one step |
| EmailCodes.Repository.Create | src/repositories/email_2fa.rs:110-143 | of the user's unused codes the latest survives, and the new one is added |
| EmailCodes.Repository.Consume | src/repositories/email_2fa.rs:63-88 | succeeds exactly on an unused, unexpired code, and then marks every unused code of its user |
| EmailCodes.LatestOf | src/repositories/email_2fa.rs:120-125 | a code created last among the given ones |
| EmailCodes.CreateKeepsLatest | src/repositories/email_2fa.rs:114-142 | after a resend exactly the previous latest code and the new one are open, and other users' codes are untouched |
| EmailCodes.ConsumeEndsAll | src/repositories/email_2fa.rs:65-88 | a code that worked ends every open code of its user and nobody else's |
| EmailCodes.CreateFrame | src/repositories/email_2fa.rs:114-142 | a resend stores the new code as given and leaves used codes and other users' codes as they were |
| EmailCodes.ConsumeFrame | src/repositories/email_2fa.rs:65-88 | a code that worked marks the unused codes of its user with the time and changes nothing else |
| EmailCodes.OpenCodesWorkIff | src/repositories/email_2fa.rs:63-88 | the code just sent and the one kept work exactly until they expire, no other does, and after one worked none does at any time |
| EmailCodes.SpentWithinLifetime | src/repositories/email_2fa.rs:67-75 | in every run a code spent was sent earlier to its user and is spent before its expiry |
| EmailCodes.CodesAreBounded | src/repositories/email_2fa.rs:114-116 | in every run a user has at most two unused codes, and codes spent plus codes open never exceed codes sent |
| EmailCodes.FreshCodeBetweenUses | src/repositories/email_2fa.rs:63-88 | between two codes a user spends lies a code sent to that user |
| LatencyHistogram.Histogram.Record | src/bin/perf_load.rs:196-202 | the fields stand for the samples, with the new one added |
| LatencyHistogram.Histogram.Merge | src/bin/perf_load.rs:204-211 | merging yields the histogram of both sets of samples |
| LatencyHistogram.OrderIsIrrelevant | src/bin/perf_load.rs:204-211 | a histogram depends on its samples and not on their order |
| LatencyHistogram.CountsSumToTotal | src/bin/perf_load.rs:196-202 | the bucket counts sum to the total |
| LatencyHistogram.MaxIsLargest | src/bin/perf_load.rs:201 | the maximum kept is the largest sample |
| LatencyHistogram.Histogram.BucketAtRank | src/bin/perf_load.rs:217-224 | the loop stops in the bucket of the nearest-rank sample, for any monotone bucket index, and falls through exactly for ranks beyond the samples |
| LatencyHistogram.Rank | src/bin/perf_load.rs:217 | the nearest rank is the least that covers the percentile's share of the samples, at least one, and for percentiles up to 100 at most their number |
| LatencyHistogram.RankExists | src/bin/perf_load.rs:217-224 | every rank among the samples is held by one of them |
| LatencyHistogram.Histogram.PercentileMs | src/bin/perf_load.rs:213-226 | the percentile is the edge of that bucket cut at the maximum; where the edge covers the sample it lies between the sample and the maximum |
| LoadRecorder.Recorder.Record | src/bin/perf_load.rs:278-293 | the results stand for the calls recorded, with the new one added unless it began before the measurement |
| LoadRecorder.MergedTallies | src/bin/perf_load.rs:295-310 | the merged results of two lists of calls are those of the concatenated list |
| LoadRecorder.MergeCommutes | src/bin/perf_load.rs:295-310 | the order of merging does not matter |
| LoadRecorder.Recorder.Merge | src/bin/perf_load.rs:295-310 | merging, operation by operation, yields the results of all calls of both |
| LoadRecorder.CallsAreConserved | src/bin/perf_load.rs:278-293 | per operation, every measured call leaves one latency and is a success or one error, and the successes are counted |
| LoadRecorder.ResultsAreTheCalls | src/bin/perf_load.rs:278-293 | per operation the results are the latencies, the successes and the kinds of error of its measured calls |
| LoadRecorder.ReportedIffMeasured | src/bin/perf_load.rs:279-281 | an operation has results exactly when one of its calls was measured |

## Left out

- Floating point in the limiter script and in the histogram: estimates and waits are exact integers, percentile ranks exact reals, and the bucket formula a monotone parameter.
- Integer widths: counters, timestamps in milliseconds and histogram fields are unbounded.
- Redis, PostgreSQL, NATS, SMTP and HTTP themselves: connection failures, isolation anomalies and replica lag.
- The Redis blocklists, session caches and abuse budgets around a refresh: they only add refusals.
- Timestamps as PostgreSQL stores them, cut to the microsecond.
- SessionFamilies.StepKeepsInv: clean-up may delete any rows the replacement constraint allows, not only those past their retention; the configuration is the same throughout a run.
- Cryptography and foreign parsers: signatures, digests, URL and address parsing, COSE keys, and CBOR beyond the length of a well-formed item (text validity, nesting limits and value ranges of the decoder are left out).
- AuditCursor.CursorRoundTrip: text that decodes outside ASCII is refused at once, where the source fails on it one step later with the same error.
- LoadRecorder.Recorder.Merge: latencies inside a recorder are the multiset of samples, which `OrderIsIrrelevant` shows to determine the histogram, not histogram objects updated in place.
- PrefixSearch.PrefixPattern: white space and lower-casing are parameters.
- `ip_bucket`, `ip_bucket_network`, `device_label`, email and username shapes, cached session values, captcha, pwned and lockout verdicts, webhooks, client registration checks: short decisions settled by reading them.
- The administrators' page over the whole audit log, later coarsening of entries, and the owner's view of an entry.
- Handlers, routers, OpenAPI, telemetry, error rendering, benchmarks, CLI and most of the configuration checks.
