# Verified model of the platform's protocol and state kernels

Most of this repository is table maintenance. This project models the parts that are not: the session protocol between
the browser and the server, document numbering under concurrency, rate limiting, scope authorization, hierarchical
settings, the two document lifecycles with their audit trails, storage keys and attachments, and the seed script.
Tables are maps or sequences of records, a commit is one atomic step, and concurrency is a state machine whose steps
may interleave in any order. Services that update rows are classes whose methods are proved against a function from
old tables to new ones; the theorems are about that function and hold for every input, every run or every
interleaving. `dafny verify dfyconfig.toml` checks everything.

| file | models |
|---|---|
| `AuthService.dfy` | login with lockout, refresh rotation, logout, password reset, over whole runs |
| `AuthClient.dfy`, `RefreshProtocol.dfy` | the browser's token store and shared refresh, and browser and server interleaved |
| `Numbering.dfy`, `Rendering.dfy` | `next_number` and the documents it numbers, statement by statement; numbers as text |
| `RateLimit.dfy` | the evicting deque against the full history |
| `OrganizationRepository.dfy`, `Authorization.dfy` | the bounded parent walk; grants and verdicts |
| `Settings.dfy` | the weighted resolver, the cascade, the upsert |
| `Weighbridge.dfy`, `Production.dfy` | tickets and entries with their audit trails |
| `Storage.dfy`, `Attachments.dfy` | key sanitizing and the local provider; blobs and rows under crashes |
| `Seed.dfy` | the find-or-create loops |

Parameters stand for what the code takes from outside: clocks, random suffixes, password salts, the order in which a
query returns rows, which responses get lost. Password hashes are abstract and collision-free, raw reset tokens and
`jti` values are fresh (a session's `jti` is its position in the table), and a genuine token is a record naming its
session. Weights are whole thousandths.

## Where the code and its documentation disagree

The model follows the code. Each disagreement is a theorem with the exact condition, or a concrete run.

- **Single flight.** The single-flight comments (auth.interceptor.ts:10-15) hold except after four kinds of step:
  leaving the shared refresh early (`finalize` sits downstream of `shareReplay`), reloading the page while a refresh
  or a logout with the stored token is outstanding, logging out while a refresh has yet to show the server that token,
  and refreshing with a token whose logout is outstanding. `HazardIff` proves this list exact: after any run without
  such steps, a step is on it if and only if some continuation without further such steps starts a second refresh or
  presents a token twice or after its revocation. Lost and late messages are not on it: they may end the session, but
  never replay a token.
- **Forced expiry.** It is documented as the answer to a failed refresh (auth.service.ts:123), but the inner
  `catchError` also sees the retried request. `TokensDroppedIff` lists exactly the steps that take a signed-in browser's
  tokens away; any failure of a retried request is one, and the session it drops lives on at the server.
- **Numbering.** The comment that the unique constraint rejects the losing first insert (numbering_service.py:39-43) is
  true of a scope if and only if its unit is set or NULLs are not distinct (`NumbersDifferIffConstrained`); otherwise
  both racers get number 1 and the scope is jammed from then on (`JammedForever`). Numbers are unique per scope, while
  tickets and entries are constrained per tenant with one fixed prefix, so the first documents of two units collide
  (`SecondUnitLosesItsFirstNumber`). "Gap-free" (docs/database.md:212) holds of the numbers handed out, not of the
  documents: the number is committed before its document and can be lost (`NumberAccounting`).
- **Rate limiting** is called fixed-window (rate_limit.py:1, docs/security.md:47); the code is a sliding window, and
  the stronger sliding guarantee is proved.
- **Settings** are documented as five levels (settings_service.py:1, models/setting.py:1-8); the weights rank eight
  scopes, and a platform-wide row for a unit or module beats the tenant's less specific rows. `DocumentedOrderIff`
  says exactly when the two orders agree.
- **The parent walk** returns "every ancestor" (organization_repository.py:30) if and only if there are at most ten
  (`WalkIsClosureIff`).
- **Lockout.** docs/authentication.md:111 says only `login` sets LOCKED; `update_user` accepts any status, LOCKED
  included. Reactivation does not reset the attempt counter, so the next wrong password locks the account again
  (`LockedExactlyFromTheTenth`).
- **Seeding** is documented as idempotent (docs/development.md:97). It is, but it can also fail: a demo tenant whose
  fiscal year of today's code was deactivated violates a unique constraint (`InactiveYearBlocksSeeding`;
  `SeedingIsAdditive` has the exact condition).
- **Storage keys.** The "Invalid storage key." error (storage_service.py:47-48) never fires on lexical grounds, whatever
  the key (`EveryKeyStaysUnderBase`); only a symbolic link under the base directory, which is not part of this model,
  can trip it.
- **Scopes.** Assigning a scope can take access away: the first scope row of a user role replaces its implicit scope
  (`AddingScopeKeepsAccessIff`).

## Model

| member | source | states |
|---|---|---|
| AuthService.Service.IssueTokenPair | backend/app/services/auth_service.py:50-72 | one new live session is appended, all others stay |
| AuthService.Service.Login | backend/app/services/auth_service.py:75-126 | the four outcomes of a login and the whole new state in each: unknown email, wrong password (counted, locking from the tenth), inactive account, success (counter reset, one session issued) |
| AuthService.Service.Refresh | backend/app/services/auth_service.py:129-151 | a refresh rotates exactly when the token decodes at the first clock reading, has not run out at the second, its session is live and its user active; the new session counts from the third; otherwise nothing changes |
| AuthService.SecondCheckDecidesIff | backend/app/services/auth_service.py:132-141 | the expiry check after decoding decides a refresh exactly when the token runs out between the two clock readings |
| AuthService.Service.Logout | backend/app/services/auth_service.py:154-171 | logout revokes the session of a decodable token and is otherwise without effect |
| AuthService.Service.RequestPasswordReset | backend/app/services/auth_service.py:174-191 | a row valid for one hour is added only for an active user, and nothing is returned that tells the cases apart (the event is for the history alone) |
| AuthService.Service.ResetPassword | backend/app/services/auth_service.py:200-223 | whatever order the scan sees the unused rows in, the verdict is the one of the single row the raw token opens, and the new state is that of one redemption or unchanged |
| AuthService.Service.SetStatus | backend/app/services/user_service.py:105-106 | an administrator's status write changes that user's status and nothing else, not even the attempt counter |
| AuthService.RunKeeps | backend/app/services/auth_service.py:75-223 | over every run: the attempt counter is the history's count of wrong passwords since the last success, the sessions form rotation chains, every reset row keeps its own secret, expiry and single redemption |
| AuthService.LoginIff | backend/app/services/auth_service.py:78-126 | a login succeeds exactly for the user the email names, with that user's password and an active account; it appends one live session of that user, good for seven days, sets the login time and the counter, and changes no other row |
| AuthService.LoginSessionIsItsUsers | backend/app/services/auth_service.py:114-126 | in every run, a successful login was by the active user its request's email named, with that user's password, and at the end of the run the session it issued and every session rotated from it belong to that user |
| AuthService.StatusIsTold | backend/app/services/user_service.py:105-106 | in every run each user's status is the one the history tells, and every status an administrator writes takes effect, LOCKED included |
| AuthService.UserFieldsStep | backend/app/services/auth_service.py:111-223 | a password changes only by a redemption of that user's own reset token, to the one given, and the login time only by that user's login |
| AuthService.PasswordsStay | backend/app/services/auth_service.py:217-221 | in every run, a user none of whose reset tokens was redeemed still has the first password |
| AuthService.SuccessfulLoginWasNotLockedOut | backend/app/services/auth_service.py:80-112 | in every run, a successful login had fewer than ten wrong passwords since the previous success or an administrator's reactivation after the last of them |
| AuthService.LockedExactlyFromTheTenth | backend/app/services/auth_service.py:82-84 | in every run, a wrong password leaves the account locked if and only if it was locked or this is at least the tenth since the last success, reactivations not resetting the count |
| AuthService.FamilyIsChain | backend/app/services/auth_service.py:147-149 | any two sessions descending from one login are ordered by descent |
| AuthService.OnlyTheLastOfAFamilyLives | backend/app/services/auth_service.py:137-151 | in every run, of two sessions of one family the later descends from the earlier, the earlier is revoked, and both belong to one user |
| AuthService.RevocationIsPermanent | backend/app/services/auth_service.py:147-171 | a revoked session is still there and still revoked after any further requests |
| AuthService.RedeemedAtMostOnce | backend/app/services/auth_service.py:137-151 | after a rotation of a token or a logout with it, no later refresh of the run redeems that token |
| AuthService.RedeemedWithinSevenDays | backend/app/services/auth_service.py:53-67 | in every run, a refresh token is decoded less than seven days after it was issued, and has not run out at the later check |
| AuthService.RefreshAcceptedIff | backend/app/services/auth_service.py:129-151 | in every run, the token a login or rotation issued is accepted exactly until seven days after its issue, until it is first rotated or logged out, and while its user is active |
| AuthService.LateRefreshIsAtomicIff | backend/app/services/auth_service.py:137-150 | a refresh decided on an earlier state and committed later is an atomic refresh of the table at the commit if and only if that table would still allow it |
| AuthService.LateRefreshRedeemsOnceIff | backend/app/services/auth_service.py:137-150 | a late refresh redeems its token once and not after a logout if and only if no rotation or logout of it was handled in between, which is when its session is still live at the commit |
| AuthService.LateRefreshForksIff | backend/app/services/auth_service.py:147-150 | after a late refresh the sessions are still chains if and only if no other rotation of the token was handled in between; the session it issues is live even after a logout in between |
| AuthService.LiveCountAccounting | backend/app/services/auth_service.py:111-171 | live sessions: plus one per login, unchanged by rotation, minus one by a logout of a live session, unchanged by every other request |
| AuthService.ResetOnceWithinTheHour | backend/app/services/auth_service.py:180-223 | in every run a reset token is redeemed at most once and at most one hour after its issue |
| AuthService.ResetIssuedIff | backend/app/services/auth_service.py:176-191 | a reset row is added exactly for the active user the email names: that user's, unused, good for one hour; nothing else changes |
| AuthService.ResetAcceptedIff | backend/app/services/auth_service.py:174-223 | in every run, a reset token belongs to the active user its request's email named and is accepted exactly within an hour of its issue and until it is first redeemed |
| AuthService.RedemptionTouchesOneOfEach | backend/app/services/auth_service.py:214-223 | a redemption changes one user's password and marks one row, leaves every other token exactly as redeemable as before, and revokes no session; a rejection changes nothing and means no row was redeemable |
| AuthService.ResetThenLogin | backend/app/services/auth_service.py:97-112 | after a reset exactly the new password opens the account, if it is active; a locked account stays locked |
| AuthClient.AuthService.constructor | frontend/src/app/core/auth/auth.service.ts:30 | nothing stored, no refresh in flight |
| AuthClient.AuthService.StoreTokens | frontend/src/app/core/auth/auth.service.ts:129-132 | both tokens become the new pair's; the in-flight refresh is untouched |
| AuthClient.AuthService.ClearSession | frontend/src/app/core/auth/auth.service.ts:134-139 | both tokens go; the in-flight refresh is untouched |
| AuthClient.AuthService.RefreshAccessToken | frontend/src/app/core/auth/auth.service.ts:61-80 | an outstanding refresh is joined, else the stored token starts one, else an error; the state changes only when one starts |
| AuthClient.AuthService.Logout | frontend/src/app/core/auth/auth.service.ts:47-52 | without a stored token the session is cleared at once, otherwise that token is the one posted and nothing changes yet |
| AuthClient.AuthService.FinalizeRefresh | frontend/src/app/core/auth/auth.service.ts:75-77 | forgets the in-flight refresh, whichever one it is |
| RefreshProtocol.StepKeepsInv | frontend/src/app/core/http/auth.interceptor.ts:20-39 | every step of browser, network or server that is not one of the named hazards keeps the invariant on requests, calls and the whereabouts of every refresh token |
| RefreshProtocol.HazardFreeRunsAreSafe | frontend/src/app/core/auth/auth.service.ts:61-80 | in every hazard-free interleaving, lost and late messages included: at most one refresh outstanding, no refresh token presented twice or after revocation, no request sent more than twice, and with nothing outstanding the stored token is live and never yet presented |
| RefreshProtocol.PresentedTokenIsLive | backend/app/services/auth_service.py:137-139 | any refresh token that reaches the server in a hazard-free run is unrevoked and can be rotated, so the revoked-token error never answers this client |
| RefreshProtocol.RequestsCarryTheSignedInToken | frontend/src/app/core/http/auth.interceptor.ts:20-21 | in every hazard-free run, a new request, the startup load as much as any other, carries the pair of the last delivered login or refresh, and none exactly when a sign-out followed it |
| RefreshProtocol.BearersAreIssuedHere | frontend/src/app/core/http/auth.interceptor.ts:20-31 | in every run, hazards included, every access token a request ever carried came to this browser in a login or a refresh and names a session of the server |
| RefreshProtocol.RequestFate | frontend/src/app/core/http/auth.interceptor.ts:23-38 | what any step makes of any request, by the step and the request's phase alone: succeeding, failing, waiting, being sent again with the new pair, being cancelled, or staying as it was |
| RefreshProtocol.SucceededIff | frontend/src/app/core/http/auth.interceptor.ts:23-38 | in every hazard-free run, a request has succeeded exactly if it was answered well, and waited or was sent twice only if it was answered 401 |
| RefreshProtocol.DeliveryReachesBrowser | frontend/src/app/core/auth/auth.service.ts:69-78 | the arrival of a refresh stores its pair even with nobody listening, while forgetting the shared refresh, and after a failure the tokens, takes a waiting request |
| RefreshProtocol.LogoutSteps | frontend/src/app/core/auth/auth.service.ts:47-57 | a logout posts the stored token, or clears at once without one; its end clears the session, whatever the answer, and happens once |
| RefreshProtocol.ReloadKeepsTokensOnly | frontend/src/app/core/auth/auth.service.ts:30-38 | a reload keeps the stored tokens and nothing else of the page: no request, call, login or logout waits for an answer any more, and the server notices nothing |
| RefreshProtocol.LostCallIsOverForTheClientOnly | frontend/src/app/core/auth/auth.service.ts:69-78 | a lost or timed-out refresh fails for the client, but its message can still reach the server and use the token up |
| RefreshProtocol.PossibleIff | frontend/src/app/core/auth/auth.service.ts:33-78 | exactly which steps can be taken in which state: only a startup load needs a stored token, and whatever is under way can arrive or end, once |
| RefreshProtocol.HazardIff | frontend/src/app/core/auth/auth.service.ts:47-80 | exactness: after any hazard-free run, a step is a hazard if and only if some continuation without further hazards has two refreshes outstanding or presents a token twice or after its revocation |
| RefreshProtocol.EarlyUnsubscribeReplays | frontend/src/app/core/auth/auth.service.ts:74-77 | the first hazard occurs: a reachable state, a subscriber that leaves early, and from there without another hazard a revoked token is presented |
| RefreshProtocol.LogoutDuringRefreshReplays | frontend/src/app/core/auth/auth.service.ts:47-57 | the same for a logout while the refresh has yet to reach the server |
| RefreshProtocol.RefreshDuringLogoutReplays | frontend/src/app/core/auth/auth.service.ts:65-70 | the same for a refresh while the logout is outstanding |
| RefreshProtocol.ReloadDuringRefreshReplays | frontend/src/app/core/auth/auth.service.ts:33-38 | the same for a page reload while a refresh with the stored token is outstanding |
| RefreshProtocol.ReloadDuringLogoutReplays | frontend/src/app/core/auth/auth.service.ts:33-57 | the same for a page reload while a logout of the stored token is outstanding |
| RefreshProtocol.TokensDroppedIff | frontend/src/app/core/http/auth.interceptor.ts:24-37 | in every hazard-free run, a step takes a signed-in browser's tokens away if and only if it ends a logout, delivers a failed refresh, is a failed startup load, or is any failure of a retried request; an unused token's session stays live at the server |
| RefreshProtocol.RetryFailureDropsLiveSession | frontend/src/app/core/http/auth.interceptor.ts:28-37 | that last case occurs: a hazard-free run in which the refresh succeeded, the retried request failed, and the client threw its live session away |
| RefreshProtocol.SignedOutCanRevertIff | frontend/src/app/core/auth/auth.service.ts:124-139 | after a sign-out the tokens can come back without a new login if and only if a login response or an unrefused refresh was still outstanding |
| RefreshProtocol.QuietRunStaysSignedOut | frontend/src/app/core/auth/auth.service.ts:124-139 | with none outstanding, no run without a login ever signs the browser in again |
| RefreshProtocol.ServeIsRefresh | backend/app/services/auth_service.py:129-151 | the protocol's server step does to the session table what the service's refresh does, outcome for outcome |
| RefreshProtocol.ServeLoginIsLogin | backend/app/services/auth_service.py:114-126 | the protocol's login step is the service's successful login |
| RefreshProtocol.ServeLogoutIsLogout | backend/app/services/auth_service.py:157-171 | the protocol's logout step is the service's logout |
| RefreshProtocol.RunIsServerRun | backend/app/services/auth_service.py:75-171 | every run of the protocol has behind it a run of the authentication service from initial tables with exactly the same sessions, live and revoked |
| Rendering.SplitRecovers | backend/app/services/numbering_service.py:67 | splitting a number at its last hyphen and parsing the digits recovers prefix and sequence, at any padding and with any hyphens in the prefix |
| Rendering.RenderInjective | backend/app/services/numbering_service.py:67 | equal texts have equal prefixes and sequences, across paddings |
| Rendering.TextOrderIsNumericIff | backend/app/services/numbering_service.py:67 | text order is numeric order for all sequences below a bound if and only if the bound is at most 10^padding |
| Numbering.RowsOf | backend/app/services/numbering_service.py:28-36 | the select returns exactly the rows of the scope, NULL units comparing equal |
| Numbering.NumberingService.NextNumber | backend/app/services/numbering_service.py:18-67 | a lone caller creates the row at 1 or increments the one row and gets its rendered counter, and fails without effect on two rows |
| Numbering.UninterruptedCall | backend/app/services/numbering_service.py:28-67 | the statements of one caller, run without interruption, have exactly the effect and result of that method |
| Numbering.RunKeepsInv | backend/app/services/numbering_service.py:28-67 | the invariant of the interleaved transactions holds in every reachable state |
| Numbering.NumbersAreGapless | backend/app/services/numbering_service.py:56-65 | under every interleaving, the numbers committed in a constrained scope are pairwise different, exactly 1 to the counter of its one row, and all from that row |
| Numbering.NumbersDifferIffConstrained | backend/app/models/numbering.py:34-42 | two callers of a scope get different numbers in all runs if and only if its unit is set or NULLs are not distinct |
| Numbering.UnconstrainedRace | backend/app/services/numbering_service.py:38-54 | two first callers of a scope with a NULL unit both create a row and both get number 1 |
| Numbering.JammedForever | backend/app/services/numbering_service.py:36 | no step ever takes a scope's second row away, and with two rows every call's select raises |
| Numbering.FailuresConsumeNothing | backend/app/services/numbering_service.py:38-54 | a first-insert racer fails exactly when another's row was committed, and no failure or abort changes any counter |
| Numbering.OtherScopesUntouched | backend/app/services/numbering_service.py:56-65 | a step changes at most the counter of the committing caller's own scope, by one |
| Numbering.OtherScopesNeverDelay | backend/app/services/numbering_service.py:28-65 | a caller waits only for another of its own scope that has yet to commit |
| Numbering.AbortIsAlwaysPossible | backend/app/services/numbering_service.py:28-67 | a caller can give up at any point before its commit, without effect on any row |
| Numbering.FinishedCallsStay | backend/app/services/weighbridge_service.py:79-117 | a finished call stays as it is; a number is lost exactly when its document is refused or its transaction fails, and stays the caller's |
| Numbering.NumberAccounting | backend/app/services/weighbridge_service.py:79-117 | in every run each counter is its stored documents plus the numbers lost plus the callers between the two transactions |
| Numbering.DocumentRefusedByAnotherScopeOnly | backend/app/models/weighbridge.py:67-72 | stored documents of a table and tenant never share a number; one of a constrained scope is refused exactly when a document of another unit or fiscal year already carries its prefix and number |
| Numbering.SecondUnitLosesItsFirstNumber | backend/app/models/production.py:63-66 | the first documents of two units of one tenant collide and the second is lost |
| RateLimit.RateLimiter.constructor | backend/app/middleware/rate_limit.py:24-27 | a given limit that is not zero wins, otherwise the configured one; no client has an entry yet |
| RateLimit.RateLimiter.Evict | backend/app/middleware/rate_limit.py:37-38 | eviction leaves exactly the trailing window of the full history |
| RateLimit.RateLimiter.Decide | backend/app/middleware/rate_limit.py:37-54 | on one client's deque: admitted exactly when fewer than the limit lie in the trailing window of its full history, and then appended |
| RateLimit.RateLimiter.Dispatch | backend/app/middleware/rate_limit.py:29-55 | the verdict and the new deque are those of a filter over the client's full admission history; other clients and exempt paths are untouched |
| RateLimit.EveryWindowIsBounded | backend/app/middleware/rate_limit.py:40-54 | any closed 60-second window, wherever it starts, holds at most `limit` times of a spaced history |
| RateLimit.NoWindowExceedsTheLimit | backend/app/middleware/rate_limit.py:33-54 | for every sequence of arrivals under a non-decreasing clock, every closed 60-second window holds at most `limit` admissions of a client |
| RateLimit.RejectedExactlyWhenFull | backend/app/middleware/rate_limit.py:40-52 | an arrival is rejected if and only if its trailing 60-second window already holds exactly `limit` admissions; it is then not recorded, and no other client's history changes |
| RateLimit.WithinCounts | backend/app/middleware/rate_limit.py:37-38 | the reference filter keeps every time of the closed window, as often as it occurs, and no other |
| OrganizationRepository.GetSelfAndAncestorIds | backend/app/repositories/organization_repository.py:27-49 | the loop ends on every parent table, cyclic and dangling ones included, with the units at fewer than ten parent links |
| OrganizationRepository.ClosureIsClosure | backend/app/repositories/organization_repository.py:30 | the reference closure is the least parent-closed set holding the unit |
| OrganizationRepository.WalkIsClosureIff | backend/app/repositories/organization_repository.py:15 | a bounded walk stays within the closure and is all of it if and only if the closure has at most that many members |
| Authorization.BuildSecurityContext | backend/app/services/security_context_service.py:20-103 | the flattened grants are exactly the permission and scope pairs the rows mean, explicit scopes replacing implicit ones |
| Authorization.ResolveScopes | backend/app/services/security_context_service.py:71-85 | given dictionaries that agree with the rows, the scopes of a user role are exactly the places where the rows make it apply |
| Authorization.GroupScopes | backend/app/services/security_context_service.py:43-45 | the dictionary holds, for each of the user's roles that has scope rows, exactly those rows |
| Authorization.AppendGrants | backend/app/services/security_context_service.py:87-95 | one grant for each permission and resolved scope, and no others |
| Authorization.SecurityContext.PermissionCodes | backend/app/security/security_context.py:31-33 | exactly the codes some grant carries |
| Authorization.SecurityContext.GrantsFor | backend/app/security/security_context.py:43-44 | exactly the grants of the code |
| Authorization.IsAuthorized | backend/app/services/authorization_service.py:20-59 | early exits and the ancestor set fetched at most once decide exactly whether some grant of the code covers the resource |
| Authorization.SomeCovers | backend/app/services/authorization_service.py:35-59 | the verdict loop alone, on any grants: true exactly when one of them covers the resource |
| Authorization.HasPermissionIff | backend/app/security/security_context.py:35-41 | the coarse permission check passes exactly when the scope check has a grant to look at |
| Authorization.Authorize | backend/app/services/authorization_service.py:62-70 | end to end: access if and only if some user role carries the permission at a scope that is platform- or tenant-wide or lies on the resource's bounded ancestor path |
| Authorization.UnitRoleGrants | backend/app/services/security_context_service.py:74-80 | a user role on a unit, without scope rows, grants its permissions at exactly that unit, at the level named as the unit's type, or department for a missing unit |
| Authorization.UnitRoleAccessIff | backend/app/services/security_context_service.py:74-80 | with one such role, whatever the unit's type, access to a unit holds exactly if the role carries the permission and its unit is among the ten the walk from the resource visits, and access to a resource without a unit never holds |
| Authorization.UnitRoleReachesDescendantsIff | backend/app/services/security_context_service.py:74-77 | for a resource with an ancestor closure of at most ten units that means exactly: the role's unit is the resource or one of its ancestors |
| Authorization.UnitlessRoleAccess | backend/app/services/security_context_service.py:81-85 | with one user role without a unit or scope rows, every resource is covered, exactly for the role's permissions |
| Authorization.ExplicitRoleAccessIff | backend/app/services/security_context_service.py:71-73 | with one user role that has scope rows, exactly those rows decide, the role's own unit not at all |
| Authorization.AccessIsByOneRole | backend/app/services/security_context_service.py:66-95 | several user roles give exactly the accesses that one of them gives |
| Authorization.MoreRolesKeepAccess | backend/app/services/security_context_service.py:66-95 | adding user roles never removes access |
| Authorization.RowOrderIsIrrelevant | backend/app/services/security_context_service.py:32-45 | the order in which the queries return rows never changes a verdict |
| Authorization.NodeScopesCoverDescendantsIff | backend/app/services/authorization_service.py:46-57 | unit grants cover a resource precisely from its ancestors if and only if it has at most ten, itself included |
| Authorization.AccessReachesDescendants | backend/app/services/security_context_service.py:74-80 | access to a unit extends to every unit beneath it whose ancestor closure stays within ten |
| Authorization.AddingScopeKeepsAccessIff | backend/app/services/security_context_service.py:71-85 | adding a scope row preserves every access of every user if and only if its user role already had scope rows or the new scope is platform- or tenant-wide |
| Settings.SettingsService.Find | backend/app/repositories/setting_repository.py:9-25 | fails exactly when two rows have this scope and key, nulls equal; finds a row exactly when it is the only one; finds none exactly when there is none |
| Settings.SettingsService.Upsert | backend/app/services/settings_service.py:53-97 | overwrites the value of the row of that scope or appends one; the rest of the table stays |
| Settings.ResolveIsMost | backend/app/services/settings_service.py:38-50 | the resolved row answers the query and no answering row is more specific; none resolves exactly when none answers |
| Settings.ResolveValueIs | backend/app/services/settings_service.py:46-50 | the default comes back exactly when no row answers; otherwise the value of a most specific answering row |
| Settings.AnswersIff | backend/app/repositories/setting_repository.py:28-39 | a row answers a query exactly if it has the key and its tenant, unit and module are each absent or the query's |
| Settings.FirstOfTheMostSpecificWins | backend/app/services/settings_service.py:49-50 | in any table, duplicate scopes included, the first of the most specific answering rows wins |
| Settings.SpecificityIsInjective | backend/app/services/settings_service.py:18-26 | rows answering one query with equal specificity have the same scope |
| Settings.ResolveIsCascade | backend/app/services/settings_service.py:29-50 | with unique scopes, resolution is the cascade of exact lookups, module over unit over tenant |
| Settings.ResolveIgnoresOrder | backend/app/repositories/setting_repository.py:28-39 | row order never changes the answer |
| Settings.UpsertKeepsUnique | backend/app/services/settings_service.py:63-83 | an upsert succeeds, keeps one row per scope and key, and changes no other row |
| Settings.ResolveAfterUpsert | backend/app/services/settings_service.py:53-97 | the written row wins exactly where it answers and nothing more specific does; every other lookup keeps its answer |
| Settings.UpsertThenResolve | backend/app/services/settings_service.py:70-83 | a lookup at exactly the written scope returns the written value |
| Settings.UpsertStaysInTenant | backend/app/repositories/setting_repository.py:31-37 | a tenant's write is invisible to every other tenant |
| Settings.ReachedTablesCascade | backend/app/services/settings_service.py:29-97 | after any sequence of upserts, scopes are unique and every lookup is the cascade |
| Settings.DocumentedOrderIff | backend/app/models/setting.py:1-8 | the documented five-level order gives the code's answer if and only if exact lookups find no platform row for a unit or module on a rung above which the tenant has none |
| Weighbridge.TicketRow.constructor | backend/app/services/weighbridge_service.py:88-115 | an open ticket with its first weight and one audit event |
| Weighbridge.WeighbridgeService.GetTicket | backend/app/services/weighbridge_service.py:48-56 | the row itself, if it exists and belongs to the caller's tenant, and otherwise the error |
| Weighbridge.WeighbridgeService.CreateTicket | backend/app/services/weighbridge_service.py:59-118 | an open ticket of the caller's tenant is appended, unless the caller has no tenant or permission or there is no active fiscal year |
| Weighbridge.WeighbridgeService.CompleteTicket | backend/app/services/weighbridge_service.py:121-156 | an authorized request of the ticket's own tenant completes exactly an open ticket, setting second weight, net weight and status and appending one event; a caller without a tenant, an unknown or foreign ticket, a missing permission and a wrong status are refused in this order, each with its error, and change nothing; no other ticket changes |
| Weighbridge.WeighbridgeService.CancelTicket | backend/app/services/weighbridge_service.py:159-187 | an authorized request of the ticket's own tenant cancels any ticket that is not completed, a cancelled one included, and appends one event; a caller without a tenant, an unknown or foreign ticket, a missing permission and a wrong status are refused in this order, each with its error, and change nothing; no other ticket changes |
| Weighbridge.RunsReplay | backend/app/services/weighbridge_service.py:88-186 | in every run, on every ticket of the table: the audit trail replays to the status, lies in CREATED (COMPLETED or CANCELLED*), and both later weights are set exactly on completed tickets, with a net that is not negative and is the difference of the two weights one way round |
| Weighbridge.AcceptedIff | backend/app/services/weighbridge_service.py:48-187 | exactly which requests are accepted and with which error each other is refused, leaving every ticket alone |
| Weighbridge.CreatedByRequest | backend/app/services/weighbridge_service.py:59-118 | in every run, a ticket's tenant and first weight are those of the accepted request that created it |
| Weighbridge.CompletedByRequest | backend/app/services/weighbridge_service.py:121-156 | in every run, a completed ticket was completed by an accepted and permitted request of its own tenant, whose weight is the recorded second weight |
| Weighbridge.TenantsAreApart | backend/app/services/weighbridge_service.py:48-56 | a request changes no ticket but its own and none of another tenant, never a ticket's tenant or first weight, and cannot tell a foreign ticket from a missing one |
| Weighbridge.EveryTraceOccurs | backend/app/services/weighbridge_service.py:133-186 | every trace of that language is the trail of some run |
| Weighbridge.CommitKeepsIff | backend/app/services/weighbridge_service.py:133-155 | a commit decided on a stale read keeps all this exactly when the request would have been accepted on the row as it is at the commit |
| Weighbridge.OverlapBreaksWeights | backend/app/services/weighbridge_service.py:170-186 | a completion and a cancellation that both read the open ticket leave a cancelled ticket with weights |
| Production.EntryRow.constructor | backend/app/services/production_service.py:80-114 | a draft with one audit event |
| Production.ProductionService.GetEntry | backend/app/services/production_service.py:40-48 | the row itself, if it exists and belongs to the caller's tenant, and otherwise the error |
| Production.ProductionService.CreateEntry | backend/app/services/production_service.py:51-115 | a draft of the caller's tenant is appended, unless the caller has no tenant or permission or there is no active fiscal year |
| Production.ProductionService.SubmitEntry | backend/app/services/production_service.py:118-146 | an authorized request of the entry's own tenant submits exactly a draft and appends one event; a caller without a tenant, an unknown or foreign entry, a missing permission and a wrong status are refused in this order, each with its error, and change nothing; no other entry changes |
| Production.ProductionService.CancelEntry | backend/app/services/production_service.py:149-177 | an authorized request of the entry's own tenant cancels exactly an entry not yet cancelled, a submitted one included, and appends one event; a caller without a tenant, an unknown or foreign entry, a missing permission and a wrong status are refused in this order, each with its error, and change nothing; no other entry changes |
| Production.RunsReplay | backend/app/services/production_service.py:80-176 | in every run, on every entry of the table: the trail replays to the status and lies in CREATED SUBMITTED? CANCELLED? |
| Production.AcceptedIff | backend/app/services/production_service.py:40-177 | exactly which requests are accepted and with which error each other is refused, leaving every entry alone |
| Production.StatusByRequest | backend/app/services/production_service.py:80-177 | in every run, an entry reached its status by an accepted and permitted request of its own tenant that asked for just that |
| Production.TenantsAreApart | backend/app/services/production_service.py:40-48 | a request changes no entry but its own and none of another tenant, and cannot tell a foreign entry from a missing one |
| Production.EveryTraceOccurs | backend/app/services/production_service.py:129-176 | every trace of that language is the trail of some run |
| Production.CommitKeepsIff | backend/app/services/production_service.py:129-145 | a commit decided on a stale read keeps this exactly when the request would have been accepted at the commit |
| Storage.NoDotDotLeft | backend/app/services/storage_service.py:45 | one left-to-right removal of ".." leaves none behind, without rescanning |
| Storage.NoDotDotIsKept | backend/app/services/storage_service.py:45 | a key without ".." keeps every character, single dots included |
| Storage.DotsCancel | backend/app/services/storage_service.py:45 | a run of dots leaves one dot or none, by its parity |
| Storage.StripIsExact | backend/app/services/storage_service.py:45 | stripping takes exactly the leading slashes of either kind |
| Storage.ReplacedIs | backend/app/services/storage_service.py:136 | slashes of either kind become underscores and nothing else changes |
| Storage.EveryKeyStaysUnderBase | backend/app/services/storage_service.py:43-49 | every key whatsoever resolves to a path under the base directory, so the containment error never fires |
| Storage.BuiltKeyKeepsSuffix | backend/app/services/storage_service.py:132-137 | whatever the entity and file name contain, a built key resolves to a file whose name starts with the key's suffix |
| Storage.PlainPath | backend/app/services/storage_service.py:132-137 | plain parts give exactly the path tenant, entity type, entity id, suffixed file name below the base |
| Storage.DistinctSuffixesNeverCollide | backend/app/services/storage_service.py:132-137 | keys built with different suffixes never name the same file |
| Storage.LocalStorageProvider.constructor | backend/app/services/storage_service.py:39-41 | a base directory and no files |
| Storage.LocalStorageProvider.Upload | backend/app/services/storage_service.py:51-54 | the resolved file holds the content, its directories exist and all other files are untouched, or nothing changes; it fails exactly below a file and on a directory, each with its error |
| Storage.LocalStorageProvider.Download | backend/app/services/storage_service.py:56-57 | returns what the key holds; fails with "not found" exactly where there is neither file nor directory nor a file in the way, and never with the key error |
| Storage.LocalStorageProvider.Delete | backend/app/services/storage_service.py:59-62 | removes the resolved file if it exists, and no other; only a directory is an error |
| Storage.BuiltKeysAreIndependent | backend/app/services/storage_service.py:43-62 | for keys with different suffixes, an upload or delete of one decides what it holds and leaves the other's content alone |
| Storage.ProviderIsAMap | backend/app/services/storage_service.py:51-62 | after any sequence of uploads and deletes of built keys with different suffixes, every key holds what a map from keys to contents says; and an upload succeeds exactly when no held file stands where it needs a directory and no earlier upload made a directory where it needs a file |
| Storage.PlainNamesAlwaysFit | backend/app/services/storage_service.py:132-137 | where tenant, entity type and entity id are free of slashes and dots, every upload of every run succeeds |
| Storage.FileAsDirectoryFails | backend/app/services/storage_service.py:132-137 | an entity id that names a held file as if it were a directory makes the upload fail, whatever that file is |
| Attachments.AttachmentService.UploadAttachment | backend/app/services/attachment_service.py:22-70 | refusals touch neither store; otherwise blob, row with size, and audit event are added |
| Attachments.AttachmentService.DeleteAttachment | backend/app/services/attachment_service.py:92-113 | a caller without a tenant, or of another tenant than the row's, is refused and touches neither store; otherwise blob and row go and an audit event is added |
| Attachments.UninterruptedIsService | backend/app/services/attachment_service.py:40-113 | the two steps of an operation, uninterrupted, have the effect of the methods |
| Attachments.NextStepIff | backend/app/services/attachment_service.py:40-113 | a live operation can take exactly its next step or die before it, and a dead or finished one does nothing any more |
| Attachments.RunKeepsInv | backend/app/services/attachment_service.py:44-69 | the invariant relating blobs, rows and audit trail holds in every reachable state, crashes included |
| Attachments.StoresAgreeUpToInterruptions | backend/app/services/attachment_service.py:98-113 | in every state a row lacks its blob exactly when a delete of it is between its two steps, and a blob lacks its row exactly when its upload is; where both exist the recorded size is the blob's, and no recorded size exceeds the upload limit |
| Attachments.DeletesStayInTenant | backend/app/services/attachment_service.py:116-126 | every delete that gets past its lookup is by the tenant that uploaded the attachment |
| Attachments.LostToItsOwnTenant | backend/app/services/attachment_service.py:98-113 | a committed attachment without its blob or its row lost it to a delete by its own tenant |
| Attachments.QuietStoresAgree | backend/app/services/attachment_service.py:40-113 | with nothing half done the two stores hold the same attachments, namely those uploaded and not deleted according to the audit trail |
| Seed.Session.SeedPermissions | backend/app/core/seed.py:209-218 | adds exactly the missing permissions and returns the code of every catalogued one |
| Seed.Session.SeedRolePermissions | backend/app/core/seed.py:235-244 | adds exactly the role's missing permissions, never inserting one twice |
| Seed.Session.SeedRoles | backend/app/core/seed.py:221-244 | adds exactly the missing roles and role permissions |
| Seed.Session.SeedSuperAdmin | backend/app/core/seed.py:247-270 | creates the super administrator with its role unless the email exists |
| Seed.Session.SeedFiscalYear | backend/app/core/seed.py:294-314 | creates the year only without an active one; raises on two active ones or on an inactive one of the same code |
| Seed.Session.SeedDemoTenantAndUsers | backend/app/core/seed.py:317-350 | finds or creates the tenant, its year and the missing users; raises on an ambiguous tenant |
| Seed.Session.SeedCategory | backend/app/core/seed.py:354-389 | adds exactly the category's missing rows |
| Seed.Session.SeedUnits | backend/app/core/seed.py:353-389 | adds exactly the missing categories, units and conversions, in order |
| Seed.Run | backend/app/core/seed.py:392-400 | the whole script commits the composition of its parts, or leaves the database as it was |
| Seed.SeedingIsAdditive | backend/app/core/seed.py:392-400 | seeding succeeds exactly when tenant and year are unambiguous and no inactive year is in the way; it removes and alters nothing, and afterwards every catalogued row is there, every role's permissions included |
| Seed.FailsIff | backend/app/core/seed.py:294-329 | seeding fails exactly with two matching tenants or two active years of the demo tenant, or with no active year and an inactive one of the new code, each with its error |
| Seed.SeededRoles | backend/app/core/seed.py:209-244 | a success adds exactly the missing permissions and roles, with their names, and the catalogued role permissions |
| Seed.SeededUsers | backend/app/core/seed.py:247-350 | a success adds exactly the missing accounts, and for each exactly its catalogued role: a super administrator without a tenant and on the platform, demo users in the found or created tenant and not on the platform |
| Seed.SuperAdministratorCanAct | backend/app/core/seed.py:255-269 | a super administrator the database did not have gets the role, no tenant, and the platform flag |
| Seed.SeededTenantAndYear | backend/app/core/seed.py:294-329 | a success adds the demo tenant exactly if none has its code or slug, and the current year exactly if that tenant has none active |
| Seed.SeededUnits | backend/app/core/seed.py:353-389 | a success adds exactly the missing categories, units and conversions, the first entry of a repeated key counting |
| Seed.CompleteIsFixed | backend/app/core/seed.py:209-389 | a database with nothing missing is left exactly as it is |
| Seed.SeedingTwiceIsSeedingOnce | backend/app/core/seed.py:392-400 | from any database: after a success, seeding again, on any later day and with any salts, changes nothing; after a failure nothing was changed and the same run fails again |
| Seed.CodeNamesTheYear | backend/app/core/seed.py:302-307 | two days get the same fiscal-year code if and only if they lie in the same April-to-March year |
| Seed.CodeReads | backend/app/core/seed.py:307 | a code reads as the start year, a hyphen, and the next year in two digits |
| Seed.InactiveYearBlocksSeeding | backend/app/core/seed.py:294-310 | a database with unique natural keys on which the script fails |

## Left out

- Token signatures, Argon2 salts and parameters, and the truncation of `exp` to whole seconds: tokens are records and
  hashes are abstract.
- AuthService.RunKeeps: requests are atomic. One refresh that commits late against an otherwise atomic run is the
  subject of the `LateRefresh` theorems; several overlapping ones, and the lost update of `failed_login_attempts` by
  overlapping logins, are not modelled.
- AuthService.ResetOnceWithinTheHour: requests other than a refresh read the clock once, so the time recorded in
  `used_at` is the time at which the expiry was checked.
- The audit rows of the authentication service: the events of a run's history stand for them.
- Creation of users, and the profile fields `update_user` also writes.
- Configured values stand at their defaults: refresh tokens live seven days (core/config.py:37) and an upload holds at
  most 25 MB (core/config.py:58). The rate limit is a parameter.
- RefreshProtocol.StepKeepsInv: one browser page. Other tabs or devices that share the stored tokens, the
  `currentUser` signal, navigation to the login page and the user load that follows a login are not steps of the model;
  that load is an ordinary request. Logout is never answered with 401, since its route needs no token.
- Numbering.NumberingService.NextNumber: counters are unbounded; the 32-bit `last_sequence` column would raise at its
  end.
- The ties between a created ticket or entry and its number: numbering and lifecycles are separate models.
- Settings.SettingsService.Upsert: upserts are atomic. Two overlapping first writes of a scope with a NULL component
  would both insert, as numbering's first inserts do; value types, audit rows and `list` endpoints are left out.
- Weighbridge.CommitKeepsIff: one stale read per commit, judged against the row at the commit; the row's other fields
  (vehicle, driver, remarks, time stamps, `updated_by`) are left out, and so are an entry's quantities and outputs.
- Storage.LocalStorageProvider.Upload: symbolic links, file-system limits and permissions are left out; paths are
  resolved lexically on POSIX separators. The Azure provider, `generate_access_url` and the provider cache are foreign
  calls or plain getters.
- Attachments.AttachmentService.UploadAttachment: storage keys are positions, whose freshness the random suffix
  provides (`DistinctSuffixesNeverCollide`); a blob write or delete is one step, so torn writes are left out.
- RateLimit.RateLimiter.Dispatch: requires a clock that does not go back, which the monotonic clock provides.
- Seed.Run: the catalogue is a parameter that satisfies what the script's literal constants satisfy (unique role
  codes, no repeated permission, only known codes); rows are keyed by natural keys, emails in lower case, and a year's
  tenant code names an existing tenant.
- Settings lookups per module, master data, tenants, roles, notifications, pagination, validation schemas and routers:
  lookups and writes without an invariant across calls.
- The workflow models, event bus and job registry: no transition logic exists in the code.
