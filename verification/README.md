# Verified model of a student marketplace backend

Dafny models of the stateful core of a FastAPI marketplace backend (and of one check of its
React frontend), with proofs about every input, every run and every interleaving. Verify with
`dafny verify dfyconfig.toml`.

## What is modelled

| files | part of the system |
|---|---|
| Containers, ContainerBytes, ImageIntake | bounded reading of an upload and the hand-written PNG, JPEG and WebP byte scanners |
| RateLimiter | the bounded, evicting sliding-window limiter against an unbounded log |
| TokenTable, ResetCodes, IssueLimits, Credentials, CredentialTheorems, CredentialGuarantees, SessionLifetimes, ResetProgress, CredentialStore | login, refresh-token families, logout, password change and two-transaction password reset as one protocol |
| EmailVerification, EmailProgress, EmailService | the two-phase resend with cancellation, and verification |
| Base64Url, CursorText, SignedToken, BrowseCursor, PersonalCursor | the two signed cursor codecs |
| Keyset, Browse, HistoryPages | keyset pagination over a table that changes between requests, public and private |
| RecentViews | the trimmed view history against the full log |
| ProductImages | two-phase renumbering of image positions and storage compensation |
| Catalog, PublicCatalog | the category forest, its public tree, and the hierarchy check of the browser |
| SellerVerification, Publication | verification attempts, profiles, the listing lifecycle and public visibility |

A database transaction is one step: a function from the tables before to the tables after, used
by the proofs about runs, and a method of a class that performs it on fields and is proved to
compute that function. Between the two transactions of a reset or a resend a request keeps a flow
state (issued, delivered, cancelling, done), so the phases of different requests interleave
freely. History that the code does not store (which login opened a family, which password hashes
were ever used, the challenge and time of an upload) appears in the state but is read by no step.

## Where the code does not meet the expectation

Each of these is a lemma that gives the exact condition, most with a concrete run.

- A password change can leave a reset code usable. `now` is read before the row lock is taken, so
  a reset may carry an older time than the change that ran before it. An old code then completes
  a reset, at any later point of any run, only if it had expired for the change but not for the
  reset (`ReplacedCodeOnlyByStaleClock`), and directly after the change the open code does so
  exactly then (`StaleClockWindow`, with the run `StaleClockExample`). For a reset that reads no
  earlier time than the change, it never does (`ReplacedCodeNeverWorks`).
- The hourly limit can be passed by one. Creation times are kept in whole seconds but compared
  with a time in microseconds, so an issue can overlook a row of exactly an hour before the second
  it is stored under, and the closed hour between the two then holds one too many
  (`ClosedHourExample`). It never holds two too many, and `ClosedHourIsExact` says when it stays
  within the limit. Half-open hours always do (`HourlyWindow`).
- An earlier attempt of a seller need not be rejected. If a new attempt gets a smaller
  (created_at, id) than an old one, which a clock that steps back or two attempts stored in one
  second allow, it is accepted, hidden behind the old one, and blocks the user for good
  (`EarlierClockExample`, `StuckForGood`). The earlier attempts are all rejected exactly when
  attempts are created in order (`OthersRejectedIffInOrder`). "Some attempt verified" equals
  "latest verified" in any case.
- Waiting out a resend hint is not always enough. The cooldown hint is short when the newest
  challenge is dated ahead of the request, by an earlier clock or by rounding up; the hourly hint
  is short when the age of the oldest counted challenge is a whole number of seconds, because the
  window is closed (`CooldownHintSuffices`, `HourlyHintSuffices`).
- The trimming of view history relies on the configured retention being at most 100
  (`RetentionBoundIsExact`); backend/app/core/config.py:67 enforces it.
- A private cursor for a time before year 1000 is issued but refused (`PrivateRoundTrip`); the
  history column holds no such time.

## Assumptions

- Transactions are serial and atomic; a failed commit is no commit. A retry after a deadlock is a
  step that did not happen followed by one that did.
- Lemmas that say so (`timely`, `TimelyRun`) take a clock that does not run backwards from one
  transaction to the next; the others hold for any clock. The limiter takes nondecreasing times
  across calls.
- Times are microseconds. A DATETIME column without fractional seconds
  (backend/app/models/base.py:29-34) keeps the nearest whole second, and every comparison with
  such a column reads the rounded time; the view history keeps microseconds
  (backend/app/models/product_recent_view.py:29). Columns that are only tested for null (used_at,
  revoked_at, activated_at, submitted_at) hold the unrounded time in the model. The configured
  cooldowns and the lifetime of an email challenge are whole seconds.
- Generated row ids, family ids and salted password hashes are new; a salted hash verifies exactly
  the password it was made from. Refresh-token collisions are modelled, not excluded.
- The keyed hash is a function with 32-byte results, not assumed injective: rejection of foreign
  cursors is stated up to a collision on the two contexts at hand. JSON writing and reading and
  ISO timestamps enter as functions of a record whose `Trusted()` predicate says what the library
  promises; what they accept beyond that is left open.
- Floating-point seconds of the limiter are reals. Database queries return what their SQL says;
  collation order of slugs, identifiers and category slugs is a total order.

## Model

| member | source | states |
|---|---|---|
| `Containers.Container` | backend/app/services/product_image_sanitizer.py:51-113 | The scanner returns normally exactly on the byte strings of the grammar of the format: some legal structure, written without any scanning, encodes to them |
| `Containers.PrefixFree` | backend/app/services/product_image_sanitizer.py:52 | No accepted PNG, JPEG or WebP can be extended: every nonempty trailing payload makes the same bytes rejected |
| `ContainerBytes.WebpBytes` | backend/app/services/product_image_sanitizer.py:53-55 | On literal bytes: exactly RIFF, a little-endian size that counts every byte after itself, and WEBP at offset 8 |
| `ContainerBytes.SmallestPng` | backend/app/services/product_image_sanitizer.py:56-70 | On literal bytes: an empty chunk behind eight bytes is an image exactly if the eight are the PNG signature and the chunk is IEND |
| `ContainerBytes.PngSkipsChunk` | backend/app/services/product_image_sanitizer.py:60-63 | A chunk of any other kind before it is skipped by its four-byte big-endian length, whatever its payload and checksum |
| `ContainerBytes.OneMarker` | backend/app/services/product_image_sanitizer.py:78-92 | Between start and end of image exactly the markers 01 and D0 to D7 stand alone, and FF only fills |
| `ContainerBytes.ScanMarker` | backend/app/services/product_image_sanitizer.py:98-112 | Inside a scan FF may be followed exactly by 00 or a restart marker D0 to D7 |
| `ContainerBytes.MarkerBudget` | backend/app/services/product_image_sanitizer.py:74 | n stand-alone markers before the end of image are accepted exactly for n below 100000 |
| `ContainerBytes.JpegSkipsSegment` | backend/app/services/product_image_sanitizer.py:93-97 | Every other marker but those of scan and image is followed by a big-endian length that counts its own two bytes |
| `Containers.ScanPng` | backend/app/services/product_image_sanitizer.py:56-70 | Accepts exactly signature plus delimited chunks of which the last and only the last is IEND, with no payload; never reads out of range and terminates |
| `Containers.PngSound` | backend/app/services/product_image_sanitizer.py:60-69 | From an accepting run of the chunk loop, the chunks that encode to the bytes it read |
| `Containers.PngComplete` | backend/app/services/product_image_sanitizer.py:60-69 | The chunk loop accepts the encoding of every legal chunk list |
| `Containers.PngPrefixFree` | backend/app/services/product_image_sanitizer.py:60-69 | An accepting chunk run and an accepting run on an extension force the extension to be empty |
| `Containers.ScanJpeg` | backend/app/services/product_image_sanitizer.py:71-113 | Accepts exactly SOI, optional fill bytes, length-delimited segments, entropy-coded data after SOS, and EOI as the last byte, with a legal segment structure inside the marker budget |
| `Containers.JpegMarkers` | backend/app/services/product_image_sanitizer.py:74-113 | The marker loop with its offsets computes the verdict of the recursive reading of the remaining bytes, one unit of budget a marker |
| `Containers.JpegSound` | backend/app/services/product_image_sanitizer.py:75-112 | From an accepting marker run, fewer segments than the budget that encode to exactly those bytes |
| `Containers.JpegComplete` | backend/app/services/product_image_sanitizer.py:75-112 | Every legal segment list within the budget is accepted, whatever fill bytes and entropy units it uses |
| `Containers.EntropySound` | backend/app/services/product_image_sanitizer.py:98-112 | Where the entropy loop stops at a marker, what it skipped is a sequence of plain bytes, stuffed bytes, restart markers and fill bytes |
| `Containers.EntropyComplete` | backend/app/services/product_image_sanitizer.py:98-112 | The entropy loop runs through every legal unit sequence to the marker behind it |
| `Containers.SkipEntropy` | backend/app/services/product_image_sanitizer.py:98-112 | The entropy loop, on a strictly increasing offset, ends where the recursive reading ends |
| `Containers.SkipFill` | backend/app/services/product_image_sanitizer.py:78-79 | The fill loop stops at the first byte that is not 0xFF, or at the end |
| `Containers.JpegPrefixFree` | backend/app/services/product_image_sanitizer.py:75-112 | Two accepting marker runs, on bytes and on an extension, force the extension to be empty, by relating the two runs |
| `Containers.ScanWebp` | backend/app/services/product_image_sanitizer.py:53-55 | Accepts exactly RIFF headers whose little-endian size counts every byte after itself |
| `ImageIntake.BoundedImageRead` | backend/app/services/product_image_sanitizer.py:32-43 | However the stream splits its bytes, the whole upload is returned exactly when it has 1 to 10485760 bytes, and at most one byte more is ever read |
| `RateLimiting.InMemoryRateLimiter.Consume` | backend/app/core/rate_limit.py:37-60 | The decision equals that of an unbounded log of admissions, the log grows exactly by what is allowed, and a rejection carries the exact wait |
| `RateLimiting.InMemoryRateLimiter.constructor` | backend/app/core/rate_limit.py:20-35 | Starts as the table of the empty log |
| `RateLimiting.BlockedMeans` | backend/app/core/rate_limit.py:42-57 | The reference decision in counts: blocked exactly if the key was admitted max_requests times later than now - window, or was not and max_keys other keys were |
| `RateLimiting.InMemoryRateLimiter.Clear` | backend/app/core/rate_limit.py:62-64 | Forgets every admission |
| `RateLimiting.InMemoryRateLimiter.MakeRoomForKey` | backend/app/core/rate_limit.py:66-71 | The purge loop drops exactly the keys whose newest time is at or before the cutoff |
| `RateLimiting.InMemoryRateLimiter.LongestIdleTime` | backend/app/core/rate_limit.py:45-48 | The minimum over the last times of all keys |
| `RateLimiting.InMemoryRateLimiter.RoomForNewKey` | backend/app/core/rate_limit.py:42-51 | A new key gets a slot within max_keys, or is turned away while the log blocks it, with the exact wait |
| `RateLimiting.InMemoryRateLimiter.Decide` | backend/app/core/rate_limit.py:55-60 | With the trimmed list of the key, admits or rejects as the log does |
| `RateLimiting.DropUntil` | backend/app/core/rate_limit.py:52-53 | The popleft loop removes exactly the leading times at or before the cutoff |
| `RateLimiting.FullWait` | backend/app/core/rate_limit.py:55-57 | For a used-up key the hint r has 1 <= r <= window, the key is admitted after r idle seconds and still rejected at every earlier whole second |
| `RateLimiting.CrowdedWait` | backend/app/core/rate_limit.py:44-49 | The same exactness for a new key that finds max_keys active keys |
| `RateLimiting.TrackedIsBounded` | backend/app/core/rate_limit.py:37-71 | Whatever table mirrors a log, the log itself never holds more than max_requests of a key or more than max_keys keys in the window |
| `RateLimiting.AfterPurge` | backend/app/core/rate_limit.py:66-71 | After a purge the keys of the table are exactly the active keys of the log |
| `RateLimiting.Admit` | backend/app/core/rate_limit.py:59-60 | Appending the time of an admitted request keeps the table the mirror of the log |
| `TokenTable.RotationKeepsChains` | backend/app/repositories/token_repository.py:87-97 | Rotation keeps every family one replaced_by chain with one user and one absolute expiry, of which only the last row can be unrevoked |
| `TokenTable.LoginKeepsChains` | backend/app/repositories/token_repository.py:10-31 | A new family leaves all chains as they are and starts its own |
| `TokenTable.RevokingKeepsChains` | backend/app/repositories/token_repository.py:99-134 | Revoking any set of rows keeps the chains |
| `TokenTable.LinkPointsForward` | backend/app/repositories/token_repository.py:87-97 | Every replaced_by link leads to a later row of the same family, so no chain has a cycle |
| `TokenTable.EvictMeaning` | backend/app/services/refresh_session_service.py:82-104 | For any count the eviction loop leaves exactly max(0, active - count) of the active families of the user, adds none, and every live row it ends is older in (created_at, id) than every live row it leaves |
| `TokenTable.EvictSpares` | backend/app/services/refresh_session_service.py:91-104 | Every live row, of the user or of anyone else, whose family is not ended is unchanged |
| `TokenTable.OldestActive` | backend/app/repositories/token_repository.py:66-85 | A live row of the user that no other live row precedes in (created_at, id), or none when there is none |
| `TokenTable.RevokeFamily` | backend/app/repositories/token_repository.py:99-116 | Changes exactly the rows of the family that are unrevoked, or all of them when asked, and only their revocation columns |
| `TokenTable.RevokeUser` | backend/app/repositories/token_repository.py:118-134 | Revokes exactly the unrevoked rows of the user |
| `IssueLimits.HourlyWindow` | backend/app/services/password_reset_service.py:104-111 | If each issue found fewer than the limit in the hour before the time it read, no half-open hour of stored times holds more than the limit, for any clock |
| `IssueLimits.ClosedHourIsExact` | backend/app/repositories/password_reset_code_repository.py:27-42 | No closed hour of the user holds more than the limit if and only if no issue read a time past the second its row stores while a row lay exactly an hour before that second and the count was one below the limit; never more than one too many |
| `IssueLimits.ClosedHourExample` | backend/app/repositories/password_reset_code_repository.py:27-42 | With limit 5 and a cooldown of 60 s a sixth issue passes both checks, and one closed hour then holds six |
| `IssueLimits.IssueKeepsPace` | backend/app/services/password_reset_service.py:187-198 | The two checks before an issue keep the whole log paced, although the row keeps the time rounded to a second: a whole-second cooldown survives the rounding |
| `ResetCodes.Latest` | backend/app/repositories/password_reset_code_repository.py:10-25 | The row of the user with the greatest (created_at, id) |
| `ResetCodes.IssueKeepsLimits` | backend/app/services/password_reset_service.py:104-123 | A permitted issue, stored with its rounded creation time, keeps cooldown gaps, hourly windows and attempt bounds |
| `ResetCodes.ActivationKeepsBinding` | backend/app/services/password_reset_service.py:154-164 | Activating the newest code under an unchanged password keeps every open code bound to the password it was issued under |
| `ResetCodes.ReplacingKeepsBinding` | backend/app/services/password_reset_service.py:279-294 | A replaced password leaves no unexpired open code behind |
| `CredentialGuarantees.SessionsFollowPassword` | backend/app/services/auth_service.py:96-119 | In every reachable state each unrevoked token belongs to a family whose login verified the password hash the user has now; every token shares its login user and expires no later than the stored end of login plus absolute lifetime |
| `CredentialGuarantees.SessionCap` | backend/app/services/refresh_session_service.py:82-90 | With a clock that does not run backwards no user ever has more than the maximum of active families, at any later moment |
| `CredentialGuarantees.LoginEvictsOldest` | backend/app/services/refresh_session_service.py:82-114 | A login keeps exactly min(active, max - 1) of the earlier families, and every one it ends is older than every one it keeps |
| `CredentialGuarantees.DeadStaysDead` | backend/app/services/refresh_session_service.py:143-186 | A family without a usable token never has one again, over any run |
| `CredentialGuarantees.ReplayOrLogoutEndsFamily` | backend/app/services/refresh_session_service.py:143-151 | Presenting a revoked token to refresh, or any token of the family to logout, leaves the family dead for the rest of any run |
| `CredentialGuarantees.SessionsOpenOnlyBy` | backend/app/services/refresh_session_service.py:116-186 | A token becomes usable only as a new row, of an active account, through a login with the right password, or a refresh that presents the live token of the same family with its CSRF token; no revoked row is ever usable again |
| `CredentialGuarantees.PasswordChangesOnlyBy` | backend/app/services/password_change_service.py:59-79 | A stored password changes only by a change that proves the current password and differs from it, or by a completed reset, of an active account |
| `CredentialGuarantees.ReplacementEndsSessions` | backend/app/services/password_change_service.py:76-90 | After a password change or a completed reset every family the user had is dead for the rest of any run |
| `CredentialGuarantees.ResetNeedsIssuedPassword` | backend/app/services/password_reset_service.py:262-301 | A completed reset used the right, unused, unexpired code with attempts left, of an active account, issued while the user had the very password hash it replaces |
| `CredentialGuarantees.ReplacementSupersedes` | backend/app/services/password_change_service.py:76-84 | In every sound state, whatever the clocks read, a password replacement supersedes every code ever issued to the user, pending or active |
| `CredentialGuarantees.UnusableForGood` | backend/app/services/password_reset_service.py:144-164 | A closed code of a replaced password is closed after every further run, whatever the clocks read and whether its request is pending or over |
| `CredentialGuarantees.ReplacedCodeOnlyByStaleClock` | backend/app/services/password_reset_service.py:237-301 | After any replacement of a password and any further run, whatever the clocks read: if an old code of the user completes a reset, the replacement was a change that read a time at or after the expiry of the code, and the reset one before it |
| `CredentialGuarantees.ReplacedCodeNeverWorks` | backend/app/services/password_reset_service.py:237-301 | So no old code completes a reset that reads no earlier time than the change that replaced the password did |
| `CredentialGuarantees.SupersededForGood` | backend/app/services/password_reset_service.py:125-164 | Superseded codes stay superseded over any run |
| `CredentialGuarantees.SupersededCodeNeverWorks` | backend/app/services/password_reset_service.py:110-164 | A code superseded in a state reached with a clock that does not run backwards never completes a reset that reads no earlier time, in any interleaving of delivery, activation, completion and change, whatever the requests between read |
| `CredentialGuarantees.OneOpenCode` | backend/app/services/password_reset_service.py:270-294 | At most one unused unexpired reset code per user |
| `CredentialGuarantees.SpentForGood` | backend/app/repositories/password_reset_code_repository.py:86-101 | A used code whose request is over is never reopened, although activation clears the same used_at column |
| `CredentialGuarantees.OpenedThenUsedIsSpent` | backend/app/repositories/password_reset_code_repository.py:86-101 | After the end of its request a code keeps its row, and once used it is spent for good |
| `CredentialGuarantees.IssueLimitsHold` | backend/app/services/password_reset_service.py:104-111 | Whatever the clock does: reset codes of a user are a cooldown apart, no half-open hour exceeds the limit, no closed hour exceeds it by more than one and exactly never under the stated condition, attempts never pass the maximum |
| `CredentialGuarantees.StaleClockWindow` | backend/app/services/password_reset_service.py:237 | Directly after a password change the open old code of the user completes a reset if and only if the reset read a time before the expiry and the change a time at or after it |
| `CredentialGuarantees.StaleClockExample` | backend/app/services/password_change_service.py:57 | A concrete run in which a superseded code resets the password because the reset read an older time than the change before it |
| `CredentialGuarantees.LoginLeaves` | backend/app/services/refresh_session_service.py:82-114 | After a successful login the user has at most the maximum of active families and only the oldest of the others had to go |
| `SessionLifetimes.LoginOpensExactly` | backend/app/services/auth_service.py:96-119 | A login opens a session if and only if the account exists, is active, the password is right and some generated token collides with no row |
| `SessionLifetimes.RefreshOpensExactly` | backend/app/services/refresh_session_service.py:124-195 | A refresh opens a session if and only if it presents an unrevoked token before its expiry and the end of its family, with its CSRF token in cookie and header, of an active account, and some generated token is free |
| `SessionLifetimes.RefreshOpensOrEnds` | backend/app/services/refresh_session_service.py:143-170 | A refresh that presents a token with its CSRF token either opens a session or leaves the family dead, unless every generated token collides |
| `SessionLifetimes.OpenedTokenExpires` | backend/app/services/refresh_session_service.py:236-247 | A token expires a refresh lifetime after it is opened, or with its family if that is sooner; a family ends an absolute lifetime after its login |
| `SessionLifetimes.TokenLifetime` | backend/app/services/refresh_session_service.py:153-195 | From the opening of a token over any further run: presenting it opens a session exactly while refresh lifetime and absolute lifetime last, with its CSRF token, unrevoked, for an active account, with a free token |
| `SessionLifetimes.RowsChangeOnlyBy` | backend/app/services/refresh_session_service.py:197-234 | A session row changes only by a login of its user, a refresh or logout that presents its own family, a logout everywhere or a replaced password of its user |
| `SessionLifetimes.LoginEndsFirst` | backend/app/services/refresh_session_service.py:91-104 | Whatever session a login ends was opened before every session it keeps, by created_at and id |
| `ResetProgress.IssueExactly` | backend/app/services/password_reset_service.py:104-123 | A code is issued if and only if the account is active, the provider there, fewer codes than the limit were created since an hour before, and none within the cooldown |
| `ResetProgress.OpensExactly` | backend/app/services/password_reset_service.py:144-164 | An activation opens the delivered code of an active account if and only if it is the newest of its user and the password is the one it was issued under, and changes no other row |
| `ResetProgress.ResetExactly` | backend/app/services/password_reset_service.py:262-301 | A reset completes if and only if its code is that of the newest row of the active user, unused, unexpired and with attempts left |
| `ResetProgress.WrongCodeCounts` | backend/app/services/password_reset_service.py:270-277 | A wrong code against an available row adds exactly one attempt to that row and changes nothing else |
| `ResetProgress.AttemptsAreWrongCodes` | backend/app/services/password_reset_service.py:270-277 | Over any run the attempts of a row grow by exactly the number of wrong codes judged against it |
| `ResetProgress.GuessesAreLimited` | backend/app/services/password_reset_service.py:265-277 | Over any run at most the attempts left are judged wrong against a row, and after so many no reset completes with its code |
| `ResetProgress.MailedCodeResets` | backend/app/services/password_reset_service.py:90-301 | A code that may be issued, is delivered and activated completes a reset if and only if it is given before its lifetime ends, whatever other accounts do in between and whatever clocks they read |
| `ResetProgress.FailedRequestNeverWorks` | backend/app/services/password_reset_service.py:132-167 | A code whose delivery failed, or that its activation did not open, completes no reset in any further run |
| `ResetProgress.ChangeExactly` | backend/app/services/password_change_service.py:59-92 | A password change succeeds if and only if the account is active, the present password right and the new one different |
| `CredentialGuarantees.RefreshLeaves` | backend/app/services/refresh_session_service.py:153-195 | After a successful refresh the new token is the only usable one of its family |
| `CredentialGuarantees.ReplacementLeaves` | backend/app/services/password_reset_service.py:279-294 | After a replaced password the user has the new hash, no unrevoked token and no code that could still be used; after a reset no unused code at all |
| `CredentialGuarantees.ActivationOpens` | backend/app/services/password_reset_service.py:144-164 | A code opens only by the activation of its own delivered request, as the newest of its user, under the password it was issued under |
| `CredentialTheorems.StepKeeps` | backend/app/services/password_reset_service.py:70-301 | Every single transaction of login, refresh, logout, issue, delivery, activation, completion, change and account administration keeps the whole invariant |
| `CredentialTheorems.RunKeeps` | backend/app/services/password_reset_service.py:70-301 | Every interleaving of transactions keeps the invariant |
| `CredentialTheorems.EvictionMakesRoom` | backend/app/services/refresh_session_service.py:87-104 | After the eviction loop the user has fewer than the maximum of active families |
| `CredentialStore.Store.LogIn` | backend/app/services/auth_service.py:96-119 | The login transaction does the login step, a collision rolls everything back; it opens a session exactly for an active account with the right password and a free token, which lives a refresh lifetime, and leaves the user within the maximum with only the oldest families gone |
| `CredentialStore.Store.CreateTokenRecord` | backend/app/services/refresh_session_service.py:249-270 | The retry loop inserts the first generated token that collides with no row, or nothing |
| `CredentialStore.Store.RevokeOldestFamilies` | backend/app/services/refresh_session_service.py:91-104 | The loop computes the eviction of the given number of families |
| `CredentialStore.Store.RotateSession` | backend/app/services/refresh_session_service.py:124-195 | Refresh does the rotation step; it opens a session exactly for a live token presented with its CSRF token, by an active account, with a free token; the new token is the only usable one of its family and lives a refresh lifetime or until the family ends; a replayed token leaves its family dead, and no other family is touched |
| `CredentialStore.Store.LogoutCurrent` | backend/app/services/refresh_session_service.py:197-225 | Logout does the logout step, leaves the family of the presented token dead and every other family as it was |
| `CredentialStore.Store.LogoutEverywhere` | backend/app/services/refresh_session_service.py:227-234 | Does the step, keeps the invariant and leaves no unrevoked token of the user |
| `CredentialStore.Store.RequestReset` | backend/app/services/password_reset_service.py:90-127 | The first transaction issues a pending code exactly when account, provider, hourly count and cooldown allow it; afterwards no older code of the user can be used |
| `CredentialStore.Store.FinishDelivery` | backend/app/services/password_reset_service.py:132-142 | A failed delivery ends the request and changes no table; the invariant is kept |
| `CredentialStore.Store.Activate` | backend/app/services/password_reset_service.py:144-167 | The second transaction opens exactly the delivered code of this request, if it is the newest of its active user and the password unchanged, and changes no other code |
| `CredentialStore.Store.ResetPassword` | backend/app/services/password_reset_service.py:243-305 | Completion succeeds exactly with the code of the open, live, newest row; a wrong code adds one attempt to that row and changes nothing else; a success leaves the new hash, no unrevoked token and no unused code |
| `CredentialStore.Store.ChangePassword` | backend/app/services/password_change_service.py:59-92 | Change succeeds exactly for an active account with its present password and another new one, and leaves the new hash, no unrevoked token and no code that could still be used |
| `EmailVerification.ChallengesStaySafe` | backend/app/services/email_verification_service.py:158-195 | In every interleaving of both resend phases, cancels and verifications, whatever any clock reads: at most one open challenge per user, none once verified; cooldown gaps, half-open hours within the limit, closed hours within it exactly under the stated condition, and attempt bounds hold |
| `EmailVerification.OpensOnlyDelivered` | backend/app/services/email_verification_service.py:158-181 | A challenge opens only by the activation of its own delivered request, as the newest of its user, sent to the address the account then has |
| `EmailVerification.VerifiedExactlyByCode` | backend/app/services/email_verification_service.py:215-270 | An address becomes verified if and only if an eligible account answers an open, unexpired challenge of its own with attempts left by its code |
| `EmailVerification.CooldownHintSuffices` | backend/app/services/email_verification_service.py:96-103 | Waiting out the cooldown hint ends the cooldown if and only if the newest challenge is not dated ahead of the request, as a rounded-up creation time or an earlier clock makes it |
| `EmailVerification.HourlyHintSuffices` | backend/app/services/email_verification_service.py:110-122 | Waiting out the hourly hint ends the limit if and only if the age of the oldest counted challenge is not a whole number of seconds, or is exactly an hour |
| `EmailVerification.RunKeeps` | backend/app/services/email_verification_service.py:74-275 | Every run keeps the invariant of challenges |
| `EmailService.EmailVerificationService.ResendChallenge` | backend/app/services/email_verification_service.py:83-138 | The first transaction does the step; it adds one pending challenge exactly when account, provider, hourly count and cooldown allow it, and a rejection hints at least a second and changes nothing |
| `EmailService.EmailVerificationService.FinishDelivery` | backend/app/services/email_verification_service.py:144-156 | A failed delivery leads to the cancelling transaction and changes no table; the invariant is kept |
| `EmailService.EmailVerificationService.ActivateChallenge` | backend/app/services/email_verification_service.py:158-199 | The second transaction does the step; a delivered pending newest unexpired challenge of the unchanged address opens, and is then the only open one of its user whatever was open before; nothing else opens |
| `EmailService.EmailVerificationService.CancelChallenge` | backend/app/services/email_verification_service.py:277-294 | Cancelling does the step, opens nothing and leaves the challenge of the request not pending |
| `EmailService.EmailVerificationService.VerifyChallenge` | backend/app/services/email_verification_service.py:215-275 | Verification succeeds exactly for an eligible account that answers an open live challenge, and then no challenge of the user is open; a wrong code adds one attempt to the challenge and changes nothing else |
| `EmailVerification.Latest` | backend/app/repositories/email_verification_code_repository.py:32-74 | The newest challenge of the user, or the newest open one |
| `EmailVerification.OldestSince` | backend/app/repositories/email_verification_code_repository.py:95-110 | The least creation time of the user at or after the given one |
| `EmailVerification.CancelClosesOne` | backend/app/repositories/email_verification_code_repository.py:134-153 | With distinct ids, cancelling leaves no pending row of that id and user, and changes at most one row, only that one if it was pending, and only in used_at |
| `EmailVerification.OnlySparedStaysOpen` | backend/app/repositories/email_verification_code_repository.py:155-176 | Afterwards no row of the user is open but the spared one; every other row is as it was, and what was closed changed only in used_at |
| `EmailProgress.ResendExactly` | backend/app/services/email_verification_service.py:83-138 | A challenge is issued if and only if the account is active with an unverified address, the provider there, fewer challenges than the limit were created since an hour before and none within the cooldown; else the reply says which failed |
| `EmailProgress.OpensExactly` | backend/app/services/email_verification_service.py:158-181 | A challenge opens if and only if its delivered request commits, it is pending, the newest of its user, unexpired when sent, and sent to the unverified address the active account has |
| `EmailProgress.OpeningReplaces` | backend/app/repositories/email_verification_code_repository.py:112-176 | What opens closes whatever the user had open before, and touches no other row |
| `EmailProgress.ElseCancelled` | backend/app/services/email_verification_service.py:182-188 | A delivered challenge that does not open is closed, and no other row changes |
| `EmailProgress.WrongCodeCounts` | backend/app/services/email_verification_service.py:243-250 | A wrong code against an open live challenge adds exactly one attempt to its row and changes nothing else |
| `EmailProgress.AttemptsAreWrongCodes` | backend/app/services/email_verification_service.py:243-250 | Over any run the attempts of a challenge grow by exactly the number of wrong codes judged against it |
| `EmailProgress.GuessesAreLimited` | backend/app/services/email_verification_service.py:234-250 | Over any run at most the attempts left are judged wrong against a challenge, and after so many it verifies nothing |
| `EmailProgress.MailedCodeVerifies` | backend/app/services/email_verification_service.py:74-275 | A challenge that may be sent, is delivered and activated verifies the address by its code if and only if it is given before its lifetime ends, whatever was open before and whatever other accounts do in between |
| `EmailProgress.FailedRequestNeverOpens` | backend/app/services/email_verification_service.py:144-199 | A challenge whose delivery failed, or that its activation did not open, is never open in any further run, cancelled or not |
| `Base64Url.DecodeIsInverse` | backend/app/services/product_browse_cursor.py:27-37 | Decoding yields data exactly when it is nonempty and the text is its canonical unpadded encoding (section 5 of RFC 4648) |
| `Base64Url.EncodeInjective` | backend/app/services/product_browse_cursor.py:27-28 | Distinct data have distinct encodings |
| `SignedToken.OpenSigned` | backend/app/services/product_browse_cursor.py:70-81 | A signed text opens to its data exactly when it has at most 512 characters; its length is computed |
| `SignedToken.OpenIsSigned` | backend/app/services/product_browse_cursor.py:75-81 | Only the signed text of its own data opens: no second spelling exists |
| `CursorText.PriceRoundTrip` | backend/app/services/product_browse_cursor.py:105-110 | A formatted price parses back exactly when it is positive and has at most twelve digits |
| `CursorText.HexInjective` | backend/app/services/product_browse_cursor.py:50 | Hexadecimal digests differ when the hashes do |
| `CursorText.SlugForm` | backend/app/models/product.py:30 | A slug is item- and any 24 lower-case hexadecimal digits |
| `BrowseCursor.CursorRoundTrip` | backend/app/services/product_browse_cursor.py:64-111 | A cursor decodes to its position under exactly the queries with the same sort and fingerprint, and exactly for the prices the pattern admits |
| `BrowseCursor.CursorFits` | backend/app/services/product_browse_cursor.py:75 | Every cursor has at most 264 characters, inside the limit of 512 |
| `BrowseCursor.OtherContextRejected` | backend/app/services/product_browse_cursor.py:94-95 | A cursor of another query is rejected unless the keyed hash collides on these two queries |
| `BrowseCursor.AcceptedIsSigned` | backend/app/services/product_browse_cursor.py:73-81 | Whatever decodes is the signed text of a payload |
| `PersonalCursor.PrivateRoundTrip` | backend/app/services/personalization_cursor.py:57-97 | A private cursor has 240 characters and decodes to its position if and only if the context hash is the same and the time is not before January 1 of year 1000 |
| `PersonalCursor.ContextHashBinds` | backend/app/services/personalization_cursor.py:57-61 | Different users, lists or page sizes have different context hashes, unless the keyed hash collides on them |
| `Keyset.PageFacts` | backend/app/services/product_browse_service.py:17-25 | A page is the first limit rows remaining, with a next position exactly when more remain |
| `Keyset.SortedIsUnique` | backend/app/repositories/product_browse_repository.py:69-71 | There is only one way to put given rows in the order of the page |
| `Keyset.SlugLessMeans` | backend/app/repositories/product_browse_repository.py:59-71 | The order of slugs is the lexicographic one |
| `Keyset.UnchangedWalk` | backend/app/repositories/product_browse_repository.py:63-71 | On an unchanged table a walk emits exactly the remaining rows in order, in the least number of requests |
| `Keyset.WholeWalk` | backend/app/repositories/product_browse_repository.py:63-71 | From the first page of an unchanged table a walk emits every row once, in order, in the least number of requests |
| `Keyset.WalkMovesForward` | backend/app/repositories/product_browse_repository.py:63-71 | Under arbitrary writes between requests the emitted keys are strictly monotone |
| `Keyset.StableRowEmitted` | backend/app/repositories/product_browse_repository.py:63-71 | A row visible with an unchanged key in every snapshot is emitted by every completed walk |
| `Keyset.EmittedOnce` | backend/app/repositories/product_browse_repository.py:63-71 | No key is emitted twice |
| `Browse.FollowIsWalk` | backend/app/services/product_browse_service.py:15-26 | Following signed next_cursor values is the keyset walk: no cursor is refused, none loses or repeats a row |
| `Browse.BrowseAll` | backend/app/services/product_browse_service.py:15-26 | On an unchanged table the pages together are exactly the selected listings, each once, in the order of any of the three sorts, in the least number of requests |
| `Browse.ListedInOrder` | backend/app/repositories/product_browse_repository.py:53-71 | Of two listings shown the earlier has the lower price (price_asc), the higher price (price_desc) or the later publication (newest), and of equal ones the lesser slug in the ascending order and the greater one in the descending orders |
| `Browse.ListedExactly` | backend/app/repositories/product_browse_repository.py:31-51 | A listing is shown if and only if it is publicly visible and meets every filter that is set, both price bounds included |
| `Browse.BrowseUnderWrites` | backend/app/repositories/product_browse_repository.py:53-71 | With any writes between requests, listings come in strict key order and one that stays selected with its key is emitted |
| `Browse.SnapshotFacts` | backend/app/repositories/product_browse_repository.py:31-51 | The snapshot holds exactly the filtered visible listings and their keys are distinct |
| `HistoryPages.FollowIsWalk` | backend/app/services/recently_viewed_service.py:46-57 | Following private cursors is the keyset walk over the visible history of the user |
| `HistoryPages.HistoryAll` | backend/app/repositories/recently_viewed_repository.py:64-84 | On an unchanged table the pages together are exactly the visible history, each entry once, newest first |
| `HistoryPages.HistoryInOrder` | backend/app/repositories/recently_viewed_repository.py:82-84 | Of two entries shown the earlier was viewed later, and of equal ones it has the greater slug |
| `HistoryPages.HistoryExactly` | backend/app/repositories/recently_viewed_repository.py:64-84 | Shown are exactly the entries of the user whose listing is publicly visible |
| `HistoryPages.HistoryUnderWrites` | backend/app/repositories/recently_viewed_repository.py:64-84 | With any writes between requests the listed keys strictly decrease, and an entry that stays with its key is listed |
| `RecentViews.HistoryIsGreatest` | backend/app/services/recently_viewed_service.py:22-32 | Record-only runs, times in any order, keep for every user exactly the retained number of greatest (last viewed, listing) pairs of the full log, each with its maximum time |
| `RecentViews.BestIsLatest` | backend/app/repositories/recently_viewed_repository.py:36-43 | The log it is compared with holds, for each listing the user viewed, the latest of its times |
| `RecentViews.RetentionBoundIsExact` | backend/app/repositories/recently_viewed_repository.py:33 | The history stays within the retention in every run if and only if the retention is at most 100, one below the LIMIT 101 of the read |
| `RecentViews.TrimFacts` | backend/app/services/recently_viewed_service.py:30-32 | The limited read sees the one entry too many, and exactly the least entry goes |
| `RecentViews.RecordKeepsTop` | backend/app/services/recently_viewed_service.py:29-32 | One more record, at any time, keeps the table the top of the log |
| `RecentViews.UpsertFacts` | backend/app/repositories/recently_viewed_repository.py:36-43 | The upsert changes only the row of that user and listing, to the greater time |
| `RecentViews.OtherUsersUntouched` | backend/app/services/recently_viewed_service.py:22-32 | Recording changes no history of another user |
| `RecentViews.RecentlyViewedService.RecordView` | backend/app/services/recently_viewed_service.py:22-32 | Refuses an invisible listing, else leaves exactly the recorded table |
| `RecentViews.RecentlyViewedService.Remove` | backend/app/services/recently_viewed_service.py:35-38 | Removes exactly the named entry of that user |
| `RecentViews.RecentlyViewedService.ClearAll` | backend/app/services/recently_viewed_service.py:41-44 | Removes exactly the entries of that user |
| `ProductImages.PartlyKeepsConstraints` | backend/app/repositories/product_image_repository.py:29-36 | In the middle of a flush, whatever rows it has reached, positions stay unique per listing and within 0..15 |
| `ProductImages.PlaceKeepsDense` | backend/app/repositories/product_image_repository.py:33-36 | Renumbering one listing leaves every listing numbered 0..n-1 and the others untouched |
| `ProductImages.AppendKeepsDense` | backend/app/services/product_image_service.py:103-105 | A row added at position n keeps every listing dense and every constraint |
| `ProductImages.DeletionIsMovable` | backend/app/services/product_image_service.py:131-134 | After a deletion the rest may be renumbered without a collision and is then dense, in its old order |
| `ProductImages.PermutationTest` | backend/app/services/product_image_service.py:115-116 | Comparing length and set accepts exactly the permutations of the current references |
| `ProductImages.ListingIsUnique` | backend/app/repositories/product_image_repository.py:10-14 | The positions determine the list of a listing |
| `ProductImages.ImageService.Flush` | backend/app/repositories/product_image_repository.py:31-33 | One flush, updating rows one at a time in any order, never violates a constraint and ends with the intended positions |
| `ProductImages.ImageService.Resequence` | backend/app/repositories/product_image_repository.py:29-36 | Both phases together number the listing in the given order without ever violating a constraint |
| `ProductImages.ImageService.Reorder` | backend/app/services/product_image_service.py:110-121 | Succeeds exactly for a permutation of the current references, and then the listing is in that order; else nothing changes |
| `ProductImages.ImageService.SaveObject` | backend/app/services/product_image_service.py:71-81 | Saves exactly when eligible, with room, under a key nobody holds; a failed save leaves rows, uploads and all unlogged objects as they were |
| `ProductImages.ImageService.InsertMetadata` | backend/app/services/product_image_service.py:99-108 | Appends the row exactly when eligible, with room, committing and with a free reference among eight; else nothing changes |
| `ProductImages.ImageService.Compensate` | backend/app/services/product_image_service.py:90-98 | After a failed insert only the object of this upload is removed, or the failure is on record |
| `ProductImages.ImageService.DeleteMetadata` | backend/app/services/product_image_service.py:124-136 | Removes exactly the named row; the others keep their relative order and are dense again; its object is still stored |
| `ProductImages.ImageService.CleanUp` | backend/app/services/product_image_service.py:138-144 | After the commit only the object of the deleted row is removed, or the failure is on record |
| `ProductImages.ImageService.Audit` | backend/app/services/product_image_service.py:177-192 | Never reports a missing object, and its orphans are exactly the objects of running requests and recorded clean-up failures |
| `ProductImages.ImageService.ListForProduct` | backend/app/repositories/product_image_repository.py:10-14 | The rows of the listing in the order of their positions |
| `Catalog.CatalogIsForest` | backend/app/services/catalog_service.py:163-223 | From the empty catalog every run keeps at most 500 categories with distinct slugs in a two-level forest where an active child has an active root parent |
| `Catalog.CreateKeepsForest` | backend/app/services/catalog_service.py:182-194 | Creation under a validated parent keeps the forest and the capacity |
| `Catalog.UpdateKeepsForest` | backend/app/services/catalog_service.py:197-208 | Reparenting keeps the forest: a row with children stays a root |
| `Catalog.SetActiveKeepsForest` | backend/app/services/catalog_service.py:211-223 | Activation and deactivation keep active children below active parents |
| `Catalog.ActiveAfter` | backend/app/services/catalog_service.py:211-223 | An active category stays active through every change but its own deactivation, which goes through exactly if it has no active child |
| `Catalog.ActivationExactly` | backend/app/services/catalog_service.py:211-223 | A row is activated exactly at the root or below an active parent, deactivated exactly without an active child, and then only its flag changes |
| `Catalog.UpdateExactly` | backend/app/services/catalog_service.py:197-208 | An update stores the order and the parent it is given and nothing else; it is refused exactly for a parent that is no other active root, or while the row has children |
| `Catalog.CreationExactly` | backend/app/services/catalog_service.py:182-194 | A category is created exactly under a new slug, while there are fewer than 500, at the root or below an active root, and is then active with its order |
| `Catalog.CategoryService.CheckParent` | backend/app/services/catalog_service.py:163-173 | Computes the parent rule with its refusals |
| `Catalog.CategoryService.Create` | backend/app/services/catalog_service.py:182-194 | Does exactly the creation step and keeps the forest |
| `Catalog.CategoryService.Update` | backend/app/services/catalog_service.py:197-208 | Does exactly the update step and keeps the forest |
| `Catalog.CategoryService.SetActive` | backend/app/services/catalog_service.py:211-223 | Does exactly the activation step and keeps the forest |
| `PublicCatalog.ActiveIsPublic` | backend/app/services/catalog_service.py:116-119 | In a forest is_publicly_active, the visibility filter and the active flag agree on every row |
| `PublicCatalog.FilterDropsNoActiveRow` | backend/app/services/catalog_service.py:137-140 | The visibility filter drops no active row |
| `PublicCatalog.ListPublic` | backend/app/services/catalog_service.py:142-149 | Gathering children by parent in one pass gives each visible root with its visible children, in their order |
| `PublicCatalog.RootsSorted` | backend/app/services/catalog_service.py:148-149 | Roots are listed by (sort_order, slug) |
| `PublicCatalog.UnderSorted` | backend/app/services/catalog_service.py:144-147 | Children are listed by (sort_order, slug) |
| `PublicCatalog.RootsInOrder` | backend/app/services/catalog_service.py:142-149 | Of two roots in the public list the earlier has the lesser sort_order, or the same and the lesser slug |
| `PublicCatalog.ChildrenInOrder` | backend/app/services/catalog_service.py:142-149 | So has of two children of one root |
| `PublicCatalog.ListsEachActiveOnce` | backend/app/services/catalog_service.py:142-149 | The public list names each active category exactly once and nothing else, each under its own parent |
| `PublicCatalog.CheckHierarchy` | frontend/src/features/categories/schemas.ts:14-29 | The browser check accepts exactly the bounded lists with parentless roots, children naming their root, distinct slugs, and no child beyond place 500 |
| `PublicCatalog.PublishedIsAccepted` | frontend/src/features/categories/schemas.ts:16-29 | Whatever the catalog publishes passes the browser check |
| `SellerVerification.AttemptsStaySound` | backend/app/services/seller_verification_service.py:74-189 | After any run: at most one attempt of a user is not rejected; handwritten evidence was made for the current challenge while it was live; everything submitted was submitted in time with all three kinds; nobody reviewed an own attempt; an attempt under review or verified is the latest |
| `SellerVerification.StepKeepsSound` | backend/app/services/seller_verification_service.py:74-189 | Start, renewal, submission, upload and review each keep that invariant |
| `SellerVerification.VerifiedIsLatest` | backend/app/repositories/seller_verification_repository.py:24-37 | Some attempt is verified if and only if the latest attempt is verified |
| `SellerVerification.VerifiedForGood` | backend/app/services/seller_verification_service.py:74-189 | No run of requests takes a verification back |
| `SellerVerification.VerifiedExactlyBy` | backend/app/services/seller_verification_service.py:164-189 | A seller becomes verified if and only if another active administrator approves a submitted attempt of the reachable seller |
| `SellerVerification.CandidateIsVerified` | backend/app/services/seller_verification_service.py:74-189 | Whoever is reachable, has no open attempt, starts one after all earlier ones, uploads the three kinds and submits while the challenge lives, is verified by an approving administrator |
| `SellerVerification.OthersRejectedIffInOrder` | backend/app/repositories/seller_verification_repository.py:34-37 | After any run the attempts other than the latest are all rejected if and only if every start that passed the guard (contactable, no open attempt) came after all earlier attempts of its owner in (created_at, id) |
| `SellerVerification.StepOthers` | backend/app/services/seller_verification_service.py:77-85 | One request keeps the earlier attempts rejected exactly if it is not a start that passes the guard out of order |
| `SellerVerification.StuckForGood` | backend/app/services/seller_verification_service.py:77-106 | Once a draft lies behind a newer attempt no request ever changes the attempts of that user again, and the user is never verified |
| `SellerVerification.EarlierClockExample` | backend/app/services/seller_verification_service.py:77-85 | A run from the empty table (start, three uploads, submission, rejection, start) after which the new draft, created earlier by the clock, is hidden behind the rejected attempt |
| `SellerVerification.FindLatest` | backend/app/repositories/seller_verification_repository.py:34-37 | One pass finds the attempt with the greatest (created_at, id) |
| `SellerVerification.SellerVerificationService.Begin` | backend/app/services/seller_verification_service.py:77-85 | Starts a draft exactly when the latest attempt is absent or rejected and the unique slot is free |
| `SellerVerification.SellerVerificationService.RenewChallenge` | backend/app/services/seller_verification_service.py:86-97 | A renewed challenge removes the handwritten evidence of the old one |
| `SellerVerification.SellerVerificationService.SubmitDraft` | backend/app/services/seller_verification_service.py:98-106 | Submits exactly a pending latest draft with a live challenge and all three kinds |
| `SellerVerification.SellerVerificationService.AddEvidence` | backend/app/services/seller_verification_service.py:123-162 | Replaces or adds one kind; handwritten evidence needs the live current challenge |
| `SellerVerification.SellerVerificationService.ReviewAttempt` | backend/app/services/seller_verification_service.py:164-189 | A review needs a submitted complete attempt, a reachable owner and another active administrator |
| `Publication.EligibleIsVisible` | backend/app/services/product_service.py:29-34 | The seller check in Python and the seller part of the SQL predicate decide alike, although one reads the latest attempt and the other any |
| `Publication.PublishedExactlyIfVisible` | backend/app/services/product_service.py:106-135 | A publication succeeds if and only if owner, state and fields allow it and the public predicate holds of the result; so a published listing is visible |
| `Publication.VisibleIsShort` | backend/app/repositories/product_visibility.py:17-31 | In every sound market the predicate is equivalent to: published, seller reachable, latest attempt verified, onboarding completed, city active, category active |
| `Publication.MarketStaysSound` | backend/app/services/product_service.py:57-135 | From the empty marketplace every run of verification, catalog, profile and listing steps keeps all invariants together |
| `Publication.StepSettles` | backend/app/services/product_service.py:87-135 | An archived listing never changes and a first publication time never moves |
| `Publication.HiddenExactlyBy` | backend/app/repositories/product_visibility.py:17-31 | A visible listing is visible after a step if and only if the step is not one of these, as a caller can tell beforehand: the seller made unreachable, required profile fields removed by an accepted edit, its city deactivated, its category deactivated while it has no active child, paused or archived by its seller; no verification request and no listing edit hides it |
| `Publication.StaysVisible` | backend/app/repositories/product_visibility.py:17-31 | A visible listing stays visible over every run without such a step |
| `Publication.CreateThenPublish` | backend/app/services/product_service.py:58-135 | Whoever can create a listing with valid fields can publish it at once, and it is then visible |
| `Publication.CreateExactly` | backend/app/services/product_service.py:58-67 | A draft is created if and only if the public rule accepts the seller and city and category are active |
| `Publication.EditExactly` | backend/app/services/product_service.py:87-103 | An edit is accepted if and only if the public rule accepts the seller, the listing is theirs and not archived, and the new city and category are active; it changes what it names and nothing else |
| `Publication.VerifiedSellerCanSell` | backend/app/services/profile_service.py:74-114 | Whatever the profile was before, a reachable verified seller who gives a name and an active city, completes onboarding and publishes a valid listing in an active category is seen by the public |
| `Publication.StatusChangesOnlyBy` | backend/app/services/product_service.py:106-135 | A listing changes its status only by a transition of its own active seller: only a pause from published leaves it paused, only an archiving leaves it archived |
| `Publication.PauseThenPublish` | backend/app/services/product_service.py:106-135 | Pausing takes a visible listing out of sight, and publishing it again restores the whole market, first publication time included |
| `Publication.ArchivedForGood` | backend/app/services/product_service.py:106-116 | An archived listing is invisible after every run |
| `Publication.MarketService.CheckEligible` | backend/app/core/authorization.py:32-40 | Computes eligibility from account, latest attempt and profile |
| `Publication.MarketService.Create` | backend/app/services/product_service.py:58-67 | Does exactly the creation step |
| `Publication.MarketService.Update` | backend/app/services/product_service.py:87-103 | Does exactly the edit step |
| `Publication.MarketService.MoveListing` | backend/app/services/product_service.py:106-135 | Does exactly the transition step, and a successful publication leaves the listing visible |
| `Publication.MarketService.UpdateProfile` | backend/app/services/profile_service.py:74-94 | Does exactly the profile step; a completed profile always has its required fields |
| `Publication.MarketService.FinishOnboarding` | backend/app/services/profile_service.py:96-114 | Does exactly the onboarding step |

## Left out

- HTTP routes, cookies, CORS, request validation, error texts and statuses, logging and audit rows: plumbing that decides nothing modelled here.
- Image decoding and re-encoding, `validate_dimensions` and the processing lock: library calls and one comparison; only the byte scanners and the bounded read carry a loop.
- File-system calls of the storage adapter: storage is a set of keys with an exclusive save that may fail cleanly or leave an object behind, and deletes that may fail.
- Reading image bytes and unreadable objects in the audit: an existence test that raises reports the row and changes nothing.
- SQL text, index hints and full-text matching: a query is its result; the text match is an arbitrary predicate.
- Cryptography, JWT access tokens, code generation and hashing: hashes and codes are values compared for equality.
- Argon2 timing work for unknown users: it changes no state.
- InnoDB isolation and savepoints: transactions are serial.
- Registration beyond creating an account, phone verification, favorites, evidence storage and download tickets, messages, deals: thinner copies of modelled parts, or placeholders in the repository.
- Cities: an id with an active flag; their capacity and names decide nothing modelled.
- Names and descriptions of categories, titles and texts of listings: the listing fields are one value with the validator as an arbitrary predicate.
- `Browse.BrowseOnce`, `HistoryPages.ListOnce`: the serialized card of a row is its key and id; the other columns are copied by the code unchanged.
- `Publication.Step`: setting a city or an account to any value over-approximates their administration.
- `Catalog.CategoryService.Update`: the fields that are copied without a rule are represented by the sort order.
