# TiKit: a verified model of its shared-state protocols

TiKit is a ticketing backend for schools: NestJS services over a Postgres database (through Prisma) and Redis. This
project models the parts of it where several requests meet over the same rows, where time decides what is allowed, and
where a fast form (a cache, a page loop, a cleaned table) stands in for a simple one. It is written in Dafny 4.11;
`dafny verify dfyconfig.toml` checks all of it.

| files | subject |
|---|---|
| `TicketTables`, `TicketRuns`, `TicketSafety`, `TicketRules`, `TicketFlags`, `ClaimRace`, `TicketServices` | ticket inventory, who gets a ticket and who gets in, sold-out flags, vouchers, check-in and scanning; claims and scans split into their database statements and interleaved |
| `Lockout`, `PhoneOtp`, `EmailChange`, `Sessions` | login lockout, phone codes, the four-step address change, refresh tokens and password resets with their clean-up jobs, each by itself |
| `AuthRuns`, `AuthResets`, `AuthService`, `AuthRaces` | all authentication calls and the re-hashes that logins leave running interleaved in one run, the service that makes them, and refreshes and logins split into what they read and write |
| `Throttler` | the Redis rate limiter |
| `CardCodes`, `CardServices` | the pool of card codes |
| `CampaignLock`, `CampaignQuotas`, `CampaignSend`, `CampaignServices` | campaign dispatch, quotas, and the paged send loop |
| `Posts`, `PostCache`, `PostServices` | polls, the per-user vote overlay, the shared post cache |
| `Prelude` | options, results, rounding, counting |

How the pieces fit: each subject has a specification on values (tables as maps, calls as functions, runs as sequences of
calls or statements), about which the theorems are stated over all runs; and the services themselves as classes whose
methods are proved, statement by statement, to do what the specification says. For each call a lemma named for what
decides it (`ConfirmationDecides`, `LookDecides`, ...) states in terms of the rows alone exactly when the call succeeds and
what it leaves behind. Time is an integer number of milliseconds.
Random draws, matches of one-time codes, delivery, queue and cache availability, and the order in which the database
returns unordered rows are parameters, so every theorem holds for all of them. (A match of a code may come from the fixed
codes `12345` and `123456` that src/auth/auth.service.ts:504, 716 and 903 accept besides the one sent: the bounds on wrong
guesses hold regardless, but such a code is a right one.) New ids and tokens are assumed new. A digest is an injective
function, and a password comparison succeeds exactly for the password stored.

Where code and intent part ways, the code is modelled and the gap is stated exactly:

- `cancelTicket` and `cancelRsvp` accept a ticket that is already void and give its seat back a second time. Seats are
  conserved up to exactly one extra seat per such call (`TicketSafety.SeatsOverRun`, `TicketSafety.CancelTwiceAddsSeat`).
- A scan that went through answers VOID exactly if the ticket is voided between its update and its read-back
  (`TicketSafety.ReplyTellsVoid`, `TicketSafety.EveryScanCanAnswerVoid`).
- A scan looks at its event once, before its update: an event called off in between does not stop it
  (`TicketRules.AdmittedAfterCalledOff`).
- `redeem` does not look at `isSoldOut`: it issues from a type that is not open exactly when the type was flagged with
  seats left, which only a mark by hand brings about (`TicketFlags.RedeemGap`, `TicketFlags.RedeemFromClosedType`,
  `TicketFlags.FlagsOverRun`). A type so closed is opened again by the next returned seat (`TicketFlags.ClosedTypeStep`).
- `activateCard` has no "already have this card" check and no owner check. It gives its caller a second code of one card
  exactly when the code can be activated and the caller holds another (`CardCodes.ActivateKeepsOneExactly`), and takes an
  unused code from its holder exactly when somebody else activates it (`CardCodes.HolderLosesExactly`).
- A school without a quota record is unlimited until its first charged campaign creates a record that grants nothing.
  From then on a campaign of it is started exactly by callers that had checked it before the charge
  (`CampaignQuotas.FirstChargeEndsUnlimited`), and that does happen (`CampaignQuotas.StartedOnSpentQuota`).
- The quota is checked when a campaign is triggered and charged when its send has ended, so usage can exceed the grant: by
  less than one audience for every campaign under way when the quota runs out (`CampaignQuotas.OverdrawnBy`), a bound that
  is met (`CampaignQuotas.OverdraftIsReached`).
- The send loop goes on without a gap exactly while the user under its cursor matches or nobody is left. If that user stops
  matching, the next one is skipped; if that user's row is deleted, the loop ends and everybody left is dropped
  (`CampaignSend.PageAfterChange`; that Prisma pages from the cursor's row, and finds nothing without it, is taken from
  its documentation).
- `deleteComment` and the job that publishes scheduled posts leave the cached post as it is. A cached post overstates its
  comments by exactly those of its own deleted since it was read, shows a schedule the post no longer has exactly if it was
  published since, and is today's exactly if neither happened (`PostCache.SinglePostAccount`); a deletion, or a run of the
  job, puts the cache out of step exactly if its post, or one that is due, is cached (`PostCache.DeleteCommentExactly`,
  `PostCache.PublishExactly`).
- A login that meets a hash of cost above 10 re-hashes the password after it has answered and writes the result without
  looking again. Such a write undoes a password reset exactly when it was started before the reset, is of another password,
  and lands after it (`AuthRuns.ResetUndoneByRehash`, `AuthRuns.ResetCanBeUndone`).
- A reset revokes the sessions that have been issued. One whose refresh or login was checked before it and is issued after
  it stays live, exactly then (`AuthRaces.LiveAfterResetExactly`, `AuthRaces.SessionsSurviveReset`).
- One set of columns holds the code for either address. `verifyCurrentEmailOtp` has checked a code sent to the address on
  record exactly if no `setNewEmail` has succeeded since the request (`EmailChange.VerifiedAddress`); otherwise the code
  went to the new address, and it renews the change token (`EmailChange.NewAddressCodeRenewsToken`).
- `refresh` reads and writes without a transaction: two refreshes of one token both get a pair exactly if both are between
  check and revocation at once (`AuthRaces.TwoPairsExactlyByOverlap`). Overlapping logins lose failures: the counter equals
  the failures acted on exactly if every write found it where its login had read it (`AuthRaces.CountedOverRun`), and two
  logins in flight are enough to have eight wrong passwords compared without a lock (`AuthRaces.LateWriteForgets`). With m
  in flight C(m + 4, 4) + m - 1 can be compared before the first lock, and no more (`AuthRaces.MostIsReached`,
  `AuthRaces.MostComparedBeforeLock`).
- In the throttler's Redis names the counter of a key `block:k` is the block of `k` (`Throttler.OtherBucket`). It does not
  matter in this deployment: the guard of src/app.module.ts:159 makes keys that are hexadecimal digests, which never
  clash (`Throttler.DigestsAreSeparate`).
- PROJECT_CONTEXT.md describes a `hostSchoolFreeQuota`; the schema has none and the code turns every claim on an external
  event down, which is what is modelled.

## Model
| member | source | states |
|---|---|---|
| TicketRuns.StepKeepsInv | src/tickets/tickets.service.ts:31-206 | every statement of every claim and scan, and every whole call, marks by hand included, keeps the invariant: one ticket per user and event, counters never negative, a row lock per open reservation, at most one successful scan per ticket; and no ticket moves back in status, changes hands or loses its check-in time |
| TicketSafety.RunKeepsInv | prisma/schema.prisma:252-274 | the invariant, including the unique (user, event) pair, holds after every interleaving |
| TicketSafety.SeatsAreCommitted | src/tickets/tickets.service.ts:74-118 | free seats as the lock holder sees them plus open reservations plus consumed tickets equal the committed counter plus consumed tickets |
| TicketSafety.SeatsOverRun | src/tickets/tickets.service.ts:74-206 | over every interleaving, seats free, reserved and consumed change by exactly the number of cancellations of void tickets; the counter stays non-negative and no user has two tickets for an event |
| TicketSafety.RollbackReturnsSeat | src/tickets/tickets.service.ts:99-118 | a claim that fails after its reservation, on the unique constraint or otherwise, gives exactly its seat back, and the type is open again |
| TicketSafety.CancelTwiceAddsSeat | src/tickets/tickets.service.ts:169-192 | an event with one type of one seat, created, claimed and cancelled twice, has two seats left, both cancellations answered with success |
| TicketSafety.SoldFigureCountsConsumed | src/events/events.service.ts:384-391 | after every run from balanced types, total minus remaining over the types shown counts exactly the consumed tickets, less one per cancelled void ticket |
| TicketSafety.CreatedTypesBalance | src/events/events.service.ts:748-779 | a type created on the way of any run ends with free, reserved and consumed seats adding up to what was put on sale, plus one per cancelled void ticket; no assumption on its start is needed |
| TicketSafety.AdmissionOverRun | src/scanner/scanner.service.ts:28-107 | in every interleaving at most one scan of a ticket succeeds, none after a void, a cancel or a manual check-in, and the ticket keeps that scan's time |
| TicketSafety.NoAdmissionUnlessIssued | src/scanner/scanner.service.ts:72-92 | a scan that has not succeeded by the time a ticket leaves ISSUED never succeeds |
| TicketSafety.ScansStayPut | src/scanner/scanner.service.ts:72-107 | a scan keeps its ticket, and its success once it has one, through every later step |
| TicketSafety.ReplyTellsVoid | src/scanner/scanner.service.ts:92-107 | from its update on, a scan that has read back reports VOID exactly if the ticket was voided before the read-back, else CHECKED_IN; later events change nothing |
| TicketSafety.EveryScanCanAnswerVoid | src/scanner/scanner.service.ts:78-107 | from any state in which a scan has seen its ticket unused, an update, a void and the read-back make it answer VOID |
| TicketRules.EveryTicketWasDue | src/tickets/tickets.service.ts:31-118 | in every interleaving each new ticket was issued by a step with good grounds, to a known user without a ticket: a claim of a free type of an internal event, an RSVP by somebody who may attend of the first open type meant for the user, or a voucher for that type, unused, in date and the user's to redeem |
| TicketRules.EveryAdmissionAtTheDoor | src/scanner/scanner.service.ts:28-70 | in every interleaving, revisions of the event included, a scan that went through or verified had its first look while its event was not called off and not past its end and its ticket issued |
| TicketRules.AdmittedAfterCalledOff | src/scanner/scanner.service.ts:42-90 | an event called off between first look and update does not stop the scan |
| TicketRules.VerifyingAdmitsNobody | src/scanner/scanner.service.ts:66-72 | in every interleaving a scan that is only to verify never checks anybody in |
| TicketRules.LookDecides | src/scanner/scanner.service.ts:28-70 | the exact condition of passing the first look and of each refusal, from the ticket's and event's rows |
| TicketRules.ClaimDecides | src/tickets/tickets.service.ts:31-139 | a claim succeeds exactly for a free open type of an internal event by a known user without a ticket; then one ticket more, one seat less, closed at the last, and nothing else |
| TicketRules.RsvpDecides | src/events/events.service.ts:929-1053 | an RSVP succeeds exactly for who may attend (school and card gates), has no ticket and finds an open type meant for the user; it draws from the first such |
| TicketRules.RedeemDecides | src/vouchers/vouchers.service.ts:50-119 | a voucher is redeemed exactly if unused, in date, nobody else's, for an internal event with seats left, by a user without a ticket; it is then that user's |
| TicketRules.VoidDecides | src/tickets/tickets.service.ts:141-167 | voiding is refused exactly for a missing or void ticket; an unused ticket's seat goes back, a used one's does not |
| TicketRules.CancelDecides | src/tickets/tickets.service.ts:169-192 | cancelling is refused exactly without a ticket or after check-in; the seat goes back |
| TicketRules.CheckInDecides | src/tickets/tickets.service.ts:194-206 | a manual check-in succeeds exactly for an issued ticket and notes the time; each refusal's exact condition |
| TicketRules.CreationDecides | src/events/events.service.ts:748-778 | a new type starts open, with all its seats, last in its event's order, and free unless the event is external |
| TicketRules.MarkingDecides | src/events/events.service.ts:820-842 | a mark is refused exactly for a type of another event and writes the flag alone |
| TicketFlags.StepMovesRow | src/tickets/tickets.service.ts:83-106 | the exact new row of any type after any step: a seat taken, a seat returned, a mark, or nothing; seats are taken only while there are some, and by claim or RSVP only from open types |
| TicketFlags.FlagsOverRun | src/tickets/tickets.service.ts:99-106 | if sold out means no seats left at the start, and no seats left means sold out but for types put on sale with none, every run without a mark by hand keeps both |
| TicketFlags.ClosedTypeStep | src/events/events.service.ts:820-842 | a flagged type is opened exactly by a returned seat or a mark, and while flagged only vouchers draw from it |
| TicketFlags.RedeemGap | src/vouchers/vouchers.service.ts:76-92 | redemption issues from a type that is not open exactly when its checks pass and the type is flagged with seats left; never when the flag tells the truth |
| TicketFlags.RedeemFromClosedType | src/vouchers/vouchers.service.ts:76-92 | a type of two seats closed by hand turns a claim down and then lets a voucher through |
| TicketFlags.VoucherOverRun | src/vouchers/vouchers.service.ts:50-116 | in every interleaving a voucher issues at most one ticket, none if it was used, and stays used by the same user, who has a ticket for its event |
| ClaimRace.RaceOutcome | src/tickets/tickets.service.ts:83-106 | n distinct users racing for r seats: whatever the interleaving, min(n, r) win and hold the tickets, all others are told sold out, and the type closes exactly if its seats ran out |
| ClaimRace.NoDeadlock | src/tickets/tickets.service.ts:74-118 | while a claim is unfinished, some claim can move towards its end |
| ClaimRace.ClaimAlone | src/tickets/tickets.service.ts:31-139 | a claim's six statements without interruption are the claim in one piece, with the same tables and answer |
| TicketServices.Prisma.IssueAgainst | src/events/events.service.ts:1004-1046 | the transaction of the two reading-first issuing paths takes one seat, closes the type at zero and creates one ticket, or changes nothing |
| TicketServices.TicketsService.ClaimFreeTicket | src/tickets/tickets.service.ts:31-139 | run alone, the claim is its specification: refusals in order, seat, sold-out mark, ticket, and rollback; voiding, cancelling and manual check-in of the same class likewise |
| TicketServices.EventsService.FetchFreeTicket | src/events/events.service.ts:929-1053 | run alone, RSVP draws from the first open type the student may use, or is refused for the first failing reason; creating a type and marking it sold out of the same class likewise |
| TicketServices.VouchersService.Redeem | src/vouchers/vouchers.service.ts:50-119 | redemption issues against the voucher's type and uses the voucher up, or changes nothing |
| TicketServices.ScannerService.ScanTicket | src/scanner/scanner.service.ts:28-107 | alone, a scan succeeds exactly for an issued ticket of an event that is on record, not cancelled and not past its end; each refusal has its exact condition; success stamps the ticket and nothing else, verifying changes nothing; the figures are those after the scan |
| TicketServices.StatsAreConsistent | src/scanner/scanner.service.ts:186-204 | scanned and remaining add up to capacity, remaining counts issued tickets, the rate is the nearest whole percentage, between 0 and 100 |
| Lockout.GuardRemembers | src/auth/auth.service.ts:145-200 | after every history the two columns hold exactly the number of failures since the last success or reset, which the attempts' times and passwords alone define, and the end of the lock of the last one |
| Lockout.LoginDecides | src/auth/auth.service.ts:145-200 | after every history: closed by five or more failures, the latest less than a lockout old, an account turns every password down; otherwise the right password succeeds and opens the guard however many have failed, and a wrong one is one failure more |
| Lockout.LockoutBound | src/auth/auth.service.ts:145-200 | the k-th wrong password compared, k > 5, comes no sooner than (k-5) lockouts after the fifth; the counter outlives expired locks; a login is turned away uncompared exactly within a lockout of the latest failure |
| Lockout.GuessesAfterFifth | src/auth/auth.service.ts:64-65 | within a span of the fifth failure at most 5 + span / 15 min passwords are compared in vain |
| PhoneOtp.VerifiedExactly | src/auth/auth.service.ts:429-527 | over every run from a user who has not asked for a code the number ends up verified if and only if some call gave the right code within ten minutes of the latest code sent and after fewer than five wrong guesses at it, and then it is the number that code went to |
| PhoneOtp.VerificationDecides | src/auth/auth.service.ts:480-527 | a guess is compared exactly while an unverified number's code is on record, in date and tried less than five times; then the comparison decides |
| PhoneOtp.SendingDecides | src/auth/auth.service.ts:429-478 | a code goes out exactly to an unverified number that is given or known, a minute after the last one; the wait told is exact |
| PhoneOtp.OtpGuessBound | src/auth/auth.service.ts:429-527 | in every run of sendOtp and verifyOtp at most 5 * (1 + span / 60 s) wrong guesses are compared within span of the first code, and none before it |
| PhoneOtp.GuessesWithinBudget | src/auth/auth.service.ts:480-527 | from any state, the guesses left of the code in force plus five per further minute bound the wrong guesses to come |
| EmailChange.EmailChangeOrigin | src/auth/auth.service.ts:619-967 | in every run of the four steps an address changes only by its owner's confirmation with a right code, under a token issued to the owner against a right code at most 15 minutes before, to the address of the owner's latest setNewEmail, made under that token at most 10 minutes before |
| EmailChange.ConfirmationDecides | src/auth/auth.service.ts:841-967 | from the rows alone: with a good token, a pending address and a live code the right code changes the address exactly if it is free and empties the change, a wrong one costs an attempt and nothing else; each clash has its exact condition; in all other cases nobody's address changes |
| EmailChange.VerificationDecides | src/auth/auth.service.ts:680-758 | a change token is issued exactly for the right code while it is on record, in date and tried less than five times; it is good for fifteen minutes |
| EmailChange.RequestDecides | src/auth/auth.service.ts:619-677 | a request is refused exactly within a minute of the last code, with the exact wait, and else starts over |
| EmailChange.SubmissionDecides | src/auth/auth.service.ts:760-839 | a new address is taken exactly under a good token and if no live account has it |
| EmailChange.LoweringFolds | src/auth/auth.service.ts:797 | addresses are compared with ASCII capitals folded, all else kept; folding twice is folding once |
| EmailChange.OnlyForLiveAccounts | src/auth/auth.service.ts:619-967 | none of the four steps does anything for a missing or deleted account |
| EmailChange.VerifiedAddress | src/auth/auth.service.ts:679-839 | when verifyCurrentEmailOtp issues a token, the code it has checked was sent by the latest request, to the address on record, exactly if no setNewEmail succeeded since; else by a setNewEmail, to the new address |
| EmailChange.NewAddressCodeRenewsToken | src/auth/auth.service.ts:688-839 | a code that setNewEmail sent to the new address buys a change token for another fifteen minutes |
| Sessions.CleanupIsInvisible | src/auth/auth.cleanup.service.ts:16-45 | a run with clean-up jobs at arbitrary moments and the same run without them, registrations and address changes among the calls, answer every refresh, logout, forgot-password and reset-password alike |
| Sessions.DeadIsFinal | src/auth/auth.service.ts:353-402 | a refresh token once revoked or expired is never honoured again, with clean-up jobs at arbitrary moments |
| Sessions.SessionEnds | src/auth/auth.service.ts:353-402 | after a successful refresh with a token, its logout, its owner's password reset or address change, that token never works again, whatever the clean-up jobs do |
| Sessions.LinkWorksExactly | src/auth/auth.service.ts:529-609 | over every run with clean-up jobs at arbitrary moments a reset changes a user's password if and only if its token is the user's latest link, not used yet, less than an hour old, and the account is live |
| Sessions.RefreshDecides | src/auth/auth.service.ts:353-394 | a refresh succeeds exactly with an unrevoked token in date of a live account, and swaps that token for the new one |
| Sessions.LogoutDecides | src/auth/auth.service.ts:396-402 | a logout answers always the same and ends just that session |
| Sessions.ForgotDecides | src/auth/auth.service.ts:529-569 | asking for a link answers the same whether the address is known or not, and sets the slot of its live account alone |
| AuthRuns.LockoutInService | src/auth/auth.service.ts:145-200 | in runs of all authentication calls the k-th wrong password compared for an account, k > 5, comes no sooner than (k-5) lockouts after the fifth; it is turned away exactly within a lockout of the latest failure; the minutes told are exact |
| AuthRuns.RightPasswordIsWelcome | src/auth/auth.service.ts:133-222 | in runs of all authentication calls a login to a live account is turned away exactly within a lockout of the latest of five or more failures; otherwise the password in force is always welcome and opens the guard, and any other is refused |
| AuthRuns.OtpBoundInService | src/auth/auth.service.ts:429-527 | in runs of all authentication calls an account is told "invalid code" at most 5 * (1 + span / 60 s) times within span of the first code |
| AuthRuns.PhoneVerifiedInService | src/auth/auth.service.ts:429-527 | the exact condition of VerifiedExactly, in runs of all authentication calls |
| AuthRuns.AddressChangeInService | src/auth/auth.service.ts:619-967 | in runs of all authentication calls an address changes only by the owner's timely confirmation, with the right code, of the latest setNewEmail under a token verified in time, which revokes all the owner's sessions |
| AuthRuns.ConfirmationInService | src/auth/auth.service.ts:841-967 | and the other way round, from the user rows alone: with everything in time the right code gives the account the pending address, if nobody has it, and ends all its sessions; a wrong code costs an attempt and nothing more |
| AuthRuns.AddressesStayUnique | src/auth/auth.service.ts:921-951 | no run leaves two accounts with one address, deleted ones included |
| AuthRuns.ResetUndoneByRehash | src/auth/auth.service.ts:176-194 | from a reset to the next, in runs of all calls and of the re-hashes logins leave running, the new password is in force except exactly when a re-hash of another one lands after the reset; every such re-hash was running before it |
| AuthRuns.ResetCanBeUndone | src/auth/auth.service.ts:176-194 | with calls that do not overlap: login on a hash of cost 12, reset, login with the new password, end of the first login's re-hash; the new session is live and the old password is back in force |
| AuthRuns.SessionsNeedThePassword | src/auth/auth.service.ts:133-609 | every live session goes back through rotations to an unlocked login of its owner with the password then in force, after the owner's latest reset and address change; that password is the one in force now except exactly when a re-hash of another one, running since before that login, has landed after it |
| AuthRuns.RefreshNeedsThePassword | src/auth/auth.service.ts:353-394 | whoever gets a refresh through has such a login behind the token, with the same account of the password now in force |
| AuthRuns.CleanupIsInvisibleToAll | src/auth/auth.cleanup.service.ts:16-45 | clean-up jobs at arbitrary moments change no answer of any authentication call |
| AuthResets.ResetLinkInService | src/auth/auth.service.ts:529-609 | in runs of all authentication calls a reset link works exactly if it is the account's latest, unused, less than an hour old and the account live; it puts the given password in force, opens the guard and ends every session |
| AuthRaces.TwoPairsExactlyByOverlap | src/auth/auth.service.ts:353-394 | with refreshes split into check, revocation and issue: two of them get a pair for one token if and only if at some moment both are between check and revocation |
| AuthRaces.BothCanPass | src/auth/auth.service.ts:353-381 | from any live token two refreshes can reach that overlap |
| AuthRaces.LiveExactly | src/auth/auth.service.ts:353-414 | with refreshes and logins split into check and issue, among logouts and resets: a session is live exactly if no step after its issue revoked it |
| AuthRaces.LiveAfterResetExactly | src/auth/auth.service.ts:583-606 | a session not revoked otherwise is live after its owner's reset exactly if its issue comes after the reset's revocation |
| AuthRaces.SessionsSurviveReset | src/auth/auth.service.ts:353-394 | a refresh checked and a login compared before a reset, and issued after it, leave two live sessions |
| AuthRaces.CountedOverRun | src/auth/auth.service.ts:161-174 | in every interleaving of wrong logins the counter is at most the failures acted on, and equal to them exactly if every write found it where its login had read it |
| AuthRaces.LoginAlone | src/auth/auth.service.ts:145-174 | with nothing in between, a login's read and write are the lockout step |
| AuthRaces.LateWriteForgets | src/auth/auth.service.ts:161-174 | with two logins in flight eight wrong passwords are compared and the account is still open |
| AuthRaces.MostComparedBeforeLock | src/auth/auth.service.ts:145-174 | in every interleaving of login reads and writes with at most m in flight, at most C(m + 4, 4) + m - 1 wrong passwords are compared before the account is first locked |
| AuthRaces.MostIsReached | src/auth/auth.service.ts:145-174 | for every m > 0 an interleaving reaches that number |
| AuthService.AuthService.ConfirmNewEmail | src/auth/auth.service.ts:841-967 | over the real tables the last step of an address change, with all its checks, the race guard and the revocation, is one call of AuthRuns; and so is every other method of the class |
| Throttler.RateBound | src/common/throttler/redis-throttler.storage.ts:44-85 | from any counter, one without expiry included, any closed span T lets fewer than limit * (floor(T / ttl) + 2) requests through, and a span of one ttl fewer than 2 * limit; a limit of zero or less lets none through |
| Throttler.RateBoundIsReached | src/common/throttler/redis-throttler.storage.ts:58-72 | for every limit and ttl, 2 * limit - 1 requests within one ttl do get through |
| Throttler.RequestDecides | src/common/throttler/redis-throttler.storage.ts:44-85 | one request: refused unchanged in a hard block, otherwise counted in its window and refused exactly over the limit, which starts the block; the reply's count and waits are exact |
| Throttler.RefusedOnlyAtLimit | src/common/throttler/redis-throttler.storage.ts:58-76 | outside a hard block a request is refused only if limit requests were let through in the ttl before it |
| Throttler.CounterTellsAdmissions | src/common/throttler/redis-throttler.storage.ts:58-72 | after every run the counter is, up to the limit, the number let through in its window, and nothing was let through after that window |
| Throttler.WindowIsNeverExtended | src/common/throttler/redis-throttler.storage.ts:65-72 | no request inside a window moves its end; without blocks each is counted once |
| Throttler.BlockRefusesAll | src/common/throttler/redis-throttler.storage.ts:45-55 | until a hard block ends, all requests are refused and leave counter, window and block as they were |
| Throttler.BlockLastsItsDuration | src/common/throttler/redis-throttler.storage.ts:44-80 | after a refused request nothing is let through or counted for exactly blockDuration, however many requests come |
| Throttler.OtherBucket | src/common/throttler/redis-throttler.storage.ts:41-42 | a request leaves another key's counter and block alone unless one key is block: and the other, and then it blocks it |
| Throttler.KeysAreIndependent | src/common/throttler/redis-throttler.storage.ts:34-86 | in a run over many keys, each key's counter and admissions are those of its own requests alone |
| Throttler.DigestsAreSeparate | src/app.module.ts:157-162 | keys that are hexadecimal digests never clash |
| Throttler.RateBoundPerKey | src/common/throttler/redis-throttler.storage.ts:34-86 | the rate bound holds for each key of a run over many |
| Throttler.RedisThrottlerStorage.Increment | src/common/throttler/redis-throttler.storage.ts:34-86 | command by command, one increment is one step on the two Redis keys of its throttled key, and touches no other |
| CardCodes.LengthCheck | src/users/users.service.ts:541-548 | comparing the two lengths holds exactly when every id names a user and none is repeated |
| CardCodes.AllocateServes | src/users/users.service.ts:601-635 | the loop fails exactly when the pool is smaller than the demand, and otherwise gives each user one free code, no two the same, and changes no other row |
| CardCodes.AssignAllOrNothing | src/users/users.service.ts:533-690 | assignment succeeds exactly when ids are distinct users of the card's school and the pool covers those without a code; then all hold one, counts add up, the pool shrinks by the number served; else nothing changes; the mid-loop exhaustion error of batch mode never occurs |
| CardCodes.ModesAgree | src/users/users.service.ts:561-690 | batch and individual mode accept the same inputs with the same answer and leave the same table |
| CardCodes.RunKeepsOneCodeEach | src/cards/cards.service.ts:239-310 | over every run of generate, assign, claim and remove no user holds two codes of one card |
| CardCodes.ActivateKeepsOneExactly | src/wallet/wallet.service.ts:154-180 | activating keeps one code each exactly unless the code can be activated (unused, card open and valid, caller known) and the caller holds another code of the card |
| CardCodes.ActivateMakesSecond | src/wallet/wallet.service.ts:154-180 | a concrete activation, of codes as they are generated, after which a student holds two codes of one card |
| CardCodes.UsedCodeKeepsOwner | src/users/users.service.ts:306-311 | over every run, activation included, a used code keeps owner and time of use until that owner is removed, which frees it |
| CardCodes.HolderLosesExactly | src/wallet/wallet.service.ts:154-180 | a holder loses a code exactly when removed, or when somebody else activates it unused |
| CardCodes.HolderKeepsCode | src/users/users.service.ts:306-311 | through every run a code, used or not, stays with its holder until such a call |
| CardCodes.GeneratedCodesAreClaimable | src/cards/cards.service.ts:47-68 | right after generation any of the codes can be claimed by a student exactly if of the card's school and without a code of the card |
| CardCodes.PoolAccounts | src/cards/cards.service.ts:47-68 | after every run without activation a card's free codes and its holders add up to all codes it ever got |
| CardCodes.EveryCodeWasDue | src/cards/cards.service.ts:239-310 | in every run whoever has come to hold a code was given it on good grounds: an assignment of a free code among distinct students of the card's school who held none, a claim by a student of the card's school without another, or an activation of an unused code of an open, valid card |
| CardCodes.ClaimDecides | src/cards/cards.service.ts:239-310 | a claim succeeds exactly in valid form, for a free or own unused code of a card of the own school, held no other; it uses the code and activates the student |
| CardCodes.ActivateDecides | src/wallet/wallet.service.ts:154-180 | an activation succeeds exactly for an unused code of a card neither blocked nor expired, and uses the code |
| CardCodes.GenerateDecides | src/cards/cards.service.ts:47-68 | all codes are added, free, exactly if the card exists and none is repeated or taken; else none |
| CardCodes.RemovalDecides | src/users/users.service.ts:302-325 | a removal takes the account and frees exactly its codes |
| CardCodes.ValidCodesAreFormatted | src/common/utils/code-generator.ts:4 | a code is valid exactly if it is twelve decimal digits in four groups with dashes between |
| CardServices.Prisma.AssignEach | src/users/users.service.ts:601-635 | the transaction's loop is the specified allocation, with rollback |
| CardServices.UsersService.AssignCards | src/users/users.service.ts:533-690 | over the tables it is the specified assignment; the release of codes in remove likewise |
| CardServices.CardsService.GenerateCodes | src/cards/cards.service.ts:47-68 | count codes of valid format are created, or none; claiming, of the same class, is the specified claim |
| CardServices.WalletService.ActivateCard | src/wallet/wallet.service.ts:154-180 | the method over the tables is the specified activation |
| CampaignLock.OneJobPerCampaign | src/campaigns/campaigns.service.ts:139-162 | under every interleaving of triggers, ticks, workers and deletions at most one job is ever queued per campaign; once locked, exactly one is queued, unless it was lost to the queue or the campaign deleted |
| CampaignLock.FreshStart | src/campaigns/campaigns.service.ts:105-165 | a system with open campaigns only and no jobs or callers is a start those results apply to |
| CampaignLock.NeverReopens | src/campaigns/campaigns.service.ts:139-150 | a campaign that left draft and scheduled never returns to them |
| CampaignLock.TriggerAlone | src/campaigns/campaigns.service.ts:105-165 | a caller's read, lock and enqueue without interruption are one trigger, with the same refusals |
| CampaignLock.TickDispatchesAllDue | src/campaigns/campaign.scheduler.ts:15-47 | a tick alone locks exactly the due campaigns their schools can pay for and queues each once, whatever fails in between |
| CampaignLock.TriggerDecides | src/campaigns/campaigns.service.ts:105-165 | a trigger alone starts exactly a draft or scheduled campaign of a requester entitled to it, with quota left and the queue up; its job is then the last one queued |
| CampaignLock.FinishDecides | src/campaigns/campaigns.service.ts:259-303 | a send leaves the campaign sent exactly if its pages went through and no due charge failed, else failed; its count is set exactly if the pages went through; the school is charged exactly if due; nothing else changes |
| CampaignQuotas.FirstChargeEndsUnlimited | src/communication/communication-usage.service.ts:20-52 | for a school without a record the quota turns no trigger down before its first charged campaign; afterwards, at any step of any run, a metered campaign of it is started exactly if it is still draft or scheduled and the step is the first attempt since of a caller whose checks were behind it at the charge |
| CampaignQuotas.StartsOnSpentQuota | src/campaigns/campaigns.service.ts:130-150 | the same from any moment at which a school's quota for a channel is spent |
| CampaignQuotas.StartedOnSpentQuota | src/campaigns/campaigns.service.ts:130-150 | a run in which a campaign charged between another's quota check and lock does not stop that other one |
| CampaignQuotas.UsageIsWhatWasCharged | src/campaigns/campaigns.service.ts:260-290 | over every stretch of every run a school's usage grows by exactly the totals of the sends charged to it |
| CampaignQuotas.OverdrawnBy | src/communication/communication-usage.service.ts:20-52 | in any run in which each job runs once, usage stays below the grant plus one audience for each of the school's campaigns on the channel under way at the step that spends the quota; all charges from then on are for those |
| CampaignQuotas.OverdraftIsReached | src/communication/communication-usage.service.ts:20-52 | for every grant, audience and number of campaigns under way a run meets that bound |
| CampaignSend.SelectedIsExact | src/campaigns/campaigns.service.ts:231-252 | one unpaged query is every matching user once, in id order |
| CampaignSend.OnlyConsentingAreReached | src/campaigns/campaigns.service.ts:169-262 | a campaign reaches only users of the table who are not deleted and opted in to its channel, each once; exactly those its filters describe unless a filter asks for users who opted out |
| CampaignSend.FiltersAddUp | src/campaigns/campaigns.service.ts:169-222 | without filters everybody not deleted matches, and each filter set narrows that by exactly its own condition |
| CampaignSend.DeliveredCounts | src/campaigns/campaigns.service.ts:306-352 | the total sent is the number of users the channel reaches and whose delivery succeeds |
| CampaignSend.PageFollows | src/campaigns/campaigns.service.ts:243-252 | with the previous page's last user as cursor the next page is the next hundred of the unpaged query, for any table size |
| CampaignSend.PageAfterChange | src/campaigns/campaigns.service.ts:243-252 | over a changed table the next page continues without a gap exactly if the cursor's user still matches or nobody is left; it misses exactly the next user if the cursor's user is there without matching, and is empty, which ends the loop, if that user's row is gone |
| CampaignServices.CampaignsService.SendPages | src/campaigns/campaigns.service.ts:239-262 | the loop ends; unless a query fails it visits every matching user once in order, and its total is that of one unpaged pass; it breaks exactly if one of its queries fails |
| CampaignServices.CampaignsService.RunSend | src/campaigns/campaigns.service.ts:231-303 | the campaign ends sent exactly if no page query fails and no due charge fails, else failed; its count is the number reached by one unpaged pass if the loop completed, and unchanged if it broke; the school is charged that number exactly if due; other campaigns and jobs are unchanged |
| CampaignServices.CampaignScheduler.HandleScheduledCampaigns | src/campaigns/campaign.scheduler.ts:15-47 | the loop triggers every due campaign in turn, whatever became of the ones before |
| Posts.PollPercentages | src/posts/posts.service.ts:35-54 | each percentage is in 0..100 and monotone in votes, they sum to 100 within half a point per option, and are all 0 without votes |
| Posts.PercentagesCanMissByHalfPerOption | src/posts/posts.service.ts:45-54 | the bound on the sum is reached |
| Posts.TotalIsVoters | src/posts/posts.service.ts:35-39 | a poll's total is the number of distinct users who voted on it |
| Posts.ViewIsExact | src/posts/posts.service.ts:19-76 | the one view with the post's columns and counts, a poll part exactly for polls, in it the reader's own vote, the total, each option's votes and nearest percentage, and expired exactly past the expiry, is what formatPost makes |
| Posts.VotesAmongIsDirect | src/posts/posts.service.ts:377-388 | searching a user's votes among a shared post's options finds exactly that user's own vote on that post |
| PostCache.AnswersAreRecent | src/cache/cache-keys.ts:3-11 | whatever is written and whichever deletions are lost, every answer is what the database held at a read of the same key no more than 30 s (feed) or 60 s (list, post) before |
| PostCache.CachedReadsAgree | src/posts/posts.service.ts:358-373 | when no deletion is lost, a cached post has the database's contents, likes and votes and at least its comments; pages and lists show existing posts with their contents and votes; the schedule lags only behind a publishing; without comment deletions and publishing a single-post read is the database's answer |
| PostCache.SinglePostAccount | src/posts/posts.service.ts:358-373 | when no deletion is lost, a single-post read was the database's answer no more than a minute before, its comments are today's plus those of this post deleted since, its schedule is today's unless the post was published since, and it is today's answer exactly if neither happened |
| PostCache.DeleteCommentExactly | src/posts/posts.service.ts:526-546 | deleting a comment puts the cache out of step exactly if its post is in the cache |
| PostCache.PublishExactly | src/scheduler/scheduler.service.ts:56-75 | a run of the publishing job puts the cache out of step exactly if a post that is due is in the cache |
| PostCache.StepKeepsCoherent | src/posts/posts.service.ts:483-613 | every read, write and run of the publishing job whose deletions succeed keeps all entries in agreement with the database, up to comments deleted and schedules cleared, and votes on options of their own post |
| PostCache.WriteChanges | src/posts/posts.service.ts:391-589 | every accepted write makes of every post exactly what it is for: a like more or less, a comment more or less, a vote more for one option, the new contents, a new post with nothing yet, or none; all other posts read the same |
| PostCache.NextReadShows | src/posts/posts.service.ts:358-589 | read your writes: after a write whose deletions succeed, comment deletions aside, the next read of its post by anybody, through the cache or past it, shows exactly that |
| PostServices.CacheService.DelByPattern | src/cache/cache.service.ts:68-89 | the scan loop deletes only keys with the prefix, and all of them unless a command fails |
| PostServices.PostsService.Overlay | src/posts/posts.service.ts:252-279 | the two lookup tables give for each post on the page exactly the user's own vote |
| PostServices.PostsService.GetFeed | src/posts/posts.service.ts:208-287 | every post of the shared page is shown with the database's contents and votes, its shared counts, and for a poll the reader's own vote, expiry and figures; lists likewise |
| PostServices.PostsService.FindOne | src/posts/posts.service.ts:358-389 | the same for one post, which is missing exactly if the database lacks it |
| PostServices.PostsService.Vote | src/posts/posts.service.ts:548-589 | a vote is taken exactly for an option of an unexpired poll that the user has not voted on, and the answer is the database's post with that vote as the user's own; likes and comments are the specified steps likewise |

## Left out
- Controllers, guards, DTO validation, modules, configuration, HTML pages, the WebSocket gateway: plumbing.
- E-mail, SMS, push, storage, password hashing and token signing: foreign calls. A send is an arbitrary success flag, a comparison an arbitrary boolean, a digest injective, a drawn token or id new.
- RSVP, redemption, voiding, cancelling and manual check-in at a finer grain than one step: they read first and write unconditionally, and interleaved inside they can lose seats. Only claims and scans are split.
- Concurrent calls on one account: each authentication call is one step at one instant, except in AuthRaces, which splits refreshes of one token, correct logins around a reset, and wrong logins to one account. The re-hash a login leaves running is a step of its own.
- Identification of a ticket by QR token, of a user by phone or username, and case folding beyond ASCII letters.
- Edits of events other than their end and cancellation (`update`, `publishEvent`, `respondToConnectionRequest`), and of cards (`pauseCard`, `blockCard`, `update`): who may attend and which cards are open are as the rows say at each call, and the runs keep them.
- `updateTicketType`, its counterpart for connected schools (src/events/events.service.ts:1232-1271) and the campaign `update`: administrative overrides that set counters or statuses to anything. `markTicketTypeSoldOut` is a step of the runs.
- Deletion of ticket types (src/events/events.service.ts:807-818 and 1273-1306).
- Allocations set by administrators (src/admin/admin.service.ts:123, src/schools/schools.service.ts:68, 214 and 717), which may grant quota or rewrite usage: the quota theorems speak of the stretches between them.
- Writers of accounts outside the authentication service: `PATCH /users/:id` (src/users/users.service.ts:154-172), which can change an address without a confirmation and without revoking sessions; `updateProfile` (src/users/users.service.ts:743-798), which can change the phone number; and the accounts schools create (src/schools/schools.service.ts:53, 352 and 703), which enter the runs as registrations with their own cost. The origin of address changes, the code bound and the session theorems are about runs of the authentication calls.
- User, school and event deletion, except for the release of card codes and the missing row under the send loop's cursor: they delete tickets without returning seats, and likes, comments, votes and posts without invalidating cached posts.
- `SchoolsService.assignCards`: it creates codes without looking at existing ones.
- Rate limiting while Redis is down (requests are let through) and within one `increment` at a finer grain than one step.
- Redis and Postgres beyond atomic commands, expiry, row locks, rollback and unique constraints; floating-point error: percentages are exact rationals, halves rounded up.
- Where clause, order and total of feed and list queries, author and school names inside posts: the query's answer is a parameter, and the cache theorems hold for every answer. Of a post's columns the type, body, schedule and expiry are modelled; `updatedAt` moves with an update or a publishing alone.
- Permission checks of post editing and comment deletion, and `create`, `update` and `remove` of posts as methods: they appear as steps of the cache runs only.
- Retries of a failed send job: `runSend` handles its own failures; a job that runs again would send and charge again, which CampaignQuotas.OverdrawnBy excludes.
- Class connections, segments, follow requests, CSV import, listings, event publishing and pinning.
- TicketSafety.SoldFigureCountsConsumed: speaks of the types shown to a viewer as any list of distinct types; how that list is chosen is not modelled.
- PostServices.PostsService.Vote: is stated for a reachable cache; its write half, CastVote, also for a cache that is down.
- CardCodes.ModesAgree: the refusals agree as refusals only; an oversized request is turned down with a different message in each mode.
