# Attendance engine: a verified model

A Dafny model of the attendance engine of this repository and of what surrounds it: recording
punches, correcting them through approval workflows, closing days nobody checked out of, settling
check-ins on granted holidays, and keeping payroll runs honest about the attendance they were
calculated from. Three smaller cores follow: the request rate limiter, the synchronisation of work
locations, and the rules of the data table.

## How it is laid out

| file | holds |
|---|---|
| `Common.dfy` | results and refusals, stable sorting, least members, strings |
| `Totals.dfy`, `PunchMoves.dfy`, `MissingCheckOut.dfy` | a day's punches: their minutes, moving them, adding a check-out |
| `Overtaking.dfy` | how far the minutes of a moved interval are off, and when not at all |
| `WallClock.dfy` | the instant of a wall-clock time, across clock changes |
| `Interleaving.dfy`, `StaleCorrections.dfy` | punches and approvals racing on one record, split at its row lock; a correction that reads before it |
| `Approvers.dfy`, `Policies.dfy`, `Payroll.dfy`, `HolidayConflict.dfy` | the parts the engine is made of |
| `Engine.dfy` | the whole as one state and one step function: every operation is a transaction |
| `RecordCache.dfy`, `AddedCheckOut.dfy`, `CorrectionMachine.dfy`, `HolidayMachine.dfy`, `Sweep.dfy` | what every operation keeps |
| `Outcomes.dfy` | when each operation is accepted, and every field of the rows it leaves, said without the engine's own functions |
| `Runs.dfy`, `Witnesses.dfy` | what holds in every state an organization can reach, and days on which a condition fails |
| `Services.dfy` | the services as methods that change rows in place, held to the engine |
| `Listing.dfy`, `RateLimit.dfy`, `WorkLocations.dfy`, `DataTable.dfy` | the smaller cores |

Time is integer milliseconds and a zone is a function from an instant to an offset. Rows are found
by integer ids handed out in order, records by employee and date. Each conflict message is one
constructor of `Reason`. A request brings the moment, the user, a branch filter and a directory of
memberships; permission checks, the geofence and the biometric check are inputs. A refused operation
rolls back.

## What turned out not to hold

- A correction totals the punches in their old order with new times, not as read back. On a day that
  reads as alternating it stores exactly `Overtaking.Miscount` minutes more (or, if negative, fewer)
  than its punches amount to, so the record agrees exactly when that is zero
  (`RecordCache.CorrectionAgreesExactly`). With the
  check-in left before the second one, up to three punches are never miscounted, and from four on a
  first check-out past the second check-in is, wherever the second interval counts a minute
  (`RecordCache.CorrectionAgreesUnlessOvertaking`). On a closed day of whole intervals it is a matter
  of fitting between the others (`RecordCache.CorrectionAgreesIfFitting`). Failing days:
  `PunchMoves.MovedPastNextIntervalMiscounts`, `Overtaking.CheckInMovedPastMiscounts`.
- A correction reads the punches before it holds any lock, so what commits in between is not in its
  totals (`StaleCorrections.StaleCorrectionLosesTheCheckOut`). The record then agrees exactly when the
  minutes missed are those the moves miscount (`StaleCorrections.StaleCorrectionExactly`): with moves
  that keep the order, when none are missed (`StaleCorrections.StoredMissesWhatCameBetween`), while
  an overtaking move can make up for them (`StaleCorrections.TwoErrorsCancel`).
- A request for a missing check-out looks at the last punch, its approval also at the first ones: on
  a day that reads a check-out before its first check-in, as a back-dated one does, the request is
  accepted and can never be applied (`Witnesses.BackDatedDayIsNeverClosed`, exactly when:
  `AddedCheckOut.ApplicableExactly`, `AddedCheckOut.RequestedCheckOutFinishes`).
- The sweep reads days by their OPEN status, not by their punches. An approved correction that
  changes no time takes that status from a day still left on its check-in
  (`Witnesses.CorrectedOpenDayIsNotRead`), which is then never proposed (exactly when:
  `Sweep.ProposedIfOpen`).
- Days can overlap where a date comes back, as it does when the clock is turned back across midnight
  (`MissingCheckOut.TurnedBackAcrossMidnightOverlaps`, exactly when:
  `MissingCheckOut.DaysNeverOverlapExactly`, `MissingCheckOut.DaysNeverOverlapInZone`).
- The final approval of a missing check-out does not lock the employee's other days. A check-in that
  commits there between its query and its write can be covered
  (`MissingCheckOut.CheckedInMeanwhileOverlaps`, exactly when:
  `MissingCheckOut.WrittenLaterStaysClear`); one that reads the clock after the approval did cannot
  (`MissingCheckOut.LaterClocksStayOut`).
- A punch for oneself reads the server clock before it waits for the record's lock, so two of them
  can be written against the order of their times (`Interleaving.ClockReadBeforeLockCanReorder`,
  exactly when: `Interleaving.CommitAlternatesExactly`).
- The guard on a missing check-out looks for later punches and so not for another day open since the
  same instant (`MissingCheckOut.TwinOpenOverlaps`, exactly when:
  `MissingCheckOut.AcceptedCheckOutStaysClear`).
- A correction that a punch raises for review has no policy and can never be decided
  (`CorrectionMachine.UnroutedCorrectionIsNeverDecided`).
- A draft payroll run can be advanced to CALCULATED without a calculation
  (`Payroll.DeclaredDraftIsNotCurrent`, exactly when: `Payroll.AdvanceKeepsCurrentExactly`).
- A policy that names one role, or one user, in two steps is refused as if the role did not exist
  (`Policies.AllFoundExactly`); asking the only default to step down succeeds and does nothing
  (`Policies.LastDefaultCannotStepDown`).
- Routing asks that a named approver belong to the branch, deciding does not
  (`Approvers.ResolvableExactly`).
- A general correction may carry a missing check-out for a day that has one pending
  (`Witnesses.SecondProposalIsAccepted`, exactly when: `Sweep.OneProposalKeptExactly`).
- The comment on `instantAtLocalTime` says two passes settle the hour either side of a clock change;
  in a skipped hour they miss by the jump (`WallClock.SkippedHourMissesByTheJump`) and with it
  sometimes the date (`WallClock.SkippedMidnightClosesTheDayBefore`, exactly when:
  `WallClock.SkippedHourKeepsItsDateExactly`).
- A sweep proposes the cutoff without asking whether it is possible, so on a day begun after the
  cutoff it raises a correction nobody can accept as it stands (`Witnesses.SweptBeforeTheCheckIn`,
  exactly when: `AddedCheckOut.SweptIsApplicableExactly`).
- A column holding both `null` and `undefined` has no consistent order (`DataTable.ComparableExactly`).

## Model

| member | source | states |
|---|---|---|
| `Totals.AttendanceTotals` | apps/api/src/modules/attendance/attendance-shared.ts:167-188 | the loop over a day's punches computes the specified fold, for every list, ordered or not |
| `Totals.TotalsMean` | apps/api/src/modules/attendance/attendance-shared.ts:183-187 | worked minutes are those of the alternating sublist the loop keeps, overtime is what exceeds the standard day and nothing else, and a day is complete exactly when it is closed and some minute was worked |
| `Totals.MinutesAreWhole` | apps/api/src/modules/attendance/attendance-shared.ts:178-180 | an interval counts its whole minutes of sixty seconds, and none if it ends before it begins |
| `Totals.OpenPunchIsScanState` | apps/api/src/modules/attendance/attendance-shared.ts:163-165 | for every list, well formed or not, looking at the last punch tells whether the fold ends with an interval open |
| `Totals.KeptAlternates` | apps/api/src/modules/attendance/attendance-shared.ts:173-182 | what the loop acts on always alternates from a check-in, and ends on the open one if there is one |
| `Totals.TotalsAreKeptPairs` | apps/api/src/modules/attendance/attendance-shared.ts:173-182 | the minutes of any list are the sum of the whole minutes of the in/out pairs it keeps |
| `Totals.KeptWhole` | apps/api/src/modules/attendance/attendance-shared.ts:173-182 | the loop ignores nothing exactly when the day alternates from a check-in |
| `Totals.WorkedWithinSpan` | apps/api/src/modules/attendance/attendance-shared.ts:175-181 | on a time-ordered day the minutes never exceed the floor of the first-to-last span and fall short of the exact time by less than a minute per interval |
| `Totals.AcceptedPunchAlternates` | apps/api/src/modules/attendance/attendance-punch.service.ts:195-204 | a punch that passes the interval rules keeps the day alternating exactly when it is not back-dated behind the day's last punch |
| `Totals.SingleSessionIsOneInterval` | apps/api/src/modules/attendance/attendance-punch.service.ts:205-213 | in single-session mode punching never takes an alternating day past one interval |
| `Totals.ClosingAddsInterval` | apps/api/src/modules/attendance/attendance-shared.ts:175-181 | a check-out on an open alternating day adds exactly the whole minutes of the new interval |
| `PunchMoves.CorrectionMovesFirstPunches` | apps/api/src/modules/attendance/attendance-shared.ts:203-226 | a correction moves the first check-in and first check-out in time order and nothing else, each at most once, and never leaves the effective check-out before the check-in |
| `PunchMoves.CorrectionRefused` | apps/api/src/modules/attendance/attendance-shared.ts:207-221 | exactly when corrected times are refused: unreadable, no punch to move, or reversed, counting the times that stay |
| `PunchMoves.CorrectionRefusedFor` | apps/api/src/modules/attendance/attendance-shared.ts:207-221 | what each refusal of corrected times says of the day |
| `PunchMoves.SingleIntervalCorrected` | apps/api/src/modules/attendance/attendance-corrections.service.ts:242-285 | a one-interval day stays ordered and its corrected total is exactly the floor of the corrected span |
| `PunchMoves.MovedListIsRereadListExactly` | apps/api/src/modules/attendance/attendance-corrections.service.ts:263-268 | for punches kept in time order the list a correction totals is the list a later read returns exactly when the moves keep the order |
| `PunchMoves.MoveKeepsOrderExactly` | apps/api/src/modules/attendance/attendance-corrections.service.ts:263-268 | on an alternating day the moves keep the order exactly when the first check-out does not pass the second check-in |
| `PunchMoves.OvertakenDay` | apps/api/src/modules/attendance/attendance-corrections.service.ts:263-273 | the failing family: a first check-out moved between the second check-in and check-out makes the record count the second interval on top of what its punches amount to |
| `PunchMoves.MovedPastNextIntervalMiscounts` | apps/api/src/modules/attendance/attendance-corrections.service.ts:263-273 | a concrete failing day: an accepted correction stores 120 minutes where the punches, read back, amount to 60 |
| `Overtaking.StoredBeyondReread` | apps/api/src/modules/attendance/attendance-corrections.service.ts:242-285 | on every alternating day, wherever the first check-in and check-out are moved, a correction stores exactly a closed-form number of minutes beyond what its punches, read back, amount to |
| `Overtaking.CheckOutMovedExactly` | apps/api/src/modules/attendance/attendance-corrections.service.ts:263-273 | with the check-in left before the second one a day of up to three punches is never miscounted; from four on the stored minutes are never too few, exceed by at least the second interval once the check-out passes the second check-in, and are right exactly when it does not if that interval counts a minute |
| `Overtaking.IntervalMovedExactly` | apps/api/src/modules/attendance/attendance-corrections.service.ts:263-273 | on a closed day of intervals of a minute or more the stored minutes are right exactly when the corrected interval fits between the others, wherever it went |
| `Overtaking.MovedBehindAllAgrees` | apps/api/src/modules/attendance/attendance-corrections.service.ts:263-273 | an interval moved behind all others of a closed day is counted alike, so overtaking alone is not what fails |
| `Overtaking.CheckInMovedPastMiscounts` | apps/api/src/modules/attendance/attendance-corrections.service.ts:263-273 | a check-in moved past the second one miscounts even a day of three punches: 10 minutes stored, 18 read back |
| `MissingCheckOut.ClearMeansDisjoint` | apps/api/src/modules/attendance/attendance-missing-checkout.ts:61-62 | the invariant kept below says exactly that closed intervals of different days are disjoint and no open check-in lies inside one |
| `MissingCheckOut.CheckOutAcceptedExactly` | apps/api/src/modules/attendance/attendance-missing-checkout.ts:45-63 | the guard with its query accepts a time exactly when it is after the open check-in, at most 1440 minutes after it, not in the future, and before every later punch of the employee on another day |
| `MissingCheckOut.CheckOutRefusedFor` | apps/api/src/modules/attendance/attendance-missing-checkout.ts:45-63 | what each refusal of a missing check-out says of the day and the time |
| `MissingCheckOut.AcceptedCheckOutClosesDay` | apps/api/src/modules/attendance/attendance-missing-checkout.ts:45-63 | an accepted check-out keeps the day alternating and sorted, closes it, and adds exactly the floor of the new interval, at most 1440 minutes |
| `MissingCheckOut.AcceptedCheckOutStaysClear` | apps/api/src/modules/attendance/attendance-corrections.service.ts:33-50 | an accepted check-out overlaps no other day of the employee, exactly when no other day stands open since the very same instant, the one punch the query does not see |
| `MissingCheckOut.TwinOpenOverlaps` | apps/api/src/modules/attendance/attendance-corrections.service.ts:39-49 | two days open since one instant: the guard accepts a check-out that covers the other check-in |
| `MissingCheckOut.WrittenLaterStaysClear` | apps/api/src/modules/attendance/attendance-corrections.service.ts:334-358 | the final approval locks its own record only: whatever punches the employee's other days gain between the guard's query and the write, the days stay disjoint exactly when none of them is a check-in inside the new interval and no day was open since the same instant |
| `MissingCheckOut.CheckedInMeanwhileOverlaps` | apps/api/src/modules/attendance/attendance-corrections.service.ts:39-48 | a check-in on the next day that commits in between: the guard accepted, and the check-out written covers it |
| `MissingCheckOut.DaysNeverOverlap` | apps/api/src/modules/attendance/attendance-corrections.service.ts:108-149 | over every run of an employee's own punches and accepted missing check-outs every day alternates and no two intervals overlap, in any calendar in which no date, once over, comes back |
| `MissingCheckOut.DaysNeverOverlapExactly` | apps/api/src/modules/attendance/attendance-punch.service.ts:124-126 | for every calendar whatever: all runs keep an employee's days disjoint if and only if no date comes back after another |
| `MissingCheckOut.DaysNeverOverlapInZone` | apps/api/src/modules/attendance/attendance-shared.ts:252-263 | in a zone with one clock change every run keeps the days disjoint exactly when the change does not turn the clock back across a local midnight |
| `MissingCheckOut.TurnedBackAcrossMidnightOverlaps` | apps/api/src/modules/attendance/attendance-punch.service.ts:124-126 | one such zone: turned back from half past midnight to half past eleven, three punches leave two days of which one covers the other |
| `AddedCheckOut.ApprovedCheckOutOverlapsNothing` | apps/api/src/modules/attendance/attendance-corrections.service.ts:319-368 | the final approval as a whole: the re-check under it keeps days sorted, alternating, disjoint, and stores exactly the old minutes plus the new interval |
| `AddedCheckOut.ApplicableExactly` | apps/api/src/modules/attendance/attendance-corrections.service.ts:241-262 | whatever the day holds, a pending missing check-out can be applied at a moment exactly when the guard, asked again then, accepts it and the day does not read a check-out before its first check-in, which the correction of times refuses although it corrects none |
| `AddedCheckOut.RequestedCheckOutFinishes` | apps/api/src/modules/attendance/attendance-corrections.service.ts:101-149 | a request accepted for a missing check-out can be carried to ACCEPTED at that moment by one approval per policy step exactly when the day reads no check-out before its first check-in, so always on an alternating day |
| `AddedCheckOut.SweptIsApplicableExactly` | apps/api/src/modules/attendance/attendance-auto-checkout.service.ts:183-224 | what a sweep proposes can be applied as it stands exactly when the day reads no check-out first and the cutoff is after the last check-in, within a day of it, and before the employee's later punches; the sweep does not ask |
| `Witnesses.SweptBeforeTheCheckIn` | apps/api/src/modules/attendance/attendance-auto-checkout.service.ts:215-223 | with the cutoff at 18:00 and a check-in at 20:00 the sweep raises a correction that cannot be applied |
| `Witnesses.BackDatedDayIsNeverClosed` | apps/api/src/modules/attendance/attendance-shared.ts:217-221 | after a check-out back-dated before the check-in the employee's request for a missing check-out is accepted, and at no moment can it be applied |
| `WallClock.ExistsUnlessSkipped` | apps/api/src/modules/attendance/attendance-auto-checkout.ts:36-42 | with at most one clock change nearby a wall-clock time exists at some instant exactly when it is not skipped |
| `WallClock.ExactOutsideGaps` | apps/api/src/modules/attendance/attendance-auto-checkout.ts:43-49 | with at most one clock change nearby the result shows exactly the time asked for whenever any instant does |
| `WallClock.RepeatedHourReading` | apps/api/src/modules/attendance/attendance-auto-checkout.ts:47-48 | in a repeated hour the result is one of the two readings, and which one |
| `WallClock.SkippedHourMissesByTheJump` | apps/api/src/modules/attendance/attendance-auto-checkout.ts:47-48 | in a skipped hour the result misses by exactly the size of the jump, and in which direction |
| `WallClock.ClosesOnItsOwnDate` | apps/api/src/modules/attendance/attendance-auto-checkout.ts:43-49 | outside a gap the local date of the result, as the punch path computes dates, is the date asked for |
| `WallClock.SkippedMidnightClosesTheDayBefore` | apps/api/src/modules/attendance/attendance-shared.ts:252-263 | inside a gap it need not be: a skipped half past midnight closes on the day before |
| `WallClock.SkippedHourKeepsItsDateExactly` | apps/api/src/modules/attendance/attendance-auto-checkout.ts:43-49 | in a skipped hour the result keeps its date exactly when missing by the jump does not carry it over a midnight |
| `WallClock.DatesMoveForwardExactly` | apps/api/src/modules/attendance/attendance-shared.ts:252-263 | with one clock change work dates never run backwards exactly when the change turns the clock back across no local midnight |
| `WallClock.WorkDateHoldsTheMoment` | apps/api/src/modules/attendance/attendance-shared.ts:252-263 | a moment lies in the twenty-four local hours of its work date |
| `WallClock.ClockTimeInMinutes` | apps/api/src/modules/attendance/attendance-auto-checkout.ts:36-49 | a wall-clock time counts minutes of sixty seconds from the first midnight of dates |
| `WallClock.TimesOfTheDayAreRead` | apps/api/src/modules/attendance/attendance-auto-checkout.ts:43-46 | times are read up to and including the midnight that ends the day, and nothing else is |
| `Interleaving.StepKeepsInvariant` | apps/api/src/modules/attendance/attendance-corrections.service.ts:316-368 | each step of a punch that is not back-dated, or of an approval, split at the row lock, keeps mutual exclusion, alternation, strict order, the stored totals, and one punch per committed transaction |
| `Interleaving.EveryInterleavingIsSound` | apps/api/src/modules/attendance/attendance-punch.service.ts:169-249 | over every interleaving without back-dated punches the day alternates strictly from a check-in and its stored summary is that of its punches |
| `Interleaving.NoCheckOutIsWrittenTwice` | apps/api/src/modules/attendance/attendance-corrections.service.ts:316-358 | over every interleaving, back-dated punches included, no two committed approvals ever wrote the same check-out time, however stale their proposals |
| `Interleaving.CloseIsLatest` | apps/api/src/modules/attendance/attendance-corrections.service.ts:334-354 | over any state of a race an approval about to commit is later than everything committed before it |
| `Interleaving.NoTimeIsWrittenTwice` | apps/api/src/modules/attendance/attendance-punch.service.ts:169-249 | without back-dated punches no two transactions of either kind wrote the same time |
| `Interleaving.StoredIsAlwaysReread` | apps/api/src/modules/attendance/attendance-punch.service.ts:230-249 | over every interleaving, back-dated punches included, the stored summary is that of the punches as they are read |
| `Interleaving.CommitAlternatesExactly` | apps/api/src/modules/attendance/attendance-punch.service.ts:122-123 | a commit keeps the day alternating exactly when its punch is not earlier than those it saw; an approval always does |
| `Interleaving.ClockReadBeforeLockCanReorder` | apps/api/src/modules/attendance/attendance-punch.service.ts:122-193 | the server clock alone does not ensure that: a check-out that read the clock before waiting for the lock is written ahead of the check-in it closes |
| `StaleCorrections.StaleCorrectionExactly` | apps/api/src/modules/attendance/attendance-corrections.service.ts:174-285 | a correction reads punches without a lock: whatever punches commit before it writes, the day with them alternating in strict time order, and wherever it moves the ones it read, what is stored plus what came in between exceeds what the punches amount to by exactly the closed-form miscount of the moved list, so the record agrees exactly when the two are equal |
| `StaleCorrections.StoredMissesWhatCameBetween` | apps/api/src/modules/attendance/attendance-corrections.service.ts:174-285 | while the moved punches and those that commit between the correction's read and its write are in order, ties included, the record ends short by exactly what came in between, so it agrees exactly when that closes no whole minute |
| `StaleCorrections.OnePunchBetween` | apps/api/src/modules/attendance/attendance-corrections.service.ts:174-285 | one accepted punch in between: after a check-in the record agrees exactly when the moves miscount nothing, after a check-out exactly when they miscount as many minutes as it closes |
| `StaleCorrections.StaleCorrectionLosesTheCheckOut` | apps/api/src/modules/attendance/attendance-corrections.service.ts:174-285 | a correction of the day's status alone, read before a check-out of sixty minutes and written after it, stores none of them |
| `StaleCorrections.TwoErrorsCancel` | apps/api/src/modules/attendance/attendance-corrections.service.ts:242-285 | losing minutes need not show: a correction that overtakes the open check-in and misses sixty minutes leaves a record that agrees |
| `Approvers.AssertResolvableApprovers` | apps/api/src/modules/approvals/approval-authorization.ts:77-157 | the loop returns the first step's refusal, and none exactly when every step resolves |
| `Approvers.ResolvableExactly` | apps/api/src/modules/approvals/approval-authorization.ts:33-75 | a step resolves exactly when somebody could approve it there and then and a named user also belongs to the branch, which the decision does not ask |
| `Approvers.MayApproveExactly` | apps/api/src/modules/approvals/approval-authorization.ts:33-75 | a decision is open exactly to the named user or manager if employed with a working account, or to a holder of the role from the moment its grant starts until it ends, everywhere or in that branch, but never to the requester |
| `Approvers.UnresolvedFor` | apps/api/src/modules/approvals/approval-authorization.ts:77-157 | routing refuses a step for exactly this reason, or not at all when somebody else is there for it, a named user by their own branch or an assignment begun and not ended |
| `Approvers.OnlyNamedUser` | apps/api/src/modules/approvals/approval-authorization.ts:45-59 | a manager or named-user step can be approved exactly when that one user exists, is active, and is not the requester |
| `Approvers.AnyHolder` | apps/api/src/modules/approvals/approval-authorization.ts:60-74 | a role step can be approved exactly when somebody but the requester holds the role now, everywhere or in that branch |
| `Approvers.RoutedStepsHaveApprovers` | apps/api/src/modules/approvals/approval-authorization.ts:77-157 | if routing accepts a step list, every step has somebody who may approve it |
| `Approvers.BranchMatters` | apps/api/src/modules/approvals/approval-authorization.ts:69-69 | the branch must be the same: a role held in one branch routes there and approves nothing elsewhere |
| `Policies.EveryEditKeepsOneDefault` | apps/api/src/modules/approvals/approvals.service.ts:42-307 | over every sequence of creates, updates, deactivations and reactivations a domain has at most one default, a default is active, and right after an accepted create, update or reactivation there is one |
| `Policies.CreateAcceptedExactly` | apps/api/src/modules/approvals/approvals.service.ts:42-105 | a policy is created exactly from steps whose numbers differ, each naming who its type calls for, everybody named existing and named once, under a code free in the domain; the first thing wrong is the refusal |
| `Policies.UpdateAcceptedExactly` | apps/api/src/modules/approvals/approvals.service.ts:121-197 | and updated exactly while active, to such steps if no approval refers to its present ones, and to a free code |
| `Policies.CreateGivesTheDefault` | apps/api/src/modules/approvals/approvals.service.ts:68-105 | a new policy is the default exactly if that was asked or the domain had none active, and then every other policy of the domain is not; otherwise the others are as they were |
| `Policies.UpdateGivesTheDefault` | apps/api/src/modules/approvals/approvals.service.ts:139-161 | asked to be the default a policy is; asked not to be, exactly if no other is; not asked, exactly if it was or no other is; then no other policy of the domain is the default, else the others are as they were; and its code is the one asked for |
| `Policies.SwitchingGivesTheDefault` | apps/api/src/modules/approvals/approvals.service.ts:234-307 | deactivating takes the default along, and a policy brought back is the default exactly for want of another |
| `Policies.CreateKeepsOneDefault` | apps/api/src/modules/approvals/approvals.service.ts:68-105 | creating keeps at most one default and leaves the domain with one |
| `Policies.UpdateKeepsOneDefault` | apps/api/src/modules/approvals/approvals.service.ts:139-161 | updating keeps at most one default and leaves the domain with one |
| `Policies.DeactivateKeepsOneDefault` | apps/api/src/modules/approvals/approvals.service.ts:242-245 | deactivating takes the default along, so a default is always active |
| `Policies.ReactivateKeepsOneDefault` | apps/api/src/modules/approvals/approvals.service.ts:270-293 | reactivating leaves the domain with exactly one default |
| `Policies.LastDefaultCannotStepDown` | apps/api/src/modules/approvals/approvals.service.ts:148-151 | an update asking the only default to step down is accepted and leaves it the default |
| `Policies.EditedStepsOnly` | apps/api/src/modules/approvals/approvals.service.ts:162-197 | an edit rewrites its own policy's steps or none, from a valid list, and never steps some approval refers to |
| `Policies.ChoiceIsChosen` | apps/api/src/modules/attendance/attendance-correction-create.ts:32-43 | the choice is the domain's default, or else its only active policy, or else none: a property of the table, not of the order read |
| `Policies.SamePolicyIsChosen` | apps/api/src/modules/attendance/attendance-holiday-review.service.ts:381-391 | correction routing and holiday review, each listing for itself in any order, choose the same policy or both find none |
| `Policies.AllFoundExactly` | apps/api/src/modules/approvals/approvals.service.ts:46-67 | the existence check passes exactly when every named role or user exists and none is named twice: naming one twice is always refused |
| `Policies.StoredStepsAscend` | apps/api/src/modules/approvals/approvals.service.ts:310-324 | accepted steps are read back in strictly ascending step number, each once, with distinct ids |
| `Policies.EachStepIsStored` | apps/api/src/modules/approvals/approvals.service.ts:93-101 | each input becomes one stored step with its number, approver type, role and user |
| `Policies.AcceptedStepsAreAddressed` | apps/api/src/modules/approvals/approvals.service.ts:310-324 | every stored step of an accepted policy names who its approver type calls for, and only roles and users that exist |
| `Payroll.MarkingCoversTheChange` | apps/api/src/modules/payroll/payroll-staleness.ts:22-42 | changing one day and marking its date leaves no calculated, unmarked run standing on other figures |
| `Payroll.AdvanceKeepsCurrentExactly` | apps/api/src/modules/payroll/payroll-calculation.ts:203-218 | advancing a run keeps every run current exactly when it does not declare a draft CALCULATED, which the transition table allows without calculating |
| `Payroll.AdvanceExactly` | apps/api/src/modules/payroll/payroll-calculation.ts:203-218 | a run moves exactly along eight named moves unless it is marked, and only its status changes |
| `Payroll.OfferedExactly` | packages/contracts/src/payroll.ts:272-288 | what is offered is the one move forward, and nothing while a calculation is stale |
| `Payroll.CalculateExactly` | apps/api/src/modules/payroll/payroll-calculation.service.ts:85-95 | a draft or a stale calculation can be calculated, and then holds exactly the days in its range as they are |
| `Payroll.MarkedExactly` | apps/api/src/modules/payroll/payroll-staleness.ts:22-42 | a change on one date marks exactly the calculated runs that cover it |
| `Payroll.DeclaredDraftIsNotCurrent` | apps/api/src/modules/payroll/payroll-calculation.ts:203-206 | a draft advanced to CALCULATED by hand stands on no attendance and is offered APPROVED |
| `Payroll.OfferedForApprovalIsCurrent` | packages/contracts/src/payroll.ts:272-288 | a run offered APPROVED was calculated from the present attendance |
| `HolidayConflict.LoadHolidayConflicts` | apps/api/src/modules/attendance/attendance-holiday-conflict.ts:137-189 | the nested loops compute the join of records and selections, latest day first; `HolidayConflict.LoadedExactly` says what is in it |
| `HolidayConflict.LoadedConflicts` | apps/api/src/modules/attendance/attendance-holiday-conflict.ts:137-189 | the join returns the pairs that show a conflict, ordered by day |
| `HolidayConflict.LoadedExactly` | apps/api/src/modules/attendance/attendance-holiday-conflict.ts:64-189 | a row is returned exactly for a record and a selection of one employee and one date, of an optional holiday, of which one of the four states' own conditions on status, punches and reviews holds, with the newest review that state speaks of; later days first |
| `HolidayConflict.OneConflictADay` | apps/api/src/modules/attendance/attendance-holiday-conflict.ts:137-189 | with one record and one selection per employee and date a record is shown at most once, for its own day |
| `HolidayConflict.AttachedReviewMatchesState` | apps/api/src/modules/attendance/attendance-holiday-conflict.ts:141-154 | the review attached is the one the state speaks of: pending while a decision is awaited, the decision itself once kept or converted |
| `RecordCache.PerformKeepsAgreement` | apps/api/src/modules/attendance/attendance-corrections.service.ts:263-285 | every operation keeps stored worked and overtime minutes equal to those of the time-ordered punches, and a rejected record at zero, if an approved correction miscounts nothing; one that moves nothing, keeps the order, ties included, or has a zero miscount does not |
| `RecordCache.AddedCheckOutIsReread` | apps/api/src/modules/attendance/attendance-corrections.service.ts:319-368 | adding a check-out totals the list a later read returns, whatever else the correction moved |
| `RecordCache.CorrectionAgreesUnlessOvertaking` | apps/api/src/modules/attendance/attendance-corrections.service.ts:263-285 | with the check-in left before the second one, the record agrees in minutes and overtime always on up to three punches, and from four on, if the second interval counts a minute, exactly when the first check-out does not pass the second check-in; the day need only read as alternating, in whatever order its rows were made |
| `RecordCache.CorrectedListIsRereadExactly` | apps/api/src/modules/attendance/attendance-corrections.service.ts:263-268 | for punches stored in time order a correction totals the very list a later read returns exactly when its moves keep the order |
| `RecordCache.CorrectionAgreesExactly` | apps/api/src/modules/attendance/attendance-corrections.service.ts:263-285 | on every day that reads as alternating, in whatever order its rows were made, the record an approved correction leaves agrees in minutes and overtime exactly when the closed-form miscount of its times is zero |
| `RecordCache.CorrectionAgreesIfFitting` | apps/api/src/modules/attendance/attendance-corrections.service.ts:263-285 | on a closed day of whole intervals, as read, the record agrees exactly when the corrected interval fits between the others |
| `RecordCache.DecideAgreesExactly` | apps/api/src/modules/attendance/attendance-corrections.service.ts:191-292 | a decision on a day that reads as alternating keeps all records in agreement exactly when it is not the last approval, adds a check-out, or miscounts nothing |
| `RecordCache.CompletedExactly` | apps/api/src/modules/attendance/attendance-punch.service.ts:240-245 | a punched record is COMPLETED exactly when the day is closed and some minute was worked, else OPEN |
| `RecordCache.PerformGrowsVersions` | apps/api/src/modules/attendance/attendance-punch.service.ts:186-247 | no operation loses a record or changes one without a newer version |
| `RecordCache.PerformKeepsPayrollCurrent` | apps/api/src/modules/payroll/payroll-staleness.ts:22-42 | staleness marking is complete: an operation keeps every unmarked calculated run on the present attendance exactly when it is not the advance of a draft to CALCULATED |
| `RecordCache.PerformKeepsRunRows` | apps/api/src/modules/payroll/payroll-runs.service.ts:240-265 | a draft run is never marked nor based on anything, under every operation |
| `Outcomes.PunchAcceptedExactly` | apps/api/src/modules/attendance/attendance-punch.service.ts:195-213 | a check-in is accepted exactly when nothing is open and, with one session a day, the day is not over; a check-out exactly when something is; neither with a status other work sets; and which refusal otherwise |
| `Outcomes.PunchWrites` | apps/api/src/modules/attendance/attendance-punch.service.ts:169-249 | a punch adds one row to its day; the day status and the branch are those named, else the record's own, else PRESENT and none; minutes, overtime, status and version are those of the day read again |
| `Outcomes.PunchLeaves` | apps/api/src/modules/attendance/attendance-punch.service.ts:169-275 | no other record changes, exactly the calculated runs over the date are marked, and only a punch to be reviewed raises a correction |
| `Outcomes.RoutedExactly` | apps/api/src/modules/attendance/attendance-correction-create.ts:32-58 | a correction can be routed exactly when the domain has a default or only one policy, there is a branch, the record's or else the request's, and every step has somebody there who may approve it |
| `Outcomes.RequestCorrectionExactly` | apps/api/src/modules/attendance/attendance-corrections.service.ts:66-99 | a general correction is raised exactly on a record the request sees that can be routed, as it was sent, and adds one undecided row |
| `Outcomes.RequestMissingCheckOutExactly` | apps/api/src/modules/attendance/attendance-corrections.service.ts:108-149 | a missing check-out is raised exactly when the record is seen, the time fits the day, none is pending and it can be routed, and adds one undecided row with that time |
| `Outcomes.AutoCloseExactly` | apps/api/src/modules/attendance/attendance-auto-checkout.service.ts:206-223 | the sweep raises one exactly when none is pending and it can be routed, whatever the time, with its own mark |
| `Outcomes.DecisionAcceptedExactly` | apps/api/src/modules/attendance/attendance-corrections.service.ts:174-262 | a decision is accepted exactly on an undecided correction the request sees, by a user its next step is open to, with a time only where one can be replaced, and as the last approval only if it can be applied with that time |
| `Outcomes.DecisionRefusedFor` | apps/api/src/modules/attendance/attendance-corrections.service.ts:174-216 | and which refusal a decision meets otherwise, before anything is applied |
| `Outcomes.DecisionLeaves` | apps/api/src/modules/attendance/attendance-corrections.service.ts:213-239 | a decision adds its approval; the snapshot keeps every key but the missing check-out, which becomes the approver's time if one was given and else stays; nothing else changes short of the last approval |
| `Outcomes.AcceptanceWrites` | apps/api/src/modules/attendance/attendance-corrections.service.ts:241-292 | the last approval writes the record CORRECTED, with the snapshot's day status if it has one, the first check-in and check-out where it puts them, a check-out added at its time, and minutes and overtime of the list it totals; no other record changes and the runs over the date are marked |
| `Outcomes.AcceptanceCloses` | apps/api/src/modules/attendance/attendance-corrections.service.ts:319-393 | after the last approval of a missing check-out that moves nothing the day reads as before with the check-out behind it, at the approver's time if one was given and else at the proposed one |
| `Outcomes.AppliesExactly` | apps/api/src/modules/attendance/attendance-corrections.service.ts:241-262 | a correction can be applied exactly when its times can be put where it says and the check-out it adds fits the day as it then reads |
| `Outcomes.ReviewAskedExactly` | apps/api/src/modules/attendance/attendance-holiday-review.service.ts:95-155 | a review is asked for exactly on a record the request sees that awaits a reason, is put first, pending, under whoever asked, and changes nothing else |
| `Outcomes.ReviewDecidedExactly` | apps/api/src/modules/attendance/attendance-holiday-review.service.ts:232-256 | a review is decided exactly while pending, on a record the request sees, by a user some step of the chosen policy is open to who did not ask for it; and which refusal otherwise |
| `Outcomes.ReviewLeaves` | apps/api/src/modules/attendance/attendance-holiday-review.service.ts:256-346 | keeping a holiday still granted rejects the record at no minutes, converting it withdraws the selection, both mark the runs over the date, and a holiday no longer granted only cancels the review |
| `Outcomes.PolicyEditExactly` | apps/api/src/modules/approvals/approvals.service.ts:42-307 | the engine's policy edits are the table's own, with every approval on record as history |
| `Outcomes.RunsMove` | apps/api/src/modules/payroll/payroll-calculation.service.ts:398-414 | calculating a run reads exactly the records' worked minutes, overtime and day status |
| `CorrectionMachine.PendingStepIsNext` | apps/api/src/modules/attendance/attendance-corrections.service.ts:196-201 | searching for an undecided step by id finds the one right after those decided |
| `CorrectionMachine.DecideSettlesNextStep` | apps/api/src/modules/attendance/attendance-corrections.service.ts:191-292 | a decision settles exactly the next step, one fewer is left, the record changes exactly when the last step is approved, and the employee never decides on their own |
| `CorrectionMachine.PerformKeepsMachine` | apps/api/src/modules/attendance/attendance-corrections.service.ts:191-240 | under every operation, policy edits included, a correction's approvals are a prefix of its policy's ascending steps, approved throughout while undecided, none by the employee |
| `CorrectionMachine.StepsWithHistoryStay` | apps/api/src/modules/approvals/approvals.service.ts:162-173 | a policy edit cannot change steps that some approval refers to |
| `CorrectionMachine.OthersLeaveCorrection` | apps/api/src/modules/attendance/attendance-correction-create.ts:59-71 | nothing but a decision on a correction changes it, and each starts undecided |
| `CorrectionMachine.CorrectionPolicyIsChosen` | apps/api/src/modules/attendance/attendance-correction-create.ts:32-43 | the policy the engine routes to is the one any listing of the active policies gives |
| `CorrectionMachine.CreatedIsRouted` | apps/api/src/modules/attendance/attendance-correction-create.ts:41-71 | a correction is created undecided under the chosen policy, every step of which has an approver in the record's branch |
| `CorrectionMachine.ApprovalGoesThroughExactly` | apps/api/src/modules/attendance/attendance-corrections.service.ts:202-240 | an authorized approval is accepted exactly when it is not the last or the correction can be applied; a rejection always is |
| `CorrectionMachine.RoutedCorrectionFinishes` | apps/api/src/modules/attendance/attendance-corrections.service.ts:191-292 | from any point, one approval per remaining step by somebody authorized ends with the correction accepted, exactly when what it asks for can be applied |
| `CorrectionMachine.CreatedCorrectionFinishes` | apps/api/src/modules/attendance/attendance-correction-create.ts:51-71 | whatever routing accepted can be carried through by approvals at that moment, exactly when what it asks for can be applied |
| `CorrectionMachine.BranchlessIsNeverRouted` | apps/api/src/modules/attendance/attendance-correction-create.ts:48-50 | no correction of a record without a branch is ever accepted: a branch filter does not find it, and without one there is no branch to route by |
| `CorrectionMachine.PerformKeepsBranches` | apps/api/src/modules/attendance/attendance-correction-create.ts:48-71 | every operation keeps a record's having a branch, and every correction under a policy on a record that has one, the sweep's context naming none |
| `HolidayMachine.ConflictIsShown` | apps/api/src/modules/attendance/attendance-holiday-conflict.ts:64-87 | the state derived from three tables is the one the labelled machine shows |
| `HolidayMachine.PerformRefines` | apps/api/src/modules/attendance/attendance-holiday-review.service.ts:95-346 | every operation moves every day's dispute exactly as one allowed event of the machine, and keeps the tables sound |
| `HolidayMachine.DaysMoveAsPromised` | apps/api/src/modules/attendance/attendance-holiday-conflict.ts:81-86 | asking, keeping, converting and later work move a day between the four states as documented, and nothing else does |
| `HolidayMachine.OnePendingReview` | apps/api/prisma/migrations/20260915120000_attendance_holiday_reviews/migration.sql:43-46 | a record has at most one pending review, and a rejected record none, without help from the unique index |
| `HolidayMachine.DecidedReviewsStay` | apps/api/src/modules/attendance/attendance-holiday-review.service.ts:245-256 | no operation touches a review once decided |
| `HolidayMachine.DecidedByAnother` | apps/api/src/modules/attendance/attendance-holiday-review.service.ts:393-429 | a review is decided by an approver of some step of the chosen policy, never by the employee nor by whoever asked for it |
| `HolidayMachine.ReviewRequestedExactly` | apps/api/src/modules/attendance/attendance-holiday-review.service.ts:115-124 | a review can be asked for exactly when the day can be seen and awaits a reason |
| `Sweep.SweepOnlyProposes` | apps/api/src/modules/attendance/attendance-auto-checkout.service.ts:40-51 | a sweep changes no punch, status, minutes, policy, selection, review or run and no existing correction; it raises exactly as many corrections as it counts closed, all undecided, on days left open |
| `Outcomes.SweepRaisesTheseOnly` | apps/api/src/modules/attendance/attendance-auto-checkout.service.ts:163-223 | every correction a sweep adds is on a day it read, left on its check-in and no night shift, whose cutoff has passed, under the chosen policy, asking for that cutoff with the sweep's mark |
| `Sweep.CountersCoverDueDays` | apps/api/src/modules/attendance/attendance-auto-checkout.service.ts:254-261 | the four counters add up to the due days whose last punch is a check-in |
| `Sweep.NightShiftsAreLeftAlone` | apps/api/src/modules/attendance/attendance-auto-checkout.service.ts:194-204 | due night-shift days are counted as such, each once, and no other day is |
| `Sweep.SkippedAndFailedCounted` | apps/api/src/modules/attendance/attendance-auto-checkout.service.ts:206-224 | for any list of days, those found with a check-out pending when reached are counted as pending, those with none that cannot be routed as failed, and no other |
| `Sweep.CountersReadOff` | apps/api/src/modules/attendance/attendance-auto-checkout.service.ts:163-224 | read once each, the days count as they stood before the sweep: pending, failed and closed are how many due day-shift days had a check-out pending, could not be routed, or could |
| `Sweep.NoFailureExactly` | apps/api/src/modules/attendance/attendance-auto-checkout.service.ts:174-177 | no day fails exactly when every due day-shift day read with nothing pending can be routed |
| `Sweep.ReadsABatch` | apps/api/src/modules/attendance/attendance-auto-checkout.service.ts:140-161 | a sweep reads at most 200 days, all OPEN, none more than three days old, oldest first, each once |
| `Sweep.EveryDueDayIsProposed` | apps/api/src/modules/attendance/attendance-auto-checkout.service.ts:140-181 | with at most 200 open days in the look-back window every due day-shift day left on its check-in whose status is OPEN and which can be routed has a check-out awaiting decision afterwards, whatever else fails |
| `Sweep.ProposedIfRead` | apps/api/src/modules/attendance/attendance-auto-checkout.service.ts:147-180 | however many days there are and whatever fails, a due day-shift day left on its check-in has a check-out pending afterwards exactly when it had one pending, or the query read it and it can be routed |
| `Sweep.ProposedIfOpen` | apps/api/src/modules/attendance/attendance-auto-checkout.service.ts:146-161 | with at most a batch of open days that is exactly when it had one pending, or its status is OPEN and it can be routed |
| `Witnesses.CorrectedOpenDayIsNotRead` | apps/api/src/modules/attendance/attendance-corrections.service.ts:275-285 | an approved correction that changes no time leaves a day on its check-in and takes its OPEN status, so no sweep reads it again |
| `Sweep.SecondSweepDoesNothing` | apps/api/src/modules/attendance/attendance-auto-checkout.service.ts:206-213 | a second sweep at that moment over any of the same days, in any order, raises nothing and changes nothing, failures or not |
| `Sweep.RereadSweepDoesNothing` | apps/api/src/modules/attendance/attendance-auto-checkout.service.ts:147-161 | with at most a batch of open days that holds of whatever the second sweep reads |
| `Sweep.OneProposalKeptExactly` | apps/api/src/modules/attendance/attendance-corrections.service.ts:138-143 | at most one missing check-out is pending per day, exactly as long as no general correction carries one for a day that has one |
| `Witnesses.SecondProposalIsAccepted` | apps/api/src/modules/attendance/attendance-corrections.service.ts:90-97 | a general correction carrying a check-out is accepted for a day that has one pending, which then has two |
| `Runs.EveryStateIsSound` | apps/api/src/modules/attendance/attendance-corrections.service.ts:161-307 | in every state reachable from an empty organization approvals, holiday reviews and payroll rows are sound |
| `Runs.StoredMinutesAlwaysAgree` | apps/api/src/modules/attendance/attendance-punch.service.ts:235-249 | over every run stored minutes are those of the punches, if no approved correction miscounts what it moves |
| `Runs.RecordsOnlyMoveOn` | apps/api/src/modules/attendance/attendance-punch.service.ts:182-187 | over every run of the modelled operations a record is never lost, its version never falls, and the same version means the same record |
| `Runs.PayrollIsAlwaysCurrent` | packages/contracts/src/payroll.ts:272-288 | over every run without a hand-declared CALCULATED, a run offered APPROVED stands on the present worked and overtime minutes of every covered date |
| `Runs.RewrittenOnceIfAccepted` | apps/api/src/modules/attendance/attendance-corrections.service.ts:240-292 | over every run decisions on a correction change records exactly once if it ends accepted and never otherwise |
| `Runs.UndecidedCanAlwaysFinish` | apps/api/src/modules/attendance/attendance-corrections.service.ts:161-307 | in every reachable state an undecided correction under a policy is on a record with a branch and, if each step has an approver there, one approval per remaining step ends with it accepted exactly when what it asks for can be applied |
| `Runs.OneProposalADay` | apps/api/src/modules/attendance/attendance-auto-checkout.service.ts:206-213 | over every run a day has at most one missing check-out pending unless a general correction carried a second |
| `Runs.DisputesFollowTheMachine` | apps/api/src/modules/attendance/attendance-holiday-conflict.ts:64-87 | over every run the derived conflict state of each day is a run of the labelled machine |
| `Runs.ReviewsAreDecidedOnce` | apps/api/src/modules/attendance/attendance-holiday-review.service.ts:245-256 | over every run a review leaves PENDING once |
| `Services.ValidateEachStep` | apps/api/src/modules/approvals/approvals.service.ts:310-325 | the step checks, loop included, return the specified refusal |
| `Services.CheckInterval` | apps/api/src/modules/attendance/attendance-punch.service.ts:200-213 | the interval rules, in order, return the specified refusal, and what they let through fits the end of the day |
| `Services.FindPendingStep` | apps/api/src/modules/attendance/attendance-corrections.service.ts:196-199 | the search returns a step of the policy that no approval names, the first in order |
| `Services.AttendanceDatabase.Punch` | apps/api/src/modules/attendance/attendance-punch.service.ts:79-305 | upsert, re-read, check, write and re-total leave exactly the engine's next state, or its refusal and every row as before |
| `Services.AttendanceDatabase.CreateAttendanceCorrection` | apps/api/src/modules/attendance/attendance-correction-create.ts:24-84 | routing and insertion leave exactly the engine's next state, or its refusal and nothing changed |
| `Services.AttendanceDatabase.RequestCorrectionOf` | apps/api/src/modules/attendance/attendance-corrections.service.ts:66-99 | a general correction is raised or refused exactly as the engine says |
| `Services.AttendanceDatabase.RequestMissingCheckOutOf` | apps/api/src/modules/attendance/attendance-corrections.service.ts:108-149 | a missing check-out is proposed or refused exactly as the engine says |
| `Services.AttendanceDatabase.AddMissingCheckOut` | apps/api/src/modules/attendance/attendance-corrections.service.ts:319-368 | only a person's missing-check-out correction adds a punch, and then exactly the one asked for, checked against the day as it is |
| `Services.AttendanceDatabase.CheckDecision` | apps/api/src/modules/attendance/attendance-corrections.service.ts:174-216 | the checks before a decision, in order, return exactly the engine's refusal and the step it is about |
| `Services.AttendanceDatabase.DecideCorrection` | apps/api/src/modules/attendance/attendance-corrections.service.ts:161-307 | a decision, applied row by row, leaves exactly the engine's next state, and a refused application takes the approval back too |
| `Services.AttendanceDatabase.RequestReviewOf` | apps/api/src/modules/attendance/attendance-holiday-review.service.ts:95-155 | a review is asked for or refused exactly as the engine says |
| `Services.AttendanceDatabase.MayDecideReview` | apps/api/src/modules/attendance/attendance-holiday-review.service.ts:397-429 | the loop finds whether some step of the policy lets this user decide, never the employee nor whoever asked |
| `Services.AttendanceDatabase.DecideReviewOf` | apps/api/src/modules/attendance/attendance-holiday-review.service.ts:232-346 | a review decision leaves exactly the engine's next state |
| `Services.AttendanceDatabase.CreatePolicy` | apps/api/src/modules/approvals/approvals.service.ts:42-119 | creating a policy leaves exactly the specified table, with a refusal undoing the cleared default |
| `Services.AttendanceDatabase.UpdatePolicy` | apps/api/src/modules/approvals/approvals.service.ts:121-232 | updating a policy leaves exactly the specified table, with a refusal undoing the cleared default |
| `Services.AttendanceDatabase.DeactivatePolicy` | apps/api/src/modules/approvals/approvals.service.ts:234-260 | deactivating leaves exactly the specified table |
| `Services.AttendanceDatabase.ReactivatePolicy` | apps/api/src/modules/approvals/approvals.service.ts:262-307 | reactivating leaves exactly the specified table |
| `Services.AttendanceDatabase.CloseDay` | apps/api/src/modules/attendance/attendance-auto-checkout.service.ts:183-224 | closing one day proposes, skips or fails as specified, and counts it |
| `Services.AttendanceDatabase.CloseOrganization` | apps/api/src/modules/attendance/attendance-auto-checkout.service.ts:163-180 | the loop over the days read leaves exactly the specified sweep's rows and counters |
| `Listing.MatchingDescends` | apps/api/src/modules/attendance/attendance-punch.service.ts:333-359 | the query returns exactly the matching records, in strictly descending id order |
| `Listing.PageIsBounded` | apps/api/src/modules/attendance/attendance-punch.service.ts:332-372 | a page never holds more than was asked for nor more than 500, and is full when another follows |
| `Listing.PageHoldsTheNext` | apps/api/src/modules/attendance/attendance-punch.service.ts:331-372 | a page holds the highest ids still to come of the records asked for, in descending order: all if they fit, else as many as a page holds, a hundred unless asked and never over five hundred, with the last for cursor |
| `Listing.OthersReadTheirOwn` | apps/api/src/modules/attendance/attendance-punch.service.ts:320-330 | whoever may not read everybody's records reads as if they had asked for their own; asking for another's is refused |
| `Listing.OnlyOwnRecordsListed` | apps/api/src/modules/attendance/attendance-punch.service.ts:320-330 | without organization-wide breadth nobody is shown another employee's record |
| `Listing.TraversalIsComplete` | apps/api/src/modules/attendance/attendance-punch.service.ts:331-372 | following the cursor from the start returns every matching record exactly once, descending, and stops after the number of pages the count calls for |
| `RateLimit.QueryIsIgnored` | apps/api/src/common/security/request-rate-limit.interceptor.ts:70-70 | whatever follows the path in a URL has no say in its tier or exemption |
| `RateLimit.ExemptExactly` | apps/api/src/common/security/request-rate-limit.interceptor.ts:70-74 | exactly the paths under sign-in, federation and health are exempt |
| `RateLimit.TierExactly` | apps/api/src/common/security/request-rate-limit.interceptor.ts:36-43 | exactly the six endings are expensive, whatever the verb; of the rest GET, HEAD and OPTIONS read and everything else writes |
| `RateLimit.ExpiryIsSetOnce` | apps/api/src/common/security/request-rate-limit.interceptor.ts:82-87 | the first request counted in its minute gives the counter two minutes from then, and later ones leave it |
| `RateLimit.RequestRateLimiter.Intercept` | apps/api/src/common/security/request-rate-limit.interceptor.ts:60-99 | an exempt path is not counted; any other request is counted and judged as specified, and let through when the cache fails |
| `RateLimit.CounterIsExact` | apps/api/src/common/security/request-rate-limit.interceptor.ts:82-87 | a counter in its own minute holds exactly the requests counted in it; the expiry never drops it there |
| `RateLimit.AdmittedByRank` | apps/api/src/common/security/request-rate-limit.interceptor.ts:85-98 | a request is let through exactly when it is among the first of its minute, tier and subject up to the limit, or the cache failed it |
| `RateLimit.MinuteAdmitsItsLimit` | apps/api/src/common/security/request-rate-limit.interceptor.ts:88-93 | an aligned minute admits exactly the smaller of the limit and the requests made |
| `RateLimit.NoneRefusedWithinLimit` | apps/api/src/common/security/request-rate-limit.interceptor.ts:88-93 | nobody is refused in a minute with at most the limit of requests, whatever the cache does |
| `RateLimit.AnyMinuteAdmitsAtMostTwice` | apps/api/src/common/security/request-rate-limit.interceptor.ts:82-83 | any sixty seconds admit at most twice the limit |
| `RateLimit.TwiceTheLimitIsReached` | apps/api/src/common/security/request-rate-limit.interceptor.ts:82-93 | and that is attained, within two milliseconds, for every limit, tier and subject |
| `RateLimit.OthersNeverMatter` | apps/api/src/common/security/request-rate-limit.interceptor.ts:79-83 | a request fares as it would had nobody else made any |
| `WorkLocations.WorkLocationTable.SyncWorkLocations` | apps/api/src/modules/attendance/attendance-location.service.ts:57-107 | the loop accepts or refuses as specified, for the first reason in request order, and a refusal leaves every row as it was |
| `WorkLocations.AcceptedExactly` | apps/api/src/modules/attendance/attendance-location.service.ts:65-82 | a request is accepted exactly when trimmed names are there and differ, places are valid, and no name belongs to another scope |
| `WorkLocations.PlacesOnTheGlobe` | apps/api/src/modules/attendance/attendance-location.service.ts:70-77 | a place is valid exactly on the globe and with some radius |
| `WorkLocations.RefusedFor` | apps/api/src/modules/attendance/attendance-location.service.ts:65-82 | a refused request is refused for the first location at fault, and for what is at fault with it |
| `Text.TrimCutsOffBlanks` | apps/api/src/modules/attendance/attendance-location.service.ts:65-66 | trimming takes white space off both ends, all of it, and nothing else |
| `WorkLocations.ActiveAreRequested` | apps/api/src/modules/attendance/attendance-location.service.ts:83-106 | after a sync the scope's active locations are exactly the trimmed request names, with the request's coordinates and radii |
| `WorkLocations.StoredAsAsked` | apps/api/src/modules/attendance/attendance-location.service.ts:83-102 | each location asked for is stored under its trimmed name in that scope, as asked and active |
| `WorkLocations.OtherScopesUnchanged` | apps/api/src/modules/attendance/attendance-location.service.ts:103-106 | other scopes are untouched and no row is deleted or moved between scopes |
| `WorkLocations.SyncTwice` | apps/api/src/modules/attendance/attendance-location.service.ts:57-107 | repeating a sync is accepted and changes nothing |
| `DataTable.ApplyColumnFilters` | packages/ui/src/standard-data-table-logic.ts:108-125 | filtering column after column keeps exactly the rows that pass every filter, in order |
| `DataTable.FilterKeepsExactly` | packages/ui/src/standard-data-table-logic.ts:114-123 | a filter keeps every row if it is empty, ALL or for no column, and else the rows the first such column accepts, by its own test or by showing the very value |
| `DataTable.SearchKeepsExactly` | packages/ui/src/standard-data-table-logic.ts:85-106 | a search keeps every row while blank, and else those of which a search field, or with none any column's text, holds the trimmed query, letter case aside |
| `DataTable.FilterOrderIsIrrelevant` | packages/ui/src/standard-data-table-logic.ts:114-123 | the order of the filters does not matter |
| `DataTable.NumbersSortEmptiesLast` | packages/ui/src/standard-data-table-logic.ts:140-155 | numbers with one kind of empty sort by direction, empties last both ways, ties in the order they came |
| `DataTable.OwnComparisonSorts` | packages/ui/src/standard-data-table-logic.ts:136-139 | a column's own consistent comparison puts the rows in its order, ties in the order they came |
| `DataTable.UnsortedStays` | packages/ui/src/standard-data-table-logic.ts:132-134 | no sort, or one by a column that is not there, leaves the rows as they came |
| `DataTable.ComparableExactly` | packages/ui/src/standard-data-table-logic.ts:143-146 | the comparison is total and transitive on such cells exactly when null and undefined do not meet in one column |
| `DataTable.AllPagesAreTheRows` | packages/ui/src/standard-data-table-logic.ts:160-172 | the pages put together are all rows, in order |
| `DataTable.ClampedPageIsNotEmpty` | packages/ui/src/standard-data-table-logic.ts:165-172 | whatever page is asked for, the page shown of a non-empty table is not empty |
| `DataTable.PagesAreCounted` | packages/ui/src/standard-data-table-logic.ts:160-167 | there is always a page, no more than the rows need, and a page that is there is the one shown |
| `DataTable.SlicesCountFromTheEnd` | packages/ui/src/standard-data-table-logic.ts:169-172 | a page before the first would be sliced with positions that count from the end, as the platform does |
| `DataTable.PagesHoldExactlyTheMatches` | packages/ui/src/standard-data-table-logic.ts:85-172 | all pages of search, filters and sort hold each matching row as often as the data does, and no other |
| `DataTable.NothingActiveKeepsAll` | packages/ui/src/standard-data-table-logic.ts:203-211 | with no active filter every row stays, where it was |
| `DataTable.ActiveExactly` | packages/ui/src/standard-data-table-logic.ts:203-211 | something is active exactly when the query is not blank or some filter has a value of its own |

## Left out

- Runs.StoredMinutesAlwaysAgree: asks that approved corrections miscount nothing, because the code does not ensure it; on alternating days `RecordCache.DecideAgreesExactly` says exactly when.
- RecordCache.CorrectionAgreesExactly: speaks of days that read as alternating in strict time order; on days that do not, as back-dated punches leave them, only sufficient conditions are given. Where the rows are not stored in time order it also asks that no two punches end up at one instant, because the order in which such a pair is read back is the database's.
- StaleCorrections.StaleCorrectionExactly: speaks of days that alternate in strict time order with what came in between; for others only moves that keep the order are covered (`StaleCorrections.StoredMissesWhatCameBetween`).
- Runs.RecordsOnlyMoveOn: leave cancellation deletes records of leave days without punches (apps/api/src/modules/leave/leave-attendance-sync.ts:129), which is not one of the operations here.
- HolidayMachine.PerformRefines: every record has a punch here, where approved leave creates records that have none (apps/api/src/modules/leave/leave-attendance-sync.ts:62) and sets the day status of such a record (apps/api/src/modules/leave/leave-attendance-sync.ts:81); it shows no conflict.
- Sweep.EveryDueDayIsProposed: speaks of records whose status is OPEN, because the query does; `Sweep.ProposedIfOpen` says what becomes of the others.
- Runs.UndecidedCanAlwaysFinish: asks that a sweep's request name no branch, as the system context it runs under does not (apps/api/src/modules/attendance/attendance-auto-checkout.service.ts:242-252).
- Runs.PayrollIsAlwaysCurrent: asks that no draft be advanced to CALCULATED by hand, because that advance calculates nothing.
- Interleaving.EveryInterleavingIsSound: asks that no punch be back-dated behind the day at its commit, because callers with organization-wide breadth may do so and the server clock is read before the lock.
- DataTable.NumbersSortEmptiesLast: says nothing of text columns, because locale comparison is the platform's; columns with their own comparison are shown to sort by it where it is consistent (`DataTable.OwnComparisonSorts`).
- WallClock.ExactOutsideGaps: allows one clock change near the date, because two passes cannot settle two.
- Sweep.EveryDueDayIsProposed: assumes that nothing else changes a day between reading the batch and closing it; each day is its own transaction.
- The interleaving of two general corrections, or of a payroll calculation, with a punch: punches, missing check-outs and one general correction are split, everything else is one atomic step.
- `closeDueDays` and `runNow`: they sum organizations' outcomes and count one failure for an organization that cannot be swept.
- The list queries over holiday conflicts and reviews, their limit of 1000 selections and their branch filters: the join itself is modelled.
- Employees' own rules for choosing and cancelling optional holidays (allowance, dates, branch): a selection is confirmed, withdrawn, or has its holiday switched on and off.
- More than one selection for one employee and date: the engine keeps one row per day.
- Leave, timesheet and adjustment changes, which also mark payroll runs: a run's basis is worked minutes, overtime minutes and day status.
- Payroll calculation itself, approvals per run, release and correction runs: only status, stale mark and basis are kept.
- The unique index on a correction's step number: the engine never needs it, since one decision is one transaction here.
- Employee status, ownership checks and permissions, audit entries, outbox events and notes: they change none of the rows above.
- Geofence distance, biometric credentials and their review flags: their outcome is an input of a punch.
- Parsing of dates, JSON snapshots and cursors: a snapshot is the keys that are read, a cursor is a record id.
- Letter case beyond a per-character fold, and trimming beyond the white space ECMAScript names.
- Column ordering, pinning, sort cycling and filter options of the data table: one-line choices.
- Real arithmetic stands for coordinates and table numbers; NaN does not occur.
