# Verified model of the task bot

A Dafny model of the parts of the bot where a mistake is hard to see by reading
one function: business-time arithmetic, the life of a task under optimistic
locking, the update gateway, and three small kernels (assignee matching,
transcript clean-up, public task codes). `dafny verify dfyconfig.toml` checks
the whole project.

## How it is organised

| files | what they model |
|---|---|
| `BusinessTime`, `WorkingCalendars`, `WorkingTime` | dates, instants and zones; the working calendar and `add_working_duration`; what that loop computes, told by counting working time one nanosecond at a time |
| `QuietHours`, `Deadlines` | quiet hours and the next deliverable instant; the deadline kernel |
| `Tasks`, `TaskHistory`, `Policy` | the task aggregate; every task as a reading of the journal of its accepted operations; authorisation and offered actions |
| `Database`, `TaskProtocol` | the repository operations; all interleavings of the five kinds of task writers, with crashes |
| `UseCases`, `Delivery`, `Recovery` | the writers themselves, step by step, with other workers running at every await point that matters |
| `Escalation`, `EscalationProtocol` | one tick of the escalation worker; any number of ticks with crashes between the writes |
| `Gateway`, `Dispatcher`, `GatewayProtocol` | chat locks, duplicate filter, one-shot barrier; the critical section of an update; all interleavings of updates |
| `Nonces` | the single-use confirmation nonces of the admin panel |
| `EditDistances`, `NameMatching`, `Transcript`, `TaskCodes` | the three kernels, and the edit distance the matching rests on |
| `Prelude`, `Text` | result types, character classes, trimming |

Code that changes state is a class or a method with its loops, tied to
functions on values; code that computes a value is a function. A concurrent
component is modelled twice: once as the code runs it, and once as a transition
system in which every interleaving is a sequence of steps.

In the first form the other workers are an arbitrary function (`Database.Others`)
of how far the run has come and of the tables they find. A use case is stated
against what that very function makes of the tables at its await point
(`Store.Met`), so nothing the use case writes itself can pass for the work of
others. The store also keeps the list of the statements executed, and its
validity ties the tables to them; the contract of the registration recovery
speaks of that list and accounts for every statement on it. All that is asked
of the other workers is `Database.IsFair`, and the second form proves it:
`TaskProtocol.EveryStepKeeps` shows that every step of every worker satisfies
the `Evolves` relation on the task table, `Database.NoticeStepsEvolve` and
`Delivery.AttemptEvolves` do the same for the notifications, and
`GatewayProtocol.StepOnlyAddsLocks` for the chat locks.

What is assumed of the database is what the SQL in
`src/infrastructure/db/repositories` says: an update of a task hits a row only
if the stored version is the submitted one minus one, and sets neither the id,
the creator nor the creation time; inserting a notification or an escalation
with a key that is taken does nothing; a statement is atomic. Every writer queues
a message whose key names a version only once that version is committed, which
`Database.AreValid` asks of the tables and the use cases keep.

## Where the code and its descriptions part ways

Each of these is a theorem below, not an opinion.

- `add_working_duration` is documented to round its start up to a minute, and
  does not. The result is as if it did exactly if the start is a full minute,
  or lies before the opening of its day, or the work exceeds the whole minutes
  left of that day; otherwise it is early by the rest of the minute
  (`WorkingTime.RoundedExactlyWhen`, `WorkingTime.StartIsNotRounded`).
- Counted exactly, the broken part of a minute that the first day has left is
  lost, and the result late by it, exactly if the work exceeds the whole minutes
  left on that day (`WorkingTime.NothingLostExactlyWhen`;
  `WorkingTime.HalfMinuteIsLost` and `WorkingTime.HalfMinuteIsNotLost` are two
  starts at half a minute past). Composition nevertheless holds for every start
  whose guard holds the sum (`WorkingTime.AddWorkingComposes`).
- A window that ends at minute 1440 is a valid calendar. The calculator panics
  on it exactly when it meets a working day, and the deadline kernel, which is
  documented never to panic, exactly when it needs that hour (`WorkingCalendars.AddWorkingDuration`,
  `WorkingTime.NineToMidnight`, `Deadlines.Resolve`).
- A valid calendar without exceptions has a working day exactly if one of the
  seven lowest bits of its mask is set (`WorkingCalendars.WorksExactlyWhen`,
  `WorkingCalendars.ValidWithoutWorkingDays`).
- A deadline is documented to be the closing time of its day. It is one exactly
  if it had to be moved off a non-working day or its candidate was one already;
  a date on the user's clock is one exactly if that clock and the calendar's
  show the same time of day (`Deadlines.EndsDayExactlyWhen`,
  `Deadlines.UserDateEndsDayExactlyWhen`, `Deadlines.NoonIsNotMoved`).
- A status change to `Blocked`, which every assignee may ask for, leaves a
  blocked task without a reason (`Policy.AssigneeBlocksWithoutReason`).
- The card offers "report blocker" on a task that is blocked already; every
  other action on it works (`Policy.TaskCard`). A plain assignee may reassign,
  and a manager may start somebody else's work, though no button says so
  (`Policy.AcceptedButNotOffered`).
- The third back-off, 240 seconds, and the cap of an hour are never reached: a
  notification in trouble fails for good on its third attempt
  (`Delivery.ThreeAttempts`). One that is put back into the queue keeps its
  attempts, so its next trouble is final exactly if it had two of them or more
  (`Delivery.RequeuedFailsExactlyWhen`).
- An assignment message that goes out after a reassignment marks the task as
  sent although its new assignee was not told. A task that a delivery marks has
  told its assignee exactly if the row the delivery read was assigned to the
  recipient of the message (`Delivery.DeliverSingle`,
  `Delivery.OldMessageMarksReassigned`).
- An escalation that arises reaches the queue exactly if the row has an
  assignee and the worker finishes its four steps, whatever other workers do on
  other rows in between. After a crash it can still be
  told, without an edit of the deadline, exactly if the crash came before the
  new level was written: once it is, the row looks done, and once the escalation
  is on record not even an edit helps. A failed insert of the message counts as
  a crash before the last step. For an unassigned row the record is made and
  nobody is ever told (`EscalationProtocol.ToldExactlyWhenFinished`,
  `EscalationProtocol.CanStillBeToldExactlyWhen`,
  `EscalationProtocol.UnassignedIsNeverTold`).
- The first gated helper call of an update spends its barrier even if the
  messenger then refuses the message; later calls of the same update stay
  silent (`Dispatcher.Runtime.HandleUpdate`).
- The last branch of `rank_outcome`, an ambiguous result, cannot be reached
  (`NameMatching.RankingNeverUnclear`). A unique result is documented to be the
  only confident candidate. It is exactly if no exact username or full name was
  taken or nobody else in the roster bears it; of namesakes the first is assigned
  without a question (`NameMatching.AssignedIsSoleExactlyWhen`,
  `NameMatching.NamesakesAreNotTold`).
- Tabs are dropped with the other control characters before whitespace is
  looked at. The text comes out as documented exactly if no dropped whitespace
  separates two letters with nothing kept between them
  (`Transcript.DocumentedExactlyWhen`, `Transcript.TabGluesLetters`).
  Clipping may split a word, for instance a decimal number
  (`Transcript.WordsAreCutExactlyWhen`, `Transcript.DecimalIsCutInTwo`).
- `T-+5` is read as task 5 (`TaskCodes.PlusIsRead`).

## Model

| member | source | states |
|---|---|---|
| `WorkingCalendars.New` | src/domain/sla.rs:99-145 | a calendar is made exactly when the mask is not zero and 0 <= start < end <= 1440, from the given fields |
| `WorkingCalendars.MaskSelectsItsDays` | src/domain/sla.rs:171-179 | the mask of a week selects exactly that week's days, whatever higher bits are set; holidays come off them, extra days win over holidays |
| `WorkingCalendars.ValidWithoutWorkingDays` | src/domain/sla.rs:99-145 | a valid calendar may select no weekday at all |
| `WorkingCalendars.WorksExactlyWhen` | src/domain/sla.rs:167-181 | without exceptions, some day is a working day if and only if one of the seven lowest bits of the mask is set |
| `BusinessTime.WeekdaysGoRound` | src/domain/sla.rs:233-239 | 1970-01-01 was a Thursday, Monday comes first, and the weekdays repeat every seven days |
| `WorkingCalendars.AddWorkingDuration` | src/domain/sla.rs:188-259 | the guarded loop equals the day-by-day recursion; under a 24:00 window it panics if and only if one of the 366 days is a working day |
| `WorkingTime.AdvanceIsExact` | src/domain/sla.rs:171-230 | from any cursor and any horizon, the walk ends where the requested working time plus the broken minute of the first day is over, or at the opening of the horizon day if the days before do not hold it |
| `WorkingTime.AddWorkingIsExact` | src/domain/sla.rs:171-230 | if the 366 days hold the minutes, the result is the least instant with m minutes, plus what is lost, of nanosecond-counted working time behind it; lost is the broken minute left on the first day if m exceeds the whole minutes left on it, else nothing; beyond the guard it is the opening after it |
| `WorkingTime.RoundedExactlyWhen` | src/domain/sla.rs:183-230 | starting from the rounded-up minute gives the same result if and only if the start is a full minute, lies before the opening, or the work exceeds the whole minutes left of the day; else the result is later by the rest of the minute |
| `WorkingTime.StartIsNotRounded` | src/domain/sla.rs:183-230 | a concrete start for which the documented rounding would give a different result |
| `WorkingTime.NothingLostExactlyWhen` | src/domain/sla.rs:213-226 | exactly m minutes have been worked if and only if they fit into the whole minutes left on the first day or that day has no broken minute left; and the work ends on the first day if and only if it fits |
| `WorkingTime.HalfMinuteIsLost` | src/domain/sla.rs:183-226 | a concrete start whose result is half a minute late |
| `WorkingTime.HalfMinuteIsNotLost` | src/domain/sla.rs:183-226 | a concrete start off the minute that ends a day later and loses nothing |
| `WorkingTime.NineToMidnight` | src/domain/sla.rs:115-126 | a concrete valid calendar on which adding any positive duration panics |
| `WorkingTime.NothingLostFromFullMinute` | src/domain/sla.rs:183-230 | from a full minute the working time is exactly m minutes and no earlier instant has as much |
| `WorkingTime.GuardHoldsYear` | src/domain/sla.rs:198-226 | for a calendar with a working weekday and no exceptions the 366 days hold at least 52 windows from any start |
| `WorkingTime.AddWorkingIsMonotone` | src/domain/sla.rs:188-259 | later starts and longer durations never give an earlier result, across the guard's fallback too, and the result is never before the start |
| `WorkingTime.AddWorkingComposes` | src/domain/sla.rs:188-259 | adding m and then n is adding m + n, for every start whose guard holds the sum |
| `QuietHours.New` | src/domain/notification_preferences.rs:37-66 | preferences are made exactly if the zone is known and both minutes lie within a day, from the given fields |
| `QuietHours.WindowIsAnArc` | src/domain/notification_preferences.rs:137-144 | a minute is quiet exactly if, going round the clock from the start, it comes before the end; swapping the bounds gives the complement; the start is quiet and the end is not |
| `QuietHours.QuietByTheClock` | src/domain/notification_preferences.rs:80-97 | an instant is quiet exactly if the bounds differ and the minute the user's clock shows comes round from the start before the end does |
| `QuietHours.QuietUntilNext` | src/domain/notification_preferences.rs:86-158 | every instant from now up to the answer is quiet, plain and wrapping windows alike |
| `QuietHours.NextDeliverableIsLeast` | src/domain/notification_preferences.rs:86-158 | the answer is the least instant at or after now outside quiet hours |
| `QuietHours.NextDeliverableIsClosure` | src/domain/notification_preferences.rs:99-131 | deferring is idempotent and monotone, and constant up to its own answer |
| `Deadlines.ApplyCalendar` | src/domain/deadline.rs:220-237 | unchanged on a working day, else the end of work of the first later working day within 366 days (the nanosecond before is worked and the next one is not), else unchanged; panics exactly when it must move under a 24:00 window |
| `Deadlines.EndOfBusinessUtc` | src/domain/deadline.rs:200-218 | the zone's clock shows the closing minute of the calendar on the date, or 18:00 without one; no result exactly for 24:00 |
| `Deadlines.RollingForwardIsClosure` | src/domain/deadline.rs:220-237 | rolling forward has one result, never goes back and is idempotent |
| `Deadlines.RolledForwardLandsOnWorkingDay` | src/domain/deadline.rs:220-237 | the result is on a working day if and only if there is one among the candidate's day and the 366 after it |
| `Deadlines.EndsDayExactlyWhen` | src/domain/deadline.rs:16-20 | a deadline is the closing time of its day if and only if it had to be moved or its candidate was one |
| `Deadlines.UserDateEndsDayExactlyWhen` | src/domain/deadline.rs:200-218 | the closing time of a date on the user's clock is one of the calendar's if and only if the two clocks show the same time of day |
| `Deadlines.NoonIsNotMoved` | src/domain/deadline.rs:220-228 | a concrete instant in the middle of a working day that stays where it is |
| `Deadlines.TryAiIso` | src/domain/deadline.rs:134-166 | a hint counts if and only if it is readable and not in the past, a bare date being past after 18:00 or the closing minute on the user's clock; then it gives its instant rolled forward |
| `Deadlines.TryDeterministic` | src/domain/deadline.rs:168-197 | a date found in the text gives 18:00 or the closing minute on the user's clock, or the end of work of the next working day; the parser's error is passed on |
| `Deadlines.Resolve` | src/domain/deadline.rs:122-132 | which source decides; what the clocks show for a bare date and for a date in the text; the instant is absent if and only if the date is; an assistant deadline is never in the past; the parser's error comes out exactly if the text is asked; the exact condition of a panic |
| `TaskHistory.TaskIsItsJournal` | src/domain/task/entity.rs:68-251 | after any operations each status timestamp is the first entry since the last reassignment, and status, reason, assignee, version and update time are what the journal of accepted operations says |
| `TaskHistory.EveryTaskHasLifecycle` | src/domain/task/entity.rs:125-251 | completed iff its stamp is set, cancelled iff its stamp is set, review and completion imply the review stamp, a reason implies blocked and is trimmed and short; terminal status never changes |
| `TaskHistory.LifecycleIsKept` | src/domain/task/types.rs:39-65 | every accepted operation keeps that invariant, and none changes a terminal status |
| `TaskHistory.BlockedWithoutReason` | src/domain/task/entity.rs:125-165 | the converse of "a reason implies blocked" fails |
| `TaskHistory.StampsLieWithin` | src/domain/task/entity.rs:305-315 | under a clock that does not go back all timestamps lie between creation and last update |
| `TaskHistory.EveryJournalIsWellFormed` | src/domain/task/types.rs:39-60 | the shape of every history: nothing enters Created, Sent comes first after the start or a reassignment, completion follows immediately on a review, nothing but a link follows a closed task |
| `Policy.AvailableActions` | src/application/policies/role_authorization.rs:262-312 | the card lists exactly the offered actions, each once, in a fixed order |
| `Policy.TaskCard` | src/application/use_cases/get_task_status.rs:50-91 | the card is shown exactly to those who may view the task, lists the offered actions, and each of them works for its reader except a blocker on a blocked task |
| `Policy.CardActionsSucceed` | src/application/policies/role_authorization.rs:144-345 | an action offered to a viewer passes normalisation, authorisation and transition, except a blocker on a blocked task |
| `Policy.OfferedActionsSucceed` | src/application/policies/role_authorization.rs:144-345 | the same for the policy functions by themselves, whoever asks |
| `Policy.AcceptedButNotOffered` | src/application/policies/role_authorization.rs:144-345 | for every action, exactly when it would be accepted from a registered actor it is not offered to |
| `Policy.AssigneeBlocksWithoutReason` | src/application/policies/role_authorization.rs:333-338 | an assignee's status change to Blocked succeeds and leaves no reason |
| `Policy.CompletionNeedsAuthority` | src/application/policies/role_authorization.rs:207-260 | only a creator, manager or admin completes, and only out of review |
| `Policy.AcceptedChangeIsTheOneAsked` | src/application/policies/role_authorization.rs:207-231 | an accepted change gives the status asked for, except review to a plain assignee who asked for completion |
| `Policy.AssigneeCompletesByReview` | src/application/policies/role_authorization.rs:207-231 | a plain assignee's request for completion behaves exactly as one for review |
| `Database.Store.UpdateTask` | src/infrastructure/db/repositories/task_repository.rs:163-210 | compare-and-swap on the version, keeping id, creator and creation time; a miss changes nothing |
| `Database.Store.Enqueue` | src/infrastructure/db/repositories/notification_repository.rs:27-61 | insert unless the key is taken; keys stay unique |
| `Database.Store.Requeue` | src/infrastructure/db/repositories/notification_repository.rs:140-153 | the row becomes pending again and keeps its attempt count |
| `Database.Store.MarkSent` | src/infrastructure/db/repositories/notification_repository.rs:80-98 | the row becomes delivered and keeps its attempt count |
| `Database.Store.MarkRetryPending` | src/infrastructure/db/repositories/notification_repository.rs:100-121 | one more attempt is counted on the row as it is, and the next one is scheduled |
| `Database.Store.MarkFailed` | src/infrastructure/db/repositories/notification_repository.rs:123-138 | one more attempt is counted on the row as it is, and none is scheduled |
| `Database.PastStays` | src/infrastructure/db/repositories/task_repository.rs:163-210 | the tables after the first n statements of a run do not depend on later ones |
| `Database.Store.FindLatest` | src/infrastructure/db/repositories/notification_repository.rs:155-176 | the newest notification of a kind for a task and a recipient, none only if there is none |
| `Database.NoticeStepsEvolve` | src/infrastructure/db/repositories/notification_repository.rs:27-153 | every statement keeps what a notification is about, where it stands and its past attempts, as the use cases rely on |
| `TaskProtocol.EveryStepKeeps` | src/infrastructure/db/repositories/task_repository.rs:163-210 | every step of every worker keeps the chains of commits and satisfies the contract the use cases rely on |
| `TaskProtocol.CommitExtendsChain` | src/infrastructure/db/repositories/task_repository.rs:163-210 | a write that hits finds the very row its decision was taken on |
| `TaskProtocol.EveryRunIsChained` | src/application/use_cases/update_task_status.rs:47-61 | no lost update: in every interleaving each row is the end of a chain of decisions, each authorised against and applied to its immediate predecessor |
| `TaskProtocol.ChainIsRun` | src/domain/task/entity.rs:125-251 | such a chain is a run of the aggregate's own operations under a clock that does not go back |
| `TaskProtocol.StoredRowsHaveLifecycle` | src/domain/task/entity.rs:125-251 | every row stored in any run has the lifecycle and the timestamps of such a run |
| `TaskProtocol.CommitsAreLegal` | src/application/use_cases/process_notifications.rs:216-256 | commit k takes version k to k + 1; completions are authorised and out of review; a delivery moves only Created to Sent; a recovery touches only open rows without an account; closed rows stay closed |
| `TaskProtocol.AssigneeStays` | src/domain/task/entity.rs:194-251 | between two commits of a row's chain without a reassignment or a recovery the assignee is the same |
| `TaskProtocol.DecisionsAreOperations` | src/domain/task/entity.rs:125-251 | every accepted decision of a writer is one operation of the aggregate and leaves an event |
| `TaskProtocol.DecisionTakesOneVersion` | src/domain/task/entity.rs:125-251 | every accepted decision bumps the version by one, stamps the time and keeps the identity |
| `TaskProtocol.DecisionIgnoresTouch` | src/application/use_cases/update_sla_states.rs:97-99 | the column the escalation worker writes without taking a version influences no decision |
| `UseCases.UpdateTaskStatus` | src/application/use_cases/update_task_status.rs:41-142 | refused on what was read, or conflicting, or the decision is valid on the very row found, with one audit entry and, for the creator and the assignee other than the actor and for nobody else, one new pending message each, of the kind that goes with the new status; a failure leaves exactly what the others have made of the tables |
| `UseCases.ParticipantsAreTold` | src/application/use_cases/update_task_status.rs:104-162 | who gets a row, that nobody gets two, and what is in it, as long as no key names the new version |
| `UseCases.KeysAreNotTakenYet` | src/application/use_cases/update_task_status.rs:118-121 | which holds when a version is committed |
| `UseCases.NoticesReachTheOthers` | src/application/use_cases/update_task_status.rs:104-142 | creator and assignee hear of a change, each once, the actor never |
| `UseCases.ReportTaskBlocker` | src/application/use_cases/report_task_blocker.rs:44-157 | the same for a blocker, which adds one message to the creator, column by column, unless the creator reports it; a failure writes nothing of its own |
| `UseCases.ReassignTaskTo` | src/application/use_cases/reassign_task.rs:74-201 | the same for a reassignment whose new assignee is resolved, which adds one assignment message to the new account, column by column; a failure writes nothing of its own |
| `Delivery.DeliverSingle` | src/application/use_cases/process_notifications.rs:106-256 | from whatever the others have made of the tables: the row is delivered iff reached and accepted, failed iff unreachable, gone for good or in its third trouble, else put off by 60 or 120 seconds, with its attempts counted; the task is marked sent exactly when an assignment was accepted and its row is untouched since Created, and then its assignee is the recipient exactly if that was so when the row was read; nothing else is written |
| `Delivery.MarkRelatedTaskAsSent` | src/application/use_cases/process_notifications.rs:216-256 | marks the row exactly if it is the Created one that was read, and otherwise writes nothing |
| `Delivery.HandleTransientFailure` | src/application/use_cases/process_notifications.rs:183-206 | the row after trouble, given how many attempts the worker has read |
| `Delivery.OldMessageMarksReassigned` | src/application/use_cases/process_notifications.rs:216-232 | a run without interference: a message to the former assignee, delivered after the reassignment, marks the task as sent while the new assignee's message is still pending |
| `Delivery.AttemptEvolves` | src/application/use_cases/process_notifications.rs:106-214 | a delivery is a step of the kind the other workers rely on |
| `Delivery.ThreeAttempts` | src/application/use_cases/process_notifications.rs:183-206 | waits of 60 and 120 seconds, failure for good on the third troubled attempt and not earlier |
| `Delivery.DeliverInTrouble` | src/application/use_cases/process_notifications.rs:106-206 | a run of deliveries on one store: a fresh message in trouble is put off twice and given up with the third delivery and not before |
| `Delivery.RequeuedFailsExactlyWhen` | src/application/use_cases/register_user/mod.rs:396-401 | the next trouble of a requeued notification is final if and only if it had two attempts or more, else it is retried |
| `Delivery.RequeueHelpsTheUnreached` | src/application/use_cases/process_notifications.rs:110-124 | one given up for want of a chat is retried after a requeue, one worn out by trouble is not |
| `Recovery.ListOpenWithoutUser` | src/infrastructure/db/repositories/task_repository.rs:227-247 | the latest updated pending rows in order, as many as there are up to the limit |
| `Recovery.EnsureAssignmentNotification` | src/application/use_cases/register_user/mod.rs:376-429 | afterwards a notification that may go out exists, and no other one is lost |
| `Recovery.RecordLink` | src/application/use_cases/register_user/mod.rs:290-296 | its statements are one audit entry and at most one message for that task, queued anew or put back; at the end the task is announced, whatever others do in between |
| `Recovery.SaveLinked` | src/application/use_cases/register_user/mod.rs:302-319 | one try: its one write hits only a row that is open and without an account at that moment, and links it, or has no effect |
| `Recovery.RetryLinkAfterConflict` | src/application/use_cases/register_user/mod.rs:321-342 | the same after reading the row again, and no write at all if it is no longer to be linked |
| `Recovery.LinkTaskToRegisteredUser` | src/application/use_cases/register_user/mod.rs:302-342 | of all its statements only the last one can have an effect, and then links a row that is open and without an account at that moment; undisturbed it always links |
| `Recovery.RecoverTaskBatch` | src/application/use_cases/register_user/mod.rs:276-300 | every statement of a batch that has an effect belongs to one of its links, each legal, audited and announced when it was made; undisturbed the whole batch is linked, nothing else changes and the announcements stand |
| `Recovery.RecoverPendingAssignments` | src/application/use_cases/register_user/mod.rs:242-274 | whatever others do, every statement of the recovery that has an effect belongs to one of at most 1000 links: the write of a row open and without an account at that moment, its audit entry, its message; undisturbed exactly min(N, 1000) of the N pending rows are linked, nothing else changes or is audited, and all announcements may still go out |
| `Recovery.RecoveryTouchesOnlyPending` | src/application/use_cases/register_user/mod.rs:447-451 | hence no statement of a recovery takes a task over from anybody, touches a closed one, or changes anything of a row but its account |
| `Escalation.SlaStore.RecordEscalation` | src/application/ports/repositories.rs:409-420 | insert unless recorded; says whether it was new |
| `Escalation.Tick` | src/application/use_cases/update_sla_states.rs:57-171 | exactly the listed rows get the state and level of the date, and which escalations and messages result; nothing when switched off |
| `Escalation.RecordedByTick` | src/application/use_cases/update_sla_states.rs:110-119 | a mark is on record after a tick if and only if it was before or a listed row rises to it |
| `Escalation.QueuedByTick` | src/application/use_cases/update_sla_states.rs:116-171 | a message is queued after a tick if and only if it was before or an assigned listed row rises to its mark and the mark was not on record; none is lost or doubled |
| `Escalation.AlarmsOfTick` | src/application/use_cases/update_sla_states.rs:121-166 | every message a tick adds goes to the assignee of a listed row that rises, about that row, for five seconds later |
| `Escalation.RepeatedTickIsIdle` | src/application/use_cases/update_sla_states.rs:87-93 | a second tick on the same date writes nothing |
| `Escalation.LevelOnlyRises` | src/application/use_cases/update_sla_states.rs:73-99 | under a fixed deadline and dates that do not go back the level only rises; after every tick it is 2 and the state breached iff the deadline is over, 1 and at risk iff it is today or tomorrow, else 0 and healthy |
| `Escalation.LevelFallsOnlyWhenPutOff` | src/application/use_cases/update_sla_states.rs:73-99 | whatever the deadline is edited to, the next tick brings state and level up to date, and the level falls only if the deadline was put off |
| `EscalationProtocol.EveryStepKeeps` | src/application/use_cases/update_sla_states.rs:97-171 | every write, edit or crash keeps: told marks are recorded and distinct, and at most one worker is about to tell a mark |
| `EscalationProtocol.AtMostOneMessage` | src/application/use_cases/update_sla_states.rs:73-171 | in every run at most one message is handed over per task and level |
| `EscalationProtocol.UninterruptedIsTick` | src/application/use_cases/update_sla_states.rs:73-171 | a worker's steps without interruption have exactly the effect of one row of the tick |
| `EscalationProtocol.LostForGood` | src/application/use_cases/update_sla_states.rs:110-119 | an escalation on record that nobody is about to tell is never told |
| `EscalationProtocol.CrashLosesMessage` | src/application/use_cases/update_sla_states.rs:110-171 | from any state with any other workers, a crash right after the record leaves an escalation that nobody will tell |
| `EscalationProtocol.ToldExactlyWhenFinished` | src/application/use_cases/update_sla_states.rs:73-171 | an escalation that arises is told by a worker that crashes after k steps, among any steps of others on other rows, if and only if k is four and the row is assigned |
| `EscalationProtocol.CanStillBeToldExactlyWhen` | src/application/use_cases/update_sla_states.rs:87-119 | after a crash some continuation on this or later dates without edits tells it if and only if at most one step was done; after three steps none does, edits included |
| `EscalationProtocol.UnassignedIsNeverTold` | src/application/use_cases/update_sla_states.rs:121-124 | an escalation of an unassigned row is recorded without a crash and never told, whoever is assigned later |
| `EscalationProtocol.LosingRuns` | src/application/use_cases/update_sla_states.rs:73-171 | concrete runs from the start: crashes after two and three steps lose the message for every orderly continuation, four steps tell it |
| `EscalationProtocol.LosingRunWithoutCrash` | src/application/use_cases/update_sla_states.rs:121-124 | a concrete run without an assignee that loses it with no crash before the end |
| `EscalationProtocol.LevelNeverFalls` | src/application/use_cases/update_sla_states.rs:73-99 | with one worker on the row at a time, no edits and dates that do not go back, the stored level never falls, wherever workers crash |
| `Gateway.UpdateDedup.Observe` | src/presentation/telegram/gateway.rs:185-199 | accepted exactly if none of the last 2048 accepted keys equals it; set and queue agree, without duplicates, and hold at most 2048 |
| `Gateway.RecentIsAmongTheLast` | src/presentation/telegram/gateway.rs:185-199 | what being recent means, position by position |
| `Gateway.SpacedAfter` | src/presentation/telegram/gateway.rs:185-199 | two acceptances of one key lie at least 2048 acceptances of other keys apart |
| `Gateway.UxBarrier.TryConsume` | src/presentation/telegram/gateway.rs:134-143 | true for the first caller only |
| `Gateway.ChatSerializer.ObtainLock` | src/presentation/telegram/gateway.rs:79-91 | the chat's one lock, whoever else asks between the two looks; no lock is ever replaced |
| `GatewayProtocol.StepOnlyAddsLocks` | src/presentation/telegram/gateway.rs:79-91 | no step of any update removes or replaces a chat's lock |
| `GatewayProtocol.LocksAreNeverReplaced` | src/presentation/telegram/gateway.rs:79-91 | hence over every run a chat keeps the lock it got |
| `Dispatcher.Runtime.TryConsumeUpdateBarrier` | src/presentation/telegram/dispatcher_transport.rs:20-37 | allowed without a barrier, else exactly once |
| `Dispatcher.Runtime.Render` | src/presentation/telegram/dispatcher_transport.rs:39-175 | the gated helpers: nothing behind a spent barrier; otherwise the story goes on by this call with the outcome its case allows, every edit being one of the active screen, and the messages and active screens stay what the story tells |
| `Dispatcher.Runtime.HandleUpdate` | src/presentation/telegram/dispatcher.rs:169-205 | a duplicate does nothing; otherwise the story goes on by exactly the first helper call, the chat's barrier is gone and no other chat is touched; over any updates a chat's active screen is what its last successful screen call posted, edited or left as it was |
| `Dispatcher.ScreenAfterEvent` | src/presentation/telegram/dispatcher_transport.rs:39-120 | a successful screen call makes its message and descriptor the chat's screen; errors, failures and other chats leave it |
| `Dispatcher.OneMoreEvent` | src/presentation/telegram/dispatcher_transport.rs:39-175 | a story stays true by an event that agrees with the screen before it |
| `GatewayProtocol.ChatIsExclusive` | src/presentation/telegram/gateway.rs:65-91 | two updates of one chat that hold their locks are the same update |
| `GatewayProtocol.EveryRunKeeps` | src/presentation/telegram/dispatcher.rs:140-205 | every interleaving keeps the agreement of locks, holders, barriers and sends |
| `GatewayProtocol.OneEffectPerUpdate` | src/presentation/telegram/dispatcher_transport.rs:20-37 | in every run the gated helpers let one update render at most once |
| `GatewayProtocol.HandledUpdateOwnsItsChat` | src/presentation/telegram/dispatcher.rs:181-204 | an update being handled is alone in its chat, and the chat's entry is its own barrier |
| `GatewayProtocol.EntriesAreForHandledUpdates` | src/presentation/telegram/dispatcher.rs:140-151 | unless one of its own handlers died, a chat has an entry if and only if one of its updates is being handled |
| `GatewayProtocol.RedeliveriesAreDropped` | src/presentation/telegram/gateway.rs:185-199 | in every run a key handled twice has 2048 other acceptances in between |
| `Nonces.StoreTellsHistory` | src/presentation/telegram/admin_nonce_store.rs:91-148 | every stored entry is pending, and every pending nonce is stored unless it has expired |
| `Nonces.ConsumeTellsHistory` | src/presentation/telegram/admin_nonce_store.rs:108-127 | a use yields the action if and only if the nonce was issued to that actor, has not expired, and was neither tried nor cancelled since; each error likewise |
| `Nonces.SingleUse` | src/presentation/telegram/admin_nonce_store.rs:108-127 | after any use that was not "not found", by whomever, the nonce is gone for good |
| `Nonces.AdminNonceStore.Issue` | src/presentation/telegram/admin_nonce_store.rs:91-106 | the store is the one its history, with this call, determines |
| `Nonces.AdminNonceStore.Consume` | src/presentation/telegram/admin_nonce_store.rs:108-127 | the answer is the one the history demands |
| `Nonces.AdminNonceStore.Discard` | src/presentation/telegram/admin_nonce_store.rs:129-133 | the store is the one its history, with this cancellation, determines |
| `Nonces.AdminNonceStore.SweepExpired` | src/presentation/telegram/admin_nonce_store.rs:145-148 | exactly the expired entries go |
| `EditDistances.DistanceIsLeast` | src/domain/name_matching.rs:215-226 | the distance is the least number of single-character insertions, deletions and replacements: some way has that many steps and none has fewer |
| `EditDistances.ShortestWay` | src/domain/name_matching.rs:215-226 | such a way, step by step |
| `EditDistances.NoWayIsShorter` | src/domain/name_matching.rs:215-226 | every way has at least as many steps |
| `EditDistances.DistanceIsMetric` | src/domain/name_matching.rs:215-226 | it is symmetric and satisfies the triangle inequality |
| `EditDistances.EditDistanceBounds` | src/domain/name_matching.rs:203-232 | the distance lies between the difference and the maximum of the lengths |
| `EditDistances.ZeroDistanceIsEquality` | src/domain/name_matching.rs:203-232 | distance zero means equal |
| `NameMatching.HighConfidenceIsRare` | src/domain/name_matching.rs:203-232 | 95 percent means 200 d <= 11 n, so never for unequal names under 19 characters; a similar name has 80 to 100 percent |
| `NameMatching.ConfidenceIsNearest` | src/domain/name_matching.rs:203-232 | the confidence is a whole percentage nearest to the similarity |
| `NameMatching.NobodyExactlyWhen` | src/domain/name_matching.rs:30-201 | the answer is nobody exactly if no strategy that is tried would find anybody |
| `NameMatching.OneTypoIsFound` | src/domain/name_matching.rs:203-232 | a name of five letters or more that is one edit away is never answered with nobody |
| `NameMatching.SuggestionsAreTheBest` | src/domain/name_matching.rs:228-232 | of more than three near names the three shown are the most confident |
| `NameMatching.PrecedesExactlyWhen` | src/domain/name_matching.rs:251-256 | equally confident candidates come in dictionary order |
| `NameMatching.FirstNameIsFirstWord` | src/domain/name_matching.rs:258-265 | the first name is the first word of the full name |
| `NameMatching.ClassifiedByWords` | src/domain/name_matching.rs:288-299 | a query is for a username iff it begins with an at sign, else for a first name iff it has at most one word, provided lower-casing leaves the words in place |
| `NameMatching.YoMakesNoDifference` | src/domain/name_matching.rs:267-275 | names that differ only in yo and ye are the same name |
| `NameMatching.AtsMakeNoDifference` | src/domain/name_matching.rs:277-286 | at signs before a username and whitespace around it make no difference |
| `NameMatching.RankingNeverUnclear` | src/domain/name_matching.rs:154-201 | ranking never ends ambiguous and assigns only at 95 percent |
| `NameMatching.RankingOfSuggestions` | src/domain/name_matching.rs:203-249 | a fuzzy search assigns exactly its sole, nearly equal hit, and otherwise suggests the most confident one with at most two others |
| `NameMatching.AssignedExactlyWhenCertain` | src/domain/name_matching.rs:30-201 | somebody is assigned without asking if and only if there is an exact username, an exact full name, a sole exact first name, or a sole fuzzy hit that is nearly equal |
| `NameMatching.AssignedIsSoleExactlyWhen` | src/domain/name_matching.rs:128-130 | the assigned person is the only hit of the kind if and only if no exact username or full name was taken or nobody else bears it; of several bearers it is the first of the roster |
| `NameMatching.NamesakesAreNotTold` | src/domain/name_matching.rs:30-60 | two people of one full name: the first is assigned without a question |
| `Transcript.NormaliseWhitespace` | src/domain/voice_transcript.rs:74-92 | the loop with its flag yields the words of the kept characters with one space between them |
| `Transcript.NormalisingKeepsTheWords` | src/domain/voice_transcript.rs:74-92 | the result is single-spaced and trimmed and has exactly the words of the kept input |
| `Transcript.LettersSurvive` | src/domain/voice_transcript.rs:74-92 | the letters of the result are the letters of the input, in order |
| `Transcript.NormalisedGrows` | src/domain/voice_transcript.rs:77-90 | what each further character adds to the result |
| `Transcript.BreaksSeparate` | src/domain/voice_transcript.rs:78-87 | a line break or a space between two letters becomes one space |
| `Transcript.NothingOddIsLeft` | src/domain/voice_transcript.rs:78-87 | the result has no control characters and no whitespace but plain spaces |
| `Transcript.NormalisingIsIdempotent` | src/domain/voice_transcript.rs:74-92 | the texts left alone are exactly the normal ones; a second pass changes nothing |
| `Transcript.EmptyExactlyWhenBlank` | src/domain/voice_transcript.rs:51-59 | no words are left exactly when every character is whitespace or dropped |
| `Transcript.DroppedLeaveNoGap` | src/domain/voice_transcript.rs:78-80 | a dropped character, a tab for one, separates nothing |
| `Transcript.DocumentedExactlyWhen` | src/domain/voice_transcript.rs:72-92 | the text is what the documented treatment of whitespace gives if and only if no dropped whitespace separates two letters with nothing kept between them |
| `Transcript.TabGluesLetters` | src/domain/voice_transcript.rs:78-80 | two letters around a tab come out as one word |
| `Transcript.ClipToBudget` | src/domain/voice_transcript.rs:97-136 | truncated if and only if longer; cut after the last sentence end in the last 160 bytes, else before the last whitespace there, else at the end |
| `Transcript.ClippedIsAPrefix` | src/domain/voice_transcript.rs:97-136 | a clipped text is a prefix and the marker, at most one character over the budget, short of it by at most 160 bytes, and normal again |
| `Transcript.Utf8HasItsLength` | src/domain/voice_transcript.rs:104-128 | the byte offsets count the bytes of UTF-8 |
| `Transcript.WordsAreCutExactlyWhen` | src/domain/voice_transcript.rs:94-128 | a word is split if and only if the last mark in reach stands inside it, or there is no break in reach and the text goes on |
| `Transcript.DecimalIsCutInTwo` | src/domain/voice_transcript.rs:94-128 | a concrete text whose last word is split |
| `Transcript.FromRaw` | src/domain/voice_transcript.rs:51-69 | refused exactly when blank; otherwise the normalised length, the flag, and a normal text of at most 6001 characters |
| `TaskCodes.FormattedIsParsed` | src/shared/task_codes.rs:15-55 | the printed code of a positive id is read back as the id, every other printed code is refused; codes have at least four digits and no zeros beyond that |
| `TaskCodes.FourDigits` | src/shared/task_codes.rs:15-20 | 42 is printed as T-0042 |
| `TaskCodes.SpellingIsFree` | src/shared/task_codes.rs:42-46 | a small t and whitespace around a code make no difference |
| `TaskCodes.PlaceholderRoundTrip` | src/shared/task_codes.rs:22-29 | printing an optional id and reading it back keeps exactly the positive ones |
| `TaskCodes.ParsedExactlyWhen` | src/shared/task_codes.rs:42-55 | a text is read as an id exactly when, trimmed and upper-cased, it is the prefix, an optional plus, zeros, and the id's own digits |
| `TaskCodes.PlusIsRead` | src/shared/task_codes.rs:42-55 | the text T-+5 is read as 5 |
| `TaskCodes.PrintedNumberIsRead` | src/shared/task_codes.rs:15-20 | every 64-bit integer, padded to any width, is read back as itself, and is at least that wide, with no more zeros than it takes |

## Left out

- Daylight saving: every zone is a constant offset, so the `single()` fallbacks for skipped and repeated hours do not occur.
- Range limits of the date library, and 64-bit overflow of minute counts: instants and dates are unbounded integers.
- `SlaPolicy::validate`, codes, labels, raw fragments and the confidence figure of a deadline: they would only add easy members.
- Reading a hint and finding a date in the user's words: their outcome is a parameter of `Deadlines.Resolve`.
- Text fields of a task, comment rows and message texts: no branch modelled here looks at them.
- Persisted rows without an id (`TASK_ID_MISSING` and its like): every stored row has its id.
- Failures of the database other than a version conflict; a crash is modelled instead, between any two writes in `TaskProtocol` and `EscalationProtocol`.
- Finding the new assignee of a reassignment: it is a parameter of `UseCases.ReassignTaskTo`.
- UseCases.UpdateTaskStatus: other workers run between the read and the commit; the commit, its audit entry and its messages are taken together, and the clock is read once.
- UseCases.ReportTaskBlocker: the same holds here.
- UseCases.ReassignTaskTo: the same holds here.
- Recovery.ListOpenWithoutUser: identifiers are compared as the numbers that stand for them.
- EscalationProtocol.ToldExactlyWhenFinished: other workers on the same row at the same time are covered by `EscalationProtocol.AtMostOneMessage` only.
- Delivery.DeliverSingle: the batch around it, with its bounded concurrency and its first error, is not modelled.
- Recovery.EnsureAssignmentNotification: the look-up and the one write it leads to are taken together.
- Escalation.Tick: the rows the listing returned are a parameter, at most 500 of them; which ones a longer list would drop is not modelled, nor is a failed insert, which loses the message as a crash does.
- NameMatching.AssignedExactlyWhenCertain: lower-casing is an arbitrary function and similarity is an exact fraction, rounded half up, where the program uses floating point.
- Nonces.AdminNonceStore.Issue: nonces are taken as never repeating, which the program leaves to its identifier generator.
- Sends that bypass the barrier (plain messages of the handlers and of onboarding), callback answers, and stale callbacks: `GatewayProtocol.OneEffectPerUpdate` speaks of the gated helpers only.
- Dispatcher.Runtime.HandleUpdate: a handler is the list of helper calls it makes for its own chat; background sends are in `GatewayProtocol`.
- The rate limiter, the messenger, assistant, speech and spreadsheet clients, the HTTP server, keyboards, configuration and logging.
