/** Delivering one notification, and what a delivery does to the task it announces. */
module Delivery {
  import opened Prelude
  import opened BusinessTime
  import opened Tasks
  import opened Database
  import opened Policy
  import opened TaskProtocol
  import opened UseCases

  const SECOND := 1_000_000_000
  const MAX_ATTEMPTS := 3
  const RETRY_BASE_SECONDS := 60
  const RETRY_MAX_SECONDS := 3600

  /** What looking the recipient up yields. */
  datatype Recipient = NoSuchUser | NoChat | Reachable

  /** What the messenger answers. */
  datatype Answer = Accepted | GoneForGood | Trouble

  function PowerOfTwo(exponent: nat): nat {
    if exponent == 0 then 1 else 2 * PowerOfTwo(exponent - 1)
  }

  function Min(a: int, b: int): int {
    if a < b then a else b
  }

  function BackoffSeconds(attempt: int): int {
    var exponent := Min(if attempt - 1 > 0 then attempt - 1 else 0, 30);
    Min(RETRY_BASE_SECONDS * PowerOfTwo(exponent), RETRY_MAX_SECONDS)
  }

  function AfterFailure(row: Notification): Notification {
    row.(attempts := row.attempts + 1, delivery := Failed, nextAttemptAt := None)
  }

  /** The row's own count is raised, but what follows depends on the count the worker has read. */
  function AfterTroubleSeen(row: Notification, attempts: int, now: Instant): Notification {
    if attempts + 1 >= MAX_ATTEMPTS then AfterFailure(row)
    else
      row.(attempts := row.attempts + 1,
           delivery := RetryPending,
           nextAttemptAt := Some(now + BackoffSeconds(attempts + 1) * SECOND))
  }

  function AfterTrouble(n: Notification, now: Instant): Notification {
    AfterTroubleSeen(n, n.attempts, now)
  }

  function AfterAttemptSeen(row: Notification, attempts: int, recipient: Recipient, answer: Answer, now: Instant): Notification {
    if !recipient.Reachable? || answer.GoneForGood? then AfterFailure(row)
    else if answer.Accepted? then row.(delivery := Delivered, nextAttemptAt := None)
    else AfterTroubleSeen(row, attempts, now)
  }

  function AfterAttempt(n: Notification, recipient: Recipient, answer: Answer, now: Instant): Notification {
    AfterAttemptSeen(n, n.attempts, recipient, answer, now)
  }

  /** So a delivery is one of the steps other workers may take. */
  lemma AttemptEvolves(rows: seq<Notification>, index: nat, attempts: int, recipient: Recipient, answer: Answer, now: Instant)
    requires index < |rows|
    ensures NoticesEvolve(rows, rows[index := AfterAttemptSeen(rows[index], attempts, recipient, answer, now)])
  {
  }

  /** The first task with the given identifier, if any. */
  ghost predicate IsRelated(rows: map<TaskUid, Task>, taskId: Option<int>, uid: TaskUid) {
    uid in rows && taskId == Some(rows[uid].id)
  }

  /**
   One delivery. `related` names the task the notification is about; its row
   is read before the message goes out and written after, so `seen`, the
   tables found by then, may have moved on, the notification's own row included.
   */
  method DeliverSingle(
    db: Store, index: nat, related: Option<TaskUid>, recipient: Recipient, answer: Answer, now: Instant)
    returns (ghost seen: Tables)
    requires db.Valid() && index < |db.notifications|
    requires related.Some? ==> IsRelated(db.tasks, db.notifications[index].taskId, related.value)
    modifies db
    ensures db.Valid() && seen == old(db.Met()) && TablesEvolve(old(db.Snapshot()), seen)
    ensures db.Calm() ==> seen == old(db.Snapshot())
    ensures index < |seen.notifications|
    ensures db.notifications == seen.notifications[index :=
              AfterAttemptSeen(seen.notifications[index], old(db.notifications)[index].attempts, recipient, answer, now)]
    // the row, case by case
    ensures IsAttempted(seen.notifications[index], db.notifications[index], old(db.notifications)[index].attempts,
                        recipient, answer, now)
    // the task is marked sent exactly when this assignment was delivered and the task is untouched since Created
    ensures if Marks(old(db.Snapshot()), seen, index, related, recipient, answer) then
              && seen.tasks[related.value].status.Created?
              && TransitionTo(seen.tasks[related.value], Sent, now).Ok?
              && db.tasks == seen.tasks[related.value := TransitionTo(seen.tasks[related.value], Sent, now).value]
              && db.audit == seen.audit + [AuditEntry(seen.tasks[related.value].id, WasSent, Created, Sent, None)]
            else db.tasks == seen.tasks && db.audit == seen.audit
    // and then its assignee is the one the message went to exactly if that was so when the row was read
    ensures Marks(old(db.Snapshot()), seen, index, related, recipient, answer) ==>
              (db.tasks[related.value].assignedUser == Some(db.notifications[index].recipient) <==>
               old(db.tasks)[related.value].assignedUser == Some(old(db.notifications)[index].recipient))
  {
    hide IsFair, Log.At, AssignmentKeysAgree, KeysAreUnique, BackoffSeconds, MarkTimestamp, IsAttempted;
    var n := db.notifications[index];
    if !recipient.Reachable? {
      db.OthersRun();
      seen := db.Snapshot();
      db.MarkFailed(index);
      AttemptTells(seen.notifications[index], n.attempts, recipient, answer, now);
      return;
    }
    var task: Option<Task> := None;
    if related.Some? {
      task := db.FindByUid(related.value);
    }
    db.OthersRun();
    seen := db.Snapshot();
    AttemptTells(seen.notifications[index], n.attempts, recipient, answer, now);
    match answer {
      case Accepted =>
        db.MarkSent(index);
        MarkRelatedTaskAsSent(db, n.kind, task, now);
      case GoneForGood =>
        db.MarkFailed(index);
      case Trouble =>
        HandleTransientFailure(db, index, n.attempts + 1, now);
    }
  }

  /**
   What an attempt makes of a row, if the worker has read that `tried` attempts
   were made: delivered, given up at once or with the third trouble, or put off
   by one minute after the first and two minutes after the second.
   */
  predicate IsAttempted(
    before: Notification, after: Notification, tried: int, recipient: Recipient, answer: Answer, now: Instant)
  {
    var troubled := recipient.Reachable? && answer.Trouble?;
    && after.taskId == before.taskId && after.recipient == before.recipient && after.kind == before.kind
    && after.key == before.key && after.createdAt == before.createdAt
    && (after.delivery.Delivered? <==> recipient.Reachable? && answer.Accepted?)
    && (after.delivery.Failed? <==> !recipient.Reachable? || answer.GoneForGood? || (troubled && tried >= 2))
    && (after.delivery.RetryPending? <==> troubled && tried < 2)
    && after.attempts == before.attempts + (if after.delivery.Delivered? then 0 else 1)
    && after.nextAttemptAt ==
       (if !(troubled && tried < 2) then None
        else if tried == 1 then Some(now + 120_000_000_000)
        else Some(now + 60_000_000_000))
  }

  /** When a delivery marks its task: `read` are the tables it has read the rows from, `seen` those it writes to. */
  predicate Marks(
    read: Tables, seen: Tables, index: nat, related: Option<TaskUid>, recipient: Recipient, answer: Answer)
    requires index < |read.notifications|
    requires related.Some? ==> related.value in read.tasks && related.value in seen.tasks
  {
    && recipient.Reachable? && answer.Accepted? && read.notifications[index].kind.TaskAssigned?
    && related.Some? && read.tasks[related.value].status.Created?
    && seen.tasks[related.value].version == read.tasks[related.value].version
  }

  lemma AttemptTells(row: Notification, tried: int, recipient: Recipient, answer: Answer, now: Instant)
    ensures IsAttempted(row, AfterAttemptSeen(row, tried, recipient, answer, now), tried, recipient, answer, now)
  {
    assert PowerOfTwo(0) == 1 && PowerOfTwo(1) == 2;
  }

  method HandleTransientFailure(db: Store, index: nat, attempt: int, now: Instant)
    requires db.Valid() && index < |db.notifications|
    modifies db
    ensures db.Valid() && db.tasks == old(db.tasks) && db.audit == old(db.audit)
    ensures db.notifications ==
            old(db.notifications)[index := AfterTroubleSeen(old(db.notifications)[index], attempt - 1, now)]
  {
    hide BackoffSeconds;
    if attempt >= MAX_ATTEMPTS {
      db.MarkFailed(index);
    } else {
      db.MarkRetryPending(index, now + BackoffSeconds(attempt) * SECOND);
    }
  }

  /** `task` is a copy that may be out of date; a conflict is passed over in silence. */
  method MarkRelatedTaskAsSent(db: Store, kind: Kind, task: Option<Task>, now: Instant)
    requires db.Valid()
    requires task.Some? ==> Evolves(map[task.value.uid := task.value], db.tasks)
    modifies db
    ensures db.Valid() && db.notifications == old(db.notifications)
    ensures if kind.TaskAssigned? && task.Some? && task.value.status.Created?
               && old(db.tasks)[task.value.uid].version == task.value.version then
              var row := old(db.tasks)[task.value.uid];
              && row.status.Created? && TransitionTo(row, Sent, now).Ok?
              && db.tasks == old(db.tasks)[task.value.uid := TransitionTo(row, Sent, now).value]
              && db.audit == old(db.audit) + [AuditEntry(row.id, WasSent, Created, Sent, None)]
            else db.tasks == old(db.tasks) && db.audit == old(db.audit)
  {
    hide IsFair, Log.At, AssignmentKeysAgree, KeysAreUnique, MarkTimestamp;
    if !kind.TaskAssigned? || task.None? || !task.value.status.Created? {
      return;
    }
    ghost var row := db.tasks[task.value.uid];
    var updated := TransitionTo(task.value, Sent, now);
    var stored := db.UpdateTask(updated.value);
    if stored.Ok? {
      TransitionIgnoresTouch(task.value, row, Sent, now);
      db.Append(AuditEntry(stored.value.id, WasSent, Created, Sent, None));
    }
  }

  /** A new task of user 7's, and the message that tells 7 of it, not sent yet. */
  function AssignedToSeven(): Tables {
    var t := NewTask(1, 1, 2, Some(7), None, 0);
    Tables(map[1 := t], [Fresh(t, 7, TaskAssigned, AssignedKey(1, 7), 0)], [])
  }

  lemma SevenIsValid()
    ensures AreValid(AssignedToSeven())
  {
  }

  /**
   A run without any interference: the creator hands the task over to user 8,
   and then the old message reaches user 7. The task is marked as sent, though
   8 has not been told.
   */
  method OldMessageMarksReassigned() returns (db: Store)
    ensures db.Valid() && db.start == AssignedToSeven()
    ensures 1 in db.tasks && db.tasks[1].status.Sent? && db.tasks[1].assignedUser == Some(8)
    ensures |db.notifications| == 2
    ensures db.notifications[0].recipient == 7 && db.notifications[0].delivery.Delivered?
    ensures db.notifications[1].recipient == 8 && db.notifications[1].delivery.Pending?
  {
    hide IsFair, Log.At, BackoffSeconds, AreValid, TablesEvolve;
    NobodyIsFair();
    SevenIsValid();
    db := new Store(Nobody, AssignedToSeven());
    assert db.Calm();
    var moved, found := ReassignTaskTo(db, Actor(Some(2), RegularUser), 1, Some(8), None, 1);
    assert moved.Ok? && db.tasks[1].status.Created? && db.tasks[1].assignedUser == Some(8);
    var seen := DeliverSingle(db, 0, Some(1), Reachable, Accepted, 2);
  }

  // ---- Retries ----

  /** A notification as it comes out of a run of troubled attempts; failed ones are not attempted again. */
  function AfterTroubles(n: Notification, at: seq<Instant>): Notification {
    if at == [] then n
    else
      var before := AfterTroubles(n, at[..|at| - 1]);
      if before.delivery.Failed? then before else AfterTrouble(before, at[|at| - 1])
  }

  /**
   A fresh notification fails for good on its third troubled attempt and not
   earlier; the waits before that are 60 and 120 seconds, so the announced
   wait of 240 seconds and the cap of an hour are never reached.
   */
  lemma {:induction false} ThreeAttempts(n: Notification, at: seq<Instant>)
    requires n.delivery.Pending? && n.attempts == 0
    ensures var after := AfterTroubles(n, at);
            && after.attempts == Min(|at|, MAX_ATTEMPTS)
            && (after.delivery.Failed? <==> |at| >= MAX_ATTEMPTS)
            && (0 < |at| < MAX_ATTEMPTS ==>
                  && after.delivery.RetryPending?
                  && after.nextAttemptAt == Some(at[|at| - 1] + (if |at| == 1 then 60 else 120) * SECOND))
  {
    if at != [] {
      var before := at[..|at| - 1];
      ThreeAttempts(n, before);
      assert PowerOfTwo(0) == 1 && PowerOfTwo(1) == 2;
      if |at| == 1 {
        assert AfterTroubles(n, before) == n;
      }
    }
  }

  /**
   The same on the store, delivery by delivery: undisturbed, a fresh message
   that meets nothing but trouble is put off by one minute and then by two, and
   is given up with its third delivery and not before.
   */
  method DeliverInTrouble(db: Store, index: nat, related: Option<TaskUid>, at: seq<Instant>)
    requires db.Valid() && db.Calm() && index < |db.notifications|
    requires db.notifications[index].delivery.Pending? && db.notifications[index].attempts == 0
    requires related.Some? ==> IsRelated(db.tasks, db.notifications[index].taskId, related.value)
    modifies db
    ensures db.Valid() && db.tasks == old(db.tasks) && db.audit == old(db.audit)
    ensures index < |db.notifications|
    ensures var row := db.notifications[index];
            && db.notifications == old(db.notifications)[index := row]
            && row.attempts == (if |at| < 3 then |at| else 3)
            && (row.delivery.Failed? <==> |at| >= 3)
            && (row.delivery.RetryPending? <==> 0 < |at| < 3)
            && (|at| == 1 ==> row.nextAttemptAt == Some(at[0] + 60_000_000_000))
            && (|at| == 2 ==> row.nextAttemptAt == Some(at[1] + 120_000_000_000))
  {
    hide IsFair, Log.At, AssignmentKeysAgree, KeysAreUnique, AfterAttemptSeen, TablesEvolve;
    for i := 0 to |at|
      invariant db.Valid() && db.tasks == old(db.tasks) && db.audit == old(db.audit)
      invariant index < |db.notifications| && db.notifications == old(db.notifications)[index := db.notifications[index]]
      invariant db.notifications[index].taskId == old(db.notifications)[index].taskId
      invariant db.notifications[index].attempts == (if i < 3 then i else 3)
      invariant db.notifications[index].delivery.Failed? <==> i >= 3
      invariant db.notifications[index].delivery.RetryPending? <==> 0 < i < 3
      invariant i == 1 ==> db.notifications[index].nextAttemptAt == Some(at[0] + 60_000_000_000)
      invariant i == 2 ==> db.notifications[index].nextAttemptAt == Some(at[1] + 120_000_000_000)
    {
      // a failed message is not listed any more
      if !db.notifications[index].delivery.Failed? {
        var seen := DeliverSingle(db, index, related, Reachable, Trouble, at[i]);
      }
    }
  }

  /**
   A notification put back into the queue keeps its attempts: its next trouble
   fails it for good exactly if it had two of them, and is retried otherwise.
   */
  lemma RequeuedFailsExactlyWhen(n: Notification, now: Instant)
    ensures var again := AfterTrouble(n.(delivery := Pending, nextAttemptAt := None), now);
            && (again.delivery.Failed? <==> n.attempts >= MAX_ATTEMPTS - 1)
            && (!again.delivery.Failed? <==> again.delivery.RetryPending?)
            && again.attempts == n.attempts + 1
  {
  }

  /**
   Of the fresh notifications that failed, those given up at once, for want of
   a chat say, are retried after the requeue; those worn out by trouble are not.
   */
  lemma {:induction false} RequeueHelpsTheUnreached(n: Notification, at: seq<Instant>, answer: Answer, now: Instant)
    requires n.delivery.Pending? && n.attempts == 0
    ensures var unreached := AfterAttempt(n, NoChat, answer, now);
            unreached.delivery.Failed?
            && AfterTrouble(unreached.(delivery := Pending, nextAttemptAt := None), now).delivery.RetryPending?
    ensures var worn := AfterTroubles(n, at);
            worn.delivery.Failed? ==> AfterTrouble(worn.(delivery := Pending, nextAttemptAt := None), now).delivery.Failed?
  {
    ThreeAttempts(n, at);
  }
}
