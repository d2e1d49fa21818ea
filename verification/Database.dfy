/**
 The tables the use cases write, behind the repository operations they call.
 Each operation is one SQL statement and so one atomic step.
 */
module Database {
  import opened Prelude
  import opened BusinessTime
  import opened Tasks

  datatype Kind =
    | TaskAssigned | TaskUpdated | TaskCompleted | TaskCancelled | TaskReviewRequested | TaskBlocked | SlaEscalation

  datatype Delivery = Pending | Delivered | RetryPending | Failed

  /** The text keys of the program, one constructor per prefix. */
  datatype DedupeKey =
    | StatusKey(uid: TaskUid, recipient: UserId, status: Status, version: int)
    | ReassignedKey(uid: TaskUid, recipient: UserId, version: int)
    | BlockedKey(uid: TaskUid, recipient: UserId, version: int)
    | AssignedKey(uid: TaskUid, recipient: UserId)
    | SlaKey(uid: TaskUid, level: int)

  /** The position of a row in the table is its identifier. */
  datatype Notification = Notification(
    taskId: Option<int>,
    recipient: UserId,
    kind: Kind,
    key: DedupeKey,
    delivery: Delivery,
    attempts: int,
    nextAttemptAt: Option<Instant>,
    createdAt: Instant)

  datatype AuditAction = StatusChanged | ReviewWasRequested | Reassigned | WasBlocked | WasSent | WasAssigned

  datatype AuditEntry = AuditEntry(taskId: int, action: AuditAction, before: Status, after: Status, changedBy: Option<UserId>)

  // ---- Statements, as functions on tables ----

  predicate Consistent(rows: map<TaskUid, Task>) {
    forall uid :: uid in rows ==> rows[uid].uid == uid
  }

  /** `UPDATE ... WHERE task_uid = ? AND version = ?` hits a row. */
  predicate CasHits(rows: map<TaskUid, Task>, t: Task) {
    t.uid in rows && rows[t.uid].version == t.version - 1
  }

  /** The columns the statement does not set keep their values. */
  function Written(row: Task, t: Task): Task {
    t.(id := row.id, createdBy := row.createdBy, createdAt := row.createdAt)
  }

  /** `INSERT OR IGNORE` on the unique key. */
  function Enqueued(rows: seq<Notification>, n: Notification): seq<Notification> {
    if exists i :: 0 <= i < |rows| && rows[i].key == n.key then rows else rows + [n]
  }

  predicate KeysAreUnique(rows: seq<Notification>) {
    forall i, k :: 0 <= i < k < |rows| ==> rows[i].key != rows[k].key
  }

  predicate HasKey(rows: seq<Notification>, key: DedupeKey) {
    exists i :: 0 <= i < |rows| && rows[i].key == key
  }

  lemma EnqueuedHas(rows: seq<Notification>, n: Notification, key: DedupeKey)
    requires KeysAreUnique(rows)
    ensures rows <= Enqueued(rows, n) && KeysAreUnique(Enqueued(rows, n))
    ensures HasKey(Enqueued(rows, n), key) <==> HasKey(rows, key) || key == n.key
  {
    if HasKey(rows, key) {
      var i :| 0 <= i < |rows| && rows[i].key == key;
      assert Enqueued(rows, n)[i].key == key;
    }
    if key == n.key && !HasKey(rows, key) {
      assert (rows + [n])[|rows|].key == key;
    }
  }

  function Fresh(
    t: Task, recipient: UserId, kind: Kind, key: DedupeKey, now: Instant): Notification
  {
    Notification(Some(t.id), recipient, kind, key, Pending, 0, None, now)
  }

  // ---- What other workers may do to a task row meanwhile ----

  /** Equal but for the one column the escalation worker writes without taking a version. */
  predicate SameVersionOf(a: Task, b: Task) {
    b == a.(updatedAt := b.updatedAt)
  }

  /** Rows are never lost, versions never fall, and an unchanged version means an unchanged row. */
  predicate Evolves(before: map<TaskUid, Task>, after: map<TaskUid, Task>) {
    forall uid :: uid in before ==>
      && uid in after
      && before[uid].version <= after[uid].version
      && (before[uid].version == after[uid].version ==> SameVersionOf(before[uid], after[uid]))
      && after[uid].id == before[uid].id && after[uid].uid == before[uid].uid
      && after[uid].createdBy == before[uid].createdBy && after[uid].createdAt == before[uid].createdAt
  }

  /** Rows keep their place and what they are about; only how far their delivery has come may change, and rows are added. */
  predicate NoticesEvolve(before: seq<Notification>, after: seq<Notification>) {
    && |before| <= |after|
    && forall i :: 0 <= i < |before| ==>
         && after[i].taskId == before[i].taskId && after[i].recipient == before[i].recipient
         && after[i].kind == before[i].kind && after[i].key == before[i].key
         && after[i].createdAt == before[i].createdAt
         && after[i].attempts >= before[i].attempts
  }

  lemma NoticesEvolveOn(a: seq<Notification>, b: seq<Notification>, c: seq<Notification>)
    requires NoticesEvolve(a, b) && NoticesEvolve(b, c)
    ensures NoticesEvolve(a, c)
  {
  }

  /** Enqueueing is such a step, and so is whatever keeps a row's identity and attempts. */
  lemma NoticeStepsEvolve(rows: seq<Notification>, n: Notification, index: nat, delivery: Delivery, next: Option<Instant>, tries: nat)
    requires index < |rows|
    ensures NoticesEvolve(rows, Enqueued(rows, n))
    ensures NoticesEvolve(rows, rows[index := rows[index].(delivery := delivery, nextAttemptAt := next,
                                                            attempts := rows[index].attempts + tries)])
  {
  }

  /** An assignment key is used for the assignment of the task it names, and no key names a version yet to come. */
  predicate KeyAgrees(n: Notification, tasks: map<TaskUid, Task>) {
    match n.key
    case AssignedKey(uid, recipient) => uid in tasks && IsFor(n, tasks[uid].id, recipient, TaskAssigned)
    case StatusKey(uid, _, _, version) => uid in tasks && version <= tasks[uid].version
    case ReassignedKey(uid, _, version) => uid in tasks && version <= tasks[uid].version
    case BlockedKey(uid, _, version) => uid in tasks && version <= tasks[uid].version
    case SlaKey(_, _) => true
  }

  predicate AssignmentKeysAgree(rows: seq<Notification>, tasks: map<TaskUid, Task>) {
    forall i :: 0 <= i < |rows| ==> KeyAgrees(rows[i], tasks)
  }

  /** All tables at one moment. */
  datatype Tables = Tables(tasks: map<TaskUid, Task>, notifications: seq<Notification>, audit: seq<AuditEntry>)

  /** What any number of steps of other workers may do to the tables. */
  predicate TablesEvolve(before: Tables, after: Tables) {
    && Evolves(before.tasks, after.tasks)
    && NoticesEvolve(before.notifications, after.notifications)
    && before.audit <= after.audit
  }

  predicate AreValid(t: Tables) {
    Consistent(t.tasks) && KeysAreUnique(t.notifications) && AssignmentKeysAgree(t.notifications, t.tasks)
  }

  /**
   The other workers: what they have made of the tables by an await point. They
   may be any function of how far the run has come and of what they find.
   */
  type Others = (nat, Tables) -> Tables

  /**
   Nothing more is asked of them than this: `TaskProtocol.EveryStepKeeps`
   proves what it says of tasks, `NoticeStepsEvolve` what it says of messages.
   */
  ghost predicate IsFair(others: Others) {
    forall n, t :: AreValid(t) ==> AreValid(others(n, t)) && TablesEvolve(t, others(n, t))
  }

  /** Nobody else runs. */
  function Nobody(n: nat, t: Tables): Tables {
    t
  }

  lemma NobodyIsFair()
    ensures IsFair(Nobody)
  {
  }

  // ---- What is done to the tables, statement by statement ----

  datatype Statement =
    | OthersRan
    | Saved(row: Task)
    | Audited(entry: AuditEntry)
    | Queued(notice: Notification)
    | Marked(index: nat, delivery: Delivery, next: Option<Instant>, tries: nat)

  function MarkedRow(n: Notification, delivery: Delivery, next: Option<Instant>, tries: nat): Notification {
    n.(delivery := delivery, nextAttemptAt := next, attempts := n.attempts + tries)
  }

  function Execute(others: Others, n: nat, t: Tables, s: Statement): Tables {
    match s
    case OthersRan => others(n, t)
    case Saved(row) =>
      if CasHits(t.tasks, row) then t.(tasks := t.tasks[row.uid := Written(t.tasks[row.uid], row)]) else t
    case Audited(entry) => t.(audit := t.audit + [entry])
    case Queued(notice) => t.(notifications := Enqueued(t.notifications, notice))
    case Marked(index, delivery, next, tries) =>
      if index < |t.notifications| then
        t.(notifications := t.notifications[index := MarkedRow(t.notifications[index], delivery, next, tries)])
      else t
  }

  /** A run: the tables it began with, and the statements since. */
  datatype Log = Log(others: Others, start: Tables, statements: seq<Statement>)
  {
    /** The tables after the first `n` statements. */
    function At(n: nat): Tables
      requires n <= |statements|
    {
      if n == 0 then start else Execute(others, n - 1, At(n - 1), statements[n - 1])
    }

    ghost predicate Continues(earlier: Log) {
      others == earlier.others && start == earlier.start && earlier.statements <= statements
    }
  }

  /** What has happened stays as it was. */
  lemma {:induction false} PastStays(earlier: Log, log: Log, n: nat)
    requires log.Continues(earlier) && n <= |earlier.statements|
    ensures log.At(n) == earlier.At(n)
  {
    if n > 0 {
      PastStays(earlier, log, n - 1);
    }
  }

  class Store {
    var tasks: map<TaskUid, Task>
    var notifications: seq<Notification>
    var audit: seq<AuditEntry>

    /** How many statements have been executed. */
    var turn: nat
    const others: Others

    ghost const start: Tables
    ghost var done: seq<Statement>

    /** The tables are what the statements so far have made of the first ones, and nothing else. */
    ghost predicate Valid()
      reads this
    {
      && AreValid(Snapshot()) && IsFair(others)
      && turn == |done| && History().At(turn) == Snapshot()
    }

    ghost function Snapshot(): Tables
      reads this
    {
      Tables(tasks, notifications, audit)
    }

    ghost function History(): Log
      reads this
    {
      Log(others, start, done)
    }

    /** The tables as the next await point will leave them. */
    ghost function Met(): Tables
      reads this
    {
      others(turn, Snapshot())
    }

    /** No other worker runs. */
    ghost predicate Calm() {
      forall n, t :: others(n, t) == t
    }

    constructor (others: Others, start: Tables)
      requires IsFair(others) && AreValid(start)
      ensures Valid() && Snapshot() == start && done == [] && this.others == others && this.start == start
    {
      tasks, notifications, audit := start.tasks, start.notifications, start.audit;
      turn := 0;
      this.others := others;
      this.start := start;
      done := [];
    }

    /** Any number of steps of other workers at an await point. */
    method OthersRun()
      requires Valid()
      modifies this
      ensures Valid() && done == old(done) + [OthersRan]
      ensures Snapshot() == old(Met())
      ensures TablesEvolve(old(Snapshot()), Snapshot())
      ensures Calm() ==> Snapshot() == old(Snapshot())
    {
      ghost var before := History();
      var met := others(turn, Tables(tasks, notifications, audit));
      tasks, notifications, audit := met.tasks, met.notifications, met.audit;
      turn := turn + 1;
      done := done + [OthersRan];
      PastStays(before, History(), |before.statements|);
    }

    method FindByUid(uid: TaskUid) returns (r: Option<Task>)
      ensures r == if uid in tasks then Some(tasks[uid]) else None
    {
      r := if uid in tasks then Some(tasks[uid]) else None;
    }

    method UpdateTask(t: Task) returns (r: Result<Task, Refusal>)
      requires Valid()
      modifies this`tasks, this`turn, this`done
      ensures Valid() && done == old(done) + [Saved(t)]
      ensures old(CasHits(tasks, t)) ==>
                r == Ok(Written(old(tasks)[t.uid], t)) && tasks == old(tasks)[t.uid := Written(old(tasks)[t.uid], t)]
      ensures !old(CasHits(tasks, t)) ==> r == Err(VersionConflict) && tasks == old(tasks)
    {
      ghost var before := History();
      turn := turn + 1;
      done := done + [Saved(t)];
      PastStays(before, History(), |before.statements|);
      if t.uid in tasks && tasks[t.uid].version == t.version - 1 {
        var row := Written(tasks[t.uid], t);
        tasks := tasks[t.uid := row];
        return Ok(row);
      }
      return Err(VersionConflict);
    }

    method Append(entry: AuditEntry)
      requires Valid()
      modifies this`audit, this`turn, this`done
      ensures Valid() && done == old(done) + [Audited(entry)]
      ensures audit == old(audit) + [entry]
    {
      ghost var before := History();
      audit := audit + [entry];
      turn := turn + 1;
      done := done + [Audited(entry)];
      PastStays(before, History(), |before.statements|);
    }

    method Enqueue(n: Notification)
      requires Valid() && KeyAgrees(n, tasks)
      modifies this`notifications, this`turn, this`done
      ensures Valid() && done == old(done) + [Queued(n)]
      ensures notifications == Enqueued(old(notifications), n)
    {
      ghost var before := History();
      turn := turn + 1;
      done := done + [Queued(n)];
      PastStays(before, History(), |before.statements|);
      var i := 0;
      while i < |notifications|
        invariant 0 <= i <= |notifications|
        invariant forall k :: 0 <= k < i ==> notifications[k].key != n.key
      {
        if notifications[i].key == n.key {
          return;
        }
        i := i + 1;
      }
      notifications := notifications + [n];
    }

    /** `SET delivery_state = 'pending', next_attempt_at = NULL`. */
    method Requeue(index: nat)
      requires Valid() && index < |notifications|
      modifies this`notifications, this`turn, this`done
      ensures Valid() && done == old(done) + [Marked(index, Pending, None, 0)]
      ensures notifications == old(notifications)[index := old(notifications)[index].(delivery := Pending, nextAttemptAt := None)]
    {
      Mark(index, Pending, None, 0);
    }

    /** `SET delivery_state = 'sent', next_attempt_at = NULL`. */
    method MarkSent(index: nat)
      requires Valid() && index < |notifications|
      modifies this`notifications, this`turn, this`done
      ensures Valid() && done == old(done) + [Marked(index, Delivered, None, 0)]
      ensures notifications == old(notifications)[index := old(notifications)[index].(delivery := Delivered, nextAttemptAt := None)]
    {
      Mark(index, Delivered, None, 0);
    }

    /** `SET attempt_count = attempt_count + 1, delivery_state = 'retry_pending', next_attempt_at = ?`. */
    method MarkRetryPending(index: nat, next: Instant)
      requires Valid() && index < |notifications|
      modifies this`notifications, this`turn, this`done
      ensures Valid() && done == old(done) + [Marked(index, RetryPending, Some(next), 1)]
      ensures notifications ==
              old(notifications)[index := MarkedRow(old(notifications)[index], RetryPending, Some(next), 1)]
    {
      Mark(index, RetryPending, Some(next), 1);
    }

    /** `SET attempt_count = attempt_count + 1, delivery_state = 'failed', next_attempt_at = NULL`. */
    method MarkFailed(index: nat)
      requires Valid() && index < |notifications|
      modifies this`notifications, this`turn, this`done
      ensures Valid() && done == old(done) + [Marked(index, Failed, None, 1)]
      ensures notifications == old(notifications)[index := MarkedRow(old(notifications)[index], Failed, None, 1)]
    {
      Mark(index, Failed, None, 1);
    }

    method Mark(index: nat, delivery: Delivery, next: Option<Instant>, tries: nat)
      requires Valid() && index < |notifications|
      modifies this`notifications, this`turn, this`done
      ensures Valid() && done == old(done) + [Marked(index, delivery, next, tries)]
      ensures notifications == old(notifications)[index := MarkedRow(old(notifications)[index], delivery, next, tries)]
    {
      ghost var before := History();
      notifications := notifications[index := MarkedRow(notifications[index], delivery, next, tries)];
      turn := turn + 1;
      done := done + [Marked(index, delivery, next, tries)];
      PastStays(before, History(), |before.statements|);
    }

    /** The newest notification of a kind for a task and a recipient. */
    method FindLatest(taskId: int, recipient: UserId, kind: Kind) returns (r: Option<nat>)
      ensures r.None? ==> forall i :: 0 <= i < |notifications| ==> !IsFor(notifications[i], taskId, recipient, kind)
      ensures r.Some? ==> r.value < |notifications| && IsFor(notifications[r.value], taskId, recipient, kind)
      ensures r.Some? ==>
                forall i :: 0 <= i < |notifications| && IsFor(notifications[i], taskId, recipient, kind) ==>
                  || notifications[i].createdAt < notifications[r.value].createdAt
                  || (notifications[i].createdAt == notifications[r.value].createdAt && i <= r.value)
    {
      r := None;
      for i := 0 to |notifications|
        invariant r.None? ==> forall k :: 0 <= k < i ==> !IsFor(notifications[k], taskId, recipient, kind)
        invariant r.Some? ==> r.value < i && IsFor(notifications[r.value], taskId, recipient, kind)
        invariant r.Some? ==>
                    forall k :: 0 <= k < i && IsFor(notifications[k], taskId, recipient, kind) ==>
                      || notifications[k].createdAt < notifications[r.value].createdAt
                      || (notifications[k].createdAt == notifications[r.value].createdAt && k <= r.value)
      {
        if IsFor(notifications[i], taskId, recipient, kind)
           && (r.None? || notifications[r.value].createdAt <= notifications[i].createdAt) {
          r := Some(i);
        }
      }
    }
  }

  predicate IsFor(n: Notification, taskId: int, recipient: UserId, kind: Kind) {
    n.taskId == Some(taskId) && n.recipient == recipient && n.kind == kind
  }
}
