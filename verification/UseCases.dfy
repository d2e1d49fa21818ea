/**
 The use cases that write a task on somebody's behalf. Between the read and
 the write other workers may run; `seen` are the tables as the write finds
 them.
 */
module UseCases {
  import opened Prelude
  import opened BusinessTime
  import opened Tasks
  import opened Policy
  import opened Database
  import opened TaskProtocol

  // ---- Notifying the participants of a status change ----

  function KindFor(status: Status): Kind {
    match status
    case Completed => TaskCompleted
    case Cancelled => TaskCancelled
    case InReview => TaskReviewRequested
    case Blocked => TaskBlocked
    case _ => TaskUpdated
  }

  function StatusNotice(t: Task, recipient: UserId, now: Instant): Notification {
    Fresh(t, recipient, KindFor(t.status), StatusKey(t.uid, recipient, t.status, t.version), now)
  }

  function Participants(t: Task): seq<UserId> {
    [t.createdBy] + if t.assignedUser.Some? then [t.assignedUser.value] else []
  }

  /** The table after notifying the first `n` participants other than the actor. */
  function Notified(rows: seq<Notification>, t: Task, actor: Actor, now: Instant, n: nat): seq<Notification>
    requires n <= |Participants(t)|
  {
    if n == 0 then rows
    else
      var before := Notified(rows, t, actor, now, n - 1);
      var recipient := Participants(t)[n - 1];
      if Some(recipient) == actor.id then before else Enqueued(before, StatusNotice(t, recipient, now))
  }

  /** Who hears of a status change: the creator and the assignee, each once, but never the actor. */
  lemma NoticesReachTheOthers(rows: seq<Notification>, t: Task, actor: Actor, now: Instant, recipient: UserId)
    requires KeysAreUnique(rows) && !HasKey(rows, StatusKey(t.uid, recipient, t.status, t.version))
    ensures var after := Notified(rows, t, actor, now, |Participants(t)|);
            && rows <= after && |after| <= |rows| + 2 && KeysAreUnique(after)
            && (HasKey(after, StatusKey(t.uid, recipient, t.status, t.version))
                <==> recipient in Participants(t) && Some(recipient) != actor.id)
  {
    var key := StatusKey(t.uid, recipient, t.status, t.version);
    var one := Notified(rows, t, actor, now, 1);
    assert Notified(rows, t, actor, now, 0) == rows;
    EnqueuedHas(rows, StatusNotice(t, t.createdBy, now), key);
    assert Participants(t)[0] == t.createdBy;
    if t.assignedUser.Some? {
      assert Participants(t)[1] == t.assignedUser.value;
      EnqueuedHas(one, StatusNotice(t, t.assignedUser.value, now), key);
    }
  }

  /** Which kind of message tells of a new status. */
  predicate KindTells(kind: Kind, status: Status) {
    && (kind.TaskCompleted? <==> status.Completed?)
    && (kind.TaskCancelled? <==> status.Cancelled?)
    && (kind.TaskReviewRequested? <==> status.InReview?)
    && (kind.TaskBlocked? <==> status.Blocked?)
    && (kind.TaskUpdated? <==> status.Created? || status.Sent? || status.InProgress?)
  }

  /** A message about `t` to `n.recipient` that has just been queued. */
  predicate IsFreshAbout(n: Notification, t: Task, now: Instant) {
    && n.taskId == Some(t.id) && n.delivery.Pending? && n.attempts == 0
    && n.nextAttemptAt.None? && n.createdAt == now
  }

  /**
   The rows that a status change adds: one for the creator and one for the
   assignee, unless one of them is the actor or they are the same person, and
   none for anybody else.
   */
  ghost predicate TellsParticipants(before: seq<Notification>, after: seq<Notification>, t: Task, actor: Actor, now: Instant) {
    && before <= after
    && (forall u: UserId ::
          (exists i :: |before| <= i < |after| && after[i].recipient == u)
          <==> (u == t.createdBy || t.assignedUser == Some(u)) && actor.id != Some(u))
    && (forall i, k :: |before| <= i < k < |after| ==> after[i].recipient != after[k].recipient)
    && (forall i :: |before| <= i < |after| ==> IsFreshAbout(after[i], t, now) && KindTells(after[i].kind, t.status))
  }

  /** Which holds as long as no key names the new version yet. */
  lemma ParticipantsAreTold(rows: seq<Notification>, t: Task, actor: Actor, now: Instant)
    requires KeysAreUnique(rows)
    requires forall u :: !HasKey(rows, StatusKey(t.uid, u, t.status, t.version))
    ensures TellsParticipants(rows, Notified(rows, t, actor, now, |Participants(t)|), t, actor, now)
  {
    var first := if Some(t.createdBy) == actor.id then [] else [StatusNotice(t, t.createdBy, now)];
    var tellsAssignee := t.assignedUser.Some? && t.assignedUser != actor.id && t.assignedUser != Some(t.createdBy);
    var second := if tellsAssignee then [StatusNotice(t, t.assignedUser.value, now)] else [];
    NotifiedAppends(rows, t, actor, now, first, second);
    hide StatusNotice, Notified, Participants, KeysAreUnique, HasKey;
    NoticeIsFresh(t, t.createdBy, now);
    if tellsAssignee {
      NoticeIsFresh(t, t.assignedUser.value, now);
    }
    var after := rows + first + second;
    if first != [] {
      assert after[|rows|] == first[0];
    }
    if second != [] {
      assert after[|rows| + |first|] == second[0];
    }
  }

  lemma NoticeIsFresh(t: Task, recipient: UserId, now: Instant)
    ensures var n := StatusNotice(t, recipient, now);
            n.recipient == recipient && IsFreshAbout(n, t, now) && KindTells(n.kind, t.status)
  {
  }

  lemma NotifiedAppends(
    rows: seq<Notification>, t: Task, actor: Actor, now: Instant, first: seq<Notification>, second: seq<Notification>)
    requires KeysAreUnique(rows)
    requires forall u :: !HasKey(rows, StatusKey(t.uid, u, t.status, t.version))
    requires first == if Some(t.createdBy) == actor.id then [] else [StatusNotice(t, t.createdBy, now)]
    requires second == if t.assignedUser.Some? && t.assignedUser != actor.id && t.assignedUser != Some(t.createdBy)
                       then [StatusNotice(t, t.assignedUser.value, now)] else []
    ensures Notified(rows, t, actor, now, |Participants(t)|) == rows + first + second
  {
    hide KindFor, HasKey;
    var one := Notified(rows, t, actor, now, 1);
    assert Notified(rows, t, actor, now, 0) == rows;
    assert Participants(t)[0] == t.createdBy;
    assert !HasKey(rows, StatusKey(t.uid, t.createdBy, t.status, t.version));
    QueuedIsNew(rows, StatusNotice(t, t.createdBy, now));
    assert one == rows + first;
    if t.assignedUser.Some? && t.assignedUser != actor.id {
      var assignee := t.assignedUser.value;
      assert Participants(t)[1] == assignee;
      EnqueuedHas(rows, StatusNotice(t, t.createdBy, now), StatusKey(t.uid, assignee, t.status, t.version));
      if assignee == t.createdBy {
        assert one[|rows|].key == StatusNotice(t, assignee, now).key;
      } else {
        assert !HasKey(rows, StatusKey(t.uid, assignee, t.status, t.version));
        QueuedIsNew(one, StatusNotice(t, assignee, now));
      }
    } else if t.assignedUser.Some? {
      assert Participants(t)[1] == t.assignedUser.value;
    }
  }

  /** A row whose key is not taken is appended as it is. */
  lemma QueuedIsNew(rows: seq<Notification>, n: Notification)
    ensures !HasKey(rows, n.key) ==> Enqueued(rows, n) == rows + [n]
  {
  }

  /** The keys of version `t.version` are not taken before it is committed. */
  lemma KeysAreNotTakenYet(found: Tables, t: Task)
    requires AssignmentKeysAgree(found.notifications, found.tasks)
    requires t.uid in found.tasks && found.tasks[t.uid].version < t.version
    ensures forall u :: !HasKey(found.notifications, StatusKey(t.uid, u, t.status, t.version))
    ensures forall u :: !HasKey(found.notifications, BlockedKey(t.uid, u, t.version))
    ensures forall u :: !HasKey(found.notifications, ReassignedKey(t.uid, u, t.version))
  {
    forall i | 0 <= i < |found.notifications| ensures KeyAgrees(found.notifications[i], found.tasks) {
    }
  }

  // ---- Status change ----

  method UpdateTaskStatus(db: Store, actor: Actor, uid: TaskUid, requested: Status, now: Instant)
    returns (r: Result<Task, Refusal>, ghost seen: Tables)
    requires db.Valid()
    modifies db
    ensures db.Valid() && TablesEvolve(old(db.Snapshot()), seen) && (db.Calm() ==> seen == old(db.Snapshot()))
    // the others run exactly once, if the request is not refused on the copy that was read
    ensures seen == if uid in old(db.tasks) && ChangeStatus(actor, old(db.tasks)[uid], requested, now).Ok?
                    then old(db.Met()) else old(db.Snapshot())
    // what was decided on that copy
    ensures uid !in old(db.tasks) ==> r == Err(NotFound)
    ensures uid in old(db.tasks) ==>
              var decided := ChangeStatus(actor, old(db.tasks)[uid], requested, now);
              if decided.Err? then r == Err(decided.error)
              else if seen.tasks[uid].version != old(db.tasks)[uid].version then r == Err(VersionConflict)
              else r.Ok?
    // what was done to the row that was found
    ensures r.Ok? ==>
              && uid in seen.tasks
              && ChangeStatus(actor, seen.tasks[uid], requested, now) == r
              && db.tasks == seen.tasks[uid := r.value]
              && db.notifications == Notified(seen.notifications, r.value, actor, now, |Participants(r.value)|)
              && db.audit == seen.audit + [AuditEntry(r.value.id,
                   if r.value.status.InReview? then ReviewWasRequested else StatusChanged,
                   seen.tasks[uid].status, r.value.status, actor.id)]
    // whom it tells
    ensures r.Ok? ==> TellsParticipants(seen.notifications, db.notifications, r.value, actor, now)
    ensures r.Err? ==> db.Snapshot() == seen
  {
    hide IsFair, Log.At, AssignmentKeysAgree, KeysAreUnique, MarkTimestamp, Participants, IsFor;
    seen := db.Snapshot();
    var found := db.FindByUid(uid);
    if found.None? {
      return Err(NotFound), seen;
    }
    var task := found.value;
    var next := NormalizeRequestedStatus(actor, task, requested);
    if next.Err? {
      return Err(next.error), seen;
    }
    var allowed := EnsureCanChangeStatus(actor, task, next.value);
    if allowed.Err? {
      return Err(allowed.error), seen;
    }
    var updated := TransitionTo(task, next.value, now);
    if updated.Err? {
      return Err(updated.error), seen;
    }
    db.OthersRun();
    seen := db.Snapshot();
    var saved := db.UpdateTask(updated.value);
    if saved.Err? {
      return saved, seen;
    }
    ChangeIgnoresTouch(actor, requested, task, seen.tasks[uid], now);
    db.Append(AuditEntry(saved.value.id,
                         if next.value.InReview? then ReviewWasRequested else StatusChanged,
                         task.status, next.value, actor.id));
    KeysAreNotTakenYet(seen, saved.value);
    EnqueueParticipantNotifications(db, saved.value, actor, now);
    ParticipantsAreTold(seen.notifications, saved.value, actor, now);
    return saved, seen;
  }

  method EnqueueParticipantNotifications(db: Store, t: Task, actor: Actor, now: Instant)
    requires db.Valid() && t.uid in db.tasks && t.version <= db.tasks[t.uid].version
    modifies db
    ensures db.Valid() && db.tasks == old(db.tasks) && db.audit == old(db.audit)
    ensures db.notifications == Notified(old(db.notifications), t, actor, now, |Participants(t)|)
  {
    hide IsFair, Log.At, AssignmentKeysAgree, KeysAreUnique, Participants;
    var recipients := Participants(t);
    for i := 0 to |recipients|
      invariant db.Valid() && db.tasks == old(db.tasks) && db.audit == old(db.audit)
      invariant db.notifications == Notified(old(db.notifications), t, actor, now, i)
    {
      if Some(recipients[i]) == actor.id {
        continue;
      }
      db.Enqueue(StatusNotice(t, recipients[i], now));
    }
  }

  // ---- Blocker ----

  /** `TaskComment::new` accepts every reason a task accepts, so the use case cannot fail after its commit. */
  method ReportTaskBlocker(db: Store, actor: Actor, uid: TaskUid, reason: string, now: Instant)
    returns (r: Result<Task, Refusal>, ghost seen: Tables)
    requires db.Valid()
    modifies db
    ensures db.Valid() && TablesEvolve(old(db.Snapshot()), seen) && (db.Calm() ==> seen == old(db.Snapshot()))
    ensures seen == if uid in old(db.tasks) && ReportBlockerOn(actor, old(db.tasks)[uid], reason, now).Ok?
                    then old(db.Met()) else old(db.Snapshot())
    ensures actor.id.None? ==> r == Err(Unauthenticated)
    ensures actor.id.Some? && uid !in old(db.tasks) ==> r == Err(NotFound)
    ensures actor.id.Some? && uid in old(db.tasks) ==>
              var decided := ReportBlockerOn(actor, old(db.tasks)[uid], reason, now);
              if decided.Err? then r == Err(decided.error)
              else if seen.tasks[uid].version != old(db.tasks)[uid].version then r == Err(VersionConflict)
              else r.Ok?
    ensures r.Ok? ==>
              && uid in seen.tasks
              && ReportBlockerOn(actor, seen.tasks[uid], reason, now) == r
              && db.tasks == seen.tasks[uid := r.value]
              && db.audit == seen.audit + [AuditEntry(r.value.id, WasBlocked, seen.tasks[uid].status, Blocked, actor.id)]
              && db.notifications ==
                 if Some(r.value.createdBy) == actor.id then seen.notifications
                 else seen.notifications + [Notification(
                        Some(r.value.id), r.value.createdBy, TaskBlocked,
                        BlockedKey(r.value.uid, r.value.createdBy, r.value.version), Pending, 0, None, now)]
    ensures r.Err? ==> db.Snapshot() == seen
  {
    hide IsFair, Log.At, AssignmentKeysAgree, KeysAreUnique, MarkTimestamp, IsFor;
    seen := db.Snapshot();
    if actor.id.None? {
      return Err(Unauthenticated), seen;
    }
    var found := db.FindByUid(uid);
    if found.None? {
      return Err(NotFound), seen;
    }
    var task := found.value;
    var allowed := EnsureCanReportBlocker(actor, task);
    if allowed.Err? {
      return Err(allowed.error), seen;
    }
    var updated := ApplyBlocker(task, reason, now);
    if updated.Err? {
      return Err(updated.error), seen;
    }
    DecisionTakesOneVersion(Block(actor, reason), task, now);
    db.OthersRun();
    seen := db.Snapshot();
    var saved := db.UpdateTask(updated.value);
    if saved.Err? {
      return saved, seen;
    }
    BlockIgnoresTouch(actor, reason, task, seen.tasks[uid], now);
    db.Append(AuditEntry(saved.value.id, WasBlocked, task.status, Blocked, actor.id));
    KeysAreNotTakenYet(seen, saved.value);
    QueuedIsNew(seen.notifications, BlockerNotice(saved.value, now));
    if Some(saved.value.createdBy) != actor.id {
      db.Enqueue(BlockerNotice(saved.value, now));
    }
    return saved, seen;
  }

  function BlockerNotice(t: Task, now: Instant): Notification {
    Fresh(t, t.createdBy, TaskBlocked, BlockedKey(t.uid, t.createdBy, t.version), now)
  }

  // ---- Reassignment, once the new assignee is resolved ----

  method ReassignTaskTo(
    db: Store, actor: Actor, uid: TaskUid, user: Option<UserId>, employee: Option<EmployeeId>, now: Instant)
    returns (r: Result<Task, Refusal>, ghost seen: Tables)
    requires db.Valid()
    modifies db
    ensures db.Valid() && TablesEvolve(old(db.Snapshot()), seen) && (db.Calm() ==> seen == old(db.Snapshot()))
    // looking the assignee up, the others run once even if the task turns out to be closed
    ensures seen == if uid in old(db.tasks) && EnsureCanReassign(actor, old(db.tasks)[uid]).Ok?
                    then old(db.Met()) else old(db.Snapshot())
    ensures actor.id.None? ==> r == Err(Unauthenticated)
    ensures actor.id.Some? && uid !in old(db.tasks) ==> r == Err(NotFound)
    ensures actor.id.Some? && uid in old(db.tasks) ==>
              var decided := ReassignBy(actor, old(db.tasks)[uid], user, employee, now);
              if decided.Err? then r == Err(decided.error)
              else if seen.tasks[uid].version != old(db.tasks)[uid].version then r == Err(VersionConflict)
              else r.Ok?
    ensures r.Ok? ==>
              && uid in seen.tasks
              && ReassignBy(actor, seen.tasks[uid], user, employee, now) == r
              && db.tasks == seen.tasks[uid := r.value]
              && db.audit == seen.audit + [AuditEntry(r.value.id, Reassigned, seen.tasks[uid].status, Created, actor.id)]
              && db.notifications ==
                 if user.None? then seen.notifications
                 else seen.notifications + [Notification(
                        Some(r.value.id), user.value, TaskAssigned,
                        ReassignedKey(r.value.uid, user.value, r.value.version), Pending, 0, None, now)]
    ensures r.Err? ==> db.Snapshot() == seen
  {
    hide IsFair, Log.At, AssignmentKeysAgree, KeysAreUnique, IsFor;
    seen := db.Snapshot();
    if actor.id.None? {
      return Err(Unauthenticated), seen;
    }
    var found := db.FindByUid(uid);
    if found.None? {
      return Err(NotFound), seen;
    }
    var task := found.value;
    var allowed := EnsureCanReassign(actor, task);
    if allowed.Err? {
      return Err(allowed.error), seen;
    }
    db.OthersRun(); // the assignee is looked up between the check and the decision
    var reassigned := Reassign(task, user, employee, now);
    seen := db.Snapshot();
    if reassigned.Err? {
      return Err(reassigned.error), seen;
    }
    var saved := db.UpdateTask(reassigned.value);
    if saved.Err? {
      return saved, seen;
    }
    HandOverIgnoresTouch(actor, user, employee, task, seen.tasks[uid], now);
    db.Append(AuditEntry(saved.value.id, Reassigned, task.status, saved.value.status, actor.id));
    if saved.value.assignedUser.Some? {
      KeysAreNotTakenYet(seen, saved.value);
      QueuedIsNew(seen.notifications, HandOverNotice(saved.value, saved.value.assignedUser.value, now));
      db.Enqueue(HandOverNotice(saved.value, saved.value.assignedUser.value, now));
    }
    return saved, seen;
  }

  function HandOverNotice(t: Task, recipient: UserId, now: Instant): Notification {
    Fresh(t, recipient, TaskAssigned, ReassignedKey(t.uid, recipient, t.version), now)
  }
}
