/**
 Registration recovery: when an employee gets an account, the open tasks that
 were assigned to the employee alone are linked to the account.
 */
module Recovery {
  import opened Prelude
  import opened BusinessTime
  import opened Tasks
  import opened Database
  import opened TaskProtocol

  const BATCH_SIZE := 200
  const MAX_BATCHES := 5

  /** The open tasks of an employee that have no account yet. */
  function Pending(rows: map<TaskUid, Task>, staff: EmployeeId): set<TaskUid> {
    set uid | uid in rows
      && rows[uid].assignedEmployee == Some(staff) && rows[uid].assignedUser.None?
      && (rows[uid].status.Created? || rows[uid].status.Sent? || rows[uid].status.InProgress? || rows[uid].status.Blocked?
          || rows[uid].status.InReview?)
  }

  /** What linking does to a row. */
  function Linked(t: Task, account: UserId, now: Instant): Task {
    t.(version := t.version + 1, assignedUser := Some(account), updatedAt := now)
  }

  /** The notification kept or revived for a linked task may still go out, or has. */
  predicate IsAnnounced(rows: seq<Notification>, t: Task, account: UserId) {
    exists i :: 0 <= i < |rows| && IsFor(rows[i], t.id, account, TaskAssigned) && !rows[i].delivery.Failed?
  }

  method AnyOf<T>(s: set<T>) returns (x: T)
    requires s != {}
    ensures x in s
  {
    x :| x in s;
  }

  /** Latest update first, the greater identifier first among equals. */
  predicate ComesFirst(a: Task, b: Task) {
    a.updatedAt > b.updatedAt || (a.updatedAt == b.updatedAt && a.uid > b.uid)
  }

  method FirstOf(rows: map<TaskUid, Task>, uids: set<TaskUid>) returns (first: TaskUid)
    requires Consistent(rows) && uids != {} && uids <= rows.Keys
    ensures first in uids && forall uid :: uid in uids && uid != first ==> ComesFirst(rows[first], rows[uid])
  {
    first := AnyOf(uids);
    var rest := uids - {first};
    while rest != {}
      invariant rest <= uids && first in uids
      invariant forall uid :: uid in uids && uid !in rest && uid != first ==> ComesFirst(rows[first], rows[uid])
      decreases |rest|
    {
      var uid := AnyOf(rest);
      rest := rest - {uid};
      if ComesFirst(rows[uid], rows[first]) {
        first := uid;
      }
    }
  }

  /** The first `limit` of the pending rows, or all of them. */
  method ListOpenWithoutUser(db: Store, staff: EmployeeId, limit: nat) returns (batch: seq<Task>)
    requires db.Valid()
    ensures |batch| == if |Pending(db.tasks, staff)| < limit then |Pending(db.tasks, staff)| else limit
    ensures forall i :: 0 <= i < |batch| ==>
              batch[i].uid in Pending(db.tasks, staff) && batch[i] == db.tasks[batch[i].uid]
    ensures forall i, k :: 0 <= i < k < |batch| ==> batch[i].uid != batch[k].uid && ComesFirst(batch[i], batch[k])
    ensures forall i, k :: 0 <= i < k < |batch| ==> batch[i].updatedAt >= batch[k].updatedAt
    ensures forall i, uid :: 0 <= i < |batch| && uid in Pending(db.tasks, staff) && db.tasks[uid] !in batch ==>
              ComesFirst(batch[i], db.tasks[uid])
  {
    hide Log.At, IsFair, AssignmentKeysAgree, KeysAreUnique;
    var rest := Pending(db.tasks, staff);
    batch := [];
    while rest != {} && |batch| < limit
      invariant rest <= Pending(db.tasks, staff) && |batch| <= limit
      invariant |rest| + |batch| == |Pending(db.tasks, staff)|
      invariant forall i :: 0 <= i < |batch| ==>
                  && batch[i].uid in Pending(db.tasks, staff) && batch[i].uid !in rest
                  && batch[i] == db.tasks[batch[i].uid]
      invariant forall i, k :: 0 <= i < k < |batch| ==> batch[i].uid != batch[k].uid && ComesFirst(batch[i], batch[k])
      invariant forall uid :: uid in Pending(db.tasks, staff) && uid !in rest ==> db.tasks[uid] in batch
      invariant forall i, uid :: 0 <= i < |batch| && uid in rest ==> ComesFirst(batch[i], db.tasks[uid])
      decreases |rest|
    {
      hide ShouldLink, ComesFirst;
      var uid := FirstOf(db.tasks, rest);
      rest := rest - {uid};
      batch := batch + [db.tasks[uid]];
    }
  }

  /** Keeps, revives or creates the assignment notification of a linked task. */
  method EnsureAssignmentNotification(db: Store, t: Task, account: UserId, now: Instant)
    requires db.Valid() && t.uid in db.tasks && db.tasks[t.uid].id == t.id
    modifies db
    ensures db.Valid() && db.tasks == old(db.tasks) && db.audit == old(db.audit)
    ensures db.done == old(db.done)
            || (old(db.done) < db.done && |db.done| == |old(db.done)| + 1
                && IsAnnouncement(db.History(), |old(db.done)|, t, account, now))
    ensures IsAnnounced(db.notifications, t, account)
    ensures NoticesEvolve(old(db.notifications), db.notifications) && NothingFails(old(db.notifications), db.notifications)
  {
    ghost var before := db.History();
    var existing := db.FindLatest(t.id, account, TaskAssigned);
    if existing.Some? {
      if db.notifications[existing.value].delivery.Failed? {
        db.Requeue(existing.value);
        PastStays(before, db.History(), |before.statements|);
      }
      assert IsFor(db.notifications[existing.value], t.id, account, TaskAssigned);
    } else {
      var n := Fresh(t, account, TaskAssigned, AssignedKey(t.uid, account), now);
      ghost var rows := db.notifications;
      assert forall i :: 0 <= i < |rows| ==> rows[i].key != n.key;
      db.Enqueue(n);
      assert db.notifications == rows + [n];
      assert db.notifications[|rows|] == n;
    }
  }

  /** No message that may go out is given up. */
  predicate NothingFails(before: seq<Notification>, after: seq<Notification>)
    requires NoticesEvolve(before, after)
  {
    forall i :: 0 <= i < |before| && after[i].delivery.Failed? ==> before[i].delivery.Failed?
  }

  lemma EvolvesOn(a: map<TaskUid, Task>, b: map<TaskUid, Task>, c: map<TaskUid, Task>)
    requires Evolves(a, b) && Evolves(b, c)
    ensures Evolves(a, c)
  {
  }

  lemma TablesEvolveOn(a: Tables, b: Tables, c: Tables)
    requires TablesEvolve(a, b) && TablesEvolve(b, c)
    ensures TablesEvolve(a, c)
  {
    EvolvesOn(a.tasks, b.tasks, c.tasks);
    NoticesEvolveOn(a.notifications, b.notifications, c.notifications);
  }

  lemma LinkingEvolves(rows: map<TaskUid, Task>, uid: TaskUid, account: UserId, now: Instant)
    requires uid in rows
    ensures Evolves(rows, rows[uid := Linked(rows[uid], account, now)])
  {
  }

  // ---- What the statements of a recovery are ----

  /** The `n`-th statement wrote a row. */
  predicate Wrote(log: Log, n: nat)
    requires n < |log.statements|
  {
    log.statements[n].Saved? && CasHits(log.At(n).tasks, log.statements[n].row)
  }

  /** The `n`-th statement is not the recovery's own, or a write that missed. */
  predicate IsIdle(log: Log, n: nat)
    requires n < |log.statements|
  {
    log.statements[n].OthersRan? || (log.statements[n].Saved? && !Wrote(log, n))
  }

  /** The `n`-th statement announces `t`: it puts the one message for it into the queue, for the first time or again. */
  predicate IsAnnouncement(log: Log, n: nat, t: Task, account: UserId, at: Instant)
    requires n < |log.statements|
  {
    match log.statements[n]
    case Queued(notice) =>
      notice == Notification(Some(t.id), account, TaskAssigned, AssignedKey(t.uid, account), Delivery.Pending, 0, None, at)
    case Marked(index, delivery, next, tries) =>
      var rows := log.At(n).notifications;
      && delivery.Pending? && next.None? && tries == 0
      && index < |rows| && IsFor(rows[index], t.id, account, TaskAssigned) && rows[index].delivery.Failed?
    case _ => false
  }

  /** The statements since `before` have no effect of their own, except that the last one links a row, if one is linked. */
  ghost predicate LinksAtMost(before: Log, log: Log, linked: bool, uid: TaskUid, found: map<TaskUid, Task>) {
    && log.Continues(before) && |before.statements| < |log.statements|
    && (forall n :: |before.statements| <= n < |log.statements| - (if linked then 1 else 0) ==> IsIdle(log, n))
    && (linked ==>
          var n := |log.statements| - 1;
          Wrote(log, n) && log.statements[n].row.uid == uid && log.At(n).tasks == found)
  }

  lemma IdleStays(earlier: Log, log: Log, n: nat)
    requires log.Continues(earlier) && n < |earlier.statements|
    ensures Wrote(log, n) == Wrote(earlier, n) && IsIdle(log, n) == IsIdle(earlier, n)
  {
    PastStays(earlier, log, n);
  }

  lemma LinksAtMostAfter(before: Log, middle: Log, log: Log, linked: bool, uid: TaskUid, found: map<TaskUid, Task>)
    requires middle.Continues(before) && LinksAtMost(middle, log, linked, uid, found)
    requires forall n :: |before.statements| <= n < |middle.statements| ==> IsIdle(middle, n)
    ensures LinksAtMost(before, log, linked, uid, found)
  {
    forall n | |before.statements| <= n < |middle.statements| ensures IsIdle(log, n) {
      IdleStays(middle, log, n);
    }
  }

  /** What linking leaves behind: the row it found was to be linked and is linked, or nothing has changed. */
  predicate LeavesLinked(
    r: Option<Task>, uid: TaskUid, seen: map<TaskUid, Task>, rows: map<TaskUid, Task>, account: UserId,
    staff: EmployeeId, now: Instant)
  {
    if r.Some? then
      uid in seen && ShouldLink(seen[uid], staff) && r.value == Linked(seen[uid], account, now) && rows == seen[uid := r.value]
    else rows == seen
  }

  /** One try, from a copy that may be out of date; `seen` is the table as the write found it. */
  method SaveLinked(db: Store, t: Task, account: UserId, staff: EmployeeId, now: Instant)
    returns (r: Option<Task>, ghost seen: map<TaskUid, Task>)
    requires db.Valid() && ShouldLink(t, staff) && Evolves(map[t.uid := t], db.tasks)
    modifies db
    ensures db.Valid() && Evolves(old(db.tasks), seen) && TablesEvolve(old(db.Snapshot()), db.Snapshot())
    ensures LinksAtMost(old(db.History()), db.History(), r.Some?, t.uid, seen)
    ensures LeavesLinked(r, t.uid, seen, db.tasks, account, staff, now)
    ensures db.Calm() ==> seen == old(db.tasks) && db.notifications == old(db.notifications) && db.audit == old(db.audit)
    ensures db.Calm() && old(db.tasks)[t.uid] == t ==> r.Some?
  {
    hide IsFair, Log.At, KeysAreUnique, AssignmentKeysAgree, NoticesEvolve;
    var updated := LinkRegisteredAssignee(t, account, now);
    ghost var start := db.Snapshot();
    db.OthersRun();
    ghost var met := db.History();
    seen := db.tasks;
    var saved := db.UpdateTask(updated.value);
    PastStays(met, db.History(), |met.statements|);
    if saved.Err? {
      return None, seen;
    }
    LinkingEvolves(seen, t.uid, account, now);
    NoticesEvolveItself(db.notifications);
    TablesEvolveOn(start, Tables(seen, db.notifications, db.audit), db.Snapshot());
    return Some(saved.value), seen;
  }

  lemma NoticesEvolveItself(rows: seq<Notification>)
    ensures NoticesEvolve(rows, rows)
  {
  }

  /**
   Links one task of a batch. On a conflict the row is read again and, if it is
   still to be linked, tried once more.
   */
  method LinkTaskToRegisteredUser(db: Store, t: Task, account: UserId, staff: EmployeeId, now: Instant)
    returns (r: Option<Task>, ghost seen: map<TaskUid, Task>)
    requires db.Valid() && ShouldLink(t, staff) && Evolves(map[t.uid := t], db.tasks)
    modifies db
    ensures db.Valid() && Evolves(old(db.tasks), seen) && TablesEvolve(old(db.Snapshot()), db.Snapshot())
    ensures LinksAtMost(old(db.History()), db.History(), r.Some?, t.uid, seen)
    ensures LeavesLinked(r, t.uid, seen, db.tasks, account, staff, now)
    ensures db.Calm() ==> seen == old(db.tasks) && db.notifications == old(db.notifications) && db.audit == old(db.audit)
    ensures db.Calm() && old(db.tasks)[t.uid] == t ==> r.Some?
  {
    ghost var start, log := db.Snapshot(), db.History();
    r, seen := SaveLinked(db, t, account, staff, now);
    if r.None? {
      ghost var missed, tried := db.Snapshot(), db.History();
      r, seen := RetryLinkAfterConflict(db, t.uid, account, staff, now);
      TablesEvolveOn(start, missed, db.Snapshot());
      LinksAtMostAfter(log, tried, db.History(), r.Some?, t.uid, seen);
    }
  }

  method RetryLinkAfterConflict(db: Store, uid: TaskUid, account: UserId, staff: EmployeeId, now: Instant)
    returns (r: Option<Task>, ghost seen: map<TaskUid, Task>)
    requires db.Valid()
    modifies db
    ensures db.Valid() && Evolves(old(db.tasks), seen) && TablesEvolve(old(db.Snapshot()), db.Snapshot())
    ensures LinksAtMost(old(db.History()), db.History(), r.Some?, uid, seen)
    ensures LeavesLinked(r, uid, seen, db.tasks, account, staff, now)
    ensures db.Calm() ==> seen == old(db.tasks) && db.notifications == old(db.notifications) && db.audit == old(db.audit)
  {
    hide IsFair, Log.At, KeysAreUnique, AssignmentKeysAgree, NoticesEvolve;
    ghost var start, log := db.Snapshot(), db.History();
    db.OthersRun();
    seen := db.tasks;
    var latest := db.FindByUid(uid);
    if latest.None? || !ShouldLink(latest.value, staff) {
      return None, seen;
    }
    ghost var read, met := db.Snapshot(), db.History();
    r, seen := SaveLinked(db, latest.value, account, staff, now);
    TablesEvolveOn(start, read, db.Snapshot());
    LinksAtMostAfter(log, met, db.History(), r.Some?, uid, seen);
  }

  /** The table after linking exactly the given rows. */
  function LinkedAll(rows: map<TaskUid, Task>, uids: set<TaskUid>, account: UserId, now: Instant): map<TaskUid, Task> {
    map uid | uid in rows :: if uid in uids then Linked(rows[uid], account, now) else rows[uid]
  }

  /**
   A row this recovery linked: by which statement, how it found it and what it
   made of it, which statement audited that, and after how many it was announced.
   */
  datatype Link = Link(saved: nat, before: Task, after: Task, audited: nat, told: nat)

  /** The statements of one link: the row was to be linked and was linked, that was audited, and it was announced. */
  ghost predicate IsRecorded(log: Log, link: Link, account: UserId, staff: EmployeeId, at: Instant) {
    && link.saved < link.audited < link.told - 1 < |log.statements|
    && IsLinkingWrite(log, link, account, staff, at)
    && log.statements[link.audited] == Audited(AuditEntry(link.before.id, WasAssigned, link.before.status, link.before.status, Some(account)))
    && (log.statements[link.told - 1].OthersRan? || IsAnnouncement(log, link.told - 1, link.after, account, at))
    && IsAnnounced(log.At(link.told).notifications, link.after, account)
    && NoticesEvolve(log.At(link.told).notifications, log.At(|log.statements|).notifications)
  }

  ghost predicate IsLinkingWrite(log: Log, link: Link, account: UserId, staff: EmployeeId, at: Instant)
    requires link.saved < |log.statements|
  {
    var rows, uid := log.At(link.saved).tasks, link.after.uid;
    && Wrote(log, link.saved) && log.statements[link.saved].row.uid == uid
    && uid in rows && rows[uid] == link.before && log.At(link.saved + 1).tasks == rows[uid := link.after]
    && ShouldLink(link.before, staff) && link.after == Linked(link.before, account, at)
  }

  predicate IsStepOf(link: Link, n: nat) {
    n == link.saved || n == link.audited || n == link.told - 1
  }

  /**
   Everything the recovery has done since statement `from`: the links, one
   after the other, and not one statement besides that has an effect.
   */
  ghost predicate Recorded(log: Log, from: nat, links: seq<Link>, account: UserId, staff: EmployeeId, at: Instant) {
    && from <= |log.statements|
    && (forall i :: 0 <= i < |links| ==> from <= links[i].saved && IsRecorded(log, links[i], account, staff, at))
    && (forall i, k :: 0 <= i < k < |links| ==> links[i].told <= links[k].saved)
    && (forall n :: from <= n < |log.statements| && !IsIdle(log, n) ==> exists i :: 0 <= i < |links| && IsStepOf(links[i], n))
  }

  /** Undisturbed, nothing else is audited and every announcement may still go out. */
  predicate RecordedAlone(links: seq<Link>, since: nat, now: Tables, account: UserId) {
    && |now.audit| == since + |links|
    && forall i :: 0 <= i < |links| ==> IsAnnounced(now.notifications, links[i].after, account)
  }

  function UidsOf(links: seq<Link>): set<TaskUid> {
    set i | 0 <= i < |links| :: links[i].after.uid
  }

  lemma StaysAnnounced(t: Task, before: seq<Notification>, after: seq<Notification>, account: UserId)
    requires IsAnnounced(before, t, account) && NoticesEvolve(before, after) && NothingFails(before, after)
    ensures IsAnnounced(after, t, account)
  {
    var k :| 0 <= k < |before| && IsFor(before[k], t.id, account, TaskAssigned) && !before[k].delivery.Failed?;
    assert IsFor(after[k], t.id, account, TaskAssigned);
  }

  lemma LinkStaysRecorded(earlier: Log, log: Log, link: Link, account: UserId, staff: EmployeeId, at: Instant)
    requires IsRecorded(earlier, link, account, staff, at) && log.Continues(earlier)
    requires NoticesEvolve(earlier.At(|earlier.statements|).notifications, log.At(|log.statements|).notifications)
    ensures IsRecorded(log, link, account, staff, at)
  {
    hide IsAnnounced, NoticesEvolve, ShouldLink, Log.At;
    PastStays(earlier, log, link.saved);
    PastStays(earlier, log, link.saved + 1);
    PastStays(earlier, log, link.told - 1);
    PastStays(earlier, log, link.told);
    NoticesEvolveOn(earlier.At(link.told).notifications, earlier.At(|earlier.statements|).notifications,
                    log.At(|log.statements|).notifications);
  }

  lemma RecordMore(
    earlier: Log, log: Log, from: nat, links: seq<Link>, more: seq<Link>, account: UserId, staff: EmployeeId, at: Instant)
    requires Recorded(earlier, from, links, account, staff, at) && log.Continues(earlier)
    requires NoticesEvolve(earlier.At(|earlier.statements|).notifications, log.At(|log.statements|).notifications)
    requires Recorded(log, |earlier.statements|, more, account, staff, at)
    ensures Recorded(log, from, links + more, account, staff, at)
  {
    hide IsRecorded, NoticesEvolve, Log.At;
    var all := links + more;
    forall i | 0 <= i < |all| ensures from <= all[i].saved && IsRecorded(log, all[i], account, staff, at) {
      if i < |links| {
        LinkStaysRecorded(earlier, log, links[i], account, staff, at);
      } else {
        assert all[i] == more[i - |links|];
      }
    }
    forall i, k | 0 <= i < k < |all| ensures all[i].told <= all[k].saved {
      if i < |links| <= k {
        ToldInTime(earlier, links[i], account, staff, at);
        assert all[k] == more[k - |links|];
      }
    }
    forall n | from <= n < |log.statements| && !IsIdle(log, n) ensures exists i :: 0 <= i < |all| && IsStepOf(all[i], n) {
      if n < |earlier.statements| {
        IdleStays(earlier, log, n);
        var i :| 0 <= i < |links| && IsStepOf(links[i], n);
        assert IsStepOf(all[i], n);
      } else {
        var i :| 0 <= i < |more| && IsStepOf(more[i], n);
        assert IsStepOf(all[|links| + i], n);
      }
    }
  }

  lemma ToldInTime(log: Log, link: Link, account: UserId, staff: EmployeeId, at: Instant)
    requires IsRecorded(log, link, account, staff, at)
    ensures link.told <= |log.statements|
  {
  }

  /** What a statement may do to a row: nothing, or link it while it is open and nobody's. */
  predicate TouchesOnlyPending(before: map<TaskUid, Task>, after: map<TaskUid, Task>, account: UserId, staff: EmployeeId, at: Instant) {
    forall uid :: uid in before ==>
      && uid in after
      && (after[uid] == before[uid]
          || (before[uid].assignedUser.None? && !before[uid].status.IsTerminal() && before[uid].assignedEmployee == Some(staff)
              && after[uid] == before[uid].(version := before[uid].version + 1, assignedUser := Some(account), updatedAt := at)))
  }

  /** So a recovery never takes a task over from anybody, never touches a closed one, and changes nothing but the account. */
  lemma RecoveryTouchesOnlyPending(
    log: Log, from: nat, links: seq<Link>, account: UserId, staff: EmployeeId, at: Instant, n: nat)
    requires Recorded(log, from, links, account, staff, at) && from <= n < |log.statements|
    requires !log.statements[n].OthersRan?
    ensures TouchesOnlyPending(log.At(n).tasks, log.At(n + 1).tasks, account, staff, at)
  {
    hide Log.At, IsAnnounced, IsAnnouncement, IsLinkingWrite, NoticesEvolve, CasHits, TouchesOnlyPending;
    if IsIdle(log, n) || !log.statements[n].Saved? {
      TasksStay(log, n);
      NothingTouched(log.At(n).tasks, account, staff, at);
    } else {
      var i :| 0 <= i < |links| && IsStepOf(links[i], n);
      assert IsRecorded(log, links[i], account, staff, at);
      if !log.statements[links[i].told - 1].OthersRan? {
        AnnouncingIsNotSaving(log, links[i].told - 1, links[i].after, account, at);
      }
      LinkingTouches(log, links[i], account, staff, at);
    }
  }

  lemma NothingTouched(rows: map<TaskUid, Task>, account: UserId, staff: EmployeeId, at: Instant)
    ensures TouchesOnlyPending(rows, rows, account, staff, at)
  {
  }

  lemma LinkingTouches(log: Log, link: Link, account: UserId, staff: EmployeeId, at: Instant)
    requires link.saved < |log.statements| && IsLinkingWrite(log, link, account, staff, at)
    ensures TouchesOnlyPending(log.At(link.saved).tasks, log.At(link.saved + 1).tasks, account, staff, at)
  {
    hide Log.At;
  }

  lemma AnnouncingIsNotSaving(log: Log, n: nat, t: Task, account: UserId, at: Instant)
    requires n < |log.statements| && IsAnnouncement(log, n, t, account, at)
    ensures !log.statements[n].Saved?
  {
  }

  lemma TasksStay(log: Log, n: nat)
    requires n < |log.statements| && !log.statements[n].OthersRan? && (IsIdle(log, n) || !log.statements[n].Saved?)
    ensures log.At(n + 1).tasks == log.At(n).tasks
  {
  }

  lemma RecordMoreAlone(
    links: seq<Link>, more: seq<Link>, since: nat, middle: Tables, now: Tables, account: UserId)
    requires RecordedAlone(links, since, middle, account) && RecordedAlone(more, |middle.audit|, now, account)
    requires NoticesEvolve(middle.notifications, now.notifications) && NothingFails(middle.notifications, now.notifications)
    ensures RecordedAlone(links + more, since, now, account)
  {
    forall i | 0 <= i < |links| ensures IsAnnounced(now.notifications, links[i].after, account) {
      StaysAnnounced(links[i].after, middle.notifications, now.notifications, account);
    }
    hide IsAnnounced;
  }

  /** Undisturbed, the first `n` tasks of the batch are linked and nothing else has changed. */
  ghost predicate LinkedExactly(links: seq<Link>, batch: seq<Task>, n: nat, start: map<TaskUid, Task>,
                                rows: map<TaskUid, Task>, account: UserId, now: Instant)
    requires n <= |batch|
  {
    && |links| == n
    && (forall k :: 0 <= k < n ==> links[k].before == batch[k] && links[k].after.uid == batch[k].uid)
    && rows == LinkedAll(start, UidsOf(links), account, now)
  }

  lemma LinkOneMore(links: seq<Link>, link: Link, batch: seq<Task>, n: nat, start: map<TaskUid, Task>,
                    rows: map<TaskUid, Task>, account: UserId, now: Instant)
    requires n < |batch| && LinkedExactly(links, batch, n, start, rows, account, now)
    requires link.before == batch[n] && link.after == Linked(batch[n], account, now)
    requires forall i :: 0 <= i < |batch| ==> batch[i].uid in start && batch[i] == start[batch[i].uid]
    requires forall i, k :: 0 <= i < k < |batch| ==> batch[i].uid != batch[k].uid
    ensures LinkedExactly(links + [link], batch, n + 1, start, rows[batch[n].uid := link.after], account, now)
  {
    RowIsUntouched(links, batch, n, start, rows, account, now);
    assert batch[n].uid !in UidsOf(links);
    var more := links + [link];
    assert forall k :: 0 <= k < n ==> more[k] == links[k];
    assert more[n] == link;
    assert UidsOf(more) == UidsOf(links) + {batch[n].uid};
  }

  lemma RowIsUntouched(links: seq<Link>, batch: seq<Task>, n: nat, start: map<TaskUid, Task>,
                       rows: map<TaskUid, Task>, account: UserId, now: Instant)
    requires n < |batch| && LinkedExactly(links, batch, n, start, rows, account, now)
    requires forall i :: 0 <= i < |batch| ==> batch[i].uid in start && batch[i] == start[batch[i].uid]
    requires forall i, k :: 0 <= i < k < |batch| ==> batch[i].uid != batch[k].uid
    ensures batch[n].uid in rows && rows[batch[n].uid] == batch[n]
  {
    assert batch[n].uid !in UidsOf(links);
  }

  method RecoverTaskBatch(db: Store, batch: seq<Task>, account: UserId, staff: EmployeeId, now: Instant)
    returns (recovered: nat, ghost links: seq<Link>)
    requires db.Valid()
    requires forall i :: 0 <= i < |batch| ==>
               batch[i].uid in Pending(db.tasks, staff) && batch[i] == db.tasks[batch[i].uid]
    requires forall i, k :: 0 <= i < k < |batch| ==> batch[i].uid != batch[k].uid
    modifies db
    ensures db.Valid() && TablesEvolve(old(db.Snapshot()), db.Snapshot()) && db.History().Continues(old(db.History()))
    ensures recovered == |links| <= |batch|
    ensures Recorded(db.History(), |old(db.done)|, links, account, staff, now)
    ensures db.Calm() ==>
              && recovered == |batch| && LinkedExactly(links, batch, |batch|, old(db.tasks), db.tasks, account, now)
              && RecordedAlone(links, |old(db.audit)|, db.Snapshot(), account)
              && NothingFails(old(db.notifications), db.notifications)
  {
    hide IsFair, Log.At, AreValid;
    recovered, links := 0, [];
    ghost var start, log := db.Snapshot(), db.History();
    assert LinkedAll(start.tasks, UidsOf(links), account, now) == start.tasks;
    for i := 0 to |batch|
      invariant db.Valid() && TablesEvolve(start, db.Snapshot()) && db.History().Continues(log)
      invariant recovered == |links| <= i && (db.Calm() ==> recovered == i)
      invariant Recorded(db.History(), |log.statements|, links, account, staff, now)
      invariant db.Calm() ==>
                  && LinkedExactly(links, batch, i, start.tasks, db.tasks, account, now)
                  && RecordedAlone(links, |start.audit|, db.Snapshot(), account)
                  && NothingFails(start.notifications, db.notifications)
    {
      hide IsFair, Log.At, AreValid, Recorded, RecordedAlone, LinkedExactly, SameVersionOf, NothingFails, IsAnnounced;
      ghost var prior, past := db.Snapshot(), db.History();
      if db.Calm() {
        RowIsUntouched(links, batch, i, start.tasks, prior.tasks, account, now);
      }
      assert Evolves(map[batch[i].uid := batch[i]], prior.tasks);
      var saved, link := RecoverTask(db, batch[i], account, staff, now);
      ghost var own := if saved then [link] else [];
      TablesEvolveOn(start, prior, db.Snapshot());
      RecordMore(past, db.History(), |log.statements|, links, own, account, staff, now);
      if !saved {
        assert links + own == links;
        continue;
      }
      if db.Calm() {
        LinkOneMore(links, link, batch, i, start.tasks, prior.tasks, account, now);
        RecordMoreAlone(links, [link], |start.audit|, prior, db.Snapshot(), account);
        NothingFailsOn(start.notifications, prior.notifications, db.notifications);
      }
      links := links + [link];
      recovered := recovered + 1;
    }
  }

  lemma NothingFailsOn(a: seq<Notification>, b: seq<Notification>, c: seq<Notification>)
    requires NoticesEvolve(a, b) && NoticesEvolve(b, c) && NothingFails(a, b) && NothingFails(b, c)
    ensures NoticesEvolve(a, c) && NothingFails(a, c)
  {
  }

  /** One task of a batch: linked, audited and announced, or skipped. */
  method RecoverTask(db: Store, t: Task, account: UserId, staff: EmployeeId, now: Instant)
    returns (saved: bool, ghost link: Link)
    requires db.Valid() && ShouldLink(t, staff) && Evolves(map[t.uid := t], db.tasks)
    modifies db
    ensures db.Valid() && TablesEvolve(old(db.Snapshot()), db.Snapshot()) && db.History().Continues(old(db.History()))
    ensures Recorded(db.History(), |old(db.done)|, if saved then [link] else [], account, staff, now)
    ensures saved ==> link.after.uid == t.uid
    ensures db.Calm() && t.uid in old(db.tasks) && old(db.tasks)[t.uid] == t ==>
              && saved && link.before == t && link.after == Linked(t, account, now)
              && db.tasks == old(db.tasks)[t.uid := link.after]
              && RecordedAlone([link], |old(db.audit)|, db.Snapshot(), account)
              && NothingFails(old(db.notifications), db.notifications)
  {
    hide IsFair, Log.At, SameVersionOf, IsAnnounced, KeysAreUnique, AssignmentKeysAgree;
    ghost var start, before := db.Snapshot(), db.History();
    var linked, found := LinkTaskToRegisteredUser(db, t, account, staff, now);
    saved, link := linked.Some?, Link(0, t, t, 0, 0);
    if saved {
      ghost var written, log := db.Snapshot(), db.History();
      var task := linked.value;
      ghost var audited := RecordLink(db, task, account, now);
      TablesEvolveOn(start, written, db.Snapshot());
      link := Link(|log.statements| - 1, found[t.uid], task, audited, |db.done|);
      LinkIsRecorded(before, log, db.History(), found, link, account, staff, now);
    }
  }

  /** A write that links, and then the statements that go with it. */
  lemma LinkIsRecorded(
    before: Log, log: Log, later: Log, found: map<TaskUid, Task>, link: Link, account: UserId, staff: EmployeeId, at: Instant)
    requires LinksAtMost(before, log, true, link.after.uid, found) && link.saved == |log.statements| - 1
    requires LeavesLinked(Some(link.after), link.after.uid, found, log.At(|log.statements|).tasks, account, staff, at)
    requires link.before == found[link.after.uid]
    requires RecordsLink(log, later, link.audited, link.after, account, at) && link.told == |later.statements|
    requires IsAnnounced(later.At(|later.statements|).notifications, link.after, account)
    ensures Recorded(later, |before.statements|, [link], account, staff, at)
  {
    hide Log.At, IsAnnounced, ShouldLink;
    PastStays(log, later, link.saved);
    PastStays(log, later, link.saved + 1);
    NoticesEvolveItself(later.At(link.told).notifications);
    assert IsLinkingWrite(later, link, account, staff, at);
    forall n | |before.statements| <= n < |later.statements| && !IsIdle(later, n) ensures IsStepOf([link][0], n) {
      if n < |log.statements| {
        IdleStays(log, later, n);
      }
    }
  }

  /** The statements that go with a link: one audit entry, and the announcement unless there is one already. */
  ghost predicate RecordsLink(before: Log, log: Log, audited: nat, t: Task, account: UserId, at: Instant) {
    var last := |log.statements| - 1;
    && log.Continues(before) && |before.statements| <= audited < last
    && log.statements[audited] == Audited(AuditEntry(t.id, WasAssigned, t.status, t.status, Some(account)))
    && (log.statements[last].OthersRan? || IsAnnouncement(log, last, t, account, at))
    && forall n :: |before.statements| <= n < last && n != audited ==> log.statements[n].OthersRan?
  }

  /** The audit entry and the announcement of a task that has just been linked. */
  method RecordLink(db: Store, t: Task, account: UserId, now: Instant) returns (ghost audited: nat)
    requires db.Valid() && t.uid in db.tasks && db.tasks[t.uid].id == t.id
    modifies db
    ensures db.Valid() && TablesEvolve(old(db.Snapshot()), db.Snapshot())
    ensures RecordsLink(old(db.History()), db.History(), audited, t, account, now)
    ensures IsAnnounced(db.notifications, t, account)
    ensures db.Calm() ==>
              && db.tasks == old(db.tasks) && |db.audit| == |old(db.audit)| + 1
              && NothingFails(old(db.notifications), db.notifications)
  {
    hide IsFair, Log.At, IsAnnounced, NoticesEvolve, NothingFails, KeysAreUnique, AssignmentKeysAgree, Consistent;
    ghost var start := db.Snapshot();
    db.OthersRun();
    audited := |db.done|;
    ghost var unaudited := db.Snapshot();
    db.Append(AuditEntry(t.id, WasAssigned, t.status, t.status, Some(account)));
    ghost var entered := db.Snapshot();
    NoticesEvolveItself(entered.notifications);
    TablesEvolveOn(start, unaudited, entered);
    db.OthersRun();
    ghost var untold := db.Snapshot();
    TablesEvolveOn(start, entered, untold);
    EnsureAssignmentNotification(db, t, account, now);
    TablesEvolveOn(start, untold, db.Snapshot());
  }

  /** Undisturbed, `linked` of the pending rows are linked and nothing else has changed. */
  ghost predicate LinkedSoFar(linked: set<TaskUid>, start: map<TaskUid, Task>, rows: map<TaskUid, Task>,
                              account: UserId, staff: EmployeeId, now: Instant)
  {
    && linked <= Pending(start, staff)
    && rows == LinkedAll(start, linked, account, now)
    && Pending(rows, staff) == Pending(start, staff) - linked
  }

  lemma LinkBatch(linked: set<TaskUid>, start: map<TaskUid, Task>, middle: map<TaskUid, Task>, links: seq<Link>,
                  batch: seq<Task>, rows: map<TaskUid, Task>, account: UserId, staff: EmployeeId, now: Instant)
    requires LinkedSoFar(linked, start, middle, account, staff, now)
    requires LinkedExactly(links, batch, |batch|, middle, rows, account, now)
    requires forall i :: 0 <= i < |batch| ==> batch[i].uid in Pending(middle, staff)
    requires forall i, k :: 0 <= i < k < |batch| ==> batch[i].uid != batch[k].uid
    ensures LinkedSoFar(linked + UidsOf(links), start, rows, account, staff, now)
    ensures |linked + UidsOf(links)| == |linked| + |batch|
  {
    DistinctUids(links);
    assert linked !! UidsOf(links);
    assert |linked + UidsOf(links)| == |linked| + |UidsOf(links)|;
  }

  lemma {:induction false} DistinctUids(links: seq<Link>)
    requires forall i, k :: 0 <= i < k < |links| ==> links[i].after.uid != links[k].after.uid
    ensures |UidsOf(links)| == |links|
  {
    if links != [] {
      var before, last := links[..|links| - 1], links[|links| - 1];
      DistinctUids(before);
      assert UidsOf(links) == UidsOf(before) + {last.after.uid} by {
        forall uid | uid in UidsOf(links) ensures uid in UidsOf(before) + {last.after.uid} {
          var i :| 0 <= i < |links| && links[i].after.uid == uid;
          if i < |before| {
            assert before[i].after.uid == uid;
          }
        }
        forall uid | uid in UidsOf(before) ensures uid in UidsOf(links) {
          var i :| 0 <= i < |before| && before[i].after.uid == uid;
          assert links[i].after.uid == uid;
        }
        assert links[|links| - 1].after.uid in UidsOf(links);
      }
      assert last.after.uid !in UidsOf(before);
    }
  }

  /** As many as five batches of 200 hold. */
  function Quota(n: nat): nat {
    if n < 1000 then n else 1000
  }

  /** How far a recovery has come that began after the run `before` with the tables `start`. */
  ghost predicate Progress(
    before: Log, start: Tables, log: Log, now: Tables, links: seq<Link>, calm: bool,
    account: UserId, staff: EmployeeId, at: Instant)
  {
    && TablesEvolve(start, now) && log.Continues(before)
    && Recorded(log, |before.statements|, links, account, staff, at)
    && (calm ==>
          && LinkedSoFar(UidsOf(links), start.tasks, now.tasks, account, staff, at)
          && |UidsOf(links)| == |links|
          && RecordedAlone(links, |start.audit|, now, account))
  }

  /** One batch; `more` tells whether there may be another one. */
  method RecoverNextBatch(
    db: Store, account: UserId, staff: EmployeeId, now: Instant, ghost before: Log, ghost start: Tables, ghost links: seq<Link>)
    returns (more: bool, ghost all: seq<Link>)
    requires db.Valid()
    requires Progress(before, start, db.History(), db.Snapshot(), links, db.Calm(), account, staff, now)
    modifies db
    ensures db.Valid()
    ensures Progress(before, start, db.History(), db.Snapshot(), all, db.Calm(), account, staff, now)
    ensures |all| <= |links| + BATCH_SIZE
    ensures db.Calm() ==> |all| == if more then |links| + BATCH_SIZE else |Pending(start.tasks, staff)|
  {
    hide IsFair, Log.At, AreValid, Recorded, RecordedAlone, LinkedSoFar, LinkedExactly, Evolves, NoticesEvolve, NothingFails;
    var batch := ListOpenWithoutUser(db, staff, BATCH_SIZE);
    if db.Calm() {
      CountRest(UidsOf(links), start.tasks, db.tasks, account, staff, now);
    }
    if batch == [] {
      return false, links;
    }
    ghost var middle, past := db.Snapshot(), db.History();
    var recovered, linked := RecoverTaskBatch(db, batch, account, staff, now);
    TablesEvolveOn(start, middle, db.Snapshot());
    RecordMore(past, db.History(), |before.statements|, links, linked, account, staff, now);
    all := links + linked;
    if db.Calm() {
      LinkBatch(UidsOf(links), start.tasks, middle.tasks, linked, batch, db.tasks, account, staff, now);
      UidsOfBoth(links, linked);
      RecordMoreAlone(links, linked, |start.audit|, middle, db.Snapshot(), account);
    }
    more := recovered != 0 && |batch| >= BATCH_SIZE;
  }

  /**
   The whole recovery. Whatever other workers do meanwhile, all that the
   recovery itself does is the links: each writes a row that is open and without
   an account at that very moment, then comes its audit entry and then, unless
   there is one that may go out, the one message about it. Undisturbed, it
   links exactly as many of the pending tasks as five batches of 200 hold,
   changes and audits nothing else, and all those messages may go out in the end.
   */
  method RecoverPendingAssignments(db: Store, account: UserId, employee: Option<EmployeeId>, now: Instant)
    returns (ghost links: seq<Link>)
    requires db.Valid()
    modifies db
    ensures db.Valid() && TablesEvolve(old(db.Snapshot()), db.Snapshot()) && db.History().Continues(old(db.History()))
    ensures |links| <= 1000
    ensures employee.None? ==> links == [] && db.done == old(db.done) && db.Snapshot() == old(db.Snapshot())
    ensures employee.Some? ==> Recorded(db.History(), |old(db.done)|, links, account, employee.value, now)
    ensures db.Calm() && employee.Some? ==>
              && LinkedSoFar(UidsOf(links), old(db.tasks), db.tasks, account, employee.value, now)
              && |UidsOf(links)| == |links| == Quota(|Pending(old(db.tasks), employee.value)|)
              && RecordedAlone(links, |old(db.audit)|, db.Snapshot(), account)
  {
    hide IsFair, Log.At, AreValid;
    links := [];
    if employee.None? {
      return;
    }
    var staff := employee.value;
    ghost var start, before := db.Snapshot(), db.History();
    NothingLinked(before, start, db.Calm(), account, staff, now);
    var more := true;
    for batchNumber := 0 to MAX_BATCHES
      invariant more && db.Valid() && |links| <= batchNumber * BATCH_SIZE
      invariant Progress(before, start, db.History(), db.Snapshot(), links, db.Calm(), account, staff, now)
      invariant db.Calm() ==> |links| == batchNumber * BATCH_SIZE
    {
      hide Recorded, RecordedAlone, LinkedSoFar, TablesEvolve;
      more, links := RecoverNextBatch(db, account, staff, now, before, start, links);
      if !more {
        return;
      }
    }
    if db.Calm() {
      CountRest(UidsOf(links), start.tasks, db.tasks, account, staff, now);
    }
  }

  lemma NothingLinked(before: Log, start: Tables, calm: bool, account: UserId, staff: EmployeeId, now: Instant)
    ensures Progress(before, start, before, start, [], calm, account, staff, now)
  {
    assert LinkedAll(start.tasks, {}, account, now) == start.tasks;
    assert UidsOf([]) == {};
  }

  lemma CountRest(linked: set<TaskUid>, start: map<TaskUid, Task>, rows: map<TaskUid, Task>,
                  account: UserId, staff: EmployeeId, now: Instant)
    requires LinkedSoFar(linked, start, rows, account, staff, now)
    ensures |Pending(start, staff)| == |linked| + |Pending(rows, staff)|
  {
    assert Pending(start, staff) == linked + Pending(rows, staff);
    assert linked !! Pending(rows, staff);
  }

  lemma UidsOfBoth(a: seq<Link>, b: seq<Link>)
    ensures UidsOf(a + b) == UidsOf(a) + UidsOf(b)
  {
    var both := a + b;
    forall uid | uid in UidsOf(a) + UidsOf(b) ensures uid in UidsOf(both) {
      if uid in UidsOf(a) {
        var i :| 0 <= i < |a| && a[i].after.uid == uid;
        assert both[i].after.uid == uid;
      } else {
        var i :| 0 <= i < |b| && b[i].after.uid == uid;
        assert both[|a| + i].after.uid == uid;
      }
    }
    forall uid | uid in UidsOf(both) ensures uid in UidsOf(a) + UidsOf(b) {
      var i :| 0 <= i < |both| && both[i].after.uid == uid;
      if i < |a| {
        assert a[i].after.uid == uid;
      } else {
        assert b[i - |a|].after.uid == uid;
      }
    }
  }
}
