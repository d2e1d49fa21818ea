/** The escalation worker: at most one message per task and level. */
module Escalation {
  import opened Prelude
  import opened BusinessTime
  import opened Tasks
  import opened Database

  const LIST_LIMIT := 500

  datatype SlaState = Healthy | AtRisk | Breached

  /** The columns of a task row the worker reads and writes; `closed` rows are not listed. */
  datatype SlaRow = SlaRow(
    id: int, uid: TaskUid, deadline: Option<Date>, closed: bool, assignee: Option<UserId>, state: Option<SlaState>, level: int)

  function StateFor(daysRemaining: int): SlaState {
    if daysRemaining < 0 then Breached else if daysRemaining <= 1 then AtRisk else Healthy
  }

  function LevelFor(daysRemaining: int): int {
    if daysRemaining < 0 then 2 else if daysRemaining <= 1 then 1 else 0
  }

  predicate IsListed(row: SlaRow) {
    row.deadline.Some? && !row.closed
  }

  predicate NothingToDo(row: SlaRow, today: Date)
    requires IsListed(row)
  {
    row.state == Some(StateFor(row.deadline.value - today)) && row.level >= LevelFor(row.deadline.value - today)
  }

  /** The row after a tick, whatever else the tick does. */
  function Updated(row: SlaRow, today: Date): SlaRow
    requires IsListed(row)
  {
    if NothingToDo(row, today) then row
    else row.(state := Some(StateFor(row.deadline.value - today)), level := LevelFor(row.deadline.value - today))
  }

  /** The tick tries to escalate the row. */
  predicate Rises(row: SlaRow, today: Date)
    requires IsListed(row)
  {
    !NothingToDo(row, today) && LevelFor(row.deadline.value - today) > row.level && LevelFor(row.deadline.value - today) != 0
  }

  function EscalationNotice(row: SlaRow, today: Date, now: Instant): Notification
    requires IsListed(row) && row.assignee.Some?
  {
    Notification(Some(row.id), row.assignee.value, SlaEscalation,
                 SlaKey(row.uid, LevelFor(row.deadline.value - today)),
                 Pending, 0, Some(now + 5_000_000_000), now)
  }

  // ---- One tick, alone ----

  class SlaStore {
    var rows: map<TaskUid, SlaRow>
    var escalations: set<(TaskUid, int)>
    var notifications: seq<Notification>

    constructor ()
      ensures rows == map[] && escalations == {} && notifications == []
    {
      rows, escalations, notifications := map[], {}, [];
    }

    /** `INSERT OR IGNORE`; true when the row is new. */
    method RecordEscalation(uid: TaskUid, level: int) returns (isNew: bool)
      modifies this`escalations
      ensures isNew <==> (uid, level) !in old(escalations)
      ensures escalations == old(escalations) + {(uid, level)}
    {
      isNew := (uid, level) !in escalations;
      escalations := escalations + {(uid, level)};
    }

    method Enqueue(n: Notification)
      modifies this`notifications
      ensures notifications == Enqueued(old(notifications), n)
    {
      notifications := Enqueued(notifications, n);
    }
  }

  /** The tables after one listed row of a tick. */
  function EscalationsAfter(row: SlaRow, today: Date, escalations: set<(TaskUid, int)>): set<(TaskUid, int)>
    requires IsListed(row)
  {
    if Rises(row, today) then escalations + {(row.uid, LevelFor(row.deadline.value - today))} else escalations
  }

  function NoticesAfter(
    row: SlaRow, today: Date, now: Instant, escalations: set<(TaskUid, int)>, notices: seq<Notification>): seq<Notification>
    requires IsListed(row)
  {
    if Rises(row, today) && (row.uid, LevelFor(row.deadline.value - today)) !in escalations && row.assignee.Some?
    then Enqueued(notices, EscalationNotice(row, today, now)) else notices
  }

  predicate IsListing(rows: map<TaskUid, SlaRow>, listed: seq<SlaRow>) {
    && (forall i :: 0 <= i < |listed| ==> listed[i].uid in rows && rows[listed[i].uid] == listed[i] && IsListed(listed[i]))
    && (forall i, k :: 0 <= i < k < |listed| ==> listed[i].uid != listed[k].uid)
  }

  /** The first `n` listed rows are done and no other row is touched. */
  ghost predicate TickedSoFar(
    before: map<TaskUid, SlaRow>, listed: seq<SlaRow>, n: nat, today: Date, after: map<TaskUid, SlaRow>)
    requires n <= |listed| && IsListing(before, listed)
  {
    && after.Keys == before.Keys
    && (forall i :: 0 <= i < n ==> after[listed[i].uid] == Updated(listed[i], today))
    && (forall uid :: uid in before && (forall i :: 0 <= i < n ==> listed[i].uid != uid) ==> after[uid] == before[uid])
  }

  /** A tick over the rows the listing returned. */
  method Tick(db: SlaStore, enabled: bool, listed: seq<SlaRow>, today: Date, now: Instant)
    requires |listed| <= LIST_LIMIT && IsListing(db.rows, listed)
    modifies db
    ensures !enabled ==> db.rows == old(db.rows) && db.escalations == old(db.escalations) && db.notifications == old(db.notifications)
    ensures enabled ==> TickedSoFar(old(db.rows), listed, |listed|, today, db.rows)
    ensures enabled ==> db.escalations == EscalationsOf(listed, today, |listed|, old(db.escalations))
    ensures enabled ==>
              db.notifications == NoticesOf(listed, today, now, |listed|, old(db.escalations), old(db.notifications))
  {
    if !enabled {
      return;
    }
    ghost var before, escalations0, notices0 := db.rows, db.escalations, db.notifications;
    for i := 0 to |listed|
      invariant TickedSoFar(before, listed, i, today, db.rows)
      invariant db.escalations == EscalationsOf(listed, today, i, escalations0)
      invariant db.notifications == NoticesOf(listed, today, now, i, escalations0, notices0)
    {
      var task := listed[i];
      var days := task.deadline.value - today;
      var newState, newLevel := StateFor(days), LevelFor(days);
      if task.state == Some(newState) && task.level >= newLevel {
        continue;
      }
      db.rows := db.rows[task.uid := db.rows[task.uid].(state := Some(newState), level := newLevel)];
      if newLevel <= task.level || newLevel == 0 {
        continue;
      }
      var isNew := db.RecordEscalation(task.uid, newLevel);
      if !isNew {
        continue;
      }
      if task.assignee.None? {
        continue;
      }
      db.Enqueue(EscalationNotice(task, today, now));
    }
  }

  function EscalationsOf(listed: seq<SlaRow>, today: Date, n: nat, escalations: set<(TaskUid, int)>): set<(TaskUid, int)>
    requires n <= |listed| && forall i :: 0 <= i < |listed| ==> IsListed(listed[i])
  {
    if n == 0 then escalations else EscalationsAfter(listed[n - 1], today, EscalationsOf(listed, today, n - 1, escalations))
  }

  function NoticesOf(
    listed: seq<SlaRow>, today: Date, now: Instant, n: nat, escalations: set<(TaskUid, int)>, notices: seq<Notification>)
    : seq<Notification>
    requires n <= |listed| && forall i :: 0 <= i < |listed| ==> IsListed(listed[i])
  {
    if n == 0 then notices
    else NoticesAfter(listed[n - 1], today, now, EscalationsOf(listed, today, n - 1, escalations),
                      NoticesOf(listed, today, now, n - 1, escalations, notices))
  }

  /** 2 once the deadline is over, 1 on its day and the day before, 0 earlier. */
  predicate IsLevelOf(level: int, deadline: Date, today: Date) {
    && (level == 2 <==> deadline < today)
    && (level == 1 <==> deadline == today || deadline == today + 1)
    && (level == 0 <==> deadline > today + 1)
  }

  /** The state that goes with each level. */
  predicate IsStateOf(state: Option<SlaState>, deadline: Date, today: Date) {
    && (state == Some(Breached) <==> deadline < today)
    && (state == Some(AtRisk) <==> deadline == today || deadline == today + 1)
    && (state == Some(Healthy) <==> deadline > today + 1)
  }

  /** The mark a listed row rises to. */
  predicate RisesTo(row: SlaRow, today: Date, mark: (TaskUid, int)) {
    && IsListed(row) && mark.0 == row.uid && IsLevelOf(mark.1, row.deadline.value, today)
    && mark.1 > 0 && mark.1 > row.level
  }

  /** What is on record after a tick: what was there, and what a listed row rises to. */
  lemma {:induction false} RecordedByTick(
    listed: seq<SlaRow>, today: Date, n: nat, escalations: set<(TaskUid, int)>, mark: (TaskUid, int))
    requires n <= |listed| && forall i :: 0 <= i < |listed| ==> IsListed(listed[i])
    ensures mark in EscalationsOf(listed, today, n, escalations)
       <==> mark in escalations || exists i :: 0 <= i < n && RisesTo(listed[i], today, mark)
  {
    if n > 0 {
      RecordedByTick(listed, today, n - 1, escalations, mark);
    }
  }

  /** Whose messages a tick queues: those of assigned rows that rise to a mark which was not on record. */
  predicate Announces(row: SlaRow, today: Date, escalations: set<(TaskUid, int)>, key: DedupeKey) {
    && key.SlaKey? && RisesTo(row, today, (key.uid, key.level)) && (key.uid, key.level) !in escalations
    && row.assignee.Some?
  }

  /** The row that tells the assignee, for five seconds later. */
  predicate IsAlarm(n: Notification, row: SlaRow, now: Instant) {
    && row.assignee.Some? && n.taskId == Some(row.id) && n.recipient == row.assignee.value && n.kind.SlaEscalation?
    && n.delivery.Pending? && n.attempts == 0 && n.nextAttemptAt == Some(now + 5_000_000_000) && n.createdAt == now
  }

  /** Every row a tick adds is such an alarm, for a listed row that announces its key. */
  lemma {:induction false} AlarmsOfTick(
    listed: seq<SlaRow>, today: Date, now: Instant, n: nat, escalations: set<(TaskUid, int)>, notices: seq<Notification>)
    requires n <= |listed| && KeysAreUnique(notices)
    requires forall i :: 0 <= i < |listed| ==> IsListed(listed[i])
    requires forall i, k :: 0 <= i < k < |listed| ==> listed[i].uid != listed[k].uid
    ensures var queued := NoticesOf(listed, today, now, n, escalations, notices);
            |notices| <= |queued| && forall k :: |notices| <= k < |queued| ==>
              exists i :: 0 <= i < n && Announces(listed[i], today, escalations, queued[k].key) && IsAlarm(queued[k], listed[i], now)
  {
    if n > 0 {
      AlarmsOfTick(listed, today, now, n - 1, escalations, notices);
      var row := listed[n - 1];
      RecordedByTick(listed, today, n - 1, escalations, (row.uid, LevelFor(row.deadline.value - today)));
      var before := NoticesOf(listed, today, now, n - 1, escalations, notices);
      var queued := NoticesOf(listed, today, now, n, escalations, notices);
      if |queued| > |before| {
        var last := queued[|before|];
        assert last == EscalationNotice(row, today, now);
        assert Announces(row, today, escalations, last.key) && IsAlarm(last, row, now);
      }
    }
  }

  lemma {:induction false} QueuedByTick(
    listed: seq<SlaRow>, today: Date, now: Instant, n: nat, escalations: set<(TaskUid, int)>,
    notices: seq<Notification>, key: DedupeKey)
    requires n <= |listed| && KeysAreUnique(notices)
    requires forall i :: 0 <= i < |listed| ==> IsListed(listed[i])
    requires forall i, k :: 0 <= i < k < |listed| ==> listed[i].uid != listed[k].uid
    ensures var queued := NoticesOf(listed, today, now, n, escalations, notices);
            && notices <= queued && KeysAreUnique(queued)
            && (HasKey(queued, key)
                <==> HasKey(notices, key) || exists i :: 0 <= i < n && Announces(listed[i], today, escalations, key))
  {
    if n > 0 {
      QueuedByTick(listed, today, now, n - 1, escalations, notices, key);
      QueuedByRow(listed, today, now, n - 1, escalations, NoticesOf(listed, today, now, n - 1, escalations, notices), key);
    }
  }

  lemma QueuedByRow(
    listed: seq<SlaRow>, today: Date, now: Instant, n: nat, escalations: set<(TaskUid, int)>,
    notices: seq<Notification>, key: DedupeKey)
    requires n < |listed| && KeysAreUnique(notices)
    requires forall i :: 0 <= i < |listed| ==> IsListed(listed[i])
    requires forall i, k :: 0 <= i < k < |listed| ==> listed[i].uid != listed[k].uid
    ensures var queued := NoticesAfter(listed[n], today, now, EscalationsOf(listed, today, n, escalations), notices);
            && notices <= queued && KeysAreUnique(queued)
            && (HasKey(queued, key) <==> HasKey(notices, key) || Announces(listed[n], today, escalations, key))
  {
    var row := listed[n];
    RecordedByTick(listed, today, n, escalations, (row.uid, LevelFor(row.deadline.value - today)));
    hide EscalationsOf;
    if row.assignee.Some? {
      EnqueuedHas(notices, EscalationNotice(row, today, now), key);
    }
  }

  /** A second tick on the same date finds nothing to do on any row the first one visited, and writes nothing. */
  lemma {:induction false} RepeatedTickIsIdle(
    before: map<TaskUid, SlaRow>, listed: seq<SlaRow>, today: Date, after: map<TaskUid, SlaRow>,
    again: seq<SlaRow>, n: nat, now: Instant, escalations: set<(TaskUid, int)>, notices: seq<Notification>,
    later: map<TaskUid, SlaRow>)
    requires IsListing(before, listed) && TickedSoFar(before, listed, |listed|, today, after)
    requires IsListing(after, again) && n <= |again| && TickedSoFar(after, again, n, today, later)
    requires forall i :: 0 <= i < |again| ==> exists k :: 0 <= k < |listed| && listed[k].uid == again[i].uid
    ensures later == after
    ensures EscalationsOf(again, today, n, escalations) == escalations
    ensures NoticesOf(again, today, now, n, escalations, notices) == notices
  {
    forall i | 0 <= i < |again| ensures NothingToDo(again[i], today) {
      var k :| 0 <= k < |listed| && listed[k].uid == again[i].uid;
      assert again[i] == after[listed[k].uid] == Updated(listed[k], today);
    }
    if n > 0 {
      NothingEscalates(again, today, n, now, escalations, notices);
    }
    forall uid | uid in after ensures later[uid] == after[uid] {
      if i :| 0 <= i < n && again[i].uid == uid {
        assert later[uid] == Updated(again[i], today);
      }
    }
  }

  lemma {:induction false} NothingEscalates(
    again: seq<SlaRow>, today: Date, n: nat, now: Instant, escalations: set<(TaskUid, int)>, notices: seq<Notification>)
    requires n <= |again| && forall i :: 0 <= i < |again| ==> IsListed(again[i]) && NothingToDo(again[i], today)
    ensures EscalationsOf(again, today, n, escalations) == escalations
    ensures NoticesOf(again, today, now, n, escalations, notices) == notices
  {
    if n > 0 {
      NothingEscalates(again, today, n - 1, now, escalations, notices);
    }
  }

  /** A row after ticks on the given dates, its other columns left alone. */
  function Ticked(row: SlaRow, dates: seq<Date>): SlaRow
    requires IsListed(row)
    ensures var r := Ticked(row, dates); IsListed(r) && r.deadline == row.deadline && r.uid == row.uid
  {
    if dates == [] then row else Updated(Ticked(row, dates[..|dates| - 1]), dates[|dates| - 1])
  }

  /** Under a fixed deadline and dates that do not go back, the level only rises and is always the current one. */
  lemma {:induction false} LevelOnlyRises(row: SlaRow, dates: seq<Date>)
    requires IsListed(row) && row.level == 0 && dates != []
    requires forall i, k :: 0 <= i < k < |dates| ==> dates[i] <= dates[k]
    ensures Ticked(row, dates).level == LevelFor(row.deadline.value - dates[|dates| - 1])
    ensures Ticked(row, dates).state == Some(StateFor(row.deadline.value - dates[|dates| - 1]))
    ensures Ticked(row, dates[..|dates| - 1]).level <= Ticked(row, dates).level
    ensures IsLevelOf(Ticked(row, dates).level, row.deadline.value, dates[|dates| - 1])
    ensures IsStateOf(Ticked(row, dates).state, row.deadline.value, dates[|dates| - 1])
  {
    var before := dates[..|dates| - 1];
    if before != [] {
      LevelOnlyRises(row, before);
      assert before[|before| - 1] <= dates[|dates| - 1];
    }
  }

  /** An edit of the deadline is caught up with by the next tick, and only putting it off can lower the level. */
  lemma LevelFallsOnlyWhenPutOff(row: SlaRow, dates: seq<Date>, deadline: Date, today: Date)
    requires IsListed(row) && row.level == 0 && dates != []
    requires forall i, k :: 0 <= i < k < |dates| ==> dates[i] <= dates[k]
    requires dates[|dates| - 1] <= today
    ensures var edited := Ticked(row, dates).(deadline := Some(deadline));
            && Updated(edited, today).level == LevelFor(deadline - today)
            && Updated(edited, today).state == Some(StateFor(deadline - today))
            && (Updated(edited, today).level < edited.level ==> deadline > row.deadline.value)
  {
    LevelOnlyRises(row, dates);
  }
}
