/** Every task is determined by the journal of the operations that were accepted. */
module TaskHistory {
  import opened Prelude
  import opened BusinessTime
  import opened Text
  import opened Tasks

  datatype Operation =
    | Transition(next: Status, at: Instant)
    | Blocker(reason: string, at: Instant)
    | Reassignment(user: Option<UserId>, employee: Option<EmployeeId>, at: Instant)
    | Link(account: UserId, at: Instant)

  function Apply(t: Task, op: Operation): Result<Task, Refusal> {
    match op
    case Transition(next, at) => TransitionTo(t, next, at)
    case Blocker(reason, at) => ApplyBlocker(t, reason, at)
    case Reassignment(user, employee, at) => Reassign(t, user, employee, at)
    case Link(account, at) => LinkRegisteredAssignee(t, account, at)
  }

  /** A refused operation leaves the task as it was. */
  function Run(t: Task, ops: seq<Operation>): Task {
    if ops == [] then t
    else
      var before := Run(t, ops[..|ops| - 1]);
      var after := Apply(before, ops[|ops| - 1]);
      if after.Ok? then after.value else before
  }

  /** What an accepted operation did. */
  datatype Event =
    | Entered(status: Status, reason: Option<string>, at: Instant)
    | Reset(user: Option<UserId>, employee: Option<EmployeeId>, at: Instant)
    | Linked(account: UserId, at: Instant)

  function EventsOf(t: Task, op: Operation): seq<Event> {
    if Apply(t, op).Err? then []
    else
      match op
      case Transition(next, at) => [Entered(next, None, at)]
      case Blocker(reason, at) => [Entered(Blocked, Some(Trim(reason)), at)]
      case Reassignment(user, employee, at) => [Reset(user, employee, at)]
      case Link(account, at) => if t.assignedUser == Some(account) then [] else [Linked(account, at)]
  }

  function Journal(t: Task, ops: seq<Operation>): seq<Event> {
    if ops == [] then []
    else Journal(t, ops[..|ops| - 1]) + EventsOf(Run(t, ops[..|ops| - 1]), ops[|ops| - 1])
  }

  // ---- Reading a journal, without any task ----

  /** No reassignment has happened since event `i`. */
  predicate StandsSince(j: seq<Event>, i: nat) {
    forall k :: i < k < |j| ==> !j[k].Reset?
  }

  predicate Enters(j: seq<Event>, i: int, status: Status) {
    0 <= i < |j| && j[i].Entered? && j[i].status == status && StandsSince(j, i)
  }

  /** `v` is the time of the first entry into `status` since the last reassignment, if there is one. */
  ghost predicate IsFirstEntry(j: seq<Event>, status: Status, v: Option<Instant>) {
    match v
    case None => forall i :: !Enters(j, i, status)
    case Some(at) => exists i :: Enters(j, i, status) && j[i].at == at && forall h :: h < i ==> !Enters(j, h, status)
  }

  /** Event `i` is the last one that says anything about the status. */
  predicate IsLastStatusEvent(j: seq<Event>, i: int) {
    0 <= i < |j| && !j[i].Linked? && forall k :: i < k < |j| ==> j[k].Linked?
  }

  ghost predicate IsCurrentStatus(j: seq<Event>, status: Status, reason: Option<string>) {
    if exists i :: IsLastStatusEvent(j, i) then
      exists i :: IsLastStatusEvent(j, i)
               && (if j[i].Reset? then status.Created? && reason.None? else j[i].status == status && j[i].reason == reason)
    else status.Created? && reason.None?
  }

  function CurrentAssignee(start: Task, j: seq<Event>): (Option<UserId>, Option<EmployeeId>) {
    if j == [] then (start.assignedUser, start.assignedEmployee)
    else
      match j[|j| - 1]
      case Entered(_, _, _) => CurrentAssignee(start, j[..|j| - 1])
      case Reset(user, employee, _) => (user, employee)
      case Linked(account, _) => (Some(account), CurrentAssignee(start, j[..|j| - 1]).1)
  }

  /** `t` is what the journal says, field by field. */
  ghost predicate Tells(start: Task, j: seq<Event>, t: Task) {
    && (forall status: Status :: !status.Created? ==> IsFirstEntry(j, status, t.Stamp(status)))
    && IsCurrentStatus(j, t.status, t.blockedReason)
    && CurrentAssignee(start, j) == (t.assignedUser, t.assignedEmployee)
    && t.version == start.version + |j|
    && t.updatedAt == (if j == [] then start.updatedAt else j[|j| - 1].at)
    && t.createdAt == start.createdAt && t.createdBy == start.createdBy && t.uid == start.uid && t.id == start.id
  }

  /** Only a task that is not blocked can become blocked, so no reason survives from before. */
  predicate NoStrayReason(t: Task) {
    t.blockedReason.Some? ==> t.status.Blocked?
  }

  lemma EntersBefore(j: seq<Event>, e: Event, i: int, status: Status)
    requires !e.Reset? && i < |j|
    ensures Enters(j + [e], i, status) <==> Enters(j, i, status)
  {
    if 0 <= i && StandsSince(j + [e], i) {
      forall m | i < m < |j| ensures !j[m].Reset? {
        assert (j + [e])[m] == j[m];
      }
    }
  }

  lemma FirstEntryAfter(j: seq<Event>, e: Event, status: Status, v: Option<Instant>)
    requires IsFirstEntry(j, status, v) && !status.Created?
    ensures IsFirstEntry(j + [e], status,
                         if e.Reset? then None
                         else if e.Entered? && e.status == status && v.None? then Some(e.at)
                         else v)
  {
    var k := j + [e];
    if e.Reset? {
      forall i ensures !Enters(k, i, status) {
        assert k[|j|].Reset?;
      }
    } else {
      forall i | i < |j| ensures Enters(k, i, status) <==> Enters(j, i, status) {
        EntersBefore(j, e, i, status);
      }
      if v.Some? {
        var i :| Enters(j, i, status) && j[i].at == v.value && forall h :: h < i ==> !Enters(j, h, status);
        assert Enters(k, i, status) && k[i].at == v.value;
      } else if e.Entered? && e.status == status {
        assert Enters(k, |j|, status) && k[|j|].at == e.at;
      } else {
        forall i ensures !Enters(k, i, status) {
        }
      }
    }
  }

  lemma CurrentStatusAfter(j: seq<Event>, e: Event, status: Status, reason: Option<string>)
    requires IsCurrentStatus(j, status, reason)
    ensures e.Linked? ==> IsCurrentStatus(j + [e], status, reason)
    ensures e.Reset? ==> IsCurrentStatus(j + [e], Created, None)
    ensures e.Entered? ==> IsCurrentStatus(j + [e], e.status, e.reason)
  {
    var k := j + [e];
    if e.Linked? {
      forall i ensures IsLastStatusEvent(k, i) <==> IsLastStatusEvent(j, i) {
        if IsLastStatusEvent(k, i) {
          forall m | i < m < |j| ensures j[m].Linked? {
            assert k[m] == j[m];
          }
        }
      }
    } else {
      assert IsLastStatusEvent(k, |j|);
    }
  }

  /** One accepted operation keeps every timestamp in step with its event. */
  lemma StampAfter(t: Task, op: Operation, status: Status)
    requires Apply(t, op).Ok? && EventsOf(t, op) != [] && !status.Created?
    ensures var e, v := EventsOf(t, op)[0], t.Stamp(status);
            Apply(t, op).value.Stamp(status) ==
            if e.Reset? then None else if e.Entered? && e.status == status && v.None? then Some(e.at) else v
  {
    match op
    case Transition(next, at) => TransitionStamp(t, next, at, status);
    case Blocker(_, at) => TransitionStamp(t, Blocked, at, status);
    case Reassignment(_, _, _) =>
    case Link(_, _) =>
  }

  lemma TransitionStamp(t: Task, next: Status, at: Instant, status: Status)
    requires TransitionTo(t, next, at).Ok? && !status.Created?
    ensures TransitionTo(t, next, at).value.Stamp(status) == MarkTimestamp(next, status, t.Stamp(status), at)
  {
  }

  lemma TellsAfter(start: Task, j: seq<Event>, t: Task, op: Operation)
    requires Tells(start, j, t) && NoStrayReason(t) && Apply(t, op).Ok?
    ensures Tells(start, j + EventsOf(t, op), Apply(t, op).value)
    ensures NoStrayReason(Apply(t, op).value)
  {
    hide Trim;
    if EventsOf(t, op) == [] {
      assert j + [] == j;
    } else {
      var e, next := EventsOf(t, op)[0], Apply(t, op).value;
      var k := j + [e];
      forall status: Status | !status.Created? ensures IsFirstEntry(k, status, next.Stamp(status)) {
        FirstEntryAfter(j, e, status, t.Stamp(status));
        StampAfter(t, op, status);
      }
      assert IsCurrentStatus(k, next.status, next.blockedReason) by {
        CurrentStatusAfter(j, e, t.status, t.blockedReason);
      }
      assert CurrentAssignee(start, k) == (next.assignedUser, next.assignedEmployee) by {
        assert k[..|k| - 1] == j;
      }
    }
  }

  // ---- Main results ----

  /** A new task after any operations is what the journal of the accepted ones tells. */
  lemma {:induction false} TaskIsItsJournal(start: Task, ops: seq<Operation>)
    requires start == NewTask(start.id, start.uid, start.createdBy, start.assignedUser, start.assignedEmployee, start.createdAt)
    ensures Tells(start, Journal(start, ops), Run(start, ops))
    ensures NoStrayReason(Run(start, ops))
  {
    if ops != [] {
      var before := ops[..|ops| - 1];
      TaskIsItsJournal(start, before);
      var t, op := Run(start, before), ops[|ops| - 1];
      if Apply(t, op).Ok? {
        TellsAfter(start, Journal(start, before), t, op);
      } else {
        assert Journal(start, ops) == Journal(start, before);
      }
    }
  }

  predicate NoProgress(t: Task) {
    && t.sentAt.None? && t.startedAt.None? && t.blockedAt.None?
    && t.reviewRequestedAt.None? && t.completedAt.None? && t.cancelledAt.None?
  }

  /** Statuses and timestamps agree. */
  predicate Stamped(t: Task) {
    && (t.status.Completed? <==> t.completedAt.Some?)
    && (t.status.Cancelled? <==> t.cancelledAt.Some?)
    && (t.status.InReview? || t.status.Completed? ==> t.reviewRequestedAt.Some?)
    && (t.status.Sent? ==> t.sentAt.Some?)
    && (t.status.InProgress? ==> t.startedAt.Some?)
    && (t.status.Blocked? ==> t.blockedAt.Some?)
    && (t.status.Created? ==> NoProgress(t))
  }

  predicate IsReason(r: string) {
    0 < |r| <= 280 && Trim(r) == r
  }

  /** What holds of every task the operations can produce. */
  predicate Lifecycle(t: Task) {
    && Stamped(t)
    && NoStrayReason(t)
    && (t.blockedReason.Some? ==> IsReason(t.blockedReason.value))
  }

  lemma TransitionKeepsStamped(t: Task, next: Status, at: Instant)
    requires Stamped(t) && t.status.CanTransitionTo(next)
    ensures Stamped(TransitionTo(t, next, at).value) && !t.status.IsTerminal()
  {
  }

  lemma NormalizedIsReason(reason: string)
    requires Trim(reason) != [] && |Trim(reason)| <= MAX_BLOCKER_REASON_LENGTH
    ensures IsReason(Trim(reason))
  {
    TrimmedStays(Trim(reason));
  }

  lemma BlockerKeepsLifecycle(t: Task, reason: string, at: Instant)
    requires Lifecycle(t) && ApplyBlocker(t, reason, at).Ok?
    ensures Lifecycle(ApplyBlocker(t, reason, at).value) && !t.status.IsTerminal()
  {
    TransitionKeepsStamped(t, Blocked, at);
    NormalizedIsReason(reason);
    var after := ApplyBlocker(t, reason, at).value;
    assert after == TransitionTo(t, Blocked, at).value.(blockedReason := after.blockedReason);
  }

  lemma TransitionKeepsLifecycle(t: Task, next: Status, at: Instant)
    requires Lifecycle(t) && TransitionTo(t, next, at).Ok?
    ensures Lifecycle(TransitionTo(t, next, at).value) && !t.status.IsTerminal()
  {
    hide Trim, IsReason;
    TransitionKeepsStamped(t, next, at);
  }

  lemma LifecycleIsKept(t: Task, op: Operation)
    requires Lifecycle(t) && Apply(t, op).Ok?
    ensures Lifecycle(Apply(t, op).value)
    ensures t.status.IsTerminal() ==> Apply(t, op).value.status == t.status
  {
    hide IsReason;
    match op
    case Transition(next, at) => TransitionKeepsLifecycle(t, next, at);
    case Blocker(reason, at) => BlockerKeepsLifecycle(t, reason, at);
    case Reassignment(_, _, _) =>
    case Link(_, _) =>
  }

  lemma {:induction false} EveryTaskHasLifecycle(start: Task, ops: seq<Operation>)
    requires Lifecycle(start)
    ensures Lifecycle(Run(start, ops))
    ensures start.status.IsTerminal() ==> Run(start, ops).status == start.status
  {
    if ops != [] {
      var before := ops[..|ops| - 1];
      EveryTaskHasLifecycle(start, before);
      if Apply(Run(start, before), ops[|ops| - 1]).Ok? {
        LifecycleIsKept(Run(start, before), ops[|ops| - 1]);
      }
    }
  }

  // ---- What a journal can look like ----

  /** Nothing has been entered since the last reassignment before event `n`. */
  predicate IsUntouched(j: seq<Event>, n: nat) {
    forall k :: 0 <= k < n && k < |j| && j[k].Entered? ==> exists m :: k < m < n && m < |j| && j[m].Reset?
  }

  /** What event `i` of a journal may be, given the ones around it. */
  ghost predicate FitsIn(j: seq<Event>, i: nat)
    requires i < |j|
  {
    j[i].Entered? ==>
      && !j[i].status.Created?
      && (j[i].status.Sent? ==> IsUntouched(j, i))
      && (j[i].status.Completed? ==>
            exists k :: IsLastStatusEvent(j[..i], k) && j[k].Entered? && j[k].status.InReview?)
      && (j[i].status.IsTerminal() ==> forall k :: i < k < |j| ==> j[k].Linked?)
  }

  ghost predicate IsWellFormed(j: seq<Event>) {
    forall i: nat :: i < |j| ==> FitsIn(j, i)
  }

  lemma {:induction false} LastStatusEvent(j: seq<Event>) returns (last: Option<int>)
    ensures last.Some? ==> IsLastStatusEvent(j, last.value)
    ensures last.None? ==> forall k :: 0 <= k < |j| ==> j[k].Linked?
  {
    if j == [] {
      last := None;
    } else if j[|j| - 1].Linked? {
      var before := j[..|j| - 1];
      last := LastStatusEvent(before);
      if last.Some? {
        assert forall k :: 0 <= k < |before| ==> before[k] == j[k];
      } else {
        forall k | 0 <= k < |j| ensures j[k].Linked? {
          assert k < |before| ==> before[k].Linked?;
        }
      }
    } else {
      last := Some(|j| - 1);
    }
  }

  /** A task told by a well-formed journal is `Created` only if it has been untouched since the last reassignment. */
  lemma CreatedIsUntouched(j: seq<Event>, reason: Option<string>)
    requires IsWellFormed(j) && IsCurrentStatus(j, Created, reason)
    ensures IsUntouched(j, |j|)
  {
    var last := LastStatusEvent(j);
    if last.Some? {
      assert FitsIn(j, last.value);
      assert j[last.value].Reset?;
      forall k | 0 <= k < |j| && j[k].Entered? ensures exists m :: k < m < |j| && j[m].Reset? {
        assert k < last.value < |j|;
      }
    }
  }

  lemma WellFormedAfter(j: seq<Event>, e: Event)
    requires IsWellFormed(j) && FitsIn(j + [e], |j|)
    requires !e.Linked? ==> forall i :: 0 <= i < |j| && j[i].Entered? ==>
               !j[i].status.IsTerminal()
    ensures IsWellFormed(j + [e])
  {
    var longer := j + [e];
    forall i: nat | i < |longer| ensures FitsIn(longer, i) {
      if i < |j| {
        assert FitsIn(j, i);
        assert longer[..i] == j[..i];
        if j[i].Entered? && j[i].status.Sent? {
          forall k | 0 <= k < i && longer[k].Entered? ensures exists m :: k < m < i && longer[m].Reset? {
            var m :| k < m < i && m < |j| && j[m].Reset?;
            assert longer[m].Reset?;
          }
        }
      }
    }
  }

  /** A task told by a well-formed journal is still in the terminal status it once entered. */
  lemma ClosedStaysTold(j: seq<Event>, status: Status, reason: Option<string>, i: nat)
    requires IsWellFormed(j) && IsCurrentStatus(j, status, reason)
    requires i < |j| && j[i].Entered? && j[i].status.IsTerminal()
    ensures status == j[i].status
  {
    hide IsUntouched;
    assert FitsIn(j, i);
    assert IsLastStatusEvent(j, i);
  }

  lemma OnlyLinksWhenClosed(t: Task, op: Operation)
    requires t.status.IsTerminal() && Apply(t, op).Ok? && EventsOf(t, op) != []
    ensures EventsOf(t, op)[0].Linked?
  {
    hide Trim;
  }

  lemma EventFits(j: seq<Event>, t: Task, op: Operation)
    requires IsWellFormed(j) && IsCurrentStatus(j, t.status, t.blockedReason)
    requires Apply(t, op).Ok? && EventsOf(t, op) != []
    ensures FitsIn(j + EventsOf(t, op), |j|)
  {
    var e := EventsOf(t, op)[0];
    var longer := j + [e];
    assert longer[..|j|] == j;
    if e.Entered? && e.status.Sent? {
      CreatedIsUntouched(j, t.blockedReason);
      forall k | 0 <= k < |j| && longer[k].Entered? ensures exists m :: k < m < |j| && longer[m].Reset? {
        assert j[k].Entered?;
        var m :| k < m < |j| && j[m].Reset?;
        assert longer[m].Reset?;
      }
    }
    if e.Entered? && e.status.Completed? {
      assert t.status.InReview?;
      var k :| IsLastStatusEvent(j, k);
      assert longer[k] == j[k];
    }
  }

  /**
   The shape of every history. Nothing enters `Created`; `Sent` comes first
   after the start or a reassignment and so at most once; completion follows
   immediately on a review; and nothing but a link follows a closed task.
   */
  lemma {:induction false} EveryJournalIsWellFormed(start: Task, ops: seq<Operation>)
    requires start == NewTask(start.id, start.uid, start.createdBy, start.assignedUser, start.assignedEmployee, start.createdAt)
    ensures IsWellFormed(Journal(start, ops))
  {
    if ops != [] {
      var before, op := ops[..|ops| - 1], ops[|ops| - 1];
      var j, t := Journal(start, before), Run(start, before);
      EveryJournalIsWellFormed(start, before);
      TaskIsItsJournal(start, before);
      if EventsOf(t, op) == [] {
        assert j + [] == j;
      } else {
        EventFits(j, t, op);
        forall i | 0 <= i < |j| && j[i].Entered? && !EventsOf(t, op)[0].Linked? ensures !j[i].status.IsTerminal() {
          if j[i].status.IsTerminal() {
            ClosedStaysTold(j, t.status, t.blockedReason, i);
            OnlyLinksWhenClosed(t, op);
          }
        }
        WellFormedAfter(j, EventsOf(t, op)[0]);
      }
    }
  }

  /** The converse of "a reason means blocked" fails: a plain status change blocks without one. */
  lemma BlockedWithoutReason(start: Task, at: Instant)
    requires start.status.Created? && start.blockedReason.None?
    ensures var t := Run(start, [Transition(Blocked, at)]);
            t.status.Blocked? && t.blockedReason.None?
  {
    assert [Transition(Blocked, at)][..0] == [];
  }

  /** The times at which the operations ran never decrease and none is before `from`. */
  predicate ClockRuns(from: Instant, ops: seq<Operation>) {
    && (forall i :: 0 <= i < |ops| ==> from <= ops[i].at)
    && forall i, k :: 0 <= i < k < |ops| ==> ops[i].at <= ops[k].at
  }

  predicate StampsWithin(t: Task) {
    && t.createdAt <= t.updatedAt
    && forall status: Status :: t.Stamp(status).Some? ==> t.createdAt <= t.Stamp(status).value <= t.updatedAt
  }

  lemma StampsWithinAfter(t: Task, op: Operation)
    requires StampsWithin(t) && t.updatedAt <= op.at && Apply(t, op).Ok?
    ensures StampsWithin(Apply(t, op).value)
    ensures Apply(t, op).value.updatedAt <= op.at && Apply(t, op).value.createdAt == t.createdAt
  {
    if EventsOf(t, op) != [] {
      var next := Apply(t, op).value;
      assert next.updatedAt == op.at && next.createdAt == t.createdAt;
      forall status: Status ensures next.Stamp(status).Some? ==> t.createdAt <= next.Stamp(status).value <= op.at {
        if !status.Created? {
          StampAfter(t, op, status);
        }
      }
    }
  }

  lemma {:induction false} StampsLieWithin(start: Task, ops: seq<Operation>)
    requires start == NewTask(start.id, start.uid, start.createdBy, start.assignedUser, start.assignedEmployee, start.createdAt)
    requires ClockRuns(start.createdAt, ops)
    ensures StampsWithin(Run(start, ops))
    ensures Run(start, ops).updatedAt <= if ops == [] then start.createdAt else ops[|ops| - 1].at
  {
    if ops != [] {
      var before, op := ops[..|ops| - 1], ops[|ops| - 1];
      assert forall i :: 0 <= i < |before| ==> before[i] == ops[i];
      StampsLieWithin(start, before);
      if Apply(Run(start, before), op).Ok? {
        StampsWithinAfter(Run(start, before), op);
      }
    }
  }
}
