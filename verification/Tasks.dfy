/** The task aggregate and its state machine. Every operation returns a new task. */
module Tasks {
  import opened Prelude
  import opened BusinessTime
  import opened Text

  const MAX_BLOCKER_REASON_LENGTH := 280

  type UserId = int
  type EmployeeId = int
  type TaskUid = int

  datatype Status = Created | Sent | InProgress | Blocked | InReview | Completed | Cancelled
  {
    predicate CanTransitionTo(next: Status) {
      match this
      case Created => next.Sent? || next.InProgress? || next.Blocked? || next.Cancelled?
      case Sent => next.InProgress? || next.Blocked? || next.InReview? || next.Cancelled?
      case InProgress => next.Blocked? || next.InReview? || next.Cancelled?
      case Blocked => next.InProgress? || next.InReview? || next.Cancelled?
      case InReview => next.InProgress? || next.Completed? || next.Cancelled?
      case Completed => false
      case Cancelled => false
    }

    predicate IsTerminal() {
      Completed? || Cancelled?
    }
  }

  /** Why an operation on a task is refused. */
  datatype Refusal =
    | TransitionInvalid
    | BlockerEmpty
    | BlockerTooLong
    | ReassignTerminal
    | EmployeeAssignmentMissing
    | Unauthenticated
    | Unauthorized
    | ReviewRequired
    | NotFound
    | VersionConflict

  datatype Task = Task(
    id: int,
    uid: TaskUid,
    version: int,
    createdBy: UserId,
    assignedUser: Option<UserId>,
    assignedEmployee: Option<EmployeeId>,
    status: Status,
    blockedReason: Option<string>,
    createdAt: Instant,
    sentAt: Option<Instant>,
    startedAt: Option<Instant>,
    blockedAt: Option<Instant>,
    reviewRequestedAt: Option<Instant>,
    completedAt: Option<Instant>,
    cancelledAt: Option<Instant>,
    updatedAt: Instant)
  {
    /** The timestamp kept for a status. */
    function Stamp(status: Status): Option<Instant> {
      match status
      case Created => Some(createdAt)
      case Sent => sentAt
      case InProgress => startedAt
      case Blocked => blockedAt
      case InReview => reviewRequestedAt
      case Completed => completedAt
      case Cancelled => cancelledAt
    }

    /** Creator and assignee are different people. */
    predicate ReviewIsRequired() {
      assignedUser.Some? && assignedUser.value != createdBy
    }
  }

  function NewTask(
    id: int, uid: TaskUid, createdBy: UserId, assignedUser: Option<UserId>, assignedEmployee: Option<EmployeeId>,
    now: Instant): Task
  {
    Task(id, uid, 0, createdBy, assignedUser, assignedEmployee, Created, None, now,
         None, None, None, None, None, None, now)
  }

  /** Records `now` on the first entry only. */
  function MarkTimestamp(next: Status, target: Status, current: Option<Instant>, now: Instant): Option<Instant> {
    if next == target then (if current.Some? then current else Some(now)) else current
  }

  function TransitionTo(t: Task, next: Status, now: Instant): Result<Task, Refusal> {
    if !t.status.CanTransitionTo(next) then Err(TransitionInvalid)
    else
      Ok(t.(version := t.version + 1,
            status := next,
            updatedAt := now,
            sentAt := MarkTimestamp(next, Sent, t.sentAt, now),
            startedAt := MarkTimestamp(next, InProgress, t.startedAt, now),
            blockedAt := MarkTimestamp(next, Blocked, t.blockedAt, now),
            reviewRequestedAt := MarkTimestamp(next, InReview, t.reviewRequestedAt, now),
            completedAt := MarkTimestamp(next, Completed, t.completedAt, now),
            cancelledAt := MarkTimestamp(next, Cancelled, t.cancelledAt, now),
            blockedReason := if next != Blocked then None else t.blockedReason))
  }

  function ApplyBlocker(t: Task, reason: string, now: Instant): Result<Task, Refusal> {
    var normalized := Trim(reason);
    if normalized == [] then Err(BlockerEmpty)
    else if |normalized| > MAX_BLOCKER_REASON_LENGTH then Err(BlockerTooLong)
    else
      var next := TransitionTo(t, Blocked, now);
      if next.Err? then next else Ok(next.value.(blockedReason := Some(normalized)))
  }

  function Reassign(t: Task, user: Option<UserId>, employee: Option<EmployeeId>, now: Instant): Result<Task, Refusal> {
    if t.status.IsTerminal() then Err(ReassignTerminal)
    else
      Ok(t.(version := t.version + 1,
            assignedUser := user,
            assignedEmployee := employee,
            status := Created,
            startedAt := None,
            blockedAt := None,
            reviewRequestedAt := None,
            completedAt := None,
            cancelledAt := None,
            sentAt := None,
            blockedReason := None,
            updatedAt := now))
  }

  /** Linking the account that is linked already changes nothing, not even the version. */
  function LinkRegisteredAssignee(t: Task, user: UserId, now: Instant): Result<Task, Refusal> {
    if t.assignedEmployee.None? then Err(EmployeeAssignmentMissing)
    else if t.assignedUser == Some(user) then Ok(t)
    else Ok(t.(version := t.version + 1, assignedUser := Some(user), updatedAt := now))
  }
}
