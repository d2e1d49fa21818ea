/** Who may do what to a task, and which actions a task card offers. */
module Policy {
  import opened Prelude
  import opened BusinessTime
  import opened Text
  import opened Tasks

  datatype Role = RegularUser | Manager | Admin
  {
    predicate IsManagerOrAdmin() {
      Manager? || Admin?
    }
  }

  /** `id` is missing until the user is registered. */
  datatype Actor = Actor(id: Option<UserId>, role: Role)

  datatype Action =
    | StartProgress | SubmitForReview | ApproveReview | ReturnToWork
    | ReportBlocker | ReassignTask | CancelTask | AddComment

  predicate IsCreator(actor: Actor, t: Task) {
    actor.id == Some(t.createdBy)
  }

  predicate IsAssignee(actor: Actor, t: Task) {
    actor.id.Some? && t.assignedUser == actor.id
  }

  predicate CanView(actor: Actor, t: Task) {
    actor.id.Some? && (actor.role.IsManagerOrAdmin() || IsCreator(actor, t) || IsAssignee(actor, t))
  }

  function EnsureCanViewTask(actor: Actor, t: Task): Result<(), Refusal> {
    if actor.id.None? then Err(Unauthenticated)
    else if CanView(actor, t) then Ok(())
    else Err(Unauthorized)
  }

  function EnsureCanComment(actor: Actor, t: Task): Result<(), Refusal> {
    if actor.id.None? then Err(Unauthenticated)
    else if CanView(actor, t) then Ok(())
    else Err(Unauthorized)
  }

  function EnsureCanReportBlocker(actor: Actor, t: Task): Result<(), Refusal> {
    if actor.id.None? then Err(Unauthenticated)
    else if actor.role.Admin? || t.assignedUser == actor.id then Ok(())
    else Err(Unauthorized)
  }

  function EnsureCanReassign(actor: Actor, t: Task): Result<(), Refusal> {
    if actor.id.None? then Err(Unauthenticated)
    else if actor.role.IsManagerOrAdmin() || t.createdBy == actor.id.value || t.assignedUser == actor.id then Ok(())
    else Err(Unauthorized)
  }

  /** A plain assignee who asks for completion asks for review. */
  function NormalizeRequestedStatus(actor: Actor, t: Task, requested: Status): Result<Status, Refusal> {
    if requested.Completed? && t.ReviewIsRequired() && !IsCreator(actor, t) && !actor.role.IsManagerOrAdmin() then
      Ok(InReview)
    else if requested.Completed? && t.ReviewIsRequired() && t.status != InReview then Err(ReviewRequired)
    else Ok(requested)
  }

  predicate CreatorCanChangeStatus(t: Task, next: Status) {
    match next
    case Completed => true
    case Cancelled => true
    case InProgress => t.status.InReview?
    case _ => false
  }

  predicate AssigneeCanChangeStatus(next: Status) {
    next.InProgress? || next.InReview? || next.Blocked? || next.Cancelled?
  }

  predicate ManagerCanChangeStatus(next: Status) {
    next.InProgress? || next.Completed? || next.Cancelled?
  }

  function EnsureCanChangeStatus(actor: Actor, t: Task, next: Status): Result<(), Refusal> {
    if actor.id.None? then Err(Unauthenticated)
    else if actor.role.Admin? then Ok(())
    else if actor.id.value == t.createdBy && CreatorCanChangeStatus(t, next) then Ok(())
    else if t.assignedUser == actor.id && AssigneeCanChangeStatus(next) then Ok(())
    else if actor.role.IsManagerOrAdmin() && ManagerCanChangeStatus(next) then Ok(())
    else Err(Unauthorized)
  }

  /** The status change as the use case performs it: normalise, authorise, transition. */
  function ChangeStatus(actor: Actor, t: Task, requested: Status, now: Instant): Result<Task, Refusal> {
    var next := NormalizeRequestedStatus(actor, t, requested);
    if next.Err? then Err(next.error)
    else
      var allowed := EnsureCanChangeStatus(actor, t, next.value);
      if allowed.Err? then Err(allowed.error) else TransitionTo(t, next.value, now)
  }

  function ReportBlockerOn(actor: Actor, t: Task, reason: string, now: Instant): Result<Task, Refusal> {
    var allowed := EnsureCanReportBlocker(actor, t);
    if allowed.Err? then Err(allowed.error) else ApplyBlocker(t, reason, now)
  }

  function ReassignBy(actor: Actor, t: Task, user: Option<UserId>, employee: Option<EmployeeId>, now: Instant)
    : Result<Task, Refusal>
  {
    var allowed := EnsureCanReassign(actor, t);
    if allowed.Err? then Err(allowed.error) else Reassign(t, user, employee, now)
  }

  // ---- Offered actions ----

  predicate IsOffered(actor: Actor, t: Task, action: Action) {
    var works := IsAssignee(actor, t) || actor.role.Admin?;
    var manages := IsCreator(actor, t) || actor.role.IsManagerOrAdmin();
    match action
    case StartProgress => works && (t.status.Created? || t.status.Sent? || t.status.Blocked?)
    case SubmitForReview => works && (t.status.Sent? || t.status.InProgress? || t.status.Blocked?)
    case ApproveReview => manages && t.status.InReview?
    case ReturnToWork => manages && t.status.InReview?
    case ReportBlocker => works && !t.status.IsTerminal() && !t.status.InReview?
    case ReassignTask => manages && !t.status.IsTerminal()
    case CancelTask => (manages || IsAssignee(actor, t)) && !t.status.IsTerminal()
    case AddComment => true
  }

  function Position(action: Action): nat {
    match action
    case StartProgress => 0
    case SubmitForReview => 1
    case ApproveReview => 2
    case ReturnToWork => 3
    case ReportBlocker => 4
    case ReassignTask => 5
    case CancelTask => 6
    case AddComment => 7
  }

  /** The offered ones among the first `n` actions, in their order. */
  ghost predicate Lists(actor: Actor, t: Task, actions: seq<Action>, n: nat) {
    && (forall action :: action in actions <==> Position(action) < n && IsOffered(actor, t, action))
    && (forall i, k :: 0 <= i < k < |actions| ==> Position(actions[i]) < Position(actions[k]))
  }

  lemma ListsOneMore(actor: Actor, t: Task, actions: seq<Action>, action: Action)
    requires Lists(actor, t, actions, Position(action))
    ensures IsOffered(actor, t, action) ==> Lists(actor, t, actions + [action], Position(action) + 1)
    ensures !IsOffered(actor, t, action) ==> Lists(actor, t, actions, Position(action) + 1)
  {
    hide IsOffered;
    var more := if IsOffered(actor, t, action) then actions + [action] else actions;
    forall other: Action ensures other in more <==> Position(other) < Position(action) + 1 && IsOffered(actor, t, other) {
      assert Position(other) == Position(action) ==> other == action;
    }
    forall i | 0 <= i < |actions| ensures Position(actions[i]) < Position(action) {
      assert actions[i] in actions;
    }
  }

  /** The card lists every offered action once, in a fixed order. */
  method AvailableActions(actor: Actor, t: Task) returns (actions: seq<Action>)
    ensures forall action :: action in actions <==> IsOffered(actor, t, action)
    ensures forall i, k :: 0 <= i < k < |actions| ==> Position(actions[i]) < Position(actions[k])
  {
    hide Lists;
    actions := [];
    assert Lists(actor, t, actions, 0) by { NoneListed(actor, t); }
    var isAssignee := actor.id.Some? && t.assignedUser == actor.id;
    var isCreator := actor.id == Some(t.createdBy);
    var isAdmin := actor.role.Admin?;
    var canManage := isCreator || actor.role.IsManagerOrAdmin();
    ListsOneMore(actor, t, actions, StartProgress);
    if (t.status.Created? || t.status.Sent? || t.status.Blocked?) && (isAssignee || isAdmin) {
      actions := actions + [StartProgress];
    }
    assert Lists(actor, t, actions, 1);
    ListsOneMore(actor, t, actions, SubmitForReview);
    if (t.status.Sent? || t.status.InProgress? || t.status.Blocked?) && (isAssignee || isAdmin) {
      actions := actions + [SubmitForReview];
    }
    assert Lists(actor, t, actions, 2);
    ListsOneMore(actor, t, actions, ApproveReview);
    if t.status == InReview && canManage {
      actions := actions + [ApproveReview];
      ListsOneMore(actor, t, actions, ReturnToWork);
      actions := actions + [ReturnToWork];
    } else {
      ListsOneMore(actor, t, actions, ReturnToWork);
    }
    assert Lists(actor, t, actions, 4);
    ListsOneMore(actor, t, actions, ReportBlocker);
    if (t.status.Created? || t.status.Sent? || t.status.InProgress? || t.status.Blocked?) && (isAssignee || isAdmin) {
      actions := actions + [ReportBlocker];
    }
    assert Lists(actor, t, actions, 5);
    ListsOneMore(actor, t, actions, ReassignTask);
    if !t.status.IsTerminal() && canManage {
      actions := actions + [ReassignTask];
    }
    assert Lists(actor, t, actions, 6);
    ListsOneMore(actor, t, actions, CancelTask);
    if !t.status.IsTerminal() && (isAssignee || canManage) {
      actions := actions + [CancelTask];
    }
    assert Lists(actor, t, actions, 7);
    ListsOneMore(actor, t, actions, AddComment);
    actions := actions + [AddComment];
    AllListed(actor, t, actions);
  }

  lemma NoneListed(actor: Actor, t: Task)
    ensures Lists(actor, t, [], 0)
  {
  }

  lemma AllListed(actor: Actor, t: Task, actions: seq<Action>)
    requires Lists(actor, t, actions, 8)
    ensures forall action :: action in actions <==> IsOffered(actor, t, action)
    ensures forall i, k :: 0 <= i < k < |actions| ==> Position(actions[i]) < Position(actions[k])
  {
    hide IsOffered;
    forall action ensures action in actions <==> IsOffered(actor, t, action) {
      assert Position(action) < 8;
    }
  }

  /** What pressing the button of an action asks the use cases for, given a well-formed reason. */
  predicate Succeeds(
    actor: Actor, t: Task, action: Action, reason: string, user: Option<UserId>, employee: Option<EmployeeId>, now: Instant)
  {
    match action
    case StartProgress => ChangeStatus(actor, t, InProgress, now).Ok?
    case SubmitForReview => ChangeStatus(actor, t, InReview, now).Ok?
    case ApproveReview => ChangeStatus(actor, t, Completed, now).Ok?
    case ReturnToWork => ChangeStatus(actor, t, InProgress, now).Ok?
    case ReportBlocker => ReportBlockerOn(actor, t, reason, now).Ok?
    case ReassignTask => ReassignBy(actor, t, user, employee, now).Ok?
    case CancelTask => ChangeStatus(actor, t, Cancelled, now).Ok?
    case AddComment => EnsureCanComment(actor, t).Ok?
  }

  /**
   The card of a task, shown only to those who may view it. Every action on
   it works for the actor it is shown to, except reporting a blocker on a task
   that is blocked already.
   */
  method TaskCard(actor: Actor, t: Task) returns (r: Result<seq<Action>, Refusal>)
    ensures r.Ok? <==> CanView(actor, t)
    ensures r.Err? ==> r.error == if actor.id.None? then Unauthenticated else Unauthorized
    ensures r.Ok? ==> forall action :: action in r.value <==> IsOffered(actor, t, action)
    ensures r.Ok? ==> forall action: Action, reason, user, employee, now ::
              action in r.value && IsGoodReason(reason) ==>
                (Succeeds(actor, t, action, reason, user, employee, now) <==> !(action.ReportBlocker? && t.status.Blocked?))
  {
    hide IsOffered, Succeeds, IsGoodReason;
    var viewed := EnsureCanViewTask(actor, t);
    if viewed.Err? {
      return Err(viewed.error);
    }
    var actions := AvailableActions(actor, t);
    forall action: Action, reason, user, employee, now | action in actions && IsGoodReason(reason)
      ensures Succeeds(actor, t, action, reason, user, employee, now) <==> !(action.ReportBlocker? && t.status.Blocked?)
    {
      CardActionsSucceed(actor, t, action, reason, user, employee, now);
    }
    return Ok(actions);
  }

  predicate IsGoodReason(reason: string) {
    Trim(reason) != [] && |Trim(reason)| <= MAX_BLOCKER_REASON_LENGTH
  }

  /** For whoever asks, card or no card, there are two more exceptions: the unregistered, and comments by strangers. */
  lemma OfferedActionsSucceed(
    actor: Actor, t: Task, action: Action, reason: string, user: Option<UserId>, employee: Option<EmployeeId>, now: Instant)
    requires IsOffered(actor, t, action)
    requires Trim(reason) != [] && |Trim(reason)| <= MAX_BLOCKER_REASON_LENGTH
    ensures Succeeds(actor, t, action, reason, user, employee, now)
       <==> actor.id.Some?
            && !(action.ReportBlocker? && t.status.Blocked?)
            && (action.AddComment? ==> CanView(actor, t))
  {
    hide Trim;
  }

  lemma CardActionsSucceed(
    actor: Actor, t: Task, action: Action, reason: string, user: Option<UserId>, employee: Option<EmployeeId>, now: Instant)
    requires CanView(actor, t) && IsOffered(actor, t, action) && IsGoodReason(reason)
    ensures Succeeds(actor, t, action, reason, user, employee, now) <==> !(action.ReportBlocker? && t.status.Blocked?)
  {
    hide Trim, Succeeds, IsOffered;
    OfferedActionsSucceed(actor, t, action, reason, user, employee, now);
  }

  /**
   What would be accepted though the card does not offer it, action by action:
   review, completion, cancelling and blockers never; a plain assignee may
   reassign; a manager may start somebody else's work; and a return to work
   stands for any permitted step to `InProgress`.
   */
  lemma AcceptedButNotOffered(
    actor: Actor, t: Task, action: Action, reason: string, user: Option<UserId>, employee: Option<EmployeeId>, now: Instant)
    requires actor.id.Some? && !IsOffered(actor, t, action) && IsGoodReason(reason)
    ensures action.SubmitForReview? || action.CancelTask? || action.ReportBlocker? ==>
              !Succeeds(actor, t, action, reason, user, employee, now)
    ensures action.ApproveReview? && ChangeStatus(actor, t, Completed, now).Ok? ==>
              !ChangeStatus(actor, t, Completed, now).value.status.Completed?
    ensures action.ReassignTask? ==>
              (Succeeds(actor, t, action, reason, user, employee, now) <==> IsAssignee(actor, t) && !t.status.IsTerminal())
    ensures action.StartProgress? ==>
              (Succeeds(actor, t, action, reason, user, employee, now) <==>
               (t.status.InReview? && CanView(actor, t))
               || (actor.role.Manager? && (t.status.Created? || t.status.Sent? || t.status.Blocked?)))
    ensures action.ReturnToWork? ==>
              (Succeeds(actor, t, action, reason, user, employee, now) <==>
               (t.status.InReview? && IsAssignee(actor, t))
               || ((t.status.Created? || t.status.Sent? || t.status.Blocked?)
                   && (IsAssignee(actor, t) || actor.role.IsManagerOrAdmin())))
    ensures !action.AddComment?
  {
    hide Trim;
  }

  /** An assignee who asks for `Blocked` as a status blocks the task without giving a reason. */
  lemma AssigneeBlocksWithoutReason(actor: Actor, t: Task, now: Instant)
    requires IsAssignee(actor, t) && t.blockedReason.None?
    requires t.status.Created? || t.status.Sent? || t.status.InProgress?
    ensures var r := ChangeStatus(actor, t, Blocked, now);
            r.Ok? && r.value.status.Blocked? && r.value.blockedReason.None?
  {
  }

  // ---- Completion ----

  /** A task is completed only out of review, and only by its creator, a manager or an admin. */
  lemma CompletionNeedsAuthority(actor: Actor, t: Task, requested: Status, now: Instant)
    requires ChangeStatus(actor, t, requested, now).Ok?
    requires ChangeStatus(actor, t, requested, now).value.status.Completed?
    ensures t.status.InReview? && requested.Completed?
    ensures IsCreator(actor, t) || actor.role.IsManagerOrAdmin()
  {
  }

  /** An accepted change gives the status that was asked for, or review to a plain assignee who asked for completion. */
  lemma AcceptedChangeIsTheOneAsked(actor: Actor, t: Task, requested: Status, now: Instant)
    requires ChangeStatus(actor, t, requested, now).Ok?
    ensures var given := ChangeStatus(actor, t, requested, now).value.status;
            if requested.Completed? && t.assignedUser.Some? && t.assignedUser != Some(t.createdBy)
               && actor.id != Some(t.createdBy) && !actor.role.Manager? && !actor.role.Admin?
            then given.InReview? else given == requested
  {
  }

  /** For a plain assignee under review, asking for completion is asking for review, in every respect. */
  lemma AssigneeCompletesByReview(actor: Actor, t: Task, now: Instant)
    requires t.ReviewIsRequired() && !IsCreator(actor, t) && !actor.role.IsManagerOrAdmin()
    ensures ChangeStatus(actor, t, Completed, now) == ChangeStatus(actor, t, InReview, now)
  {
  }
}
