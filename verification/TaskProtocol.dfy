/**
 The task table under optimistic locking: five kinds of workers, each of which
 reads a row, decides on its copy and commits by compare-and-swap, in any
 interleaving, with crashes and with the escalation worker touching rows
 behind their backs.
 */
module TaskProtocol {
  import opened Prelude
  import opened BusinessTime
  import opened Text
  import opened Tasks
  import opened TaskHistory
  import opened Policy
  import opened Database

  /** What a worker wants from a task. */
  datatype Request =
    | ChangeTo(actor: Actor, requested: Status)
    | Block(actor: Actor, why: string)
    | HandOver(actor: Actor, toUser: Option<UserId>, toEmployee: Option<EmployeeId>)
    | Recover(account: UserId, staff: EmployeeId)
    | MarkSent

  /** An open task of an employee who had no account when it was assigned. */
  predicate ShouldLink(t: Task, staff: EmployeeId) {
    t.assignedUser.None? && t.assignedEmployee == Some(staff) && !t.status.IsTerminal()
  }

  /** The decision a worker takes on its copy of the row. */
  function Decide(request: Request, t: Task, now: Instant): Result<Task, Refusal> {
    match request
    case ChangeTo(actor, requested) => ChangeStatus(actor, t, requested, now)
    case Block(actor, why) => ReportBlockerOn(actor, t, why, now)
    case HandOver(actor, toUser, toEmployee) => ReassignBy(actor, t, toUser, toEmployee, now)
    case Recover(account, staff) =>
      if ShouldLink(t, staff) then LinkRegisteredAssignee(t, account, now) else Err(NotFound)
    case MarkSent => if t.status.Created? then TransitionTo(t, Sent, now) else Err(NotFound)
  }

  datatype Worker =
    | Reading(request: Request, copy: Task)
    | Writing(request: Request, copy: Task, next: Task, decidedAt: Instant)

  datatype Commit = Commit(request: Request, before: Task, after: Task, at: Instant)

  /** `created` and `commits` are kept for the proof: what each row started as and went through. */
  datatype State = State(
    clock: Instant,
    rows: map<TaskUid, Task>,
    workers: map<nat, Worker>,
    created: map<TaskUid, Task>,
    commits: map<TaskUid, seq<Commit>>)

  datatype Step =
    | Insert(task: Task)
    | Read(worker: nat, uid: TaskUid, request: Request)
    | Settle(worker: nat)
    | Write(worker: nat)
    | Crash(worker: nat)
    | Touch(uid: TaskUid, at: Instant)
    | Tick(nanos: nat)

  function CommitsOf(s: State, uid: TaskUid): seq<Commit> {
    if uid in s.commits then s.commits[uid] else []
  }

  const INITIAL := State(0, map[], map[], map[], map[])

  /** A step that is not enabled changes nothing. */
  function Next(s: State, step: Step): State {
    match step
    case Insert(t) =>
      if t.uid in s.rows || t != NewTask(t.id, t.uid, t.createdBy, t.assignedUser, t.assignedEmployee, s.clock) then s
      else s.(rows := s.rows[t.uid := t], created := s.created[t.uid := t], commits := s.commits - {t.uid})
    case Read(worker, uid, request) =>
      if uid !in s.rows then s else s.(workers := s.workers[worker := Reading(request, s.rows[uid])])
    case Settle(worker) =>
      if worker !in s.workers || !s.workers[worker].Reading? then s
      else
        var w := s.workers[worker];
        var next := Decide(w.request, w.copy, s.clock);
        if next.Err? then s.(workers := s.workers - {worker})
        else s.(workers := s.workers[worker := Writing(w.request, w.copy, next.value, s.clock)])
    case Write(worker) =>
      if worker !in s.workers || !s.workers[worker].Writing? then s
      else Committed(s, s.workers[worker]).(workers := s.workers - {worker})
    case Crash(worker) => s.(workers := s.workers - {worker})
    case Touch(uid, at) =>
      if uid !in s.rows || at > s.clock then s else s.(rows := s.rows[uid := s.rows[uid].(updatedAt := at)])
    case Tick(nanos) => s.(clock := s.clock + nanos)
  }

  function Committed(s: State, w: Worker): State
    requires w.Writing?
  {
    var uid := w.next.uid;
    if !CasHits(s.rows, w.next) then s
    else
      var row := Written(s.rows[uid], w.next);
      s.(rows := s.rows[uid := row],
         commits := s.commits[uid := CommitsOf(s, uid) + [Commit(w.request, s.rows[uid], row, w.decidedAt)]])
  }

  function After(steps: seq<Step>): State {
    if steps == [] then INITIAL else Next(After(steps[..|steps| - 1]), steps[|steps| - 1])
  }

  // ---- Decisions ----

  lemma DecisionsAreOperations(request: Request, t: Task, now: Instant) returns (op: Operation)
    requires Decide(request, t, now).Ok?
    ensures Apply(t, op) == Decide(request, t, now) && op.at == now
    ensures EventsOf(t, op) != []
  {
    match request
    case ChangeTo(actor, requested) =>
      op := Transition(NormalizeRequestedStatus(actor, t, requested).value, now);
    case Block(_, why) => op := Blocker(why, now);
    case HandOver(_, toUser, toEmployee) => op := Reassignment(toUser, toEmployee, now);
    case Recover(account, _) => op := Link(account, now);
    case MarkSent => op := Transition(Sent, now);
  }

  /** Every accepted decision takes exactly one version, stamps the time and keeps the identity. */
  lemma DecisionTakesOneVersion(request: Request, t: Task, now: Instant)
    requires Decide(request, t, now).Ok?
    ensures var next := Decide(request, t, now).value;
            && next.version == t.version + 1 && next.updatedAt == now
            && next.id == t.id && next.uid == t.uid && next.createdBy == t.createdBy && next.createdAt == t.createdAt
  {
  }

  /** No decision looks at the column the escalation worker writes. */
  lemma DecisionIgnoresTouch(request: Request, a: Task, b: Task, now: Instant)
    requires SameVersionOf(a, b)
    ensures Decide(request, a, now) == Decide(request, b, now)
  {
    match request
    case ChangeTo(actor, requested) => ChangeIgnoresTouch(actor, requested, a, b, now);
    case Block(actor, why) => BlockIgnoresTouch(actor, why, a, b, now);
    case HandOver(actor, toUser, toEmployee) => HandOverIgnoresTouch(actor, toUser, toEmployee, a, b, now);
    case Recover(account, staff) => RecoverIgnoresTouch(account, staff, a, b, now);
    case MarkSent => TransitionIgnoresTouch(a, b, Sent, now);
  }

  lemma ChangeIgnoresTouch(actor: Actor, requested: Status, a: Task, b: Task, now: Instant)
    requires SameVersionOf(a, b)
    ensures ChangeStatus(actor, a, requested, now) == ChangeStatus(actor, b, requested, now)
  {
    var next := NormalizeRequestedStatus(actor, a, requested);
    assert next == NormalizeRequestedStatus(actor, b, requested);
    if next.Ok? {
      assert EnsureCanChangeStatus(actor, a, next.value) == EnsureCanChangeStatus(actor, b, next.value);
      TransitionIgnoresTouch(a, b, next.value, now);
    }
  }

  lemma BlockIgnoresTouch(actor: Actor, why: string, a: Task, b: Task, now: Instant)
    requires SameVersionOf(a, b)
    ensures ReportBlockerOn(actor, a, why, now) == ReportBlockerOn(actor, b, why, now)
  {
    TransitionIgnoresTouch(a, b, Blocked, now);
    hide Trim;
  }

  lemma HandOverIgnoresTouch(
    actor: Actor, toUser: Option<UserId>, toEmployee: Option<EmployeeId>, a: Task, b: Task, now: Instant)
    requires SameVersionOf(a, b)
    ensures ReassignBy(actor, a, toUser, toEmployee, now) == ReassignBy(actor, b, toUser, toEmployee, now)
  {
  }

  lemma RecoverIgnoresTouch(account: UserId, staff: EmployeeId, a: Task, b: Task, now: Instant)
    requires SameVersionOf(a, b)
    ensures Decide(Recover(account, staff), a, now) == Decide(Recover(account, staff), b, now)
  {
  }

  lemma TransitionIgnoresTouch(a: Task, b: Task, next: Status, now: Instant)
    requires SameVersionOf(a, b)
    ensures TransitionTo(a, next, now) == TransitionTo(b, next, now)
  {
  }

  // ---- What every run keeps ----

  /** The state a row was committed in last. */
  function Latest(start: Task, commits: seq<Commit>): Task {
    if commits == [] then start else commits[|commits| - 1].after
  }

  function LatestTime(start: Task, commits: seq<Commit>): Instant {
    if commits == [] then start.createdAt else commits[|commits| - 1].at
  }

  /** Commit `k` decided on the row its predecessor committed, and no earlier than it. */
  predicate IsLink(start: Task, commits: seq<Commit>, k: nat)
    requires k < |commits|
  {
    var c, previous := commits[k], Latest(start, commits[..k]);
    && SameVersionOf(previous, c.before)
    && Decide(c.request, previous, c.at) == Ok(c.after)
    && LatestTime(start, commits[..k]) <= c.at
  }

  predicate IsChain(start: Task, commits: seq<Commit>) {
    forall k: nat :: k < |commits| ==> IsLink(start, commits, k)
  }

  predicate IsNew(t: Task) {
    t == NewTask(t.id, t.uid, t.createdBy, t.assignedUser, t.assignedEmployee, t.createdAt)
  }

  predicate RowIsChained(s: State, uid: TaskUid)
    requires uid in s.rows
  {
    && s.rows[uid].uid == uid
    && uid in s.created && IsNew(s.created[uid]) && s.created[uid].uid == uid
    && IsChain(s.created[uid], CommitsOf(s, uid))
    && SameVersionOf(Latest(s.created[uid], CommitsOf(s, uid)), s.rows[uid])
    && s.rows[uid].version == |CommitsOf(s, uid)|
    && LatestTime(s.created[uid], CommitsOf(s, uid)) <= s.clock
  }

  /** A copy is some earlier version of the row, and the row itself if the versions agree. */
  predicate WorkerIsSound(s: State, w: Worker) {
    && w.copy.uid in s.rows && w.copy.uid in s.created
    && Evolves(map[w.copy.uid := w.copy], s.rows)
    && (w.Writing? ==>
          && Decide(w.request, w.copy, w.decidedAt) == Ok(w.next)
          && w.decidedAt <= s.clock
          && (w.copy.version == s.rows[w.copy.uid].version ==>
                LatestTime(s.created[w.copy.uid], CommitsOf(s, w.copy.uid)) <= w.decidedAt))
  }

  ghost predicate Inv(s: State) {
    && (forall uid :: uid in s.rows ==> RowIsChained(s, uid))
    && (forall id :: id in s.workers ==> WorkerIsSound(s, s.workers[id]))
    && (forall uid :: uid in s.commits ==> uid in s.rows)
  }

  lemma {:induction false} ChainGrows(start: Task, commits: seq<Commit>, c: Commit)
    requires IsChain(start, commits)
    requires SameVersionOf(Latest(start, commits), c.before)
    requires Decide(c.request, Latest(start, commits), c.at) == Ok(c.after)
    requires LatestTime(start, commits) <= c.at
    ensures IsChain(start, commits + [c])
  {
    hide Decide, SameVersionOf;
    var longer := commits + [c];
    forall k: nat | k < |longer| ensures IsLink(start, longer, k) {
      if k < |commits| {
        assert IsLink(start, commits, k);
        assert longer[..k] == commits[..k];
      } else {
        assert longer[..k] == commits;
      }
    }
  }

  /** The heart of optimistic locking: a write that hits finds the very row it decided on. */
  lemma CommitExtendsChain(s: State, w: Worker)
    requires Inv(s) && WorkerIsSound(s, w) && w.Writing? && CasHits(s.rows, w.next)
    ensures var uid := w.copy.uid;
            && w.next.uid == uid
            && SameVersionOf(w.copy, s.rows[uid])
            && Written(s.rows[uid], w.next) == w.next
            && IsChain(s.created[uid], CommitsOf(s, uid) + [Commit(w.request, s.rows[uid], w.next, w.decidedAt)])
            && w.next.version == |CommitsOf(s, uid)| + 1
  {
    DecisionTakesOneVersion(w.request, w.copy, w.decidedAt);
    var uid := w.copy.uid;
    var latest := Latest(s.created[uid], CommitsOf(s, uid));
    assert RowIsChained(s, uid);
    DecisionIgnoresTouch(w.request, w.copy, latest, w.decidedAt);
    ChainGrows(s.created[uid], CommitsOf(s, uid), Commit(w.request, s.rows[uid], w.next, w.decidedAt));
  }

  /** A worker's copy stays sound whatever happens to the rows, as long as they evolve. */
  lemma WorkerStaysSound(s: State, later: State, w: Worker)
    requires WorkerIsSound(s, w) && Evolves(s.rows, later.rows) && s.clock <= later.clock
    requires w.copy.uid in later.created
    requires s.rows[w.copy.uid].version == later.rows[w.copy.uid].version ==>
               && CommitsOf(s, w.copy.uid) == CommitsOf(later, w.copy.uid)
               && s.created[w.copy.uid] == later.created[w.copy.uid]
    ensures WorkerIsSound(later, w)
  {
    hide Decide;
  }

  lemma InsertKeeps(s: State, t: Task)
    requires Inv(s)
    ensures Inv(Next(s, Insert(t))) && Evolves(s.rows, Next(s, Insert(t)).rows)
  {
    hide Decide;
    var later := Next(s, Insert(t));
    if later != s {
      forall uid | uid in later.rows ensures RowIsChained(later, uid) {
        if uid != t.uid {
          assert RowIsChained(s, uid);
        }
      }
      forall id | id in later.workers ensures WorkerIsSound(later, later.workers[id]) {
        WorkerStaysSound(s, later, s.workers[id]);
      }
    }
  }

  lemma TouchKeeps(s: State, uid: TaskUid, at: Instant)
    requires Inv(s)
    ensures Inv(Next(s, Touch(uid, at))) && Evolves(s.rows, Next(s, Touch(uid, at)).rows)
  {
    hide Decide, IsChain;
    var later := Next(s, Touch(uid, at));
    if later != s {
      forall u | u in later.rows ensures RowIsChained(later, u) {
        assert RowIsChained(s, u);
      }
      forall id | id in later.workers ensures WorkerIsSound(later, later.workers[id]) {
        WorkerStaysSound(s, later, s.workers[id]);
      }
    }
  }

  lemma CommitKeepsRow(s: State, w: Worker, uid: TaskUid)
    requires Inv(s) && WorkerIsSound(s, w) && w.Writing? && CasHits(s.rows, w.next) && uid in s.rows
    ensures RowIsChained(Committed(s, w), uid)
    ensures uid != w.next.uid ==> Committed(s, w).rows[uid] == s.rows[uid]
    ensures Evolves(s.rows, Committed(s, w).rows)
  {
    CommitExtendsChain(s, w);
    DecisionTakesOneVersion(w.request, w.copy, w.decidedAt);
    assert RowIsChained(s, uid);
    assert RowIsChained(s, w.copy.uid);
    hide Decide, IsChain;
  }

  lemma CommitKeeps(s: State, w: Worker)
    requires Inv(s) && WorkerIsSound(s, w) && w.Writing?
    ensures Inv(Committed(s, w)) && Evolves(s.rows, Committed(s, w).rows)
  {
    if CasHits(s.rows, w.next) {
      var later := Committed(s, w);
      assert CommitsOf(later, w.next.uid) == CommitsOf(s, w.next.uid) + [Commit(w.request, s.rows[w.next.uid], later.rows[w.next.uid], w.decidedAt)];
      CommitKeepsRow(s, w, w.next.uid);
      hide Decide, IsChain, SameVersionOf;
      forall uid | uid in later.rows ensures RowIsChained(later, uid) {
        CommitKeepsRow(s, w, uid);
      }
      forall id | id in later.workers ensures WorkerIsSound(later, later.workers[id]) {
        CommitKeepsWorker(s, w, s.workers[id]);
      }
    }
  }

  lemma CommitKeepsWorker(s: State, w: Worker, other: Worker)
    requires Inv(s) && WorkerIsSound(s, w) && w.Writing? && CasHits(s.rows, w.next)
    requires WorkerIsSound(s, other)
    ensures WorkerIsSound(Committed(s, w), other)
  {
    CommitKeepsRow(s, w, w.next.uid);
    hide Decide, IsChain, RowIsChained, Written;
    WorkerStaysSound(s, Committed(s, w), other);
  }

  lemma WriteKeeps(s: State, worker: nat)
    requires Inv(s)
    ensures Inv(Next(s, Write(worker))) && Evolves(s.rows, Next(s, Write(worker)).rows)
  {
    if worker in s.workers && s.workers[worker].Writing? {
      CommitKeeps(s, s.workers[worker]);
      hide Committed, IsChain;
      OthersKeep(Committed(s, s.workers[worker]), Next(s, Write(worker)));
    }
  }

  lemma {:induction false} EveryStepKeeps(s: State, step: Step)
    requires Inv(s)
    ensures Inv(Next(s, step)) && Evolves(s.rows, Next(s, step).rows)
  {
    match step
    case Insert(t) => InsertKeeps(s, t);
    case Touch(uid, at) => TouchKeeps(s, uid, at);
    case Write(worker) => WriteKeeps(s, worker);
    case Read(worker, uid, request) => ReadKeeps(s, worker, uid, request);
    case Settle(worker) => SettleKeeps(s, worker);
    case Crash(worker) => OthersKeep(s, Next(s, step));
    case Tick(nanos) => OthersKeep(s, Next(s, step));
  }

  lemma OthersKeep(s: State, later: State)
    requires Inv(s)
    requires later.rows == s.rows && later.created == s.created && later.commits == s.commits && s.clock <= later.clock
    requires forall id :: id in later.workers ==> id in s.workers && later.workers[id] == s.workers[id]
    ensures Inv(later)
  {
    hide Decide, IsChain;
    forall uid | uid in later.rows ensures RowIsChained(later, uid) {
      assert RowIsChained(s, uid);
    }
    forall id | id in later.workers ensures WorkerIsSound(later, later.workers[id]) {
      WorkerStaysSound(s, later, s.workers[id]);
    }
  }

  lemma WorkerMoves(s: State, worker: nat, w: Worker)
    requires Inv(s) && WorkerIsSound(s, w)
    ensures Inv(s.(workers := s.workers[worker := w]))
  {
    hide Decide, IsChain, Latest, LatestTime, SameVersionOf;
    var later := s.(workers := s.workers[worker := w]);
    forall u | u in later.rows ensures RowIsChained(later, u) {
      assert RowIsChained(s, u);
    }
    forall id | id in later.workers ensures WorkerIsSound(later, later.workers[id]) {
      if id == worker {
        assert WorkerIsSound(s, w);
      } else {
        assert WorkerIsSound(s, s.workers[id]);
      }
    }
  }

  lemma ReadKeeps(s: State, worker: nat, uid: TaskUid, request: Request)
    requires Inv(s)
    ensures Inv(Next(s, Read(worker, uid, request)))
  {
    hide Decide, IsChain, LatestTime;
    if uid in s.rows {
      assert RowIsChained(s, uid);
      WorkerMoves(s, worker, Reading(request, s.rows[uid]));
    }
  }

  lemma SettleKeeps(s: State, worker: nat)
    requires Inv(s)
    ensures Inv(Next(s, Settle(worker)))
  {
    hide Decide, IsChain, LatestTime;
    if worker in s.workers && s.workers[worker].Reading? {
      var w := s.workers[worker];
      assert WorkerIsSound(s, w);
      assert RowIsChained(s, w.copy.uid);
      var next := Decide(w.request, w.copy, s.clock);
      if next.Ok? {
        WorkerMoves(s, worker, Writing(w.request, w.copy, next.value, s.clock));
      } else {
        OthersKeep(s, Next(s, Settle(worker)));
      }
    }
  }

  // ---- Main results ----

  /**
   No lost update: after any interleaving every row is the end of a chain in
   which each commit is one decision, authorised against and applied to
   exactly the state its predecessor committed.
   */
  lemma {:induction false} EveryRunIsChained(steps: seq<Step>)
    ensures Inv(After(steps))
  {
    if steps != [] {
      EveryRunIsChained(steps[..|steps| - 1]);
      EveryStepKeeps(After(steps[..|steps| - 1]), steps[|steps| - 1]);
    }
  }

  /** A chain is a run of the aggregate's own operations, one for each commit. */
  lemma ChainPrefix(start: Task, commits: seq<Commit>, n: nat)
    requires IsChain(start, commits) && n <= |commits|
    ensures IsChain(start, commits[..n])
  {
    forall k: nat | k < n ensures IsLink(start, commits[..n], k) {
      assert IsLink(start, commits, k);
      assert commits[..n][..k] == commits[..k];
    }
  }

  lemma {:induction false} ChainIsRun(start: Task, commits: seq<Commit>) returns (ops: seq<Operation>)
    requires IsNew(start) && IsChain(start, commits)
    ensures |ops| == |commits| && Run(start, ops) == Latest(start, commits)
    ensures forall i :: 0 <= i < |ops| ==> ops[i].at == commits[i].at
    ensures ClockRuns(start.createdAt, ops)
    ensures ops == [] || ops[|ops| - 1].at == LatestTime(start, commits)
  {
    hide Decide, Apply, EventsOf, Written;
    if commits == [] {
      return [];
    }
    var before, c := commits[..|commits| - 1], commits[|commits| - 1];
    ChainPrefix(start, commits, |before|);
    var earlier := ChainIsRun(start, before);
    assert IsLink(start, commits, |commits| - 1);
    var op := DecisionsAreOperations(c.request, Latest(start, before), c.at);
    ops := earlier + [op];
    assert ops[..|ops| - 1] == earlier;
  }

  function StartOf(s: State, uid: TaskUid): Task
    requires uid in s.rows
  {
    if uid in s.created then s.created[uid] else s.rows[uid]
  }

  /** Hence every stored row, bar the touched column, has the lifecycle and the timestamps of such a run. */
  lemma StoredRowsHaveLifecycle(steps: seq<Step>, uid: TaskUid)
    requires uid in After(steps).rows
    ensures var s := After(steps);
            var latest := Latest(StartOf(s, uid), CommitsOf(s, uid));
            && SameVersionOf(latest, s.rows[uid])
            && Lifecycle(s.rows[uid])
            && StampsWithin(latest) && latest.updatedAt <= s.clock
  {
    EveryRunIsChained(steps);
    var s := After(steps);
    assert RowIsChained(s, uid);
    var start, commits := s.created[uid], CommitsOf(s, uid);
    var ops := ChainIsRun(start, commits);
    EveryTaskHasLifecycle(start, ops);
    StampsLieWithin(start, ops);
  }

  /** What may be read off any single commit of any run. */
  lemma CommitsAreLegal(steps: seq<Step>, uid: TaskUid, k: nat)
    requires uid in After(steps).rows && k < |CommitsOf(After(steps), uid)|
    ensures var s := After(steps);
            var c, previous := CommitsOf(s, uid)[k], Latest(StartOf(s, uid), CommitsOf(s, uid)[..k]);
            && Decide(c.request, previous, c.at) == Ok(c.after)
            && previous.version == k && c.after.version == k + 1
            // only the creator, a manager or an admin completes, and only out of review
            && (c.after.status.Completed? && !previous.status.Completed? ==>
                  && previous.status.InReview? && c.request.ChangeTo?
                  && (IsCreator(c.request.actor, previous) || c.request.actor.role.IsManagerOrAdmin()))
            // a delivery never pulls a task back
            && (c.request.MarkSent? ==> previous.status.Created? && c.after.status.Sent?)
            // a recovery never takes over an assigned task and never touches a closed one
            && (c.request.Recover? ==>
                  && previous.assignedUser.None? && !previous.status.IsTerminal()
                  && c.after == previous.(version := k + 1, assignedUser := Some(c.request.account), updatedAt := c.at))
            // closed tasks stay closed
            && (previous.status.IsTerminal() ==> c.after.status == previous.status)
  {
    EveryRunIsChained(steps);
    var s := After(steps);
    assert RowIsChained(s, uid);
    var start, commits := s.created[uid], CommitsOf(s, uid);
    assert IsLink(start, commits, k);
    ChainPrefix(start, commits, k);
    VersionsCount(start, commits[..k]);
    DecisionIsLegal(commits[k].request, Latest(start, commits[..k]), commits[k].at);
  }

  /** Nothing but a reassignment or a recovery changes whom a task is assigned to. */
  lemma {:induction false} AssigneeStays(start: Task, commits: seq<Commit>, j: nat, k: nat)
    requires IsChain(start, commits) && j <= k <= |commits|
    requires forall i :: j <= i < k ==> !commits[i].request.HandOver? && !commits[i].request.Recover?
    ensures Latest(start, commits[..k]).assignedUser == Latest(start, commits[..j]).assignedUser
  {
    if j < k {
      AssigneeStays(start, commits, j, k - 1);
      assert IsLink(start, commits, k - 1);
      assert commits[..k][..k - 1] == commits[..k - 1];
      assert Latest(start, commits[..k]) == commits[k - 1].after;
    }
  }

  lemma {:induction false} VersionsCount(start: Task, commits: seq<Commit>)
    requires IsNew(start) && IsChain(start, commits)
    ensures Latest(start, commits).version == |commits|
  {
    if commits != [] {
      var before, c := commits[..|commits| - 1], commits[|commits| - 1];
      ChainPrefix(start, commits, |before|);
      VersionsCount(start, before);
      assert IsLink(start, commits, |before|);
      DecisionTakesOneVersion(c.request, Latest(start, before), c.at);
    }
  }

  lemma DecisionIsLegal(request: Request, t: Task, now: Instant)
    requires Decide(request, t, now).Ok?
    ensures var next := Decide(request, t, now).value;
            && next.version == t.version + 1
            && (next.status.Completed? && !t.status.Completed? ==>
                  && t.status.InReview? && request.ChangeTo?
                  && (IsCreator(request.actor, t) || request.actor.role.IsManagerOrAdmin()))
            && (request.MarkSent? ==> t.status.Created? && next.status.Sent?)
            && (request.Recover? ==>
                  && t.assignedUser.None? && !t.status.IsTerminal()
                  && next == t.(version := t.version + 1, assignedUser := Some(request.account), updatedAt := now))
            && (t.status.IsTerminal() ==> next.status == t.status)
  {
    DecisionTakesOneVersion(request, t, now);
    if request.ChangeTo? && Decide(request, t, now).value.status.Completed? {
      CompletionNeedsAuthority(request.actor, t, request.requested, now);
    }
  }
}
