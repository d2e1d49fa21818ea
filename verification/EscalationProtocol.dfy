/**
 Any number of escalation workers over the same tables, with a crash possible
 between any two writes and arbitrary edits of the task rows in between.
 */
module EscalationProtocol {
  import opened Prelude
  import opened BusinessTime
  import opened Tasks
  import opened Escalation

  type Mark = (TaskUid, int)

  /** How far a worker has come with one row. */
  datatype Worker = Persisting(row: SlaRow, today: Date) | Recording(row: SlaRow, today: Date) | Telling(row: SlaRow, today: Date)
  {
    function Target(): Mark {
      (row.uid, if row.deadline.Some? then LevelFor(row.deadline.value - today) else 0)
    }
  }

  /** `told` lists the messages handed to the queue, oldest first. */
  datatype State = State(
    rows: map<TaskUid, SlaRow>, escalations: set<Mark>, workers: map<nat, Worker>, told: seq<Mark>)

  datatype Step =
    | Edit(uid: TaskUid, row: SlaRow)
    | Begin(worker: nat, uid: TaskUid, today: Date)
    | Persist(worker: nat)
    | Record(worker: nat)
    | Tell(worker: nat)
    | Crash(worker: nat)

  const INITIAL := State(map[], {}, map[], [])

  function Next(s: State, step: Step): State {
    match step
    case Edit(uid, row) => s.(rows := s.rows[uid := row])
    case Begin(worker, uid, today) =>
      if uid !in s.rows || !IsListed(s.rows[uid]) || NothingToDo(s.rows[uid], today) then s
      else s.(workers := s.workers[worker := Persisting(s.rows[uid], today)])
    case Persist(worker) =>
      if worker !in s.workers || !s.workers[worker].Persisting? then s
      else
        var w := s.workers[worker];
        var level := w.Target().1;
        var written :=
          if w.row.uid in s.rows && w.row.deadline.Some? then
            s.(rows := s.rows[w.row.uid := s.rows[w.row.uid].(
                 state := Some(StateFor(w.row.deadline.value - w.today)), level := level)])
          else s;
        if level <= w.row.level || level == 0 then written.(workers := s.workers - {worker})
        else written.(workers := s.workers[worker := Recording(w.row, w.today)])
    case Record(worker) =>
      if worker !in s.workers || !s.workers[worker].Recording? then s
      else
        var w := s.workers[worker];
        if w.Target() in s.escalations then s.(workers := s.workers - {worker})
        else s.(escalations := s.escalations + {w.Target()}, workers := s.workers[worker := Telling(w.row, w.today)])
    case Tell(worker) =>
      if worker !in s.workers || !s.workers[worker].Telling? then s
      else
        var w := s.workers[worker];
        s.(workers := s.workers - {worker},
           told := if w.row.assignee.Some? then s.told + [w.Target()] else s.told)
    case Crash(worker) => s.(workers := s.workers - {worker})
  }

  function Run(s: State, steps: seq<Step>): State {
    if steps == [] then s else Next(Run(s, steps[..|steps| - 1]), steps[|steps| - 1])
  }

  /** Some worker is about to tell about `mark`. */
  predicate IsTelling(s: State, worker: nat, mark: Mark) {
    worker in s.workers && s.workers[worker].Telling? && s.workers[worker].Target() == mark
  }

  ghost predicate Inv(s: State) {
    && (forall i :: 0 <= i < |s.told| ==> s.told[i] in s.escalations)
    && (forall i, k :: 0 <= i < k < |s.told| ==> s.told[i] != s.told[k])
    && (forall worker, mark :: IsTelling(s, worker, mark) ==> mark in s.escalations && mark !in s.told)
    && (forall a, b, mark :: IsTelling(s, a, mark) && IsTelling(s, b, mark) ==> a == b)
  }

  lemma {:induction false} EveryStepKeeps(s: State, step: Step)
    requires Inv(s)
    ensures Inv(Next(s, step))
  {
    var later := Next(s, step);
    match step
    case Record(worker) =>
      if worker in s.workers && s.workers[worker].Recording? && s.workers[worker].Target() !in s.escalations {
        var mark := s.workers[worker].Target();
        assert mark !in s.told;
        forall a, m | IsTelling(later, a, m) ensures if a == worker then m == mark else IsTelling(s, a, m) {
        }
      } else {
        OnlyFewerTell(s, later);
      }
    case Tell(worker) =>
      if worker in s.workers && s.workers[worker].Telling? {
        var mark := s.workers[worker].Target();
        assert IsTelling(s, worker, mark);
        forall a, m | IsTelling(later, a, m) ensures IsTelling(s, a, m) && m != mark {
          assert IsTelling(s, a, m);
        }
      }
    case _ => OnlyFewerTell(s, later);
  }

  lemma OnlyFewerTell(s: State, later: State)
    requires Inv(s) && later.told == s.told && later.escalations == s.escalations
    requires forall worker :: worker in later.workers && later.workers[worker].Telling? ==>
               worker in s.workers && s.workers[worker] == later.workers[worker]
    ensures Inv(later)
  {
    forall worker, mark | IsTelling(later, worker, mark) ensures IsTelling(s, worker, mark) {
    }
  }

  lemma {:induction false} EveryRunKeeps(s: State, steps: seq<Step>)
    requires Inv(s)
    ensures Inv(Run(s, steps))
  {
    if steps != [] {
      EveryRunKeeps(s, steps[..|steps| - 1]);
      EveryStepKeeps(Run(s, steps[..|steps| - 1]), steps[|steps| - 1]);
    }
  }

  /** At most one message per task and level, in every run. */
  lemma AtMostOneMessage(steps: seq<Step>, i: nat, k: nat)
    requires i < |Run(INITIAL, steps).told| && k < |Run(INITIAL, steps).told|
    requires Run(INITIAL, steps).told[i] == Run(INITIAL, steps).told[k]
    ensures i == k
  {
    EveryRunKeeps(INITIAL, steps);
  }

  /** The steps of a worker that is not interrupted are the tick of `Escalation` on that row. */
  lemma UninterruptedIsTick(s: State, worker: nat, uid: TaskUid, today: Date)
    requires uid in s.rows && s.rows[uid].uid == uid && IsListed(s.rows[uid]) && worker !in s.workers
    ensures var row := s.rows[uid];
            var later := Run(s, [Begin(worker, uid, today), Persist(worker), Record(worker), Tell(worker)]);
            && later.rows == s.rows[uid := Updated(row, today)]
            && later.escalations == EscalationsAfter(row, today, s.escalations)
            && later.workers == s.workers
            && later.told ==
               if Rises(row, today) && (uid, LevelFor(row.deadline.value - today)) !in s.escalations && row.assignee.Some?
               then s.told + [(uid, LevelFor(row.deadline.value - today))] else s.told
  {
    hide Run, StateFor, LevelFor;
    FourSteps(s, Begin(worker, uid, today), Persist(worker), Record(worker), Tell(worker));
    var row := s.rows[uid];
    if !NothingToDo(row, today) {
      TwoSteps(s, worker, uid, today);
      TwoMoreSteps(s.(rows := s.rows[uid := Updated(row, today)]), worker, row, today);
    }
  }

  /** Where the first two steps of a worker lead. */
  lemma TwoSteps(s: State, worker: nat, uid: TaskUid, today: Date)
    requires uid in s.rows && s.rows[uid].uid == uid && IsListed(s.rows[uid]) && worker !in s.workers
    requires !NothingToDo(s.rows[uid], today)
    ensures var row := s.rows[uid];
            var written := s.(rows := s.rows[uid := Updated(row, today)]);
            Next(Next(s, Begin(worker, uid, today)), Persist(worker)) ==
            if Rises(row, today) then written.(workers := s.workers[worker := Recording(row, today)]) else written
  {
    hide StateFor, LevelFor;
    var row := s.rows[uid];
    var begun := Next(s, Begin(worker, uid, today));
    assert begun == s.(workers := s.workers[worker := Persisting(row, today)]);
    assert begun.workers - {worker} == s.workers;
    assert begun.workers[worker := Recording(row, today)] == s.workers[worker := Recording(row, today)];
  }

  /** And where the other two lead from there. */
  lemma TwoMoreSteps(s: State, worker: nat, row: SlaRow, today: Date)
    requires IsListed(row) && worker !in s.workers
    ensures var mark := (row.uid, LevelFor(row.deadline.value - today));
            Next(Next(s.(workers := s.workers[worker := Recording(row, today)]), Record(worker)), Tell(worker)) ==
            if mark in s.escalations then s
            else s.(escalations := s.escalations + {mark}, told := if row.assignee.Some? then s.told + [mark] else s.told)
    ensures Next(Next(s, Record(worker)), Tell(worker)) == s
  {
    hide StateFor, LevelFor, Updated;
    assert s.workers[worker := Recording(row, today)] - {worker} == s.workers;
    assert s.workers[worker := Recording(row, today)][worker := Telling(row, today)] == s.workers[worker := Telling(row, today)];
    assert s.workers[worker := Telling(row, today)] - {worker} == s.workers;
  }

  lemma FourSteps(s: State, first: Step, second: Step, third: Step, fourth: Step)
    ensures Run(s, [first, second, third, fourth]) == Next(Next(Next(Next(s, first), second), third), fourth)
  {
    hide Next;
    var steps := [first, second, third, fourth];
    assert steps[..3] == [first, second, third];
    assert steps[..3][..2] == [first, second];
    assert steps[..3][..2][..1] == [first];
    assert Run(s, []) == s;
    assert Run(s, steps[..3][..2][..1]) == Next(s, first);
    assert Run(s, steps[..3][..2]) == Next(Next(s, first), second);
    assert Run(s, steps[..3]) == Next(Next(Next(s, first), second), third);
  }

  /** An escalation that is on record and told by nobody, now or soon. */
  ghost predicate IsLost(s: State, mark: Mark) {
    mark in s.escalations && mark !in s.told && forall worker :: !IsTelling(s, worker, mark)
  }

  /** The price of "at most": such a message is never sent, whatever happens later. */
  lemma {:induction false} LostForGood(s: State, mark: Mark, steps: seq<Step>)
    requires IsLost(s, mark)
    ensures IsLost(Run(s, steps), mark)
  {
    if steps != [] {
      var before, step := Run(s, steps[..|steps| - 1]), steps[|steps| - 1];
      LostForGood(s, mark, steps[..|steps| - 1]);
      var after := Next(before, step);
      forall worker ensures !IsTelling(after, worker, mark) {
        assert !IsTelling(before, worker, mark);
      }
      if step.Tell? {
        assert !IsTelling(before, step.worker, mark);
      }
    }
  }

  /** Whatever the other workers are at, a crash right after the record leaves such an escalation. */
  lemma CrashLosesMessage(s: State, worker: nat)
    requires Inv(s) && worker in s.workers && s.workers[worker].Recording? && s.workers[worker].Target() !in s.escalations
    ensures IsLost(Run(s, [Record(worker), Crash(worker)]), s.workers[worker].Target())
  {
    var steps := [Record(worker), Crash(worker)];
    var mark := s.workers[worker].Target();
    assert steps[..1][..0] == [] && steps[..1] == [Record(worker)];
    var recorded := Next(Run(s, []), Record(worker));
    assert Run(s, steps[..1]) == recorded;
    assert mark !in s.told;
    forall other ensures !IsTelling(Run(s, steps), other, mark) {
      assert IsTelling(s, other, mark) ==> mark in s.escalations;
    }
  }

  // ---- The stored level under a fixed deadline ----

  predicate Visits(step: Step, uid: TaskUid) {
    step.Begin? && step.uid == uid
  }

  predicate NobodyWorksOn(s: State, uid: TaskUid) {
    forall worker :: worker in s.workers ==> s.workers[worker].row.uid != uid
  }

  /** No edits, one worker on the row at a time, and dates that do not go back; crashes are allowed. */
  predicate IsOrderly(s: State, steps: seq<Step>, uid: TaskUid, first: Date) {
    && (forall i :: 0 <= i < |steps| ==> !steps[i].Edit?)
    && (forall i :: 0 <= i < |steps| && Visits(steps[i], uid) ==>
          first <= steps[i].today && NobodyWorksOn(Run(s, steps[..i]), uid))
    && (forall i, k :: 0 <= i < k < |steps| && Visits(steps[i], uid) && Visits(steps[k], uid) ==>
          steps[i].today <= steps[k].today)
  }

  function LastVisit(steps: seq<Step>, uid: TaskUid, first: Date): Date {
    if steps == [] then first
    else if Visits(steps[|steps| - 1], uid) then steps[|steps| - 1].today
    else LastVisit(steps[..|steps| - 1], uid, first)
  }

  /** The stored level is not above that of the last visit, and whoever works on the row does so for that date. */
  predicate IsNotAhead(s: State, uid: TaskUid, deadline: Date, last: Date) {
    && uid in s.rows && s.rows[uid].deadline == Some(deadline) && s.rows[uid].level <= LevelFor(deadline - last)
    && (forall u :: u in s.rows ==> s.rows[u].uid == u)
    && forall worker :: worker in s.workers && s.workers[worker].row.uid == uid ==>
         s.workers[worker].row.deadline == Some(deadline) && s.workers[worker].today == last
  }

  lemma {:induction false} LastVisitIsNotBefore(steps: seq<Step>, uid: TaskUid, first: Date, date: Date)
    requires first <= date && forall i :: 0 <= i < |steps| && Visits(steps[i], uid) ==> steps[i].today <= date
    ensures LastVisit(steps, uid, first) <= date
  {
    if steps != [] {
      LastVisitIsNotBefore(steps[..|steps| - 1], uid, first, date);
    }
  }

  lemma StepIsNotAhead(s: State, step: Step, uid: TaskUid, deadline: Date, last: Date)
    requires IsNotAhead(s, uid, deadline, last) && !step.Edit?
    requires Visits(step, uid) ==> last <= step.today && NobodyWorksOn(s, uid)
    ensures IsNotAhead(Next(s, step), uid, deadline, if Visits(step, uid) then step.today else last)
    ensures s.rows[uid].level <= Next(s, step).rows[uid].level
  {
  }

  /** In such runs the stored level never falls, wherever the workers crash. */
  lemma {:induction false} LevelNeverFalls(s: State, steps: seq<Step>, uid: TaskUid, deadline: Date, first: Date, n: nat)
    requires IsNotAhead(s, uid, deadline, first) && NobodyWorksOn(s, uid) && IsOrderly(s, steps, uid, first) && n <= |steps|
    ensures IsNotAhead(Run(s, steps), uid, deadline, LastVisit(steps, uid, first))
    ensures uid in Run(s, steps[..n]).rows && Run(s, steps[..n]).rows[uid].level <= Run(s, steps).rows[uid].level
  {
    hide Next;
    if steps == [] {
      assert steps[..n] == steps;
    } else {
      var before, step := steps[..|steps| - 1], steps[|steps| - 1];
      assert forall i :: 0 <= i < |before| ==> before[i] == steps[i] && before[..i] == steps[..i];
      var m := if n < |steps| then n else |before|;
      LevelNeverFalls(s, before, uid, deadline, first, m);
      if Visits(step, uid) {
        LastVisitIsNotBefore(before, uid, first, step.today);
      }
      StepIsNotAhead(Run(s, before), step, uid, deadline, LastVisit(before, uid, first));
      assert steps[..n] == if n < |steps| then before[..m] else steps;
      assert before[..|before|] == before;
    }
  }

  // ---- When an escalation that arises reaches the queue ----

  /** The row calls for an escalation that is not on record, and nobody works on it. */
  predicate Arises(s: State, uid: TaskUid, today: Date) {
    && uid in s.rows && (forall u :: u in s.rows ==> s.rows[u].uid == u)
    && IsListed(s.rows[uid]) && Rises(s.rows[uid], today)
    && MarkOf(s, uid, today) !in s.escalations
    && NobodyWorksOn(s, uid)
  }

  function MarkOf(s: State, uid: TaskUid, today: Date): Mark
    requires uid in s.rows && IsListed(s.rows[uid])
  {
    (uid, LevelFor(s.rows[uid].deadline.value - today))
  }

  /** The `k`-th of a worker's four steps on a row. */
  function OwnStep(worker: nat, uid: TaskUid, today: Date, k: nat): Step
    requires k < 4
  {
    if k == 0 then Begin(worker, uid, today) else if k == 1 then Persist(worker) else if k == 2 then Record(worker) else Tell(worker)
  }

  /** A step of anybody else that does not concern the row. */
  predicate IsForeign(step: Step, worker: nat, uid: TaskUid) {
    match step
    case Edit(u, row) => u != uid && row.uid == u
    case Begin(w, u, _) => w != worker && u != uid
    case Persist(w) => w != worker
    case Record(w) => w != worker
    case Tell(w) => w != worker
    case Crash(w) => w != worker
  }

  /** The first `k` steps of a worker on a row, with any steps of others before, between and after them. */
  predicate Interleaves(steps: seq<Step>, worker: nat, uid: TaskUid, today: Date, k: nat)
    requires k <= 4
  {
    if steps == [] then k == 0
    else
      var front, last := steps[..|steps| - 1], steps[|steps| - 1];
      || (IsForeign(last, worker, uid) && Interleaves(front, worker, uid, today, k))
      || (k > 0 && last == OwnStep(worker, uid, today, k - 1) && Interleaves(front, worker, uid, today, k - 1))
  }

  /** What the first `k` steps on `row` have come to. */
  predicate IsAt(s: State, worker: nat, row: SlaRow, today: Date, k: nat)
    requires IsListed(row)
  {
    var mark := (row.uid, LevelFor(row.deadline.value - today));
    && (forall u :: u in s.rows ==> s.rows[u].uid == u)
    && (forall w :: w in s.workers && w != worker ==> s.workers[w].row.uid != row.uid)
    && row.uid in s.rows && s.rows[row.uid] == (if k < 2 then row else Updated(row, today))
    && (mark in s.escalations <==> k >= 3)
    && (mark in s.told <==> k == 4 && row.assignee.Some?)
    && (worker in s.workers <==> 1 <= k <= 3)
    && (worker in s.workers ==>
          s.workers[worker] ==
          if k == 1 then Persisting(row, today) else if k == 2 then Recording(row, today) else Telling(row, today))
  }

  lemma ForeignStepsKeep(s: State, step: Step, worker: nat, row: SlaRow, today: Date, k: nat)
    requires IsListed(row) && IsAt(s, worker, row, today, k) && IsForeign(step, worker, row.uid)
    ensures IsAt(Next(s, step), worker, row, today, k)
  {
    hide StateFor, LevelFor, Rises;
  }

  lemma OwnStepsAdvance(s: State, worker: nat, row: SlaRow, today: Date, k: nat)
    requires k < 4 && IsListed(row) && Rises(row, today) && IsAt(s, worker, row, today, k)
    ensures IsAt(Next(s, OwnStep(worker, row.uid, today, k)), worker, row, today, k + 1)
  {
    hide StateFor, LevelFor;
  }

  lemma {:induction false} InterleavedReach(
    s: State, steps: seq<Step>, worker: nat, row: SlaRow, today: Date, k: nat)
    requires k <= 4 && IsListed(row) && Rises(row, today) && IsAt(s, worker, row, today, 0)
    requires Interleaves(steps, worker, row.uid, today, k)
    ensures IsAt(Run(s, steps), worker, row, today, k)
  {
    hide IsAt, Next, Rises;
    if steps != [] {
      var front, last := steps[..|steps| - 1], steps[|steps| - 1];
      if IsForeign(last, worker, row.uid) && Interleaves(front, worker, row.uid, today, k) {
        InterleavedReach(s, front, worker, row, today, k);
        ForeignStepsKeep(Run(s, front), last, worker, row, today, k);
      } else {
        InterleavedReach(s, front, worker, row, today, k - 1);
        OwnStepsAdvance(Run(s, front), worker, row, today, k - 1);
      }
    }
  }

  /** The state in which a worker crashes after `k` steps, whoever else runs meanwhile. */
  function CrashedAfter(s: State, steps: seq<Step>, worker: nat): State {
    Run(s, steps + [Crash(worker)])
  }

  lemma CrashLeaves(s: State, steps: seq<Step>, worker: nat, uid: TaskUid, today: Date, k: nat)
    requires Inv(s) && Arises(s, uid, today) && worker !in s.workers && k <= 4
    requires Interleaves(steps, worker, uid, today, k)
    ensures IsAt(Run(s, steps), worker, s.rows[uid], today, k)
    ensures var crashed := CrashedAfter(s, steps, worker); crashed == Run(s, steps).(workers := Run(s, steps).workers - {worker})
    ensures Inv(CrashedAfter(s, steps, worker))
  {
    assert IsAt(s, worker, s.rows[uid], today, 0);
    InterleavedReach(s, steps, worker, s.rows[uid], today, k);
    RunOneMore(s, steps, Crash(worker));
    EveryRunKeeps(s, steps + [Crash(worker)]);
  }

  lemma RunOneMore(s: State, steps: seq<Step>, step: Step)
    ensures Run(s, steps + [step]) == Next(Run(s, steps), step)
  {
    assert (steps + [step])[..|steps|] == steps;
  }

  /** No deadline is edited, and the row is not visited on a date before `today`. */
  predicate GoesOn(steps: seq<Step>, uid: TaskUid, today: Date) {
    forall i :: 0 <= i < |steps| ==> !steps[i].Edit? && (steps[i].Begin? && steps[i].uid == uid ==> today <= steps[i].today)
  }

  /** The row has reached a level of which no worker will tell any more: none starts from below it. */
  predicate IsPast(s: State, uid: TaskUid, deadline: Date, level: int) {
    && uid in s.rows && s.rows[uid].deadline == Some(deadline) && s.rows[uid].level >= level
    && (forall u :: u in s.rows ==> s.rows[u].uid == u)
    && (forall worker :: worker in s.workers && s.workers[worker].row.uid == uid ==>
          WorksAbove(s.workers[worker], deadline, level))
    && (uid, level) !in s.told
  }

  predicate WorksAbove(w: Worker, deadline: Date, level: int) {
    && w.row.deadline == Some(deadline) && w.row.level >= level && LevelFor(deadline - w.today) >= level
    && (!w.Persisting? ==> LevelFor(deadline - w.today) > w.row.level)
  }

  lemma StaysPast(s: State, step: Step, uid: TaskUid, deadline: Date, level: int)
    requires IsPast(s, uid, deadline, level) && !step.Edit?
    requires step.Begin? && step.uid == uid ==> LevelFor(deadline - step.today) >= level
    ensures IsPast(Next(s, step), uid, deadline, level)
  {
    var later := Next(s, step);
    forall worker | worker in later.workers && later.workers[worker].row.uid == uid
      ensures WorksAbove(later.workers[worker], deadline, level)
    {
      if worker in s.workers && s.workers[worker].row.uid == uid {
        assert WorksAbove(s.workers[worker], deadline, level);
      }
    }
    if step.Tell? && step.worker in s.workers && s.workers[step.worker].row.uid == uid {
      assert WorksAbove(s.workers[step.worker], deadline, level);
    }
    if step.Persist? && step.worker in s.workers && s.workers[step.worker].row.uid == uid {
      assert WorksAbove(s.workers[step.worker], deadline, level);
    }
  }

  lemma {:induction false} NeverToldOncePast(
    s: State, steps: seq<Step>, uid: TaskUid, deadline: Date, level: int, today: Date)
    requires IsPast(s, uid, deadline, level) && GoesOn(steps, uid, today) && level <= LevelFor(deadline - today)
    ensures IsPast(Run(s, steps), uid, deadline, level)
  {
    if steps != [] {
      var before := steps[..|steps| - 1];
      assert forall i :: 0 <= i < |before| ==> before[i] == steps[i];
      NeverToldOncePast(s, before, uid, deadline, level, today);
      StaysPast(Run(s, before), steps[|steps| - 1], uid, deadline, level);
    }
  }

  /**
   An escalation that arises for somebody is told by the worker exactly if it
   finishes all four steps, whatever steps of others stand between them.
   */
  lemma ToldExactlyWhenFinished(s: State, steps: seq<Step>, worker: nat, uid: TaskUid, today: Date, k: nat)
    requires Inv(s) && Arises(s, uid, today) && worker !in s.workers && k <= 4
    requires Interleaves(steps, worker, uid, today, k)
    ensures MarkOf(s, uid, today) in CrashedAfter(s, steps, worker).told <==> k == 4 && s.rows[uid].assignee.Some?
  {
    CrashLeaves(s, steps, worker, uid, today, k);
  }

  /**
   After a crash it can still be told, on this date or a later one and without
   an edit of the deadline, exactly if the crash came before the new level was
   written. Once it is on record, not even edits help.
   */
  lemma CanStillBeToldExactlyWhen(s: State, steps: seq<Step>, worker: nat, uid: TaskUid, today: Date, k: nat)
    requires Inv(s) && Arises(s, uid, today) && s.rows[uid].assignee.Some? && worker !in s.workers && k < 4
    requires Interleaves(steps, worker, uid, today, k)
    ensures var crashed, mark := CrashedAfter(s, steps, worker), MarkOf(s, uid, today);
            && ((exists more :: GoesOn(more, uid, today) && mark in Run(crashed, more).told) <==> k <= 1)
            && (k == 3 ==> forall more :: mark !in Run(crashed, more).told)
  {
    hide Run, GoesOn, Inv, Rises, NobodyWorksOn, Interleaves;
    var crashed, mark := CrashedAfter(s, steps, worker), MarkOf(s, uid, today);
    if k <= 1 {
      var again := CanBeToldAgain(s, steps, worker, uid, today, k);
      assert GoesOn(again, uid, today) && mark in Run(crashed, again).told;
    } else {
      forall more | GoesOn(more, uid, today) ensures mark !in Run(crashed, more).told {
        CannotBeToldAgain(s, steps, worker, uid, today, k, more);
      }
    }
    if k == 3 {
      forall more ensures mark !in Run(crashed, more).told {
        RecordedIsLost(s, steps, worker, uid, today, 3);
        LostForGood(crashed, mark, more);
      }
    }
  }

  lemma CanBeToldAgain(s: State, steps: seq<Step>, worker: nat, uid: TaskUid, today: Date, k: nat) returns (again: seq<Step>)
    requires Inv(s) && Arises(s, uid, today) && s.rows[uid].assignee.Some? && worker !in s.workers && k <= 1
    requires Interleaves(steps, worker, uid, today, k)
    ensures GoesOn(again, uid, today)
    ensures MarkOf(s, uid, today) in Run(CrashedAfter(s, steps, worker), again).told
  {
    hide Run, Rises, Updated, StateFor, LevelFor;
    CrashLeaves(s, steps, worker, uid, today, k);
    var crashed := CrashedAfter(s, steps, worker);
    again := [Begin(worker, uid, today), Persist(worker), Record(worker), Tell(worker)];
    AllFour(worker, uid, today);
    assert IsAt(crashed, worker, s.rows[uid], today, 0);
    InterleavedReach(crashed, again, worker, s.rows[uid], today, 4);
  }

  lemma AllFour(worker: nat, uid: TaskUid, today: Date)
    ensures Interleaves([Begin(worker, uid, today), Persist(worker), Record(worker), Tell(worker)], worker, uid, today, 4)
    ensures Interleaves([Begin(worker, uid, today), Persist(worker), Record(worker)], worker, uid, today, 3)
    ensures Interleaves([Begin(worker, uid, today), Persist(worker)], worker, uid, today, 2)
  {
    var four := [Begin(worker, uid, today), Persist(worker), Record(worker), Tell(worker)];
    assert four[..3] == [Begin(worker, uid, today), Persist(worker), Record(worker)];
    assert four[..3][..2] == [Begin(worker, uid, today), Persist(worker)];
    assert four[..3][..2][..1] == [Begin(worker, uid, today)];
    assert Interleaves([], worker, uid, today, 0);
    assert Interleaves(four[..3][..2][..1], worker, uid, today, 1);
    assert Interleaves(four[..3][..2], worker, uid, today, 2);
    assert Interleaves(four[..3], worker, uid, today, 3);
  }

  lemma CannotBeToldAgain(s: State, steps: seq<Step>, worker: nat, uid: TaskUid, today: Date, k: nat, more: seq<Step>)
    requires Inv(s) && Arises(s, uid, today) && worker !in s.workers && 2 <= k < 4
    requires Interleaves(steps, worker, uid, today, k) && GoesOn(more, uid, today)
    ensures MarkOf(s, uid, today) !in Run(CrashedAfter(s, steps, worker), more).told
  {
    hide Run, Inv, Interleaves, GoesOn;
    var mark, deadline := MarkOf(s, uid, today), s.rows[uid].deadline.value;
    CrashLeaves(s, steps, worker, uid, today, k);
    var crashed := CrashedAfter(s, steps, worker);
    assert IsPast(crashed, uid, deadline, mark.1);
    NeverToldOncePast(crashed, more, uid, deadline, mark.1, today);
  }

  lemma RecordedIsLost(s: State, steps: seq<Step>, worker: nat, uid: TaskUid, today: Date, k: nat)
    requires Inv(s) && Arises(s, uid, today) && worker !in s.workers && 3 <= k <= 4
    requires k == 3 || s.rows[uid].assignee.None?
    requires Interleaves(steps, worker, uid, today, k)
    ensures IsLost(CrashedAfter(s, steps, worker), MarkOf(s, uid, today))
  {
    hide Run, Inv, Interleaves;
    CrashLeaves(s, steps, worker, uid, today, k);
  }

  /** Without an assignee it is recorded and told to nobody, and whoever is assigned later never hears of it. */
  lemma UnassignedIsNeverTold(s: State, steps: seq<Step>, worker: nat, uid: TaskUid, today: Date, more: seq<Step>)
    requires Inv(s) && Arises(s, uid, today) && s.rows[uid].assignee.None? && worker !in s.workers
    requires Interleaves(steps, worker, uid, today, 4)
    ensures MarkOf(s, uid, today) !in Run(Run(s, steps), more).told
  {
    hide Interleaves, Inv;
    CrashLeaves(s, steps, worker, uid, today, 4);
    assert Run(s, steps).workers - {worker} == Run(s, steps).workers;
    RecordedIsLost(s, steps, worker, uid, today, 4);
    LostForGood(Run(s, steps), MarkOf(s, uid, today), more);
  }

  /** A task due today and assigned to somebody. */
  const DUE := SlaRow(1, 1, Some(10), false, Some(7), None, 0)

  /** Runs from the start: a crash after the second or the third step loses the message, four steps tell it. */
  lemma LosingRuns(more: seq<Step>)
    requires GoesOn(more, 1, 10)
    ensures var mark: Mark := (1, 1);
            && mark !in Run(Run(Run(INITIAL, [Edit(1, DUE)]), [Begin(0, 1, 10), Persist(0), Crash(0)]), more).told
            && mark !in Run(Run(Run(INITIAL, [Edit(1, DUE)]), [Begin(0, 1, 10), Persist(0), Record(0), Crash(0)]), more).told
            && mark in Run(Run(INITIAL, [Edit(1, DUE)]), [Begin(0, 1, 10), Persist(0), Record(0), Tell(0), Crash(0)]).told
  {
    var s := Run(INITIAL, [Edit(1, DUE)]);
    OneEdit(DUE);
    hide Run, Inv, Interleaves, GoesOn;
    AllFour(0, 1, 10);
    assert [Begin(0, 1, 10), Persist(0)] + [Crash(0)] == [Begin(0, 1, 10), Persist(0), Crash(0)];
    assert [Begin(0, 1, 10), Persist(0), Record(0)] + [Crash(0)] == [Begin(0, 1, 10), Persist(0), Record(0), Crash(0)];
    assert [Begin(0, 1, 10), Persist(0), Record(0), Tell(0)] + [Crash(0)]
        == [Begin(0, 1, 10), Persist(0), Record(0), Tell(0), Crash(0)];
    CannotBeToldAgain(s, [Begin(0, 1, 10), Persist(0)], 0, 1, 10, 2, more);
    CannotBeToldAgain(s, [Begin(0, 1, 10), Persist(0), Record(0)], 0, 1, 10, 3, more);
    ToldExactlyWhenFinished(s, [Begin(0, 1, 10), Persist(0), Record(0), Tell(0)], 0, 1, 10, 4);
  }

  /** And with no crash at all for a task that is assigned to nobody yet. */
  lemma LosingRunWithoutCrash(more: seq<Step>)
    ensures var open := Run(INITIAL, [Edit(1, DUE.(assignee := None))]);
            var mark: Mark := (1, 1);
            mark !in Run(Run(open, [Begin(0, 1, 10), Persist(0), Record(0), Tell(0)]), more).told
  {
    var s := Run(INITIAL, [Edit(1, DUE.(assignee := None))]);
    OneEdit(DUE.(assignee := None));
    hide Run, Inv, Interleaves;
    AllFour(0, 1, 10);
    UnassignedIsNeverTold(s, [Begin(0, 1, 10), Persist(0), Record(0), Tell(0)], 0, 1, 10, more);
  }

  lemma OneEdit(row: SlaRow)
    ensures Run(INITIAL, [Edit(row.uid, row)]) == INITIAL.(rows := map[row.uid := row])
    ensures Inv(Run(INITIAL, [Edit(row.uid, row)]))
  {
    assert [Edit(row.uid, row)][..0] == [];
  }
}
