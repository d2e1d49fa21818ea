/**
 Updates passing through the gateway, in any interleaving and over any number
 of chats: the lazily created per-chat lock, the duplicate filter, the barrier
 installed for one update, and the gated send helpers that consult it.
 */
module GatewayProtocol {
  import opened Prelude
  import opened Gateway

  type UpdateId = nat

  /** `Broken` is an update whose handler died: its lock is released, its barrier is not uninstalled. */
  datatype Phase = Searching | Missing | Waiting | Entered | Admitted | Handling | Leaving | Gone | Broken

  datatype Update = Update(chat: ChatId, key: DedupKey, phase: Phase, lock: nat)
  {
    predicate HoldsLock() {
      phase.Entered? || phase.Admitted? || phase.Handling? || phase.Leaving?
    }

    predicate HasLock() {
      phase.Waiting? || HoldsLock()
    }
  }

  /** A send helper between reading the chat's barrier and consuming it; `caller` is `None` for background jobs. */
  datatype Send = Send(caller: Option<UpdateId>, via: Option<UpdateId>)

  /** A barrier is named after the update it was made for. */
  datatype State = State(
    locks: map<ChatId, nat>,
    made: nat,
    holders: map<nat, UpdateId>,
    updates: map<UpdateId, Update>,
    accepted: seq<DedupKey>,
    barriers: map<ChatId, UpdateId>,
    spent: set<UpdateId>,
    sends: map<nat, Send>,
    rendered: seq<Send>)

  datatype Step =
    | Arrive(id: UpdateId, chat: ChatId, token: int)
    | FindLock(id: UpdateId)
    | MakeLock(id: UpdateId)
    | TakeLock(id: UpdateId)
    | Observe(id: UpdateId)
    | Install(id: UpdateId)
    | BeginSend(id: UpdateId, send: nat)
    | BeginOutside(chat: ChatId, send: nat)
    | EndSend(send: nat)
    | Uninstall(id: UpdateId)
    | Release(id: UpdateId)
    | Die(id: UpdateId)

  const INITIAL := State(map[], 0, map[], map[], [], map[], {}, map[], [])

  predicate Is(s: State, id: UpdateId, phase: Phase) {
    id in s.updates && s.updates[id].phase == phase
  }

  function Moved(s: State, id: UpdateId, phase: Phase): State
    requires id in s.updates
  {
    s.(updates := s.updates[id := s.updates[id].(phase := phase)])
  }

  function BarrierFor(s: State, chat: ChatId): Option<UpdateId> {
    if chat in s.barriers then Some(s.barriers[chat]) else None
  }

  /** A step that is not enabled changes nothing. */
  function Next(s: State, step: Step): State {
    match step
    case Arrive(id, chat, token) =>
      if id in s.updates then s
      else s.(updates := s.updates[id := Update(chat, DedupKey(chat, token), Searching, 0)])
    case FindLock(id) =>
      if !Is(s, id, Searching) then s
      else if s.updates[id].chat in s.locks then
        Moved(s.(updates := s.updates[id := s.updates[id].(lock := s.locks[s.updates[id].chat])]), id, Waiting)
      else Moved(s, id, Missing)
    case MakeLock(id) =>
      if !Is(s, id, Missing) then s
      else if s.updates[id].chat in s.locks then
        Moved(s.(updates := s.updates[id := s.updates[id].(lock := s.locks[s.updates[id].chat])]), id, Waiting)
      else
        Moved(s.(locks := s.locks[s.updates[id].chat := s.made],
                 made := s.made + 1,
                 updates := s.updates[id := s.updates[id].(lock := s.made)]), id, Waiting)
    case TakeLock(id) =>
      if !Is(s, id, Waiting) || s.updates[id].lock in s.holders then s
      else Moved(s.(holders := s.holders[s.updates[id].lock := id]), id, Entered)
    case Observe(id) =>
      if !Is(s, id, Entered) then s
      else if IsRecent(s.accepted, s.updates[id].key) then
        Moved(s.(holders := s.holders - {s.updates[id].lock}), id, Gone)
      else Moved(s.(accepted := s.accepted + [s.updates[id].key]), id, Admitted)
    case Install(id) =>
      if !Is(s, id, Admitted) then s
      else Moved(s.(barriers := s.barriers[s.updates[id].chat := id]), id, Handling)
    case BeginSend(id, send) =>
      if !Is(s, id, Handling) || send in s.sends then s
      else s.(sends := s.sends[send := Send(Some(id), BarrierFor(s, s.updates[id].chat))])
    case BeginOutside(chat, send) =>
      if send in s.sends then s else s.(sends := s.sends[send := Send(None, BarrierFor(s, chat))])
    case EndSend(send) =>
      if send !in s.sends then s
      else
        var call := s.sends[send];
        var ended := s.(sends := s.sends - {send});
        if call.via.None? then ended.(rendered := s.rendered + [call])
        else if call.via.value in s.spent then ended
        else ended.(rendered := s.rendered + [call], spent := s.spent + {call.via.value})
    case Uninstall(id) =>
      if !Is(s, id, Handling) then s
      else Moved(s.(barriers := s.barriers - {s.updates[id].chat}), id, Leaving)
    case Release(id) =>
      if !Is(s, id, Leaving) then s
      else Moved(s.(holders := s.holders - {s.updates[id].lock}), id, Gone)
    case Die(id) =>
      if id !in s.updates || !s.updates[id].HoldsLock() then s
      else Moved(s.(holders := s.holders - {s.updates[id].lock}), id, Broken)
  }

  function After(steps: seq<Step>): State {
    if steps == [] then INITIAL else Next(After(steps[..|steps| - 1]), steps[|steps| - 1])
  }

  // ---- What every run keeps ----

  /** Locks of different chats are different, and an update that has a lock has its chat's. */
  ghost predicate LocksAgree(s: State) {
    && (forall chat :: chat in s.locks ==> s.locks[chat] < s.made)
    && (forall a, b :: a in s.locks && b in s.locks && s.locks[a] == s.locks[b] ==> a == b)
    && (forall id :: id in s.updates && s.updates[id].HasLock() ==>
          s.updates[id].chat in s.locks && s.updates[id].lock == s.locks[s.updates[id].chat])
  }

  /** A lock is held by exactly the update that is past it. */
  ghost predicate HoldersAgree(s: State) {
    && (forall id :: id in s.updates && s.updates[id].HoldsLock() ==>
          s.updates[id].lock in s.holders && s.holders[s.updates[id].lock] == id)
    && (forall lock :: lock in s.holders ==>
          && s.holders[lock] in s.updates && s.updates[s.holders[lock]].HoldsLock()
          && s.updates[s.holders[lock]].lock == lock)
  }

  /** The chat's entry is the barrier of the update being handled, or was left by one that died. */
  ghost predicate BarriersAgree(s: State) {
    && (forall id :: Is(s, id, Handling) ==> s.updates[id].chat in s.barriers && s.barriers[s.updates[id].chat] == id)
    && (forall chat :: chat in s.barriers ==>
          && s.barriers[chat] in s.updates && s.updates[s.barriers[chat]].chat == chat
          && (Is(s, s.barriers[chat], Handling) || Is(s, s.barriers[chat], Broken)))
  }

  /** Helpers called by an update go through its barrier, and a barrier that let one through is spent. */
  ghost predicate SendsAgree(s: State) {
    && (forall send :: send in s.sends && s.sends[send].caller.Some? ==> s.sends[send].via == s.sends[send].caller)
    && (forall i :: 0 <= i < |s.rendered| && s.rendered[i].caller.Some? ==> s.rendered[i].via == s.rendered[i].caller)
    && (forall i :: 0 <= i < |s.rendered| && s.rendered[i].via.Some? ==> s.rendered[i].via.value in s.spent)
    && (forall i, k :: 0 <= i < k < |s.rendered| && s.rendered[i].via.Some? ==> s.rendered[i].via != s.rendered[k].via)
  }

  ghost predicate Inv(s: State) {
    LocksAgree(s) && HoldersAgree(s) && BarriersAgree(s) && SendsAgree(s) && Spaced(s.accepted)
  }

  /** One lock per chat and one holder per lock make the critical sections of a chat exclusive. */
  lemma ChatIsExclusive(s: State, a: UpdateId, b: UpdateId)
    requires LocksAgree(s) && HoldersAgree(s) && a in s.updates && b in s.updates
    requires s.updates[a].HoldsLock() && s.updates[b].HoldsLock() && s.updates[a].chat == s.updates[b].chat
    ensures a == b
  {
  }

  /** The updates that have a lock afterwards had the same one before. */
  ghost predicate KeepsLocks(s: State, later: State) {
    && later.locks == s.locks && later.made == s.made
    && forall id :: id in later.updates && later.updates[id].HasLock() ==>
         && id in s.updates && s.updates[id].HasLock()
         && later.updates[id].chat == s.updates[id].chat && later.updates[id].lock == s.updates[id].lock
  }

  lemma LocksStay(s: State, step: Step)
    requires Inv(s)
    ensures LocksAgree(Next(s, step))
  {
    hide HoldersAgree, BarriersAgree, SendsAgree, Spaced;
    match step
    case FindLock(id) => LocksStayWhenFound(s, id);
    case MakeLock(id) => LocksStayWhenMade(s, id);
    case _ => assert KeepsLocks(s, Next(s, step)) by { LocksAreKept(s, step); }
  }

  lemma LocksAreKept(s: State, step: Step)
    requires !step.FindLock? && !step.MakeLock?
    ensures KeepsLocks(s, Next(s, step))
  {
    if step.Release? || step.Die? || step.Uninstall? || step.Install? {
      LocksAreKeptWhenHeld(s, step);
    } else if step.Arrive? || step.TakeLock? || step.Observe? {
      LocksAreKeptAtTheGate(s, step);
    }
  }

  lemma LocksAreKeptWhenHeld(s: State, step: Step)
    requires step.Release? || step.Die? || step.Uninstall? || step.Install?
    ensures KeepsLocks(s, Next(s, step))
  {
  }

  lemma LocksAreKeptAtTheGate(s: State, step: Step)
    requires step.Arrive? || step.TakeLock? || step.Observe?
    ensures KeepsLocks(s, Next(s, step))
  {
    hide IsRecent;
    if step.Observe? {
      LocksAreKeptWhenObserved(s, step);
    }
  }

  lemma LocksAreKeptWhenObserved(s: State, step: Step)
    requires step.Observe?
    ensures KeepsLocks(s, Next(s, step))
  {
    hide IsRecent;
  }

  lemma LocksStayWhenFound(s: State, id: UpdateId)
    requires LocksAgree(s)
    ensures LocksAgree(Next(s, FindLock(id)))
  {
    var later := Next(s, FindLock(id));
    assert later.locks == s.locks && later.made == s.made;
    forall other | other in later.updates && later.updates[other].HasLock()
      ensures later.updates[other].chat in later.locks && later.updates[other].lock == later.locks[later.updates[other].chat]
    {
      if other != id {
        assert later.updates[other] == s.updates[other];
      }
    }
  }

  lemma LocksStayWhenMade(s: State, id: UpdateId)
    requires LocksAgree(s)
    ensures LocksAgree(Next(s, MakeLock(id)))
  {
    var later := Next(s, MakeLock(id));
    if Is(s, id, Missing) {
      var chat := s.updates[id].chat;
      if chat !in s.locks {
        assert later.locks == s.locks[chat := s.made];
      }
      forall other | other in later.updates && later.updates[other].HasLock()
        ensures later.updates[other].chat in later.locks && later.updates[other].lock == later.locks[later.updates[other].chat]
      {
        if other != id {
          assert later.updates[other] == s.updates[other];
        }
      }
    }
  }

  /** The same updates hold the same locks afterwards. */
  ghost predicate KeepsHolders(s: State, later: State) {
    && later.holders == s.holders
    && (forall id :: id in s.updates ==> id in later.updates)
    && forall id :: id in later.updates ==>
         && (later.updates[id].HoldsLock() <==> id in s.updates && s.updates[id].HoldsLock())
         && (later.updates[id].HoldsLock() ==> later.updates[id].lock == s.updates[id].lock)
  }

  lemma HoldersStay(s: State, step: Step)
    requires Inv(s)
    ensures HoldersAgree(Next(s, step))
  {
    hide LocksAgree, BarriersAgree, SendsAgree, Spaced;
    match step
    case TakeLock(_) => HoldersStayWhenTaken(s, step);
    case Observe(_) => HoldersStayWhenTaken(s, step);
    case Release(_) => HoldersStayWhenReleased(s, step);
    case Die(_) => HoldersStayWhenReleased(s, step);
    case _ => assert KeepsHolders(s, Next(s, step)) by { HoldersAreKept(s, step); }
  }

  lemma HoldersAreKept(s: State, step: Step)
    requires !step.TakeLock? && !step.Observe? && !step.Release? && !step.Die?
    ensures KeepsHolders(s, Next(s, step))
  {
    if step.MakeLock? {
      HoldersAreKeptWhenMade(s, step);
    } else if step.Arrive? || step.FindLock? {
      HoldersAreKeptOnTheWay(s, step);
    }
  }

  lemma HoldersAreKeptWhenMade(s: State, step: Step)
    requires step.MakeLock?
    ensures KeepsHolders(s, Next(s, step))
  {
  }

  lemma HoldersAreKeptOnTheWay(s: State, step: Step)
    requires step.Arrive? || step.FindLock?
    ensures KeepsHolders(s, Next(s, step))
  {
  }

  lemma HoldersStayWhenTaken(s: State, step: Step)
    requires HoldersAgree(s) && (step.TakeLock? || step.Observe?)
    ensures HoldersAgree(Next(s, step))
  {
    hide IsRecent;
    if step.Observe? {
      HoldersStayWhenObserved(s, step);
    }
  }

  lemma HoldersStayWhenObserved(s: State, step: Step)
    requires HoldersAgree(s) && step.Observe?
    ensures HoldersAgree(Next(s, step))
  {
    hide IsRecent;
  }

  lemma HoldersStayWhenReleased(s: State, step: Step)
    requires HoldersAgree(s) && (step.Release? || step.Die?)
    ensures HoldersAgree(Next(s, step))
  {
  }

  /** Handling goes on for the same updates, barriers are untouched, and dead updates stay dead. */
  ghost predicate KeepsBarriers(s: State, later: State) {
    && later.barriers == s.barriers
    && (forall id :: id in s.updates ==>
          && id in later.updates && later.updates[id].chat == s.updates[id].chat
          && (Is(s, id, Broken) ==> Is(later, id, Broken)))
    && forall id :: Is(later, id, Handling) <==> Is(s, id, Handling)
  }

  lemma BarriersStay(s: State, step: Step)
    requires Inv(s)
    ensures BarriersAgree(Next(s, step))
  {
    hide LocksAgree, HoldersAgree, SendsAgree, Spaced;
    match step
    case Install(id) => BarriersStayWhenSet(s, id, step);
    case Uninstall(id) => BarriersStayWhenSet(s, id, step);
    case Die(id) => BarriersStayWhenDead(s, id);
    case FindLock(_) => assert KeepsBarriers(s, Next(s, step)) by { BarriersAreKeptOnTheWay(s, step); }
    case MakeLock(_) => assert KeepsBarriers(s, Next(s, step)) by { BarriersAreKeptOnTheWay(s, step); }
    case TakeLock(_) => assert KeepsBarriers(s, Next(s, step)) by { BarriersAreKeptAtTheGate(s, step); }
    case Observe(_) => assert KeepsBarriers(s, Next(s, step)) by { BarriersAreKeptAtTheGate(s, step); }
    case _ => assert KeepsBarriers(s, Next(s, step)) by { BarriersAreKept(s, step); }
  }

  lemma BarriersStayWhenSet(s: State, id: UpdateId, step: Step)
    requires LocksAgree(s) && HoldersAgree(s) && BarriersAgree(s) && (step == Install(id) || step == Uninstall(id))
    ensures BarriersAgree(Next(s, step))
  {
    if Is(s, id, Admitted) || Is(s, id, Handling) {
      forall other | Is(s, other, Handling) && s.updates[other].chat == s.updates[id].chat ensures other == id {
        ChatIsExclusive(s, other, id);
      }
    }
    hide LocksAgree, HoldersAgree;
  }

  lemma BarriersAreKeptOnTheWay(s: State, step: Step)
    requires step.FindLock? || step.MakeLock?
    ensures KeepsBarriers(s, Next(s, step))
  {
    if step.FindLock? {
      BarriersAreKeptWhenFound(s, step);
    }
  }

  lemma BarriersAreKeptWhenFound(s: State, step: Step)
    requires step.FindLock?
    ensures KeepsBarriers(s, Next(s, step))
  {
  }

  lemma BarriersAreKeptAtTheGate(s: State, step: Step)
    requires step.TakeLock? || step.Observe?
    ensures KeepsBarriers(s, Next(s, step))
  {
    hide IsRecent;
    if step.TakeLock? {
      BarriersAreKeptWhenTaken(s, step);
    }
  }

  lemma BarriersAreKeptWhenTaken(s: State, step: Step)
    requires step.TakeLock?
    ensures KeepsBarriers(s, Next(s, step))
  {
  }

  lemma BarriersStayWhenDead(s: State, id: UpdateId)
    requires BarriersAgree(s)
    ensures BarriersAgree(Next(s, Die(id)))
  {
  }

  lemma BarriersAreKept(s: State, step: Step)
    requires step.Arrive? || step.BeginSend? || step.BeginOutside? || step.EndSend? || step.Release?
    ensures KeepsBarriers(s, Next(s, step))
  {
    if step.Arrive? || step.Release? {
      BarriersAreKeptAtTheEnds(s, step);
    } else {
      var later := Next(s, step);
      assert later.updates == s.updates && later.barriers == s.barriers;
    }
  }

  lemma BarriersAreKeptAtTheEnds(s: State, step: Step)
    requires step.Arrive? || step.Release?
    ensures KeepsBarriers(s, Next(s, step))
  {
  }

  lemma SendsStay(s: State, step: Step)
    requires Inv(s)
    ensures SendsAgree(Next(s, step))
  {
    hide LocksAgree, HoldersAgree, Spaced;
    match step
    case BeginSend(_, _) => SendsStayWhenBegun(s, step);
    case BeginOutside(_, _) => SendsStayWhenBegun(s, step);
    case EndSend(send) => SendsStayWhenEnded(s, send);
    case _ => assert KeepsSends(s, Next(s, step)) by { SendsAreKept(s, step); }
  }

  lemma SendsStayWhenBegun(s: State, step: Step)
    requires SendsAgree(s) && BarriersAgree(s) && (step.BeginSend? || step.BeginOutside?)
    ensures SendsAgree(Next(s, step))
  {
  }

  lemma SendsStayWhenEnded(s: State, send: nat)
    requires SendsAgree(s)
    ensures SendsAgree(Next(s, EndSend(send)))
  {
  }

  lemma SendsAreKept(s: State, step: Step)
    requires !step.BeginSend? && !step.BeginOutside? && !step.EndSend?
    ensures KeepsSends(s, Next(s, step))
  {
    if step.Arrive? || step.FindLock? || step.MakeLock? || step.TakeLock? {
      SendsAreKeptOnTheWay(s, step);
    }
  }

  predicate KeepsSends(s: State, later: State) {
    later.sends == s.sends && later.rendered == s.rendered && later.spent == s.spent
  }

  lemma SendsAreKeptOnTheWay(s: State, step: Step)
    requires step.Arrive? || step.FindLock? || step.MakeLock? || step.TakeLock?
    ensures KeepsSends(s, Next(s, step))
  {
  }

  lemma {:induction false} EveryRunKeeps(steps: seq<Step>)
    ensures Inv(After(steps))
  {
    if steps != [] {
      var before, step := After(steps[..|steps| - 1]), steps[|steps| - 1];
      EveryRunKeeps(steps[..|steps| - 1]);
      LocksStay(before, step);
      HoldersStay(before, step);
      BarriersStay(before, step);
      SendsStay(before, step);
      SpacingStays(before, step);
    }
  }

  lemma SpacingStays(s: State, step: Step)
    requires Spaced(s.accepted)
    ensures Spaced(Next(s, step).accepted)
  {
    if step.Observe? && Is(s, step.id, Entered) && !IsRecent(s.accepted, s.updates[step.id].key) {
      SpacedAfter(s.accepted, s.updates[step.id].key);
    }
  }

  // ---- Main results ----

  /** In every run the gated helpers let one update render at most once. */
  lemma OneEffectPerUpdate(steps: seq<Step>, i: nat, k: nat)
    requires var r := After(steps).rendered;
             i < |r| && k < |r| && r[i].caller.Some? && r[i].caller == r[k].caller
    ensures i == k
  {
    EveryRunKeeps(steps);
  }

  /** While an update is handled it is alone in its chat, and the chat's entry is its own barrier. */
  lemma HandledUpdateOwnsItsChat(steps: seq<Step>, id: UpdateId, other: UpdateId)
    requires var s := After(steps);
             Is(s, id, Handling) && other in s.updates && s.updates[other].HoldsLock()
             && s.updates[other].chat == s.updates[id].chat
    ensures other == id
    ensures BarrierFor(After(steps), After(steps).updates[id].chat) == Some(id)
  {
    EveryRunKeeps(steps);
    ChatIsExclusive(After(steps), id, other);
  }

  /** Unless one of its handlers died, a chat has an entry exactly while one of its updates is handled. */
  lemma EntriesAreForHandledUpdates(steps: seq<Step>, chat: ChatId)
    requires forall id :: Is(After(steps), id, Broken) ==> After(steps).updates[id].chat != chat
    ensures chat in After(steps).barriers
       <==> exists id :: Is(After(steps), id, Handling) && After(steps).updates[id].chat == chat
  {
    EveryRunKeeps(steps);
  }

  /** Locks are added and never replaced: what `ChatSerializer.OthersRun` promises of the other updates. */
  predicate OnlyAddsLocks(before: map<ChatId, nat>, after: map<ChatId, nat>) {
    before.Keys <= after.Keys && forall chat :: chat in before ==> after[chat] == before[chat]
  }

  lemma StepOnlyAddsLocks(s: State, step: Step)
    ensures OnlyAddsLocks(s.locks, Next(s, step).locks)
  {
    match step
    case FindLock(_) =>
    case MakeLock(_) =>
    case _ => assert KeepsLocks(s, Next(s, step)) by { LocksAreKept(s, step); }
  }

  lemma {:induction false} LocksAreNeverReplaced(steps: seq<Step>, n: nat)
    requires n <= |steps|
    ensures OnlyAddsLocks(After(steps[..n]).locks, After(steps).locks)
  {
    if n == |steps| {
      assert steps[..n] == steps;
    } else {
      var before := steps[..|steps| - 1];
      LocksAreNeverReplaced(before, n);
      assert before[..n] == steps[..n];
      StepOnlyAddsLocks(After(before), steps[|steps| - 1]);
    }
  }

  /** Handled twice, a key has been followed by 2048 other acceptances in between. */
  lemma RedeliveriesAreDropped(steps: seq<Step>)
    ensures Spaced(After(steps).accepted)
  {
    EveryRunKeeps(steps);
  }
}
