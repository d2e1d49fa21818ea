/** Confirmation nonces for destructive admin actions: bound to an actor, short-lived, good for one use. */
module Nonces {
  import opened Prelude
  import opened BusinessTime

  type Nonce = int
  type UserId = int

  datatype Role = PlainUser | Manager | Admin

  datatype AdminAction =
    | ChangeRole(target: UserId, next: Role)
    | Deactivate(target: UserId)
    | Reactivate(target: UserId)

  datatype Entry = Entry(actor: UserId, action: AdminAction, expiresAt: Instant)

  datatype NonceError = NotFound | WrongActor

  function Swept(entries: map<Nonce, Entry>, now: Instant): map<Nonce, Entry> {
    map nonce | nonce in entries && entries[nonce].expiresAt > now :: entries[nonce]
  }

  function Redeemed(entries: map<Nonce, Entry>, now: Instant, actor: UserId, nonce: Nonce): Result<AdminAction, NonceError> {
    var live := Swept(entries, now);
    if nonce !in live then Err(NotFound)
    else if live[nonce].actor != actor then Err(WrongActor)
    else Ok(live[nonce].action)
  }

  // ---- Whole histories of a store ----

  /** Calls in the order in which they got the store's lock. */
  datatype Call =
    | Issues(asked: Instant, at: Instant, nonce: Nonce, actor: UserId, action: AdminAction)
    | Consumes(at: Instant, nonce: Nonce, actor: UserId)
    | Discards(at: Instant, nonce: Nonce)

  function EntriesAfter(calls: seq<Call>, ttl: nat): map<Nonce, Entry> {
    if calls == [] then map[]
    else
      var before := EntriesAfter(calls[..|calls| - 1], ttl);
      match calls[|calls| - 1]
      case Issues(asked, at, nonce, actor, action) => Swept(before, at)[nonce := Entry(actor, action, asked + ttl)]
      case Consumes(at, nonce, _) => Swept(before, at) - {nonce}
      case Discards(_, nonce) => before - {nonce}
  }

  /** The clock does not go back and no nonce is generated twice. */
  predicate IsHistory(calls: seq<Call>) {
    && (forall i, k :: 0 <= i < k < |calls| ==> calls[i].at <= calls[k].at)
    && (forall i :: 0 <= i < |calls| && calls[i].Issues? ==> calls[i].asked <= calls[i].at)
    && (forall i, k :: 0 <= i < k < |calls| && calls[i].Issues? && calls[k].Issues? ==> calls[i].nonce != calls[k].nonce)
  }

  /** `nonce` was issued by call `i`, and no call since, before call `k`, tried to use or cancel it. */
  predicate IsPending(calls: seq<Call>, i: nat, k: nat, nonce: Nonce)
    requires k <= |calls|
  {
    && i < k && calls[i].Issues? && calls[i].nonce == nonce
    && forall m :: i < m < k ==> calls[m].nonce != nonce
  }

  /** What a use of `nonce` at call `k` must yield, told by the history alone. */
  ghost predicate MustYield(calls: seq<Call>, ttl: nat, k: nat, r: Result<AdminAction, NonceError>)
    requires k < |calls| && calls[k].Consumes?
  {
    match r
    case Ok(action) =>
      exists i: nat :: IsPending(calls, i, k, calls[k].nonce) && calls[k].at < calls[i].asked + ttl
                    && calls[i].actor == calls[k].actor && calls[i].action == action
    case Err(WrongActor) =>
      exists i: nat :: IsPending(calls, i, k, calls[k].nonce) && calls[k].at < calls[i].asked + ttl
                    && calls[i].actor != calls[k].actor
    case Err(NotFound) =>
      forall i: nat :: IsPending(calls, i, k, calls[k].nonce) ==> calls[k].at >= calls[i].asked + ttl
  }

  /** Every stored entry is pending, and every pending nonce is stored unless it has expired. */
  ghost predicate StoreTells(calls: seq<Call>, ttl: nat, entries: map<Nonce, Entry>) {
    && (forall nonce :: nonce in entries ==>
          exists i: nat :: IsPending(calls, i, |calls|, nonce)
                        && entries[nonce] == Entry(calls[i].actor, calls[i].action, calls[i].asked + ttl))
    && (forall i: nat, nonce :: IsPending(calls, i, |calls|, nonce) ==>
          nonce in entries || calls[i].asked + ttl <= calls[|calls| - 1].at)
  }

  lemma IsHistoryPrefix(calls: seq<Call>, n: nat)
    requires IsHistory(calls) && n <= |calls|
    ensures IsHistory(calls[..n])
  {
  }

  /** Pending before call `n` is pending after it, unless the call names the nonce. */
  lemma PendingAcross(calls: seq<Call>, i: nat, nonce: Nonce)
    requires calls != [] && i < |calls| - 1
    ensures IsPending(calls, i, |calls|, nonce)
       <==> IsPending(calls[..|calls| - 1], i, |calls| - 1, nonce) && calls[|calls| - 1].nonce != nonce
  {
    var before := calls[..|calls| - 1];
    assert forall m :: 0 <= m < |before| ==> before[m] == calls[m];
    if IsPending(before, i, |before|, nonce) && calls[|calls| - 1].nonce != nonce {
      forall m | i < m < |calls| ensures calls[m].nonce != nonce {
        if m < |before| {
          assert before[m].nonce != nonce;
        }
      }
    }
  }

  lemma {:induction false} StoreTellsHistory(calls: seq<Call>, ttl: nat)
    requires IsHistory(calls)
    ensures StoreTells(calls, ttl, EntriesAfter(calls, ttl))
  {
    if calls != [] {
      var before, last := calls[..|calls| - 1], calls[|calls| - 1];
      IsHistoryPrefix(calls, |before|);
      StoreTellsHistory(before, ttl);
      var entries, now := EntriesAfter(before, ttl), EntriesAfter(calls, ttl);
      forall nonce | nonce in now
        ensures exists i: nat :: IsPending(calls, i, |calls|, nonce)
                              && now[nonce] == Entry(calls[i].actor, calls[i].action, calls[i].asked + ttl)
      {
        if last.Issues? && last.nonce == nonce {
          assert IsPending(calls, |before|, |calls|, nonce);
        } else {
          var i: nat :| IsPending(before, i, |before|, nonce)
                     && entries[nonce] == Entry(before[i].actor, before[i].action, before[i].asked + ttl);
          PendingAcross(calls, i, nonce);
        }
      }
      forall i: nat, nonce | IsPending(calls, i, |calls|, nonce)
        ensures nonce in now || calls[i].asked + ttl <= last.at
      {
        if i < |before| {
          PendingAcross(calls, i, nonce);
          if nonce in entries {
            var other: nat :| IsPending(before, other, |before|, nonce)
                           && entries[nonce] == Entry(before[other].actor, before[other].action, before[other].asked + ttl);
            assert other == i;
          } else {
            assert before[|before| - 1].at <= last.at;
          }
        }
      }
    }
  }

  /**
   The store answers exactly what its history demands: a use succeeds if and
   only if the nonce was issued to the same actor, has not expired, and no
   earlier use by anybody and no cancellation came in between.
   */
  lemma ConsumeTellsHistory(calls: seq<Call>, ttl: nat, k: nat)
    requires IsHistory(calls) && k < |calls| && calls[k].Consumes?
    ensures MustYield(calls, ttl, k, Redeemed(EntriesAfter(calls[..k], ttl), calls[k].at, calls[k].actor, calls[k].nonce))
  {
    var before, call := calls[..k], calls[k];
    IsHistoryPrefix(calls, k);
    StoreTellsHistory(before, ttl);
    var entries := EntriesAfter(before, ttl);
    forall i: nat ensures IsPending(calls, i, k, call.nonce) <==> IsPending(before, i, |before|, call.nonce) {
      assert forall m :: 0 <= m < k ==> before[m] == calls[m];
    }
    if call.nonce in entries {
      var i: nat :| IsPending(before, i, |before|, call.nonce)
                 && entries[call.nonce] == Entry(before[i].actor, before[i].action, before[i].asked + ttl);
      assert IsPending(calls, i, k, call.nonce);
      forall other: nat | IsPending(calls, other, k, call.nonce) ensures other == i {
      }
    } else {
      forall i: nat | IsPending(calls, i, k, call.nonce) ensures call.at >= calls[i].asked + ttl {
        assert IsPending(before, i, |before|, call.nonce);
        assert before[|before| - 1].at <= call.at;
      }
    }
  }

  /** Hence a nonce yields its action at most once, and never after a use by the wrong actor. */
  lemma SingleUse(calls: seq<Call>, ttl: nat, first: nat, second: nat)
    requires IsHistory(calls) && first < second < |calls|
    requires calls[first].Consumes? && calls[second].Consumes? && calls[first].nonce == calls[second].nonce
    requires Redeemed(EntriesAfter(calls[..first], ttl), calls[first].at, calls[first].actor, calls[first].nonce)
             != Err(NotFound)
    ensures Redeemed(EntriesAfter(calls[..second], ttl), calls[second].at, calls[second].actor, calls[second].nonce)
         == Err(NotFound)
  {
    ConsumeTellsHistory(calls, ttl, first);
    ConsumeTellsHistory(calls, ttl, second);
    var i: nat :| IsPending(calls, i, first, calls[first].nonce);
    forall other: nat ensures !IsPending(calls, other, second, calls[second].nonce) {
    }
  }

  // ---- The store ----

  class AdminNonceStore {
    var entries: map<Nonce, Entry>
    const ttl: nat
    /** Every call so far. */
    ghost var calls: seq<Call>

    ghost predicate Valid()
      reads this
    {
      IsHistory(calls) && entries == EntriesAfter(calls, ttl)
    }

    constructor (ttl: nat)
      requires ttl > 0
      ensures Valid() && calls == [] && this.ttl == ttl
    {
      entries := map[];
      calls := [];
      this.ttl := ttl;
    }

    /** The clock has not gone back since the last call. */
    ghost predicate ClockAllows(now: Instant)
      reads this
    {
      forall i :: 0 <= i < |calls| ==> calls[i].at <= now
    }

    method SweepExpired(now: Instant)
      modifies this`entries
      ensures entries == Swept(old(entries), now)
    {
      entries := map nonce | nonce in entries && entries[nonce].expiresAt > now :: entries[nonce];
    }

    /** `asked` is the clock before the store is locked, `now` the clock once it is; `nonce` is a new one. */
    method Issue(asked: Instant, now: Instant, nonce: Nonce, actor: UserId, action: AdminAction)
      requires Valid() && ClockAllows(now) && asked <= now
      requires forall i :: 0 <= i < |calls| && calls[i].Issues? ==> calls[i].nonce != nonce
      modifies this
      ensures Valid() && calls == old(calls) + [Issues(asked, now, nonce, actor, action)]
    {
      SweepExpired(now);
      entries := entries[nonce := Entry(actor, action, asked + ttl)];
      ghost var before := calls;
      calls := calls + [Issues(asked, now, nonce, actor, action)];
      assert calls[..|calls| - 1] == before;
    }

    method Consume(now: Instant, actor: UserId, nonce: Nonce) returns (r: Result<AdminAction, NonceError>)
      requires Valid() && ClockAllows(now)
      modifies this
      ensures Valid() && calls == old(calls) + [Consumes(now, nonce, actor)]
      ensures MustYield(calls, ttl, |old(calls)|, r)
    {
      ghost var before := calls;
      calls := calls + [Consumes(now, nonce, actor)];
      assert calls[..|before|] == before;
      ConsumeTellsHistory(calls, ttl, |before|);
      SweepExpired(now);
      if nonce !in entries {
        return Err(NotFound);
      }
      var entry := entries[nonce];
      entries := entries - {nonce};
      if entry.actor != actor {
        return Err(WrongActor);
      }
      return Ok(entry.action);
    }

    method Discard(now: Instant, nonce: Nonce)
      requires Valid() && ClockAllows(now)
      modifies this
      ensures Valid() && calls == old(calls) + [Discards(now, nonce)]
    {
      entries := entries - {nonce};
      ghost var before := calls;
      calls := calls + [Discards(now, nonce)];
      assert calls[..|calls| - 1] == before;
    }
  }
}
