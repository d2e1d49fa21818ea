/** The gateway's building blocks: per-chat locks, the one-shot barrier and the duplicate filter. */
module Gateway {
  const DEDUP_CAPACITY := 2048

  type ChatId = int

  datatype DedupKey = DedupKey(chat: ChatId, token: int)

  // ---- Duplicate filter ----

  /** The latest `n` elements, or all of them. */
  function Last<T>(s: seq<T>, n: nat): seq<T> {
    if |s| <= n then s else s[|s| - n..]
  }

  /** The simple question the filter answers: is the key among the last 2048 accepted ones? */
  predicate IsRecent(accepted: seq<DedupKey>, key: DedupKey) {
    key in Last(accepted, DEDUP_CAPACITY)
  }

  lemma RecentIsAmongTheLast(accepted: seq<DedupKey>, key: DedupKey)
    ensures IsRecent(accepted, key) <==> exists i :: 0 <= i < |accepted| && |accepted| - 2048 <= i && accepted[i] == key
    ensures |Last(accepted, DEDUP_CAPACITY)| <= 2048
  {
    var recent := Last(accepted, DEDUP_CAPACITY);
    var from := |accepted| - |recent|;
    forall i | from <= i < |accepted| ensures accepted[i] == recent[i - from] {
    }
  }

  function Elements<T>(s: seq<T>): set<T> {
    set x | x in s
  }

  predicate NoDuplicates<T(==)>(s: seq<T>) {
    forall i, k :: 0 <= i < k < |s| ==> s[i] != s[k]
  }

  /** Two acceptances of one key lie at least 2048 acceptances of other keys apart. */
  predicate Spaced(accepted: seq<DedupKey>) {
    forall i, k :: 0 <= i < k < |accepted| && accepted[i] == accepted[k] ==> k - i - 1 >= DEDUP_CAPACITY
  }

  lemma SpacedAfter(accepted: seq<DedupKey>, key: DedupKey)
    requires Spaced(accepted) && !IsRecent(accepted, key)
    ensures Spaced(accepted + [key])
  {
    var recent := Last(accepted, DEDUP_CAPACITY);
    forall i | 0 <= i < |accepted| && |accepted| - i <= DEDUP_CAPACITY ensures IsRecent(accepted, accepted[i]) {
      assert recent[|recent| - (|accepted| - i)] == accepted[i];
    }
  }

  class UpdateDedup {
    var seen: set<DedupKey>
    var order: seq<DedupKey>
    /** Every key ever accepted, oldest first. */
    ghost var accepted: seq<DedupKey>

    ghost predicate Valid()
      reads this
    {
      && order == Last(accepted, DEDUP_CAPACITY)
      && seen == Elements(order)
      && NoDuplicates(order)
      && Spaced(accepted)
    }

    constructor ()
      ensures Valid() && accepted == []
    {
      seen, order, accepted := {}, [], [];
    }

    method Observe(key: DedupKey) returns (isNew: bool)
      requires Valid()
      modifies this
      ensures Valid()
      ensures isNew <==> !IsRecent(old(accepted), key)
      ensures isNew <==> !exists i :: 0 <= i < |old(accepted)| && |old(accepted)| - 2048 <= i && old(accepted)[i] == key
      ensures |order| <= 2048
      ensures accepted == if isNew then old(accepted) + [key] else old(accepted)
    {
      RecentIsAmongTheLast(accepted, key);
      if key in seen {
        return false;
      }
      if |order| >= DEDUP_CAPACITY {
        var oldest := order[0];
        ghost var before := order;
        order := order[1..];
        seen := seen - {oldest};
        assert before == [oldest] + order;
      }
      seen := seen + {key};
      order := order + [key];
      SpacedAfter(accepted, key);
      accepted := accepted + [key];
      return true;
    }
  }

  // ---- One-shot barrier ----

  class UxBarrier {
    var spent: bool

    constructor ()
      ensures !spent
    {
      spent := false;
    }

    /** Compare-and-exchange from unspent to spent. */
    method TryConsume() returns (first: bool)
      modifies this
      ensures spent && first == !old(spent)
    {
      first := !spent;
      spent := true;
    }
  }

  // ---- Per-chat locks ----

  class Mutex {
    constructor () {
    }
  }

  class ChatSerializer {
    var locks: map<ChatId, Mutex>

    constructor ()
      ensures locks == map[]
    {
      locks := map[];
    }

    /**
     Other updates between the read lock and the write lock: they add locks and never replace one,
     as `GatewayProtocol.StepOnlyAddsLocks` proves of every step.
     */
    method OthersRun()
      modifies this
      ensures old(locks.Keys) <= locks.Keys
      ensures forall chat :: chat in old(locks) ==> locks[chat] == old(locks)[chat]
    {
    }

    /** Whoever asks for a chat gets the one lock the chat will ever have. */
    method ObtainLock(chat: ChatId) returns (lock: Mutex)
      modifies this
      ensures chat in locks && locks[chat] == lock
      ensures old(locks.Keys) <= locks.Keys
      ensures forall c :: c in old(locks) ==> locks[c] == old(locks)[c]
    {
      if chat in locks {
        return locks[chat];
      }
      OthersRun();
      if chat !in locks {
        lock := new Mutex();
        locks := locks[chat := lock];
      }
      return locks[chat];
    }
  }
}
