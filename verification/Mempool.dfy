/**
 The mempool of pkg/mempool/mempool.go: a map of live transactions and a heap over it from which
 removed ones are dropped lazily.  Every method holds the lock, so the clock is read once per call.
 `Add` stamps the transaction it stores; the model stores a fresh value.
 */
module Mempools {
  import opened Common
  import opened Bytes
  import opened Transactions
  import opened Handouts
  import BinaryHeap

  datatype MempoolConfig = MempoolConfig(maxSize: int, maxTxSize: int, minGasPrice: nat, txTTL: int)

  datatype AddError = BadHash | ZeroGasLimit | NoSender | TooLarge | LowGasPrice | AlreadyExists | MempoolFull

  lemma SenderGiven(a: Address)
    ensures a != ZERO_ADDRESS <==> exists i :: 0 <= i < 20 && a[i] != 0
  {
    if forall i :: 0 <= i < 20 ==> a[i] == 0 {
      assert a == ZERO_ADDRESS;
    }
  }

  /** What the heap's Less compares at a given moment. */
  function At(now: int): Tx -> int {
    (t: Tx) => t.Priority(now)
  }

  ghost predicate AllStamped(h: seq<Tx>, now: int, phase: int) {
    forall i :: 0 <= i < |h| ==> Stamped(h[i], now, phase)
  }

  /** Ticking shifts all priorities alike, so a heap stays a heap. */
  lemma OrderSurvivesTick(h: seq<Tx>, now: int, later: int, phase: int)
    requires BinaryHeap.Ordered(h, At(now)) && AllStamped(h, now, phase) && AllStamped(h, later, phase)
    ensures BinaryHeap.Ordered(h, At(later))
  {
    forall k: nat | 0 < k < |h| ensures BinaryHeap.PairOk(h, At(later), k) {
      assert BinaryHeap.PairOk(h, At(now), k);
      OrderIsTimeless(h[k], h[BinaryHeap.Parent(k)], now, later, phase);
    }
  }

  /** No entry is stale: map and heap hold the same transactions, each once. */
  ghost predicate Synced(txs: map<Hash, Tx>, pending: seq<Tx>) {
    Covered(txs, pending) && |pending| == |txs|
  }

  /** A synced heap is exactly the live transactions. */
  lemma SyncedIsExact(txs: map<Hash, Tx>, pending: seq<Tx>)
    requires Filed(txs) && Synced(txs, pending)
    ensures multiset(pending) == multiset(txs.Values)
    ensures forall t :: t in multiset(pending) ==> t.hash in txs && txs[t.hash] == t
  {
    ValuesSize(txs);
    var live := multiset(txs.Values);
    forall t | t in live ensures live[t] <= multiset(pending)[t] {
      assert t in txs.Values;
      assert t.hash in txs && txs[t.hash] == t;
    }
    assert live <= multiset(pending) && |live| == |multiset(pending)|;
    var extra := multiset(pending) - live;
    assert multiset(pending) == live + extra && |extra| == 0;
    forall t | t in multiset(pending) ensures t.hash in txs && txs[t.hash] == t {
      assert t in live;
      assert t in txs.Values;
    }
  }

  /**
   Without any condition on the receipts, a heap in order at one moment is at every other moment out
   of order by at most one: its root is outranked by no more than that.
   */
  lemma RootBlursByOne(h: seq<Tx>, now: int, later: int, k: nat)
    requires BinaryHeap.Ordered(h, At(now)) && k < |h|
    requires forall t :: t in h ==> Fits(t, now) && Fits(t, later)
    ensures h[k].Priority(later) <= h[0].Priority(later) + 1
  {
    hide Fits, Tx.Priority;
    BinaryHeap.RootIsLargest(h, At(now), k);
    LeadMovesByOne(h[k], h[0], now, later);
  }

  /** Only the multiset of entries matters for their stamps. */
  lemma StampedFrom(h: seq<Tx>, more: seq<Tx>, now: int, phase: int)
    requires AllStamped(more, now, phase) && forall t :: t in multiset(h) ==> t in multiset(more)
    ensures AllStamped(h, now, phase)
  {
    forall i | 0 <= i < |h| ensures Stamped(h[i], now, phase) {
      assert h[i] in multiset(h);
    }
  }

  /** Taking an entry out of the heap and its hash out of the map. */
  lemma DropCovered(txs: map<Hash, Tx>, pending: seq<Tx>, rest: seq<Tx>, e: Tx)
    requires Filed(txs) && Covered(txs, pending) && e in multiset(pending) && multiset(rest) == multiset(pending) - multiset{e}
    ensures Filed(txs - {e.hash}) && Covered(txs - {e.hash}, rest)
    ensures |txs - {e.hash}| == |txs| - if e.hash in txs then 1 else 0
    ensures Synced(txs, pending) ==> e.hash in txs && txs[e.hash] == e && Synced(txs - {e.hash}, rest)
  {
    hide Synced;
    forall h | h in txs - {e.hash} ensures txs[h] in multiset(rest) {
      assert txs[h].hash == h;
    }
    OneLess(txs, e.hash);
    if Synced(txs, pending) {
      SyncedIsExact(txs, pending);
      OneShorter(txs, pending, rest, e);
    }
  }

  lemma OneLess(txs: map<Hash, Tx>, hash: Hash)
    ensures |txs - {hash}| == |txs| - if hash in txs then 1 else 0
  {
    assert (txs - {hash}).Keys == txs.Keys - {hash};
  }

  lemma OneShorter(txs: map<Hash, Tx>, pending: seq<Tx>, rest: seq<Tx>, e: Tx)
    requires Synced(txs, pending) && e.hash in txs && e in multiset(pending) && multiset(rest) == multiset(pending) - multiset{e}
    requires Covered(txs - {e.hash}, rest)
    ensures Synced(txs - {e.hash}, rest)
  {
    hide Covered;
    assert |multiset(rest)| == |rest| && |multiset(pending)| == |pending|;
    OneLess(txs, e.hash);
  }

  lemma StaleDropped(txs: map<Hash, Tx>, pending: seq<Tx>, rest: seq<Tx>, e: Tx)
    requires Filed(txs) && Covered(txs, pending) && multiset(rest) == multiset(pending) - multiset{e}
    requires e in multiset(pending) && e.hash !in txs
    ensures Covered(txs, rest) && !Synced(txs, pending)
  {
    forall h | h in txs ensures txs[h] in multiset(rest) {
      assert txs[h].hash == h;
    }
    if Synced(txs, pending) {
      SyncedIsExact(txs, pending);
    }
  }

  /** What ranks above every entry ranks above every live transaction. */
  lemma LiveBelow(txs: map<Hash, Tx>, pending: seq<Tx>, top: Tx, now: int)
    requires Covered(txs, pending) && forall t :: t in pending ==> At(now)(t) <= At(now)(top)
    ensures forall h :: h in txs ==> txs[h].Priority(now) <= top.Priority(now)
  {
    forall h | h in txs ensures txs[h].Priority(now) <= top.Priority(now) {
      assert txs[h] in multiset(pending);
      assert txs[h] in pending;
    }
  }

  lemma NothingCovered(txs: map<Hash, Tx>)
    requires Covered(txs, [])
    ensures txs == map[]
  {
    var none: seq<Tx> := [];
    assert forall h :: h in txs ==> txs[h] in multiset(none);
  }

  /** The map after deleting the listed hashes one by one. */
  ghost function Dropped(txs: map<Hash, Tx>, hashes: seq<Hash>): map<Hash, Tx>
    decreases |hashes|
  {
    if hashes == [] then txs else Dropped(txs, hashes[..|hashes| - 1]) - {hashes[|hashes| - 1]}
  }

  lemma DroppedStep(txs: map<Hash, Tx>, hashes: seq<Hash>, i: nat)
    requires i < |hashes|
    ensures Dropped(txs, hashes[..i + 1]) == Dropped(txs, hashes[..i]) - {hashes[i]}
  {
    assert hashes[..i + 1][..i] == hashes[..i];
  }

  lemma DroppedEnds(txs: map<Hash, Tx>, hashes: seq<Hash>)
    ensures Dropped(txs, hashes[..0]) == txs && Dropped(txs, hashes[..|hashes|]) == Dropped(txs, hashes)
  {
    assert hashes[..|hashes|] == hashes;
  }

  lemma {:induction false} DroppedIs(txs: map<Hash, Tx>, hashes: seq<Hash>)
    ensures Dropped(txs, hashes) == map h | h in txs && h !in hashes :: txs[h]
    decreases |hashes|
  {
    if hashes != [] {
      var n := |hashes| - 1;
      DroppedIs(txs, hashes[..n]);
      assert forall h :: h in hashes <==> h in hashes[..n] || h == hashes[n];
    }
  }

  lemma FewerCovered(txs: map<Hash, Tx>, hashes: seq<Hash>, pending: seq<Tx>)
    requires Filed(txs) && Covered(txs, pending)
    ensures Filed(Dropped(txs, hashes)) && Covered(Dropped(txs, hashes), pending)
  {
    DroppedIs(txs, hashes);
  }

  /** Without stale entries there is no surplus. */
  lemma SyncedHasNoSurplus(txs: map<Hash, Tx>, pending: seq<Tx>)
    requires Filed(txs) && Synced(txs, pending)
    ensures NoSurplus(txs, multiset(pending))
  {
    SyncedIsExact(txs, pending);
  }

  /** The rule of a full pool: above the last heap slot. */
  ghost predicate AboveLastSlot(h: seq<Tx>, priority: int, now: int) {
    h != [] && priority > h[|h| - 1].Priority(now)
  }

  /** What a level heap of live hashes hands out: the first, and from then on the rest from the back. */
  ghost function Rotated(h: seq<Tx>, n: nat): seq<Tx>
    decreases n
  {
    if n == 0 || h == [] then [] else [h[0]] + Rotated(BinaryHeap.Rotate(h), n - 1)
  }

  /** All entries tie and are of live hashes. */
  ghost predicate AllTie(h: seq<Tx>, txs: map<Hash, Tx>, now: int) {
    BinaryHeap.Level(h, At(now)) && AllLive(h, txs)
  }

  /** If all entries tie, what is handed out so far and what is still to come is as that says. */
  ghost predicate TiesGo(pending: seq<Tx>, txs: map<Hash, Tx>, now: int, result: seq<Tx>, copied: seq<Tx>, n: nat) {
    AllTie(pending, txs, now) ==>
      && AllTie(copied, txs, now) && |result| <= n
      && result + Rotated(copied, n - |result|) == Rotated(pending, n)
  }

  lemma TieRotates(h: seq<Tx>, txs: map<Hash, Tx>, now: int)
    requires AllTie(h, txs, now) && h != []
    ensures h[0].hash in txs && AllTie(BinaryHeap.Rotate(h), txs, now)
  {
    hide Tx.Priority, At;
    var r := BinaryHeap.Rotate(h);
    assert forall i :: 0 <= i < |r| ==> r[i] == h[if i == 0 then |h| - 1 else i];
    forall t | t in r ensures t in h {
    }
    assert h[0] in h;
  }

  lemma TieGoesOn(pending: seq<Tx>, txs: map<Hash, Tx>, now: int, result: seq<Tx>, copied: seq<Tx>, rest: seq<Tx>, n: nat)
    requires TiesGo(pending, txs, now, result, copied, n) && copied != [] && |result| < n
    requires BinaryHeap.Level(copied, At(now)) ==> rest == BinaryHeap.Rotate(copied)
    ensures TiesGo(pending, txs, now, if copied[0].hash in txs then result + [copied[0]] else result, rest, n)
  {
    hide AllLive, BinaryHeap.Level, BinaryHeap.Rotate;
    if AllTie(pending, txs, now) {
      TieRotates(copied, txs, now);
      assert result + Rotated(copied, n - |result|) == result + [copied[0]] + Rotated(rest, n - |result| - 1);
    }
  }

  lemma TieEnds(pending: seq<Tx>, txs: map<Hash, Tx>, now: int, result: seq<Tx>, copied: seq<Tx>, n: nat)
    requires TiesGo(pending, txs, now, result, copied, n) && |result| == n
    ensures AllTie(pending, txs, now) ==> result == Rotated(pending, n)
  {
    assert result + Rotated(copied, 0) == result;
  }

  class Mempool {
    const config: MempoolConfig
    const computeHash: Tx -> Hash
    ghost const phase: int
    var txs: map<Hash, Tx>
    var pending: seq<Tx>
    var now: int

    ghost predicate Valid()
      reads this
    {
      && 0 <= phase < SECOND
      && Filed(txs) && Covered(txs, pending)
      && AllStamped(pending, now, phase) && BinaryHeap.Ordered(pending, At(now))
    }

    constructor (config: MempoolConfig, computeHash: Tx -> Hash, now: int, ghost phase: int)
      requires 0 <= phase < SECOND
      ensures Valid() && txs == map[] && pending == [] && this.now == now && this.phase == phase
      ensures this.config == config && this.computeHash == computeHash
    {
      this.config, this.computeHash, this.now, this.phase := config, computeHash, now, phase;
      txs, pending := map[], [];
      new;
      pending := BinaryHeap.Init(pending, At(now));
    }

    /** Time passes while no call is running. */
    method Tick(later: int)
      requires Valid() && AllStamped(pending, later, phase)
      modifies `now
      ensures Valid() && now == later
    {
      OrderSurvivesTick(pending, now, later, phase);
      now := later;
    }

    /** `Validate` and the two limits checked before the lock is taken. */
    predicate Sound(tx: Tx)
    {
      && tx.hash == computeHash(tx) && tx.gasLimit != 0 && tx.from != ZERO_ADDRESS
      && tx.Size() <= config.maxTxSize && tx.gasPrice >= config.minGasPrice
    }

    /** Evicts an entry of least priority, found by scanning the whole slice. */
    method RemoveLowest() returns (ghost e: Tx)
      requires Valid() && pending != []
      modifies `txs, `pending
      ensures Valid() && e in multiset(old(pending)) && txs == old(txs) - {e.hash}
      ensures multiset(pending) == multiset(old(pending)) - multiset{e}
      ensures |txs| == |old(txs)| - if e.hash in old(txs) then 1 else 0
      ensures forall t :: t in old(pending) ==> e.Priority(now) <= t.Priority(now)
      ensures old(Synced(txs, pending)) ==>
                e.hash in old(txs) && old(txs)[e.hash] == e && Synced(txs, pending) && |txs| == |old(txs)| - 1
    {
      hide Filed, Covered, Synced, AllStamped, BinaryHeap.Ordered, Tx.Priority;
      var lowestIdx, lowestPriority := 0, U64 - 1;
      for i := 0 to |pending|
        invariant lowestIdx < |pending| && pending[lowestIdx].Priority(now) <= lowestPriority
        invariant forall j :: 0 <= j < i ==> lowestPriority <= pending[j].Priority(now)
      {
        if pending[i].Priority(now) < lowestPriority {
          lowestPriority := pending[i].Priority(now);
          lowestIdx := i;
        }
      }
      var tx := pending[lowestIdx];
      e := tx;
      assert tx in multiset(pending);
      var rest, removed := BinaryHeap.Remove(pending, At(now), lowestIdx);
      DropCovered(txs, pending, rest, tx);
      StampedFrom(rest, pending, now, phase);
      txs := txs - {tx.hash};
      pending := rest;
    }

    /**
     Accepts exactly the sound, new transactions for which there is room or whose priority is above
     that of the last heap slot; a refusal changes nothing.  A full pool evicts an entry of least
     priority, strictly below the new one; that frees a slot exactly when its hash is live, as it
     always is in a pool without stale entries.
     */
    method Add(tx: Tx) returns (error: Option<AddError>, ghost evicted: Option<Tx>)
      requires Valid() && now % SECOND == phase
      modifies `txs, `pending
      ensures Valid()
      ensures error.None? <==> Sound(tx) && tx.hash !in old(txs)
                               && (|old(txs)| < config.maxSize || AboveLastSlot(old(pending), tx.gasPrice, now))
      ensures error == Some(AlreadyExists) <==> Sound(tx) && tx.hash in old(txs)
      ensures error == Some(MempoolFull) <==> Sound(tx) && tx.hash !in old(txs)
                                              && |old(txs)| >= config.maxSize && !AboveLastSlot(old(pending), tx.gasPrice, now)
      ensures error == Some(BadHash) <==> tx.hash != computeHash(tx)
      ensures error == Some(ZeroGasLimit) <==> tx.hash == computeHash(tx) && tx.gasLimit == 0
      ensures error == Some(NoSender) <==>
                tx.hash == computeHash(tx) && tx.gasLimit > 0 && forall i :: 0 <= i < 20 ==> tx.from[i] == 0
      ensures error == Some(TooLarge) <==>
                && tx.hash == computeHash(tx) && tx.gasLimit > 0 && (exists i :: 0 <= i < 20 && tx.from[i] != 0)
                && 122 + |tx.data| > config.maxTxSize
      ensures error == Some(LowGasPrice) <==>
                && tx.hash == computeHash(tx) && tx.gasLimit > 0 && (exists i :: 0 <= i < 20 && tx.from[i] != 0)
                && 122 + |tx.data| <= config.maxTxSize && tx.gasPrice < config.minGasPrice
      ensures error == Some(MempoolFull) ==>
                old(pending) == [] || tx.gasPrice <= old(pending)[|old(pending)| - 1].Priority(now)
      ensures error.Some? ==> txs == old(txs) && pending == old(pending)
      ensures evicted.Some? ==> old(pending) != [] && tx.gasPrice > old(pending)[|old(pending)| - 1].Priority(now)
      ensures evicted.Some? <==> error.None? && |old(txs)| >= config.maxSize
      ensures error.None? && evicted.None? ==>
                && txs == old(txs)[tx.hash := tx.(receivedAt := now)]
                && multiset(pending) == multiset(old(pending)) + multiset{tx.(receivedAt := now)}
                && (!BinaryHeap.Outranks(old(pending) + [tx.(receivedAt := now)], At(now), |old(pending)|) ==>
                      pending == old(pending) + [tx.(receivedAt := now)])
      ensures error.None? ==> |txs| == |old(txs)| + if evicted.Some? && evicted.value.hash in old(txs) then 0 else 1
      ensures evicted.Some? ==>
                && evicted.value in multiset(old(pending))
                && multiset(pending) == multiset(old(pending)) - multiset{evicted.value} + multiset{tx.(receivedAt := now)}
                && txs == (old(txs) - {evicted.value.hash})[tx.hash := tx.(receivedAt := now)]
                && evicted.value.Priority(now) < tx.gasPrice
                && forall t :: t in old(pending) ==> evicted.value.Priority(now) <= t.Priority(now)
      ensures evicted.Some? && old(Synced(txs, pending)) ==>
                evicted.value.hash in old(txs) && old(txs)[evicted.value.hash] == evicted.value
      ensures old(Synced(txs, pending)) ==> Synced(txs, pending)
      ensures old(Synced(txs, pending)) && |old(txs)| <= config.maxSize ==> |txs| <= config.maxSize
    {
      hide Filed, Covered, Synced, AllStamped, BinaryHeap.Ordered, BinaryHeap.Outranks, At, Stamped, Tx.Priority;
      evicted := None;
      error := Checked(tx);
      if error.Some? {
        return;
      }
      var stored := tx.(receivedAt := now);
      FreshlyStamped(tx);
      if stored.hash in txs {
        return Some(AlreadyExists), None;
      }
      if |txs| >= config.maxSize {
        var ok;
        ok, evicted := MakeRoom(stored);
        if !ok {
          return Some(MempoolFull), None;
        }
      }
      Insert(stored);
    }

    lemma FreshlyStamped(tx: Tx)
      requires 0 <= phase < SECOND && now % SECOND == phase
      ensures var stored := tx.(receivedAt := now);
              Stamped(stored, now, phase) && stored.Priority(now) == tx.gasPrice
    {
    }

    /** On a full pool, evicts for a transaction that outranks the last heap slot. */
    method MakeRoom(stored: Tx) returns (ok: bool, ghost evicted: Option<Tx>)
      requires Valid()
      modifies `txs, `pending
      ensures Valid() && (ok <==> evicted.Some?)
      ensures ok <==> AboveLastSlot(old(pending), stored.Priority(now), now)
      ensures !ok ==> txs == old(txs) && pending == old(pending)
      ensures ok ==> txs == old(txs) - {evicted.value.hash} && evicted.value.Priority(now) < stored.Priority(now)
      ensures ok ==> evicted.value in multiset(old(pending))
                     && multiset(pending) == multiset(old(pending)) - multiset{evicted.value}
                     && |txs| == |old(txs)| - if evicted.value.hash in old(txs) then 1 else 0
      ensures ok ==> forall t :: t in old(pending) ==> evicted.value.Priority(now) <= t.Priority(now)
      ensures ok && old(Synced(txs, pending)) ==>
                evicted.value.hash in old(txs) && old(txs)[evicted.value.hash] == evicted.value
                && Synced(txs, pending) && |txs| == |old(txs)| - 1
    {
      hide Filed, Covered, Synced, AllStamped, BinaryHeap.Ordered, At, Tx.Priority;
      if |pending| > 0 {
        var lowest := pending[|pending| - 1];
        assert lowest in pending;
        if stored.Priority(now) > lowest.Priority(now) {
          ghost var e := RemoveLowest();
          return true, Some(e);
        }
      }
      return false, None;
    }

    /** The checks before the lock, in order. */
    method Checked(tx: Tx) returns (error: Option<AddError>)
      ensures error.None? <==> Sound(tx)
      ensures error != Some(AlreadyExists) && error != Some(MempoolFull)
      ensures error == Some(BadHash) <==> tx.hash != computeHash(tx)
      ensures error == Some(ZeroGasLimit) <==> tx.hash == computeHash(tx) && tx.gasLimit == 0
      ensures error == Some(NoSender) <==>
                tx.hash == computeHash(tx) && tx.gasLimit > 0 && forall i :: 0 <= i < 20 ==> tx.from[i] == 0
      ensures error == Some(TooLarge) <==>
                && tx.hash == computeHash(tx) && tx.gasLimit > 0 && (exists i :: 0 <= i < 20 && tx.from[i] != 0)
                && 122 + |tx.data| > config.maxTxSize
      ensures error == Some(LowGasPrice) <==>
                && tx.hash == computeHash(tx) && tx.gasLimit > 0 && (exists i :: 0 <= i < 20 && tx.from[i] != 0)
                && 122 + |tx.data| <= config.maxTxSize && tx.gasPrice < config.minGasPrice
    {
      if tx.hash != computeHash(tx) {
        return Some(BadHash);
      }
      if tx.gasLimit == 0 {
        return Some(ZeroGasLimit);
      }
      SenderGiven(tx.from);
      if tx.from == ZERO_ADDRESS {
        return Some(NoSender);
      }
      if tx.Size() > config.maxTxSize {
        return Some(TooLarge);
      }
      if tx.gasPrice < config.minGasPrice {
        return Some(LowGasPrice);
      }
      return None;
    }

    method Insert(stored: Tx)
      requires Valid() && stored.hash !in txs && Stamped(stored, now, phase)
      modifies `txs, `pending
      ensures Valid() && txs == old(txs)[stored.hash := stored] && |txs| == |old(txs)| + 1
      ensures multiset(pending) == multiset(old(pending)) + multiset{stored}
      ensures !BinaryHeap.Outranks(old(pending) + [stored], At(now), |old(pending)|) ==> pending == old(pending) + [stored]
      ensures old(Synced(txs, pending)) ==> Synced(txs, pending)
    {
      hide BinaryHeap.Ordered, BinaryHeap.Outranks, At, Tx.Priority, Stamped;
      var more := BinaryHeap.Push(pending, At(now), stored);
      StampedFrom(more, pending + [stored], now, phase);
      txs := txs[stored.hash := stored];
      pending := more;
    }

    /** Lazy: the heap entry stays behind. */
    method Remove(hash: Hash) returns (found: bool)
      requires Valid()
      modifies `txs
      ensures Valid() && found == (hash in old(txs)) && txs == old(txs) - {hash}
    {
      if hash !in txs {
        return false;
      }
      txs := txs - {hash};
      return true;
    }

    /** A new heap of the live transactions, in whatever order the map yields them. */
    method RebuildHeap()
      requires 0 <= phase < SECOND && Filed(txs) && Covered(txs, pending) && AllStamped(pending, now, phase)
      modifies `pending
      ensures Valid() && Synced(txs, pending) && forall t :: t in multiset(pending) ==> t in multiset(old(pending))
    {
      hide Filed, AllStamped, BinaryHeap.Ordered, At;
      var newHeap: seq<Tx> := [];
      var rest := txs.Keys;
      while rest != {}
        invariant rest <= txs.Keys && |newHeap| == |txs| - |rest|
        invariant forall h :: h in txs && h !in rest ==> txs[h] in multiset(newHeap)
        invariant forall t :: t in multiset(newHeap) ==> t in multiset(pending)
        decreases |rest|
      {
        var hash :| hash in rest;
        newHeap := newHeap + [txs[hash]];
        rest := rest - {hash};
      }
      newHeap := BinaryHeap.Init(newHeap, At(now));
      StampedFrom(newHeap, pending, now, phase);
      pending := newHeap;
    }

    /** Removes the listed transactions, and rebuilds the heap when there were many of them. */
    method RemoveBatch(hashes: seq<Hash>) returns (removed: nat)
      requires Valid()
      modifies `txs, `pending
      ensures Valid() && removed == |old(txs)| - |txs|
      ensures txs == map h | h in old(txs) && h !in hashes :: old(txs)[h]
      ensures if removed > 100 || removed > |txs| / 10 then Synced(txs, pending) else pending == old(pending)
      ensures forall t :: t in multiset(pending) ==> t in multiset(old(pending))
      ensures removed <= |hashes| && (removed == 0 ==> txs == old(txs))
    {
      hide Filed, Covered, Synced, AllStamped, BinaryHeap.Ordered, At, Dropped;
      FewerCovered(txs, hashes, pending);
      removed := DeleteAll(hashes);
      if removed > 100 || removed > |txs| / 10 {
        RebuildHeap();
      }
      DroppedIs(old(txs), hashes);
    }

    method DeleteAll(hashes: seq<Hash>) returns (removed: nat)
      modifies `txs
      ensures txs == Dropped(old(txs), hashes) && removed == |old(txs)| - |txs|
      ensures removed <= |hashes| && (removed == 0 ==> txs == old(txs))
    {
      hide Dropped;
      removed := 0;
      DroppedEnds(txs, hashes);
      for i := 0 to |hashes|
        invariant txs == Dropped(old(txs), hashes[..i]) && removed == |old(txs)| - |txs|
        invariant removed <= i && (removed == 0 ==> txs == old(txs))
      {
        DroppedStep(old(txs), hashes, i);
        if hashes[i] in txs {
          txs := txs - {hashes[i]};
          removed := removed + 1;
        } else {
          assert txs - {hashes[i]} == txs;
        }
      }
    }

    /** Removes what has waited longer than the lifetime, and then rebuilds the heap. */
    method RemoveExpired()
      requires Valid()
      modifies `txs, `pending
      ensures Valid()
      ensures txs == map h | h in old(txs) && now - old(txs)[h].receivedAt <= config.txTTL :: old(txs)[h]
      ensures |txs| <= |old(txs)| && if txs == old(txs) then pending == old(pending) else Synced(txs, pending)
      ensures forall t :: t in multiset(pending) ==> t in multiset(old(pending))
    {
      hide Filed, Covered, Synced, AllStamped, BinaryHeap.Ordered, At, Dropped;
      var expired := Expired();
      FewerCovered(txs, expired, pending);
      DroppedIs(txs, expired);
      var removed := DeleteAll(expired);
      if |expired| > 0 {
        assert expired[0] in old(txs) && expired[0] !in txs;
        RebuildHeap();
      } else {
        assert txs == old(txs);
      }
    }

    method Expired() returns (expired: seq<Hash>)
      ensures forall h :: h in expired <==> h in txs && now - txs[h].receivedAt > config.txTTL
    {
      expired := [];
      var rest := txs.Keys;
      while rest != {}
        invariant rest <= txs.Keys
        invariant forall h :: h in expired <==> h in txs && h !in rest && now - txs[h].receivedAt > config.txTTL
        decreases |rest|
      {
        var hash :| hash in rest;
        if now - txs[hash].receivedAt > config.txTTL {
          expired := expired + [hash];
        }
        rest := rest - {hash};
      }
    }

    /**
     Hands out and removes a live hash whose entry no live transaction outranks, dropping stale
     entries on the way; nil only from an empty pool.
     */
    method PopHighestPriority() returns (best: Option<Tx>)
      requires Valid()
      modifies `txs, `pending
      ensures Valid()
      ensures best.None? ==> old(txs) == map[] && txs == map[] && pending == []
      ensures best.Some? ==> best.value.hash in old(txs) && txs == old(txs) - {best.value.hash}
      ensures best.Some? ==> forall h :: h in old(txs) ==> old(txs)[h].Priority(now) <= best.value.Priority(now)
      ensures multiset(pending) <= multiset(old(pending)) && (best.Some? ==> |pending| < |old(pending)|)
      ensures best.Some? && old(Synced(txs, pending)) ==>
                old(txs)[best.value.hash] == best.value && Synced(txs, pending)
    {
      hide Filed, Covered, Synced, AllStamped, BinaryHeap.Ordered, BinaryHeap.Level, BinaryHeap.Rotate, At;
      while |pending| > 0
        invariant Valid() && txs == old(txs) && (old(Synced(txs, pending)) ==> pending == old(pending))
        invariant multiset(pending) <= multiset(old(pending)) && |pending| <= |old(pending)|
        decreases |pending|
      {
        ghost var before := pending;
        var rest, tx := BinaryHeap.Pop(pending, At(now));
        StampedFrom(rest, pending, now, phase);
        LiveBelow(txs, pending, tx, now);
        pending := rest;
        if tx.hash in txs {
          DropCovered(txs, before, rest, tx);
          txs := txs - {tx.hash};
          return Some(tx);
        }
        StaleDropped(txs, before, rest, tx);
      }
      NothingCovered(txs);
      return None;
    }

    /**
     Pops a copy of the heap, passing over stale entries without counting them, until the limit is
     reached.  The highest live priorities are handed out exactly when the surplus entries are
     matched; whether they are the live transactions themselves, none twice, is decided but for ties.
     */
    method GetPending(limit: int) returns (result: seq<Tx>)
      requires Valid()
      ensures limit <= 0 || limit > |txs| ==> |result| == |txs|
      ensures 0 < limit <= |txs| ==> |result| == limit
      ensures forall i, j :: 0 <= i < j < |result| ==> result[i].Priority(now) >= result[j].Priority(now)
      ensures forall h, t :: h in txs && txs[h] !in result && t in result ==> txs[h].Priority(now) <= t.Priority(now)
      ensures Synced(txs, pending) ==>
                && (forall t :: t in result ==> t.hash in txs && txs[t.hash] == t)
                && forall i, j :: 0 <= i < j < |result| ==> result[i].hash != result[j].hash
      ensures HandedOut(txs, multiset(pending), result, now)
      ensures RanksRight(txs, result, now) <==> SurplusMatched(txs, multiset(pending), |result|, now)
      ensures SurplusOutranked(txs, multiset(pending), |result|, now) ==> LiveOnce(txs, result)
      ensures LiveOnce(txs, result) ==> SurplusMatched(txs, multiset(pending), |result|, now)
      ensures AllTie(pending, txs, now) ==> result == Rotated(pending, |result|)
    {
      hide Filed, Covered, AllStamped, BinaryHeap.Ordered, Descends, NoneAbove, AllLive, Accounted, HandedOut;
      hide RanksRight, LiveOnce, SurplusMatched, SurplusOutranked, TiesGo, AllTie, Rotated, BinaryHeap.Level, BinaryHeap.Rotate;
      var n := if limit <= 0 || limit > |txs| then |txs| else limit;
      var heapCopy := BinaryHeap.Init(pending, At(now));
      result := [];
      NothingDrawn(heapCopy, n);
      while |result| < n && |heapCopy| > 0
        invariant |result| <= n && BinaryHeap.Ordered(heapCopy, At(now))
        invariant Descends(result, now) && NoneAbove(heapCopy, result, now) && AllLive(result, txs)
        invariant Accounted(txs, multiset(pending), multiset(result), multiset(heapCopy))
        invariant TiesGo(pending, txs, now, result, heapCopy, n)
        decreases |heapCopy|
      {
        ghost var before := heapCopy;
        var tx;
        heapCopy, tx := Draw(result, heapCopy);
        TieGoesOn(pending, txs, now, result, before, heapCopy, n);
        if tx.hash in txs {
          result := result + [tx];
        }
      }
      if |result| < n {
        AllDrawn(txs, pending, result, heapCopy);
      }
      Handed(result, heapCopy);
      TieEnds(pending, txs, now, result, heapCopy, n);
      RanksRightIff(txs, multiset(pending), result, now);
      LiveOnceHalves(txs, multiset(pending), result, now);
      LeftOutIsBelow(txs, multiset(pending), result, now);
      if Synced(txs, pending) {
        SyncedOnce(result);
      }
    }

    lemma SyncedOnce(result: seq<Tx>)
      requires Valid() && Synced(txs, pending)
      requires SurplusOutranked(txs, multiset(pending), |result|, now) ==> LiveOnce(txs, result)
      ensures forall t :: t in result ==> t.hash in txs && txs[t.hash] == t
      ensures forall i, j :: 0 <= i < j < |result| ==> result[i].hash != result[j].hash
    {
      hide Filed, Synced, Surplus, AllStamped, BinaryHeap.Ordered;
      SyncedHasNoSurplus(txs, pending);
    }

    lemma NothingDrawn(heapCopy: seq<Tx>, n: nat)
      requires multiset(heapCopy) == multiset(pending) && (BinaryHeap.Level(pending, At(now)) ==> heapCopy == pending)
      ensures TiesGo(pending, txs, now, [], heapCopy, n)
      ensures Descends([], now) && NoneAbove(heapCopy, [], now) && AllLive([], txs)
      ensures Accounted(txs, multiset(pending), multiset([]), multiset(heapCopy))
    {
      hide BinaryHeap.Level, Rotated, At;
      assert [] + Rotated(heapCopy, n) == Rotated(heapCopy, n);
    }

    method Draw(ghost result: seq<Tx>, heapCopy: seq<Tx>) returns (rest: seq<Tx>, tx: Tx)
      requires BinaryHeap.Ordered(heapCopy, At(now)) && |heapCopy| > 0
      requires Descends(result, now) && NoneAbove(heapCopy, result, now) && AllLive(result, txs)
      requires Accounted(txs, multiset(pending), multiset(result), multiset(heapCopy))
      ensures |rest| < |heapCopy| && BinaryHeap.Ordered(rest, At(now))
      ensures var result' := if tx.hash in txs then result + [tx] else result;
              && Descends(result', now) && NoneAbove(rest, result', now) && AllLive(result', txs)
              && Accounted(txs, multiset(pending), multiset(result'), multiset(rest))
      ensures tx == heapCopy[0] && (BinaryHeap.Level(heapCopy, At(now)) ==> rest == BinaryHeap.Rotate(heapCopy))
    {
      hide BinaryHeap.Ordered, BinaryHeap.Level, BinaryHeap.Rotate, Accounted, Descends, NoneAbove;
      rest, tx := BinaryHeap.Pop(heapCopy, At(now));
      DrawOne(txs, multiset(pending), multiset(result), multiset(heapCopy), tx);
      DrawInOrder(heapCopy, rest, result, tx, now);
      assert multiset(result + [tx]) == multiset(result) + multiset{tx};
    }

    lemma Handed(result: seq<Tx>, heapCopy: seq<Tx>)
      requires Valid() && Descends(result, now) && NoneAbove(heapCopy, result, now) && AllLive(result, txs)
      requires Accounted(txs, multiset(pending), multiset(result), multiset(heapCopy))
      ensures HandedOut(txs, multiset(pending), result, now) && AllEntered(txs, multiset(pending))
    {
      hide NoneAbove, Accounted, AllStamped, BinaryHeap.Ordered, Descends;
      LeftOutBelow(txs, pending, result, heapCopy, now);
    }
  }

  // ---------------------------------------------------------------------------------------
  // Where the pool answers otherwise than its comments expect.

  ghost predicate AboveSome(h: seq<Tx>, priority: int, now: int) {
    exists t :: t in h && priority > t.Priority(now)
  }

  /** The rule admits what outranks some entry if and only if the last slot is of least priority. */
  lemma LastSlotRuleIff(h: seq<Tx>, now: int)
    requires h != []
    ensures (forall p: int :: AboveLastSlot(h, p, now) <==> AboveSome(h, p, now))
            <==> forall t :: t in h ==> h[|h| - 1].Priority(now) <= t.Priority(now)
  {
    hide Tx.Priority;
    var last := h[|h| - 1];
    assert last in h;
    if forall p: int :: AboveLastSlot(h, p, now) <==> AboveSome(h, p, now) {
      assert !AboveSome(h, last.Priority(now), now) by {
        assert !AboveLastSlot(h, last.Priority(now), now);
      }
    }
  }

  predicate Acceptable(tx: Tx, computeHash: Tx -> Hash) {
    tx.hash == computeHash(tx) && tx.from != ZERO_ADDRESS && tx.gasLimit > 0
  }

  /** As stored at time zero. */
  function Stored(tx: Tx): Tx {
    tx.(receivedAt := 0)
  }

  lemma GasPriceAtZero(tx: Tx)
    ensures Stamped(Stored(tx), 0, 0) && Stored(tx).Priority(0) == tx.gasPrice
  {
  }

  /** A pool at time zero that holds transactions of at most this size. */
  ghost predicate AtZero(m: Mempool, computeHash: Tx -> Hash, maxSize: int, maxTxSize: int)
    reads m
  {
    m.Valid() && m.now == 0 && m.phase == 0 && m.computeHash == computeHash && m.config == MempoolConfig(maxSize, maxTxSize, 0, 0)
  }

  /** An addition with room to spare; one that does not outrank the root, its parent, stays in the last slot. */
  method AddWithRoom(m: Mempool, tx: Tx, ghost computeHash: Tx -> Hash, ghost maxSize: int, ghost maxTxSize: int)
    requires AtZero(m, computeHash, maxSize, maxTxSize) && Acceptable(tx, computeHash) && tx.Size() <= maxTxSize
    requires tx.hash !in m.txs && |m.txs| < maxSize
    modifies m
    ensures AtZero(m, computeHash, maxSize, maxTxSize)
    ensures m.txs == old(m.txs)[tx.hash := Stored(tx)] && |m.txs| == |old(m.txs)| + 1
    ensures multiset(m.pending) == old(multiset(m.pending)) + multiset{Stored(tx)}
    ensures |old(m.pending)| <= 2 && (old(m.pending) == [] || Stored(tx).Priority(0) <= old(m.pending)[0].Priority(0)) ==>
              m.pending == old(m.pending) + [Stored(tx)]
  {
    hide Mempool.Valid, Tx.Priority, Synced;
    var error, evicted := m.Add(tx);
    assert BinaryHeap.Parent(0) == BinaryHeap.Parent(1) == BinaryHeap.Parent(2) == 0;
  }

  /** Three additions, the second one the lowest and the first the highest, stay in that order. */
  method FillThree(computeHash: Tx -> Hash, a: Tx, b: Tx, c: Tx, maxTxSize: int) returns (m: Mempool)
    requires Acceptable(a, computeHash) && Acceptable(b, computeHash) && Acceptable(c, computeHash)
    requires a.hash != b.hash && a.hash != c.hash && b.hash != c.hash
    requires a.Size() <= maxTxSize && b.Size() <= maxTxSize && c.Size() <= maxTxSize
    requires b.gasPrice < c.gasPrice <= a.gasPrice
    ensures fresh(m) && AtZero(m, computeHash, 3, maxTxSize)
    ensures |m.txs| == 3 && m.txs.Keys == {a.hash, b.hash, c.hash} && m.txs[b.hash] == Stored(b)
    ensures m.pending == [Stored(a), Stored(b), Stored(c)]
  {
    hide Mempool.Valid, Tx.Priority, Stored, Acceptable;
    m := new Mempool(MempoolConfig(3, maxTxSize, 0, 0), computeHash, 0, 0);
    GasPriceAtZero(a);
    GasPriceAtZero(b);
    GasPriceAtZero(c);
    AddWithRoom(m, a, computeHash, 3, maxTxSize);
    AddWithRoom(m, b, computeHash, 3, maxTxSize);
    AddWithRoom(m, c, computeHash, 3, maxTxSize);
  }

  /**
   A full pool refuses a transaction and keeps one that it outranks: with the lowest of three in the
   middle slot, anything between it and the last slot is turned away.
   */
  method RefusedAboveAnother(computeHash: Tx -> Hash, a: Tx, b: Tx, c: Tx, x: Tx) returns (m: Mempool, error: Option<AddError>)
    requires Acceptable(a, computeHash) && Acceptable(b, computeHash) && Acceptable(c, computeHash) && Acceptable(x, computeHash)
    requires a.hash != b.hash && a.hash != c.hash && b.hash != c.hash && x.hash !in {a.hash, b.hash, c.hash}
    requires b.gasPrice < x.gasPrice <= c.gasPrice <= a.gasPrice
    ensures error == Some(MempoolFull) && x.hash !in m.txs
    ensures b.hash in m.txs && m.txs[b.hash].Priority(m.now) < x.(receivedAt := m.now).Priority(m.now)
  {
    hide Mempool.Valid, Tx.Priority, Synced;
    m := FillThree(computeHash, a, b, c, a.Size() + b.Size() + c.Size() + x.Size());
    GasPriceAtZero(b);
    GasPriceAtZero(c);
    GasPriceAtZero(x);
    ghost var evicted;
    error, evicted := m.Add(x);
  }

  /** Of two equal entries and a lower one, the two best are the equal ones. */
  lemma BestTwo(txs: map<Hash, Tx>, pending: seq<Tx>, result: seq<Tx>, a: Tx, b: Tx, now: int)
    requires multiset(pending) == multiset{a, a, b} && a != b && a.Priority(now) > b.Priority(now)
    requires |result| == 2 && a.hash in txs && HandedOut(txs, multiset(pending), result, now)
    ensures forall t :: t in result ==> t == a
  {
    hide Tx.Priority;
    assert result == [result[0], result[1]] && multiset(result) == multiset{result[0], result[1]};
    assert result[0] in multiset(result) && result[1] in multiset(result);
  }

  /** Add, remove, add again: two entries for one live transaction. */
  method AddTwice(computeHash: Tx -> Hash, a: Tx, maxTxSize: int) returns (m: Mempool)
    requires Acceptable(a, computeHash) && a.Size() <= maxTxSize
    ensures fresh(m) && AtZero(m, computeHash, 2, maxTxSize)
    ensures m.txs == map[a.hash := Stored(a)] && m.pending == [Stored(a), Stored(a)]
  {
    hide Mempool.Valid, Tx.Priority, Stored, Acceptable;
    m := new Mempool(MempoolConfig(2, maxTxSize, 0, 0), computeHash, 0, 0);
    AddWithRoom(m, a, computeHash, 2, maxTxSize);
    assert m.txs == map[a.hash := Stored(a)];
    var ok := m.Remove(a.hash);
    assert m.txs == map[];
    AddWithRoom(m, a, computeHash, 2, maxTxSize);
  }

  /** And add another: three entries for two live transactions. */
  method Readd(computeHash: Tx -> Hash, a: Tx, b: Tx) returns (m: Mempool)
    requires Acceptable(a, computeHash) && Acceptable(b, computeHash) && a.hash != b.hash
    ensures fresh(m) && m.Valid() && m.now == 0 && m.txs == map[a.hash := Stored(a), b.hash := Stored(b)]
    ensures multiset(m.pending) == multiset{Stored(a), Stored(a), Stored(b)}
    ensures b.gasPrice <= a.gasPrice ==> m.pending == [Stored(a), Stored(a), Stored(b)]
  {
    hide Mempool.Valid, Tx.Priority, Stored, Acceptable, Stamped;
    GasPriceAtZero(a);
    GasPriceAtZero(b);
    var maxTxSize := a.Size() + b.Size();
    m := AddTwice(computeHash, a, maxTxSize);
    AddWithRoom(m, b, computeHash, 2, maxTxSize);
  }

  /**
   A removed transaction added again before a rebuild has two heap entries of one live hash, and
   GetPending hands it out twice in the place of another.
   */
  method ReaddedHidesAnother(computeHash: Tx -> Hash, a: Tx, b: Tx) returns (m: Mempool, result: seq<Tx>)
    requires Acceptable(a, computeHash) && Acceptable(b, computeHash) && a.hash != b.hash
    requires b.gasPrice < a.gasPrice
    ensures b.hash in m.txs && |result| == |m.txs| && forall t :: t in result ==> t.hash == a.hash
  {
    hide Mempool.Valid, Tx.Priority, Stamped, HandedOut, RanksRight, LiveOnce, SurplusMatched, SurplusOutranked;
    m := Readd(computeHash, a, b);
    GasPriceAtZero(a);
    GasPriceAtZero(b);
    result := m.GetPending(0);
    BestTwo(m.txs, m.pending, result, Stored(a), Stored(b), m.now);
  }

  method AddBoth(computeHash: Tx -> Hash, a: Tx, b: Tx, maxTxSize: int) returns (m: Mempool)
    requires Acceptable(a, computeHash) && Acceptable(b, computeHash) && a.hash != b.hash && a.gasPrice == b.gasPrice
    requires a.Size() <= maxTxSize && b.Size() <= maxTxSize
    ensures fresh(m) && AtZero(m, computeHash, 2, maxTxSize) && |m.txs| == 2
    ensures m.txs == map[a.hash := Stored(a), b.hash := Stored(b)] && m.pending == [Stored(a), Stored(b)]
  {
    hide Mempool.Valid, Tx.Priority, Stored, Acceptable;
    GasPriceAtZero(a);
    GasPriceAtZero(b);
    m := new Mempool(MempoolConfig(2, maxTxSize, 0, 0), computeHash, 0, 0);
    AddWithRoom(m, a, computeHash, 2, maxTxSize);
    AddWithRoom(m, b, computeHash, 2, maxTxSize);
  }

  /** The same with the other one added in between: the entries stand in another order. */
  method ReaddLater(computeHash: Tx -> Hash, a: Tx, b: Tx) returns (m: Mempool)
    requires Acceptable(a, computeHash) && Acceptable(b, computeHash) && a.hash != b.hash && a.gasPrice == b.gasPrice
    ensures fresh(m) && m.Valid() && m.now == 0 && m.txs == map[a.hash := Stored(a), b.hash := Stored(b)]
    ensures m.pending == [Stored(a), Stored(b), Stored(a)]
  {
    hide Mempool.Valid, Tx.Priority, Stored, Acceptable;
    GasPriceAtZero(a);
    GasPriceAtZero(b);
    var maxTxSize := a.Size() + b.Size();
    m := AddBoth(computeHash, a, b, maxTxSize);
    OneLess(m.txs, a.hash);
    var ok := m.Remove(a.hash);
    assert m.txs == map[b.hash := Stored(b)];
    AddWithRoom(m, a, computeHash, 2, maxTxSize);
  }

  lemma TieOfThree(x: Tx, y: Tx, z: Tx, txs: map<Hash, Tx>, now: int)
    requires x.hash in txs && y.hash in txs && z.hash in txs
    requires x.Priority(now) == y.Priority(now) == z.Priority(now)
    ensures AllTie([x, y, z], txs, now) && Rotated([x, y, z], 2) == [x, z]
  {
    assert BinaryHeap.Rotate([x, y, z]) == [z, y];
    assert Rotated([z, y], 1) == [z];
  }

  /**
   Where GetPending's contract leaves ties open they are open: two pools with the same transactions
   and the same entries, all of one priority, and one hands out both transactions, the other one twice.
   */
  method LayoutDecides(computeHash: Tx -> Hash, a: Tx, b: Tx)
    returns (early: Mempool, late: Mempool, right: seq<Tx>, wrong: seq<Tx>)
    requires Acceptable(a, computeHash) && Acceptable(b, computeHash) && a.hash != b.hash && a.gasPrice == b.gasPrice
    ensures early.txs == late.txs && multiset(early.pending) == multiset(late.pending) && early.now == late.now
    ensures |right| == |early.txs| && LiveOnce(early.txs, right)
    ensures |wrong| == |late.txs| && forall t :: t in wrong ==> t == Stored(a)
  {
    hide Mempool.Valid, Tx.Priority, Stamped, HandedOut, RanksRight, SurplusMatched, SurplusOutranked, Acceptable, AllTie, Rotated;
    early := Readd(computeHash, a, b);
    late := ReaddLater(computeHash, a, b);
    GasPriceAtZero(a);
    GasPriceAtZero(b);
    TieOfThree(Stored(a), Stored(a), Stored(b), early.txs, 0);
    TieOfThree(Stored(a), Stored(b), Stored(a), late.txs, 0);
    right := early.GetPending(0);
    wrong := late.GetPending(0);
  }
}
