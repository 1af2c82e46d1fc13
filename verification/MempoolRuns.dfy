/**
 Whole runs of the mempool: any sequence of its calls, with time passing between them.  Lazy removal
 leaves stale heap entries, and evicting one of those frees no slot, so a run can overfill the pool;
 by how much is bounded by the removals.
 */
module MempoolRuns {
  import opened Common
  import opened Transactions
  import opened Handouts
  import opened Mempools
  import BinaryHeap

  datatype PoolOp =
    | TickOp(later: int)
    | AddOp(tx: Tx)
    | RemoveOp(hash: Hash)
    | RemoveBatchOp(hashes: seq<Hash>)
    | RemoveExpiredOp
    | PopOp

  function Clock(start: int, ops: seq<PoolOp>): int
    decreases |ops|
  {
    if ops == [] then start
    else if ops[|ops| - 1].TickOp? then ops[|ops| - 1].later
    else Clock(start, ops[..|ops| - 1])
  }

  /**
   The clock runs forward up to a horizon, additions happen at one phase of the second, and what is
   added has a priority that fits 64 bits until the horizon.
   */
  ghost predicate InTime(op: PoolOp, now: int, phase: int, horizon: int) {
    match op
    case TickOp(later) => now <= later <= horizon
    case AddOp(tx) => now % SECOND == phase && Fits(tx.(receivedAt := now), horizon)
    case _ => true
  }

  ghost predicate AllInTime(ops: seq<PoolOp>, start: int, phase: int, horizon: int) {
    && start <= horizon && 0 <= phase < SECOND
    && forall i :: 0 <= i < |ops| ==> InTime(ops[i], Clock(start, ops[..i]), phase, horizon)
  }

  /** How many hashes a lazy removal names. */
  function Names(op: PoolOp): nat {
    match op
    case RemoveOp(_) => 1
    case RemoveBatchOp(hashes) => |hashes|
    case _ => 0
  }

  function Named(ops: seq<PoolOp>): nat
    decreases |ops|
  {
    if ops == [] then 0 else Named(ops[..|ops| - 1]) + Names(ops[|ops| - 1])
  }

  /** The heap exceeds neither the capacity nor the live transactions by more than `slack` entries. */
  ghost predicate Within(m: Mempool, slack: nat)
    reads m
  {
    && |m.pending| <= |m.txs| + slack
    && (m.config.maxSize >= 0 ==> |m.pending| <= m.config.maxSize + slack)
  }

  lemma CoverIsLarger(m: Mempool)
    requires m.Valid()
    ensures |m.txs| <= |m.pending|
  {
    AllLiveIn(m.txs, m.pending);
  }

  /** One call keeps this true up to the horizon. */
  ghost predicate Running(m: Mempool, horizon: int)
    reads m
  {
    m.Valid() && m.now <= horizon && AllStamped(m.pending, horizon, m.phase)
  }

  /** Entries that fit now and at the horizon fit in between. */
  lemma FitsInBetween(m: Mempool, later: int, horizon: int)
    requires Running(m, horizon) && m.now <= later <= horizon
    ensures AllStamped(m.pending, later, m.phase)
  {
    forall i | 0 <= i < |m.pending| ensures Stamped(m.pending[i], later, m.phase) {
      assert Stamped(m.pending[i], m.now, m.phase) && Stamped(m.pending[i], horizon, m.phase);
    }
  }

  method RunAdd(m: Mempool, tx: Tx, ghost horizon: int, ghost slack: nat)
    requires Running(m, horizon) && InTime(AddOp(tx), m.now, m.phase, horizon) && Within(m, slack)
    modifies m
    ensures Running(m, horizon) && m.now == old(m.now) && Within(m, slack)
  {
    hide Mempool.Valid, BinaryHeap.Outranks, Tx.Priority, Fits, Synced, At, AboveLastSlot;
    ghost var before, stored := m.pending, tx.(receivedAt := m.now);
    ghost var more := before + [stored];
    assert m.phase == m.now % SECOND && AllStamped(more, horizon, m.phase);
    assert multiset(more) == multiset(before) + multiset{stored};
    assert |multiset(m.pending)| == |m.pending|;
    var error, evicted := m.Add(tx);
    assert |multiset(m.pending)| == |m.pending|;
    StampedFrom(m.pending, more, horizon, m.phase);
  }

  method RunRemoval(m: Mempool, op: PoolOp, ghost horizon: int, ghost slack: nat)
    requires Running(m, horizon) && Within(m, slack) && !op.TickOp? && !op.AddOp?
    modifies m
    ensures Running(m, horizon) && m.now == old(m.now) && Within(m, slack + Names(op))
  {
    hide Mempool.Valid, AllStamped, Tx.Priority, Covered;
    CoverIsLarger(m);
    ghost var live, before := m.txs, m.pending;
    match op {
    case RemoveOp(hash) =>
      OneLess(live, hash);
      var found := m.Remove(hash);
    case RemoveBatchOp(hashes) =>
      var removed := m.RemoveBatch(hashes);
    case RemoveExpiredOp =>
      m.RemoveExpired();
    case PopOp =>
      var best := m.PopHighestPriority();
      if best.Some? {
        OneLess(live, best.value.hash);
      }
    }
    assert forall t :: t in multiset(m.pending) ==> t in multiset(before);
    StampedFrom(m.pending, before, horizon, m.phase);
  }

  method Run(m: Mempool, op: PoolOp, ghost horizon: int, ghost slack: nat)
    requires Running(m, horizon) && InTime(op, m.now, m.phase, horizon) && Within(m, slack)
    modifies m
    ensures Running(m, horizon) && Within(m, slack + Names(op))
    ensures m.now == if op.TickOp? then op.later else old(m.now)
  {
    hide Mempool.Valid, AllStamped;
    match op
    case TickOp(later) =>
      FitsInBetween(m, later, horizon);
      m.Tick(later);
    case AddOp(tx) =>
      RunAdd(m, tx, horizon, slack);
    case _ =>
      RunRemoval(m, op, horizon, slack);
  }

  /**
   In every run the heap holds at most as many entries beyond the live transactions, and beyond the
   capacity, as hashes were named in removals; so without those there are no stale entries and the
   pool never exceeds its capacity.
   */
  method RunPool(config: MempoolConfig, computeHash: Tx -> Hash, start: int, ops: seq<PoolOp>, ghost phase: int, ghost horizon: int)
    returns (m: Mempool)
    requires AllInTime(ops, start, phase, horizon)
    ensures fresh(m) && m.Valid() && m.config == config && m.now == Clock(start, ops)
    ensures |m.txs| <= |m.pending| <= |m.txs| + Named(ops)
    ensures config.maxSize >= 0 ==> |m.txs| <= config.maxSize + Named(ops)
    ensures Named(ops) == 0 ==> Synced(m.txs, m.pending)
  {
    hide Mempool.Valid, AllStamped, Running, Within, Synced, InTime;
    m := new Mempool(config, computeHash, start, phase);
    Opened(m, horizon);
    for i := 0 to |ops|
      invariant fresh(m) && m.config == config && m.phase == phase && m.now == Clock(start, ops[..i])
      invariant Running(m, horizon) && Within(m, Named(ops[..i]))
    {
      assert ops[..i + 1][..i] == ops[..i];
      Run(m, ops[i], horizon, Named(ops[..i]));
    }
    assert ops[..|ops|] == ops;
    Closed(m, horizon, Named(ops));
  }

  lemma Opened(m: Mempool, horizon: int)
    requires m.Valid() && m.now <= horizon && m.pending == [] && m.txs == map[]
    ensures Running(m, horizon) && Within(m, 0)
  {
  }

  lemma Closed(m: Mempool, horizon: int, slack: nat)
    requires Running(m, horizon) && Within(m, slack)
    ensures m.Valid() && |m.txs| <= |m.pending| <= |m.txs| + slack
    ensures m.config.maxSize >= 0 ==> |m.txs| <= m.config.maxSize + slack
    ensures slack == 0 ==> Synced(m.txs, m.pending)
  {
    CoverIsLarger(m);
  }

  // ---------------------------------------------------------------------------------------
  // The bound is attained.

  /** Sound transactions of rising gas prices, as stored at time zero. */
  ghost predicate Rising(txs: seq<Tx>, computeHash: Tx -> Hash, maxTxSize: int) {
    && (forall i :: 0 <= i < |txs| ==> Acceptable(txs[i], computeHash) && Stored(txs[i]) == txs[i] && txs[i].Size() <= maxTxSize)
    && forall i, j :: 0 <= i < j < |txs| ==> txs[i].gasPrice < txs[j].gasPrice && txs[i].hash != txs[j].hash
  }

  /** The first `gone` are evicted from the heap, and of all up to `k` those from `n` on are live. */
  ghost predicate Filled(live: map<Hash, Tx>, pending: multiset<Tx>, txs: seq<Tx>, n: nat, gone: nat, k: nat) {
    && gone <= k <= |txs| && pending == multiset(txs[gone..k]) && |live| == (if k <= n then 0 else k - n)
    && forall h :: h in live ==> exists i :: n <= i < k && txs[i].hash == h
  }

  /** The least of the entries is the first, and a later one is above them all. */
  lemma LeastIsFirst(txs: seq<Tx>, computeHash: Tx -> Hash, maxTxSize: int, gone: nat, k: nat, t: Tx)
    requires Rising(txs, computeHash, maxTxSize) && gone <= k < |txs| && t in multiset(txs[gone..k])
    ensures gone < k && txs[gone].Priority(0) <= t.Priority(0) < txs[k].Priority(0)
    ensures t.Priority(0) <= txs[gone].Priority(0) ==> t == txs[gone]
  {
    hide Tx.Priority;
    assert t in txs[gone..k];
    var i :| 0 <= i < k - gone && txs[gone..k][i] == t;
    assert txs[gone + i] == t;
    GasPriceAtZero(txs[gone + i]);
    GasPriceAtZero(txs[gone]);
    GasPriceAtZero(txs[k]);
  }

  lemma NothingFilled(m: Mempool, txs: seq<Tx>, n: nat)
    requires m.txs == map[] && m.pending == []
    ensures Filled(m.txs, multiset(m.pending), txs, n, 0, 0)
  {
  }

  lemma FilledSize(live: map<Hash, Tx>, pending: multiset<Tx>, txs: seq<Tx>, n: nat, gone: nat, k: nat)
    requires Filled(live, pending, txs, n, gone, k) && k >= n
    ensures |live| == k - n
  {
  }

  lemma NotLiveYet(live: map<Hash, Tx>, pending: multiset<Tx>, txs: seq<Tx>, c: Tx -> Hash, size: int, n: nat, gone: nat, k: nat)
    requires Rising(txs, c, size) && Filled(live, pending, txs, n, gone, k) && k < |txs|
    ensures txs[k].hash !in live
  {
  }

  lemma FillsSlot(live: map<Hash, Tx>, pending: multiset<Tx>, txs: seq<Tx>, n: nat, gone: nat, k: nat)
    requires Filled(live, pending, txs, n, gone, k) && n <= k < |txs| && txs[k].hash !in live
    ensures Filled(live[txs[k].hash := txs[k]], pending + multiset{txs[k]}, txs, n, gone, k + 1)
  {
    assert txs[gone..k + 1] == txs[gone..k] + [txs[k]];
  }

  lemma FirstOut(txs: seq<Tx>, gone: nat, k: nat)
    requires gone < k <= |txs|
    ensures txs[gone] in multiset(txs[gone..k]) && multiset(txs[gone..k]) - multiset{txs[gone]} == multiset(txs[gone + 1..k])
  {
    assert txs[gone..k] == [txs[gone]] + txs[gone + 1..k];
  }

  /** Something of least priority is the first entry; evicting it takes away no live transaction. */
  lemma EvictsStale(live: map<Hash, Tx>, pending: multiset<Tx>, txs: seq<Tx>, c: Tx -> Hash, size: int, n: nat, gone: nat, k: nat, e: Tx)
    requires Rising(txs, c, size) && Filled(live, pending, txs, n, gone, k) && k < |txs| && gone < n
    requires e in pending && forall t :: t in pending ==> e.Priority(0) <= t.Priority(0)
    ensures e.hash !in live && Filled(live - {e.hash}, pending - multiset{e}, txs, n, gone + 1, k)
  {
    hide Tx.Priority;
    LeastIsFirst(txs, c, size, gone, k, e);
    FirstOut(txs, gone, k);
    assert live - {e.hash} == live;
  }

  lemma AboveThemAll(pending: seq<Tx>, txs: seq<Tx>, c: Tx -> Hash, size: int, gone: nat, k: nat)
    requires Rising(txs, c, size) && gone < k < |txs| && multiset(pending) == multiset(txs[gone..k])
    ensures AboveLastSlot(pending, txs[k].gasPrice, 0)
  {
    hide Tx.Priority;
    assert |multiset(pending)| == |pending| && |multiset(txs[gone..k])| == k - gone;
    assert pending[|pending| - 1] in multiset(pending);
    LeastIsFirst(txs, c, size, gone, k, pending[|pending| - 1]);
    GasPriceAtZero(txs[k]);
  }

  /** An accepted addition at time zero. */
  method AddAtZero(m: Mempool, tx: Tx, ghost c: Tx -> Hash, ghost capacity: nat, ghost size: int) returns (ghost evicted: Option<Tx>)
    requires AtZero(m, c, capacity, size) && Acceptable(tx, c) && Stored(tx) == tx && tx.Size() <= size && tx.hash !in m.txs
    requires |m.txs| < capacity || AboveLastSlot(m.pending, tx.gasPrice, 0)
    modifies m
    ensures AtZero(m, c, capacity, size) && (evicted.Some? <==> |old(m.txs)| >= capacity)
    ensures evicted.None? ==>
              m.txs == old(m.txs)[tx.hash := tx] && multiset(m.pending) == multiset(old(m.pending)) + multiset{tx}
    ensures evicted.Some? ==>
              && m.txs == (old(m.txs) - {evicted.value.hash})[tx.hash := tx]
              && evicted.value in multiset(old(m.pending))
              && multiset(m.pending) == multiset(old(m.pending)) - multiset{evicted.value} + multiset{tx}
              && forall t :: t in multiset(old(m.pending)) ==> evicted.value.Priority(0) <= t.Priority(0)
  {
    hide Mempool.Valid, Synced, Tx.Priority, BinaryHeap.Outranks, AboveLastSlot;
    var error;
    error, evicted := m.Add(tx);
  }

  /** The next one finds room, or evicts the first entry, which is stale. */
  method AddRising(m: Mempool, txs: seq<Tx>, ghost c: Tx -> Hash, ghost capacity: nat, ghost size: int, ghost n: nat,
                   ghost gone: nat, k: nat)
    requires AtZero(m, c, capacity, size) && Rising(txs, c, size) && n <= k < |txs| && capacity > 0
    requires Filled(m.txs, multiset(m.pending), txs, n, gone, k) && (k - n >= capacity ==> gone < n)
    modifies m
    ensures AtZero(m, c, capacity, size)
    ensures Filled(m.txs, multiset(m.pending), txs, n, if k - n < capacity then gone else gone + 1, k + 1)
    ensures m.txs.Keys <= old(m.txs).Keys + {txs[k].hash}
  {
    hide AtZero, AboveLastSlot, Rising, Acceptable, Stored;
    ghost var live, entries := m.txs, multiset(m.pending);
    NotLiveYet(live, entries, txs, c, size, n, gone, k);
    RisingIsSound(txs, c, size, k);
    if k - n >= capacity {
      AboveThemAll(m.pending, txs, c, size, gone, k);
    }
    hide Filled;
    ghost var evicted := AddAtZero(m, txs[k], c, capacity, size);
    if k - n < capacity {
      FillsSlot(live, entries, txs, n, gone, k);
    } else {
      var e := evicted.value;
      EvictsStale(live, entries, txs, c, size, n, gone, k, e);
      FillsSlot(live - {e.hash}, entries - multiset{e}, txs, n, gone + 1, k);
    }
  }

  lemma RisingIsSound(txs: seq<Tx>, computeHash: Tx -> Hash, maxTxSize: int, k: nat)
    requires Rising(txs, computeHash, maxTxSize) && k < |txs|
    ensures Acceptable(txs[k], computeHash) && Stored(txs[k]) == txs[k] && txs[k].Size() <= maxTxSize
  {
  }

  /** Added and removed again: a stale entry. */
  method AddAndRemove(m: Mempool, txs: seq<Tx>, ghost c: Tx -> Hash, ghost capacity: nat, ghost size: int, ghost n: nat, k: nat)
    requires AtZero(m, c, capacity, size) && Rising(txs, c, size) && k < n <= |txs| && capacity > 0
    requires Filled(m.txs, multiset(m.pending), txs, n, 0, k)
    modifies m
    ensures AtZero(m, c, capacity, size) && Filled(m.txs, multiset(m.pending), txs, n, 0, k + 1)
  {
    hide Mempool.Valid, Rising;
    assert m.txs == map[];
    AddRising(m, txs, c, capacity, size, k, 0, k);
    assert m.txs.Keys == {txs[k].hash};
    OneLess(m.txs, txs[k].hash);
    var found := m.Remove(txs[k].hash);
  }

  /** N transactions added and removed again: only their entries stay. */
  method LeaveStale(computeHash: Tx -> Hash, txs: seq<Tx>, n: nat, capacity: nat, maxTxSize: int) returns (m: Mempool)
    requires capacity > 0 && n <= |txs| && Rising(txs, computeHash, maxTxSize)
    ensures fresh(m) && AtZero(m, computeHash, capacity, maxTxSize) && Filled(m.txs, multiset(m.pending), txs, n, 0, n)
  {
    m := new Mempool(MempoolConfig(capacity, maxTxSize, 0, 0), computeHash, 0, 0);
    NothingFilled(m, txs, n);
    for k := 0 to n
      invariant fresh(m) && AtZero(m, computeHash, capacity, maxTxSize) && Filled(m.txs, multiset(m.pending), txs, n, 0, k)
    {
      hide Filled, AtZero, Rising;
      AddAndRemove(m, txs, computeHash, capacity, maxTxSize, n, k);
    }
  }

  /**
   After that others until the pool is full, then N more that all outrank what is there: each of
   these evicts a stale entry, and the pool ends N beyond its capacity.
   */
  method Overfill(computeHash: Tx -> Hash, txs: seq<Tx>, n: nat, capacity: nat, maxTxSize: int) returns (m: Mempool)
    requires capacity > 0 && |txs| == n + capacity + n && Rising(txs, computeHash, maxTxSize)
    ensures fresh(m) && m.Valid() && m.config.maxSize == capacity && |m.txs| == capacity + n
  {
    hide Mempool.Valid, Rising, Filled, AtZero;
    m := LeaveStale(computeHash, txs, n, capacity, maxTxSize);
    for k := n to n + capacity
      invariant fresh(m) && AtZero(m, computeHash, capacity, maxTxSize) && Filled(m.txs, multiset(m.pending), txs, n, 0, k)
    {
      AddRising(m, txs, computeHash, capacity, maxTxSize, n, 0, k);
    }
    for k := n + capacity to |txs|
      invariant fresh(m) && AtZero(m, computeHash, capacity, maxTxSize)
      invariant Filled(m.txs, multiset(m.pending), txs, n, k - n - capacity, k)
    {
      AddRising(m, txs, computeHash, capacity, maxTxSize, n, k - n - capacity, k);
    }
    FilledSize(m.txs, multiset(m.pending), txs, n, n, |txs|);
    PoolAtZero(m, computeHash, capacity, maxTxSize);
  }

  lemma PoolAtZero(m: Mempool, computeHash: Tx -> Hash, maxSize: int, maxTxSize: int)
    requires AtZero(m, computeHash, maxSize, maxTxSize)
    ensures m.Valid() && m.config.maxSize == maxSize
  {
    hide Mempool.Valid;
  }
}
