/**
 The values of the lock-free hash map under any interleaving of Put, Delete and Get: the value of a
 key's node is that of the last store, every finished Put has stored, and a Get never goes back
 behind a Put that had returned when it began.
 */
module HashMapValues {
  import opened Common
  import opened HashMapSteps
  import opened HashMapRuns
  import opened HashMapReaders

  // ---------------------------------------------------------------------------------------
  // Stores.

  /** A step of thread `t` by which node `n` gets a value: a new node, a revival's store, an update. */
  ghost predicate Stores(p: Params, s: State, t: nat, n: nat)
    requires t < |s.threads|
  {
    var pc := s.threads[t];
    || ((pc.PutReviveStore? || pc.PutUpdate?) && pc.found == n)
    || (pc.FindAt? && pc.op.Put? && n == |s.nodes| && !WalksOn(p, s.nodes, pc.op, pc.curr) && !Matches(p, s.nodes, pc.op, pc.curr))
  }

  ghost predicate StoresAt(g: Program, turns: seq<Turn>, e: nat, n: nat)
    requires Scheduled(g, turns) && e < |turns|
  {
    Stores(g.params, After(g, turns[..e]), turns[e].thread, n)
  }

  /** At turn `e` somebody is in a Put of this key and value. */
  ghost predicate Putting(g: Program, turns: seq<Turn>, e: nat, key: Key, value: Value)
    requires Scheduled(g, turns) && e < |turns|
  {
    var pc := After(g, turns[..e]).threads[turns[e].thread];
    !pc.Idle? && pc.op == Put(key, value)
  }

  /** A store puts its own operation's value under its own key; nothing else changes a value. */
  lemma StoreShape(p: Params, s: State, v: View, t: nat, op: Op)
    requires t < |s.threads| && LocalsOk(p, s.nodes, v, s.threads[t])
    ensures var nodes', pc := Step(p, s, t, op).nodes, s.threads[t];
            forall n :: 0 <= n < |nodes'| ==>
              if Stores(p, s, t, n) then !pc.Idle? && pc.op == Put(nodes'[n].key, nodes'[n].value)
              else n < |s.nodes| && nodes'[n].value == s.nodes[n].value && nodes'[n].key == s.nodes[n].key
  {
  }

  /** The turn of the last store to node `n`. */
  ghost function LastStore(g: Program, turns: seq<Turn>, n: nat): nat
    requires Scheduled(g, turns)
  {
    if turns == [] then 0
    else
      var before := turns[..|turns| - 1];
      if Stores(g.params, After(g, before), turns[|turns| - 1].thread, n) then |before| else LastStore(g, before, n)
  }

  lemma StoresEarlier(g: Program, turns: seq<Turn>, k: nat, e: nat, n: nat)
    requires Scheduled(g, turns) && e < k <= |turns|
    ensures StoresAt(g, turns[..k], e, n) == StoresAt(g, turns, e, n)
    ensures forall key, value :: Putting(g, turns[..k], e, key, value) == Putting(g, turns, e, key, value)
  {
    assert turns[..k][..e] == turns[..e];
  }

  /** The value of a node is that of its last store, by a Put of its key. */
  lemma {:induction false} ValueIsLastStored(g: Program, turns: seq<Turn>, n: nat)
    requires Scheduled(g, turns) && 0 < n < |After(g, turns).nodes|
    ensures var e, node := LastStore(g, turns, n), After(g, turns).nodes[n];
            e < |turns| && StoresAt(g, turns, e, n) && Putting(g, turns, e, node.key, node.value)
  {
    var before, last := turns[..|turns| - 1], turns[|turns| - 1];
    assert turns == before + [last];
    LastMoment(g, before, last);
    Reachable(g, before);
    var s := After(g, before);
    OwnLocals(g.params, s, ViewAfter(g, before), last.thread);
    StoreShape(g.params, s, ViewAfter(g, before), last.thread, last.op);
    hide Structure, CounterExact, LocalsOk, PrivateOk, SortedList, BucketsOk, After, Step, ViewAfter, Stores, StoresAt, Putting;
    if Stores(g.params, s, last.thread, n) {
      StoredNow(g, turns, n);
    } else {
      ValueIsLastStored(g, before, n);
      StoresEarlier(g, turns, |before|, LastStore(g, before, n), n);
    }
  }

  lemma StoredNow(g: Program, turns: seq<Turn>, n: nat)
    requires Scheduled(g, turns) && turns != []
    requires Stores(g.params, After(g, turns[..|turns| - 1]), turns[|turns| - 1].thread, n)
    ensures StoresAt(g, turns, |turns| - 1, n)
    ensures var pc := After(g, turns[..|turns| - 1]).threads[turns[|turns| - 1].thread];
            forall key, value :: !pc.Idle? && pc.op == Put(key, value) ==> Putting(g, turns, |turns| - 1, key, value)
  {
  }

  /** No store to the node comes after the last one. */
  lemma {:induction false} NoneLater(g: Program, turns: seq<Turn>, n: nat, e: nat)
    requires Scheduled(g, turns) && e < |turns| && StoresAt(g, turns, e, n)
    ensures e <= LastStore(g, turns, n)
  {
    var before := turns[..|turns| - 1];
    if e < |before| {
      StoresEarlier(g, turns, |before|, e, n);
      NoneLater(g, before, n, e);
    }
  }

  // ---------------------------------------------------------------------------------------
  // Every finished Put has stored to its key's node.

  /** Thread `t` stored to the node after moment `c`. */
  ghost predicate StoredSince(g: Program, turns: seq<Turn>, c: nat, t: nat, n: nat)
    requires Scheduled(g, turns)
  {
    exists e :: c < e < |turns| && turns[e].thread == t && StoresAt(g, turns, e, n)
  }

  predicate PutDone(pc: Pc) {
    pc.PutAddCount? || pc.PutSetBucket? || (pc.Returned? && pc.op.Put?)
  }

  /** The thread has stored to the node of its key. */
  ghost predicate NodeStored(g: Program, turns: seq<Turn>, c: nat, t: nat, key: Key)
    requires Scheduled(g, turns)
  {
    exists n :: IsNode(g.params, After(g, turns), ViewAfter(g, turns), key, n) && StoredSince(g, turns, c, t, n)
  }

  ghost predicate ThreadStored(g: Program, turns: seq<Turn>, t: nat)
    requires Scheduled(g, turns) && t < g.threads
  {
    var pc, c := After(g, turns).threads[t], LastCall(g, turns, t);
    && (pc.PutReloadHead? || pc.PutLink? ==> StoredSince(g, turns, c, t, pc.node))
    && (PutDone(pc) ==> NodeStored(g, turns, c, t, pc.op.key))
  }

  lemma StoredSinceLater(g: Program, turns: seq<Turn>, turn: Turn, c: nat, t: nat, n: nat)
    requires Scheduled(g, turns + [turn]) && Scheduled(g, turns) && StoredSince(g, turns, c, t, n)
    ensures StoredSince(g, turns + [turn], c, t, n)
  {
    hide StoresAt;
    var e :| c < e < |turns| && turns[e].thread == t && StoresAt(g, turns, e, n);
    assert (turns + [turn])[..|turns|] == turns;
    StoresEarlier(g, turns + [turn], |turns|, e, n);
  }

  lemma NodeStoredLater(g: Program, turns: seq<Turn>, turn: Turn, c: nat, t: nat, key: Key)
    requires Scheduled(g, turns + [turn]) && Scheduled(g, turns) && turn.thread < g.threads && NodeStored(g, turns, c, t, key)
    ensures NodeStored(g, turns + [turn], c, t, key)
  {
    hide After, ViewAfter, StoredSince, IsNode;
    var n :| IsNode(g.params, After(g, turns), ViewAfter(g, turns), key, n) && StoredSince(g, turns, c, t, n);
    StoredSinceLater(g, turns, turn, c, t, n);
    LastMoment(g, turns, turn);
    NodeLater(g, turns + [turn], |turns|, |turns| + 1, key, n);
  }

  /** The step just made stored to the node. */
  lemma StoredByThis(g: Program, turns: seq<Turn>, turn: Turn, c: nat, n: nat)
    requires Scheduled(g, turns + [turn]) && Scheduled(g, turns) && turn.thread < g.threads && c < |turns|
    requires Stores(g.params, After(g, turns), turn.thread, n)
    ensures StoredSince(g, turns + [turn], c, turn.thread, n)
  {
    hide After, Stores;
    var turns' := turns + [turn];
    assert turns'[..|turns|] == turns && turns'[|turns|] == turn;
    StoredNow(g, turns', n);
  }

  lemma OwnStored(g: Program, turns: seq<Turn>, turn: Turn)
    requires Scheduled(g, turns + [turn]) && Scheduled(g, turns) && turn.thread < g.threads
    requires ThreadStored(g, turns, turn.thread)
    ensures ThreadStored(g, turns + [turn], turn.thread)
  {
    hide After, ViewAfter, LastCall, Structure, CounterExact, PrivateOk, SortedList, BucketsOk, NodeStored, StoredSince, NextView;
    var p, t, s, v := g.params, turn.thread, After(g, turns), ViewAfter(g, turns);
    var pc, c, turns' := s.threads[t], LastCall(g, turns, t), turns + [turn];
    var s', v' := After(g, turns'), ViewAfter(g, turns');
    LastMoment(g, turns, turn);
    CallMoment(g, turns, turn, t);
    if !pc.Idle? {
      ThreadsOk(g, turns, t);
      Reachable(g, turns);
      Reachable(g, turns');
      OwnLocals(p, s, v, t);
      OwnLocals(p, s', v', t);
      if PutDone(pc) {
        NodeStoredLater(g, turns, turn, c, t, pc.op.key);
      } else if pc.PutReviveStore? || pc.PutUpdate? {
        StoredByThis(g, turns, turn, c, pc.found);
        FoundNode(g, turns, turn, pc.op, pc.found);
        NodeStoredBy(g, turns', c, t, pc.op.key, pc.found);
      } else if pc.FindAt? && Stores(p, s, t, |s.nodes|) {
        StoredByThis(g, turns, turn, c, |s.nodes|);
      } else if pc.PutReloadHead? || pc.PutLink? {
        StoredSinceLater(g, turns, turn, c, t, pc.node);
        if LinksNode(s, t) {
          LinkStepShape(p, s, t, turn.op);
          NodeStoredBy(g, turns', c, t, pc.op.key, pc.node);
        }
      }
    }
  }

  lemma CallMoment(g: Program, turns: seq<Turn>, turn: Turn, u: nat)
    requires Scheduled(g, turns + [turn]) && Scheduled(g, turns) && turn.thread < g.threads && u < g.threads
    ensures LastCall(g, turns + [turn], u)
            == if turn.thread == u && After(g, turns).threads[u].Idle? then |turns| else LastCall(g, turns, u)
  {
    assert (turns + [turn])[..|turns|] == turns;
  }

  lemma NodeStoredBy(g: Program, turns: seq<Turn>, c: nat, t: nat, key: Key, n: nat)
    requires Scheduled(g, turns) && StoredSince(g, turns, c, t, n)
    requires IsNode(g.params, After(g, turns), ViewAfter(g, turns), key, n)
    ensures NodeStored(g, turns, c, t, key)
  {
  }

  /** A found node is its key's node, before and after the step. */
  lemma FoundNode(g: Program, turns: seq<Turn>, turn: Turn, op: Op, n: nat)
    requires Scheduled(g, turns + [turn]) && Scheduled(g, turns) && turn.thread < g.threads
    requires Found(After(g, turns).nodes, ViewAfter(g, turns), op, n)
    ensures IsNode(g.params, After(g, turns + [turn]), ViewAfter(g, turns + [turn]), op.key, n)
  {
    hide After, ViewAfter;
    LastMoment(g, turns, turn);
    NodeLater(g, turns + [turn], |turns|, |turns| + 1, op.key, n);
  }

  lemma OthersStored(g: Program, turns: seq<Turn>, turn: Turn, u: nat)
    requires Scheduled(g, turns + [turn]) && Scheduled(g, turns) && turn.thread < g.threads && u < g.threads && u != turn.thread
    requires ThreadStored(g, turns, u)
    ensures ThreadStored(g, turns + [turn], u)
  {
    hide After, ViewAfter, LastCall, Step, NodeStored, StoredSince;
    LastMoment(g, turns, turn);
    CallMoment(g, turns, turn, u);
    KeysStay(g.params, After(g, turns), turn.thread, turn.op);
    var pc, c := After(g, turns).threads[u], LastCall(g, turns, u);
    if pc.PutReloadHead? || pc.PutLink? {
      StoredSinceLater(g, turns, turn, c, u, pc.node);
    }
    if PutDone(pc) {
      NodeStoredLater(g, turns, turn, c, u, pc.op.key);
    }
  }

  lemma {:induction false} ThreadsStored(g: Program, turns: seq<Turn>, t: nat)
    requires Scheduled(g, turns) && t < g.threads
    ensures ThreadStored(g, turns, t)
  {
    if turns != [] {
      var before, last := turns[..|turns| - 1], turns[|turns| - 1];
      assert turns == before + [last];
      ThreadsStored(g, before, t);
      if last.thread == t {
        OwnStored(g, before, last);
      } else {
        OthersStored(g, before, last, t);
      }
    }
  }

  // ---------------------------------------------------------------------------------------
  // Main results.

  /** Keys are distinct, so a key has one node. */
  lemma OneNode(p: Params, s: State, v: View, key: Key, m: nat, n: nat)
    requires SortedList(p, s.nodes, v) && IsNode(p, s, v, key, m) && IsNode(p, s, v, key, n)
    ensures m == n
  {
    assert Ordered(s.nodes, v, m, n);
  }

  /** A Put of this key had returned by moment `r`, called at moment `c`. */
  ghost predicate PutReturned(g: Program, turns: seq<Turn>, r: nat, u: nat, key: Key)
    requires Scheduled(g, turns) && r <= |turns| && u < g.threads
  {
    var pc := After(g, turns[..r]).threads[u];
    pc.Returned? && pc.op.Put? && pc.op.key == key
  }

  /** The node that a returned Put stored to is the key's node ever after. */
  lemma StoreOfReturned(g: Program, turns: seq<Turn>, r: nat, u: nat, key: Key, k: nat, n: nat)
    requires Scheduled(g, turns) && r <= k <= |turns| && u < g.threads && PutReturned(g, turns, r, u, key)
    requires IsNode(g.params, After(g, turns[..k]), ViewAfter(g, turns[..k]), key, n)
    ensures LastCall(g, turns[..r], u) < LastStore(g, turns[..k], n)
  {
    hide After, ViewAfter, LastCall, LastStore, IsNode, StoresAt, Structure, CounterExact, SortedList;
    ThreadsStored(g, turns[..r], u);
    var c := LastCall(g, turns[..r], u);
    assert NodeStored(g, turns[..r], c, u, key);
    var m :| IsNode(g.params, After(g, turns[..r]), ViewAfter(g, turns[..r]), key, m) && StoredSince(g, turns[..r], c, u, m);
    NodeLater(g, turns, r, k, key, m);
    Reachable(g, turns[..k]);
    AllLinked(g.params, After(g, turns[..k]), ViewAfter(g, turns[..k]));
    OneNode(g.params, After(g, turns[..k]), ViewAfter(g, turns[..k]), key, m, n);
    var e :| c < e < r && turns[..r][e].thread == u && StoresAt(g, turns[..r], e, m);
    StoresEarlier(g, turns, r, e, n);
    StoresEarlier(g, turns, k, e, n);
    NoneLater(g, turns[..k], n, e);
  }

  /** From moment `c` to moment `k` the call of thread `t` begun at `c` is the only Put of the key. */
  ghost predicate OnlyPut(g: Program, turns: seq<Turn>, c: nat, k: nat, t: nat, key: Key)
    requires Scheduled(g, turns) && k <= |turns|
  {
    forall m, u :: c < m <= k && 0 <= u < g.threads && InPut(g, turns, m, u, key) ==>
      u == t && LastCall(g, turns[..m], u) == c
  }

  ghost predicate InPut(g: Program, turns: seq<Turn>, m: nat, u: nat, key: Key)
    requires Scheduled(g, turns) && m <= |turns| && u < g.threads
  {
    var pc := After(g, turns[..m]).threads[u];
    !pc.Idle? && pc.op.Put? && pc.op.key == key
  }

  /**
   A Put that has returned, while no other Put of its key was called or under way since its call, has
   its value in the key's node.
   */
  lemma ReturnedPutHolds(g: Program, turns: seq<Turn>, r: nat, t: nat, key: Key, k: nat, n: nat)
    requires Scheduled(g, turns) && r <= k <= |turns| && t < g.threads && PutReturned(g, turns, r, t, key)
    requires OnlyPut(g, turns, LastCall(g, turns[..r], t), k, t, key)
    requires IsNode(g.params, After(g, turns[..k]), ViewAfter(g, turns[..k]), key, n)
    ensures After(g, turns[..k]).nodes[n].value == After(g, turns[..r]).threads[t].op.value
  {
    hide After, ViewAfter, LastCall, LastStore, StoresAt, Structure, CounterExact, SortedList;
    var c := LastCall(g, turns[..r], t);
    var e := LastStore(g, turns[..k], n);
    var value := After(g, turns[..k]).nodes[n].value;
    StoreOfReturned(g, turns, r, t, key, k, n);
    ValueIsLastStored(g, turns[..k], n);
    StoresEarlier(g, turns, k, e, n);
    var u := turns[e].thread;
    assert turns[..k][..e] == turns[..e] && turns[..k][e] == turns[e];
    assert InPut(g, turns, e, u, key);
    ThreadsOk(g, turns[..e], u);
    ThreadsOk(g, turns[..r], t);
    assert turns[..e][c] == turns[c] == turns[..r][c];
  }

  /** Where a hit's value was read: off the key's node, at one of the moments of the Get. */
  ghost predicate ReadOff(g: Program, turns: seq<Turn>, key: Key, m: nat, n: nat, value: Value)
    requires Scheduled(g, turns) && m <= |turns|
  {
    && IsNode(g.params, After(g, turns[..m]), ViewAfter(g, turns[..m]), key, n)
    && After(g, turns[..m]).nodes[n].value == value
  }

  lemma {:induction false} HitFrom(g: Program, turns: seq<Turn>, key: Key, moments: seq<nat>) returns (j: nat, n: nat)
    requires Reading(g, turns, moments) && g.params.hashOf("") != 0 && ReaderAfter(g, turns, key, moments).Hit?
    ensures j < |moments| && ReadOff(g, turns, key, moments[j], n, ReaderAfter(g, turns, key, moments).value)
  {
    hide After, ViewAfter, SeenLive, Written, Structure, CounterExact;
    var front, last := moments[..|moments| - 1], |moments| - 1;
    SeenEarlier(g, turns, key, moments);
    var r := ReaderAfter(g, turns, key, front);
    if r.Hit? {
      j, n := HitFrom(g, turns, key, front);
    } else {
      j, n := last, r.node;
      ReaderTells(g, turns, key, front);
      HoldsLater(g, turns, front[|front| - 1], moments[last], key, r);
    }
  }

  /** So a Get that looks only at moments from its return on, and hits, yields that value. */
  lemma HitAfterPut(g: Program, turns: seq<Turn>, r: nat, t: nat, key: Key, k: nat, moments: seq<nat>)
    requires Reading(g, turns, moments) && g.params.hashOf("") != 0 && ReaderAfter(g, turns, key, moments).Hit?
    requires r <= k <= |turns| && t < g.threads && PutReturned(g, turns, r, t, key)
    requires OnlyPut(g, turns, LastCall(g, turns[..r], t), k, t, key)
    requires forall j :: 0 <= j < |moments| ==> r <= moments[j] <= k
    ensures ReaderAfter(g, turns, key, moments).value == After(g, turns[..r]).threads[t].op.value
  {
    hide After, ViewAfter, LastCall, ReaderAfter, IsNode;
    var j, n := HitFrom(g, turns, key, moments);
    ReturnedPutHolds(g, turns, r, t, key, moments[j], n);
  }

  /** The value comes from a store, by a Put of the key, that no other store to the node followed before it was read. */
  ghost predicate Supplied(g: Program, turns: seq<Turn>, e: nat, key: Key, value: Value)
    requires Scheduled(g, turns) && e < |turns|
  {
    Putting(g, turns, e, key, value) && exists n :: StoresAt(g, turns, e, n)
  }

  /**
   A Get never goes back behind a Put that had returned when it began: the store that its value comes
   from was made after the call of every such Put.  So a value overwritten by a Put called after the
   writing one returned, and itself returned before the Get, is never handed out.
   */
  lemma HitIsCurrent(g: Program, turns: seq<Turn>, key: Key, moments: seq<nat>) returns (e: nat)
    requires Reading(g, turns, moments) && g.params.hashOf("") != 0 && ReaderAfter(g, turns, key, moments).Hit?
    ensures moments != [] && e < moments[|moments| - 1] <= |turns|
    ensures Supplied(g, turns, e, key, ReaderAfter(g, turns, key, moments).value)
    ensures forall u, r :: 0 <= u < g.threads && 0 <= r <= moments[0] && PutReturned(g, turns, r, u, key) ==>
              LastCall(g, turns[..r], u) < e
  {
    hide After, ViewAfter, LastCall, ReaderAfter, LastStore, StoresAt, Putting, PutReturned;
    var j, n := HitFrom(g, turns, key, moments);
    var m := moments[j];
    e := LastStore(g, turns[..m], n);
    ValueIsLastStored(g, turns[..m], n);
    StoresEarlier(g, turns, m, e, n);
    forall u, r | 0 <= u < g.threads && 0 <= r <= moments[0] && PutReturned(g, turns, r, u, key)
      ensures LastCall(g, turns[..r], u) < e
    {
      StoreOfReturned(g, turns, r, u, key, m, n);
    }
  }
}
