/**
 What holds of the lock-free hash map's list in every interleaving of Put and Delete: the element
 counter is exact up to the updates still in flight, no node is ever unlinked, and every answer
 was right about its key at some moment inside the call.
 */
module HashMapRuns {
  import opened Common
  import opened HashMapSteps

  // ---------------------------------------------------------------------------------------
  // Live nodes and what each step does to them.

  ghost function Live(nodes: seq<HashNode>, v: View): set<nat> {
    set n | n in v.pos && n != 0 && n < |nodes| && !nodes[n].deleted
  }

  ghost predicate IsLive(nodes: seq<HashNode>, v: View, key: Key) {
    exists n :: n in Live(nodes, v) && nodes[n].key == key
  }

  /** A successful link or revival, not counted yet. */
  predicate Uncounted(pc: Pc) { pc.PutReviveStore? || pc.PutAddCount? }

  /** A successful deletion, not subtracted yet. */
  predicate Unsubtracted(pc: Pc) { pc.DelSubCount? }

  ghost predicate Revives(s: State, t: nat)
    requires t < |s.threads|
  {
    s.threads[t].PutRevive? && IsDeleted(s.nodes, s.threads[t].found)
  }

  ghost predicate Marks(s: State, t: nat)
    requires t < |s.threads|
  {
    s.threads[t].DelMark? && !IsDeleted(s.nodes, s.threads[t].found)
  }

  lemma LinkAddsLive(p: Params, s: State, v: View, t: nat, op: Op)
    requires t < |s.threads| && Structure(p, s, v) && LinksNode(s, t)
    ensures var pc := s.threads[t];
            && pc.node !in Live(s.nodes, v)
            && Live(Step(p, s, t, op).nodes, NextView(s, v, t)) == Live(s.nodes, v) + {pc.node}
  {
    var pc, v', nodes' := s.threads[t], NextView(s, v, t), Step(p, s, t, op).nodes;
    hide Step, Structure;
    LinkKeepsStructure(p, s, v, t, op);
    InsertSize(v, pc.prev, pc.node);
    assert Linked(s.nodes, v, pc.prev);
    LinkStepShape(p, s, t, op);
    assert nodes' == s.nodes[pc.prev := s.nodes[pc.prev].(next := Some(pc.node))];
    forall n ensures n in Live(nodes', v') <==> n in Live(s.nodes, v) + {pc.node} {
    }
  }

  lemma ReviveAddsLive(p: Params, s: State, v: View, t: nat, op: Op)
    requires t < |s.threads| && Structure(p, s, v) && Revives(s, t)
    ensures var pc := s.threads[t];
            && pc.found !in Live(s.nodes, v)
            && Live(Step(p, s, t, op).nodes, NextView(s, v, t)) == Live(s.nodes, v) + {pc.found}
  {
    assert LocalsOk(p, s.nodes, v, s.threads[t]);
  }

  lemma MarkRemovesLive(p: Params, s: State, v: View, t: nat, op: Op)
    requires t < |s.threads| && Structure(p, s, v) && Marks(s, t)
    ensures var pc := s.threads[t];
            && pc.found in Live(s.nodes, v)
            && Live(Step(p, s, t, op).nodes, NextView(s, v, t)) == Live(s.nodes, v) - {pc.found}
  {
    assert LocalsOk(p, s.nodes, v, s.threads[t]);
  }

  lemma OtherwiseLiveStays(p: Params, s: State, v: View, t: nat, op: Op)
    requires t < |s.threads| && Structure(p, s, v) && !LinksNode(s, t) && !Revives(s, t) && !Marks(s, t)
    ensures Live(Step(p, s, t, op).nodes, NextView(s, v, t)) == Live(s.nodes, v)
  {
    var nodes' := Step(p, s, t, op).nodes;
    assert PrivateOk(p, s.nodes, v, s.threads[t]);
    FlagsStay(p, s, t, op);
    forall n: nat | v.Has(n) ensures n < |s.nodes| && nodes'[n].deleted == s.nodes[n].deleted {
      assert Linked(s.nodes, v, n);
    }
  }

  lemma FlagsStay(p: Params, s: State, t: nat, op: Op)
    requires t < |s.threads| && !Revives(s, t) && !Marks(s, t)
    ensures var nodes' := Step(p, s, t, op).nodes;
            |s.nodes| <= |nodes'| && forall n :: 0 <= n < |s.nodes| ==> nodes'[n].deleted == s.nodes[n].deleted
  {
  }

  lemma NodesStay(p: Params, s: State, t: nat, op: Op)
    requires t < |s.threads|
    ensures var nodes' := Step(p, s, t, op).nodes;
            && |s.nodes| <= |nodes'|
            && (forall n :: 0 <= n < |s.nodes| ==> nodes'[n].key == s.nodes[n].key && nodes'[n].hash == s.nodes[n].hash)
  {
  }

  lemma OnlyOneMoves(p: Params, s: State, t: nat, op: Op)
    requires t < |s.threads|
    ensures var s' := Step(p, s, t, op);
            |s'.threads| == |s.threads| && s'.threads == s.threads[t := s'.threads[t]]
  {
  }

  /** Keys and hashes never change, and nodes are never freed. */
  lemma KeysStay(p: Params, s: State, t: nat, op: Op)
    requires t < |s.threads|
    ensures var s' := Step(p, s, t, op);
            && |s.nodes| <= |s'.nodes| && |s'.threads| == |s.threads|
            && (forall n :: 0 <= n < |s.nodes| ==> s'.nodes[n].key == s.nodes[n].key && s'.nodes[n].hash == s.nodes[n].hash)
            && (forall u :: 0 <= u < |s.threads| && u != t ==> s'.threads[u] == s.threads[u])
            && s'.threads == s.threads[t := s'.threads[t]]
  {
    hide Step;
    NodesStay(p, s, t, op);
    OnlyOneMoves(p, s, t, op);
  }

  /** The counter, plus what is not counted yet, minus what is not subtracted yet, is the live size. */
  ghost predicate CounterExact(s: State, v: View) {
    s.count + Count(s.threads, Uncounted) - Count(s.threads, Unsubtracted) == |Live(s.nodes, v)|
  }

  lemma CounterShape(p: Params, s: State, t: nat, op: Op)
    requires t < |s.threads|
    ensures var s' := Step(p, s, t, op);
            var pc, pc' := s.threads[t], s'.threads[t];
            s'.count - s.count
            + (if Uncounted(pc') then 1 else 0) - (if Uncounted(pc) then 1 else 0)
            - (if Unsubtracted(pc') then 1 else 0) + (if Unsubtracted(pc) then 1 else 0)
            == if LinksNode(s, t) || Revives(s, t) then 1 else if Marks(s, t) then -1 else 0
  {
  }

  lemma StepKeepsCounter(p: Params, s: State, v: View, t: nat, op: Op)
    requires t < |s.threads| && Structure(p, s, v) && CounterExact(s, v)
    ensures CounterExact(Step(p, s, t, op), NextView(s, v, t))
  {
    var s' := Step(p, s, t, op);
    KeysStay(p, s, t, op);
    CountUpdate(s.threads, t, s'.threads[t], Uncounted);
    CountUpdate(s.threads, t, s'.threads[t], Unsubtracted);
    CounterShape(p, s, t, op);
    if LinksNode(s, t) {
      LinkAddsLive(p, s, v, t, op);
    } else if Revives(s, t) {
      ReviveAddsLive(p, s, v, t, op);
    } else if Marks(s, t) {
      MarkRemovesLive(p, s, v, t, op);
    } else {
      OtherwiseLiveStays(p, s, v, t, op);
    }
  }

  // ---------------------------------------------------------------------------------------
  // Interleavings.

  datatype Turn = Turn(thread: nat, op: Op)

  /** A program: its hash function, its bucket count and how many threads run it. */
  datatype Program = Program(params: Params, bucketCount: nat, threads: nat)

  ghost predicate Scheduled(g: Program, turns: seq<Turn>) {
    forall i :: 0 <= i < |turns| ==> turns[i].thread < g.threads
  }

  ghost function After(g: Program, turns: seq<Turn>): (s: State)
    requires Scheduled(g, turns)
    ensures |s.threads| == g.threads
  {
    if turns == [] then Init(g.bucketCount, g.threads)
    else
      var last := turns[|turns| - 1];
      Step(g.params, After(g, turns[..|turns| - 1]), last.thread, last.op)
  }

  ghost function ViewAfter(g: Program, turns: seq<Turn>): View
    requires Scheduled(g, turns)
  {
    if turns == [] then View(map[0 := 0])
    else
      var before := turns[..|turns| - 1];
      NextView(After(g, before), ViewAfter(g, before), turns[|turns| - 1].thread)
  }

  /**
   In every reachable state the list is sorted by hash with all keys distinct, and the counter is
   exact up to the updates in flight.
   */
  lemma {:induction false} Reachable(g: Program, turns: seq<Turn>)
    requires Scheduled(g, turns)
    ensures Structure(g.params, After(g, turns), ViewAfter(g, turns))
    ensures CounterExact(After(g, turns), ViewAfter(g, turns))
  {
    if turns == [] {
      var s := Init(g.bucketCount, g.threads);
      CountZero(s.threads, Uncounted);
      CountZero(s.threads, Unsubtracted);
      assert Live(s.nodes, View(map[0 := 0])) == {};
    } else {
      var before, last := turns[..|turns| - 1], turns[|turns| - 1];
      Reachable(g, before);
      StepKeepsStructure(g.params, After(g, before), ViewAfter(g, before), last.thread, last.op);
      StepKeepsCounter(g.params, After(g, before), ViewAfter(g, before), last.thread, last.op);
    }
  }

  /** When no call is in flight the counter is the number of undeleted nodes. */
  lemma QuiescentCount(g: Program, turns: seq<Turn>)
    requires Scheduled(g, turns)
    requires forall t :: 0 <= t < g.threads ==> After(g, turns).threads[t].Idle? || After(g, turns).threads[t].Returned?
    ensures After(g, turns).count == |Live(After(g, turns).nodes, ViewAfter(g, turns))|
  {
    Reachable(g, turns);
    CountZero(After(g, turns).threads, Uncounted);
    CountZero(After(g, turns).threads, Unsubtracted);
  }

  /** Every node linked in `v` is still linked in `later`, in the same order. */
  ghost predicate StillLinked(v: View, later: View) {
    v.pos.Keys <= later.pos.Keys && forall a: nat, b: nat :: v.Before(a, b) ==> later.Before(a, b)
  }

  lemma InsertStillLinked(v: View, prev: nat, node: nat)
    requires v.Has(prev) && !v.Has(node)
    ensures StillLinked(v, v.InsertAfter(prev, node))
  {
    InsertSize(v, prev, node);
  }

  lemma StillLinkedLater(u: View, v: View, w: View)
    requires StillLinked(u, v) && StillLinked(v, w)
    ensures StillLinked(u, w)
  {
  }

  /** Every node linked by moment `i` is still linked at moment `j`, in the same order. */
  lemma {:induction false} NeverUnlinked(g: Program, turns: seq<Turn>, i: nat, j: nat)
    requires Scheduled(g, turns) && i <= j <= |turns|
    ensures StillLinked(ViewAfter(g, turns[..i]), ViewAfter(g, turns[..j]))
  {
    if i < j {
      NeverUnlinked(g, turns, i, j - 1);
      var before, t := turns[..j - 1], turns[j - 1].thread;
      assert turns[..j][..j - 1] == before;
      var s, v := After(g, before), ViewAfter(g, before);
      assert ViewAfter(g, turns[..j]) == NextView(s, v, t);
      hide ViewAfter, After, Structure, LocalsOk, StillLinked;
      if LinksNode(s, t) && v.Has(s.threads[t].prev) {
        Reachable(g, before);
        OwnLocals(g.params, s, v, t);
        InsertStillLinked(v, s.threads[t].prev, s.threads[t].node);
        StillLinkedLater(ViewAfter(g, turns[..i]), v, ViewAfter(g, turns[..j]));
      }
    }
  }

  // ---------------------------------------------------------------------------------------
  // Every answer was right about its key at some moment inside the call.

  ghost predicate LiveAt(g: Program, turns: seq<Turn>, k: nat, key: Key)
    requires Scheduled(g, turns) && k <= |turns|
  {
    IsLive(After(g, turns[..k]).nodes, ViewAfter(g, turns[..k]), key)
  }

  ghost predicate LiveSince(g: Program, turns: seq<Turn>, call: nat, key: Key)
    requires Scheduled(g, turns)
  {
    exists k :: call < k <= |turns| && LiveAt(g, turns, k, key)
  }

  ghost predicate AbsentSince(g: Program, turns: seq<Turn>, call: nat, key: Key)
    requires Scheduled(g, turns)
  {
    exists k :: call < k <= |turns| && !LiveAt(g, turns, k, key)
  }

  /** Since the call, a step of thread `t` itself took the key from live to not live. */
  ghost predicate RemovedSince(g: Program, turns: seq<Turn>, call: nat, key: Key, t: nat)
    requires Scheduled(g, turns)
  {
    exists k :: call < k < |turns| && turns[k].thread == t && LiveAt(g, turns, k, key) && !LiveAt(g, turns, k + 1, key)
  }

  ghost function LastCall(g: Program, turns: seq<Turn>, t: nat): (c: nat)
    requires Scheduled(g, turns) && t < g.threads
    ensures turns != [] ==> c < |turns|
  {
    if turns == [] then 0
    else
      var before, last := turns[..|turns| - 1], turns[|turns| - 1];
      if last.thread == t && After(g, before).threads[t].Idle? then |before| else LastCall(g, before, t)
  }

  ghost predicate Justified(g: Program, turns: seq<Turn>, call: nat, t: nat, pc: Pc)
    requires Scheduled(g, turns)
  {
    match pc
    case FindAt(op, prev, curr) =>
      op.Delete? && Missed(g.params, After(g, turns).nodes, op, curr) ==> AbsentSince(g, turns, call, op.key)
    case PutReviveStore(op, _) => LiveSince(g, turns, call, op.key)
    case PutUpdate(op, _) => LiveSince(g, turns, call, op.key)
    case PutAddCount(op, _) => LiveSince(g, turns, call, op.key)
    case PutSetBucket(op, _) => LiveSince(g, turns, call, op.key)
    case DelSubCount(op) => RemovedSince(g, turns, call, op.key, t)
    case Returned(op, answer) =>
      if op.Put? then answer && LiveSince(g, turns, call, op.key)
      else if answer then RemovedSince(g, turns, call, op.key, t)
      else AbsentSince(g, turns, call, op.key)
    case _ => true
  }

  ghost predicate ThreadOk(g: Program, turns: seq<Turn>, t: nat)
    requires Scheduled(g, turns) && t < g.threads
  {
    var pc, call := After(g, turns).threads[t], LastCall(g, turns, t);
    !pc.Idle? ==>
      && call < |turns| && turns[call] == Turn(t, pc.op)
      && Justified(g, turns, call, t, pc)
  }

  ghost predicate Missed(p: Params, nodes: seq<HashNode>, op: Op, curr: Option<nat>) {
    !WalksOn(p, nodes, op, curr) && !Matches(p, nodes, op, curr)
  }

  /** A node whose flag is clear makes its key live; a set flag makes it absent, keys being distinct. */
  lemma FlagDecides(p: Params, s: State, v: View, op: Op, n: nat)
    requires SortedList(p, s.nodes, v) && Found(s.nodes, v, op, n)
    ensures IsLive(s.nodes, v, op.key) <==> !s.nodes[n].deleted
  {
    if !s.nodes[n].deleted {
      assert n in Live(s.nodes, v);
    }
    forall m | m in Live(s.nodes, v) && s.nodes[m].key == op.key ensures m == n {
      assert Ordered(s.nodes, v, m, n);
    }
  }

  /** When a search loads a successor that proves a miss, the key is not linked at that very moment. */
  lemma MissIsExact(p: Params, s: State, v: View, op: Op, prev: nat)
    requires SortedList(p, s.nodes, v) && Reached(p, s.nodes, v, op, prev)
    requires Missed(p, s.nodes, op, NextOf(s.nodes, prev))
    ensures !IsLive(s.nodes, v, op.key)
  {
    var next := NextOf(s.nodes, prev);
    assert Linked(s.nodes, v, prev);
    forall n | n in Live(s.nodes, v) ensures s.nodes[n].key != op.key {
      assert Linked(s.nodes, v, n);
      if next.Some? {
        assert Linked(s.nodes, v, next.value);
        assert Ordered(s.nodes, v, next.value, n);
      }
    }
  }

  lemma SameMoment(g: Program, turns: seq<Turn>, turn: Turn, k: nat)
    requires Scheduled(g, turns + [turn]) && k <= |turns|
    ensures Scheduled(g, turns) && (turns + [turn])[..k] == turns[..k]
  {
    assert (turns + [turn])[..k] == turns[..k];
    assert forall i :: 0 <= i < |turns| ==> (turns + [turn])[i] == turns[i];
  }

  lemma LastMoment(g: Program, turns: seq<Turn>, turn: Turn)
    requires Scheduled(g, turns + [turn]) && turn.thread < g.threads
    ensures Scheduled(g, turns) && turns[..|turns|] == turns && (turns + [turn])[..|turns|] == turns
    ensures (turns + [turn])[..|turns| + 1] == turns + [turn]
    ensures After(g, turns + [turn]) == Step(g.params, After(g, turns), turn.thread, turn.op)
    ensures ViewAfter(g, turns + [turn]) == NextView(After(g, turns), ViewAfter(g, turns), turn.thread)
  {
    SameMoment(g, turns, turn, |turns|);
    assert turns[..|turns|] == turns;
    assert (turns + [turn])[..|turns| + 1] == turns + [turn];
  }

  lemma JustifiedLater(g: Program, turns: seq<Turn>, turn: Turn, call: nat, t: nat, pc: Pc)
    requires Scheduled(g, turns + [turn]) && turn.thread < g.threads && Scheduled(g, turns)
    requires Justified(g, turns, call, t, pc)
    requires pc.FindAt? && pc.curr.Some? ==> pc.curr.value < |After(g, turns).nodes|
    ensures Justified(g, turns + [turn], call, t, pc)
  {
    hide After, ViewAfter, LiveSince, AbsentSince, RemovedSince;
    LastMoment(g, turns, turn);
    KeysStay(g.params, After(g, turns), turn.thread, turn.op);
    SinceLater(g, turns, turn, call, if pc.Idle? then "" else pc.op.key, t);
  }

  lemma LiveLater(g: Program, turns: seq<Turn>, turn: Turn, call: nat, key: Key)
    requires Scheduled(g, turns + [turn]) && Scheduled(g, turns) && LiveSince(g, turns, call, key)
    ensures LiveSince(g, turns + [turn], call, key)
  {
    hide After, ViewAfter, IsLive;
    var k :| call < k <= |turns| && LiveAt(g, turns, k, key);
    SameMoment(g, turns, turn, k);
    assert LiveAt(g, turns + [turn], k, key);
  }

  lemma AbsentLater(g: Program, turns: seq<Turn>, turn: Turn, call: nat, key: Key)
    requires Scheduled(g, turns + [turn]) && Scheduled(g, turns) && AbsentSince(g, turns, call, key)
    ensures AbsentSince(g, turns + [turn], call, key)
  {
    hide After, ViewAfter, IsLive;
    var k :| call < k <= |turns| && !LiveAt(g, turns, k, key);
    SameMoment(g, turns, turn, k);
    assert !LiveAt(g, turns + [turn], k, key);
  }

  lemma RemovedLater(g: Program, turns: seq<Turn>, turn: Turn, call: nat, key: Key, t: nat)
    requires Scheduled(g, turns + [turn]) && Scheduled(g, turns) && RemovedSince(g, turns, call, key, t)
    ensures RemovedSince(g, turns + [turn], call, key, t)
  {
    hide After, ViewAfter, IsLive;
    var turns' := turns + [turn];
    var k :| call < k < |turns| && turns[k].thread == t && LiveAt(g, turns, k, key) && !LiveAt(g, turns, k + 1, key);
    SameMoment(g, turns, turn, k);
    SameMoment(g, turns, turn, k + 1);
    assert turns'[k].thread == t && LiveAt(g, turns', k, key) && !LiveAt(g, turns', k + 1, key);
  }

  lemma SinceLater(g: Program, turns: seq<Turn>, turn: Turn, call: nat, key: Key, t: nat)
    requires Scheduled(g, turns + [turn]) && Scheduled(g, turns)
    ensures LiveSince(g, turns, call, key) ==> LiveSince(g, turns + [turn], call, key)
    ensures AbsentSince(g, turns, call, key) ==> AbsentSince(g, turns + [turn], call, key)
    ensures RemovedSince(g, turns, call, key, t) ==> RemovedSince(g, turns + [turn], call, key, t)
  {
    if LiveSince(g, turns, call, key) {
      LiveLater(g, turns, turn, call, key);
    }
    if AbsentSince(g, turns, call, key) {
      AbsentLater(g, turns, turn, call, key);
    }
    if RemovedSince(g, turns, call, key, t) {
      RemovedLater(g, turns, turn, call, key, t);
    }
  }

  /** Whether the key is live right after the last step, as a witness for the `Since` predicates. */
  lemma Now(g: Program, turns: seq<Turn>, turn: Turn, call: nat, key: Key)
    requires Scheduled(g, turns + [turn]) && turn.thread < g.threads && Scheduled(g, turns) && call < |turns|
    ensures var live := IsLive(After(g, turns + [turn]).nodes, ViewAfter(g, turns + [turn]), key);
            && (live ==> LiveSince(g, turns + [turn], call, key))
            && (!live ==> AbsentSince(g, turns + [turn], call, key))
            && (!live && IsLive(After(g, turns).nodes, ViewAfter(g, turns), key) ==>
                  RemovedSince(g, turns + [turn], call, key, turn.thread))
  {
    LastMoment(g, turns, turn);
    var turns' := turns + [turn];
    assert LiveAt(g, turns', |turns'|, key) == IsLive(After(g, turns').nodes, ViewAfter(g, turns'), key);
    assert LiveAt(g, turns', |turns|, key) == IsLive(After(g, turns).nodes, ViewAfter(g, turns), key);
    assert turns'[|turns|] == turn;
  }

  /** Links, revivals and marks change exactly the liveness of the stepping thread's own key. */
  lemma EffectOnKey(p: Params, s: State, v: View, t: nat, op: Op)
    requires t < |s.threads| && Structure(p, s, v) && !s.threads[t].Idle?
    ensures var key := s.threads[t].op.key;
            var live, live' := IsLive(s.nodes, v, key), IsLive(Step(p, s, t, op).nodes, NextView(s, v, t), key);
            && (LinksNode(s, t) || Revives(s, t) ==> live')
            && (Marks(s, t) ==> live && !live')
            && (!LinksNode(s, t) && !Revives(s, t) && !Marks(s, t) ==> live' == live)
  {
    var pc, s', v' := s.threads[t], Step(p, s, t, op), NextView(s, v, t);
    assert LocalsOk(p, s.nodes, v, pc) && PrivateOk(p, s.nodes, v, pc);
    KeysStay(p, s, t, op);
    if LinksNode(s, t) {
      LinkAddsLive(p, s, v, t, op);
      assert pc.node in Live(s'.nodes, v');
    } else if Revives(s, t) {
      ReviveAddsLive(p, s, v, t, op);
      assert pc.found in Live(s'.nodes, v');
    } else if Marks(s, t) {
      StepKeepsStructure(p, s, v, t, op);
      FlagDecides(p, s, v, pc.op, pc.found);
      FlagDecides(p, s', v', pc.op, pc.found);
    } else {
      OtherwiseLiveStays(p, s, v, t, op);
      assert forall n :: n in Live(s.nodes, v) ==> s'.nodes[n].key == s.nodes[n].key;
    }
  }

  /** The operation stays the same until the thread is idle again. */
  lemma OpStays(p: Params, s: State, t: nat, op: Op)
    requires t < |s.threads|
    ensures var pc, pc' := s.threads[t], Step(p, s, t, op).threads[t];
            !pc'.Idle? ==> pc'.op == if pc.Idle? then op else pc.op
  {
  }

  /** What the stepping thread's new program counter claims about its key is now witnessed. */
  lemma StepJustified(g: Program, turns: seq<Turn>, turn: Turn)
    requires Scheduled(g, turns + [turn]) && turn.thread < g.threads && Scheduled(g, turns)
    requires ThreadOk(g, turns, turn.thread) && !After(g, turns).threads[turn.thread].Idle?
    ensures Justified(g, turns + [turn], LastCall(g, turns, turn.thread), turn.thread,
                      After(g, turns + [turn]).threads[turn.thread])
  {
    hide After, ViewAfter, LastCall, Structure, PrivateOk, SortedList, CounterExact, Live, IsLive, LiveSince, AbsentSince,
      RemovedSince, NextView;
    var p, turns', t, s, v := g.params, turns + [turn], turn.thread, After(g, turns), ViewAfter(g, turns);
    var pc, call := s.threads[t], LastCall(g, turns, t);
    LastMoment(g, turns, turn);
    Reachable(g, turns);
    OwnLocals(p, s, v, t);
    SinceLater(g, turns, turn, call, pc.op.key, t);
    Now(g, turns, turn, call, pc.op.key);
    EffectOnKey(p, s, v, t, turn.op);
    if pc.FindStart? {
      StartWalk(p, s.nodes, v, pc.op);
      if Missed(p, s.nodes, pc.op, NextOf(s.nodes, 0)) {
        MissIsExact(p, s, v, pc.op, 0);
      }
    } else if pc.FindAt? && WalksOn(p, s.nodes, pc.op, pc.curr) {
      WalkOn(p, s.nodes, v, pc.op, pc.prev, pc.curr);
      if Missed(p, s.nodes, pc.op, NextOf(s.nodes, pc.curr.value)) {
        MissIsExact(p, s, v, pc.op, pc.curr.value);
      }
    } else if pc.PutLoadDeleted? || pc.DelLoadDeleted? {
      FlagDecides(p, s, v, pc.op, pc.found);
    }
  }

  lemma {:induction false} ThreadsOk(g: Program, turns: seq<Turn>, t: nat)
    requires Scheduled(g, turns) && t < g.threads
    ensures ThreadOk(g, turns, t)
  {
    if turns != [] {
      var before, last := turns[..|turns| - 1], turns[|turns| - 1];
      assert turns == before + [last];
      ThreadsOk(g, before, t);
      LastMoment(g, before, last);
      Reachable(g, before);
      var s := After(g, before);
      KeysStay(g.params, s, last.thread, last.op);
      assert LocalsOk(g.params, s.nodes, ViewAfter(g, before), s.threads[t]);
      if last.thread != t {
        JustifiedLater(g, before, last, LastCall(g, before, t), t, s.threads[t]);
      } else {
        OpStays(g.params, s, t, last.op);
        if !s.threads[t].Idle? {
          StepJustified(g, before, last);
        }
      }
    }
  }

  lemma {:induction false} CalledWhenIdle(g: Program, turns: seq<Turn>, t: nat)
    requires Scheduled(g, turns) && t < g.threads && !After(g, turns).threads[t].Idle?
    ensures LastCall(g, turns, t) < |turns| && After(g, turns[..LastCall(g, turns, t)]).threads[t].Idle?
  {
    var before, last := turns[..|turns| - 1], turns[|turns| - 1];
    assert turns == before + [last];
    LastMoment(g, before, last);
    if last.thread != t || !After(g, before).threads[t].Idle? {
      KeysStay(g.params, After(g, before), last.thread, last.op);
      CalledWhenIdle(g, before, t);
      SameMoment(g, before, last, LastCall(g, before, t));
    }
  }

  /**
   A finished Put found or made its key live at some moment after its call; a Delete that reports
   success took a live key away itself; a Delete that reports failure found the key absent.
   */
  lemma AnswersWereExact(g: Program, turns: seq<Turn>, t: nat)
    requires Scheduled(g, turns) && t < g.threads && After(g, turns).threads[t].Returned?
    ensures var pc, call := After(g, turns).threads[t], LastCall(g, turns, t);
            && call < |turns| && turns[call] == Turn(t, pc.op)
            && (if pc.op.Put? then LiveSince(g, turns, call, pc.op.key)
                else if pc.answer then RemovedSince(g, turns, call, pc.op.key, t)
                else AbsentSince(g, turns, call, pc.op.key))
  {
    ThreadsOk(g, turns, t);
  }
}
