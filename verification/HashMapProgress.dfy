/**
 Progress of the lock-free hash map: a Put or Delete that is left alone finishes, within as many steps
 as the list is long and a few more, whatever the others have done before; a Get finishes beside any
 writers; and with no call in flight every linked node's bucket has an entry.
 */
module HashMapProgress {
  import opened Common
  import opened HashMapSteps
  import opened HashMapRuns
  import opened HashMapReaders

  /** What the thread has read still holds, so that its next compare-and-swap will succeed. */
  ghost predicate UpToDate(s: State, pc: Pc) {
    match pc
    case FindAt(_, prev, curr) => NextOf(s.nodes, prev) == curr
    case PutRevive(_, found) => IsDeleted(s.nodes, found)
    case PutReloadHead(_, _, curr) => NextOf(s.nodes, 0) == curr
    case PutLink(_, _, prev, curr) => NextOf(s.nodes, prev) == curr
    case DelMark(_, found) => !IsDeleted(s.nodes, found)
    case _ => true
  }

  /** How many steps are left at most, for a thread that runs alone. */
  ghost function StepsLeft(s: State, v: View, pc: Pc): int {
    var n := |v.pos|;
    match pc
    case Idle => 0
    case FindStart(_) => n + 5
    case FindAt(_, prev, _) => if UpToDate(s, pc) && v.Has(prev) then n - v.pos[prev] + 4 else n + 9
    case PutLoadDeleted(_, _) => 4
    case PutRevive(_, _) => if UpToDate(s, pc) then 3 else n + 6
    case PutReviveStore(_, _) => 2
    case PutUpdate(_, _) => 1
    case PutReloadHead(_, _, _) => if UpToDate(s, pc) then 4 else n + 8
    case PutLink(_, _, _, _) => if UpToDate(s, pc) then 3 else n + 7
    case PutAddCount(_, linked) => if linked.Some? then 2 else 1
    case PutSetBucket(_, _) => 1
    case DelLoadDeleted(_, _) => 3
    case DelMark(_, _) => if UpToDate(s, pc) then 2 else n + 6
    case DelSubCount(_) => 1
    case Returned(_, _) => 0
  }

  lemma StepsBounded(p: Params, s: State, v: View, t: nat)
    requires t < |s.threads| && Structure(p, s, v)
    ensures 0 <= StepsLeft(s, v, s.threads[t]) <= |v.pos| + 9
    ensures StepsLeft(s, v, s.threads[t]) == 0 ==> s.threads[t].Idle? || s.threads[t].Returned?
  {
    OwnLocals(p, s, v, t);
    var pc := s.threads[t];
    if pc.FindAt? {
      assert Linked(s.nodes, v, pc.prev);
    }
  }

  lemma StepAdvances(p: Params, s: State, v: View, t: nat, op: Op)
    requires t < |s.threads| && Structure(p, s, v) && !s.threads[t].Idle? && !s.threads[t].Returned?
    ensures StepsLeft(Step(p, s, t, op), NextView(s, v, t), Step(p, s, t, op).threads[t]) < StepsLeft(s, v, s.threads[t])
    ensures !Step(p, s, t, op).threads[t].Idle?
  {
    OwnLocals(p, s, v, t);
    hide Structure, Step, StepsLeft, LocalsOk, PrivateOk, NextView;
    var pc := s.threads[t];
    if pc.FindStart? || pc.FindAt? {
      FindAdvances(p, s, v, t, op);
    } else {
      RestAdvances(p, s, v, t, op);
    }
  }

  lemma FindAdvances(p: Params, s: State, v: View, t: nat, op: Op)
    requires t < |s.threads| && SortedList(p, s.nodes, v) && LocalsOk(p, s.nodes, v, s.threads[t])
    requires s.threads[t].FindStart? || s.threads[t].FindAt?
    ensures StepsLeft(Step(p, s, t, op), NextView(s, v, t), Step(p, s, t, op).threads[t]) < StepsLeft(s, v, s.threads[t])
    ensures !Step(p, s, t, op).threads[t].Idle?
  {
    var pc := s.threads[t];
    if pc.FindAt? {
      FirstWalk(p, s, v, pc);
      NewNodeApart(p, s, v, pc);
    } else {
      assert Linked(s.nodes, v, 0);
    }
    hide SortedList, LocalsOk;
  }

  /** A new node changes nothing about the others' next pointers. */
  lemma NewNodeApart(p: Params, s: State, v: View, pc: Pc)
    requires pc.FindAt? && SortedList(p, s.nodes, v) && LocalsOk(p, s.nodes, v, pc)
    ensures forall node :: NextOf(s.nodes + [node], pc.prev) == NextOf(s.nodes, pc.prev)
    ensures forall node :: NextOf(s.nodes + [node], 0) == NextOf(s.nodes, 0)
  {
    assert Linked(s.nodes, v, pc.prev);
  }

  lemma RestAdvances(p: Params, s: State, v: View, t: nat, op: Op)
    requires t < |s.threads| && LocalsOk(p, s.nodes, v, s.threads[t]) && PrivateOk(p, s.nodes, v, s.threads[t])
    requires var pc := s.threads[t]; !pc.Idle? && !pc.Returned? && !pc.FindStart? && !pc.FindAt?
    ensures StepsLeft(Step(p, s, t, op), NextView(s, v, t), Step(p, s, t, op).threads[t]) < StepsLeft(s, v, s.threads[t])
    ensures !Step(p, s, t, op).threads[t].Idle?
  {
    var pc := s.threads[t];
    if pc.PutReloadHead? {
      assert v.Has(0) && pc.node != 0;
    }
  }

  /** A walk that goes on goes to the next position. */
  lemma FirstWalk(p: Params, s: State, v: View, pc: Pc)
    requires pc.FindAt? && SortedList(p, s.nodes, v) && LocalsOk(p, s.nodes, v, pc)
    ensures v.Has(pc.prev) && v.pos[pc.prev] < |v.pos|
    ensures WalksOn(p, s.nodes, pc.op, pc.curr) ==> v.Has(pc.curr.value) && v.pos[pc.prev] < v.pos[pc.curr.value] < |v.pos|
  {
    assert Linked(s.nodes, v, pc.prev);
    if pc.curr.Some? {
      assert Linked(s.nodes, v, pc.curr.value);
    }
  }

  ghost function Alone(t: nat, op: Op, n: nat): (turns: seq<Turn>)
    ensures |turns| == n && forall i :: 0 <= i < n ==> turns[i] == Turn(t, op)
  {
    seq(n, _ => Turn(t, op))
  }

  /** Left alone, a thread in the middle of a call returns within this many steps. */
  lemma {:induction false} FinishesAlone(g: Program, turns: seq<Turn>, t: nat, op: Op) returns (n: nat)
    requires Scheduled(g, turns) && t < g.threads && !After(g, turns).threads[t].Idle?
    ensures n <= |ViewAfter(g, turns).pos| + 9
    ensures n <= StepsLeft(After(g, turns), ViewAfter(g, turns), After(g, turns).threads[t])
    ensures Scheduled(g, turns + Alone(t, op, n)) && After(g, turns + Alone(t, op, n)).threads[t].Returned?
    decreases StepsLeft(After(g, turns), ViewAfter(g, turns), After(g, turns).threads[t])
  {
    hide After, ViewAfter, Structure, CounterExact, Step, NextView, StepsLeft;
    var p, s, v := g.params, After(g, turns), ViewAfter(g, turns);
    Reachable(g, turns);
    StepsBounded(p, s, v, t);
    if s.threads[t].Returned? {
      n := 0;
      assert turns + Alone(t, op, 0) == turns;
    } else {
      var more := turns + [Turn(t, op)];
      LastMoment(g, turns, Turn(t, op));
      StepAdvances(p, s, v, t, op);
      Reachable(g, more);
      StepsBounded(p, After(g, more), ViewAfter(g, more), t);
      var m := FinishesAlone(g, more, t, op);
      n := m + 1;
      assert turns + Alone(t, op, n) == more + Alone(t, op, m);
    }
  }

  // ---------------------------------------------------------------------------------------
  // Get.

  /** Each look takes the reader at least one position on. */
  lemma {:induction false} ReaderAdvances(g: Program, turns: seq<Turn>, key: Key, moments: seq<nat>)
    requires Reading(g, turns, moments) && moments != [] && g.params.hashOf("") != 0
    ensures var k, r := moments[|moments| - 1], ReaderAfter(g, turns, key, moments);
            && (r.At? && r.curr.Some? ==>
                  ViewAfter(g, turns[..k]).Has(r.curr.value) && |moments| - 1 <= ViewAfter(g, turns[..k]).pos[r.curr.value])
            && !r.Start?
  {
    var front, k := moments[..|moments| - 1], moments[|moments| - 1];
    hide After, ViewAfter, Structure, CounterExact;
    var s, v := After(g, turns[..k]), ViewAfter(g, turns[..k]);
    Reachable(g, turns[..k]);
    ReaderTells(g, turns, key, moments);
    if front != [] {
      ReaderAdvances(g, turns, key, front);
      var before, r := front[|front| - 1], ReaderAfter(g, turns, key, front);
      if r.At? && r.curr.Some? {
        PositionsGrow(g, turns, before, k, r.curr.value);
        LinkedIn(g.params, s, v, r.curr.value);
      }
    }
  }

  lemma LinkedIn(p: Params, s: State, v: View, n: nat)
    requires Structure(p, s, v) && v.Has(n)
    ensures Linked(s.nodes, v, n)
  {
  }

  lemma {:induction false} PositionsGrow(g: Program, turns: seq<Turn>, i: nat, j: nat, n: nat)
    requires Scheduled(g, turns) && i <= j <= |turns| && ViewAfter(g, turns[..i]).Has(n)
    ensures ViewAfter(g, turns[..j]).Has(n) && ViewAfter(g, turns[..i]).pos[n] <= ViewAfter(g, turns[..j]).pos[n]
  {
    if i < j {
      PositionsGrow(g, turns, i, j - 1, n);
      var before, t := turns[..j - 1], turns[j - 1].thread;
      assert turns[..j][..j - 1] == before;
      var s, v := After(g, before), ViewAfter(g, before);
      assert ViewAfter(g, turns[..j]) == NextView(s, v, t);
      hide After, ViewAfter, Structure, CounterExact, SortedList, BucketsOk, LocalsOk;
      Reachable(g, before);
      OwnLocals(g.params, s, v, t);
    }
  }

  /** A Get has its answer after as many looks as there are linked nodes and three more. */
  lemma ReaderFinishes(g: Program, turns: seq<Turn>, key: Key, moments: seq<nat>)
    requires Reading(g, turns, moments) && g.params.hashOf("") != 0 && moments != []
    requires |moments| > |ViewAfter(g, turns[..moments[|moments| - 1]]).pos| + 3
    ensures var r := ReaderAfter(g, turns, key, moments); r.Hit? || r.Miss?
  {
    hide After, ViewAfter, Structure, CounterExact;
    var k := |moments| - 1;
    var one, two := moments[..k], moments[..k - 1];
    assert one[..k - 1] == two;
    var s, v := After(g, turns[..two[k - 2]]), ViewAfter(g, turns[..two[k - 2]]);
    ReaderAdvances(g, turns, key, two);
    Reachable(g, turns[..two[k - 2]]);
    ViewGrows(g, turns, two[k - 2], moments[k]);
    var r := ReaderAfter(g, turns, key, two);
    if r.At? && r.curr.Some? {
      LinkedIn(g.params, s, v, r.curr.value);
    }
    ReaderTells(g, turns, key, one);
    assert r.Clear? ==> ReaderAfter(g, turns, key, one).Hit? || ReaderAfter(g, turns, key, one).Miss?;
  }

  lemma {:induction false} ViewGrows(g: Program, turns: seq<Turn>, i: nat, j: nat)
    requires Scheduled(g, turns) && i <= j <= |turns|
    ensures |ViewAfter(g, turns[..i]).pos| <= |ViewAfter(g, turns[..j]).pos|
  {
    hide After, ViewAfter;
    NeverUnlinked(g, turns, i, j);
    var a, b := ViewAfter(g, turns[..i]).pos, ViewAfter(g, turns[..j]).pos;
    assert |a| == |a.Keys| && |b| == |b.Keys| && b.Keys == a.Keys + (b.Keys - a.Keys);
  }

  // ---------------------------------------------------------------------------------------
  // Buckets.

  function BucketOf(s: State, n: nat): nat
    requires n < |s.nodes|
  {
    if s.bucketCount == 0 then 0 else s.nodes[n].hash % s.bucketCount
  }

  /** Somebody is about to see to the node's bucket. */
  ghost predicate Pending(s: State, n: nat, t: nat) {
    && t < |s.threads|
    && ((s.threads[t].PutAddCount? && s.threads[t].linked == Some(n)) || (s.threads[t].PutSetBucket? && s.threads[t].node == n))
  }

  ghost predicate BucketSeen(s: State, n: nat)
    requires n < |s.nodes|
  {
    BucketOf(s, n) in s.buckets || exists t :: Pending(s, n, t)
  }

  ghost predicate AllBucketsSeen(s: State, v: View) {
    forall n: nat {:trigger v.Has(n)} :: v.Has(n) && n != 0 ==> n < |s.nodes| && BucketSeen(s, n)
  }

  /** What a step does to the buckets, and to whoever is about to see to one. */
  lemma BucketStep(p: Params, s: State, v: View, t: nat, op: Op, n: nat)
    requires t < |s.threads| && LocalsOk(p, s.nodes, v, s.threads[t]) && SortedList(p, s.nodes, v) && n < |s.nodes|
    requires v.Has(n) && n != 0 && Pending(s, n, t)
    ensures var s' := Step(p, s, t, op);
            Pending(s', n, t) || (n < |s'.nodes| && BucketOf(s', n) in s'.buckets)
  {
  }

  lemma BucketsStay(p: Params, s: State, t: nat, op: Op)
    requires t < |s.threads|
    ensures var s' := Step(p, s, t, op);
            s'.bucketCount == s.bucketCount && forall b :: b in s.buckets ==> b in s'.buckets && s'.buckets[b] == s.buckets[b]
  {
  }

  lemma StepKeepsSeen(p: Params, s: State, v: View, t: nat, op: Op)
    requires t < |s.threads| && Structure(p, s, v) && AllBucketsSeen(s, v)
    ensures AllBucketsSeen(Step(p, s, t, op), NextView(s, v, t))
  {
    var s', v' := Step(p, s, t, op), NextView(s, v, t);
    OwnLocals(p, s, v, t);
    ListedExist(p, s, v);
    KeysStay(p, s, t, op);
    BucketsStay(p, s, t, op);
    StepKeepsStructure(p, s, v, t, op);
    ListedExist(p, s', v');
    hide Structure, SortedList, LocalsOk, PrivateOk, BucketsOk, Step;
    forall n: nat | v'.Has(n) && n != 0 ensures n < |s'.nodes| && BucketSeen(s', n) {
      if v.Has(n) {
        assert BucketSeen(s, n);
        if BucketOf(s, n) !in s.buckets {
          var u :| Pending(s, n, u);
          if u == t {
            BucketStep(p, s, v, t, op, n);
          } else {
            assert Pending(s', n, u);
          }
        }
      } else {
        LinkStepShape(p, s, t, op);
        assert Pending(s', n, t);
      }
    }
  }

  lemma {:induction false} ReachableSeen(g: Program, turns: seq<Turn>)
    requires Scheduled(g, turns)
    ensures AllBucketsSeen(After(g, turns), ViewAfter(g, turns))
  {
    if turns != [] {
      var before, last := turns[..|turns| - 1], turns[|turns| - 1];
      ReachableSeen(g, before);
      Reachable(g, before);
      StepKeepsSeen(g.params, After(g, before), ViewAfter(g, before), last.thread, last.op);
    }
  }

  /** With no call in flight the bucket of every linked node has an entry, so no later Get begins at the head for it. */
  lemma QuiescentBuckets(g: Program, turns: seq<Turn>, n: nat)
    requires Scheduled(g, turns)
    requires forall t :: 0 <= t < g.threads ==> After(g, turns).threads[t].Idle? || After(g, turns).threads[t].Returned?
    requires ViewAfter(g, turns).Has(n) && n != 0
    ensures n < |After(g, turns).nodes| && BucketOf(After(g, turns), n) in After(g, turns).buckets
  {
    hide After, ViewAfter;
    ReachableSeen(g, turns);
    assert BucketSeen(After(g, turns), n);
  }
}
