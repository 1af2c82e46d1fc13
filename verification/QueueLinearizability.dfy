/**
 Linearizability of the lock-free queue: every interleaving of any number of threads has a
 sequential FIFO history in which each finished operation occurs exactly once, with the answer
 it gave, at a moment between its call and its return.
 */
module QueueLinearizability {
  import opened Common
  import opened LockFreeQueue

  /** Who takes the next atomic step; `op` is what the thread calls if it is idle. */
  datatype Turn = Turn(thread: nat, op: Op)

  ghost predicate Scheduled(threads: nat, turns: seq<Turn>) {
    forall i :: 0 <= i < |turns| ==> turns[i].thread < threads
  }

  /** The state an interleaving reaches. */
  ghost function After(threads: nat, turns: seq<Turn>): (s: State)
    requires Scheduled(threads, turns)
    ensures |s.threads| == threads
  {
    if turns == [] then Init(threads)
    else
      var last := turns[|turns| - 1];
      Step(After(threads, turns[..|turns| - 1]), last.thread, last.op)
  }

  /** The state at moment `k`, after the first `k` steps. */
  ghost function At(threads: nat, turns: seq<Turn>, k: nat): (s: State)
    requires Scheduled(threads, turns) && k <= |turns|
    ensures |s.threads| == threads
  {
    After(threads, turns[..k])
  }

  ghost function QueueAt(threads: nat, turns: seq<Turn>, k: nat): seq<Value>
    requires Scheduled(threads, turns) && k <= |turns|
  {
    Contents(At(threads, turns, k))
  }

  ghost function ViewAfter(threads: nat, turns: seq<Turn>): View
    requires Scheduled(threads, turns)
  {
    if turns == [] then InitialView
    else
      var before := turns[..|turns| - 1];
      NextView(After(threads, before), ViewAfter(threads, before), turns[|turns| - 1].thread)
  }

  /** The queue invariant holds in every reachable state. */
  lemma {:induction false} ReachableInv(threads: nat, turns: seq<Turn>)
    requires Scheduled(threads, turns)
    ensures Inv(After(threads, turns), ViewAfter(threads, turns))
  {
    if turns == [] {
      InitInv(threads);
    } else {
      var before, last := turns[..|turns| - 1], turns[|turns| - 1];
      ReachableInv(threads, before);
      StepKeepsInv(After(threads, before), ViewAfter(threads, before), last.thread, last.op);
    }
  }

  /** No interleaving ever dereferences a nil node. */
  lemma NeverCrashes(threads: nat, turns: seq<Turn>, t: nat)
    requires Scheduled(threads, turns) && t < threads
    ensures !After(threads, turns).threads[t].Crashed?
  {
    ReachableInv(threads, turns);
    assert LocalsOk(After(threads, turns), ViewAfter(threads, turns), After(threads, turns).threads[t]);
  }

  /** The moment of thread `t`'s most recent call. */
  ghost function LastCall(threads: nat, turns: seq<Turn>, t: nat): (c: nat)
    requires Scheduled(threads, turns) && t < threads
    ensures turns != [] ==> c < |turns|
  {
    if turns == [] then 0
    else
      var before, last := turns[..|turns| - 1], turns[|turns| - 1];
      if last.thread == t && After(threads, before).threads[t].Idle? then |before|
      else LastCall(threads, before, t)
  }

  // ---------------------------------------------------------------------------------------
  // The sequential specification: what one operation does to a plain FIFO sequence.

  ghost function Apply(q: seq<Value>, op: Op): (seq<Value>, Answer) {
    match op
    case Enqueue(v) => (q + [v], Enqueued)
    case Dequeue => if q == [] then (q, Nothing) else (q[1..], Got(q[0]))
    case Peek => (q, if q == [] then Nothing else Got(q[0]))
    case IsEmpty => (q, Truth(q == []))
  }

  /** One operation in a sequential history: called by `thread` at moment `call`. */
  datatype Entry = Entry(thread: nat, call: nat, op: Op, answer: Answer)

  /** Performing `history` one after another from `q` gives those answers and ends in `q'`. */
  ghost predicate Replays(q: seq<Value>, history: seq<Entry>, q': seq<Value>)
    decreases |history|
  {
    if history == [] then q == q'
    else
      && Apply(q, history[0].op).1 == history[0].answer
      && Replays(Apply(q, history[0].op).0, history[1..], q')
  }

  lemma {:induction false} ReplaysConcat(q: seq<Value>, a: seq<Entry>, q': seq<Value>, b: seq<Entry>, q'': seq<Value>)
    requires Replays(q, a, q') && Replays(q', b, q'')
    ensures Replays(q, a + b, q'')
    decreases |a|
  {
    if a == [] {
      assert a + b == b;
    } else {
      ReplaysConcat(Apply(q, a[0].op).0, a[1..], q', b, q'');
      assert (a + b)[1..] == a[1..] + b;
    }
  }

  // ---------------------------------------------------------------------------------------
  // A linearization assigns to every moment k the operations that take effect there: first the
  // one that turns the queue of moment k-1 into that of moment k, then those that only look.

  type Linearization = seq<seq<Entry>>

  ghost function Mentions(l: Linearization, t: nat, call: nat): nat {
    if l == [] then 0
    else Mentions(l[..|l| - 1], t, call)
         + Count(l[|l| - 1], (e: Entry) => e.thread == t && e.call == call)
  }

  ghost predicate HasBy(l: Linearization, moment: nat, e: Entry) {
    exists k, i :: 0 <= k < |l| && k <= moment && 0 <= i < |l[k]| && l[k][i] == e
  }

  /** The entry stands for a call that was really made, strictly before moment `k`. */
  ghost predicate Genuine(threads: nat, turns: seq<Turn>, k: nat, e: Entry)
    requires Scheduled(threads, turns) && k <= |turns|
  {
    && e.call < k
    && turns[e.call].thread == e.thread
    && turns[e.call].op == e.op
    && At(threads, turns, e.call).threads[e.thread].Idle?
  }

  /** The history is sequentially correct, moment by moment, and lists no operation twice. */
  ghost predicate Legal(threads: nat, turns: seq<Turn>, l: Linearization)
    requires Scheduled(threads, turns)
  {
    && |l| == |turns| + 1
    && l[0] == []
    && (forall k :: 0 < k <= |turns| ==> Replays(QueueAt(threads, turns, k - 1), l[k], QueueAt(threads, turns, k)))
    && (forall k, i :: 0 <= k <= |turns| && 0 <= i < |l[k]| ==> Genuine(threads, turns, k, l[k][i]))
    && (forall t, c :: Mentions(l, t, c) <= 1)
  }

  /** Every operation that has returned is listed, no later than its return, with its answer. */
  ghost predicate Complete(threads: nat, turns: seq<Turn>, l: Linearization)
    requires Scheduled(threads, turns)
  {
    forall k, t :: 0 <= k <= |turns| && 0 <= t < threads && At(threads, turns, k).threads[t].Returned? ==>
      ListedBy(threads, turns, l, k, t)
  }

  ghost predicate ListedBy(threads: nat, turns: seq<Turn>, l: Linearization, k: nat, t: nat)
    requires Scheduled(threads, turns) && k <= |turns| && t < threads
    requires At(threads, turns, k).threads[t].Returned?
  {
    var pc := At(threads, turns, k).threads[t];
    HasBy(l, k, Entry(t, LastCall(threads, turns[..k], t), pc.op, pc.answer))
  }

  // ---------------------------------------------------------------------------------------
  // What each thread's program counter promises about the history built so far.

  ghost predicate WasEmptySince(threads: nat, turns: seq<Turn>, call: nat)
    requires Scheduled(threads, turns)
  {
    exists k :: call < k <= |turns| && QueueAt(threads, turns, k) == []
  }

  ghost predicate WasFrontSince(threads: nat, turns: seq<Turn>, call: nat, v: Value)
    requires Scheduled(threads, turns)
  {
    exists k :: call < k <= |turns| && QueueAt(threads, turns, k) != [] && QueueAt(threads, turns, k)[0] == v
  }

  /** The operation a thread is performing, as far as its program counter tells. */
  ghost function OpOf(nodes: seq<Node>, pc: Pc): Op
    requires !pc.Idle? && !pc.Crashed?
  {
    match pc
    case Returned(op, _) => op
    case EnqLoadTail(node) => Enqueue(ValueOf(nodes, node))
    case EnqLoadNext(node, _) => Enqueue(ValueOf(nodes, node))
    case EnqCheckTail(node, _, _) => Enqueue(ValueOf(nodes, node))
    case EnqLink(node, _) => Enqueue(ValueOf(nodes, node))
    case EnqSwing(node, _) => Enqueue(ValueOf(nodes, node))
    case EnqHelp(node, _, _) => Enqueue(ValueOf(nodes, node))
    case PeekLoadHead => Peek
    case PeekLoadNext(_) => Peek
    case PeekReadValue(_) => Peek
    case IsEmptyLoadHead => IsEmpty
    case IsEmptyLoadNext(_) => IsEmpty
    case _ => Dequeue
  }

  ghost predicate TakenEffect(pc: Pc) { pc.EnqSwing? || pc.Returned? }

  ghost function Outcome(nodes: seq<Node>, t: nat, call: nat, pc: Pc): Entry
    requires TakenEffect(pc)
  {
    Entry(t, call, OpOf(nodes, pc), if pc.Returned? then pc.answer else Enqueued)
  }

  /** An answer that only looks at the queue was exact at some moment since the call. */
  ghost predicate Observed(threads: nat, turns: seq<Turn>, nodes: seq<Node>, call: nat, pc: Pc)
    requires Scheduled(threads, turns)
  {
    match pc
    case DeqCheckHead(_, _, loaded) => loaded.None? ==> WasEmptySince(threads, turns, call)
    case PeekLoadNext(head) =>
      NextOf(nodes, head).Some? ==> WasFrontSince(threads, turns, call, ValueOf(nodes, NextOf(nodes, head).value))
    case PeekReadValue(next) => WasFrontSince(threads, turns, call, ValueOf(nodes, next))
    case IsEmptyLoadNext(head) =>
      NextOf(nodes, head).Some? ==> WasFrontSince(threads, turns, call, ValueOf(nodes, NextOf(nodes, head).value))
    case _ => true
  }

  ghost predicate ThreadOk(threads: nat, turns: seq<Turn>, l: Linearization, t: nat)
    requires Scheduled(threads, turns) && t < threads
  {
    var s, call := After(threads, turns), LastCall(threads, turns, t);
    var pc := s.threads[t];
    !pc.Idle? && !pc.Crashed? ==>
      && call < |turns|
      && turns[call] == Turn(t, OpOf(s.nodes, pc))
      && At(threads, turns, call).threads[t].Idle?
      && Observed(threads, turns, s.nodes, call, pc)
      && (if TakenEffect(pc) then HasBy(l, |turns|, Outcome(s.nodes, t, call, pc))
          else Mentions(l, t, call) == 0)
  }

  ghost predicate Good(threads: nat, turns: seq<Turn>, l: Linearization)
    requires Scheduled(threads, turns)
  {
    && Legal(threads, turns, l)
    && Complete(threads, turns, l)
    && (forall t :: 0 <= t < threads ==> ThreadOk(threads, turns, l, t))
  }

  // ---------------------------------------------------------------------------------------
  // Moments of a longer interleaving that were already moments of the shorter one.

  lemma SameMoment(threads: nat, turns: seq<Turn>, turn: Turn, k: nat)
    requires Scheduled(threads, turns + [turn]) && k <= |turns|
    ensures (turns + [turn])[..k] == turns[..k]
    ensures Scheduled(threads, turns)
    ensures At(threads, turns + [turn], k) == At(threads, turns, k)
  {
    assert (turns + [turn])[..k] == turns[..k];
    assert forall i :: 0 <= i < |turns| ==> (turns + [turn])[i] == turns[i];
  }

  lemma LastMoment(threads: nat, turns: seq<Turn>, turn: Turn)
    requires Scheduled(threads, turns + [turn])
    ensures Scheduled(threads, turns)
    ensures At(threads, turns, |turns|) == After(threads, turns)
    ensures At(threads, turns + [turn], |turns|) == After(threads, turns)
    ensures At(threads, turns + [turn], |turns| + 1) == After(threads, turns + [turn])
    ensures After(threads, turns + [turn]) == Step(After(threads, turns), turn.thread, turn.op)
  {
    SameMoment(threads, turns, turn, |turns|);
    assert turns[..|turns|] == turns;
    assert (turns + [turn])[..|turns| + 1] == turns + [turn];
  }

  lemma LastCallStep(threads: nat, turns: seq<Turn>, turn: Turn, t: nat)
    requires Scheduled(threads, turns + [turn]) && Scheduled(threads, turns) && t < threads
    ensures LastCall(threads, turns + [turn], t) ==
            if turn.thread == t && After(threads, turns).threads[t].Idle? then |turns|
            else LastCall(threads, turns, t)
  {
    assert (turns + [turn])[..|turns|] == turns;
  }

  /** What one step leaves alone. */
  lemma StepFrame(s: State, t: nat, op: Op)
    requires t < |s.threads|
    ensures var s' := Step(s, t, op);
            && |s.nodes| <= |s'.nodes| && |s'.threads| == |s.threads|
            && (forall u :: 0 <= u < |s.threads| && u != t ==> s'.threads[u] == s.threads[u])
            && (forall i :: 0 <= i < |s.nodes| ==> s'.nodes[i].value == s.nodes[i].value)
            && (forall i :: 0 <= i < |s.nodes| && s'.nodes[i].next != s.nodes[i].next ==>
                  Links(s, t) && i == s.threads[t].tail && s'.nodes[i].next == Some(s.threads[t].node))
            && (forall i :: |s.nodes| <= i < |s'.nodes| ==> s'.nodes[i].next == None)
  {
  }

  /** Every node a program counter mentions exists. */
  lemma LocalsInRange(s: State, v: View, t: nat)
    requires t < |s.threads| && Inv(s, v)
    ensures var pc := s.threads[t];
            && (Private(pc).Some? || pc.EnqSwing? ==> pc.node < |s.nodes|)
            && (pc.PeekReadValue? || pc.DeqSwing? ==> pc.next < |s.nodes|)
            && (pc.PeekLoadNext? || pc.IsEmptyLoadNext? || pc.DeqLoadNext? ==>
                  && v.NoLater(pc.head, s.head)
                  && pc.head < |s.nodes|
                  && (s.nodes[pc.head].next.Some? ==> s.nodes[pc.head].next.value < |s.nodes|))
  {
    var pc := s.threads[t];
    assert PrivateOk(s.nodes, v, pc) && LocalsOk(s, v, pc);
    if pc.EnqSwing? {
      assert Linked(s.nodes, v, pc.node);
    } else if pc.PeekReadValue? || pc.DeqSwing? {
      assert Linked(s.nodes, v, pc.next);
    } else if pc.PeekLoadNext? || pc.IsEmptyLoadNext? || pc.DeqLoadNext? {
      assert Linked(s.nodes, v, pc.head);
      if s.nodes[pc.head].next.Some? {
        assert Linked(s.nodes, v, s.nodes[pc.head].next.value);
      }
    }
  }

  /** The front of the queue is whatever head's next pointer leads to. */
  lemma FrontOfQueue(s: State, v: View)
    requires Inv(s, v)
    ensures NextOf(s.nodes, s.head).None? <==> Contents(s) == []
    ensures NextOf(s.nodes, s.head).Some? ==>
              Contents(s) != [] && Contents(s)[0] == ValueOf(s.nodes, NextOf(s.nodes, s.head).value)
  {
    assert Linked(s.nodes, v, s.head);
  }

  /** A node at or before head whose next pointer is nil is head itself, and the queue is empty. */
  lemma NilNextMeansEmpty(s: State, v: View, node: nat)
    requires Inv(s, v) && v.NoLater(node, s.head) && NextOf(s.nodes, node).None?
    ensures node == s.head && Contents(s) == []
  {
    LastIffNilNext(s.nodes, v, node);
    assert v.chain[v.pos[node]] == v.chain[v.pos[s.head]];
    FrontOfQueue(s, v);
  }

  // ---------------------------------------------------------------------------------------
  // Bookkeeping on linearizations.

  ghost function Key(t: nat, call: nat): Entry -> bool {
    (e: Entry) => e.thread == t && e.call == call
  }

  lemma {:induction false} MentionsAre(l: Linearization, b: seq<Entry>, t: nat, call: nat)
    ensures Mentions(l + [b], t, call) == Mentions(l, t, call) + Count(b, Key(t, call))
  {
    assert (l + [b])[..|l|] == l;
    CountAgree(b, (e: Entry) => e.thread == t && e.call == call, Key(t, call));
  }

  lemma {:induction false} MentionsInsert(l: Linearization, k: nat, e: Entry, t: nat, call: nat)
    requires k < |l|
    ensures Mentions(l[k := l[k] + [e]], t, call) ==
            Mentions(l, t, call) + (if Key(t, call)(e) then 1 else 0)
  {
    var l', front, last := l[k := l[k] + [e]], l[..|l| - 1], l[|l| - 1];
    assert l == front + [last];
    MentionsAre(front, last, t, call);
    if k == |l| - 1 {
      assert l' == front + [last + [e]];
      MentionsAre(front, last + [e], t, call);
      CountAppend(last, e, Key(t, call));
    } else {
      assert l' == front[k := front[k] + [e]] + [last];
      MentionsAre(front[k := front[k] + [e]], last, t, call);
      MentionsInsert(front, k, e, t, call);
    }
  }

  /** A call made at a moment no entry has reached yet is not mentioned. */
  lemma {:induction false} FreshCall(l: Linearization, t: nat, call: nat)
    requires forall k, i :: 0 <= k < |l| && 0 <= i < |l[k]| ==> l[k][i].call < call
    ensures Mentions(l, t, call) == 0
  {
    if l != [] {
      var front, last := l[..|l| - 1], l[|l| - 1];
      assert forall k :: 0 <= k < |front| ==> front[k] == l[k];
      FreshCall(front, t, call);
      assert l == front + [last];
      MentionsAre(front, last, t, call);
      CountZero(last, Key(t, call));
    }
  }

  /** `l'` lists everything `l` lists, no later. */
  ghost predicate Extends(l: Linearization, l': Linearization) {
    |l| <= |l'| && forall k :: 0 <= k < |l| ==> l[k] <= l'[k]
  }

  lemma HasByExtends(l: Linearization, l': Linearization, moment: nat, moment': nat, e: Entry)
    requires Extends(l, l') && moment <= moment' && HasBy(l, moment, e)
    ensures HasBy(l', moment', e)
  {
    var k, i :| 0 <= k < |l| && k <= moment && 0 <= i < |l[k]| && l[k][i] == e;
    assert l'[k][i] == e;
  }

  /** Adds the last moment: nothing took effect there, or the one operation that changed the queue. */
  lemma AddMoment(threads: nat, turns: seq<Turn>, turn: Turn, l: Linearization, es: seq<Entry>)
    requires Scheduled(threads, turns + [turn]) && Scheduled(threads, turns) && Legal(threads, turns, l)
    requires |es| <= 1
    requires es != [] ==> Mentions(l, es[0].thread, es[0].call) == 0
    requires es != [] ==> Genuine(threads, turns + [turn], |turns| + 1, es[0])
    requires Replays(Contents(After(threads, turns)), es, Contents(After(threads, turns + [turn])))
    ensures Legal(threads, turns + [turn], l + [es])
    ensures Extends(l, l + [es])
  {
    var turns', l' := turns + [turn], l + [es];
    LastMoment(threads, turns, turn);
    forall k | 0 < k <= |turns|
      ensures Replays(QueueAt(threads, turns', k - 1), l'[k], QueueAt(threads, turns', k))
    {
      SameMoment(threads, turns, turn, k - 1);
      SameMoment(threads, turns, turn, k);
      assert l'[k] == l[k];
      assert Replays(QueueAt(threads, turns, k - 1), l[k], QueueAt(threads, turns, k));
    }
    assert Replays(QueueAt(threads, turns', |turns|), l'[|turns'|], QueueAt(threads, turns', |turns'|));
    forall k, i | 0 <= k <= |turns'| && 0 <= i < |l'[k]| ensures Genuine(threads, turns', k, l'[k][i]) {
      if k <= |turns| {
        assert Genuine(threads, turns, k, l[k][i]);
        SameMoment(threads, turns, turn, l[k][i].call);
      }
    }
    forall t, c ensures Mentions(l', t, c) <= 1 {
      MentionsAre(l, es, t, c);
      if es != [] && Key(t, c)(es[0]) {
        assert Mentions(l, t, c) == 0;
      } else {
        CountZero(es, Key(t, c));
      }
    }
  }

  /** Adds, at an earlier or the present moment `k`, an operation that only looked. */
  lemma AddLook(threads: nat, turns: seq<Turn>, l: Linearization, k: nat, e: Entry)
    requires Scheduled(threads, turns) && Legal(threads, turns, l)
    requires 0 < k <= |turns|
    requires Mentions(l, e.thread, e.call) == 0
    requires Genuine(threads, turns, k, e)
    requires Apply(QueueAt(threads, turns, k), e.op) == (QueueAt(threads, turns, k), e.answer)
    ensures Legal(threads, turns, l[k := l[k] + [e]])
    ensures Extends(l, l[k := l[k] + [e]])
    ensures HasBy(l[k := l[k] + [e]], k, e)
  {
    hide After, Mentions;
    var l' := l[k := l[k] + [e]];
    assert l'[k][|l[k]|] == e;
    var q := QueueAt(threads, turns, k);
    assert Replays(q, [e], q);
    ReplaysConcat(QueueAt(threads, turns, k - 1), l[k], q, [e], q);
    forall t, c ensures Mentions(l', t, c) <= 1 {
      MentionsInsert(l, k, e, t, c);
    }
  }

  // ---------------------------------------------------------------------------------------
  // One more step.

  lemma WasEmptyLater(threads: nat, turns: seq<Turn>, turn: Turn, call: nat)
    requires Scheduled(threads, turns + [turn]) && Scheduled(threads, turns)
    requires WasEmptySince(threads, turns, call)
    ensures WasEmptySince(threads, turns + [turn], call)
  {
    var k :| call < k <= |turns| && QueueAt(threads, turns, k) == [];
    SameMoment(threads, turns, turn, k);
    assert QueueAt(threads, turns + [turn], k) == [];
  }

  lemma WasFrontLater(threads: nat, turns: seq<Turn>, turn: Turn, call: nat, v: Value)
    requires Scheduled(threads, turns + [turn]) && Scheduled(threads, turns)
    requires WasFrontSince(threads, turns, call, v)
    ensures WasFrontSince(threads, turns + [turn], call, v)
  {
    var k :| call < k <= |turns| && QueueAt(threads, turns, k) != [] && QueueAt(threads, turns, k)[0] == v;
    SameMoment(threads, turns, turn, k);
    assert QueueAt(threads, turns + [turn], k)[0] == v;
  }

  lemma FrontNow(threads: nat, turns: seq<Turn>, call: nat, v: Value)
    requires Scheduled(threads, turns) && call < |turns|
    requires var q := Contents(After(threads, turns)); q != [] && q[0] == v
    ensures WasFrontSince(threads, turns, call, v)
  {
    assert turns[..|turns|] == turns;
    assert QueueAt(threads, turns, |turns|)[0] == v;
  }

  lemma EmptyNow(threads: nat, turns: seq<Turn>, call: nat)
    requires Scheduled(threads, turns) && call < |turns|
    requires Contents(After(threads, turns)) == []
    ensures WasEmptySince(threads, turns, call)
  {
    assert turns[..|turns|] == turns;
    assert QueueAt(threads, turns, |turns|) == [];
  }

  /**
   The hard half of Peek: if the node it loaded as head has no successor yet, the moment another
   thread links one is a moment at which that successor is the front.
   */
  lemma LinkBecomesFront(s: State, v: View, t: nat, op: Op, head: nat)
    requires t < |s.threads| && Inv(s, v)
    requires v.NoLater(head, s.head) && head < |s.nodes|
    requires s.nodes[head].next.None? && NextOf(Step(s, t, op).nodes, head).Some?
    ensures Contents(Step(s, t, op)) == [ValueOf(Step(s, t, op).nodes, NextOf(Step(s, t, op).nodes, head).value)]
  {
    StepFrame(s, t, op);
    NilNextMeansEmpty(s, v, head);
    StepRefinesFifo(s, v, t, op);
    assert PrivateOk(s.nodes, v, s.threads[t]);
  }

  /** What a waiting thread has observed stays observed, whoever takes the next step. */
  lemma ObservedLater(threads: nat, turns: seq<Turn>, turn: Turn, u: nat)
    requires Scheduled(threads, turns + [turn]) && Scheduled(threads, turns) && u < threads
    requires var pc := After(threads, turns).threads[u];
             var call := LastCall(threads, turns, u);
             call < |turns| && Observed(threads, turns, After(threads, turns).nodes, call, pc)
    ensures var pc := After(threads, turns).threads[u];
            var call := LastCall(threads, turns, u);
            Observed(threads, turns + [turn], After(threads, turns + [turn]).nodes, call, pc)
  {
    var turns', s, v, call := turns + [turn], After(threads, turns), ViewAfter(threads, turns), LastCall(threads, turns, u);
    var s', pc := After(threads, turns'), s.threads[u];
    ReachableInv(threads, turns);
    LastMoment(threads, turns, turn);
    StepFrame(s, turn.thread, turn.op);
    LocalsInRange(s, v, u);
    if pc.DeqCheckHead? && pc.loaded.None? {
      WasEmptyLater(threads, turns, turn, call);
    } else if pc.PeekReadValue? {
      WasFrontLater(threads, turns, turn, call, ValueOf(s.nodes, pc.next));
    } else if pc.PeekLoadNext? || pc.IsEmptyLoadNext? {
      if s.nodes[pc.head].next.Some? {
        WasFrontLater(threads, turns, turn, call, ValueOf(s.nodes, s.nodes[pc.head].next.value));
      } else if NextOf(s'.nodes, pc.head).Some? {
        LinkBecomesFront(s, v, turn.thread, turn.op, pc.head);
        FrontNow(threads, turns', call, ValueOf(s'.nodes, NextOf(s'.nodes, pc.head).value));
      }
    }
  }

  /** The thread that takes the step observes what its new program counter claims. */
  lemma ObservedStep(threads: nat, turns: seq<Turn>, turn: Turn)
    requires Scheduled(threads, turns + [turn]) && Scheduled(threads, turns)
    requires turn.thread < threads && !After(threads, turns).threads[turn.thread].Idle?
    requires var pc := After(threads, turns).threads[turn.thread];
             var call := LastCall(threads, turns, turn.thread);
             call < |turns| && Observed(threads, turns, After(threads, turns).nodes, call, pc)
    ensures var s' := After(threads, turns + [turn]);
            Observed(threads, turns + [turn], s'.nodes, LastCall(threads, turns, turn.thread), s'.threads[turn.thread])
  {
    var turns', t, s, v := turns + [turn], turn.thread, After(threads, turns), ViewAfter(threads, turns);
    var s', pc, call := After(threads, turns'), s.threads[t], LastCall(threads, turns, t);
    ReachableInv(threads, turns);
    LastMoment(threads, turns, turn);
    LocalsInRange(s, v, t);
    StepRefinesFifo(s, v, t, turn.op);
    FrontOfQueue(s, v);
    if pc.DeqLoadNext? {
      if NextOf(s.nodes, pc.head).None? {
        NilNextMeansEmpty(s, v, pc.head);
        EmptyNow(threads, turns', call);
      }
    } else if pc.PeekLoadHead? || pc.IsEmptyLoadHead? {
      if NextOf(s.nodes, s.head).Some? {
        FrontNow(threads, turns', call, ValueOf(s.nodes, NextOf(s.nodes, s.head).value));
      }
    } else if pc.PeekLoadNext? && NextOf(s.nodes, pc.head).Some? {
      WasFrontLater(threads, turns, turn, call, ValueOf(s.nodes, NextOf(s.nodes, pc.head).value));
    }
  }

  /** A step that ends an operation by only looking: the moment at which its answer was exact. */
  lemma LookWasExact(threads: nat, turns: seq<Turn>, turn: Turn) returns (k: nat)
    requires Scheduled(threads, turns + [turn]) && Scheduled(threads, turns) && turn.thread < threads
    requires var pc := After(threads, turns).threads[turn.thread];
             var call := LastCall(threads, turns, turn.thread);
             && !pc.Idle? && !TakenEffect(pc) && !MovesHead(After(threads, turns), turn.thread)
             && call < |turns| && Observed(threads, turns, After(threads, turns).nodes, call, pc)
    requires After(threads, turns + [turn]).threads[turn.thread].Returned?
    ensures LastCall(threads, turns, turn.thread) < k <= |turns| + 1
    ensures var pc' := After(threads, turns + [turn]).threads[turn.thread];
            var q := QueueAt(threads, turns + [turn], k);
            Apply(q, pc'.op) == (q, pc'.answer)
  {
    hide LastCall, After, ViewAfter, Inv, Contents, Walk;
    var turns', t, s, v := turns + [turn], turn.thread, After(threads, turns), ViewAfter(threads, turns);
    var s', pc, call := After(threads, turns'), s.threads[t], LastCall(threads, turns, t);
    ReachableInv(threads, turns);
    LastMoment(threads, turns, turn);
    LocalsInRange(s, v, t);
    StepRefinesFifo(s, v, t, turn.op);
    if pc.DeqCheckHead? {
      k :| call < k <= |turns| && QueueAt(threads, turns, k) == [];
      SameMoment(threads, turns, turn, k);
    } else if pc.PeekReadValue? {
      var value := ValueOf(s.nodes, pc.next);
      k :| call < k <= |turns| && QueueAt(threads, turns, k) != [] && QueueAt(threads, turns, k)[0] == value;
      SameMoment(threads, turns, turn, k);
    } else if NextOf(s.nodes, pc.head).None? {
      NilNextMeansEmpty(s, v, pc.head);
      k := |turns| + 1;
    } else {
      var value := ValueOf(s.nodes, NextOf(s.nodes, pc.head).value);
      k :| call < k <= |turns| && QueueAt(threads, turns, k) != [] && QueueAt(threads, turns, k)[0] == value;
      SameMoment(threads, turns, turn, k);
    }
  }

  /** Except when it returns to idle, a step does not change which operation a thread performs. */
  lemma OpStays(s: State, v: View, t: nat, op: Op)
    requires t < |s.threads| && Inv(s, v)
    requires !s.threads[t].Idle? && !s.threads[t].Returned?
    ensures var pc' := Step(s, t, op).threads[t];
            !pc'.Idle? && !pc'.Crashed? && OpOf(Step(s, t, op).nodes, pc') == OpOf(s.nodes, s.threads[t])
  {
    var pc := s.threads[t];
    LocalsInRange(s, v, t);
    assert LocalsOk(s, v, pc);
    OpStaysInRange(s, t, op);
  }

  lemma OpStaysInRange(s: State, t: nat, op: Op)
    requires t < |s.threads| && !s.threads[t].Idle? && !s.threads[t].Returned? && !s.threads[t].Crashed?
    requires var pc := s.threads[t];
             && (Private(pc).Some? || pc.EnqSwing? ==> pc.node < |s.nodes|)
             && (pc.DeqReadValue? ==> pc.loaded.Some?)
    ensures var pc' := Step(s, t, op).threads[t];
            !pc'.Idle? && !pc'.Crashed? && OpOf(Step(s, t, op).nodes, pc') == OpOf(s.nodes, s.threads[t])
  {
  }

  /** A longer linearization that gained entries of thread `t` only. */
  ghost predicate ExtendsFor(t: nat, l: Linearization, l': Linearization) {
    Extends(l, l') && forall u, c :: u != t ==> Mentions(l', u, c) == Mentions(l, u, c)
  }

  lemma OtherThreadOk(threads: nat, turns: seq<Turn>, turn: Turn, l: Linearization, l': Linearization, u: nat)
    requires Scheduled(threads, turns + [turn]) && Scheduled(threads, turns) && turn.thread < threads
    requires u < threads && u != turn.thread && ThreadOk(threads, turns, l, u)
    requires ExtendsFor(turn.thread, l, l')
    ensures ThreadOk(threads, turns + [turn], l', u)
  {
    var turns', s, s' := turns + [turn], After(threads, turns), After(threads, turns + [turn]);
    var pc, call := s.threads[u], LastCall(threads, turns, u);
    ReachableInv(threads, turns);
    LastMoment(threads, turns, turn);
    LastCallStep(threads, turns, turn, u);
    StepFrame(s, turn.thread, turn.op);
    LocalsInRange(s, ViewAfter(threads, turns), u);
    if !pc.Idle? && !pc.Crashed? {
      SameMoment(threads, turns, turn, call);
      ObservedLater(threads, turns, turn, u);
      assert OpOf(s'.nodes, pc) == OpOf(s.nodes, pc);
      if TakenEffect(pc) {
        HasByExtends(l, l', |turns|, |turns| + 1, Outcome(s.nodes, u, call, pc));
      }
    }
  }

  /** The entry a queue-changing step contributes, if the step is one. */
  ghost function Effect(threads: nat, turns: seq<Turn>, turn: Turn): seq<Entry>
    requires Scheduled(threads, turns) && turn.thread < threads
  {
    var s, t := After(threads, turns), turn.thread;
    var call := LastCall(threads, turns, t);
    if Links(s, t) then [Entry(t, call, Enqueue(ValueOf(s.nodes, s.threads[t].node)), Enqueued)]
    else if MovesHead(s, t) then [Entry(t, call, Dequeue, Got(s.threads[t].value))]
    else []
  }

  lemma AddEffect(threads: nat, turns: seq<Turn>, turn: Turn, l: Linearization)
    requires Scheduled(threads, turns + [turn]) && Scheduled(threads, turns) && turn.thread < threads
    requires Good(threads, turns, l)
    ensures var l' := l + [Effect(threads, turns, turn)];
            Legal(threads, turns + [turn], l') && ExtendsFor(turn.thread, l, l')
  {
    var turns', t, s, es := turns + [turn], turn.thread, After(threads, turns), Effect(threads, turns, turn);
    var call := LastCall(threads, turns, t);
    ReachableInv(threads, turns);
    LastMoment(threads, turns, turn);
    StepRefinesFifo(s, ViewAfter(threads, turns), t, turn.op);
    assert ThreadOk(threads, turns, l, t);
    if es != [] {
      assert Apply(Contents(s), es[0].op) == (Contents(After(threads, turns')), es[0].answer);
      assert es[1..] == [];
      SameMoment(threads, turns, turn, call);
    }
    AddMoment(threads, turns, turn, l, es);
    forall u, c | u != t ensures Mentions(l + [es], u, c) == Mentions(l, u, c) {
      MentionsAre(l, es, u, c);
      CountZero(es, Key(u, c));
    }
  }

  ghost predicate EndsByLooking(s: State, t: nat, op: Op)
    requires t < |s.threads|
  {
    var pc := s.threads[t];
    !pc.Idle? && !TakenEffect(pc) && !MovesHead(s, t) && Step(s, t, op).threads[t].Returned?
  }

  lemma Idles(threads: nat, turns: seq<Turn>, turn: Turn, l: Linearization)
    requires Scheduled(threads, turns + [turn]) && Scheduled(threads, turns) && turn.thread < threads
    requires Good(threads, turns, l) && After(threads, turns).threads[turn.thread].Idle?
    ensures ThreadOk(threads, turns + [turn], l + [[]], turn.thread)
  {
    hide After, LastCall, ViewAfter, Replays, Contents;
    var turns', t, s := turns + [turn], turn.thread, After(threads, turns);
    LastMoment(threads, turns, turn);
    LastCallStep(threads, turns, turn, t);
    SameMoment(threads, turns, turn, |turns|);
    var call := |turns|;
    forall k, i | 0 <= k < |l| && 0 <= i < |l[k]| ensures l[k][i].call < call {
      assert Genuine(threads, turns, k, l[k][i]);
    }
    FreshCall(l, t, call);
    MentionsAre(l, [], t, call);
    CallStarts(s, t, turn.op);
  }

  lemma CallStarts(s: State, t: nat, op: Op)
    requires t < |s.threads| && s.threads[t].Idle?
    ensures var s' := Step(s, t, op);
            var pc' := s'.threads[t];
            && !pc'.Idle? && !pc'.Crashed? && !TakenEffect(pc') && OpOf(s'.nodes, pc') == op
            && !pc'.DeqCheckHead? && !pc'.PeekLoadNext? && !pc'.PeekReadValue? && !pc'.IsEmptyLoadNext?
  {
  }

  /** The thread that steps inside an operation, without ending it by looking. */
  lemma MoverOk(threads: nat, turns: seq<Turn>, turn: Turn, l: Linearization)
    requires Scheduled(threads, turns + [turn]) && Scheduled(threads, turns) && turn.thread < threads
    requires Good(threads, turns, l)
    requires !After(threads, turns).threads[turn.thread].Idle?
    requires !EndsByLooking(After(threads, turns), turn.thread, turn.op)
    ensures ThreadOk(threads, turns + [turn], l + [Effect(threads, turns, turn)], turn.thread)
  {
    hide After, LastCall, Inv, ViewAfter;
    var turns', t, s, es := turns + [turn], turn.thread, After(threads, turns), Effect(threads, turns, turn);
    var s', pc, call, l' := After(threads, turns'), s.threads[t], LastCall(threads, turns, t), l + [es];
    ReachableInv(threads, turns);
    NeverCrashes(threads, turns, t);
    LastMoment(threads, turns, turn);
    LastCallStep(threads, turns, turn, t);
    assert ThreadOk(threads, turns, l, t);
    SameMoment(threads, turns, turn, call);
    if !pc.Returned? {
      OpStays(s, ViewAfter(threads, turns), t, turn.op);
      ObservedStep(threads, turns, turn);
      if es != [] {
        assert l'[|turns| + 1][0] == es[0];
      } else if pc.EnqSwing? {
        HasByExtends(l, l', |turns|, |turns| + 1, Outcome(s.nodes, t, call, pc));
      } else {
        MentionsAre(l, es, t, call);
      }
    }
  }

  /** The thread whose operation ends by looking: its entry is inserted where its answer was exact. */
  lemma LookerOk(threads: nat, turns: seq<Turn>, turn: Turn, l: Linearization) returns (l': Linearization)
    requires Scheduled(threads, turns + [turn]) && Scheduled(threads, turns) && turn.thread < threads
    requires Good(threads, turns, l)
    requires EndsByLooking(After(threads, turns), turn.thread, turn.op)
    ensures Legal(threads, turns + [turn], l') && ExtendsFor(turn.thread, l, l')
    ensures ThreadOk(threads, turns + [turn], l', turn.thread)
  {
    hide After, LastCall, Inv, ViewAfter;
    var turns', t, s := turns + [turn], turn.thread, After(threads, turns);
    var s', call := After(threads, turns'), LastCall(threads, turns, t);
    ReachableInv(threads, turns);
    NeverCrashes(threads, turns, t);
    LastMoment(threads, turns, turn);
    LastCallStep(threads, turns, turn, t);
    assert ThreadOk(threads, turns, l, t);
    AddEffect(threads, turns, turn, l);
    var l1 := l + [[]];
    var k := LookWasExact(threads, turns, turn);
    OpStays(s, ViewAfter(threads, turns), t, turn.op);
    var e := Outcome(s'.nodes, t, call, s'.threads[t]);
    SameMoment(threads, turns, turn, call);
    MentionsAre(l, [], t, call);
    AddLook(threads, turns', l1, k, e);
    l' := l1[k := l1[k] + [e]];
    HasByExtends(l', l', k, |turns'|, e);
    forall u, c | u != t ensures Mentions(l', u, c) == Mentions(l, u, c) {
      MentionsInsert(l1, k, e, u, c);
    }
  }

  lemma ListedLater(threads: nat, turns: seq<Turn>, turn: Turn, l: Linearization, l': Linearization, k: nat, t: nat)
    requires Scheduled(threads, turns + [turn]) && Scheduled(threads, turns)
    requires Complete(threads, turns, l) && Extends(l, l') && k <= |turns| && t < threads
    requires At(threads, turns + [turn], k).threads[t].Returned?
    ensures ListedBy(threads, turns + [turn], l', k, t)
  {
    hide After, LastCall, Extends, HasBy;
    SameMoment(threads, turns, turn, k);
    assert ListedBy(threads, turns, l, k, t);
    var pc := At(threads, turns, k).threads[t];
    HasByExtends(l, l', k, k, Entry(t, LastCall(threads, turns[..k], t), pc.op, pc.answer));
  }

  lemma CompleteLater(threads: nat, turns: seq<Turn>, turn: Turn, l: Linearization, l': Linearization)
    requires Scheduled(threads, turns + [turn]) && Scheduled(threads, turns) && turn.thread < threads
    requires Complete(threads, turns, l) && Extends(l, l')
    requires forall t :: 0 <= t < threads ==> ThreadOk(threads, turns + [turn], l', t)
    ensures Complete(threads, turns + [turn], l')
  {
    hide After, LastCall, Extends, HasBy;
    var turns' := turns + [turn];
    forall k, t | 0 <= k <= |turns'| && 0 <= t < threads && At(threads, turns', k).threads[t].Returned?
      ensures ListedBy(threads, turns', l', k, t)
    {
      if k <= |turns| {
        ListedLater(threads, turns, turn, l, l', k, t);
      } else {
        assert ThreadOk(threads, turns', l', t);
        assert turns'[..k] == turns';
      }
    }
  }

  lemma GoodStep(threads: nat, turns: seq<Turn>, turn: Turn, l: Linearization) returns (l': Linearization)
    requires Scheduled(threads, turns + [turn]) && Scheduled(threads, turns) && turn.thread < threads
    requires Good(threads, turns, l)
    ensures Good(threads, turns + [turn], l')
  {
    var t, s := turn.thread, After(threads, turns);
    LastMoment(threads, turns, turn);
    if EndsByLooking(s, t, turn.op) {
      l' := LookerOk(threads, turns, turn, l);
    } else {
      AddEffect(threads, turns, turn, l);
      l' := l + [Effect(threads, turns, turn)];
      if s.threads[t].Idle? {
        Idles(threads, turns, turn, l);
      } else {
        MoverOk(threads, turns, turn, l);
      }
    }
    forall u | 0 <= u < threads ensures ThreadOk(threads, turns + [turn], l', u) {
      if u != t {
        OtherThreadOk(threads, turns, turn, l, l', u);
      }
    }
    CompleteLater(threads, turns, turn, l, l');
  }

  lemma {:induction false} Linearize(threads: nat, turns: seq<Turn>) returns (l: Linearization)
    requires Scheduled(threads, turns)
    ensures Good(threads, turns, l)
  {
    if turns == [] {
      l := [[]];
      forall t, c ensures Mentions(l, t, c) <= 1 {
        MentionsAre([], [], t, c);
        assert l == [] + [[]];
      }
    } else {
      var before, last := turns[..|turns| - 1], turns[|turns| - 1];
      assert turns == before + [last];
      l := Linearize(threads, before);
      l := GoodStep(threads, before, last, l);
    }
  }

  // ---------------------------------------------------------------------------------------
  // From moments to one flat sequential history.

  ghost function Flatten(l: Linearization): seq<Entry> {
    if l == [] then [] else Flatten(l[..|l| - 1]) + l[|l| - 1]
  }

  ghost function MomentOf(l: Linearization, i: nat): (k: nat)
    requires i < |Flatten(l)|
    ensures k < |l| && exists j :: 0 <= j < |l[k]| && l[k][j] == Flatten(l)[i]
  {
    var front := Flatten(l[..|l| - 1]);
    if i < |front| then MomentOf(l[..|l| - 1], i)
    else
      assert l[|l| - 1][i - |front|] == Flatten(l)[i];
      |l| - 1
  }

  lemma {:induction false} MomentsAscend(l: Linearization, i: nat, j: nat)
    requires i <= j < |Flatten(l)|
    ensures MomentOf(l, i) <= MomentOf(l, j)
  {
    if j < |Flatten(l[..|l| - 1])| {
      MomentsAscend(l[..|l| - 1], i, j);
    }
  }

  lemma {:induction false} Placed(l: Linearization, k: nat, j: nat) returns (i: nat)
    requires k < |l| && j < |l[k]|
    ensures i < |Flatten(l)| && Flatten(l)[i] == l[k][j] && MomentOf(l, i) == k
  {
    if k == |l| - 1 {
      i := |Flatten(l[..|l| - 1])| + j;
    } else {
      i := Placed(l[..|l| - 1], k, j);
    }
  }

  lemma {:induction false} CountConcat<T>(a: seq<T>, b: seq<T>, p: T -> bool)
    ensures Count(a + b, p) == Count(a, p) + Count(b, p)
  {
    if b == [] {
      assert a + b == a;
    } else {
      assert (a + b)[..|a + b| - 1] == a + b[..|b| - 1];
      CountConcat(a, b[..|b| - 1], p);
    }
  }

  lemma {:induction false} CountOnce<T>(s: seq<T>, p: T -> bool, i: nat, j: nat)
    requires i < j < |s| && p(s[i]) && p(s[j])
    ensures Count(s, p) >= 2
  {
    if j == |s| - 1 {
      CountZero(s[..j], p);
      assert p(s[..j][i]);
    } else {
      CountOnce(s[..|s| - 1], p, i, j);
    }
  }

  lemma {:induction false} FlatMentions(l: Linearization, t: nat, call: nat)
    ensures Count(Flatten(l), Key(t, call)) == Mentions(l, t, call)
  {
    if l != [] {
      var front, last := l[..|l| - 1], l[|l| - 1];
      FlatMentions(front, t, call);
      assert l == front + [last];
      MentionsAre(front, last, t, call);
      CountConcat(Flatten(front), last, Key(t, call));
    }
  }

  lemma {:induction false} FlatReplays(threads: nat, turns: seq<Turn>, l: Linearization, k: nat)
    requires Scheduled(threads, turns) && Legal(threads, turns, l) && k <= |turns|
    ensures Replays([], Flatten(l[..k + 1]), QueueAt(threads, turns, k))
  {
    assert l[..k + 1][..k] == l[..k];
    if k == 0 {
      InitInv(threads);
    } else {
      FlatReplays(threads, turns, l, k - 1);
      ReplaysConcat([], Flatten(l[..k]), QueueAt(threads, turns, k - 1), l[k], QueueAt(threads, turns, k));
    }
  }

  // ---------------------------------------------------------------------------------------
  // Main results.

  /**
   `history` is a sequential FIFO execution that accounts for the interleaving: it explains the
   final contents, lists only calls really made and none twice, lists every operation that has
   returned with the answer it gave, and puts an operation that had returned by moment `k` before
   every operation called at `k` or later.
   */
  ghost predicate IsLinearization(threads: nat, turns: seq<Turn>, history: seq<Entry>)
    requires Scheduled(threads, turns)
  {
    && Replays([], history, Contents(After(threads, turns)))
    && (forall i :: 0 <= i < |history| ==> Genuine(threads, turns, |turns|, history[i]))
    && (forall i, j :: 0 <= i < j < |history| ==>
          history[i].thread != history[j].thread || history[i].call != history[j].call)
    && (forall k, t :: 0 <= k <= |turns| && 0 <= t < threads && At(threads, turns, k).threads[t].Returned? ==>
          InOrder(threads, turns, history, k, t))
  }

  ghost predicate InOrder(threads: nat, turns: seq<Turn>, history: seq<Entry>, k: nat, t: nat)
    requires Scheduled(threads, turns) && k <= |turns| && t < threads
    requires At(threads, turns, k).threads[t].Returned?
  {
    var pc := At(threads, turns, k).threads[t];
    exists i ::
      && 0 <= i < |history|
      && history[i] == Entry(t, LastCall(threads, turns[..k], t), pc.op, pc.answer)
      && forall j :: 0 <= j < |history| && history[j].call >= k ==> i < j
  }

  /** The values a history puts in, in order. */
  ghost function PutIn(history: seq<Entry>): seq<Value> {
    if history == [] then []
    else
      var last := history[|history| - 1];
      PutIn(history[..|history| - 1]) + (if last.op.Enqueue? then [last.op.value] else [])
  }

  /** The values its dequeues take out, in order. */
  ghost function TakenOut(history: seq<Entry>): seq<Value> {
    if history == [] then []
    else
      var last := history[|history| - 1];
      TakenOut(history[..|history| - 1]) + (if last.op.Dequeue? && last.answer.Got? then [last.answer.value] else [])
  }

  /**
   What a first-in first-out queue answers, told by counting alone: after `e` values put in and `g`
   taken out there is nothing left if e == g, and otherwise the next is the one put in as number g.
   */
  ghost predicate AnswersFifo(history: seq<Entry>, i: nat)
    requires i < |history|
  {
    var e, g := PutIn(history[..i]), |TakenOut(history[..i])|;
    && g <= |e|
    && match history[i].op
       case Enqueue(_) => history[i].answer == Enqueued
       case Dequeue => history[i].answer == if g == |e| then Nothing else Got(e[g])
       case Peek => history[i].answer == if g == |e| then Nothing else Got(e[g])
       case IsEmpty => history[i].answer == Truth(g == |e|)
  }

  lemma {:induction false} ReplaysFront(q: seq<Value>, history: seq<Entry>, q': seq<Value>) returns (mid: seq<Value>)
    requires Replays(q, history, q') && history != []
    ensures Replays(q, history[..|history| - 1], mid)
    ensures Apply(mid, history[|history| - 1].op) == (q', history[|history| - 1].answer)
    decreases |history|
  {
    if |history| == 1 {
      mid := q;
      assert history[1..] == [] && history[..0] == [];
    } else {
      var rest := history[1..];
      mid := ReplaysFront(Apply(q, history[0].op).0, rest, q');
      assert history[..|history| - 1][1..] == rest[..|rest| - 1];
    }
  }

  /** What was put in is what was taken out, in order, followed by what is left. */
  lemma {:induction false} NothingLostOrReordered(history: seq<Entry>, q: seq<Value>)
    requires Replays([], history, q)
    ensures PutIn(history) == TakenOut(history) + q
    decreases |history|
  {
    if history != [] {
      var mid := ReplaysFront([], history, q);
      var front, last := history[..|history| - 1], history[|history| - 1];
      NothingLostOrReordered(front, mid);
      hide Replays;
      match last.op
      case Enqueue(v) => assert PutIn(front) + [v] == TakenOut(front) + (mid + [v]);
      case Dequeue =>
        if mid != [] {
          assert TakenOut(front) + mid == TakenOut(front) + [mid[0]] + mid[1..];
        }
      case _ =>
    }
  }

  /** So every answer of a history that replays is what counting says. */
  lemma {:induction false} FifoAnswers(history: seq<Entry>, q: seq<Value>, i: nat)
    requires Replays([], history, q) && i < |history|
    ensures AnswersFifo(history, i)
    decreases |history|
  {
    var n := |history| - 1;
    var mid := ReplaysFront([], history, q);
    if i == n {
      NothingLostOrReordered(history[..n], mid);
      var e, g := PutIn(history[..n]), |TakenOut(history[..n])|;
      assert mid != [] ==> e[g] == mid[0];
    } else {
      FifoAnswers(history[..n], mid, i);
      assert history[..n][..i] == history[..i] && history[..n][i] == history[i];
    }
  }

  /** Linearizability of every interleaving of any number of threads. */
  lemma Linearizable(threads: nat, turns: seq<Turn>)
    requires Scheduled(threads, turns)
    ensures exists history :: IsLinearization(threads, turns, history)
              && PutIn(history) == TakenOut(history) + Contents(After(threads, turns))
              && forall i :: 0 <= i < |history| ==> AnswersFifo(history, i)
  {
    var l := Linearize(threads, turns);
    var history := Flatten(l);
    assert l[..|turns| + 1] == l && turns[..|turns|] == turns;
    FlatReplays(threads, turns, l, |turns|);
    forall i | 0 <= i < |history| ensures Genuine(threads, turns, |turns|, history[i]) {
      var k := MomentOf(l, i);
      var j :| 0 <= j < |l[k]| && l[k][j] == history[i];
      assert Genuine(threads, turns, k, l[k][j]);
    }
    forall i, j | 0 <= i < j < |history|
      ensures history[i].thread != history[j].thread || history[i].call != history[j].call
    {
      var t, c := history[i].thread, history[i].call;
      FlatMentions(l, t, c);
      if Key(t, c)(history[j]) {
        CountOnce(history, Key(t, c), i, j);
      }
    }
    forall k, t | 0 <= k <= |turns| && 0 <= t < threads && At(threads, turns, k).threads[t].Returned?
      ensures InOrder(threads, turns, history, k, t)
    {
      ReturnedInOrder(threads, turns, l, k, t);
    }
    assert IsLinearization(threads, turns, history);
    var q := Contents(After(threads, turns));
    NothingLostOrReordered(history, q);
    forall i | 0 <= i < |history| ensures AnswersFifo(history, i) {
      FifoAnswers(history, q, i);
    }
  }

  /** At some moment strictly after the call of thread `t` and no later than its return. */
  ghost predicate InsideCall(threads: nat, turns: seq<Turn>, t: nat, k: nat)
    requires Scheduled(threads, turns) && t < threads
  {
    LastCall(threads, turns, t) < k <= |turns|
  }

  /** IsEmpty said whether the queue was empty, at a moment inside the call. */
  lemma IsEmptyWasRight(threads: nat, turns: seq<Turn>, t: nat, answer: Answer)
    requires Scheduled(threads, turns) && t < threads && After(threads, turns).threads[t] == Returned(IsEmpty, answer)
    ensures exists k :: InsideCall(threads, turns, t, k) && answer == Truth(QueueAt(threads, turns, k) == [])
  {
    LookWasExactInside(threads, turns, t);
    var k :| LastCall(threads, turns, t) < k <= |turns| && ExactAt(threads, turns, t, k);
    assert InsideCall(threads, turns, t, k);
  }

  /** Peek gave the front, or nothing of an empty queue, at a moment inside the call. */
  lemma PeekWasRight(threads: nat, turns: seq<Turn>, t: nat, answer: Answer)
    requires Scheduled(threads, turns) && t < threads && After(threads, turns).threads[t] == Returned(Peek, answer)
    ensures exists k :: InsideCall(threads, turns, t, k)
              && var q := QueueAt(threads, turns, k); answer == if q == [] then Nothing else Got(q[0])
  {
    LookWasExactInside(threads, turns, t);
    var k :| LastCall(threads, turns, t) < k <= |turns| && ExactAt(threads, turns, t, k);
    assert InsideCall(threads, turns, t, k);
  }

  /** A Dequeue that got nothing had an empty queue at a moment inside the call. */
  lemma NothingWasThere(threads: nat, turns: seq<Turn>, t: nat)
    requires Scheduled(threads, turns) && t < threads && After(threads, turns).threads[t] == Returned(Dequeue, Nothing)
    ensures exists k :: InsideCall(threads, turns, t, k) && QueueAt(threads, turns, k) == []
  {
    LookWasExactInside(threads, turns, t);
    var k :| LastCall(threads, turns, t) < k <= |turns| && ExactAt(threads, turns, t, k);
    assert InsideCall(threads, turns, t, k);
  }

  lemma ReturnedInOrder(threads: nat, turns: seq<Turn>, l: Linearization, k: nat, t: nat)
    requires Scheduled(threads, turns) && Legal(threads, turns, l) && Complete(threads, turns, l)
    requires k <= |turns| && t < threads && At(threads, turns, k).threads[t].Returned?
    ensures InOrder(threads, turns, Flatten(l), k, t)
  {
    var history, pc := Flatten(l), At(threads, turns, k).threads[t];
    assert ListedBy(threads, turns, l, k, t);
    var e := Entry(t, LastCall(threads, turns[..k], t), pc.op, pc.answer);
    var moment, n :| 0 <= moment < |l| && moment <= k && 0 <= n < |l[moment]| && l[moment][n] == e;
    var i := Placed(l, moment, n);
    forall j | 0 <= j < |history| && history[j].call >= k ensures i < j {
      var m := MomentOf(l, j);
      var p :| 0 <= p < |l[m]| && l[m][p] == history[j];
      assert Genuine(threads, turns, m, l[m][p]);
      if j <= i {
        MomentsAscend(l, j, i);
      }
    }
  }

  lemma LaterTransitive(a: State, u: View, b: State, v: View, c: State, w: View)
    requires Later(a, u, b, v) && Later(b, v, c, w)
    ensures Later(a, u, c, w)
  {
  }

  lemma NextMomentLater(threads: nat, turns: seq<Turn>, j: nat)
    requires Scheduled(threads, turns) && j < |turns|
    ensures Later(At(threads, turns, j), ViewAfter(threads, turns[..j]),
                  At(threads, turns, j + 1), ViewAfter(threads, turns[..j + 1]))
  {
    assert turns[..j + 1][..j] == turns[..j];
    ReachableInv(threads, turns[..j]);
    StepKeepsInv(At(threads, turns, j), ViewAfter(threads, turns[..j]), turns[j].thread, turns[j].op);
  }

  /** Between any two moments the chain is only extended, and head and tail only move forward along it. */
  lemma {:induction false} OnlyForward(threads: nat, turns: seq<Turn>, i: nat, j: nat)
    requires Scheduled(threads, turns) && i <= j <= |turns|
    ensures Later(At(threads, turns, i), ViewAfter(threads, turns[..i]), At(threads, turns, j), ViewAfter(threads, turns[..j]))
  {
    hide After, ViewAfter;
    if i == j {
      ReachableInv(threads, turns[..i]);
    } else {
      hide Later, Inv;
      OnlyForward(threads, turns, i, j - 1);
      NextMomentLater(threads, turns, j - 1);
      LaterTransitive(At(threads, turns, i), ViewAfter(threads, turns[..i]),
                      At(threads, turns, j - 1), ViewAfter(threads, turns[..j - 1]),
                      At(threads, turns, j), ViewAfter(threads, turns[..j]));
    }
  }

  /**
   Peek, IsEmpty and an unsuccessful Dequeue never re-check what they answer from, yet the answer
   was exact at some moment strictly after the call and no later than the return.
   */
  lemma {:induction false} LookWasExactInside(threads: nat, turns: seq<Turn>, t: nat)
    requires Scheduled(threads, turns) && t < threads
    requires After(threads, turns).threads[t].Returned?
    requires var pc := After(threads, turns).threads[t];
             pc.op == Peek || pc.op == IsEmpty || (pc.op == Dequeue && pc.answer == Nothing)
    ensures exists k :: LastCall(threads, turns, t) < k <= |turns| && ExactAt(threads, turns, t, k)
  {
    var before, last := turns[..|turns| - 1], turns[|turns| - 1];
    assert turns == before + [last];
    hide After, LastCall, ViewAfter, Contents, Inv;
    LastMoment(threads, before, last);
    LastCallStep(threads, before, last, t);
    StepFrame(After(threads, before), last.thread, last.op);
    if last.thread == t {
      var l := Linearize(threads, before);
      assert ThreadOk(threads, before, l, t);
      NeverCrashes(threads, before, t);
      LookedNotMoved(After(threads, before), t, last.op);
      var k := LookWasExact(threads, before, last);
      assert ExactAt(threads, turns, t, k);
    } else {
      LookWasExactInside(threads, before, t);
      var k :| LastCall(threads, before, t) < k <= |before| && ExactAt(threads, before, t, k);
      SameMoment(threads, before, last, k);
      assert ExactAt(threads, turns, t, k);
    }
  }

  /** The answer thread `t` has returned is what the queue of moment `k` gives, unchanged. */
  ghost predicate ExactAt(threads: nat, turns: seq<Turn>, t: nat, k: nat)
    requires Scheduled(threads, turns) && t < threads && k <= |turns|
    requires After(threads, turns).threads[t].Returned?
  {
    var q, pc := QueueAt(threads, turns, k), After(threads, turns).threads[t];
    Apply(q, pc.op) == (q, pc.answer)
  }

  lemma LookedNotMoved(s: State, t: nat, op: Op)
    requires t < |s.threads| && Step(s, t, op).threads[t].Returned? && !s.threads[t].Crashed?
    requires var pc' := Step(s, t, op).threads[t];
             pc'.op == Peek || pc'.op == IsEmpty || (pc'.op == Dequeue && pc'.answer == Nothing)
    ensures EndsByLooking(s, t, op)
  {
  }
}
