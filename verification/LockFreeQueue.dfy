/**
 The Michael-Scott queue of pkg/ds/lockfree/queue.go as a step system.  A state holds the
 node heap, the two shared pointers and, for each thread, a program counter with its locals.
 Every atomic load or compare-and-swap is one step, so a run is any interleaving of them.
 Nodes are never reclaimed, which is what the garbage collector guarantees the Go code.
 */
module LockFreeQueue {
  import opened Common

  /** A stored `interface{}`; the queue only copies it. */
  type Value = int

  datatype Node = Node(value: Value, next: Option<nat>)

  datatype Op = Enqueue(value: Value) | Dequeue | Peek | IsEmpty

  datatype Answer = Enqueued | Got(value: Value) | Nothing | Truth(holds: bool)

  /** A thread's position in the Go code, together with the locals it still needs. */
  datatype Pc =
    | Idle
    // Enqueue: `node` is the freshly allocated node, `tail` and `next` what was loaded.
    | EnqLoadTail(node: nat)
    | EnqLoadNext(node: nat, tail: nat)
    | EnqCheckTail(node: nat, tail: nat, loaded: Option<nat>)
    | EnqLink(node: nat, tail: nat)
    | EnqSwing(node: nat, tail: nat)
    | EnqHelp(node: nat, tail: nat, next: nat)
    // Dequeue
    | DeqLoadHead
    | DeqLoadTail(head: nat)
    | DeqLoadNext(head: nat, tail: nat)
    | DeqCheckHead(head: nat, tail: nat, loaded: Option<nat>)
    | DeqHelp(tail: nat, next: nat)
    | DeqReadValue(head: nat, loaded: Option<nat>)
    | DeqSwing(head: nat, next: nat, value: Value)
    // Peek and IsEmpty: two loads and no re-check
    | PeekLoadHead
    | PeekLoadNext(head: nat)
    | PeekReadValue(next: nat)
    | IsEmptyLoadHead
    | IsEmptyLoadNext(head: nat)
    | Returned(op: Op, answer: Answer)
    | Crashed  // a nil node was dereferenced

  datatype State = State(nodes: seq<Node>, head: nat, tail: nat, threads: seq<Pc>)

  /** `NewQueue`: one dummy node that both pointers share. */
  function Init(threads: nat): State {
    State([Node(0, None)], 0, 0, seq(threads, _ => Idle))
  }

  function NextOf(nodes: seq<Node>, node: nat): Option<nat> {
    if node < |nodes| then nodes[node].next else None
  }

  function ValueOf(nodes: seq<Node>, node: nat): Value {
    if node < |nodes| then nodes[node].value else 0
  }

  function SetNext(nodes: seq<Node>, node: nat, next: nat): seq<Node> {
    if node < |nodes| then nodes[node := nodes[node].(next := Some(next))] else nodes
  }

  function Goto(s: State, t: nat, pc: Pc): State
    requires t < |s.threads|
  {
    s.(threads := s.threads[t := pc])
  }

  /** Compare-and-swap of the shared tail pointer; a failure changes nothing. */
  function CasTail(s: State, expected: nat, successor: nat): State {
    if s.tail == expected then s.(tail := successor) else s
  }

  /** The operation an idle thread is told to call; `Enqueue` allocates its node here. */
  function Call(s: State, t: nat, op: Op): State
    requires t < |s.threads|
  {
    match op
    case Enqueue(v) => Goto(s.(nodes := s.nodes + [Node(v, None)]), t, EnqLoadTail(|s.nodes|))
    case Dequeue => Goto(s, t, DeqLoadHead)
    case Peek => Goto(s, t, PeekLoadHead)
    case IsEmpty => Goto(s, t, IsEmptyLoadHead)
  }

  /**
   One atomic step of thread `t`.  `op` matters only when the thread is idle.
   A thread that has returned becomes idle again.
   */
  function Step(s: State, t: nat, op: Op): State
    requires t < |s.threads|
  {
    match s.threads[t]
    case Idle => Call(s, t, op)
    case EnqLoadTail(node) => Goto(s, t, EnqLoadNext(node, s.tail))
    case EnqLoadNext(node, tail) => Goto(s, t, EnqCheckTail(node, tail, NextOf(s.nodes, tail)))
    case EnqCheckTail(node, tail, next) =>
      Goto(s, t,
           if s.tail != tail then EnqLoadTail(node)
           else if next.None? then EnqLink(node, tail)
           else EnqHelp(node, tail, next.value))
    case EnqLink(node, tail) =>
      if NextOf(s.nodes, tail).None? then
        Goto(s.(nodes := SetNext(s.nodes, tail, node)), t, EnqSwing(node, tail))
      else
        Goto(s, t, EnqLoadTail(node))
    case EnqSwing(node, tail) =>
      Goto(CasTail(s, tail, node), t, Returned(Enqueue(ValueOf(s.nodes, node)), Enqueued))
    case EnqHelp(node, tail, next) => Goto(CasTail(s, tail, next), t, EnqLoadTail(node))
    case DeqLoadHead => Goto(s, t, DeqLoadTail(s.head))
    case DeqLoadTail(head) => Goto(s, t, DeqLoadNext(head, s.tail))
    case DeqLoadNext(head, tail) => Goto(s, t, DeqCheckHead(head, tail, NextOf(s.nodes, head)))
    case DeqCheckHead(head, tail, next) =>
      Goto(s, t,
           if s.head != head then DeqLoadHead
           else if head != tail then DeqReadValue(head, next)
           else if next.None? then Returned(Dequeue, Nothing)
           else DeqHelp(tail, next.value))
    case DeqHelp(tail, next) => Goto(CasTail(s, tail, next), t, DeqLoadHead)
    case DeqReadValue(head, next) =>
      Goto(s, t, if next.None? then Crashed else DeqSwing(head, next.value, ValueOf(s.nodes, next.value)))
    case DeqSwing(head, next, value) =>
      if s.head == head then Goto(s.(head := next), t, Returned(Dequeue, Got(value)))
      else Goto(s, t, DeqLoadHead)
    case PeekLoadHead => Goto(s, t, PeekLoadNext(s.head))
    case PeekLoadNext(head) =>
      (var next := NextOf(s.nodes, head);
       Goto(s, t, if next.None? then Returned(Peek, Nothing) else PeekReadValue(next.value)))
    case PeekReadValue(next) => Goto(s, t, Returned(Peek, Got(ValueOf(s.nodes, next))))
    case IsEmptyLoadHead => Goto(s, t, IsEmptyLoadNext(s.head))
    case IsEmptyLoadNext(head) => Goto(s, t, Returned(IsEmpty, Truth(NextOf(s.nodes, head).None?)))
    case Returned(_, _) => Goto(s, t, Idle)
    case Crashed => s
  }

  /** The three kinds of step that change shared pointers: the link, a tail swing, a head move. */
  predicate Links(s: State, t: nat)
    requires t < |s.threads|
  {
    s.threads[t].EnqLink? && NextOf(s.nodes, s.threads[t].tail).None?
  }

  predicate SwingsTail(s: State, t: nat)
    requires t < |s.threads|
  {
    (s.threads[t].EnqSwing? || s.threads[t].EnqHelp? || s.threads[t].DeqHelp?) && s.threads[t].tail == s.tail
  }

  predicate MovesHead(s: State, t: nat)
    requires t < |s.threads|
  {
    s.threads[t].DeqSwing? && s.threads[t].head == s.head
  }

  // ---------------------------------------------------------------------------------------
  // The abstract queue: what a walk along the next pointers from head would collect.

  function Walk(nodes: seq<Node>, from: Option<nat>, fuel: nat): seq<Value>
    decreases fuel
  {
    if from.None? || fuel == 0 then []
    else [ValueOf(nodes, from.value)] + Walk(nodes, NextOf(nodes, from.value), fuel - 1)
  }

  function Contents(s: State): seq<Value> {
    Walk(s.nodes, NextOf(s.nodes, s.head), |s.nodes|)
  }

  // ---------------------------------------------------------------------------------------
  // The invariant.  A view lists the nodes ever linked, in order, with their positions.

  datatype View = View(chain: seq<nat>, pos: map<nat, nat>) {
    ghost predicate Has(node: nat) { node in pos }

    /** `b` is the successor of `a`. */
    ghost predicate Follows(a: nat, b: nat) {
      a in pos && b in pos && pos[b] == pos[a] + 1
    }

    ghost predicate NoLater(a: nat, b: nat) {
      a in pos && b in pos && pos[a] <= pos[b]
    }

    ghost predicate WellFormed() {
      && |chain| > 0
      && chain[0] == 0
      && (forall i :: 0 <= i < |chain| ==> chain[i] in pos && pos[chain[i]] == i)
      && (forall n :: n in pos ==> pos[n] < |chain| && chain[pos[n]] == n)
    }

    ghost function Append(node: nat): View {
      View(chain + [node], pos[node := |chain|])
    }
  }

  /** The next pointer of a linked node leads to its successor, and only the last one is nil. */
  ghost predicate Linked(nodes: seq<Node>, v: View, node: nat)
    requires v.Has(node)
  {
    && node < |nodes|
    && match nodes[node].next
       case None => v.pos[node] == |v.chain| - 1
       case Some(next) => v.Follows(node, next)
  }

  /** The chain is exactly what the next pointers say. */
  ghost predicate Chained(nodes: seq<Node>, v: View) {
    && v.WellFormed()
    && (forall n {:trigger Linked(nodes, v, n)} :: n in v.pos ==> Linked(nodes, v, n))
  }

  /** Head never passes tail, and tail is the last node or the one before it. */
  ghost predicate PointersInOrder(s: State, v: View)
    requires v.WellFormed()
  {
    && v.NoLater(s.head, s.tail)
    && |v.chain| - 2 <= v.pos[s.tail]
  }

  /** The node an enqueuer has allocated but not linked yet. */
  function Private(pc: Pc): Option<nat> {
    match pc
    case EnqLoadTail(node) => Some(node)
    case EnqLoadNext(node, _) => Some(node)
    case EnqCheckTail(node, _, _) => Some(node)
    case EnqLink(node, _) => Some(node)
    case EnqHelp(node, _, _) => Some(node)
    case _ => None
  }

  ghost predicate PrivateOk(nodes: seq<Node>, v: View, pc: Pc) {
    Private(pc).Some? ==>
      var node := Private(pc).value;
      node < |nodes| && !v.Has(node) && nodes[node].next == None
  }

  /** What a thread may rely on about its locals, whatever the others have done since. */
  ghost predicate LocalsOk(s: State, v: View, pc: Pc)
    requires v.WellFormed() && v.Has(s.head) && v.Has(s.tail)
  {
    match pc
    case EnqLoadNext(_, tail) => v.NoLater(tail, s.tail)
    case EnqCheckTail(_, tail, next) =>
      v.NoLater(tail, s.tail) && (next.Some? ==> v.Follows(tail, next.value))
    case EnqLink(_, tail) => v.NoLater(tail, s.tail)
    case EnqSwing(node, tail) => v.Follows(tail, node)
    case EnqHelp(_, tail, next) => v.Follows(tail, next)
    case DeqLoadTail(head) => v.NoLater(head, s.head)
    case DeqLoadNext(head, tail) => v.NoLater(head, s.head) && v.NoLater(head, tail) && v.NoLater(tail, s.tail)
    case DeqCheckHead(head, tail, next) =>
      && v.NoLater(head, s.head) && v.NoLater(head, tail) && v.NoLater(tail, s.tail)
      && (if next.Some? then v.Follows(head, next.value) else head == tail)
    case DeqHelp(tail, next) => v.Follows(tail, next)
    case DeqReadValue(head, next) =>
      v.NoLater(head, s.head) && next.Some? && v.Follows(head, next.value) && v.NoLater(next.value, s.tail)
    case DeqSwing(head, next, value) =>
      && v.NoLater(head, s.head) && v.Follows(head, next) && v.NoLater(next, s.tail)
      && value == ValueOf(s.nodes, next)
    case PeekLoadNext(head) => v.NoLater(head, s.head)
    case PeekReadValue(next) => v.Has(next)
    case IsEmptyLoadNext(head) => v.NoLater(head, s.head)
    case Crashed => false
    case _ => true
  }

  ghost predicate Inv(s: State, v: View) {
    && Chained(s.nodes, v)
    && PointersInOrder(s, v)
    && (forall t :: 0 <= t < |s.threads| ==> PrivateOk(s.nodes, v, s.threads[t]))
    && (forall t :: 0 <= t < |s.threads| ==> LocalsOk(s, v, s.threads[t]))
    && (forall t, u :: 0 <= t < u < |s.threads| && Private(s.threads[t]).Some? ==>
          Private(s.threads[t]) != Private(s.threads[u]))
  }

  ghost const InitialView := View([0], map[0 := 0])

  lemma InitInv(threads: nat)
    ensures Inv(Init(threads), InitialView)
    ensures Contents(Init(threads)) == []
  {
  }

  /** The view after a step: only a successful link changes it, by appending. */
  ghost function NextView(s: State, v: View, t: nat): View
    requires t < |s.threads|
  {
    if Links(s, t) then v.Append(s.threads[t].node) else v
  }

  /** A linked node is the last one exactly when its next pointer is nil. */
  lemma LastIffNilNext(nodes: seq<Node>, v: View, node: nat)
    requires Chained(nodes, v) && v.Has(node)
    ensures NextOf(nodes, node).None? <==> v.pos[node] == |v.chain| - 1
    ensures NextOf(nodes, node).Some? ==> v.Follows(node, NextOf(nodes, node).value)
  {
    assert Linked(nodes, v, node);
  }

  /** How the shared memory may change: the chain is extended and both pointers move forward. */
  ghost predicate Later(s: State, v: View, s': State, v': View) {
    && v.WellFormed() && v'.WellFormed()
    && v.chain <= v'.chain
    && (forall n :: n in v.pos ==> n in v'.pos && v'.pos[n] == v.pos[n])
    && v'.NoLater(s.head, s'.head)
    && v'.NoLater(s.tail, s'.tail)
    && |s.nodes| <= |s'.nodes|
    && (forall i :: 0 <= i < |s.nodes| ==> s'.nodes[i].value == s.nodes[i].value)
  }

  lemma LocalsSurvive(s: State, v: View, s': State, v': View, pc: Pc)
    requires Inv(s, v) && Later(s, v, s', v')
    requires LocalsOk(s, v, pc)
    ensures LocalsOk(s', v', pc)
  {
    if pc.DeqSwing? {
      assert Linked(s.nodes, v, pc.next);
    }
  }

  /** A link can only succeed at the last node, and then tail points at that node. */
  lemma LinkIsAtTheEnd(s: State, v: View, t: nat)
    requires t < |s.threads| && Inv(s, v) && Links(s, t)
    ensures v.chain[|v.chain| - 1] == s.threads[t].tail == s.tail
    ensures v.pos[s.tail] == |v.chain| - 1
  {
    var tail := s.threads[t].tail;
    assert LocalsOk(s, v, s.threads[t]);
    LastIffNilNext(s.nodes, v, tail);
    assert v.chain[v.pos[tail]] == v.chain[v.pos[s.tail]];
  }

  lemma LinkExtendsChain(s: State, v: View, t: nat, op: Op)
    requires t < |s.threads| && Inv(s, v) && Links(s, t)
    ensures Later(s, v, Step(s, t, op), NextView(s, v, t))
    ensures Chained(Step(s, t, op).nodes, NextView(s, v, t))
  {
    var pc := s.threads[t];
    var v', s' := NextView(s, v, t), Step(s, t, op);
    LinkIsAtTheEnd(s, v, t);
    assert PrivateOk(s.nodes, v, pc);
    assert Linked(s.nodes, v, s.tail);
    assert s'.nodes == s.nodes[pc.tail := s.nodes[pc.tail].(next := Some(pc.node))];
    assert v'.WellFormed();
    forall n | n in v'.pos ensures Linked(s'.nodes, v', n) {
      if n != pc.node {
        assert Linked(s.nodes, v, n);
        assert v.chain[v.pos[n]] == n;
      }
    }
  }

  lemma LinkKeepsInv(s: State, v: View, t: nat, op: Op)
    requires t < |s.threads| && Inv(s, v) && Links(s, t)
    ensures Inv(Step(s, t, op), NextView(s, v, t))
  {
    var v', s' := NextView(s, v, t), Step(s, t, op);
    LinkIsAtTheEnd(s, v, t);
    LinkExtendsChain(s, v, t, op);
    forall u | 0 <= u < |s.threads| ensures PrivateOk(s'.nodes, v', s'.threads[u]) && LocalsOk(s', v', s'.threads[u]) {
      assert PrivateOk(s.nodes, v, s.threads[u]);
      LocalsSurvive(s, v, s', v', s.threads[u]);
    }
  }

  lemma SharedStepKeepsInv(s: State, v: View, t: nat, op: Op)
    requires t < |s.threads| && Inv(s, v) && (SwingsTail(s, t) || MovesHead(s, t))
    ensures Later(s, v, Step(s, t, op), v)
    ensures Inv(Step(s, t, op), v)
  {
    var s' := Step(s, t, op);
    assert LocalsOk(s, v, s.threads[t]);
    forall u | 0 <= u < |s.threads| ensures PrivateOk(s'.nodes, v, s'.threads[u]) && LocalsOk(s', v, s'.threads[u]) {
      LocalsSurvive(s, v, s', v, s.threads[u]);
    }
  }

  /** The program counter a step leads to is again justified, when no shared pointer changes. */
  ghost predicate LocalStepOk(s: State, v: View, t: nat, s': State)
    requires t < |s.threads| && t < |s'.threads| && v.WellFormed() && v.Has(s.head) && v.Has(s.tail)
  {
    var pc' := s'.threads[t];
    s' == Goto(s, t, pc') && LocalsOk(s, v, pc') && Private(pc') in {None, Private(s.threads[t])}
  }

  lemma EnqueueStepOk(s: State, v: View, t: nat, op: Op)
    requires t < |s.threads| && Inv(s, v) && Private(s.threads[t]).Some?
    requires !Links(s, t) && !SwingsTail(s, t)
    ensures LocalStepOk(s, v, t, Step(s, t, op))
  {
    var pc := s.threads[t];
    assert LocalsOk(s, v, pc);
    if pc.EnqLoadNext? {
      LastIffNilNext(s.nodes, v, pc.tail);
    }
  }

  lemma DequeueStepOk(s: State, v: View, t: nat, op: Op)
    requires t < |s.threads| && Inv(s, v) && !SwingsTail(s, t) && !MovesHead(s, t)
    requires var pc := s.threads[t];
             pc.DeqLoadHead? || pc.DeqLoadTail? || pc.DeqLoadNext? || pc.DeqCheckHead? || pc.DeqHelp?
             || pc.DeqReadValue? || pc.DeqSwing?
    ensures LocalStepOk(s, v, t, Step(s, t, op))
  {
    var pc := s.threads[t];
    assert LocalsOk(s, v, pc);
    if pc.DeqLoadNext? {
      LastIffNilNext(s.nodes, v, pc.head);
      if NextOf(s.nodes, pc.head).None? {
        assert v.chain[v.pos[pc.head]] == v.chain[v.pos[pc.tail]];
      }
    }
  }

  lemma OtherStepOk(s: State, v: View, t: nat, op: Op)
    requires t < |s.threads| && Inv(s, v) && !SwingsTail(s, t)
    requires var pc := s.threads[t];
             pc.EnqSwing? || pc.PeekLoadHead? || pc.PeekLoadNext? || pc.PeekReadValue?
             || pc.IsEmptyLoadHead? || pc.IsEmptyLoadNext? || pc.Returned? || pc.Crashed?
    ensures LocalStepOk(s, v, t, Step(s, t, op))
  {
    var pc := s.threads[t];
    assert LocalsOk(s, v, pc);
    if pc.PeekLoadNext? {
      LastIffNilNext(s.nodes, v, pc.head);
    }
  }

  lemma LocalStepKeepsInv(s: State, v: View, t: nat, op: Op)
    requires t < |s.threads| && Inv(s, v)
    requires !s.threads[t].Idle? && !Links(s, t) && !SwingsTail(s, t) && !MovesHead(s, t)
    ensures LocalStepOk(s, v, t, Step(s, t, op))
    ensures Inv(Step(s, t, op), v)
  {
    assert LocalStepOk(s, v, t, Step(s, t, op)) by {
      if Private(s.threads[t]).Some? {
        EnqueueStepOk(s, v, t, op);
      } else if s.threads[t].DeqLoadHead? || s.threads[t].DeqLoadTail? || s.threads[t].DeqLoadNext?
                || s.threads[t].DeqCheckHead? || s.threads[t].DeqHelp? || s.threads[t].DeqReadValue?
                || s.threads[t].DeqSwing? {
        DequeueStepOk(s, v, t, op);
      } else {
        OtherStepOk(s, v, t, op);
      }
    }
  }

  /** Allocating a node changes nothing that is linked; the new node belongs to its thread alone. */
  lemma AllocationKeepsInv(s: State, v: View, t: nat, value: Value)
    requires t < |s.threads| && Inv(s, v) && s.threads[t].Idle?
    ensures Later(s, v, Call(s, t, Enqueue(value)), v)
    ensures Inv(Call(s, t, Enqueue(value)), v)
  {
    var s' := Call(s, t, Enqueue(value));
    forall n | n in v.pos ensures Linked(s'.nodes, v, n) && n < |s.nodes| {
      assert Linked(s.nodes, v, n);
    }
    forall u | 0 <= u < |s.threads| ensures PrivateOk(s'.nodes, v, s'.threads[u]) && LocalsOk(s', v, s'.threads[u]) {
      assert PrivateOk(s.nodes, v, s.threads[u]);
      LocalsSurvive(s, v, s', v, s.threads[u]);
    }
  }

  lemma CallKeepsInv(s: State, v: View, t: nat, op: Op)
    requires t < |s.threads| && Inv(s, v) && s.threads[t].Idle?
    ensures Later(s, v, Step(s, t, op), v)
    ensures Inv(Step(s, t, op), v)
  {
    match op
    case Enqueue(value) => AllocationKeepsInv(s, v, t, value);
    case _ =>
  }

  /** Every step of every thread keeps the invariant, extends the chain and moves pointers forward. */
  lemma StepKeepsInv(s: State, v: View, t: nat, op: Op)
    requires t < |s.threads| && Inv(s, v)
    ensures Inv(Step(s, t, op), NextView(s, v, t))
    ensures Later(s, v, Step(s, t, op), NextView(s, v, t))
  {
    if s.threads[t].Idle? {
      CallKeepsInv(s, v, t, op);
    } else if Links(s, t) {
      LinkExtendsChain(s, v, t, op);
      LinkKeepsInv(s, v, t, op);
    } else if SwingsTail(s, t) || MovesHead(s, t) {
      SharedStepKeepsInv(s, v, t, op);
    } else {
      LocalStepKeepsInv(s, v, t, op);
    }
  }

  // ---------------------------------------------------------------------------------------
  // Refinement of the plain FIFO sequence of pkg/ds/sync/queue.go.

  ghost function Values(nodes: seq<Node>, ids: seq<nat>): seq<Value> {
    seq(|ids|, i requires 0 <= i < |ids| => ValueOf(nodes, ids[i]))
  }

  lemma {:induction false} WalkIsSuffix(nodes: seq<Node>, v: View, node: nat, fuel: nat)
    requires Chained(nodes, v) && v.Has(node)
    requires |v.chain| <= v.pos[node] + 1 + fuel
    ensures Walk(nodes, NextOf(nodes, node), fuel) == Values(nodes, v.chain[v.pos[node] + 1..])
    decreases fuel
  {
    LastIffNilNext(nodes, v, node);
    if v.pos[node] + 1 < |v.chain| {
      var next := NextOf(nodes, node).value;
      assert v.chain[v.pos[next]] == next;
      WalkIsSuffix(nodes, v, next, fuel - 1);
    }
  }

  /** The pointer walk collects exactly the values of the nodes linked after head. */
  lemma ContentsIsSuffix(s: State, v: View)
    requires Inv(s, v)
    ensures Contents(s) == Values(s.nodes, v.chain[v.pos[s.head] + 1..])
  {
    forall i, j | 0 <= i < j < |v.chain| ensures v.chain[i] != v.chain[j] {
      assert v.pos[v.chain[i]] == i && v.pos[v.chain[j]] == j;
    }
    forall i | 0 <= i < |v.chain| ensures v.chain[i] < |s.nodes| {
      assert Linked(s.nodes, v, v.chain[i]);
    }
    DistinctBelow(v.chain, |s.nodes|);
    WalkIsSuffix(s.nodes, v, s.head, |s.nodes|);
  }

  lemma ValuesMove(nodes: seq<Node>, chain: seq<nat>, nodes': seq<Node>, chain': seq<nat>, from: nat, to: nat)
    requires chain <= chain' && from <= |chain| && from <= to <= |chain'|
    requires forall i :: 0 <= i < |chain| ==> ValueOf(nodes', chain[i]) == ValueOf(nodes, chain[i])
    ensures Values(nodes', chain'[to..]) ==
            (Values(nodes, chain[from..]) + Values(nodes', chain'[|chain|..]))[to - from..]
  {
    forall i | from <= i < |chain| ensures chain[from..][i - from] == chain[i] == chain'[i] {
    }
  }

  /** In general: what a change adds comes at the back, and what it takes goes from the front. */
  lemma ContentsMove(s: State, v: View, s': State, v': View)
    requires Inv(s, v) && Inv(s', v') && Later(s, v, s', v')
    ensures var added := Values(s'.nodes, v'.chain[|v.chain|..]);
            var moved := v'.pos[s'.head] - v.pos[s.head];
            0 <= moved <= |Contents(s) + added| && Contents(s') == (Contents(s) + added)[moved..]
  {
    ContentsIsSuffix(s, v);
    ContentsIsSuffix(s', v');
    forall i | 0 <= i < |v.chain| ensures ValueOf(s'.nodes, v.chain[i]) == ValueOf(s.nodes, v.chain[i]) {
      assert Linked(s.nodes, v, v.chain[i]);
    }
    ValuesMove(s.nodes, v.chain, s'.nodes, v'.chain, v.pos[s.head] + 1, v'.pos[s'.head] + 1);
  }

  /**
   The refinement, step by step: a successful link appends the enqueuer's value, a successful
   head move removes the front and has already read exactly that value, and no other step of
   any thread changes the queue.
   */
  lemma StepRefinesFifo(s: State, v: View, t: nat, op: Op)
    requires t < |s.threads| && Inv(s, v)
    ensures Links(s, t) ==>
              Contents(Step(s, t, op)) == Contents(s) + [ValueOf(s.nodes, s.threads[t].node)]
    ensures MovesHead(s, t) ==>
              && Contents(s) != [] && Contents(s)[0] == s.threads[t].value
              && Contents(Step(s, t, op)) == Contents(s)[1..]
    ensures !Links(s, t) && !MovesHead(s, t) ==> Contents(Step(s, t, op)) == Contents(s)
  {
    var s', v' := Step(s, t, op), NextView(s, v, t);
    StepKeepsInv(s, v, t, op);
    ContentsMove(s, v, s', v');
    if Links(s, t) {
      assert PrivateOk(s.nodes, v, s.threads[t]);
      assert s'.head == s.head;
      assert v'.chain[|v.chain|..] == [s.threads[t].node];
    } else {
      assert v'.chain[|v.chain|..] == [];
      if MovesHead(s, t) {
        FrontIsNext(s, v, t);
      } else {
        HeadStays(s, t, op);
      }
    }
  }

  lemma HeadStays(s: State, t: nat, op: Op)
    requires t < |s.threads| && !MovesHead(s, t)
    ensures Step(s, t, op).head == s.head
  {
  }

  lemma FrontIsNext(s: State, v: View, t: nat)
    requires t < |s.threads| && Inv(s, v) && MovesHead(s, t)
    ensures Contents(s) != [] && Contents(s)[0] == s.threads[t].value
    ensures v.Follows(s.head, s.threads[t].next)
  {
    ContentsIsSuffix(s, v);
    assert LocalsOk(s, v, s.threads[t]);
    assert v.chain[v.pos[s.threads[t].next]] == s.threads[t].next;
  }
}
