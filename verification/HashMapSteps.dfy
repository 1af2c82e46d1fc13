/**
 Put and Delete of pkg/ds/lockfree/hashmap.go run by any number of threads at once: one list
 sorted by hash, nodes linked by compare-and-swap, deletion only by flag.  Each atomic load,
 store, compare-and-swap or counter update is one step.  The hash function is a parameter.
 */
module HashMapSteps {
  import opened Common

  type Key = string
  type Value = int

  datatype HashNode = HashNode(key: Key, hash: nat, value: Value, next: Option<nat>, deleted: bool)

  datatype Op = Put(key: Key, value: Value) | Delete(key: Key)

  /** `prev == 0` is the dummy head, which findPosition reports as a nil `prev`. */
  datatype Pc =
    | Idle
    | FindStart(op: Op)
    | FindAt(op: Op, prev: nat, curr: Option<nat>)
    | PutLoadDeleted(op: Op, found: nat)
    | PutRevive(op: Op, found: nat)
    | PutReviveStore(op: Op, found: nat)
    | PutUpdate(op: Op, found: nat)
    | PutReloadHead(op: Op, node: nat, curr: Option<nat>)
    | PutLink(op: Op, node: nat, prev: nat, curr: Option<nat>)
    | PutAddCount(op: Op, linked: Option<nat>)
    | PutSetBucket(op: Op, node: nat)
    | DelLoadDeleted(op: Op, found: nat)
    | DelMark(op: Op, found: nat)
    | DelSubCount(op: Op)
    | Returned(op: Op, answer: bool)

  datatype State = State(nodes: seq<HashNode>, buckets: map<nat, nat>, bucketCount: nat, count: int, threads: seq<Pc>)

  /** What the Go program is built with: the hash function. */
  datatype Params = Params(hashOf: Key -> nat)

  function Init(bucketCount: nat, threads: nat): State {
    State([HashNode("", 0, 0, None, false)], map[], bucketCount, 0, seq(threads, _ => Idle))
  }

  function Goto(s: State, t: nat, pc: Pc): State
    requires t < |s.threads|
  {
    s.(threads := s.threads[t := pc])
  }

  function NextOf(nodes: seq<HashNode>, n: nat): Option<nat> {
    if n < |nodes| then nodes[n].next else None
  }

  predicate IsDeleted(nodes: seq<HashNode>, n: nat) {
    n < |nodes| && nodes[n].deleted
  }

  function SetDeleted(nodes: seq<HashNode>, n: nat, deleted: bool): seq<HashNode> {
    if n < |nodes| then nodes[n := nodes[n].(deleted := deleted)] else nodes
  }

  function SetValue(nodes: seq<HashNode>, n: nat, value: Value): seq<HashNode> {
    if n < |nodes| then nodes[n := nodes[n].(value := value)] else nodes
  }

  function SetNext(nodes: seq<HashNode>, n: nat, next: Option<nat>): seq<HashNode> {
    if n < |nodes| then nodes[n := nodes[n].(next := next)] else nodes
  }

  predicate Matches(p: Params, nodes: seq<HashNode>, op: Op, curr: Option<nat>) {
    curr.Some? && curr.value < |nodes| && nodes[curr.value].hash == p.hashOf(op.key) && nodes[curr.value].key == op.key
  }

  /** findPosition goes on past nodes whose hash is not larger and whose key differs. */
  predicate WalksOn(p: Params, nodes: seq<HashNode>, op: Op, curr: Option<nat>) {
    curr.Some? && curr.value < |nodes| && nodes[curr.value].hash <= p.hashOf(op.key) && !Matches(p, nodes, op, curr)
  }

  /** What the caller of findPosition does with its answer, up to its next shared access. */
  function Positioned(p: Params, s: State, t: nat, op: Op, prev: nat, curr: Option<nat>): State
    requires t < |s.threads|
  {
    match op
    case Put(key, value) =>
      if Matches(p, s.nodes, op, curr) then Goto(s, t, PutLoadDeleted(op, curr.value))
      else
        var node := HashNode(key, p.hashOf(key), value, curr, false);
        Goto(s.(nodes := s.nodes + [node]), t,
             if prev == 0 then PutReloadHead(op, |s.nodes|, curr) else PutLink(op, |s.nodes|, prev, curr))
    case Delete(key) =>
      if Matches(p, s.nodes, op, curr) then Goto(s, t, DelLoadDeleted(op, curr.value))
      else Goto(s, t, Returned(op, false))
  }

  /** One step of thread `t`; `op` is what it calls if it is idle. */
  function Step(p: Params, s: State, t: nat, op: Op): State
    requires t < |s.threads|
  {
    match s.threads[t]
    case Idle => Goto(s, t, FindStart(op))
    case FindStart(op) => Goto(s, t, FindAt(op, 0, NextOf(s.nodes, 0)))
    case FindAt(op, prev, curr) =>
      if WalksOn(p, s.nodes, op, curr) then Goto(s, t, FindAt(op, curr.value, NextOf(s.nodes, curr.value)))
      else Positioned(p, s, t, op, prev, curr)
    case PutLoadDeleted(op, found) =>
      Goto(s, t, if IsDeleted(s.nodes, found) then PutRevive(op, found) else PutUpdate(op, found))
    case PutRevive(op, found) =>
      if IsDeleted(s.nodes, found) then Goto(s.(nodes := SetDeleted(s.nodes, found, false)), t, PutReviveStore(op, found))
      else Goto(s, t, FindStart(op))
    case PutReviveStore(op, found) =>
      Goto(s.(nodes := SetValue(s.nodes, found, if op.Put? then op.value else 0)), t, PutAddCount(op, None))
    case PutUpdate(op, found) =>
      Goto(s.(nodes := SetValue(s.nodes, found, if op.Put? then op.value else 0)), t, Returned(op, true))
    case PutReloadHead(op, node, curr) =>
      Goto(s.(nodes := SetNext(s.nodes, node, NextOf(s.nodes, 0))), t, PutLink(op, node, 0, curr))
    case PutLink(op, node, prev, curr) =>
      if NextOf(s.nodes, prev) == curr then
        Goto(s.(nodes := SetNext(s.nodes, prev, Some(node))), t, PutAddCount(op, Some(node)))
      else
        Goto(s, t, FindStart(op))
    case PutAddCount(op, linked) =>
      Goto(s.(count := s.count + 1), t, if linked.Some? then PutSetBucket(op, linked.value) else Returned(op, true))
    case PutSetBucket(op, node) =>
      (var bucket := if s.bucketCount == 0 then 0 else p.hashOf(op.key) % s.bucketCount;
       Goto(if bucket in s.buckets then s else s.(buckets := s.buckets[bucket := node]), t, Returned(op, true)))
    case DelLoadDeleted(op, found) => Goto(s, t, if IsDeleted(s.nodes, found) then Returned(op, false) else DelMark(op, found))
    case DelMark(op, found) =>
      if !IsDeleted(s.nodes, found) then Goto(s.(nodes := SetDeleted(s.nodes, found, true)), t, DelSubCount(op))
      else Goto(s, t, FindStart(op))
    case DelSubCount(op) => Goto(s.(count := s.count - 1), t, Returned(op, true))
    case Returned(_, _) => Goto(s, t, Idle)
  }

  // ---------------------------------------------------------------------------------------
  // The list, as the set of linked nodes with their positions.  Position 0 is the dummy.

  datatype View = View(pos: map<nat, nat>) {
    ghost predicate Has(n: nat) { n in pos }

    ghost predicate Before(a: nat, b: nat) { a in pos && b in pos && pos[a] < pos[b] }

    /** `node` takes the place right behind `prev`; everything later moves up by one. */
    ghost function InsertAfter(prev: nat, node: nat): View
      requires prev in pos
    {
      View((map n | n in pos :: if pos[n] > pos[prev] then pos[n] + 1 else pos[n])[node := pos[prev] + 1])
    }
  }

  ghost predicate Linked(nodes: seq<HashNode>, v: View, n: nat)
    requires v.Has(n)
  {
    && n < |nodes|
    && v.pos[n] < |v.pos|
    && (n == 0 <==> v.pos[n] == 0)
    && match nodes[n].next
       case None => v.pos[n] == |v.pos| - 1
       case Some(m) => v.Has(m) && v.pos[m] == v.pos[n] + 1
  }

  ghost predicate Ordered(nodes: seq<HashNode>, v: View, a: nat, b: nat)
    requires v.Has(a) && v.Has(b) && a < |nodes| && b < |nodes|
  {
    && (v.pos[a] < v.pos[b] ==> nodes[a].hash <= nodes[b].hash)
    && (a != b ==> v.pos[a] != v.pos[b])
    && (a != b && a != 0 && b != 0 ==> nodes[a].key != nodes[b].key)
  }

  /** Sorted by hash, all keys distinct, and the next pointers run through exactly the linked nodes. */
  ghost predicate SortedList(p: Params, nodes: seq<HashNode>, v: View) {
    && |nodes| > 0 && v.Has(0) && nodes[0].hash == 0 && !nodes[0].deleted
    && (forall n: nat {:trigger Linked(nodes, v, n)} :: v.Has(n) ==> Linked(nodes, v, n))
    && (forall n: nat :: v.Has(n) && n != 0 && n < |nodes| ==> nodes[n].hash == p.hashOf(nodes[n].key))
    && (forall a: nat, b: nat {:trigger Ordered(nodes, v, a, b)} ::
          v.Has(a) && v.Has(b) && a < |nodes| && b < |nodes| ==> Ordered(nodes, v, a, b))
  }

  /** Every linked node with this key, if there is one, lies behind `a`. */
  ghost predicate KeyBehind(nodes: seq<HashNode>, v: View, key: Key, a: nat)
    requires v.Has(a)
  {
    forall n: nat :: v.Has(n) && n != 0 && n < |nodes| && nodes[n].key == key ==> v.pos[a] < v.pos[n]
  }

  ghost predicate KeyNotBefore(nodes: seq<HashNode>, v: View, key: Key, a: nat)
    requires v.Has(a)
  {
    forall n: nat :: v.Has(n) && n != 0 && n < |nodes| && nodes[n].key == key ==> v.pos[a] <= v.pos[n]
  }

  /** The search has come to `prev` without passing the key. */
  ghost predicate Reached(p: Params, nodes: seq<HashNode>, v: View, op: Op, prev: nat) {
    v.Has(prev) && prev < |nodes| && nodes[prev].hash <= p.hashOf(op.key) && KeyBehind(nodes, v, op.key, prev)
  }

  ghost predicate Ahead(p: Params, nodes: seq<HashNode>, v: View, op: Op, prev: nat, curr: Option<nat>) {
    curr.Some? ==>
      var c := curr.value;
      && v.Before(prev, c) && c < |nodes| && c != 0
      && (nodes[c].hash <= p.hashOf(op.key) ==> KeyNotBefore(nodes, v, op.key, c))
  }

  /** The search has stopped: what follows belongs behind the key. */
  ghost predicate Stopped(p: Params, nodes: seq<HashNode>, op: Op, curr: Option<nat>) {
    curr.Some? ==> curr.value < |nodes| && nodes[curr.value].hash > p.hashOf(op.key)
  }

  ghost predicate Found(nodes: seq<HashNode>, v: View, op: Op, n: nat) {
    v.Has(n) && n != 0 && n < |nodes| && nodes[n].key == op.key
  }

  function Private(pc: Pc): Option<nat> {
    match pc
    case PutReloadHead(_, node, _) => Some(node)
    case PutLink(_, node, _, _) => Some(node)
    case _ => None
  }

  ghost predicate PrivateOk(p: Params, nodes: seq<HashNode>, v: View, pc: Pc) {
    Private(pc).Some? ==>
      var n := Private(pc).value;
      && n < |nodes| && n != 0 && !v.Has(n)
      && nodes[n].key == pc.op.key && nodes[n].hash == p.hashOf(pc.op.key) && !nodes[n].deleted
      && (pc.PutLink? ==> nodes[n].next == pc.curr || NextOf(nodes, pc.prev) != pc.curr)
  }

  ghost predicate LocalsOk(p: Params, nodes: seq<HashNode>, v: View, pc: Pc) {
    match pc
    case FindAt(op, prev, curr) => Reached(p, nodes, v, op, prev) && Ahead(p, nodes, v, op, prev, curr)
    case PutLoadDeleted(op, found) => op.Put? && Found(nodes, v, op, found)
    case PutRevive(op, found) => op.Put? && Found(nodes, v, op, found)
    case PutReviveStore(op, found) => op.Put? && Found(nodes, v, op, found)
    case PutUpdate(op, found) => op.Put? && Found(nodes, v, op, found)
    case PutReloadHead(op, _, curr) =>
      op.Put? && Reached(p, nodes, v, op, 0) && Ahead(p, nodes, v, op, 0, curr) && Stopped(p, nodes, op, curr)
    case PutLink(op, _, prev, curr) =>
      op.Put? && Reached(p, nodes, v, op, prev) && Ahead(p, nodes, v, op, prev, curr) && Stopped(p, nodes, op, curr)
    case PutAddCount(op, linked) => op.Put? && (linked.Some? ==> Found(nodes, v, op, linked.value))
    case PutSetBucket(op, node) => op.Put? && Found(nodes, v, op, node)
    case DelLoadDeleted(op, found) => op.Delete? && Found(nodes, v, op, found)
    case DelMark(op, found) => op.Delete? && Found(nodes, v, op, found)
    case DelSubCount(op) => op.Delete?
    case _ => true
  }

  ghost predicate BucketsOk(p: Params, s: State, v: View) {
    forall b :: b in s.buckets ==>
      var n := s.buckets[b];
      v.Has(n) && n != 0 && n < |s.nodes| && b == if s.bucketCount == 0 then 0 else s.nodes[n].hash % s.bucketCount
  }

  ghost predicate Structure(p: Params, s: State, v: View) {
    && SortedList(p, s.nodes, v)
    && BucketsOk(p, s, v)
    && (forall t :: 0 <= t < |s.threads| ==> PrivateOk(p, s.nodes, v, s.threads[t]))
    && (forall t :: 0 <= t < |s.threads| ==> LocalsOk(p, s.nodes, v, s.threads[t]))
    && (forall t, u :: 0 <= t < u < |s.threads| && Private(s.threads[t]).Some? ==>
          Private(s.threads[t]) != Private(s.threads[u]))
  }

  // ---------------------------------------------------------------------------------------
  // Steps that leave the list alone.

  ghost predicate SameNode(a: HashNode, b: HashNode) {
    a.key == b.key && a.hash == b.hash && a.next == b.next
  }

  /** No linked node's key, hash or successor changed. */
  ghost predicate SameList(nodes: seq<HashNode>, nodes': seq<HashNode>, v: View) {
    && |nodes| <= |nodes'|
    && (forall n: nat :: v.Has(n) && n < |nodes| ==> SameNode(nodes[n], nodes'[n]))
    && (v.Has(0) && |nodes| > 0 ==> nodes'[0].deleted == nodes[0].deleted)
  }

  lemma ListSurvives(p: Params, nodes: seq<HashNode>, nodes': seq<HashNode>, v: View)
    requires SortedList(p, nodes, v) && SameList(nodes, nodes', v)
    ensures SortedList(p, nodes', v)
  {
    forall n: nat | v.Has(n) ensures Linked(nodes', v, n) && n < |nodes| && SameNode(nodes[n], nodes'[n]) {
      assert Linked(nodes, v, n);
    }
    forall a: nat, b: nat | v.Has(a) && v.Has(b) && a < |nodes'| && b < |nodes'| ensures Ordered(nodes', v, a, b) {
      assert Ordered(nodes, v, a, b);
    }
  }

  lemma LocalsSurvive(p: Params, nodes: seq<HashNode>, nodes': seq<HashNode>, v: View, pc: Pc)
    requires SortedList(p, nodes, v) && SameList(nodes, nodes', v) && LocalsOk(p, nodes, v, pc)
    ensures LocalsOk(p, nodes', v, pc)
  {
    forall n: nat | v.Has(n) ensures n < |nodes| && SameNode(nodes[n], nodes'[n]) {
      assert Linked(nodes, v, n);
    }
  }

  /** Enough for the structure to survive a step of thread `t` that links nothing. */
  ghost predicate Unlinked(p: Params, s: State, v: View, t: nat, s': State)
    requires t < |s.threads| && |s'.threads| == |s.threads|
  {
    var pc' := s'.threads[t];
    && s'.threads == s.threads[t := pc']
    && SameList(s.nodes, s'.nodes, v)
    && (forall n: nat :: !v.Has(n) && n < |s.nodes| && Private(s.threads[t]) != Some(n) ==> s'.nodes[n] == s.nodes[n])
    && s'.bucketCount == s.bucketCount
    && BucketsOk(p, s', v)
    && PrivateOk(p, s'.nodes, v, pc')
    && LocalsOk(p, s'.nodes, v, pc')
    && (Private(pc').Some? ==> Private(pc') == Private(s.threads[t]) || Private(pc').value >= |s.nodes|)
  }

  lemma UnlinkedKeepsStructure(p: Params, s: State, v: View, t: nat, s': State)
    requires t < |s.threads| && |s'.threads| == |s.threads|
    requires Structure(p, s, v) && Unlinked(p, s, v, t, s')
    ensures Structure(p, s', v)
  {
    ListSurvives(p, s.nodes, s'.nodes, v);
    forall u | 0 <= u < |s.threads| && u != t
      ensures PrivateOk(p, s'.nodes, v, s'.threads[u]) && LocalsOk(p, s'.nodes, v, s'.threads[u])
    {
      var pc := s.threads[u];
      assert PrivateOk(p, s.nodes, v, pc) && LocalsOk(p, s.nodes, v, pc);
      LocalsSurvive(p, s.nodes, s'.nodes, v, pc);
      if pc.PutLink? {
        assert Linked(s.nodes, v, pc.prev);
      }
    }
    forall u, w | 0 <= u < w < |s'.threads| && Private(s'.threads[u]).Some?
      ensures Private(s'.threads[u]) != Private(s'.threads[w])
    {
      assert PrivateOk(p, s.nodes, v, s.threads[u]) && PrivateOk(p, s.nodes, v, s.threads[w]);
    }
  }

  ghost predicate LinksNode(s: State, t: nat)
    requires t < |s.threads|
  {
    s.threads[t].PutLink? && NextOf(s.nodes, s.threads[t].prev) == s.threads[t].curr
  }

  /** Walking to the successor of a node that does not match keeps the key ahead. */
  lemma WalkOn(p: Params, nodes: seq<HashNode>, v: View, op: Op, prev: nat, curr: Option<nat>)
    requires SortedList(p, nodes, v) && Reached(p, nodes, v, op, prev) && Ahead(p, nodes, v, op, prev, curr)
    requires WalksOn(p, nodes, op, curr)
    ensures Reached(p, nodes, v, op, curr.value)
    ensures Ahead(p, nodes, v, op, curr.value, NextOf(nodes, curr.value))
  {
    var c := curr.value;
    assert Linked(nodes, v, c);
    forall n: nat | v.Has(n) && n != 0 && n < |nodes| && nodes[n].key == op.key ensures v.pos[c] < v.pos[n] {
      assert Ordered(nodes, v, c, n);
    }
    if NextOf(nodes, c).Some? {
      assert Linked(nodes, v, NextOf(nodes, c).value);
    }
  }

  lemma StartWalk(p: Params, nodes: seq<HashNode>, v: View, op: Op)
    requires SortedList(p, nodes, v)
    ensures Reached(p, nodes, v, op, 0)
    ensures Ahead(p, nodes, v, op, 0, NextOf(nodes, 0))
  {
    assert Linked(nodes, v, 0);
    forall n: nat | v.Has(n) && n != 0 ensures v.pos[0] < v.pos[n] {
      assert Linked(nodes, v, n);
    }
    if NextOf(nodes, 0).Some? {
      assert Linked(nodes, v, NextOf(nodes, 0).value);
    }
  }

  /** The search stops: at the key itself, or in front of a node with a larger hash, or at the end. */
  lemma PositionedUnlinked(p: Params, s: State, v: View, t: nat)
    requires t < |s.threads| && Structure(p, s, v) && s.threads[t].FindAt?
    requires var pc := s.threads[t]; !WalksOn(p, s.nodes, pc.op, pc.curr)
    ensures var pc := s.threads[t]; Unlinked(p, s, v, t, Positioned(p, s, t, pc.op, pc.prev, pc.curr))
  {
    var pc := s.threads[t];
    var s' := Positioned(p, s, t, pc.op, pc.prev, pc.curr);
    OwnLocals(p, s, v, t);
    ListedExist(p, s, v);
    hide Structure;
    if !Matches(p, s.nodes, pc.op, pc.curr) {
      assert Stopped(p, s.nodes, pc.op, pc.curr);
      LocalsSurvive(p, s.nodes, s'.nodes, v, pc);
    }
  }

  lemma FindStepUnlinked(p: Params, s: State, v: View, t: nat, op: Op)
    requires t < |s.threads| && Structure(p, s, v) && (s.threads[t].FindStart? || s.threads[t].FindAt?)
    ensures Unlinked(p, s, v, t, Step(p, s, t, op))
  {
    var pc := s.threads[t];
    assert LocalsOk(p, s.nodes, v, pc);
    if pc.FindAt? && !WalksOn(p, s.nodes, pc.op, pc.curr) {
      PositionedUnlinked(p, s, v, t);
    } else if pc.FindAt? {
      WalkOn(p, s.nodes, v, pc.op, pc.prev, pc.curr);
    } else {
      StartWalk(p, s.nodes, v, pc.op);
    }
  }

  lemma PutStepUnlinked(p: Params, s: State, v: View, t: nat, op: Op)
    requires t < |s.threads| && Structure(p, s, v) && !LinksNode(s, t)
    requires var pc := s.threads[t];
             pc.PutLoadDeleted? || pc.PutRevive? || pc.PutReviveStore? || pc.PutUpdate? || pc.PutReloadHead?
             || pc.PutLink? || pc.PutAddCount?
    ensures Unlinked(p, s, v, t, Step(p, s, t, op))
  {
    hide SortedList, Structure;
    var pc, s' := s.threads[t], Step(p, s, t, op);
    OwnLocals(p, s, v, t);
    ListedExist(p, s, v);
    if pc.PutReloadHead? {
      assert SameList(s.nodes, s'.nodes, v);
    }
    LocalsOfPut(p, s, v, t, op);
  }

  lemma LocalsOfPut(p: Params, s: State, v: View, t: nat, op: Op)
    requires t < |s.threads| && SortedList(p, s.nodes, v) && !LinksNode(s, t)
    requires LocalsOk(p, s.nodes, v, s.threads[t]) && PrivateOk(p, s.nodes, v, s.threads[t])
    requires var pc := s.threads[t];
             pc.PutLoadDeleted? || pc.PutRevive? || pc.PutReviveStore? || pc.PutUpdate? || pc.PutReloadHead?
             || pc.PutLink? || pc.PutAddCount?
    ensures LocalsOk(p, Step(p, s, t, op).nodes, v, Step(p, s, t, op).threads[t])
  {
    var pc, nodes' := s.threads[t], Step(p, s, t, op).nodes;
    forall n: nat | v.Has(n) ensures n < |s.nodes| {
      assert Linked(s.nodes, v, n);
    }
    if pc.PutReloadHead? {
      LocalsSurvive(p, s.nodes, nodes', v, pc);
    }
  }

  lemma OwnLocals(p: Params, s: State, v: View, t: nat)
    requires t < |s.threads| && Structure(p, s, v)
    ensures LocalsOk(p, s.nodes, v, s.threads[t]) && PrivateOk(p, s.nodes, v, s.threads[t])
    ensures SortedList(p, s.nodes, v) && BucketsOk(p, s, v)
  {
  }

  lemma ListedExist(p: Params, s: State, v: View)
    requires Structure(p, s, v)
    ensures forall n: nat :: v.Has(n) ==> n < |s.nodes|
  {
    forall n: nat | v.Has(n) ensures n < |s.nodes| {
      assert Linked(s.nodes, v, n);
    }
  }

  lemma OtherStepUnlinked(p: Params, s: State, v: View, t: nat, op: Op)
    requires t < |s.threads| && Structure(p, s, v)
    requires var pc := s.threads[t];
             pc.Idle? || pc.PutSetBucket? || pc.DelLoadDeleted? || pc.DelMark? || pc.DelSubCount? || pc.Returned?
    ensures Unlinked(p, s, v, t, Step(p, s, t, op))
  {
    hide SortedList, Structure;
    var pc, s' := s.threads[t], Step(p, s, t, op);
    OwnLocals(p, s, v, t);
    ListedExist(p, s, v);
  }

  // ---------------------------------------------------------------------------------------
  // The step that links a node.

  /** What a successful link starts from. */
  ghost predicate Linkable(p: Params, nodes: seq<HashNode>, v: View, op: Op, node: nat, prev: nat, curr: Option<nat>) {
    && SortedList(p, nodes, v)
    && Reached(p, nodes, v, op, prev) && Ahead(p, nodes, v, op, prev, curr) && Stopped(p, nodes, op, curr)
    && NextOf(nodes, prev) == curr
    && node < |nodes| && node != 0 && !v.Has(node)
    && nodes[node].key == op.key && nodes[node].hash == p.hashOf(op.key) && !nodes[node].deleted
    && nodes[node].next == curr
  }

  /** Nothing lies between `prev` and `curr`, so everything behind `prev` has a larger hash. */
  lemma BehindIsLarger(p: Params, nodes: seq<HashNode>, v: View, op: Op, node: nat, prev: nat, curr: Option<nat>, n: nat)
    requires Linkable(p, nodes, v, op, node, prev, curr) && v.Has(n) && v.pos[n] > v.pos[prev]
    ensures n < |nodes| && nodes[n].hash > p.hashOf(op.key) && curr.Some? && v.pos[curr.value] <= v.pos[n]
  {
    assert Linked(nodes, v, prev) && Linked(nodes, v, n);
    assert Ordered(nodes, v, curr.value, n);
  }

  /** In particular the key is not linked yet. */
  lemma KeyIsNew(p: Params, nodes: seq<HashNode>, v: View, op: Op, node: nat, prev: nat, curr: Option<nat>, n: nat)
    requires Linkable(p, nodes, v, op, node, prev, curr) && v.Has(n) && n != 0
    ensures n < |nodes| && nodes[n].key != op.key
  {
    assert Linked(nodes, v, n);
    if nodes[n].key == op.key {
      BehindIsLarger(p, nodes, v, op, node, prev, curr, n);
    }
  }

  lemma InsertSize(v: View, prev: nat, node: nat)
    requires v.Has(prev) && !v.Has(node)
    ensures |v.InsertAfter(prev, node).pos| == |v.pos| + 1
    ensures v.InsertAfter(prev, node).pos.Keys == v.pos.Keys + {node}
  {
    assert v.InsertAfter(prev, node).pos.Keys == v.pos.Keys + {node};
  }

  lemma InsertLinked(p: Params, nodes: seq<HashNode>, v: View, op: Op, node: nat, prev: nat, curr: Option<nat>, n: nat)
    requires Linkable(p, nodes, v, op, node, prev, curr) && (v.Has(n) || n == node)
    ensures var v' := v.InsertAfter(prev, node);
            v'.Has(n) && Linked(SetNext(nodes, prev, Some(node)), v', n)
  {
    var v' := v.InsertAfter(prev, node);
    InsertSize(v, prev, node);
    assert Linked(nodes, v, prev) && Linked(nodes, v, 0);
    if n != node {
      assert Linked(nodes, v, n);
      assert Ordered(nodes, v, n, prev);
    }
    if curr.Some? {
      assert Linked(nodes, v, curr.value);
    }
  }

  lemma InsertOrdered(p: Params, nodes: seq<HashNode>, v: View, op: Op, node: nat, prev: nat, curr: Option<nat>, a: nat, b: nat)
    requires Linkable(p, nodes, v, op, node, prev, curr)
    requires (v.Has(a) || a == node) && (v.Has(b) || b == node) && a < |nodes| && b < |nodes|
    ensures var v' := v.InsertAfter(prev, node); Ordered(SetNext(nodes, prev, Some(node)), v', a, b)
  {
    if a != node && b != node {
      assert Ordered(nodes, v, a, b);
    } else if a != b {
      var n := if a == node then b else a;
      if n != 0 {
        KeyIsNew(p, nodes, v, op, node, prev, curr, n);
      }
      if v.pos[n] > v.pos[prev] {
        BehindIsLarger(p, nodes, v, op, node, prev, curr, n);
      } else {
        assert Ordered(nodes, v, n, prev);
      }
    }
  }

  lemma InsertKeepsList(p: Params, nodes: seq<HashNode>, v: View, op: Op, node: nat, prev: nat, curr: Option<nat>)
    requires Linkable(p, nodes, v, op, node, prev, curr)
    ensures SortedList(p, SetNext(nodes, prev, Some(node)), v.InsertAfter(prev, node))
  {
    var nodes', v' := SetNext(nodes, prev, Some(node)), v.InsertAfter(prev, node);
    forall n: nat | v'.Has(n) ensures Linked(nodes', v', n) {
      InsertLinked(p, nodes, v, op, node, prev, curr, n);
    }
    forall a: nat, b: nat | v'.Has(a) && v'.Has(b) && a < |nodes'| && b < |nodes'| ensures Ordered(nodes', v', a, b) {
      InsertOrdered(p, nodes, v, op, node, prev, curr, a, b);
    }
  }

  /** A search in progress stays valid: the new node has landed behind it, or has another key. */
  lemma SearchSurvivesInsert(p: Params, nodes: seq<HashNode>, v: View, op: Op, node: nat, prev: nat, curr: Option<nat>,
                             op': Op, a: nat, c: Option<nat>)
    requires Linkable(p, nodes, v, op, node, prev, curr)
    requires Reached(p, nodes, v, op', a) && Ahead(p, nodes, v, op', a, c)
    ensures var nodes', v' := SetNext(nodes, prev, Some(node)), v.InsertAfter(prev, node);
            && Reached(p, nodes', v', op', a) && Ahead(p, nodes', v', op', a, c)
            && (Stopped(p, nodes, op', c) ==> Stopped(p, nodes', op', c))
  {
    var nodes', v' := SetNext(nodes, prev, Some(node)), v.InsertAfter(prev, node);
    if op.key == op'.key {
      if v.pos[a] > v.pos[prev] {
        BehindIsLarger(p, nodes, v, op, node, prev, curr, a);
      }
      if c.Some? && nodes[c.value].hash <= p.hashOf(op.key) && v.pos[c.value] > v.pos[prev] {
        BehindIsLarger(p, nodes, v, op, node, prev, curr, c.value);
      }
    }
    forall n: nat | v'.Has(n) && n != 0 && n < |nodes'| && nodes'[n].key == op'.key
      ensures v'.pos[a] < v'.pos[n]
      ensures c.Some? && nodes'[c.value].hash <= p.hashOf(op'.key) ==> v'.pos[c.value] <= v'.pos[n]
    {
      if n != node {
        assert v.Has(n) && nodes[n].key == op'.key;
      }
    }
  }

  lemma LocalsSurviveInsert(p: Params, nodes: seq<HashNode>, v: View, op: Op, node: nat, prev: nat, curr: Option<nat>, pc: Pc)
    requires Linkable(p, nodes, v, op, node, prev, curr) && LocalsOk(p, nodes, v, pc)
    ensures LocalsOk(p, SetNext(nodes, prev, Some(node)), v.InsertAfter(prev, node), pc)
  {
    match pc
    case FindAt(op', a, c) => SearchSurvivesInsert(p, nodes, v, op, node, prev, curr, op', a, c);
    case PutReloadHead(op', _, c) => SearchSurvivesInsert(p, nodes, v, op, node, prev, curr, op', 0, c);
    case PutLink(op', _, a, c) => SearchSurvivesInsert(p, nodes, v, op, node, prev, curr, op', a, c);
    case _ =>
  }

  /** A private node stays private; if `prev` was its intended place, its own link is now doomed. */
  lemma PrivateSurvivesInsert(p: Params, nodes: seq<HashNode>, v: View, op: Op, node: nat, prev: nat, curr: Option<nat>, pc: Pc)
    requires Linkable(p, nodes, v, op, node, prev, curr)
    requires PrivateOk(p, nodes, v, pc) && LocalsOk(p, nodes, v, pc) && Private(pc) != Some(node)
    ensures PrivateOk(p, SetNext(nodes, prev, Some(node)), v.InsertAfter(prev, node), pc)
  {
    if pc.PutLink? && pc.curr.Some? {
      assert v.Has(pc.curr.value);
    }
  }

  ghost function NextView(s: State, v: View, t: nat): View
    requires t < |s.threads|
  {
    if LinksNode(s, t) && v.Has(s.threads[t].prev) then v.InsertAfter(s.threads[t].prev, s.threads[t].node) else v
  }

  lemma LinkStepShape(p: Params, s: State, t: nat, op: Op)
    requires t < |s.threads| && LinksNode(s, t)
    ensures var pc := s.threads[t];
            Step(p, s, t, op) == Goto(s.(nodes := SetNext(s.nodes, pc.prev, Some(pc.node))), t, PutAddCount(pc.op, Some(pc.node)))
  {
  }

  lemma LinkKeepsStructure(p: Params, s: State, v: View, t: nat, op: Op)
    requires t < |s.threads| && Structure(p, s, v) && LinksNode(s, t)
    ensures Structure(p, Step(p, s, t, op), NextView(s, v, t))
    ensures Linkable(p, s.nodes, v, s.threads[t].op, s.threads[t].node, s.threads[t].prev, s.threads[t].curr)
  {
    hide Step, SortedList;
    LinkStepShape(p, s, t, op);
    var pc, s' := s.threads[t], Step(p, s, t, op);
    var v' := NextView(s, v, t);
    assert LocalsOk(p, s.nodes, v, pc) && PrivateOk(p, s.nodes, v, pc);
    assert Linkable(p, s.nodes, v, pc.op, pc.node, pc.prev, pc.curr);
    InsertKeepsList(p, s.nodes, v, pc.op, pc.node, pc.prev, pc.curr);
    assert Found(s'.nodes, v', pc.op, pc.node);
    forall u | 0 <= u < |s.threads|
      ensures PrivateOk(p, s'.nodes, v', s'.threads[u]) && LocalsOk(p, s'.nodes, v', s'.threads[u])
    {
      if u != t {
        assert LocalsOk(p, s.nodes, v, s.threads[u]) && PrivateOk(p, s.nodes, v, s.threads[u]);
        LocalsSurviveInsert(p, s.nodes, v, pc.op, pc.node, pc.prev, pc.curr, s.threads[u]);
        PrivateSurvivesInsert(p, s.nodes, v, pc.op, pc.node, pc.prev, pc.curr, s.threads[u]);
      }
    }
  }

  lemma StepKeepsStructure(p: Params, s: State, v: View, t: nat, op: Op)
    requires t < |s.threads| && Structure(p, s, v)
    ensures Structure(p, Step(p, s, t, op), NextView(s, v, t))
  {
    var pc := s.threads[t];
    if LinksNode(s, t) {
      LinkKeepsStructure(p, s, v, t, op);
    } else {
      if pc.FindStart? || pc.FindAt? {
        FindStepUnlinked(p, s, v, t, op);
      } else if pc.PutLoadDeleted? || pc.PutRevive? || pc.PutReviveStore? || pc.PutUpdate? || pc.PutReloadHead?
                || pc.PutLink? || pc.PutAddCount? {
        PutStepUnlinked(p, s, v, t, op);
      } else {
        OtherStepUnlinked(p, s, v, t, op);
      }
      UnlinkedKeepsStructure(p, s, v, t, Step(p, s, t, op));
    }
  }
}
