/**
 One message gossiped over a finite network by RelayIfNew (pkg/node/broadcast.go): every node keeps
 a seen cache that is not swept, and every message sent is delivered, in any order.
 */
module Gossip {
  import opened Gossiping

  /** Node `v` is connected to `neighbours[v]` and configured with `fanouts[v]`, which is at most `maxFanout`. */
  datatype Network = Network(neighbours: seq<seq<PeerId>>, fanouts: seq<nat>, maxFanout: nat)

  ghost predicate NetworkOk(net: Network) {
    && |net.fanouts| == |net.neighbours|
    && (forall v :: 0 <= v < |net.fanouts| ==> net.fanouts[v] <= net.maxFanout)
    && forall v, i :: 0 <= v < |net.neighbours| && 0 <= i < |net.neighbours[v]| ==> net.neighbours[v][i] < |net.neighbours|
  }

  datatype Parcel = Parcel(from: PeerId, to: PeerId)

  datatype State = State(seen: set<PeerId>, inFlight: seq<Parcel>, sent: nat)

  ghost function Parcels(from: PeerId, targets: seq<PeerId>): (r: seq<Parcel>)
    ensures |r| == |targets| && forall i :: 0 <= i < |r| ==> r[i] == Parcel(from, targets[i])
  {
    seq(|targets|, i requires 0 <= i < |targets| => Parcel(from, targets[i]))
  }

  /** The origin gossips the message with no one excluded. */
  ghost predicate Starts(net: Network, origin: PeerId, targets: seq<PeerId>, s: State) {
    && origin < |net.neighbours| == |net.fanouts|
    && Selected(targets, Without(net.neighbours[origin], {}), net.fanouts[origin])
    && s == State({origin}, Parcels(origin, targets), |targets|)
  }

  /** Delivery of parcel `i`: a node that has seen the message ignores it, any other relays it to `targets`. */
  ghost predicate Delivers(net: Network, s: State, i: nat, targets: seq<PeerId>, s': State)
    requires i < |s.inFlight|
  {
    var p := s.inFlight[i];
    var rest := s.inFlight[..i] + s.inFlight[i + 1..];
    && p.to < |net.neighbours| == |net.fanouts|
    && if p.to in s.seen then targets == [] && s' == s.(inFlight := rest)
       else
         && Selected(targets, Without(net.neighbours[p.to], {p.from}), net.fanouts[p.to])
         && s' == State(s.seen + {p.to}, rest + Parcels(p.to, targets), s.sent + |targets|)
  }

  /** A run: the states after each delivery, and what was delivered where. */
  datatype Delivery = Delivery(index: nat, targets: seq<PeerId>)

  ghost predicate IsRun(net: Network, origin: PeerId, first: seq<PeerId>, run: seq<State>, deliveries: seq<Delivery>) {
    && NetworkOk(net) && |run| == |deliveries| + 1 && Starts(net, origin, first, run[0])
    && forall k :: 0 <= k < |deliveries| ==> StepAt(net, run, deliveries, k)
  }

  ghost predicate StepAt(net: Network, run: seq<State>, deliveries: seq<Delivery>, k: nat)
    requires |run| == |deliveries| + 1 && k < |deliveries|
  {
    && deliveries[k].index < |run[k].inFlight|
    && Delivers(net, run[k], deliveries[k].index, deliveries[k].targets, run[k + 1])
  }

  // ---------------------------------------------------------------------------------------
  // What every state satisfies.

  ghost function Below(n: nat): (r: set<nat>)
    ensures |r| == n && forall v: int :: v in r <==> 0 <= v < n
  {
    if n == 0 then {} else Below(n - 1) + {n - 1}
  }

  ghost function Nodes(net: Network): set<PeerId> {
    Below(|net.neighbours|)
  }

  /** Parcels run between nodes and come from nodes that have seen the message; sends are bounded by them. */
  ghost predicate Inv(net: Network, s: State) {
    && s.seen <= Nodes(net)
    && (forall i :: 0 <= i < |s.inFlight| ==> s.inFlight[i].from in s.seen && s.inFlight[i].to in Nodes(net))
    && s.sent <= |s.seen| * net.maxFanout
  }

  lemma TargetsAreNodes(net: Network, v: PeerId, excluded: set<PeerId>, targets: seq<PeerId>)
    requires NetworkOk(net) && v < |net.neighbours|
    requires Selected(targets, Without(net.neighbours[v], excluded), net.fanouts[v])
    ensures |targets| <= net.maxFanout && forall i :: 0 <= i < |targets| ==> targets[i] in Nodes(net)
  {
    SelectedAreCandidates(targets, net.neighbours[v], excluded, net.fanouts[v]);
    forall i | 0 <= i < |targets| ensures targets[i] in Nodes(net) {
      assert targets[i] in net.neighbours[v];
    }
  }

  lemma StartsOk(net: Network, origin: PeerId, targets: seq<PeerId>, s: State)
    requires NetworkOk(net) && Starts(net, origin, targets, s)
    ensures Inv(net, s)
  {
    TargetsAreNodes(net, origin, {}, targets);
  }

  lemma DeliveryKeepsInv(net: Network, s: State, i: nat, targets: seq<PeerId>, s': State)
    requires NetworkOk(net) && Inv(net, s) && i < |s.inFlight| && Delivers(net, s, i, targets, s')
    ensures Inv(net, s')
  {
    hide Selected, Nodes;
    var p := s.inFlight[i];
    if p.to !in s.seen {
      TargetsAreNodes(net, p.to, {p.from}, targets);
      assert |s'.seen| == |s.seen| + 1;
      assert (|s.seen| + 1) * net.maxFanout == |s.seen| * net.maxFanout + net.maxFanout;
    }
  }

  lemma {:induction false} Reachable(net: Network, origin: PeerId, first: seq<PeerId>, run: seq<State>,
                                     deliveries: seq<Delivery>, k: nat)
    requires IsRun(net, origin, first, run, deliveries) && k < |run|
    ensures Inv(net, run[k])
  {
    if k == 0 {
      StartsOk(net, origin, first, run[0]);
    } else {
      Reachable(net, origin, first, run, deliveries, k - 1);
      assert StepAt(net, run, deliveries, k - 1);
      DeliveryKeepsInv(net, run[k - 1], deliveries[k - 1].index, deliveries[k - 1].targets, run[k]);
    }
  }

  lemma SeenBounded(net: Network, s: State)
    requires Inv(net, s)
    ensures |s.seen| <= |net.neighbours|
  {
    assert Nodes(net) == s.seen + (Nodes(net) - s.seen);
  }

  /** Whatever happens, at most nodes times the largest fanout messages are sent. */
  lemma SendsBounded(net: Network, origin: PeerId, first: seq<PeerId>, run: seq<State>, deliveries: seq<Delivery>, k: nat)
    requires IsRun(net, origin, first, run, deliveries) && k < |run|
    ensures run[k].sent <= |net.neighbours| * net.maxFanout
  {
    Reachable(net, origin, first, run, deliveries, k);
    SeenBounded(net, run[k]);
    MultiplyMonotone(|run[k].seen|, |net.neighbours|, net.maxFanout);
  }

  lemma MultiplyMonotone(a: nat, b: nat, c: nat)
    requires a <= b
    ensures a * c <= b * c
  {
  }

  lemma {:induction false} DeliveredAndFlying(net: Network, origin: PeerId, first: seq<PeerId>, run: seq<State>,
                                              deliveries: seq<Delivery>, k: nat)
    requires IsRun(net, origin, first, run, deliveries) && k < |run|
    ensures k + |run[k].inFlight| == run[k].sent
  {
    if k > 0 {
      DeliveredAndFlying(net, origin, first, run, deliveries, k - 1);
      assert StepAt(net, run, deliveries, k - 1);
    }
  }

  /** Propagation terminates: no run makes more than nodes times the largest fanout deliveries. */
  lemma Terminates(net: Network, origin: PeerId, first: seq<PeerId>, run: seq<State>, deliveries: seq<Delivery>)
    requires IsRun(net, origin, first, run, deliveries)
    ensures |deliveries| <= |net.neighbours| * net.maxFanout
  {
    DeliveredAndFlying(net, origin, first, run, deliveries, |deliveries|);
    SendsBounded(net, origin, first, run, deliveries, |deliveries|);
  }

  /**
   What each node sends: the origin, and every node at which a delivery finds the message new, as many
   copies as its fanout or as it has other neighbours, all to neighbours and none to the sender; a node
   that has seen it, none.
   */
  lemma EachSends(net: Network, origin: PeerId, first: seq<PeerId>, run: seq<State>, deliveries: seq<Delivery>, k: nat)
    requires IsRun(net, origin, first, run, deliveries) && k < |deliveries|
    ensures origin < |net.neighbours| == |net.fanouts|
    ensures var c := |net.neighbours[origin]|;
            run[0].sent == |run[0].inFlight| == if c <= net.fanouts[origin] then c else net.fanouts[origin]
    ensures deliveries[k].index < |run[k].inFlight|
    ensures var p, more := run[k].inFlight[deliveries[k].index], run[k + 1].sent - run[k].sent;
            && p.to < |net.neighbours| && p.to in run[k + 1].seen
            && |run[k + 1].inFlight| == |run[k].inFlight| - 1 + more
            && (p.to in run[k].seen ==> more == 0)
            && (p.to !in run[k].seen ==>
                  var c := |set i | 0 <= i < |net.neighbours[p.to]| && net.neighbours[p.to][i] != p.from|;
                  more == if c <= net.fanouts[p.to] then c else net.fanouts[p.to])
            && forall q: Parcel :: q in run[k + 1].inFlight && q !in run[k].inFlight ==>
                 q.from == p.to && q.to in net.neighbours[p.to] && q.to != p.from
  {
    hide Selected, Without;
    SelectedOf(first, net.neighbours[origin], net.fanouts[origin]);
    assert StepAt(net, run, deliveries, k);
    var p := run[k].inFlight[deliveries[k].index];
    if p.to !in run[k].seen {
      SelectedWithout(deliveries[k].targets, net.neighbours[p.to], p.from, net.fanouts[p.to]);
    }
  }

  lemma SelectedOf(targets: seq<PeerId>, peers: seq<PeerId>, fanout: nat)
    requires Selected(targets, Without(peers, {}), fanout)
    ensures |targets| == (if |peers| <= fanout then |peers| else fanout) && forall p :: p in targets ==> p in peers
  {
    hide Selected, Without;
    var nobody: set<PeerId> := {};
    SelectedAreCandidates(targets, peers, nobody, fanout);
    assert (set i | 0 <= i < |peers| && peers[i] !in nobody) == Below(|peers|);
  }

  lemma SelectedWithout(targets: seq<PeerId>, peers: seq<PeerId>, sender: PeerId, fanout: nat)
    requires Selected(targets, Without(peers, {sender}), fanout)
    ensures var c := |set i | 0 <= i < |peers| && peers[i] != sender|;
            |targets| == if c <= fanout then c else fanout
    ensures forall p :: p in targets ==> p in peers && p != sender
  {
    hide Selected, Without;
    var excluded := {sender};
    SelectedAreCandidates(targets, peers, excluded, fanout);
    assert (set i | 0 <= i < |peers| && peers[i] !in excluded) == (set i | 0 <= i < |peers| && peers[i] != sender);
  }

  /** At delivery `k` the node treats the message as new. */
  ghost predicate NewAt(run: seq<State>, deliveries: seq<Delivery>, k: nat, v: PeerId)
    requires |run| == |deliveries| + 1 && k < |deliveries|
  {
    v !in run[k].seen && v in run[k + 1].seen
  }

  lemma {:induction false} SeenStays(net: Network, origin: PeerId, first: seq<PeerId>, run: seq<State>,
                                     deliveries: seq<Delivery>, j: nat, k: nat)
    requires IsRun(net, origin, first, run, deliveries) && j <= k < |run|
    ensures run[j].seen <= run[k].seen
  {
    if j < k {
      SeenStays(net, origin, first, run, deliveries, j, k - 1);
      assert StepAt(net, run, deliveries, k - 1);
    }
  }

  /** Each node treats the message as new at most once, and the origin never again. */
  lemma NewAtMostOnce(net: Network, origin: PeerId, first: seq<PeerId>, run: seq<State>, deliveries: seq<Delivery>,
                      j: nat, k: nat, v: PeerId)
    requires IsRun(net, origin, first, run, deliveries) && j < |deliveries| && k < |deliveries|
    requires NewAt(run, deliveries, j, v) && NewAt(run, deliveries, k, v)
    ensures j == k && v != origin
  {
    SeenStays(net, origin, first, run, deliveries, 0, j);
    if j < k {
      SeenStays(net, origin, first, run, deliveries, j + 1, k);
    } else if k < j {
      SeenStays(net, origin, first, run, deliveries, k + 1, j);
    }
  }

  // ---------------------------------------------------------------------------------------
  // Coverage when no node has more neighbours than its fanout.

  ghost predicate FanoutCovers(net: Network) {
    |net.fanouts| == |net.neighbours| && forall v :: 0 <= v < |net.neighbours| ==> |net.neighbours[v]| <= net.fanouts[v]
  }

  ghost predicate Edge(net: Network, v: PeerId, w: PeerId) {
    v < |net.neighbours| && w in net.neighbours[v]
  }

  /** A neighbour of a node that has seen the message has seen it too, or a parcel is under way to it. */
  ghost predicate Covered(s: State, v: PeerId, w: PeerId) {
    w in s.seen || Parcel(v, w) in s.inFlight
  }

  ghost predicate AllCovered(net: Network, s: State) {
    forall v, w {:trigger Covered(s, v, w)} :: v in s.seen && Edge(net, v, w) ==> Covered(s, v, w)
  }

  lemma StartCovers(net: Network, origin: PeerId, targets: seq<PeerId>, s: State)
    requires NetworkOk(net) && FanoutCovers(net) && Starts(net, origin, targets, s)
    ensures AllCovered(net, s)
  {
    forall v, w | v in s.seen && Edge(net, v, w) ensures Covered(s, v, w) {
      SentTo(net, origin, {}, targets, w);
    }
  }

  lemma SentTo(net: Network, v: PeerId, excluded: set<PeerId>, targets: seq<PeerId>, w: PeerId)
    requires FanoutCovers(net) && Edge(net, v, w) && w !in excluded
    requires Selected(targets, Without(net.neighbours[v], excluded), net.fanouts[v])
    ensures Parcel(v, w) in Parcels(v, targets)
  {
    assert w in targets;
    var i :| 0 <= i < |targets| && targets[i] == w;
    assert Parcels(v, targets)[i] == Parcel(v, w);
  }

  lemma DeliveryKeepsCovered(net: Network, s: State, i: nat, targets: seq<PeerId>, s': State)
    requires NetworkOk(net) && FanoutCovers(net) && Inv(net, s) && AllCovered(net, s)
    requires i < |s.inFlight| && Delivers(net, s, i, targets, s')
    ensures AllCovered(net, s')
  {
    var p := s.inFlight[i];
    forall v, w | v in s'.seen && Edge(net, v, w) ensures Covered(s', v, w) {
      if v in s.seen {
        assert Covered(s, v, w);
        if w !in s'.seen {
          var k :| 0 <= k < |s.inFlight| && s.inFlight[k] == Parcel(v, w);
          var rest := s.inFlight[..i] + s.inFlight[i + 1..];
          assert k != i;
          assert rest[if k < i then k else k - 1] == Parcel(v, w);
        }
      } else if w != p.from {
        SentTo(net, p.to, {p.from}, targets, w);
      }
    }
  }

  lemma {:induction false} ReachableCovered(net: Network, origin: PeerId, first: seq<PeerId>, run: seq<State>,
                                            deliveries: seq<Delivery>, k: nat)
    requires IsRun(net, origin, first, run, deliveries) && FanoutCovers(net) && k < |run|
    ensures AllCovered(net, run[k])
  {
    if k == 0 {
      StartCovers(net, origin, first, run[0]);
    } else {
      ReachableCovered(net, origin, first, run, deliveries, k - 1);
      Reachable(net, origin, first, run, deliveries, k - 1);
      assert StepAt(net, run, deliveries, k - 1);
      DeliveryKeepsCovered(net, run[k - 1], deliveries[k - 1].index, deliveries[k - 1].targets, run[k]);
    }
  }

  ghost predicate Path(net: Network, path: seq<PeerId>) {
    |path| > 0 && forall i :: 0 <= i < |path| - 1 ==> Edge(net, path[i], path[i + 1])
  }

  lemma {:induction false} PathSeen(net: Network, s: State, path: seq<PeerId>, k: nat)
    requires AllCovered(net, s) && s.inFlight == [] && Path(net, path) && path[0] in s.seen && k < |path|
    ensures path[k] in s.seen
  {
    if k > 0 {
      PathSeen(net, s, path, k - 1);
      assert Edge(net, path[k - 1], path[k]);
      assert Covered(s, path[k - 1], path[k]);
    }
  }

  /**
   When every fanout is at least the node's degree and nothing is under way any more, every node
   that a path connects to the origin has seen the message.
   */
  lemma FullCoverage(net: Network, origin: PeerId, first: seq<PeerId>, run: seq<State>, deliveries: seq<Delivery>,
                     path: seq<PeerId>)
    requires IsRun(net, origin, first, run, deliveries) && FanoutCovers(net)
    requires run[|deliveries|].inFlight == []
    requires Path(net, path) && path[0] == origin
    ensures path[|path| - 1] in run[|deliveries|].seen
  {
    SeenStays(net, origin, first, run, deliveries, 0, |deliveries|);
    ReachableCovered(net, origin, first, run, deliveries, |deliveries|);
    PathSeen(net, run[|deliveries|], path, |path| - 1);
  }
}
