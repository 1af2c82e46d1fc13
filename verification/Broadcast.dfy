/**
 The broadcast manager of pkg/node/broadcast.go, one call at a time.  Peers are identities, the
 peer table is a parameter, and whether a write to a peer succeeds is decided by the parameter
 `reaches`; the list of peers written to is kept for the contracts.
 */
module Gossiping {
  import opened Common

  type PeerId = nat

  /**
   What target selection may return: all candidates when they fit the fanout, otherwise some of
   them, exactly as many as the fanout.
   */
  ghost predicate Selected(targets: seq<PeerId>, candidates: seq<PeerId>, fanout: nat) {
    if |candidates| <= fanout then targets == candidates
    else |targets| == fanout && multiset(targets) <= multiset(candidates)
  }

  function Without(peers: seq<PeerId>, excluded: set<PeerId>): (r: seq<PeerId>)
    ensures forall p :: p in r <==> p in peers && p !in excluded
    ensures |r| <= |peers|
    decreases |peers|
  {
    if peers == [] then []
    else
      var n := |peers| - 1;
      Without(peers[..n], excluded) + (if peers[n] in excluded then [] else [peers[n]])
  }

  ghost function Kept(excluded: set<PeerId>): PeerId -> bool {
    (p: PeerId) => p !in excluded
  }

  lemma {:induction false} WithoutCount(peers: seq<PeerId>, excluded: set<PeerId>)
    ensures |Without(peers, excluded)| == Count(peers, Kept(excluded))
    ensures multiset(Without(peers, excluded)) <= multiset(peers)
    decreases |peers|
  {
    if peers != [] {
      var n := |peers| - 1;
      WithoutCount(peers[..n], excluded);
      assert peers == peers[..n] + [peers[n]];
    }
  }

  lemma WithoutSize(peers: seq<PeerId>, excluded: set<PeerId>)
    ensures |Without(peers, excluded)| == |set i | 0 <= i < |peers| && peers[i] !in excluded|
  {
    hide Without, Count;
    WithoutCount(peers, excluded);
    CountIsSize(peers, Kept(excluded));
    assert Indices(peers, Kept(excluded)) == set i | 0 <= i < |peers| && peers[i] !in excluded;
  }

  /** As many targets as the fanout, or as there are; none excluded, none more often than it is connected. */
  lemma SelectedAreCandidates(targets: seq<PeerId>, peers: seq<PeerId>, excluded: set<PeerId>, fanout: nat)
    requires Selected(targets, Without(peers, excluded), fanout)
    ensures var c := |set i | 0 <= i < |peers| && peers[i] !in excluded|;
            |targets| == if c <= fanout then c else fanout
    ensures multiset(targets) <= multiset(peers) && forall p :: p in targets ==> p in peers && p !in excluded
  {
    WithoutSize(peers, excluded);
    WithoutCount(peers, excluded);
    forall p | p in targets ensures p in Without(peers, excluded) {
      assert p in multiset(targets);
    }
  }
}

module BroadcastManagers {
  import opened Common
  import opened Gossiping

  type Hash = nat
  type Time = int

  datatype BroadcastConfig = BroadcastConfig(messageTTL: Time, gossipFanout: nat)

  function Successes(targets: seq<PeerId>, reaches: PeerId -> bool): (n: nat)
    ensures n <= |targets|
    decreases |targets|
  {
    if targets == [] then 0
    else Successes(targets[..|targets| - 1], reaches) + if reaches(targets[|targets| - 1]) then 1 else 0
  }

  /** The connected ones among the peers, in order. */
  ghost function Connected(peers: seq<PeerId>, connected: PeerId -> bool): seq<PeerId>
    decreases |peers|
  {
    if peers == [] then []
    else
      var n := |peers| - 1;
      Connected(peers[..n], connected) + (if connected(peers[n]) then [peers[n]] else [])
  }

  lemma OneMore(s: seq<PeerId>, p: PeerId, reaches: PeerId -> bool)
    ensures Successes(s + [p], reaches) == Successes(s, reaches) + if reaches(p) then 1 else 0
  {
    assert (s + [p])[..|s|] == s;
  }

  lemma OnePeerMore(peers: seq<PeerId>, i: nat, excluded: set<PeerId>)
    requires i < |peers|
    ensures Without(peers[..i + 1], excluded) ==
            Without(peers[..i], excluded) + (if peers[i] in excluded then [] else [peers[i]])
  {
    assert peers[..i + 1][..i] == peers[..i];
  }

  lemma OneReceiverMore(peers: seq<PeerId>, i: nat, excluded: set<PeerId>, connected: PeerId -> bool)
    requires i < |peers|
    ensures Connected(Without(peers[..i + 1], excluded), connected) ==
            Connected(Without(peers[..i], excluded), connected)
            + (if peers[i] in excluded || !connected(peers[i]) then [] else [peers[i]])
  {
    hide Without;
    OnePeerMore(peers, i, excluded);
    var w := Without(peers[..i], excluded);
    if peers[i] in excluded {
      assert w + [] == w;
    } else {
      assert (w + [peers[i]])[..|w|] == w;
    }
  }

  lemma {:induction false} SuccessesCount(targets: seq<PeerId>, reaches: PeerId -> bool)
    ensures Successes(targets, reaches) == Count(targets, reaches)
    decreases |targets|
  {
    if targets != [] {
      SuccessesCount(targets[..|targets| - 1], reaches);
    }
  }

  /** The count of successes is the number of targets reached. */
  lemma SuccessesSize(targets: seq<PeerId>, reaches: PeerId -> bool)
    ensures Successes(targets, reaches) == |set i | 0 <= i < |targets| && reaches(targets[i])|
  {
    hide Successes, Count;
    SuccessesCount(targets, reaches);
    CountIsSize(targets, reaches);
    assert Indices(targets, reaches) == set i | 0 <= i < |targets| && reaches(targets[i]);
  }

  ghost function Receives(excluded: set<PeerId>, connected: PeerId -> bool): PeerId -> bool {
    (p: PeerId) => p !in excluded && connected(p)
  }

  lemma {:induction false} ReceiversCount(peers: seq<PeerId>, excluded: set<PeerId>, connected: PeerId -> bool)
    ensures var r := Connected(Without(peers, excluded), connected);
            && |r| == Count(peers, Receives(excluded, connected))
            && forall p :: p in r <==> p in peers && p !in excluded && connected(p)
    decreases |peers|
  {
    hide Connected, Without;
    if peers == [] {
      NoReceivers(excluded, connected);
    } else {
      var n := |peers| - 1;
      ReceiversCount(peers[..n], excluded, connected);
      OneReceiverMore(peers, n, excluded, connected);
      assert peers[..n + 1] == peers == peers[..n] + [peers[n]];
    }
  }

  /** Exactly the connected peers that are not excluded, each as often as it is listed. */
  lemma ReceiversAre(peers: seq<PeerId>, excluded: set<PeerId>, connected: PeerId -> bool)
    ensures var r := Connected(Without(peers, excluded), connected);
            && |r| == |set i | 0 <= i < |peers| && peers[i] !in excluded && connected(peers[i])|
            && forall p :: p in r <==> p in peers && p !in excluded && connected(p)
  {
    hide Connected, Without, Count;
    ReceiversCount(peers, excluded, connected);
    CountIsSize(peers, Receives(excluded, connected));
    assert Indices(peers, Receives(excluded, connected))
        == set i | 0 <= i < |peers| && peers[i] !in excluded && connected(peers[i]);
  }

  lemma NoReceivers(excluded: set<PeerId>, connected: PeerId -> bool)
    ensures Connected(Without([], excluded), connected) == []
  {
  }

  class BroadcastManager {
    const config: BroadcastConfig
    var seen: map<Hash, Time>
    var count: int

    ghost predicate Valid()
      reads this
    {
      count == |seen|
    }

    constructor (config: BroadcastConfig)
      ensures Valid() && seen == map[] && this.config == config
    {
      this.config := config;
      seen, count := map[], 0;
    }

    /** True exactly for a hash without an entry; an entry keeps its first timestamp. */
    method MarkSeen(hash: Hash, now: Time) returns (isNew: bool)
      requires Valid()
      modifies this
      ensures Valid() && isNew == (hash !in old(seen))
      ensures seen == if isNew then old(seen)[hash := now] else old(seen)
    {
      if hash in seen {
        return false;
      }
      seen := seen[hash := now];
      assert seen.Keys == old(seen).Keys + {hash};
      assert |seen| == |seen.Keys| && |old(seen)| == |old(seen).Keys|;
      count := count + 1;
      return true;
    }

    /** Forgets exactly the entries older than the lifetime. */
    method Cleanup(now: Time)
      requires Valid()
      modifies this
      ensures Valid() && seen == map h | h in old(seen) && now - old(seen)[h] <= config.messageTTL :: old(seen)[h]
    {
      var deleted := 0;
      var rest := seen.Keys;
      while rest != {}
        invariant rest <= old(seen).Keys && deleted == |old(seen)| - |seen| && count == old(count)
        invariant seen == map h | h in old(seen) && (h in rest || now - old(seen)[h] <= config.messageTTL) :: old(seen)[h]
        decreases |rest|
      {
        var hash :| hash in rest;
        rest := rest - {hash};
        if now - seen[hash] > config.messageTTL {
          ghost var before := seen;
          seen := seen - {hash};
          assert seen.Keys == before.Keys - {hash};
          assert |seen| == |seen.Keys| && |before| == |before.Keys|;
          deleted := deleted + 1;
        }
      }
      if deleted > 0 {
        count := count - deleted;
      }
    }

    /** Filters the connected peers, and shuffles and cuts them when they exceed the fanout. */
    method SelectGossipTargets(peers: seq<PeerId>, excluded: set<PeerId>) returns (targets: seq<PeerId>)
      ensures Selected(targets, Without(peers, excluded), config.gossipFanout)
      ensures var c := |set i | 0 <= i < |peers| && peers[i] !in excluded|;
              |targets| == if c <= config.gossipFanout then c else config.gossipFanout
      ensures multiset(targets) <= multiset(peers) && forall p :: p in targets ==> p !in excluded
    {
      var candidates: seq<PeerId> := [];
      for i := 0 to |peers|
        invariant candidates == Without(peers[..i], excluded)
      {
        OnePeerMore(peers, i, excluded);
        if peers[i] !in excluded {
          candidates := candidates + [peers[i]];
        }
      }
      assert peers[..|peers|] == peers;
      if |candidates| <= config.gossipFanout {
        targets := candidates;
      } else {
        var shuffled := Shuffle(candidates);
        targets := shuffled[..config.gossipFanout];
        assert shuffled == targets + shuffled[config.gossipFanout..];
      }
      SelectedAreCandidates(targets, peers, excluded, config.gossipFanout);
    }

    /** Any permutation: each position is swapped with a random one not behind it. */
    method Shuffle(s: seq<PeerId>) returns (r: seq<PeerId>)
      ensures |r| == |s| && multiset(r) == multiset(s)
    {
      r := s;
      var i := |r| - 1;
      while i > 0
        invariant i < |r| == |s| && multiset(r) == multiset(s)
      {
        var j :| 0 <= j <= i;
        r := r[i := r[j]][j := r[i]];
        i := i - 1;
      }
    }

    /** Writes to every target in turn and counts the writes that succeed. */
    method SendAll(targets: seq<PeerId>, reaches: PeerId -> bool) returns (sent: nat)
      ensures sent == |set i | 0 <= i < |targets| && reaches(targets[i])|
    {
      sent := 0;
      for i := 0 to |targets|
        invariant sent == Successes(targets[..i], reaches)
      {
        assert targets[..i + 1][..i] == targets[..i];
        if reaches(targets[i]) {
          sent := sent + 1;
        }
      }
      assert targets[..|targets|] == targets;
      SuccessesSize(targets, reaches);
    }

    /** Gossips a message that is new here; of a known one nothing is sent. */
    method GossipBroadcast(hash: Hash, now: Time, peers: seq<PeerId>, excluded: set<PeerId>, reaches: PeerId -> bool)
      returns (sent: nat, ghost targets: seq<PeerId>)
      requires Valid()
      modifies this
      ensures Valid() && seen == if hash in old(seen) then old(seen) else old(seen)[hash := now]
      ensures hash in old(seen) ==> sent == 0 && targets == []
      ensures hash !in old(seen) ==>
                var c := |set i | 0 <= i < |peers| && peers[i] !in excluded|;
                |targets| == if c <= config.gossipFanout then c else config.gossipFanout
      ensures multiset(targets) <= multiset(peers) && forall p :: p in targets ==> p !in excluded
      ensures sent == |set i | 0 <= i < |targets| && reaches(targets[i])|
    {
      var isNew := MarkSeen(hash, now);
      if !isNew {
        return 0, [];
      }
      var selected := SelectGossipTargets(peers, excluded);
      targets := selected;
      sent := SendAll(selected, reaches);
    }

    /** Passes a message on exactly when it is new here, and never back to its sender. */
    method RelayIfNew(hash: Hash, now: Time, from: PeerId, peers: seq<PeerId>, reaches: PeerId -> bool)
      returns (sent: nat, isNew: bool, ghost targets: seq<PeerId>)
      requires Valid()
      modifies this
      ensures Valid() && seen == if hash in old(seen) then old(seen) else old(seen)[hash := now]
      ensures isNew == (hash !in old(seen))
      ensures !isNew ==> targets == []
      ensures isNew ==>
                var c := |set i | 0 <= i < |peers| && peers[i] != from|;
                |targets| == if c <= config.gossipFanout then c else config.gossipFanout
      ensures multiset(targets) <= multiset(peers) && from !in targets
      ensures sent == |set i | 0 <= i < |targets| && reaches(targets[i])|
    {
      isNew := MarkSeen(hash, now);
      if !isNew {
        return 0, false, [];
      }
      var excluded := {from};
      var selected := SelectGossipTargets(peers, excluded);
      assert (set i | 0 <= i < |peers| && peers[i] !in excluded) == (set i | 0 <= i < |peers| && peers[i] != from);
      targets := selected;
      sent := SendAll(selected, reaches);
    }

    /** Floods a message that is new here to every connected peer that is not excluded. */
    method Broadcast(hash: Hash, now: Time, peers: seq<PeerId>, connected: PeerId -> bool, excluded: set<PeerId>,
                     reaches: PeerId -> bool)
      returns (sent: nat, ghost targets: seq<PeerId>)
      requires Valid()
      modifies this
      ensures Valid() && seen == if hash in old(seen) then old(seen) else old(seen)[hash := now]
      ensures targets == if hash in old(seen) then [] else Connected(Without(peers, excluded), connected)
      ensures hash !in old(seen) ==>
                && |targets| == |set i | 0 <= i < |peers| && peers[i] !in excluded && connected(peers[i])|
                && forall p :: p in targets <==> p in peers && p !in excluded && connected(p)
      ensures sent == |set i | 0 <= i < |targets| && reaches(targets[i])|
    {
      var isNew := MarkSeen(hash, now);
      if !isNew {
        return 0, [];
      }
      sent, targets := Flood(peers, connected, excluded, reaches);
      ReceiversAre(peers, excluded, connected);
      SuccessesSize(targets, reaches);
    }

    method Flood(peers: seq<PeerId>, connected: PeerId -> bool, excluded: set<PeerId>, reaches: PeerId -> bool)
      returns (sent: nat, ghost targets: seq<PeerId>)
      ensures targets == Connected(Without(peers, excluded), connected) && sent == Successes(targets, reaches)
    {
      sent, targets := 0, [];
      for i := 0 to |peers|
        invariant targets == Connected(Without(peers[..i], excluded), connected) && sent == Successes(targets, reaches)
      {
        hide Without, Connected;
        OneReceiverMore(peers, i, excluded, connected);
        if peers[i] in excluded {
          continue;
        }
        if !connected(peers[i]) {
          continue;
        }
        OneMore(targets, peers[i], reaches);
        targets := targets + [peers[i]];
        if reaches(peers[i]) {
          sent := sent + 1;
        }
      }
      assert peers[..|peers|] == peers;
    }
  }
}
