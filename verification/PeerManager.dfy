/**
 The peer manager of pkg/peer/manager.go: two maps and three counters, kept by AddPeer and
 RemovePeer.  The class is the code run by one caller at a time; module PeerManagerSteps lets any
 number of connections run it at once.
 */
module Peers {
  datatype Direction = Inbound | Outbound

  type Id = nat

  /** `serial` tells two connections apart even when they claim the same identity. */
  datatype Peer = Peer(serial: nat, id: Id, addr: string, direction: Direction)

  datatype ManagerConfig = ManagerConfig(maxPeers: int, maxInboundPeers: int, maxOutboundPeers: int) {
    function LimitFor(d: Direction): int {
      if d == Inbound then maxInboundPeers else maxOutboundPeers
    }
  }

  datatype AddError = TooManyPeers | TooManyInDirection | DuplicateId | DuplicateAddr
}

module PeerManagerSequential {
  import opened Common
  import opened Peers

  ghost function Facing(peers: map<Id, Peer>, d: Direction): set<Id> {
    set id | id in peers && peers[id].direction == d
  }

  /** Both maps describe the same peers. */
  ghost predicate Agree(peers: map<Id, Peer>, byAddr: map<string, Peer>) {
    && (forall id :: id in peers ==>
          peers[id].id == id && (peers[id].addr != "" ==> peers[id].addr in byAddr && byAddr[peers[id].addr] == peers[id]))
    && (forall a :: a in byAddr ==>
          a != "" && byAddr[a].addr == a && byAddr[a].id in peers && peers[byAddr[a].id] == byAddr[a])
  }

  ghost function AddressOf(peer: Peer): map<string, Peer> {
    if peer.addr == "" then map[] else map[peer.addr := peer]
  }

  lemma AdditionAgrees(peers: map<Id, Peer>, byAddr: map<string, Peer>, peer: Peer)
    requires Agree(peers, byAddr) && peer.id !in peers && peer.addr !in byAddr
    ensures Agree(peers[peer.id := peer], byAddr + AddressOf(peer))
  {
  }

  lemma RemovalCounts(peers: map<Id, Peer>, id: Id)
    requires id in peers
    ensures var peers', d := peers - {id}, peers[id].direction;
            && |peers'.Keys| == |peers.Keys| - 1
            && |Facing(peers', d)| == |Facing(peers, d)| - 1
            && forall e :: e != d ==> Facing(peers', e) == Facing(peers, e)
  {
    var peers', d := peers - {id}, peers[id].direction;
    assert Facing(peers', d) == Facing(peers, d) - {id};
    assert peers'.Keys == peers.Keys - {id};
  }

  lemma AdditionCounts(peers: map<Id, Peer>, peer: Peer)
    requires peer.id !in peers
    ensures var peers', d := peers[peer.id := peer], peer.direction;
            && |peers'.Keys| == |peers.Keys| + 1
            && |Facing(peers', d)| == |Facing(peers, d)| + 1
            && forall e :: e != d ==> Facing(peers', e) == Facing(peers, e)
  {
    hide Facing;
    var peers' := peers[peer.id := peer];
    assert peers' - {peer.id} == peers;
    RemovalCounts(peers', peer.id);
  }

  lemma RemovalAgrees(peers: map<Id, Peer>, byAddr: map<string, Peer>, id: Id)
    requires Agree(peers, byAddr) && id in peers
    ensures Agree(peers - {id}, byAddr - AddressOf(peers[id]).Keys)
  {
  }

  lemma DropAddress(byAddr: map<string, Peer>, peer: Peer)
    ensures byAddr - AddressOf(peer).Keys == if peer.addr == "" then byAddr else byAddr - {peer.addr}
  {
    assert peer.addr != "" ==> AddressOf(peer).Keys == {peer.addr};
  }

  /** The address entries that go with a removal are exactly those of the removed identity. */
  lemma RemovalIsExact(peers: map<Id, Peer>, byAddr: map<string, Peer>, id: Id)
    requires Agree(peers, byAddr) && id in peers
    ensures (byAddr - AddressOf(peers[id]).Keys).Keys == set a | a in byAddr && byAddr[a].id != id
  {
  }

  class PeerManager {
    const config: ManagerConfig
    var peers: map<Id, Peer>
    var peersByAddr: map<string, Peer>
    var totalCount: int
    var inboundCount: int
    var outboundCount: int

    /** The maps agree and every counter is the size of what it counts. */
    ghost predicate Valid()
      reads this
    {
      && Agree(peers, peersByAddr)
      && totalCount == |peers.Keys|
      && inboundCount == |Facing(peers, Inbound)|
      && outboundCount == |Facing(peers, Outbound)|
    }

    constructor (config: ManagerConfig)
      ensures Valid() && peers == map[] && peersByAddr == map[] && this.config == config
    {
      this.config := config;
      peers, peersByAddr := map[], map[];
      totalCount, inboundCount, outboundCount := 0, 0, 0;
    }

    ghost predicate HasRoomFor(d: Direction)
      reads this
    {
      totalCount < config.maxPeers && (if d == Inbound then inboundCount else outboundCount) < config.LimitFor(d)
    }

    /** The error is the first check that fails; a refused peer leaves no trace, not even in the id map. */
    method AddPeer(peer: Peer) returns (error: Option<AddError>)
      requires Valid()
      modifies this
      ensures Valid()
      ensures error.None? <==>
                && old(HasRoomFor(peer.direction)) && peer.id !in old(peers)
                && peer.addr !in old(peersByAddr)
      ensures error.None? ==>
                peers == old(peers)[peer.id := peer] && peersByAddr == old(peersByAddr) + AddressOf(peer)
      ensures error.Some? ==> peers == old(peers) && peersByAddr == old(peersByAddr)
      ensures error == Some(TooManyPeers) <==> old(totalCount) >= config.maxPeers
      ensures error == Some(DuplicateId) <==> old(HasRoomFor(peer.direction)) && peer.id in old(peers)
      ensures error == Some(DuplicateAddr) ==>
                old(HasRoomFor(peer.direction)) && peer.id !in old(peers) && peer.addr in old(peersByAddr)
    {
      hide Agree, Facing;
      if totalCount >= config.maxPeers {
        return Some(TooManyPeers);
      }
      if peer.direction == Inbound {
        if inboundCount >= config.maxInboundPeers {
          return Some(TooManyInDirection);
        }
      } else {
        if outboundCount >= config.maxOutboundPeers {
          return Some(TooManyInDirection);
        }
      }
      error := Store(peer);
      if error.None? {
        AdditionAgrees(old(peers), old(peersByAddr), peer);
        AdditionCounts(old(peers), peer);
        Adjust(peer.direction, 1);
      }
    }

    /** Claims the identity, then the address; a taken address gives the identity back. */
    method Store(peer: Peer) returns (error: Option<AddError>)
      requires Agree(peers, peersByAddr)
      modifies `peers, `peersByAddr
      ensures error == if peer.id in old(peers) then Some(DuplicateId)
                       else if peer.addr in old(peersByAddr) then Some(DuplicateAddr) else None
      ensures error.None? ==>
                peers == old(peers)[peer.id := peer] && peersByAddr == old(peersByAddr) + AddressOf(peer)
      ensures error.Some? ==> peers == old(peers) && peersByAddr == old(peersByAddr)
    {
      if peer.id in peers {
        return Some(DuplicateId);
      }
      peers := peers[peer.id := peer];
      if peer.addr != "" {
        if peer.addr in peersByAddr {
          peers := peers - {peer.id};
          return Some(DuplicateAddr);
        }
        peersByAddr := peersByAddr[peer.addr := peer];
      }
      return None;
    }

    /** The two counter updates that close AddPeer and RemovePeer. */
    method Adjust(d: Direction, delta: int)
      modifies `totalCount, `inboundCount, `outboundCount
      ensures totalCount == old(totalCount) + delta
      ensures inboundCount == old(inboundCount) + (if d == Inbound then delta else 0)
      ensures outboundCount == old(outboundCount) + (if d == Outbound then delta else 0)
    {
      totalCount := totalCount + delta;
      if d == Inbound {
        inboundCount := inboundCount + delta;
      } else {
        outboundCount := outboundCount + delta;
      }
    }

    /** Removes the peer registered under `id` from both maps, and nothing else. */
    method RemovePeer(id: Id) returns (removed: Option<Peer>)
      requires Valid()
      modifies this
      ensures Valid()
      ensures removed == if id in old(peers) then Some(old(peers)[id]) else None
      ensures peers == old(peers) - {id}
      ensures peersByAddr == if id in old(peers) then old(peersByAddr) - AddressOf(old(peers)[id]).Keys else old(peersByAddr)
    {
      hide Agree, Facing, AddressOf;
      if id !in peers {
        return None;
      }
      var peer := peers[id];
      RemovalAgrees(peers, peersByAddr, id);
      RemovalCounts(peers, id);
      DropAddress(peersByAddr, peer);
      peers := peers - {id};
      if peer.addr != "" {
        peersByAddr := peersByAddr - {peer.addr};
      }
      Adjust(peer.direction, -1);
      return Some(peer);
    }
  }

  /** A removal undoes an addition that succeeded. */
  method AddThenRemove(m: PeerManager, peer: Peer) returns (error: Option<AddError>)
    requires m.Valid()
    modifies m
    ensures m.Valid() && m.peers == old(m.peers) && m.peersByAddr == old(m.peersByAddr)
    ensures m.totalCount == old(m.totalCount)
    ensures m.inboundCount == old(m.inboundCount) && m.outboundCount == old(m.outboundCount)
  {
    hide Agree, Facing;
    error := m.AddPeer(peer);
    if error.None? {
      var removed := m.RemovePeer(peer.id);
    }
  }
}
