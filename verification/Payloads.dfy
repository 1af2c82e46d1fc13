/** Disconnect notices and peer lists (pkg/protocol/handlers.go). */
module DisconnectPayloads {
  import opened Bytes
  import opened Strings

  datatype Disconnect = Disconnect(reason: byte, message: seq<byte>)

  ghost function EncodedDisconnect(d: Disconnect): (r: seq<byte>)
    ensures |r| == 3 + |d.message|
  {
    [d.reason] + Put16(|d.message| % U16) + d.message
  }

  method EncodeDisconnect(d: Disconnect) returns (buf: array<byte>)
    ensures fresh(buf) && buf[..] == EncodedDisconnect(d)
  {
    buf := new byte[1 + 2 + |d.message|];
    buf[0] := d.reason;
    PutUint16(buf, 1, |d.message| % U16);
    Copy(buf, 3, d.message);
    assert buf[..3 + |d.message|] == buf[..];
  }

  /** What DecodeDisconnectPayload makes of any bytes. */
  function ParseDisconnect(data: seq<byte>): Outcome<Disconnect> {
    if |data| < 3 || |data| < 3 + Get16(data[1..3]) then Error
    else if Get16(data[1..3]) >= U16 - 3 then Panic
    else Ok(Disconnect(data[0], data[3..3 + Get16(data[1..3])]))
  }

  /** The length check is done in ints, but the slice bound `3 + msgLen` is a uint16 and wraps. */
  method DecodeDisconnect(data: seq<byte>) returns (r: Outcome<Disconnect>)
    ensures r == ParseDisconnect(data)
  {
    if |data| < 3 {
      return Error;
    }
    var msgLen := Get16(data[1..3]);
    if |data| < 3 + msgLen {
      return Error;
    }
    var end := (3 + msgLen) % U16;
    if end < 3 {
      return Panic;
    }
    return Ok(Disconnect(data[0], data[3..end]));
  }

  /**
   Decoding is the inverse of encoding: bytes yield a notice exactly when they start with its encoding
   and its text has at most 65532 bytes, and panic exactly when the length field is one of the three
   largest and that many bytes are there.
   */
  lemma DisconnectInverts(data: seq<byte>, d: Disconnect)
    ensures ParseDisconnect(data) == Ok(d) <==> |d.message| <= 65532 && EncodedDisconnect(d) <= data
    ensures ParseDisconnect(data) == Panic <==>
              |data| >= 3 && |data| >= 3 + Get16(data[1..3]) && Get16(data[1..3]) >= 65533
  {
    hide Put16, Get16;
    var rest := if |data| >= 3 + |d.message| then data[3 + |d.message|..] else [];
    if ParseDisconnect(data) == Ok(d) {
      Unique16(data[1..3]);
      assert data == EncodedDisconnect(d) + rest;
    }
    if |d.message| <= 65532 && EncodedDisconnect(d) <= data {
      assert data == EncodedDisconnect(d) + rest;
      DisconnectRoundTrip(d, rest);
    }
  }

  /** A notice comes back, whatever follows, exactly when its text has at most 65532 bytes. */
  lemma DisconnectRoundTrip(d: Disconnect, rest: seq<byte>)
    ensures ParseDisconnect(EncodedDisconnect(d) + rest) == Ok(d) <==> |d.message| <= 65532
    ensures 65533 <= |d.message| <= 65535 ==> ParseDisconnect(EncodedDisconnect(d) + rest) == Panic
  {
    hide Get16;
    var data := EncodedDisconnect(d) + rest;
    RoundTrip16(|d.message| % U16);
    assert data[1..3] == Put16(|d.message| % U16);
    assert data[3..3 + |d.message|] == d.message;
  }
}

module PeerLists {
  import opened Bytes
  import opened Common

  datatype PeerInfo = PeerInfo(nodeId: bytes16, ip: seq<byte>, port: uint16)

  ghost function EncodedPeer(p: PeerInfo): (r: seq<byte>)
    ensures |r| == 19 + |p.ip|
  {
    p.nodeId + [|p.ip| % 0x100] + p.ip + Put16(p.port)
  }

  method EncodePeer(p: PeerInfo) returns (buf: array<byte>)
    ensures fresh(buf) && buf[..] == EncodedPeer(p)
  {
    buf := new byte[16 + 1 + |p.ip| + 2];
    var offset := 0;
    Copy(buf, offset, p.nodeId);
    offset := offset + 16;
    Copy(buf, offset, [|p.ip| % 0x100]);
    offset := offset + 1;
    Copy(buf, offset, p.ip);
    offset := offset + |p.ip|;
    PutUint16(buf, offset, p.port);
    assert buf[..offset + 2] == buf[..];
  }

  ghost function ParsePeer(s: seq<byte>): Option<PeerInfo> {
    if |s| < 19 || (s[16] != 4 && s[16] != 16) || |s| < 19 + s[16] as int then None
    else
      var n := 17 + s[16] as int;
      Some(PeerInfo(s[..16], s[17..n], Get16(s[n..n + 2])))
  }

  method DecodePeer(data: seq<byte>) returns (r: Option<PeerInfo>, consumed: nat)
    ensures r == ParsePeer(data)
    ensures r.Some? ==> consumed == 19 + |r.value.ip| <= |data|
  {
    if |data| < 19 {
      return None, 0;
    }
    var offset := 0;
    var nodeId := data[offset..offset + 16];
    offset := offset + 16;
    var ipLen := data[offset] as int;
    offset := offset + 1;
    if ipLen != 4 && ipLen != 16 {
      return None, 0;
    }
    if |data| < offset + ipLen + 2 {
      return None, 0;
    }
    var ip := data[offset..offset + ipLen];
    offset := offset + ipLen;
    var port := Get16(data[offset..offset + 2]);
    offset := offset + 2;
    r, consumed := Some(PeerInfo(nodeId, ip, port)), offset;
  }

  /** An address a peer list can carry: IPv4 or IPv6. */
  predicate Routable(p: PeerInfo) {
    |p.ip| == 4 || |p.ip| == 16
  }

  lemma ParsePeerInverts(s: seq<byte>, p: PeerInfo)
    ensures ParsePeer(s) == Some(p) <==> Routable(p) && EncodedPeer(p) <= s
  {
    hide Put16, Get16;
    if ParsePeer(s) == Some(p) {
      var n := 17 + |p.ip|;
      Unique16(s[n..n + 2]);
      assert s[..n + 2] == s[..16] + [s[16]] + s[17..n] + s[n..n + 2];
    }
    if Routable(p) && EncodedPeer(p) <= s {
      var l, port := [|p.ip| % 0x100], Put16(p.port);
      assert [] + p.nodeId + (l + p.ip + port) == EncodedPeer(p);
      FieldAt([], p.nodeId, l + p.ip + port, s);
      assert p.nodeId + l + (p.ip + port) == EncodedPeer(p);
      FieldAt(p.nodeId, l, p.ip + port, s);
      FieldAt(p.nodeId + l, p.ip, port, s);
      assert p.nodeId + l + p.ip + port + [] == EncodedPeer(p);
      FieldAt(p.nodeId + l + p.ip, port, [], s);
      RoundTrip16(p.port);
      assert s[16] == s[16..17][0];
    }
  }

  // ---------------------------------------------------------------------------------------
  // Lists of peers.

  ghost function EncodedAll(ps: seq<PeerInfo>): (r: seq<byte>)
    ensures ps == [] ==> r == []
    decreases |ps|
  {
    if ps == [] then [] else EncodedAll(ps[..|ps| - 1]) + EncodedPeer(ps[|ps| - 1])
  }

  /** The count field keeps only 16 bits of the count. */
  ghost function EncodedPeers(ps: seq<PeerInfo>): seq<byte> {
    Put16(|ps| % U16) + EncodedAll(ps)
  }

  lemma PeersSnoc(ps: seq<PeerInfo>, p: PeerInfo)
    ensures EncodedAll(ps + [p]) == EncodedAll(ps) + EncodedPeer(p)
  {
    assert (ps + [p])[..|ps|] == ps;
  }

  lemma OnePeerMore(ps: seq<PeerInfo>, i: nat)
    requires i < |ps|
    ensures EncodedAll(ps[..i + 1]) == EncodedAll(ps[..i]) + EncodedPeer(ps[i])
  {
    PeersSnoc(ps[..i], ps[i]);
    assert ps[..i + 1] == ps[..i] + [ps[i]];
  }

  /** Encodes every peer for itself and adds up the sizes. */
  method EncodeEach(ps: seq<PeerInfo>) returns (encoded: seq<seq<byte>>, totalSize: nat)
    ensures |encoded| == |ps| && forall k :: 0 <= k < |ps| ==> encoded[k] == EncodedPeer(ps[k])
    ensures totalSize == 2 + |EncodedAll(ps)|
  {
    hide EncodedPeer, EncodedAll;
    totalSize, encoded := 2, [];
    for i := 0 to |ps|
      invariant |encoded| == i && forall k :: 0 <= k < i ==> encoded[k] == EncodedPeer(ps[k])
      invariant totalSize == 2 + |EncodedAll(ps[..i])|
    {
      OnePeerMore(ps, i);
      var one := EncodePeer(ps[i]);
      encoded := encoded + [one[..]];
      totalSize := totalSize + one.Length;
    }
    assert ps[..|ps|] == ps;
  }

  method EncodePeers(ps: seq<PeerInfo>) returns (buf: array<byte>)
    ensures fresh(buf) && buf[..] == EncodedPeers(ps)
  {
    hide EncodedPeer, EncodedAll, Put16;
    var encoded, totalSize := EncodeEach(ps);
    buf := new byte[totalSize];
    PutUint16(buf, 0, |ps| % U16);
    var offset := 2;
    for i := 0 to |ps|
      invariant offset == 2 + |EncodedAll(ps[..i])| <= totalSize
      invariant buf[..offset] == Put16(|ps| % U16) + EncodedAll(ps[..i])
    {
      OnePeerMore(ps, i);
      Shorter(ps, i + 1);
      Copy(buf, offset, encoded[i]);
      offset := offset + |encoded[i]|;
    }
    assert ps[..|ps|] == ps && buf[..offset] == buf[..];
  }

  lemma {:induction false} Shorter(ps: seq<PeerInfo>, i: nat)
    requires i <= |ps|
    ensures |EncodedAll(ps[..i])| <= |EncodedAll(ps)|
    decreases |ps| - i
  {
    if i < |ps| {
      Shorter(ps, i + 1);
      OnePeerMore(ps, i);
    } else {
      assert ps[..i] == ps;
    }
  }

  /** Decoding `count` peers one after the other. */
  ghost function ParseAll(s: seq<byte>, count: nat): Option<seq<PeerInfo>>
    decreases count
  {
    if count == 0 then Some([])
    else
      match ParsePeer(s)
      case None => None
      case Some(p) =>
        if |s| < 19 + |p.ip| then None
        else
          match ParseAll(s[19 + |p.ip|..], count - 1)
          case None => None
          case Some(ps) => Some([p] + ps)
  }

  ghost function ParsePeers(s: seq<byte>): Option<seq<PeerInfo>> {
    if |s| < 2 then None else ParseAll(s[2..], Get16(s[..2]))
  }

  lemma ParseAllStep(s: seq<byte>, count: nat)
    ensures ParseAll(s, 0) == Some([])
    ensures count > 0 && ParsePeer(s).None? ==> ParseAll(s, count) == None
    ensures count > 0 && ParsePeer(s).Some? && |s| >= 19 + |ParsePeer(s).value.ip| ==>
              ParseAll(s, count) == Prepend([ParsePeer(s).value], ParseAll(s[19 + |ParsePeer(s).value.ip|..], count - 1))
    ensures s == [] ==> ParsePeer(s).None?
  {
  }

  method DecodePeers(data: seq<byte>) returns (r: Option<seq<PeerInfo>>)
    ensures r == ParsePeers(data)
  {
    hide ParsePeer, ParseAll, Get16;
    if |data| < 2 {
      return None;
    }
    var peerCount := Get16(data[0..2]);
    var offset := 2;
    var peers: seq<PeerInfo> := [];
    PrependNone(ParseAll(data[2..], peerCount));
    for i := 0 to peerCount
      invariant offset <= |data|
      invariant ParsePeers(data) == Prepend(peers, ParseAll(data[offset..], peerCount - i))
    {
      ParseAllStep(data[offset..], peerCount - i);
      if offset >= |data| {
        return None;
      }
      var peer, consumed := DecodePeer(data[offset..]);
      if peer.None? {
        return None;
      }
      assert data[offset..][consumed..] == data[offset + consumed..];
      PrependOne(peers, peer.value, ParseAll(data[offset + consumed..], peerCount - i - 1));
      peers := peers + [peer.value];
      offset := offset + consumed;
    }
    ParseAllStep(data[offset..], 0);
    r := Some(peers);
    assert peers + [] == peers;
  }

  lemma PrependNone(rest: Option<seq<PeerInfo>>)
    ensures Prepend([], rest) == rest
  {
    if rest.Some? {
      assert [] + rest.value == rest.value;
    }
  }

  ghost function Prepend(ps: seq<PeerInfo>, rest: Option<seq<PeerInfo>>): Option<seq<PeerInfo>> {
    if rest.None? then None else Some(ps + rest.value)
  }

  lemma PrependOne(ps: seq<PeerInfo>, p: PeerInfo, rest: Option<seq<PeerInfo>>)
    ensures Prepend(ps, Prepend([p], rest)) == Prepend(ps + [p], rest)
  {
    if rest.Some? {
      assert ps + ([p] + rest.value) == ps + [p] + rest.value;
    }
  }

  /** The encodings from the front instead of from the back. */
  lemma {:induction false} FirstPeer(p: PeerInfo, ps: seq<PeerInfo>)
    ensures EncodedAll([p] + ps) == EncodedPeer(p) + EncodedAll(ps)
    decreases |ps|
  {
    hide EncodedPeer;
    if ps == [] {
      assert [p] + ps == [] + [p];
      PeersSnoc([], p);
    } else {
      var n := |ps| - 1;
      FirstPeer(p, ps[..n]);
      PeersSnoc([p] + ps[..n], ps[n]);
      assert [p] + ps == [p] + ps[..n] + [ps[n]];
    }
  }

  lemma {:induction false} ParseAllInverts(s: seq<byte>, ps: seq<PeerInfo>)
    ensures ParseAll(s, |ps|) == Some(ps) <==>
            (forall i :: 0 <= i < |ps| ==> Routable(ps[i])) && EncodedAll(ps) <= s
    decreases |ps|
  {
    hide EncodedPeer, ParsePeer, EncodedAll, Routable;
    if ps != [] {
      var p, rest := ps[0], ps[1..];
      assert ps == [p] + rest;
      FirstPeer(p, rest);
      ParsePeerInverts(s, p);
      PrefixSplit(EncodedPeer(p), EncodedAll(rest), s);
      if ParsePeer(s) == Some(p) {
        ParseAllInverts(s[19 + |p.ip|..], rest);
      }
    }
  }

  /** Decoding is the inverse of encoding, for lists of at most 65535 peers with 4- or 16-byte addresses. */
  lemma ParsePeersInverts(s: seq<byte>, ps: seq<PeerInfo>)
    ensures ParsePeers(s) == Some(ps) <==>
            |ps| < U16 && (forall i :: 0 <= i < |ps| ==> Routable(ps[i])) && EncodedPeers(ps) <= s
  {
    hide Put16, Get16, ParseAll, EncodedAll;
    PrefixSplit(Put16(|ps| % U16), EncodedAll(ps), s);
    if |s| >= 2 {
      Unique16(s[..2]);
      RoundTrip16(|ps| % U16);
      ParseAllInverts(s[2..], ps);
      ParseAllCount(s[2..], Get16(s[..2]));
    }
  }

  lemma {:induction false} ParseAllCount(s: seq<byte>, count: nat)
    ensures ParseAll(s, count).Some? ==> |ParseAll(s, count).value| == count
    decreases count
  {
    if count > 0 && ParsePeer(s).Some? && |s| >= 19 + |ParsePeer(s).value.ip| {
      ParseAllCount(s[19 + |ParsePeer(s).value.ip|..], count - 1);
    }
  }

  lemma PeersRoundTrip(ps: seq<PeerInfo>, rest: seq<byte>)
    ensures ParsePeers(EncodedPeers(ps) + rest) == Some(ps) <==>
            |ps| <= 65535 && forall i :: 0 <= i < |ps| ==> Routable(ps[i])
  {
    ParsePeersInverts(EncodedPeers(ps) + rest, ps);
  }
}
