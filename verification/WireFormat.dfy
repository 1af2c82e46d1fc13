/**
 The wire formats byte by byte: where each field stands in an encoding and how it is written, told
 with literal offsets and a positional reading of big-endian numbers that shares nothing with the
 encoders.  The decoders are the encoders' inverses, so this fixes what they read as well.
 */
module WireFormat {
  import opened Bytes
  import D = DisconnectPayloads
  import F = Frames
  import H = Handshakes
  import A = HandshakeAcks
  import I = Inventories
  import M = Messages
  import P = PeerLists
  import S = Strings
  import T = TxCodec
  import X = Transactions

  /** The number that bytes spell, the most significant byte first. */
  function BigEndian(s: seq<byte>): nat {
    if s == [] then 0 else BigEndian(s[..|s| - 1]) * 256 + s[|s| - 1] as int
  }

  lemma SpelledMore(a: seq<byte>, x: byte)
    ensures BigEndian(a + [x]) == BigEndian(a) * 256 + x as int
  {
    assert (a + [x])[..|a|] == a;
  }

  lemma SpelledPair(x: byte, y: byte)
    ensures BigEndian([x, y]) == x as int * 256 + y as int
  {
    SpelledMore([], x);
    SpelledMore([x], y);
    assert [] + [x] == [x] && [x] + [y] == [x, y];
  }

  lemma Spelled16(x: nat)
    requires x < U16
    ensures BigEndian(Put16(x)) == x
  {
    SpelledPair(x / 0x100, x % 0x100);
  }

  lemma {:induction false} SpelledConcat(a: seq<byte>, b: seq<byte>)
    ensures |b| == 2 ==> BigEndian(a + b) == BigEndian(a) * 0x1_0000 + BigEndian(b)
    ensures |b| == 4 ==> BigEndian(a + b) == BigEndian(a) * 0x1_0000_0000 + BigEndian(b)
  {
    if |b| == 2 {
      SpelledTwo(a, b);
    } else if |b| == 4 {
      SpelledTwo(a, b[..2]);
      SpelledTwo(a + b[..2], b[2..]);
      SpelledTwo(b[..2], b[2..]);
      assert a + b[..2] + b[2..] == a + b && b[..2] + b[2..] == b;
    }
  }

  lemma SpelledTwo(a: seq<byte>, b: seq<byte>)
    requires |b| == 2
    ensures BigEndian(a + b) == BigEndian(a) * 0x1_0000 + BigEndian(b)
  {
    hide BigEndian;
    SpelledMore(a, b[0]);
    SpelledMore(a + [b[0]], b[1]);
    SpelledPair(b[0], b[1]);
    assert a + [b[0]] + [b[1]] == a + b && [b[0], b[1]] == b;
  }

  lemma Spelled32(x: nat)
    requires x < U32
    ensures BigEndian(Put32(x)) == x
  {
    hide Put16, BigEndian;
    SpelledConcat(Put16(x / U16), Put16(x % U16));
    Spelled16(x / U16);
    Spelled16(x % U16);
  }

  lemma Spelled64(x: nat)
    requires x < U64
    ensures BigEndian(Put64(x)) == x
  {
    hide Put32, BigEndian;
    SpelledConcat(Put32(x / U32), Put32(x % U32));
    Spelled32(x / U32);
    Spelled32(x % U32);
  }

  /** Thirteen header bytes, beginning with "P2P1", then the payload. */
  lemma MessageBytes(m: M.Message)
    ensures var e := M.Encoded(m);
            && |e| == 13 + |m.payload| && e[..4] == [0x50, 0x32, 0x50, 0x31] && e[4] == m.msgType
            && BigEndian(e[5..9]) == |m.payload| % 0x1_0000_0000 && BigEndian(e[9..13]) == m.checksum
            && e[13..] == m.payload
  {
    var e := M.Encoded(m);
    assert e[..4] == Put32(M.MAGIC) == [0x50, 0x32, 0x50, 0x31];
    hide Put32, BigEndian;
    assert e[5..9] == Put32(|m.payload| % U32) && e[9..13] == Put32(m.checksum) && e[13..] == m.payload;
    Spelled32(|m.payload| % U32);
    Spelled32(m.checksum);
  }

  /** Why a message is not decoded: the first of these checks that fails. */
  lemma MessageErrors(s: seq<byte>, crc: M.Crc)
    ensures M.Decoded(s, crc) == M.Err(M.HeaderRead) <==> |s| < 13
    ensures M.Decoded(s, crc) == M.Err(M.BadMagic) <==> |s| >= 13 && s[..4] != [0x50, 0x32, 0x50, 0x31]
    ensures M.Decoded(s, crc) == M.Err(M.PayloadTooLarge) <==>
              |s| >= 13 && s[..4] == [0x50, 0x32, 0x50, 0x31] && BigEndian(s[5..9]) > 10_485_760
    ensures M.Decoded(s, crc) == M.Err(M.PayloadRead) <==>
              && |s| >= 13 && s[..4] == [0x50, 0x32, 0x50, 0x31] && BigEndian(s[5..9]) <= 10_485_760
              && |s| < 13 + BigEndian(s[5..9])
    ensures M.Decoded(s, crc) == M.Err(M.BadChecksum) <==>
              && |s| >= 13 && s[..4] == [0x50, 0x32, 0x50, 0x31] && BigEndian(s[5..9]) <= 10_485_760
              && |s| >= 13 + BigEndian(s[5..9]) && BigEndian(s[9..13]) != crc(s[13..13 + BigEndian(s[5..9])])
  {
    if |s| >= 13 {
      MagicIs(s[..4]);
      hide Put32, Get32, BigEndian;
      Read32(s[5..9]);
      Read32(s[9..13]);
    }
  }

  lemma MagicIs(b: seq<byte>)
    requires |b| == 4
    ensures Get32(b) == M.MAGIC <==> b == [0x50, 0x32, 0x50, 0x31]
  {
    assert Put32(M.MAGIC) == [0x50, 0x32, 0x50, 0x31];
    Unique32(b);
    RoundTrip32(M.MAGIC);
  }

  lemma Read32(b: seq<byte>)
    requires |b| == 4
    ensures Get32(b) == BigEndian(b)
  {
    hide Put32, Get32, BigEndian;
    Unique32(b);
    Spelled32(Get32(b));
  }

  lemma FrameBytes(d: seq<byte>)
    ensures var f := F.Frame(d); |f| == 4 + |d| && BigEndian(f[..4]) == |d| % 0x1_0000_0000 && f[4..] == d
  {
    hide Put32, BigEndian;
    var f := F.Frame(d);
    assert f[..4] == Put32(|d| % U32);
    Spelled32(|d| % U32);
  }

  /** Why ReadMessage gives nothing. */
  lemma FrameErrors(s: seq<byte>)
    ensures F.FirstFrame(s) == F.NoData(F.LengthMissing) <==> |s| < 4
    ensures F.FirstFrame(s) == F.NoData(F.TooLarge) <==> |s| >= 4 && BigEndian(s[..4]) > 10_485_760
    ensures F.FirstFrame(s) == F.NoData(F.ZeroLength) <==> |s| >= 4 && BigEndian(s[..4]) == 0
    ensures F.FirstFrame(s) == F.NoData(F.DataMissing) <==>
              |s| >= 4 && 0 < BigEndian(s[..4]) <= 10_485_760 && |s| < 4 + BigEndian(s[..4])
  {
    hide Get32, BigEndian;
    if |s| >= 4 {
      Read32(s[..4]);
    }
  }

  lemma StringBytes(s: seq<byte>)
    ensures var e := S.EncodedString(s); |e| == 2 + |s| && BigEndian(e[..2]) == |s| % 0x1_0000 && e[2..] == s
    ensures var e := S.EncodedBytes(s); |e| == 4 + |s| && BigEndian(e[..4]) == |s| % 0x1_0000_0000 && e[4..] == s
  {
    hide Put16, Put32, BigEndian;
    assert S.EncodedString(s)[..2] == Put16(|s| % U16) && S.EncodedBytes(s)[..4] == Put32(|s| % U32);
    Spelled16(|s| % U16);
    Spelled32(|s| % U32);
  }

  lemma HandshakeBytes(h: H.Handshake)
    ensures var e := H.Encoded(h);
            && |e| == 32 + |h.userAgent|
            && BigEndian(e[..4]) == h.version && e[4..20] == h.nodeId && BigEndian(e[20..22]) == h.listenPort
            && BigEndian(e[22..30]) == h.nonce && BigEndian(e[30..32]) == |h.userAgent| % 0x1_0000 && e[32..] == h.userAgent
  {
    hide Put16, Put32, Put64, BigEndian;
    var e := H.Encoded(h);
    assert e[..4] == Put32(h.version) && e[20..22] == Put16(h.listenPort);
    assert e[22..30] == Put64(h.nonce) && e[30..32] == Put16(|h.userAgent| % U16);
    Spelled32(h.version);
    Spelled16(h.listenPort);
    Spelled64(h.nonce);
    Spelled16(|h.userAgent| % U16);
  }

  /** The answer: verdict and reason, then the fields of a handshake. */
  lemma AckBytes(a: A.Ack)
    ensures var e, n := A.EncodedAck(a), 3 + |a.reason|;
            && |e| == n + 32 + |a.body.userAgent|
            && e[0] == (if a.accepted then 1 else 0) && BigEndian(e[1..3]) == |a.reason| % 0x1_0000
            && e[3..n] == a.reason && e[n..] == H.Encoded(a.body)
  {
    hide Put16, BigEndian, H.Encoded;
    var e, n := A.EncodedAck(a), 3 + |a.reason|;
    assert e[1..3] == Put16(|a.reason| % U16);
    Spelled16(|a.reason| % U16);
  }

  lemma DisconnectBytes(d: D.Disconnect)
    ensures var e := D.EncodedDisconnect(d);
            |e| == 3 + |d.message| && e[0] == d.reason && BigEndian(e[1..3]) == |d.message| % 0x1_0000 && e[3..] == d.message
  {
    hide Put16, BigEndian;
    assert D.EncodedDisconnect(d)[1..3] == Put16(|d.message| % U16);
    Spelled16(|d.message| % U16);
  }

  lemma PeerBytes(p: P.PeerInfo)
    ensures var e, n := P.EncodedPeer(p), 17 + |p.ip|;
            && |e| == n + 2 && e[..16] == p.nodeId && e[16] == |p.ip| % 256 && e[17..n] == p.ip
            && BigEndian(e[n..]) == p.port
  {
    hide Put16, BigEndian;
    var e, n := P.EncodedPeer(p), 17 + |p.ip|;
    assert e[n..] == Put16(p.port);
    Spelled16(p.port);
  }

  /** A list is its 16-bit length and the peers in order. */
  lemma PeersBytes(ps: seq<P.PeerInfo>, p: P.PeerInfo)
    ensures |P.EncodedPeers([])| == 2
    ensures |P.EncodedPeers(ps)| >= 2 && BigEndian(P.EncodedPeers(ps)[..2]) == |ps| % 0x1_0000
    ensures P.EncodedPeers(ps + [p])[2..] == P.EncodedPeers(ps)[2..] + P.EncodedPeer(p)
  {
    hide Put16, BigEndian, P.EncodedPeer;
    assert P.EncodedPeers(ps)[..2] == Put16(|ps| % U16);
    Spelled16(|ps| % U16);
    assert (ps + [p])[..|ps|] == ps;
    assert P.EncodedPeers(ps)[2..] == P.EncodedAll(ps) && P.EncodedPeers(ps + [p])[2..] == P.EncodedAll(ps + [p]);
  }

  /** An inventory is its 16-bit length and 33 bytes for each item. */
  lemma InventoryBytes(items: seq<I.InvItem>, i: nat)
    requires i < |items|
    ensures var e, at := I.EncodedInv(items), 2 + 33 * i;
            && |e| == 2 + 33 * |items| && BigEndian(e[..2]) == |items| % 0x1_0000
            && e[at] == items[i].kind && e[at + 1..at + 33] == items[i].hash
  {
    hide Put16, BigEndian, I.EncodedItems;
    var e, at := I.EncodedInv(items), 2 + 33 * i;
    assert e[..2] == Put16(|items| % U16);
    Spelled16(|items| % U16);
    ItemAt(items, i);
    assert e[at..at + 33] == I.EncodedItems(items)[33 * i..33 * i + 33];
    assert e[at] == e[at..at + 33][0] && e[at + 1..at + 33] == e[at..at + 33][1..];
  }

  lemma {:induction false} ItemAt(items: seq<I.InvItem>, i: nat)
    requires i < |items|
    ensures I.EncodedItems(items)[33 * i..33 * i + 33] == [items[i].kind] + items[i].hash
    decreases |items|
  {
    var n := |items| - 1;
    if i < n {
      ItemAt(items[..n], i);
      assert I.EncodedItems(items)[33 * i..33 * i + 33] == I.EncodedItems(items[..n])[33 * i..33 * i + 33];
    }
  }

  lemma TxBytes(t: X.Tx)
    ensures var e, n := T.Encoded(t), 76 + |t.data|;
            && |e| == n + 8 && e[..20] == t.from && e[20..40] == t.to
            && BigEndian(e[40..48]) == t.value && BigEndian(e[48..56]) == t.nonce
            && BigEndian(e[56..64]) == t.gasPrice && BigEndian(e[64..72]) == t.gasLimit
            && BigEndian(e[72..76]) == |t.data| % 0x1_0000_0000 && e[76..n] == t.data
            && BigEndian(e[n..]) == (if t.timestamp < 0 then t.timestamp + 0x1_0000_0000_0000_0000 else t.timestamp)
  {
    hide Put32, Put64, BigEndian;
    var e, n := T.Encoded(t), 76 + |t.data|;
    assert e[..72] == T.Front(t);
    assert e[40..48] == T.Front(t)[40..48] == Put64(t.value) && e[48..56] == T.Front(t)[48..56] == Put64(t.nonce);
    assert e[56..64] == T.Front(t)[56..64] == Put64(t.gasPrice) && e[64..72] == T.Front(t)[64..72] == Put64(t.gasLimit);
    assert e[72..76] == Put32(|t.data| % U32) && e[n..] == Put64(T.ToUint64(t.timestamp));
    Spelled64(t.value);
    Spelled64(t.nonce);
    Spelled64(t.gasPrice);
    Spelled64(t.gasLimit);
    Spelled32(|t.data| % U32);
    Spelled64(T.ToUint64(t.timestamp));
  }
}
