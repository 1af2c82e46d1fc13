/** The handshake and its answer (pkg/protocol/handshake.go).  Text is its UTF-8 bytes. */
module Handshakes {
  import opened Bytes
  import opened Common

  datatype Handshake = Handshake(version: uint32, nodeId: bytes16, listenPort: uint16, nonce: uint64, userAgent: seq<byte>)

  const FIXED: nat := 32

  /** The layout; the length field keeps only 16 bits of the length. */
  ghost function Encoded(h: Handshake): (r: seq<byte>)
    ensures |r| == FIXED + |h.userAgent|
  {
    Put32(h.version) + h.nodeId + Put16(h.listenPort) + Put64(h.nonce) + Put16(|h.userAgent| % U16) + h.userAgent
  }

  method Encode(h: Handshake) returns (buf: array<byte>)
    ensures fresh(buf) && buf[..] == Encoded(h)
  {
    buf := new byte[FIXED + |h.userAgent|];
    FillHandshake(buf, 0, h);
    assert buf[..FIXED + |h.userAgent|] == buf[..];
  }

  /** Fills the buffer field by field at a moving offset. */
  method FillHandshake(buf: array<byte>, start: nat, h: Handshake)
    requires buf.Length == start + FIXED + |h.userAgent|
    modifies buf
    ensures buf[..] == old(buf[..start]) + Encoded(h)
  {
    hide Put32, Put16, Put64;
    var offset := start;
    PutUint32(buf, offset, h.version);
    offset := offset + 4;
    Copy(buf, offset, h.nodeId);
    offset := offset + 16;
    PutUint16(buf, offset, h.listenPort);
    offset := offset + 2;
    PutUint64(buf, offset, h.nonce);
    offset := offset + 8;
    PutUint16(buf, offset, |h.userAgent| % U16);
    offset := offset + 2;
    Copy(buf, offset, h.userAgent);
    assert buf[..] == buf[..offset + |h.userAgent|];
  }

  /** What decoding makes of the bytes. */
  ghost function Parse(s: seq<byte>): Option<Handshake> {
    if |s| < FIXED || |s| < FIXED + Get16(s[30..32]) then None
    else Some(Handshake(Get32(s[..4]), s[4..20], Get16(s[20..22]), Get64(s[22..30]), s[32..32 + Get16(s[30..32])]))
  }

  method Decode(data: seq<byte>) returns (r: Option<Handshake>)
    ensures r == Parse(data)
  {
    if |data| < 4 + 16 + 2 + 8 + 2 {
      return None;
    }
    var offset := 0;
    var version := Get32(data[offset..offset + 4]);
    offset := offset + 4;
    var nodeId := data[offset..offset + 16];
    offset := offset + 16;
    var listenPort := Get16(data[offset..offset + 2]);
    offset := offset + 2;
    var nonce := Get64(data[offset..offset + 8]);
    offset := offset + 8;
    var userAgentLen := Get16(data[offset..offset + 2]);
    offset := offset + 2;
    if |data| < offset + userAgentLen {
      return None;
    }
    r := Some(Handshake(version, nodeId, listenPort, nonce, data[offset..offset + userAgentLen]));
  }

  /**
   Decoding is the inverse of encoding: it yields a handshake exactly when the bytes start with its
   encoding and its user agent fits the length field.
   */
  lemma ParseInverts(s: seq<byte>, h: Handshake)
    ensures Parse(s) == Some(h) <==> |h.userAgent| < U16 && Encoded(h) <= s
  {
    if Parse(s) == Some(h) {
      ParsedEncodes(s, h);
    }
    if |h.userAgent| < U16 && Encoded(h) <= s {
      EncodedParses(s, h);
    }
  }

  lemma ParsedEncodes(s: seq<byte>, h: Handshake)
    requires Parse(s) == Some(h)
    ensures |h.userAgent| < U16 && Encoded(h) <= s
  {
    hide Put32, Put16, Put64, Get32, Get16, Get64;
    Unique32(s[..4]);
    Unique16(s[20..22]);
    Unique64(s[22..30]);
    Unique16(s[30..32]);
    var n := FIXED + |h.userAgent|;
    assert s[..n] == s[..4] + s[4..20] + s[20..22] + s[22..30] + s[30..32] + s[32..n];
  }

  lemma EncodedParses(s: seq<byte>, h: Handshake)
    requires |h.userAgent| < U16 && Encoded(h) <= s
    ensures Parse(s) == Some(h)
  {
    hide Put32, Put16, Put64, Get32, Get16, Get64;
    var a, b, c, d, e, f :=
      Put32(h.version), h.nodeId, Put16(h.listenPort), Put64(h.nonce), Put16(|h.userAgent|), h.userAgent;
    assert [] + a + (b + c + d + e + f) == Encoded(h);
    FieldAt([], a, b + c + d + e + f, s);
    assert a + b + (c + d + e + f) == Encoded(h);
    FieldAt(a, b, c + d + e + f, s);
    assert a + b + c + (d + e + f) == Encoded(h);
    FieldAt(a + b, c, d + e + f, s);
    assert a + b + c + d + (e + f) == Encoded(h);
    FieldAt(a + b + c, d, e + f, s);
    FieldAt(a + b + c + d, e, f, s);
    assert a + b + c + d + e + f + [] == Encoded(h);
    FieldAt(a + b + c + d + e, f, [], s);
    RoundTrip32(h.version);
    RoundTrip16(h.listenPort);
    RoundTrip64(h.nonce);
    RoundTrip16(|h.userAgent|);
  }

  /** Whatever follows, a handshake comes back exactly when its user agent has at most 65535 bytes. */
  lemma HandshakeRoundTrip(h: Handshake, rest: seq<byte>)
    ensures Parse(Encoded(h) + rest) == Some(h) <==> |h.userAgent| <= 65535
  {
    ParseInverts(Encoded(h) + rest, h);
  }
}

module HandshakeAcks {
  import opened Bytes
  import opened Common
  import opened Handshakes

  /** The answer: a verdict with a reason, then the answering node's own handshake fields. */
  datatype Ack = Ack(accepted: bool, reason: seq<byte>, body: Handshake)

  ghost function Verdict(a: Ack): (r: seq<byte>)
    ensures |r| == 3 + |a.reason|
  {
    [if a.accepted then 1 else 0] + Put16(|a.reason| % U16) + a.reason
  }

  ghost function EncodedAck(a: Ack): seq<byte> {
    Verdict(a) + Encoded(a.body)
  }

  method EncodeAck(a: Ack) returns (buf: array<byte>)
    ensures fresh(buf) && buf[..] == EncodedAck(a)
  {
    buf := new byte[1 + 2 + |a.reason| + 4 + 16 + 2 + 8 + 2 + |a.body.userAgent|];
    var offset := 0;
    buf[offset] := if a.accepted then 1 else 0;
    offset := offset + 1;
    PutUint16(buf, offset, |a.reason| % U16);
    offset := offset + 2;
    Copy(buf, offset, a.reason);
    offset := offset + |a.reason|;
    assert buf[..offset] == Verdict(a);
    FillHandshake(buf, offset, a.body);
  }

  /** Any first byte other than 1 reads as a refusal. */
  ghost function ParseAck(s: seq<byte>): Option<Ack> {
    if |s| < 35 || |s| < 3 + Get16(s[1..3]) then None
    else
      var n := 3 + Get16(s[1..3]);
      match Parse(s[n..])
      case None => None
      case Some(body) => Some(Ack(s[0] == 1, s[3..n], body))
  }

  method DecodeAck(data: seq<byte>) returns (r: Option<Ack>)
    ensures r == ParseAck(data)
  {
    if |data| < 35 {
      return None;
    }
    var offset := 0;
    var accepted := data[offset] == 1;
    offset := offset + 1;
    var reasonLen := Get16(data[offset..offset + 2]);
    offset := offset + 2;
    if |data| < offset + reasonLen {
      return None;
    }
    var reason := data[offset..offset + reasonLen];
    offset := offset + reasonLen;
    ghost var n := offset;
    BodyFields(data, n);
    if |data| < offset + 4 {
      return None;
    }
    var version := Get32(data[offset..offset + 4]);
    offset := offset + 4;
    if |data| < offset + 16 {
      return None;
    }
    var nodeId := data[offset..offset + 16];
    offset := offset + 16;
    if |data| < offset + 2 {
      return None;
    }
    var listenPort := Get16(data[offset..offset + 2]);
    offset := offset + 2;
    if |data| < offset + 8 {
      return None;
    }
    var nonce := Get64(data[offset..offset + 8]);
    offset := offset + 8;
    if |data| < offset + 2 {
      return None;
    }
    var userAgentLen := Get16(data[offset..offset + 2]);
    offset := offset + 2;
    if |data| < offset + userAgentLen {
      return None;
    }
    r := Some(Ack(accepted, reason, Handshake(version, nodeId, listenPort, nonce, data[offset..offset + userAgentLen])));
  }

  /** The handshake fields behind the reason, addressed from the start of the data. */
  lemma BodyFields(s: seq<byte>, n: nat)
    requires n <= |s|
    ensures Parse(s[n..]) ==
            if |s| < n + 32 || |s| < n + 32 + Get16(s[n + 30..n + 32]) then None
            else Some(Handshake(Get32(s[n..n + 4]), s[n + 4..n + 20], Get16(s[n + 20..n + 22]), Get64(s[n + 22..n + 30]),
                                s[n + 32..n + 32 + Get16(s[n + 30..n + 32])]))
  {
    hide Get32, Get16, Get64;
    var t := s[n..];
    if |t| >= 32 {
      assert t[..4] == s[n..n + 4] && t[4..20] == s[n + 4..n + 20] && t[20..22] == s[n + 20..n + 22];
      assert t[22..30] == s[n + 22..n + 30] && t[30..32] == s[n + 30..n + 32];
      var len := Get16(t[30..32]);
      if |t| >= 32 + len {
        assert t[32..32 + len] == s[n + 32..n + 32 + len];
      }
    }
  }

  ghost predicate Fits(a: Ack) {
    |a.reason| < U16 && |a.body.userAgent| < U16
  }

  lemma EncodedAckParses(s: seq<byte>, a: Ack)
    requires Fits(a) && EncodedAck(a) <= s
    ensures ParseAck(s) == Some(a) && s[0] <= 1
  {
    hide Put16, Get16, Encoded, Parse;
    var f, l, body := [if a.accepted then 1 else 0], Put16(|a.reason|), Encoded(a.body);
    assert [] + f + (l + a.reason + body) == EncodedAck(a);
    FieldAt([], f, l + a.reason + body, s);
    assert f + l + (a.reason + body) == EncodedAck(a);
    FieldAt(f, l, a.reason + body, s);
    FieldAt(f + l, a.reason, body, s);
    RoundTrip16(|a.reason|);
    assert s[0] == s[0..1][0];
    var n := 3 + |a.reason|;
    assert Verdict(a) + body + [] == EncodedAck(a);
    FieldAt(Verdict(a), body, [], s);
    assert body <= s[n..] by {
      assert s[n..][..|body|] == s[n..n + |body|];
    }
    ParseInverts(s[n..], a.body);
  }

  lemma ParsedAckEncodes(s: seq<byte>, a: Ack)
    requires ParseAck(s) == Some(a)
    ensures Fits(a) && (s[0] <= 1 ==> EncodedAck(a) <= s)
  {
    hide Put16, Get16, Encoded, Parse;
    Unique16(s[1..3]);
    var n := 3 + |a.reason|;
    ParseInverts(s[n..], a.body);
    if s[0] <= 1 {
      assert s[..n] == s[..1] + s[1..3] + s[3..n];
      assert s == s[..n] + s[n..];
      assert Verdict(a) == s[..n];
    }
  }

  /** The same for the answer, apart from first bytes that no encoder writes. */
  lemma ParseAckInverts(s: seq<byte>, a: Ack)
    ensures ParseAck(s) == Some(a) && s[0] <= 1 <==> Fits(a) && EncodedAck(a) <= s
  {
    if ParseAck(s) == Some(a) {
      ParsedAckEncodes(s, a);
    }
    if Fits(a) && EncodedAck(a) <= s {
      EncodedAckParses(s, a);
    }
  }

  lemma AckRoundTrip(a: Ack, rest: seq<byte>)
    ensures ParseAck(EncodedAck(a) + rest) == Some(a) <==> |a.reason| <= 65535 && |a.body.userAgent| <= 65535
  {
    ParseAckInverts(EncodedAck(a) + rest, a);
    assert (EncodedAck(a) + rest)[0] <= 1;
  }
}
