/**
 Framing of a connection (pkg/transport/connection.go): WriteMessage, ReadMessage, and the read
 loop of pkg/node/node.go on top of them.  Deadlines are left out; a failing write appears in
 module WriterSteps.
 */
module Frames {
  import opened Bytes

  const MAX_FRAME: nat := 10 * 1024 * 1024

  ghost function Frame(data: seq<byte>): (r: seq<byte>)
    ensures |r| == 4 + |data|
  {
    Put32(|data| % U32) + data
  }

  datatype ReadError = Closed | LengthMissing | TooLarge | ZeroLength | DataMissing

  datatype FrameResult = Data(data: seq<byte>) | NoData(cause: ReadError)

  /** What ReadMessage makes of the bytes it finds. */
  ghost function FirstFrame(s: seq<byte>): (r: FrameResult)
    ensures r.Data? ==> |r.data| > 0 && |s| >= 4 + |r.data|
  {
    if |s| < 4 then NoData(LengthMissing)
    else
      var length := Get32(s[..4]);
      if length > MAX_FRAME then NoData(TooLarge)
      else if length == 0 then NoData(ZeroLength)
      else if |s| < 4 + length then NoData(DataMissing)
      else Data(s[4..4 + length])
  }

  /** Reading is the inverse of writing, for data of one byte up to ten mebibytes. */
  lemma FirstFrameInverts(s: seq<byte>, data: seq<byte>)
    ensures FirstFrame(s) == Data(data) <==> 0 < |data| <= MAX_FRAME && Frame(data) <= s
  {
    hide Put32, Get32;
    PrefixSplit(Put32(|data| % U32), data, s);
    RoundTrip32(|data| % U32);
    if |s| >= 4 {
      Unique32(s[..4]);
      if |s| >= 4 + |data| {
        assert s[4..][..|data|] == s[4..4 + |data|];
      }
    }
  }

  /** A frame that is cut short yields nothing. */
  lemma CutFrame(data: seq<byte>, partial: seq<byte>)
    requires |data| <= MAX_FRAME && partial <= Frame(data) && partial != Frame(data)
    ensures FirstFrame(partial).NoData?
  {
    hide Put32, Get32;
    RoundTrip32(|data|);
    if |partial| >= 4 {
      assert partial == Frame(data)[..|partial|];
      assert partial[..4] == Frame(data)[..4] == Put32(|data|);
    }
  }

  /** Frames one after the other. */
  ghost function Stream(ds: seq<seq<byte>>): seq<byte>
    decreases |ds|
  {
    if ds == [] then [] else Stream(ds[..|ds| - 1]) + Frame(ds[|ds| - 1])
  }

  lemma StreamSnoc(ds: seq<seq<byte>>, d: seq<byte>)
    ensures Stream(ds + [d]) == Stream(ds) + Frame(d)
  {
    assert (ds + [d])[..|ds|] == ds;
  }

  lemma {:induction false} StreamCons(d: seq<byte>, ds: seq<seq<byte>>)
    ensures Stream([d] + ds) == Frame(d) + Stream(ds)
    decreases |ds|
  {
    hide Frame;
    if ds == [] {
      assert [d] + ds == [] + [d];
      StreamSnoc([], d);
    } else {
      var n := |ds| - 1;
      StreamCons(d, ds[..n]);
      StreamSnoc([d] + ds[..n], ds[n]);
      assert [d] + ds == [d] + ds[..n] + [ds[n]];
    }
  }
}

module Connections {
  import opened Bytes
  import opened Frames
  import opened Messages
  import opened Readers

  class Connection {
    const reader: Reader
    var buffered: seq<byte>   // in the bufio.Writer
    var sent: seq<byte>       // handed to the socket
    var closed: bool

    ghost predicate Valid()
      reads this, reader
    {
      reader.Valid()
    }

    constructor (reader: Reader)
      requires reader.Valid()
      ensures Valid() && this.reader == reader && buffered == [] && sent == [] && !closed
    {
      this.reader := reader;
      buffered, sent, closed := [], [], false;
    }

    /** One frame, flushed at once; a closed connection sends nothing. */
    method WriteMessage(data: seq<byte>) returns (ok: bool)
      modifies `buffered, `sent
      ensures ok == !closed
      ensures ok ==> buffered == [] && sent == old(sent) + old(buffered) + Frame(data)
      ensures !ok ==> buffered == old(buffered) && sent == old(sent)
    {
      if closed {
        return false;
      }
      var lengthBuf := new byte[4];
      PutUint32(lengthBuf, 0, |data| % U32);
      assert lengthBuf[..4] == lengthBuf[..];
      buffered := buffered + lengthBuf[..];
      buffered := buffered + data;
      assert buffered == old(buffered) + Frame(data);
      Flush();
      return true;
    }

    method Flush()
      modifies `buffered, `sent
      ensures buffered == [] && sent == old(sent) + old(buffered)
    {
      sent := sent + buffered;
      buffered := [];
    }

    /** Closing twice is harmless; what was buffered is still flushed. */
    method Close()
      modifies `buffered, `sent, `closed
      ensures closed && sent == if old(closed) then old(sent) else old(sent) + old(buffered)
    {
      if closed {
        return;
      }
      closed := true;
      Flush();
    }

    /** Reads one frame, however the bytes arrive. */
    method ReadMessage() returns (r: FrameResult)
      requires Valid()
      modifies reader
      ensures Valid() && r == if closed then NoData(Closed) else FirstFrame(old(reader.Rest()))
      ensures r.Data? ==> reader.Rest() == old(reader.Rest())[4 + |r.data|..]
    {
      if closed {
        return NoData(Closed);
      }
      ghost var all := reader.Rest();
      var lengthBuf := new byte[4];
      var ok := reader.ReadFull(lengthBuf);
      if !ok {
        return NoData(LengthMissing);
      }
      var length := Get32(lengthBuf[..]);
      if length > MAX_FRAME {
        return NoData(TooLarge);
      }
      if length == 0 {
        return NoData(ZeroLength);
      }
      var payload := new byte[length];
      ok := reader.ReadFull(payload);
      if !ok {
        return NoData(DataMissing);
      }
      assert all[4..][..length] == all[4..4 + length] && all[4..][length..] == all[4 + length..];
      r := Data(payload[..]);
    }
  }

  /** What the read loop hands to the message handlers: every frame that decodes, until one cannot be read. */
  ghost function Handled(s: seq<byte>, crc: Crc): seq<Message>
    decreases |s|
  {
    match FirstFrame(s)
    case NoData(_) => []
    case Data(data) =>
      (match Decoded(data, crc)
       case Ok(m) => [m]
       case Err(_) => [])
      + Handled(s[4 + |data|..], crc)
  }

  lemma HandledStep(s: seq<byte>, crc: Crc)
    ensures FirstFrame(s).NoData? ==> Handled(s, crc) == []
    ensures FirstFrame(s).Data? ==>
              var data := FirstFrame(s).data;
              Handled(s, crc) == (if Decoded(data, crc).Ok? then [Decoded(data, crc).msg] else []) + Handled(s[4 + |data|..], crc)
  {
  }

  /** Decodes a frame from a reader over its bytes. */
  method DecodeFrame(data: seq<byte>, crc: Crc) returns (result: DecodeResult)
    ensures result == Decoded(data, crc)
  {
    var r := new Reader(data, true);
    result := Decode(r, crc);
  }

  method ReadLoop(c: Connection, crc: Crc) returns (handled: seq<Message>)
    requires c.Valid() && !c.closed
    modifies c.reader
    ensures c.Valid() && handled == Handled(old(c.reader.Rest()), crc)
  {
    hide Handled, FirstFrame, Decoded;
    handled := [];
    ghost var all := c.reader.Rest();
    while true
      invariant c.Valid() && Handled(all, crc) == handled + Handled(c.reader.Rest(), crc)
      decreases |c.reader.Rest()|
    {
      HandledStep(c.reader.Rest(), crc);
      var frame := c.ReadMessage();
      if frame.NoData? {
        return;
      }
      ghost var rest := c.reader.Rest();
      var decoded := DecodeFrame(frame.data, crc);
      if decoded.Ok? {
        handled := handled + [decoded.msg];
      }
    }
  }

  /** A message whose frame ReadMessage accepts. */
  predicate Sendable(m: Message, crc: Crc) {
    m.checksum == crc(m.payload) && |m.payload| <= MAX_FRAME - HEADER_SIZE
  }

  ghost function EncodedAll(ms: seq<Message>): (r: seq<seq<byte>>)
    ensures |r| == |ms| && forall i :: 0 <= i < |ms| ==> r[i] == Encoded(ms[i])
  {
    seq(|ms|, i requires 0 <= i < |ms| => Encoded(ms[i]))
  }

  /** Frames of sendable messages followed by bytes that hold no whole frame: exactly the messages, in order. */
  lemma {:induction false} HandledAre(ms: seq<Message>, partial: seq<byte>, crc: Crc)
    requires (forall i :: 0 <= i < |ms| ==> Sendable(ms[i], crc)) && FirstFrame(partial).NoData?
    ensures Handled(Stream(EncodedAll(ms)) + partial, crc) == ms
    decreases |ms|
  {
    hide Frame, FirstFrame, Decoded, Encoded, Stream;
    if ms == [] {
      EmptyStream();
      assert EncodedAll(ms) == [];
      assert Stream([]) + partial == partial;
    } else {
      var m, rest := ms[0], ms[1..];
      var d := Encoded(m);
      assert EncodedAll(ms) == [d] + EncodedAll(rest);
      StreamCons(d, EncodedAll(rest));
      var s := Stream(EncodedAll(ms)) + partial;
      var tail := Stream(EncodedAll(rest)) + partial;
      assert s == Frame(d) + tail;
      EncodedSize(m);
      FirstFrameInverts(s, d);
      DecodeInverts(d, crc, m);
      assert s[4 + |d|..] == tail;
      HandledAre(rest, partial, crc);
      assert ms == [m] + rest;
    }
  }

  /** The messages among these frames' contents, in order. */
  ghost function Decodable(ds: seq<seq<byte>>, crc: Crc): seq<Message> {
    if ds == [] then []
    else (if Decoded(ds[0], crc).Ok? then [Decoded(ds[0], crc).msg] else []) + Decodable(ds[1..], crc)
  }

  /** A frame that does not decode is passed over: what is handled of any frames is what decodes of them. */
  lemma {:induction false} HandledOfFrames(ds: seq<seq<byte>>, partial: seq<byte>, crc: Crc)
    requires (forall i :: 0 <= i < |ds| ==> 0 < |ds[i]| <= MAX_FRAME) && FirstFrame(partial).NoData?
    ensures Handled(Stream(ds) + partial, crc) == Decodable(ds, crc)
    decreases |ds|
  {
    hide Frame, FirstFrame, Decoded, Stream;
    if ds == [] {
      EmptyStream();
      assert Stream([]) + partial == partial;
      HandledStep(partial, crc);
    } else {
      var d, rest := ds[0], ds[1..];
      assert ds == [d] + rest;
      StreamCons(d, rest);
      var s := Stream(ds) + partial;
      var tail := Stream(rest) + partial;
      assert s == Frame(d) + tail;
      FirstFrameInverts(s, d);
      HandledStep(s, crc);
      assert s[4 + |d|..] == tail;
      HandledOfFrames(rest, partial, crc);
    }
  }

  /** A valid message whose frame exceeds the frame limit can be written, and is refused by the reader. */
  lemma LargestAreRefused(m: Message, crc: Crc, rest: seq<byte>)
    requires m.Valid(crc)
    ensures !Sendable(m, crc) <==> FirstFrame(Frame(Encoded(m)) + rest) == NoData(TooLarge)
    ensures !Sendable(m, crc) <==> |m.payload| > 10_485_747
  {
    hide Put32, Get32, Encoded;
    EncodedSize(m);
    var n := |Encoded(m)|;
    RoundTrip32(n);
    assert (Frame(Encoded(m)) + rest)[..4] == Put32(n);
  }

  lemma EmptyStream()
    ensures Stream([]) == []
  {
  }

  lemma EncodedSize(m: Message)
    ensures |Encoded(m)| == HEADER_SIZE + |m.payload|
  {
  }
}
