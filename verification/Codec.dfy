/** Length-prefixed strings and byte slices (pkg/protocol/codec.go). */
module Strings {
  import opened Bytes

  /** A Go function's outcome; a slice expression out of range panics. */
  datatype Outcome<+T> = Ok(value: T) | Error | Panic

  ghost function EncodedString(s: seq<byte>): seq<byte> {
    Put16(|s| % U16) + s
  }

  /** What DecodeString makes of any bytes. */
  function ParseString(data: seq<byte>): Outcome<(seq<byte>, nat)> {
    if |data| < 2 then Error
    else
      var length := Get16(data[..2]);
      if length >= U16 - 2 then Panic
      else if |data| < 2 + length then Error
      else Ok((data[2..2 + length], 2 + length))
  }

  /** The sum `2 + length` is a uint16, so it wraps for the two largest lengths, and the slice ends before it begins. */
  method DecodeString(data: seq<byte>) returns (r: Outcome<(seq<byte>, nat)>)
    ensures r == ParseString(data)
  {
    if |data| < 2 {
      return Error;
    }
    var length := Get16(data[0..2]);
    var end := (2 + length) % U16;
    if |data| < end {
      return Error;
    }
    if end < 2 {
      return Panic;
    }
    return Ok((data[2..end], end));
  }

  method EncodeString(s: seq<byte>) returns (buf: array<byte>)
    ensures fresh(buf) && buf[..] == EncodedString(s)
  {
    buf := new byte[2 + |s|];
    PutUint16(buf, 0, |s| % U16);
    Copy(buf, 2, s);
    assert buf[..2 + |s|] == buf[..];
  }

  lemma StringFields(s: seq<byte>, rest: seq<byte>)
    ensures var data := EncodedString(s) + rest;
            |data| == 2 + |s| + |rest| && Get16(data[..2]) == |s| % U16 && data[2..2 + |s|] == s
  {
    var data := EncodedString(s) + rest;
    assert data[..2] == Put16(|s| % U16);
    RoundTrip16(|s| % U16);
  }

  /**
   Decoding is the inverse of encoding: bytes yield a string exactly when they start with its encoding
   and it has at most 65533 bytes, and panic exactly when the length field is one of the two largest.
   */
  lemma StringInverts(data: seq<byte>, s: seq<byte>, n: nat)
    ensures ParseString(data) == Ok((s, n)) <==> |s| <= 65533 && n == 2 + |s| && EncodedString(s) <= data
    ensures ParseString(data) == Panic <==> |data| >= 2 && Get16(data[..2]) >= 65534
  {
    hide Put16, Get16;
    PrefixSplit(Put16(|s| % U16), s, data);
    if ParseString(data) == Ok((s, n)) {
      Unique16(data[..2]);
      assert data[2..][..|s|] == s;
    }
    if |s| < U16 - 2 && EncodedString(s) <= data {
      var rest := data[2 + |s|..];
      assert data == EncodedString(s) + rest;
      StringFields(s, rest);
    }
  }

  /** Decoding undoes encoding, whatever follows, exactly for strings of at most 65533 bytes. */
  lemma StringRoundTrip(s: seq<byte>, rest: seq<byte>)
    ensures ParseString(EncodedString(s) + rest) == Ok((s, 2 + |s|)) <==> |s| <= 65533
    ensures 65534 <= |s| <= 65535 ==> ParseString(EncodedString(s) + rest) == Panic
  {
    StringFields(s, rest);
    hide EncodedString, Get16;
  }

  ghost function EncodedBytes(s: seq<byte>): seq<byte> {
    Put32(|s| % U32) + s
  }

  /** What DecodeBytes makes of any bytes. */
  function ParseBytes(data: seq<byte>): Outcome<(seq<byte>, nat)> {
    if |data| < 4 then Error
    else
      var length := Get32(data[..4]);
      if length >= U32 - 4 then Panic
      else if |data| < 4 + length then Error
      else Ok((data[4..4 + length], 4 + length))
  }

  /** Here `4 + length` wraps in 32 bits. */
  method DecodeBytes(data: seq<byte>) returns (r: Outcome<(seq<byte>, nat)>)
    ensures r == ParseBytes(data)
  {
    if |data| < 4 {
      return Error;
    }
    var length := Get32(data[0..4]);
    var end := (4 + length) % U32;
    if |data| < end {
      return Error;
    }
    if end < 4 {
      return Panic;
    }
    return Ok((data[4..end], end));
  }

  method EncodeBytes(s: seq<byte>) returns (buf: array<byte>)
    ensures fresh(buf) && buf[..] == EncodedBytes(s)
  {
    buf := new byte[4 + |s|];
    PutUint32(buf, 0, |s| % U32);
    Copy(buf, 4, s);
    assert buf[..4 + |s|] == buf[..];
  }

  lemma BytesFields(s: seq<byte>, rest: seq<byte>)
    ensures var data := EncodedBytes(s) + rest;
            |data| == 4 + |s| + |rest| && Get32(data[..4]) == |s| % U32 && data[4..4 + |s|] == s
  {
    hide Put32, Get32;
    var data := EncodedBytes(s) + rest;
    assert data[..4] == Put32(|s| % U32);
    RoundTrip32(|s| % U32);
  }

  lemma BytesInvert(data: seq<byte>, s: seq<byte>, n: nat)
    ensures ParseBytes(data) == Ok((s, n)) <==> |s| <= U32 - 5 && n == 4 + |s| && EncodedBytes(s) <= data
    ensures ParseBytes(data) == Panic <==> |data| >= 4 && Get32(data[..4]) >= U32 - 4
  {
    hide Put32, Get32;
    PrefixSplit(Put32(|s| % U32), s, data);
    if ParseBytes(data) == Ok((s, n)) {
      Unique32(data[..4]);
      assert data[4..][..|s|] == s;
    }
    if |s| < U32 - 4 && EncodedBytes(s) <= data {
      var rest := data[4 + |s|..];
      assert data == EncodedBytes(s) + rest;
      BytesFields(s, rest);
    }
  }

  /** The same for byte slices, below the point where `4 + length` wraps in 32 bits. */
  lemma BytesRoundTrip(s: seq<byte>, rest: seq<byte>)
    ensures ParseBytes(EncodedBytes(s) + rest) == Ok((s, 4 + |s|)) <==> |s| <= U32 - 5
    ensures U32 - 4 <= |s| < U32 ==> ParseBytes(EncodedBytes(s) + rest) == Panic
  {
    BytesFields(s, rest);
    hide EncodedBytes, Get32;
  }
}

/**
 Readers: the greedy one is node.go's `bytesReader`, which copies as much as fits; the other hands
 out the bytes in chunks of any size, as a network connection does.
 */
module Readers {
  import opened Bytes

  class Reader {
    const data: seq<byte>
    const greedy: bool
    var pos: nat

    ghost predicate Valid()
      reads this
    {
      pos <= |data|
    }

    ghost function Rest(): seq<byte>
      requires Valid()
      reads this
    {
      data[pos..]
    }

    constructor (data: seq<byte>, greedy: bool)
      ensures Valid() && Rest() == data && this.data == data && this.greedy == greedy
    {
      this.data, this.greedy, pos := data, greedy, 0;
    }

    /** Reads at least one byte and at most `max`, unless nothing is left. */
    method Read(max: nat) returns (chunk: seq<byte>, eof: bool)
      requires Valid() && max > 0
      modifies this
      ensures Valid() && old(Rest()) == chunk + Rest() && |chunk| <= max
      ensures eof <==> old(Rest()) == []
      ensures !eof ==> |chunk| > 0
      ensures greedy ==> |chunk| == if |old(Rest())| < max then |old(Rest())| else max
    {
      if pos >= |data| {
        return [], true;
      }
      var limit := if |data| - pos < max then |data| - pos else max;
      var n := limit;
      if !greedy {
        n :| 1 <= n <= limit;
      }
      chunk := data[pos..pos + n];
      eof := false;
      assert data[pos..] == chunk + data[pos + n..];
      pos := pos + n;
    }

    /** `io.ReadFull`: fills the buffer, or fails when the bytes run out. */
    method ReadFull(buf: array<byte>) returns (ok: bool)
      requires Valid()
      modifies this, buf
      ensures Valid() && ok == (|old(Rest())| >= buf.Length)
      ensures ok ==> buf[..] == old(Rest())[..buf.Length] && Rest() == old(Rest())[buf.Length..]
      ensures !ok ==> Rest() == []
    {
      var n := 0;
      ghost var all := Rest();
      while n < buf.Length
        invariant n <= buf.Length && n <= |all| && Valid()
        invariant buf[..n] == all[..n] && Rest() == all[n..]
      {
        var chunk, eof := Read(buf.Length - n);
        if eof {
          return false;
        }
        assert all[n..] == chunk + Rest();
        assert all[..n + |chunk|] == all[..n] + all[n..][..|chunk|];
        Copy(buf, n, chunk);
        n := n + |chunk|;
        assert Rest() == all[n - |chunk|..][|chunk|..];
      }
      assert buf[..n] == buf[..];
      return true;
    }
  }
}

/** Messages with their header (pkg/protocol/message.go, codec.go); CRC-32 is a parameter. */
module Messages {
  import opened Bytes
  import opened Readers

  const MAGIC: uint32 := 0x5032_5031
  const HEADER_SIZE: nat := 13
  const MAX_PAYLOAD: nat := 10 * 1024 * 1024

  type Crc = seq<byte> -> uint32

  datatype Message = Message(msgType: byte, payload: seq<byte>, checksum: uint32) {
    /** `Validate`: the size limit and the checksum. */
    predicate Valid(crc: Crc) {
      |payload| <= MAX_PAYLOAD && checksum == crc(payload)
    }
  }

  datatype DecodeError = HeaderRead | BadMagic | PayloadTooLarge | PayloadRead | BadChecksum

  datatype DecodeResult = Ok(msg: Message) | Err(error: DecodeError)

  ghost function Header(m: Message): (r: seq<byte>)
    ensures |r| == HEADER_SIZE
  {
    Put32(MAGIC) + [m.msgType] + Put32(|m.payload| % U32) + Put32(m.checksum)
  }

  ghost function Encoded(m: Message): seq<byte> {
    Header(m) + m.payload
  }

  /** `Message.Encode`: header and payload in one buffer. */
  method Encode(m: Message) returns (buf: array<byte>)
    ensures fresh(buf) && buf[..] == Encoded(m)
  {
    buf := new byte[HEADER_SIZE + |m.payload|];
    FillHeader(buf, m);
    Copy(buf, HEADER_SIZE, m.payload);
    assert buf[..HEADER_SIZE + |m.payload|] == buf[..];
  }

  method FillHeader(buf: array<byte>, m: Message)
    requires buf.Length >= HEADER_SIZE
    modifies buf
    ensures buf[..HEADER_SIZE] == Header(m)
  {
    hide Put32;
    PutUint32(buf, 0, MAGIC);
    Copy(buf, 4, [m.msgType]);
    PutUint32(buf, 5, |m.payload| % U32);
    PutUint32(buf, 9, m.checksum);
  }

  /** `Encoder`: what has been written to the underlying writer. */
  class Encoder {
    var written: seq<byte>

    constructor ()
      ensures written == []
    {
      written := [];
    }

    /** Writes the header and then, if there is one, the payload: the same bytes. */
    method Encode(m: Message)
      modifies this
      ensures written == old(written) + Encoded(m)
    {
      var header := new byte[HEADER_SIZE];
      FillHeader(header, m);
      assert header[..HEADER_SIZE] == header[..];
      written := written + header[..];
      if |m.payload| > 0 {
        written := written + m.payload;
      }
    }
  }

  /** What the decoder makes of the bytes it finds. */
  ghost function Decoded(s: seq<byte>, crc: Crc): DecodeResult {
    if |s| < HEADER_SIZE then Err(HeaderRead)
    else if Get32(s[..4]) != MAGIC then Err(BadMagic)
    else
      var length := Get32(s[5..9]);
      if length > MAX_PAYLOAD then Err(PayloadTooLarge)
      else if |s| < HEADER_SIZE + length then Err(PayloadRead)
      else
        var m := Message(s[4], s[HEADER_SIZE..HEADER_SIZE + length], Get32(s[9..13]));
        if m.Valid(crc) then Ok(m) else Err(BadChecksum)
  }

  /** Decodes one message from a reader, however the reader cuts the bytes up. */
  method Decode(r: Reader, crc: Crc) returns (result: DecodeResult)
    requires r.Valid()
    modifies r
    ensures r.Valid() && result == Decoded(old(r.Rest()), crc)
    ensures result.Ok? ==> r.Rest() == old(r.Rest())[HEADER_SIZE + |result.msg.payload|..]
  {
    ghost var all := r.Rest();
    var header := new byte[HEADER_SIZE];
    var ok := r.ReadFull(header);
    if !ok {
      return Err(HeaderRead);
    }
    var h := header[..];
    HeaderFields(all);
    if Get32(h[..4]) != MAGIC {
      return Err(BadMagic);
    }
    var length := Get32(h[5..9]);
    if length > MAX_PAYLOAD {
      return Err(PayloadTooLarge);
    }
    var payload: seq<byte> := [];
    if length > 0 {
      var buf := new byte[length];
      ok := r.ReadFull(buf);
      if !ok {
        return Err(PayloadRead);
      }
      payload := buf[..];
    }
    assert all[HEADER_SIZE..][..length] == all[HEADER_SIZE..HEADER_SIZE + length];
    assert all[HEADER_SIZE..][length..] == all[HEADER_SIZE + length..];
    var msg := Message(h[4], payload, Get32(h[9..13]));
    result := if msg.Valid(crc) then Ok(msg) else Err(BadChecksum);
  }

  lemma HeaderFields(s: seq<byte>)
    requires |s| >= HEADER_SIZE
    ensures var h := s[..HEADER_SIZE];
            h[..4] == s[..4] && h[4] == s[4] && h[5..9] == s[5..9] && h[9..13] == s[9..13]
  {
  }

  /** Decoding is the inverse of encoding: it yields a message exactly when the bytes start with its encoding. */
  lemma DecodeInverts(s: seq<byte>, crc: Crc, m: Message)
    ensures Decoded(s, crc) == Ok(m) <==> m.Valid(crc) && Encoded(m) <= s
  {
    if Decoded(s, crc) == Ok(m) {
      DecodedEncodes(s, crc, m);
    }
    if m.Valid(crc) && Encoded(m) <= s {
      EncodedDecodes(s, crc, m);
    }
  }

  lemma DecodedEncodes(s: seq<byte>, crc: Crc, m: Message)
    requires Decoded(s, crc) == Ok(m)
    ensures m.Valid(crc) && Encoded(m) <= s
  {
    hide Put32, Get32;
    Unique32(s[..4]);
    Unique32(s[5..9]);
    Unique32(s[9..13]);
    var n := HEADER_SIZE + |m.payload|;
    assert |m.payload| % U32 == |m.payload|;
    assert s[..n] == s[..4] + [s[4]] + s[5..9] + s[9..13] + s[13..n];
  }

  lemma EncodedDecodes(s: seq<byte>, crc: Crc, m: Message)
    requires m.Valid(crc) && Encoded(m) <= s
    ensures Decoded(s, crc) == Ok(m)
  {
    hide Put32, Get32;
    var magic, len, sum := Put32(MAGIC), Put32(|m.payload|), Put32(m.checksum);
    FieldAt([], magic, [m.msgType] + len + sum + m.payload, s) by {
      assert [] + magic + ([m.msgType] + len + sum + m.payload) == Encoded(m);
    }
    FieldAt(magic, [m.msgType], len + sum + m.payload, s) by {
      assert magic + [m.msgType] + (len + sum + m.payload) == Encoded(m);
    }
    FieldAt(magic + [m.msgType], len, sum + m.payload, s) by {
      assert magic + [m.msgType] + len + (sum + m.payload) == Encoded(m);
    }
    FieldAt(magic + [m.msgType] + len, sum, m.payload, s);
    FieldAt(Header(m), m.payload, [], s) by {
      assert Header(m) + m.payload + [] == Encoded(m);
    }
    RoundTrip32(MAGIC);
    RoundTrip32(|m.payload|);
    RoundTrip32(m.checksum);
    assert s[4] == s[4..5][0];
  }
}
