/**
 Big-endian integers in byte buffers, as encoding/binary writes and reads them.  Integers are
 unbounded here, so every width is written out.
 */
module Bytes {
  type byte = x: int | 0 <= x < 0x100

  const U16: nat := 0x1_0000
  const U32: nat := 0x1_0000_0000
  const U64: nat := 0x1_0000_0000_0000_0000

  type uint16 = x: int | 0 <= x < 0x1_0000
  type uint32 = x: int | 0 <= x < 0x1_0000_0000
  type uint64 = x: int | 0 <= x < 0x1_0000_0000_0000_0000

  type int64 = x: int | -0x8000_0000_0000_0000 <= x < 0x8000_0000_0000_0000

  /** The arrays `[16]byte`, `[20]byte` and `[32]byte`. */
  type bytes16 = s: seq<byte> | |s| == 16 witness seq(16, _ => 0)
  type bytes20 = s: seq<byte> | |s| == 20 witness seq(20, _ => 0)
  type bytes32 = s: seq<byte> | |s| == 32 witness seq(32, _ => 0)

  function Put16(x: nat): (r: seq<byte>)
    requires x < U16
    ensures |r| == 2
  {
    [x / 0x100, x % 0x100]
  }

  function Put32(x: nat): (r: seq<byte>)
    requires x < U32
    ensures |r| == 4
  {
    Put16(x / U16) + Put16(x % U16)
  }

  function Put64(x: nat): (r: seq<byte>)
    requires x < U64
    ensures |r| == 8
  {
    Put32(x / U32) + Put32(x % U32)
  }

  function Get16(s: seq<byte>): (x: nat)
    requires |s| == 2
    ensures x < U16
  {
    s[0] as int * 0x100 + s[1] as int
  }

  function Get32(s: seq<byte>): (x: nat)
    requires |s| == 4
    ensures x < U32
  {
    Get16(s[..2]) * U16 + Get16(s[2..])
  }

  function Get64(s: seq<byte>): (x: nat)
    requires |s| == 8
    ensures x < U64
  {
    Get32(s[..4]) * U32 + Get32(s[4..])
  }

  lemma RoundTrip16(x: nat)
    requires x < U16
    ensures Get16(Put16(x)) == x
  {
  }

  lemma RoundTrip32(x: nat)
    requires x < U32
    ensures Get32(Put32(x)) == x
  {
    var s := Put32(x);
    assert s[..2] == Put16(x / U16) && s[2..] == Put16(x % U16);
  }

  lemma RoundTrip64(x: nat)
    requires x < U64
    ensures Get64(Put64(x)) == x
  {
    hide Put32, Get32;
    var s := Put64(x);
    assert s[..4] == Put32(x / U32) && s[4..] == Put32(x % U32);
    RoundTrip32(x / U32);
    RoundTrip32(x % U32);
  }

  lemma Unique16(s: seq<byte>)
    requires |s| == 2
    ensures Put16(Get16(s)) == s
  {
  }

  lemma Unique32(s: seq<byte>)
    requires |s| == 4
    ensures Put32(Get32(s)) == s
  {
    hide Put16, Get16;
    Unique16(s[..2]);
    Unique16(s[2..]);
    assert s == s[..2] + s[2..];
  }

  lemma Unique64(s: seq<byte>)
    requires |s| == 8
    ensures Put64(Get64(s)) == s
  {
    hide Put32, Get32;
    Unique32(s[..4]);
    Unique32(s[4..]);
    assert s == s[..4] + s[4..];
  }

  /** Starting with a concatenation is starting with its first part and going on with its second. */
  lemma PrefixSplit(a: seq<byte>, b: seq<byte>, s: seq<byte>)
    ensures a + b <= s <==> |s| >= |a| && s[..|a|] == a && b <= s[|a|..]
  {
    if a + b <= s {
      assert s[..|a|] == (a + b)[..|a|] && (a + b)[|a|..] == s[|a|..][..|b|];
    }
    if |s| >= |a| && s[..|a|] == a && b <= s[|a|..] {
      assert s == s[..|a|] + s[|a|..];
    }
  }

  /** Where a field stands in anything that starts with an encoding. */
  lemma FieldAt(pre: seq<byte>, field: seq<byte>, post: seq<byte>, data: seq<byte>)
    requires pre + field + post <= data
    ensures |data| >= |pre| + |field| && data[|pre|..|pre| + |field|] == field
  {
    var whole := pre + field + post;
    assert data[..|whole|] == whole;
    assert whole[|pre|..|pre| + |field|] == field;
    assert data[|pre|..|pre| + |field|] == data[..|whole|][|pre|..|pre| + |field|];
  }

  /** `copy(buf[offset:], s)` where there is room for all of it. */
  method Copy(buf: array<byte>, offset: nat, s: seq<byte>)
    requires offset + |s| <= buf.Length
    modifies buf
    ensures buf[..offset + |s|] == old(buf[..offset]) + s
  {
    for i := 0 to |s|
      invariant buf[..offset] == old(buf[..offset])
      invariant forall k :: 0 <= k < i ==> buf[offset + k] == s[k]
    {
      buf[offset + i] := s[i];
    }
  }

  method PutUint16(buf: array<byte>, offset: nat, x: uint16)
    requires offset + 2 <= buf.Length
    modifies buf
    ensures buf[..offset + 2] == old(buf[..offset]) + Put16(x)
  {
    buf[offset] := x / 0x100;
    buf[offset + 1] := x % 0x100;
    assert buf[..offset] == old(buf[..offset]);
  }

  method PutUint32(buf: array<byte>, offset: nat, x: uint32)
    requires offset + 4 <= buf.Length
    modifies buf
    ensures buf[..offset + 4] == old(buf[..offset]) + Put32(x)
  {
    PutUint16(buf, offset, x / U16);
    PutUint16(buf, offset + 2, x % U16);
  }

  method PutUint64(buf: array<byte>, offset: nat, x: uint64)
    requires offset + 8 <= buf.Length
    modifies buf
    ensures buf[..offset + 8] == old(buf[..offset]) + Put64(x)
  {
    PutUint32(buf, offset, x / U32);
    PutUint32(buf, offset + 4, x % U32);
  }
}
