/** The transaction's wire form and hash (pkg/mempool/tx.go); SHA-256 is a parameter. */
module TxCodec {
  import opened Bytes
  import opened Common
  import opened Transactions

  type Sha = seq<byte> -> bytes32

  const FIXED: nat := 76
  const MIN_SIZE: nat := 84
  const ZERO_TIME: int := 0

  /** Conversions between int64 and uint64 keep the bits. */
  function ToUint64(t: int64): uint64 {
    if t < 0 then t + U64 else t
  }

  function ToInt64(u: uint64): int64 {
    if u >= 0x8000_0000_0000_0000 then u - U64 else u
  }

  /** The fields of fixed size that come first, on the wire and in the hash. */
  ghost function Front(t: Tx): (r: seq<byte>)
    ensures |r| == 72
  {
    t.from + t.to + Put64(t.value) + Put64(t.nonce) + Put64(t.gasPrice) + Put64(t.gasLimit)
  }

  ghost function Encoded(t: Tx): (r: seq<byte>)
    ensures |r| == MIN_SIZE + |t.data|
  {
    Front(t) + Put32(|t.data| % U32) + t.data + Put64(ToUint64(t.timestamp))
  }

  method Encode(t: Tx) returns (buf: array<byte>)
    ensures fresh(buf) && buf[..] == Encoded(t)
  {
    hide Put64, Put32;
    buf := new byte[20 + 20 + 8 + 8 + 8 + 8 + 4 + |t.data| + 8];
    FillFront(buf, t);
    var offset := 72;
    PutUint32(buf, offset, |t.data| % U32);
    offset := offset + 4;
    Copy(buf, offset, t.data);
    offset := offset + |t.data|;
    PutUint64(buf, offset, ToUint64(t.timestamp));
    assert buf[..offset + 8] == buf[..];
  }

  method FillFront(buf: array<byte>, t: Tx)
    requires buf.Length >= 72
    modifies buf
    ensures buf[..72] == Front(t)
  {
    hide Put64;
    var offset := 0;
    Copy(buf, offset, t.from);
    offset := offset + 20;
    Copy(buf, offset, t.to);
    offset := offset + 20;
    PutUint64(buf, offset, t.value);
    offset := offset + 8;
    PutUint64(buf, offset, t.nonce);
    offset := offset + 8;
    PutUint64(buf, offset, t.gasPrice);
    offset := offset + 8;
    PutUint64(buf, offset, t.gasLimit);
  }

  /** What is hashed: every field but the length of the data, one after the other. */
  ghost function Preimage(t: Tx): seq<byte> {
    Front(t) + t.data + Put64(ToUint64(t.timestamp))
  }

  /** It is the encoding without the length of the data. */
  lemma PreimageIsEncoding(t: Tx)
    ensures Preimage(t) == Encoded(t)[..72] + Encoded(t)[76..]
  {
    hide Put64, Put32, Front;
    assert Encoded(t)[..72] == Front(t);
    assert Encoded(t)[76..] == t.data + Put64(ToUint64(t.timestamp));
  }

  /** Writes the fields to the hasher through one eight-byte buffer. */
  method ComputeHash(t: Tx, sha: Sha) returns (hash: Hash)
    ensures hash == sha(Preimage(t))
  {
    hide Put64;
    var hasher := t.from + t.to;
    var buf := new byte[8];
    PutUint64(buf, 0, t.value);
    assert buf[..8] == buf[..];
    hasher := hasher + buf[..];
    PutUint64(buf, 0, t.nonce);
    assert buf[..8] == buf[..];
    hasher := hasher + buf[..];
    PutUint64(buf, 0, t.gasPrice);
    assert buf[..8] == buf[..];
    hasher := hasher + buf[..];
    PutUint64(buf, 0, t.gasLimit);
    assert buf[..8] == buf[..];
    hasher := hasher + buf[..] + t.data;
    PutUint64(buf, 0, ToUint64(t.timestamp));
    assert buf[..8] == buf[..];
    hasher := hasher + buf[..];
    assert hasher == Preimage(t);
    hash := sha(hasher);
  }

  /** What decoding makes of the bytes; the hash is computed from the fields read. */
  ghost function Parse(s: seq<byte>, sha: Sha): Option<Tx> {
    if |s| < MIN_SIZE || |s| < FIXED + Get32(s[72..76]) + 8 then None
    else Some(Hashed(Fields(s), sha))
  }

  ghost function Fields(s: seq<byte>): Tx
    requires |s| >= MIN_SIZE && |s| >= FIXED + Get32(s[72..76]) + 8
  {
    var n := FIXED + Get32(s[72..76]);
    Tx(seq(32, _ => 0), s[..20], s[20..40], Get64(s[40..48]), Get64(s[48..56]), Get64(s[56..64]), Get64(s[64..72]),
       s[76..n], ToInt64(Get64(s[n..n + 8])), ZERO_TIME)
  }

  ghost function Hashed(t: Tx, sha: Sha): Tx {
    t.(hash := sha(Preimage(t)))
  }

  method Decode(data: seq<byte>, sha: Sha) returns (r: Option<Tx>)
    ensures r == Parse(data, sha)
  {
    hide Get64, Get32, Preimage, ToInt64;
    if |data| < 84 {
      return None;
    }
    var offset := 0;
    var from := data[offset..offset + 20];
    offset := offset + 20;
    var to := data[offset..offset + 20];
    offset := offset + 20;
    var value := Get64(data[offset..offset + 8]);
    offset := offset + 8;
    var nonce := Get64(data[offset..offset + 8]);
    offset := offset + 8;
    var gasPrice := Get64(data[offset..offset + 8]);
    offset := offset + 8;
    var gasLimit := Get64(data[offset..offset + 8]);
    offset := offset + 8;
    var dataLen := Get32(data[offset..offset + 4]);
    offset := offset + 4;
    if |data| < offset + dataLen + 8 {
      return None;
    }
    var payload := data[offset..offset + dataLen];
    offset := offset + dataLen;
    var timestamp := ToInt64(Get64(data[offset..offset + 8]));
    var tx := Tx(seq(32, _ => 0), from, to, value, nonce, gasPrice, gasLimit, payload, timestamp, ZERO_TIME);
    var hash := ComputeHash(tx, sha);
    r := Some(tx.(hash := hash));
  }

  /** A transaction as a decoder leaves it: its hash computed, its receipt not yet stamped. */
  ghost predicate Canonical(t: Tx, sha: Sha) {
    |t.data| < U32 && t.hash == sha(Preimage(t)) && t.receivedAt == ZERO_TIME
  }

  lemma FrontFields(s: seq<byte>, t: Tx)
    requires |s| >= 72
    ensures s[..72] == Front(t) <==>
            && s[..20] == t.from && s[20..40] == t.to && Get64(s[40..48]) == t.value && Get64(s[48..56]) == t.nonce
            && Get64(s[56..64]) == t.gasPrice && Get64(s[64..72]) == t.gasLimit
  {
    hide Put64, Get64;
    Unique64(s[40..48]);
    Unique64(s[48..56]);
    Unique64(s[56..64]);
    Unique64(s[64..72]);
    assert s[..72] == s[..20] + s[20..40] + s[40..48] + s[48..56] + s[56..64] + s[64..72];
    RoundTrip64(t.value);
    RoundTrip64(t.nonce);
    RoundTrip64(t.gasPrice);
    RoundTrip64(t.gasLimit);
    var f := Front(t);
    assert f[..20] == t.from && f[20..40] == t.to && f[40..48] == Put64(t.value) && f[48..56] == Put64(t.nonce);
    assert f[56..64] == Put64(t.gasPrice) && f[64..72] == Put64(t.gasLimit);
    if s[..72] == f {
      assert s[..20] == f[..20] && s[20..40] == f[20..40] && s[40..48] == f[40..48] && s[48..56] == f[48..56];
      assert s[56..64] == f[56..64] && s[64..72] == f[64..72];
    }
  }

  lemma TailFields(s: seq<byte>, t: Tx)
    requires |s| >= 76 && |t.data| < U32
    ensures Put32(|t.data|) + t.data + Put64(ToUint64(t.timestamp)) <= s[72..] <==>
            && Get32(s[72..76]) == |t.data| && |s| >= MIN_SIZE + |t.data| && s[76..76 + |t.data|] == t.data
            && ToInt64(Get64(s[76 + |t.data|..MIN_SIZE + |t.data|])) == t.timestamp
  {
    hide Put64, Put32, Get64, Get32;
    var len, d, ts, r := Put32(|t.data|), t.data, Put64(ToUint64(t.timestamp)), s[72..];
    Unique32(s[72..76]);
    RoundTrip32(|t.data|);
    RoundTrip64(ToUint64(t.timestamp));
    assert len + d + ts == len + (d + ts);
    PrefixSplit(len, d + ts, r);
    PrefixSplit(d, ts, r[4..]);
    assert r[..4] == s[72..76] && r[4..] == s[76..];
    if |s| >= MIN_SIZE + |d| {
      assert s[76..][..|d|] == s[76..76 + |d|] && s[76..][|d|..] == s[76 + |d|..];
      assert s[76 + |d|..][..8] == s[76 + |d|..MIN_SIZE + |d|];
      Unique64(s[76 + |d|..MIN_SIZE + |d|]);
      assert ts <= s[76 + |d|..] <==> s[76 + |d|..][..8] == ts;
    }
  }

  /** Decoding is the inverse of encoding: it yields exactly the canonical transaction the bytes start with. */
  lemma ParseInverts(s: seq<byte>, sha: Sha, t: Tx)
    ensures Parse(s, sha) == Some(t) <==> Canonical(t, sha) && Encoded(t) <= s
  {
    hide Put64, Put32, Get64, Get32, Front;
    if |t.data| < U32 {
      var tail := Put32(|t.data|) + t.data + Put64(ToUint64(t.timestamp));
      assert Encoded(t) == Front(t) + tail;
      PrefixSplit(Front(t), tail, s);
      if |s| >= 76 {
        FrontFields(s, t);
        TailFields(s, t);
        if Parse(s, sha) == Some(t) || (Canonical(t, sha) && Encoded(t) <= s) {
          SameHash(Fields(s), t);
        }
      }
    }
  }

  /** The hash covers neither itself nor the receipt time. */
  lemma SameHash(t: Tx, u: Tx)
    requires t.from == u.from && t.to == u.to && t.value == u.value && t.nonce == u.nonce && t.gasPrice == u.gasPrice
    requires t.gasLimit == u.gasLimit && t.data == u.data && t.timestamp == u.timestamp
    ensures Preimage(t) == Preimage(u)
  {
  }

  /** Whatever follows, a transaction comes back, rehashed and unstamped, exactly when its data length fits 32 bits. */
  lemma TxRoundTrip(t: Tx, sha: Sha, rest: seq<byte>)
    ensures var t' := t.(hash := sha(Preimage(t)), receivedAt := ZERO_TIME);
            Parse(Encoded(t) + rest, sha) == Some(t') <==> |t.data| < U32
  {
    var t' := t.(hash := sha(Preimage(t)), receivedAt := ZERO_TIME);
    SameHash(t, t');
    ParseInverts(Encoded(t) + rest, sha, t');
    assert Encoded(t') == Encoded(t);
  }

  /** Although the data length is not hashed, two transactions have the same preimage only if they agree on every hashed field. */
  lemma PreimageDetermines(t: Tx, u: Tx)
    requires Preimage(t) == Preimage(u)
    ensures t.from == u.from && t.to == u.to && t.value == u.value && t.nonce == u.nonce && t.gasPrice == u.gasPrice
    ensures t.gasLimit == u.gasLimit && t.data == u.data && t.timestamp == u.timestamp
  {
    hide Put64, Get64, Front;
    var p, n := Preimage(t), |t.data|;
    assert p[..72] == Front(t) && p[..72] == Front(u);
    FrontFields(p, t);
    FrontFields(p, u);
    assert p[72..72 + n] == t.data && p[72..72 + n] == u.data;
    assert p[72 + n..] == Put64(ToUint64(t.timestamp)) && p[72 + n..] == Put64(ToUint64(u.timestamp));
    RoundTrip64(ToUint64(t.timestamp));
    RoundTrip64(ToUint64(u.timestamp));
  }
}
