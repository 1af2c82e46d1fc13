/** Bits of natural numbers, for the mask and rounding tricks of pkg/ds/lockfree/hashmap.go. */
module BitOps {

  function Pow2(k: nat): (p: nat)
    ensures p > 0
  {
    if k == 0 then 1 else 2 * Pow2(k - 1)
  }

  predicate Bit(n: nat, i: nat)
    decreases i
  {
    if i == 0 then n % 2 == 1 else Bit(n / 2, i - 1)
  }

  /** `n >> m` */
  function Shr(n: nat, m: nat): nat
    decreases m
  {
    if m == 0 then n else Shr(n / 2, m - 1)
  }

  /** `a & b` */
  function And(a: nat, b: nat): nat {
    if a == 0 || b == 0 then 0
    else 2 * And(a / 2, b / 2) + (if a % 2 == 1 && b % 2 == 1 then 1 else 0)
  }

  /** `a | b` */
  function Or(a: nat, b: nat): nat
    decreases a + b
  {
    if a == 0 && b == 0 then 0
    else 2 * Or(a / 2, b / 2) + (if a % 2 == 1 || b % 2 == 1 then 1 else 0)
  }

  lemma {:induction false} BitOfZero(i: nat)
    ensures !Bit(0, i)
    decreases i
  {
    if i > 0 {
      BitOfZero(i - 1);
    }
  }

  lemma {:induction false} BitOfAnd(a: nat, b: nat, i: nat)
    ensures Bit(And(a, b), i) <==> Bit(a, i) && Bit(b, i)
    decreases i
  {
    if a == 0 || b == 0 {
      BitOfZero(i);
    } else if i > 0 {
      BitOfAnd(a / 2, b / 2, i - 1);
    }
  }

  lemma {:induction false} BitOfOr(a: nat, b: nat, i: nat)
    ensures Bit(Or(a, b), i) <==> Bit(a, i) || Bit(b, i)
    decreases i
  {
    if a == 0 && b == 0 {
      BitOfZero(i);
    } else if i > 0 {
      BitOfOr(a / 2, b / 2, i - 1);
    }
  }

  lemma {:induction false} BitOfShr(n: nat, m: nat, i: nat)
    ensures Bit(Shr(n, m), i) <==> Bit(n, i + m)
    decreases m
  {
    if m > 0 {
      BitOfShr(n / 2, m - 1, i);
    }
  }

  /** A number is determined by its bits. */
  lemma {:induction false} BitsDetermine(a: nat, b: nat)
    requires forall i: nat :: Bit(a, i) <==> Bit(b, i)
    ensures a == b
    decreases a + b
  {
    if a != 0 || b != 0 {
      assert Bit(a, 0) <==> Bit(b, 0);
      forall i: nat ensures Bit(a / 2, i) <==> Bit(b / 2, i) {
        assert Bit(a, i + 1) <==> Bit(b, i + 1);
      }
      BitsDetermine(a / 2, b / 2);
    }
  }

  lemma {:induction false} HighBitsZero(n: nat, k: nat, i: nat)
    requires n < Pow2(k) && k <= i
    ensures !Bit(n, i)
    decreases i
  {
    if k == 0 {
      BitOfZero(i);
    } else {
      HighBitsZero(n / 2, k - 1, i - 1);
    }
  }

  lemma {:induction false} BitOfMask(k: nat, i: nat)
    ensures Bit(Pow2(k) - 1, i) <==> i < k
    decreases i
  {
    if k == 0 {
      BitOfZero(i);
    } else {
      assert (Pow2(k) - 1) / 2 == Pow2(k - 1) - 1;
      if i > 0 {
        BitOfMask(k - 1, i - 1);
      }
    }
  }

  lemma {:induction false} BitOfRemainder(n: nat, k: nat, i: nat)
    ensures Bit(n % Pow2(k), i) <==> i < k && Bit(n, i)
    decreases k
  {
    if k == 0 {
      BitOfZero(i);
    } else {
      var p := Pow2(k - 1);
      RemainderHalves(n, p);
      if i > 0 {
        BitOfRemainder(n / 2, k - 1, i - 1);
      }
    }
  }

  lemma RemainderHalves(n: nat, p: nat)
    requires p > 0
    ensures n % (2 * p) / 2 == n / 2 % p
    ensures n % (2 * p) % 2 == n % 2
  {
    var q, r := n / (2 * p), n % (2 * p);
    assert n == 2 * (q * p) + r;
    assert n / 2 == q * p + r / 2;
    assert r / 2 < p;
    Unique(n / 2, p, q, r / 2);
  }

  lemma Unique(n: nat, p: nat, q: nat, r: nat)
    requires p > 0 && n == q * p + r && r < p
    ensures n % p == r
  {
    var q', r' := n / p, n % p;
    assert n == q' * p + r';
    if q > q' {
      ProductStep(q', q, p);
    } else if q < q' {
      ProductStep(q, q', p);
    }
  }

  lemma {:induction false} ProductStep(a: nat, b: nat, p: nat)
    requires a < b
    ensures a * p + p <= b * p
  {
    assert b * p == (b - 1) * p + p;
    if a < b - 1 {
      ProductStep(a, b - 1, p);
    }
  }

  /** Masking with a power of two minus one is taking the remainder. */
  lemma MaskIsRemainder(n: nat, k: nat)
    ensures And(n, Pow2(k) - 1) == n % Pow2(k)
  {
    forall i: nat ensures Bit(And(n, Pow2(k) - 1), i) <==> Bit(n % Pow2(k), i) {
      BitOfAnd(n, Pow2(k) - 1, i);
      BitOfMask(k, i);
      BitOfRemainder(n, k, i);
    }
    BitsDetermine(And(n, Pow2(k) - 1), n % Pow2(k));
  }

  // ---------------------------------------------------------------------------------------
  // nextPowerOf2

  const U32 := 0x1_0000_0000

  function Smear(n: nat, m: nat): nat { Or(n, Shr(n, m)) }

  /** Smears by m, 2m, 4m, ... as long as the shift is below 32: the Go code's 1, 2, 4, 8, 16. */
  function SmearAll(n: nat, m: nat): nat
    requires m > 0
    decreases 32 - m
  {
    if m >= 32 then n else SmearAll(Smear(n, m), 2 * m)
  }

  /** `n + 1` on uint32 */
  function Increment(n: nat): nat {
    if n == U32 - 1 then 0 else n + 1
  }

  /** The Go function on uint32: `n--`, five smears, `n + 1` with wrap-around. */
  function NextPowerOf2(n: nat): nat
    requires n < U32
  {
    if n == 0 then 1 else Increment(SmearAll(n - 1, 1))
  }

  /** No bit at or above `len`, and the `ones` bits below it all set. */
  ghost predicate TopOnes(n: nat, len: nat, ones: nat) {
    && (forall i: nat :: i >= len ==> !Bit(n, i))
    && (forall i: nat :: i < len && len <= i + ones ==> Bit(n, i))
  }

  /** Smearing by `m` doubles a run of `m` leading ones. */
  lemma SmearDoubles(n: nat, len: nat, m: nat)
    requires TopOnes(n, len, m)
    ensures TopOnes(Smear(n, m), len, 2 * m)
  {
    forall i: nat ensures Bit(Smear(n, m), i) <==> Bit(n, i) || Bit(n, i + m) {
      BitOfOr(n, Shr(n, m), i);
      BitOfShr(n, m, i);
    }
    forall i: nat | i >= len ensures !Bit(Smear(n, m), i) {
      assert !Bit(n, i + m);
    }
    forall i: nat | i < len && len <= i + 2 * m ensures Bit(Smear(n, m), i) {
      assert Bit(Smear(n, m), i) <==> Bit(n, i) || Bit(n, i + m);
      if len > i + m {
        assert Bit(n, i + m);
      } else {
        assert Bit(n, i);
      }
    }
  }

  /** The number of significant bits. */
  function BitLength(n: nat): (len: nat)
    ensures n < Pow2(len)
    ensures n > 0 ==> len > 0 && Pow2(len - 1) <= n
  {
    if n == 0 then 0 else BitLength(n / 2) + 1
  }

  lemma {:induction false} TopBit(n: nat)
    requires n > 0
    ensures Bit(n, BitLength(n) - 1)
  {
    if n > 1 {
      TopBit(n / 2);
    }
  }

  lemma {:induction false} Pow2Grows(j: nat, k: nat)
    requires j <= k
    ensures Pow2(j) <= Pow2(k)
  {
    if j < k {
      Pow2Grows(j, k - 1);
    }
  }

  lemma Pow2Of32()
    ensures Pow2(32) == U32 && Pow2(31) == 0x8000_0000
  {
    assert Pow2(8) == 0x100;
    assert Pow2(16) == 0x1_0000;
    assert Pow2(24) == 0x100_0000;
  }

  lemma {:induction false} SmearAllTopOnes(n: nat, len: nat, m: nat)
    requires m > 0 && TopOnes(n, len, m)
    ensures TopOnes(SmearAll(n, m), len, 32)
    decreases 32 - m
  {
    if m < 32 {
      SmearDoubles(n, len, m);
      SmearAllTopOnes(Smear(n, m), len, 2 * m);
    }
  }

  /** The doublings reach 32 bits, so what is left is all ones. */
  lemma SmearFills(n: nat)
    requires n < U32
    ensures SmearAll(n, 1) == Pow2(BitLength(n)) - 1
  {
    var len := BitLength(n);
    BitLengthUpTo32(n);
    forall i: nat | i >= len ensures !Bit(n, i) {
      HighBitsZero(n, len, i);
    }
    if n > 0 {
      TopBit(n);
    }
    SmearAllTopOnes(n, len, 1);
    var e := SmearAll(n, 1);
    forall i: nat ensures Bit(e, i) <==> Bit(Pow2(len) - 1, i) {
      BitOfMask(len, i);
    }
    BitsDetermine(e, Pow2(len) - 1);
  }

  lemma BitLengthUpTo32(n: nat)
    requires n < U32
    ensures BitLength(n) <= 32
  {
    Pow2Of32();
    if BitLength(n) > 32 {
      Pow2Grows(32, BitLength(n) - 1);
    }
  }

  lemma NextPowerOf2IsRounded(n: nat)
    requires 1 <= n < U32
    ensures NextPowerOf2(n) == Increment(Pow2(BitLength(n - 1)) - 1)
  {
    SmearFills(n - 1);
  }

  lemma BitLengthUpTo31(n: nat)
    requires n < 0x8000_0000
    ensures BitLength(n) <= 31 && Pow2(BitLength(n)) <= 0x8000_0000
  {
    Pow2Of32();
    var k := BitLength(n);
    if k > 31 {
      Pow2Grows(31, k - 1);
    } else {
      Pow2Grows(k, 31);
    }
  }

  /** For 1 <= n <= 2^31 the result is the least power of two that is at least n. */
  lemma NextPowerOf2IsLeast(n: nat) returns (k: nat)
    requires 1 <= n <= 0x8000_0000
    ensures k <= 31 && NextPowerOf2(n) == Pow2(k)
    ensures n <= Pow2(k) < 2 * n && (k > 0 ==> Pow2(k - 1) < n)
  {
    k := BitLength(n - 1);
    BitLengthUpTo31(n - 1);
    NextPowerOf2IsRounded(n);
  }

  /** Above 2^31 the 32-bit result wraps to zero, and only there. */
  lemma NextPowerOf2Wraps(n: nat)
    requires n < U32
    ensures NextPowerOf2(n) == 0 <==> n > 0x8000_0000
  {
    if 1 <= n <= 0x8000_0000 {
      var k := NextPowerOf2IsLeast(n);
    } else if n > 0 {
      NextPowerOf2IsRounded(n);
      BitLengthIs32(n - 1);
    }
  }

  lemma BitLengthIs32(n: nat)
    requires 0x8000_0000 <= n < U32
    ensures Pow2(BitLength(n)) == U32
  {
    Pow2Of32();
    var k := BitLength(n);
    if k > 32 {
      Pow2Grows(32, k - 1);
    } else if k < 32 {
      Pow2Grows(k, 31);
    }
  }
}
