/**
 A transaction (pkg/mempool/tx.go) as far as the mempool ranks and checks it.  Times are
 nanoseconds; SHA-256 is a parameter wherever a hash is computed.
 */
module Transactions {
  import opened Bytes

  type Hash = bytes32
  type Address = bytes20

  const SECOND: nat := 1_000_000_000

  /** `timestamp` is what UnixNano reports; `receivedAt` is not part of the encoding or of the hash. */
  datatype Tx = Tx(hash: Hash, from: Address, to: Address, value: uint64, nonce: uint64, gasPrice: uint64,
                   gasLimit: uint64, data: seq<byte>, timestamp: int64, receivedAt: int)
  {
    /** The gas price plus one for every whole second of waiting. */
    function Worth(now: int): nat {
      gasPrice + if now > receivedAt then (now - receivedAt) / SECOND else 0
    }

    /** What is left of it in 64 bits. */
    function Priority(now: int): (p: nat)
      ensures p < U64
    {
      Worth(now) % U64
    }

    function Size(): nat {
      72 + |data| + 50
    }
  }

  const ZERO_ADDRESS: Address := seq(20, _ => 0)

  /** Received, and with a priority that still fits 64 bits. */
  ghost predicate Fits(t: Tx, now: int) {
    t.receivedAt <= now && t.Worth(now) < U64
  }

  /** The gas price, and one more for every thousand million nanoseconds of waiting. */
  lemma PriorityFits(t: Tx, now: int)
    requires Fits(t, now)
    ensures t.Priority(now) == t.gasPrice + (now - t.receivedAt) / 1_000_000_000 < 0x1_0000_0000_0000_0000
  {
  }

  /**
   Received at the given phase of a second (phase 0 for whole-second clocks, the current phase for a
   clock that stands still), with a priority that still fits.
   */
  ghost predicate Stamped(t: Tx, now: int, phase: int) {
    Fits(t, now) && 0 <= phase < SECOND && t.receivedAt % SECOND == phase
  }

  /** How many whole seconds the clock is past the receipt phase. */
  function Seconds(now: int, phase: int): int {
    (now - phase) / SECOND
  }

  /** Every waiting transaction gains the same bonus as time passes. */
  lemma BonusIsShared(t: Tx, now: int, phase: int)
    requires Stamped(t, now, phase)
    ensures t.Priority(now) == t.gasPrice - t.receivedAt / SECOND + Seconds(now, phase)
  {
    var q := t.receivedAt / SECOND;
    assert t.receivedAt == SECOND * q + phase;
    assert (now - t.receivedAt) / SECOND == Seconds(now, phase) - q;
  }

  /** So the order of two of them does not depend on when it is asked for. */
  lemma OrderIsTimeless(t: Tx, u: Tx, now: int, later: int, phase: int)
    requires Stamped(t, now, phase) && Stamped(u, now, phase) && Stamped(t, later, phase) && Stamped(u, later, phase)
    ensures t.Priority(later) - u.Priority(later) == t.Priority(now) - u.Priority(now)
  {
    BonusIsShared(t, now, phase);
    BonusIsShared(u, now, phase);
    BonusIsShared(t, later, phase);
    BonusIsShared(u, later, phase);
  }

  /** How far `t` is ahead of `u`. */
  function Lead(t: Tx, u: Tx, now: int): int {
    t.Priority(now) - u.Priority(now)
  }

  /** At any two moments at which both fit, the lead is the same. */
  ghost predicate LeadStays(t: Tx, u: Tx) {
    forall a, b :: Fits(t, a) && Fits(u, a) && Fits(t, b) && Fits(u, b) ==> Lead(t, u, a) == Lead(t, u, b)
  }

  ghost predicate SameOrder(t: Tx, u: Tx, a: int, b: int) {
    (Lead(t, u, a) < 0 <==> Lead(t, u, b) < 0) && (Lead(t, u, a) > 0 <==> Lead(t, u, b) > 0)
  }

  /** At any two moments at which both fit, they compare alike. */
  ghost predicate OrderStays(t: Tx, u: Tx) {
    forall a, b :: Fits(t, a) && Fits(u, a) && Fits(t, b) && Fits(u, b) ==> SameOrder(t, u, a, b)
  }

  ghost predicate OnePhase(t: Tx, u: Tx) {
    t.receivedAt % SECOND == u.receivedAt % SECOND
  }

  lemma OnePhaseApart(t: Tx, u: Tx)
    ensures OnePhase(t, u) <==> (u.receivedAt - t.receivedAt) % SECOND == 0
  {
  }

  /** Whole seconds of two waits, one after the other. */
  lemma SumOfWaits(x: nat, y: nat)
    ensures x / SECOND + y / SECOND <= (x + y) / SECOND <= x / SECOND + y / SECOND + 1
    ensures x % SECOND == 0 ==> (x + y) / SECOND == x / SECOND + y / SECOND
  {
  }

  /** The earlier transaction's lead at the later receipt is kept, or exceeded by one. */
  lemma LeadIsNearlyFixed(t: Tx, u: Tx, now: int)
    requires t.receivedAt <= u.receivedAt && Fits(t, now) && Fits(u, now)
    ensures Fits(t, u.receivedAt) && Fits(u, u.receivedAt)
    ensures Lead(t, u, u.receivedAt) <= Lead(t, u, now) <= Lead(t, u, u.receivedAt) + 1
    ensures OnePhase(t, u) ==> Lead(t, u, now) == Lead(t, u, u.receivedAt)
  {
    hide Tx.Priority, OnePhase;
    var x, y := u.receivedAt - t.receivedAt, now - u.receivedAt;
    SumOfWaits(x, y);
    assert x + y == now - t.receivedAt;
    assert Fits(t, u.receivedAt) && Fits(u, u.receivedAt);
    LeadAt(t, u, now);
    LeadAt(t, u, u.receivedAt);
    OnePhaseApart(t, u);
  }

  lemma LeadAt(t: Tx, u: Tx, now: int)
    requires Fits(t, now) && Fits(u, now)
    ensures Lead(t, u, now) == t.gasPrice + (now - t.receivedAt) / SECOND - u.gasPrice - (now - u.receivedAt) / SECOND
  {
    hide Tx.Priority, Fits;
    PriorityFits(t, now);
    PriorityFits(u, now);
  }

  /** Whatever the phases, between any two moments a lead moves by at most one. */
  lemma LeadMovesByOne(t: Tx, u: Tx, a: int, b: int)
    requires Fits(t, a) && Fits(u, a) && Fits(t, b) && Fits(u, b)
    ensures -1 <= Lead(t, u, a) - Lead(t, u, b) <= 1
  {
    hide Fits, Tx.Priority;
    if t.receivedAt <= u.receivedAt {
      LeadIsNearlyFixed(t, u, a);
      LeadIsNearlyFixed(t, u, b);
    } else {
      LeadIsNearlyFixed(u, t, a);
      LeadIsNearlyFixed(u, t, b);
    }
  }

  /** The moment within a second after the later receipt at which the earlier transaction gains one. */
  function Turn(t: Tx, u: Tx): int {
    u.receivedAt + SECOND - (u.receivedAt - t.receivedAt) % SECOND
  }

  /** With receipts at different phases the lead changes there. */
  lemma LeadChanges(t: Tx, u: Tx)
    requires t.receivedAt <= u.receivedAt && !OnePhase(t, u)
    requires Fits(t, u.receivedAt + SECOND) && Fits(u, u.receivedAt + SECOND)
    ensures Fits(t, u.receivedAt) && Fits(u, u.receivedAt) && Fits(t, Turn(t, u)) && Fits(u, Turn(t, u))
    ensures Lead(t, u, Turn(t, u)) == Lead(t, u, u.receivedAt) + 1
  {
    hide Tx.Priority, OnePhase, Lead;
    var x := u.receivedAt - t.receivedAt;
    OnePhaseApart(t, u);
    assert Turn(t, u) - t.receivedAt == SECOND * (x / SECOND + 1);
    assert Fits(t, Turn(t, u)) && Fits(u, Turn(t, u)) && Fits(t, u.receivedAt) && Fits(u, u.receivedAt);
    LeadAt(t, u, Turn(t, u));
    LeadAt(t, u, u.receivedAt);
  }

  /**
   What the order of the heap rests on.  Between two transactions with room for one more second the
   lead is fixed if and only if they were received at one phase of the second; the comparison is
   fixed if and only if they were, or the earlier one neither ties with the later one at its receipt
   nor trails it by one.
   */
  lemma PhasesDecide(t: Tx, u: Tx)
    requires t.receivedAt <= u.receivedAt && Fits(t, u.receivedAt + SECOND) && Fits(u, u.receivedAt + SECOND)
    ensures LeadStays(t, u) <==> OnePhase(t, u)
    ensures OrderStays(t, u) <==> OnePhase(t, u) || Lead(t, u, u.receivedAt) !in {0, -1}
  {
    hide Lead, Fits;
    forall now | Fits(t, now) && Fits(u, now)
      ensures Lead(t, u, u.receivedAt) <= Lead(t, u, now) <= Lead(t, u, u.receivedAt) + 1
      ensures OnePhase(t, u) ==> Lead(t, u, now) == Lead(t, u, u.receivedAt)
    {
      LeadIsNearlyFixed(t, u, now);
    }
    if !OnePhase(t, u) {
      LeadChanges(t, u);
      assert !LeadStays(t, u);
      assert Lead(t, u, u.receivedAt) in {0, -1} ==> !SameOrder(t, u, u.receivedAt, Turn(t, u));
    }
  }

  /**
   When 64 bits turn the order around: a transaction worth more stays ahead while both worths have
   wrapped equally often, and, if it is worth less than 2^64 more, only then.
   */
  lemma WrapDecides(t: Tx, u: Tx, now: int)
    requires t.Worth(now) > u.Worth(now)
    ensures t.Worth(now) / U64 == u.Worth(now) / U64 ==> t.Priority(now) > u.Priority(now)
    ensures t.Worth(now) - u.Worth(now) < U64 ==>
              (t.Priority(now) > u.Priority(now) <==> t.Worth(now) / U64 == u.Worth(now) / U64)
  {
    var x, y := t.Worth(now), u.Worth(now);
    assert x == U64 * (x / U64) + x % U64 && y == U64 * (y / U64) + y % U64;
    if x / U64 != y / U64 && x - y < U64 {
      assert x / U64 >= y / U64 + 1;
      assert x % U64 < y % U64 by {
        assert x / U64 == y / U64 + 1;
      }
    }
  }
}
