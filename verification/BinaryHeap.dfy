/**
 The binary heap both priority structures stand on: Go's container/heap run over `itemHeap` and
 `txHeap`, whose Less puts the larger priority first.  The slice is a sequence that each operation
 swaps, extends and truncates; `rank` is the priority its Less compares.
 */
module BinaryHeap {
  function Parent(k: nat): (p: nat)
    ensures if k == 0 then p == 0 else p < k
  {
    if k == 0 then 0 else (k - 1) / 2
  }

  ghost predicate PairOk<T>(h: seq<T>, rank: T -> int, k: nat)
    requires k < |h|
  {
    rank(h[k]) <= rank(h[Parent(k)])
  }

  /** Every element of the first `n` whose parent is at `lo` or later is no larger than its parent. */
  ghost predicate OrderedFrom<T>(h: seq<T>, rank: T -> int, lo: nat, n: nat)
    requires n <= |h|
  {
    forall k: nat {:trigger PairOk(h, rank, k)} :: 0 < k < n && Parent(k) >= lo ==> PairOk(h, rank, k)
  }

  ghost predicate Ordered<T>(h: seq<T>, rank: T -> int) {
    OrderedFrom(h, rank, 0, |h|)
  }

  /** Everything is in order except possibly the element at `i` against its parent. */
  ghost predicate OrderedBut<T>(h: seq<T>, rank: T -> int, lo: nat, n: nat, i: nat)
    requires n <= |h|
  {
    && (forall k: nat {:trigger PairOk(h, rank, k)} :: 0 < k < n && Parent(k) >= lo && k != i ==> PairOk(h, rank, k))
    && ChildrenBelow(h, rank, lo, n, i)
  }

  /** Everything is in order except possibly the element at `i` against its parent and its children. */
  ghost predicate OrderedAround<T>(h: seq<T>, rank: T -> int, lo: nat, n: nat, i: nat)
    requires n <= |h|
  {
    && (forall k: nat {:trigger PairOk(h, rank, k)} ::
          0 < k < n && Parent(k) >= lo && k != i && Parent(k) != i ==> PairOk(h, rank, k))
    && ChildrenBelow(h, rank, lo, n, i)
  }

  /** The children of `i` would be in order below the parent of `i`. */
  ghost predicate ChildrenBelow<T>(h: seq<T>, rank: T -> int, lo: nat, n: nat, i: nat)
    requires n <= |h|
  {
    forall k: nat {:trigger Parent(k)} :: 0 < k < n && Parent(k) == i && 0 < i && Parent(i) >= lo ==>
      rank(h[k]) <= rank(h[Parent(i)])
  }

  function Swap<T>(h: seq<T>, i: nat, j: nat): (r: seq<T>)
    requires i < |h| && j < |h|
    ensures |r| == |h| && multiset(r) == multiset(h)
    ensures r[i] == h[j] && r[j] == h[i] && forall k :: 0 <= k < |h| && k != i && k != j ==> r[k] == h[k]
  {
    h[i := h[j]][j := h[i]]
  }

  /** No two elements differ in rank. */
  ghost predicate Level<T>(h: seq<T>, rank: T -> int) {
    forall i, j :: 0 <= i < |h| && 0 <= j < |h| ==> rank(h[i]) == rank(h[j])
  }

  /** What Pop leaves of a level heap: the last element takes the place of the first. */
  function Rotate<T>(h: seq<T>): seq<T> {
    if |h| <= 1 then [] else [h[|h| - 1]] + h[1..|h| - 1]
  }

  predicate Outranks<T>(h: seq<T>, rank: T -> int, k: nat)
    requires k < |h|
  {
    rank(h[k]) > rank(h[Parent(k)])
  }

  /** `up`: the element at `start` rises until its parent is no smaller; one that does not outrank it stays. */
  method Up<T>(h0: seq<T>, rank: T -> int, start: nat) returns (h: seq<T>)
    requires start < |h0| && OrderedBut(h0, rank, 0, |h0|, start)
    ensures |h| == |h0| && multiset(h) == multiset(h0) && Ordered(h, rank)
    ensures !Outranks(h0, rank, start) ==> h == h0
  {
    h := h0;
    var j: nat := start;
    while true
      invariant j < |h| == |h0| && multiset(h) == multiset(h0) && OrderedBut(h, rank, 0, |h|, j)
      invariant !Outranks(h0, rank, start) ==> j == start && h == h0
      decreases j
    {
      var i := Parent(j);
      if i == j || !Outranks(h, rank, j) {
        assert PairOk(h, rank, j);
        return;
      }
      Raised(h, rank, j);
      h := Swap(h, i, j);
      j := i;
    }
  }

  /** Swapping a too large element with its parent moves the only disorder up. */
  lemma Raised<T>(h: seq<T>, rank: T -> int, j: nat)
    requires 0 < j < |h| && OrderedBut(h, rank, 0, |h|, j) && rank(h[j]) > rank(h[Parent(j)])
    ensures OrderedBut(Swap(h, Parent(j), j), rank, 0, |h|, Parent(j))
  {
    var i, r := Parent(j), Swap(h, Parent(j), j);
    forall k: nat | 0 < k < |h| && k != i ensures PairOk(r, rank, k) {
      assert PairOk(h, rank, k) || k == j;
    }
    forall k: nat | 0 < k < |h| && Parent(k) == i && 0 < i ensures rank(r[k]) <= rank(r[Parent(i)]) {
      assert PairOk(h, rank, i) && (k != j ==> PairOk(h, rank, k));
    }
  }

  /** `down`: the element at `start` sinks below its larger child while that child is larger. */
  method Down<T>(h0: seq<T>, rank: T -> int, start: nat, n: nat, ghost lo: nat) returns (h: seq<T>, moved: bool)
    requires start <= n <= |h0| && OrderedAround(h0, rank, lo, n, start)
    ensures |h| == |h0| && multiset(h) == multiset(h0) && h[n..] == h0[n..]
    ensures if moved then OrderedFrom(h, rank, lo, n) else h == h0 && OrderedBut(h, rank, lo, n, start)
    ensures Level(h0, rank) ==> !moved
  {
    h := h0;
    var i := start;
    while true
      invariant start <= i <= n && |h| == |h0| && multiset(h) == multiset(h0)
      invariant forall k :: n <= k < |h| ==> h[k] == h0[k]
      invariant OrderedAround(h, rank, lo, n, i)
      invariant i == start ==> h == h0
      invariant Level(h0, rank) ==> i == start
      invariant i > start ==> i < n && PairOk(h, rank, i)
      decreases n - i
    {
      hide OrderedAround, Swap;
      var j := 2 * i + 1;
      if j >= n {
        assert forall k: nat :: 0 < k < n ==> Parent(k) != i;
        break;
      }
      if j + 1 < n && rank(h[j + 1]) > rank(h[j]) {
        j := j + 1;
      }
      assert Parent(j) == i && forall k: nat :: 0 < k < n && Parent(k) == i ==> rank(h[k]) <= rank(h[j]);
      if !Outranks(h, rank, j) {
        assert forall k: nat :: 0 < k < n && Parent(k) == i ==> PairOk(h, rank, k);
        break;
      }
      Lowered(h, rank, lo, n, i, j);
      h := Swap(h, i, j);
      i := j;
    }
    moved := i > start;
  }

  /** Swapping a too small element with its largest child moves the only disorder down. */
  lemma Lowered<T>(h: seq<T>, rank: T -> int, lo: nat, n: nat, i: nat, j: nat)
    requires i < j < n <= |h| && Parent(j) == i && OrderedAround(h, rank, lo, n, i)
    requires forall k: nat :: 0 < k < n && Parent(k) == i ==> rank(h[k]) <= rank(h[j])
    requires rank(h[j]) > rank(h[i])
    ensures OrderedAround(Swap(h, i, j), rank, lo, n, j) && PairOk(Swap(h, i, j), rank, j)
  {
    var r := Swap(h, i, j);
    forall k: nat | 0 < k < n && Parent(k) >= lo && k != j && Parent(k) != j ensures PairOk(r, rank, k) {
      assert PairOk(h, rank, k) || k == i || Parent(k) == i;
    }
    forall k: nat | 0 < k < n && Parent(k) == j && Parent(j) >= lo ensures rank(r[k]) <= rank(r[i]) {
      assert PairOk(h, rank, k);
    }
  }

  /** No element is larger than the root. */
  lemma {:induction false} RootIsLargest<T>(h: seq<T>, rank: T -> int, k: nat)
    requires Ordered(h, rank) && k < |h|
    ensures rank(h[k]) <= rank(h[0])
  {
    if k > 0 {
      assert PairOk(h, rank, k);
      RootIsLargest(h, rank, Parent(k));
    }
  }

  /** `heap.Init`: sinks every inner element, last first. */
  method Init<T>(h0: seq<T>, rank: T -> int) returns (h: seq<T>)
    ensures |h| == |h0| && multiset(h) == multiset(h0) && Ordered(h, rank)
    ensures Level(h0, rank) ==> h == h0
  {
    h := h0;
    var i := |h| / 2 - 1;
    while i >= 0
      invariant -1 <= i < |h| || |h| == 0
      invariant |h| == |h0| && multiset(h) == multiset(h0) && (Level(h0, rank) ==> h == h0)
      invariant i >= -1 && OrderedFrom(h, rank, i + 1, |h|)
    {
      assert i == 0 || Parent(i) < i;
      var moved;
      h, moved := Down(h, rank, i, |h|, i);
      i := i - 1;
    }
  }

  /** `heap.Push`: appends and lets the new element rise. */
  method Push<T>(h0: seq<T>, rank: T -> int, x: T) returns (h: seq<T>)
    requires Ordered(h0, rank)
    ensures Ordered(h, rank) && |h| == |h0| + 1 && multiset(h) == multiset(h0) + multiset{x}
    ensures !Outranks(h0 + [x], rank, |h0|) ==> h == h0 + [x]
  {
    h := h0 + [x];
    forall k: nat | 0 < k < |h0| ensures PairOk(h, rank, k) {
      assert PairOk(h0, rank, k);
    }
    assert forall k: nat :: 0 < k <= |h0| ==> Parent(k) < |h0|;
    h := Up(h, rank, |h0|);
  }

  /** The last element cut off: what is left is the rest of the elements. */
  lemma CutLast<T>(h: seq<T>)
    requires |h| > 0
    ensures multiset(h[..|h| - 1]) == multiset(h) - multiset{h[|h| - 1]}
  {
    assert h == h[..|h| - 1] + [h[|h| - 1]];
  }

  lemma CutKeepsOrder<T>(h: seq<T>, rank: T -> int)
    requires |h| > 0 && OrderedFrom(h, rank, 0, |h| - 1)
    ensures Ordered(h[..|h| - 1], rank)
  {
    var r := h[..|h| - 1];
    forall k: nat | 0 < k < |r| ensures PairOk(r, rank, k) {
      assert PairOk(h, rank, k);
    }
  }

  /** The last element put at `i` leaves only the order around `i` open. */
  lemma Displaced<T>(h: seq<T>, rank: T -> int, i: nat)
    requires Ordered(h, rank) && i < |h|
    ensures OrderedAround(Swap(h, i, |h| - 1), rank, 0, |h| - 1, i)
  {
    var n, r := |h| - 1, Swap(h, i, |h| - 1);
    forall k: nat | 0 < k < n && k != i && Parent(k) != i ensures PairOk(r, rank, k) {
      assert PairOk(h, rank, k);
    }
    forall k: nat | 0 < k < n && Parent(k) == i && 0 < i ensures rank(r[k]) <= rank(r[Parent(i)]) {
      assert PairOk(h, rank, k) && PairOk(h, rank, i);
    }
  }

  lemma CutKeepsAllBut<T>(h: seq<T>, rank: T -> int, i: nat)
    requires |h| > 0 && OrderedBut(h, rank, 0, |h| - 1, i)
    ensures OrderedBut(h[..|h| - 1], rank, 0, |h| - 1, i)
  {
    var r := h[..|h| - 1];
    forall k: nat | 0 < k < |r| && k != i ensures PairOk(r, rank, k) {
      assert PairOk(h, rank, k);
    }
    forall k: nat | 0 < k < |r| && Parent(k) == i && 0 < i ensures rank(r[k]) <= rank(r[Parent(i)]) {
      assert PairOk(h, rank, k);
    }
  }

  /** The root has no parent to be out of order with. */
  lemma RootHasNoParent<T>(h: seq<T>, rank: T -> int, n: nat)
    requires n <= |h| && OrderedBut(h, rank, 0, n, 0)
    ensures OrderedFrom(h, rank, 0, n)
  {
  }

  lemma NothingAboveRoot<T>(h: seq<T>, rank: T -> int)
    requires Ordered(h, rank) && |h| > 0
    ensures forall y :: y in h ==> rank(y) <= rank(h[0])
  {
    forall y | y in h ensures rank(y) <= rank(h[0]) {
      var k :| 0 <= k < |h| && h[k] == y;
      RootIsLargest(h, rank, k);
    }
  }

  lemma SwappedIsLevel<T>(h: seq<T>, rank: T -> int)
    requires |h| > 0
    ensures Level(h, rank) ==> Level(Swap(h, 0, |h| - 1), rank)
    ensures Swap(h, 0, |h| - 1)[..|h| - 1] == Rotate(h)
  {
  }

  /** `heap.Pop`: the root goes last, the element now first sinks, and the last one is cut off. */
  method Pop<T>(h0: seq<T>, rank: T -> int) returns (h: seq<T>, x: T)
    requires Ordered(h0, rank) && |h0| > 0
    ensures x == h0[0] && |h| == |h0| - 1
    ensures Ordered(h, rank) && multiset(h) == multiset(h0) - multiset{x}
    ensures forall y :: y in h0 ==> rank(y) <= rank(x)
    ensures Level(h0, rank) ==> h == Rotate(h0)
  {
    hide Ordered, OrderedFrom, OrderedBut, OrderedAround, Swap, Level, Rotate;
    SwappedIsLevel(h0, rank);
    var n := |h0| - 1;
    x := h0[0];
    NothingAboveRoot(h0, rank);
    Displaced(h0, rank, 0);
    var moved;
    h, moved := Down(Swap(h0, 0, n), rank, 0, n, 0);
    if !moved {
      RootHasNoParent(h, rank, n);
    }
    assert h[n] == x by {
      assert h[n..][0] == Swap(h0, 0, n)[n..][0];
    }
    CutLast(h);
    CutKeepsOrder(h, rank);
    h := h[..n];
  }

  /** `heap.Remove`: the last element takes the place of the removed one, then sinks or else rises. */
  method Remove<T>(h0: seq<T>, rank: T -> int, i: nat) returns (h: seq<T>, x: T)
    requires Ordered(h0, rank) && i < |h0|
    ensures x == h0[i] && |h| == |h0| - 1
    ensures Ordered(h, rank) && multiset(h) == multiset(h0) - multiset{x}
  {
    hide OrderedFrom, OrderedBut, OrderedAround, Swap;
    var n := |h0| - 1;
    x := h0[i];
    h := h0;
    if n != i {
      Displaced(h0, rank, i);
      h := Swap(h0, i, n);
      var moved;
      h, moved := Down(h, rank, i, n, 0);
      assert h[n] == x by {
        assert h[n..][0] == Swap(h0, i, n)[n..][0];
      }
      CutLast(h);
      if !moved {
        CutKeepsAllBut(h, rank, i);
        h := h[..n];
        h := Up(h, rank, i);
      } else {
        CutKeepsOrder(h, rank);
        h := h[..n];
      }
    } else {
      CutLast(h);
      WholeIsFront(h, rank);
      CutKeepsOrder(h, rank);
      h := h[..n];
    }
  }

  lemma WholeIsFront<T>(h: seq<T>, rank: T -> int)
    requires |h| > 0 && Ordered(h, rank)
    ensures OrderedFrom(h, rank, 0, |h| - 1)
  {
  }
}
