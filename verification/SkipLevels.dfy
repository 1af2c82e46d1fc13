/**
 Positions by level of the skip list of pkg/ds/lockfree/priority_queue.go.  `heights[p]` is the number
 of levels the p-th node is linked in.  It can be less than the level the node was given: levels
 beyond the current `maxLevel` have no predecessor to link from.
 */
module SkipLevels {
  const MAX_LEVEL: nat := 32

  /** The next position after `p` that is linked at level `i`, or the length if there is none. */
  ghost function Succ(heights: seq<nat>, p: nat, i: nat): (q: nat)
    requires p < |heights|
    ensures p < q <= |heights|
    ensures q < |heights| ==> heights[q] > i
    ensures forall r :: p < r < q ==> heights[r] <= i
    decreases |heights| - p
  {
    if p + 1 == |heights| || heights[p + 1] > i then p + 1 else Succ(heights, p + 1, i)
  }

  /** The last position before `pos` that is linked at level `i`; the head at 0 always is. */
  ghost function Before(heights: seq<nat>, pos: nat, i: nat): (a: nat)
    requires 0 < pos <= |heights| && heights[0] > i
    ensures a < pos && heights[a] > i
    ensures forall r :: a < r < pos ==> heights[r] <= i
  {
    if heights[pos - 1] > i then pos - 1 else Before(heights, pos - 1, i)
  }

  /** Being the next linked position determines Succ. */
  lemma SuccIs(heights: seq<nat>, p: nat, i: nat, q: nat)
    requires p < q <= |heights| && (q < |heights| ==> heights[q] > i)
    requires forall r :: p < r < q ==> heights[r] <= i
    ensures Succ(heights, p, i) == q
  {
    var s := Succ(heights, p, i);
    assert s < |heights| ==> heights[s] > i;
  }

  /** A linked position whose successor is not before `pos` is the last one before `pos`. */
  lemma BeforeIs(heights: seq<nat>, a: nat, pos: nat, i: nat)
    requires a < pos <= |heights| && heights[0] > i && heights[a] > i && Succ(heights, a, i) >= pos
    ensures Before(heights, pos, i) == a && Succ(heights, pos - 1, i) == Succ(heights, a, i)
  {
    var b := Before(heights, pos, i);
    assert heights[b] > i;
    SuccIs(heights, pos - 1, i, Succ(heights, a, i));
  }

  function Inserted<T>(s: seq<T>, pos: nat, x: T): (r: seq<T>)
    requires pos <= |s|
    ensures |r| == |s| + 1
  {
    s[..pos] + [x] + s[pos..]
  }

  lemma InsertedAt<T>(s: seq<T>, pos: nat, x: T, p: nat)
    requires pos <= |s| && p <= |s|
    ensures Inserted(s, pos, x)[p] == if p < pos then s[p] else if p == pos then x else s[p - 1]
  {
  }

  lemma InsertedFrom<T>(s: seq<T>, pos: nat, x: T)
    requires pos <= |s|
    ensures forall y :: y in Inserted(s, pos, x) <==> y in s || y == x
  {
    assert Inserted(s, pos, x)[pos] == x;
    assert s == s[..pos] + s[pos..];
  }

  lemma InsertedUpdate<T>(s: seq<T>, pos: nat, x: T, y: T)
    requires pos <= |s|
    ensures Inserted(s, pos, x)[pos := y] == Inserted(s, pos, y)
  {
  }

  /** A node linked in no more than level `i` is invisible there. */
  lemma SuccInserted(heights: seq<nat>, pos: nat, h: nat, p: nat, i: nat)
    requires 0 < pos <= |heights| && p < |heights| && h <= i
    ensures var s := Succ(heights, p, i);
            Succ(Inserted(heights, pos, h), if p < pos then p else p + 1, i) == if s < pos then s else s + 1
  {
    var s, heights' := Succ(heights, p, i), Inserted(heights, pos, h);
    var p', q := if p < pos then p else p + 1, if s < pos then s else s + 1;
    forall r | p' < r < q ensures heights'[r] <= i {
      InsertedAt(heights, pos, h, r);
    }
    if q < |heights'| {
      InsertedAt(heights, pos, h, q);
    }
    SuccIs(heights', p', i, q);
  }

  /** Linking position `pos` at level `i` changes only the successor of the one before it there. */
  lemma SuccRaised(heights: seq<nat>, pos: nat, i: nat, p: nat, j: nat)
    requires 0 < pos < |heights| && heights[0] > i && heights[pos] == i && p < |heights| && j < heights[pos := i + 1][p]
    ensures Succ(heights[pos := i + 1], p, j) ==
            if j == i && p == Before(heights, pos, i) then pos else Succ(heights, p, j)
  {
    var s, heights', b := Succ(heights, p, j), heights[pos := i + 1], Before(heights, pos, i);
    if j == i && p == b {
      SuccIs(heights', p, j, pos);
    } else {
      if j == i && p < pos < s {
        BeforeIs(heights, p, pos, i);
      }
      SuccIs(heights', p, j, s);
    }
  }
}
