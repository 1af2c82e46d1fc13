/** Vocabulary shared by the models: optional values and counting over sequences. */
module Common {

  datatype Option<+T> = None | Some(value: T)

  /** The number of elements of `s` that satisfy `p`. */
  ghost function Count<T>(s: seq<T>, p: T -> bool): (n: nat)
    ensures n <= |s|
  {
    if s == [] then 0 else Count(s[..|s| - 1], p) + (if p(s[|s| - 1]) then 1 else 0)
  }

  /** Replacing one element changes the count by exactly what that element contributes. */
  lemma {:induction false} CountUpdate<T>(s: seq<T>, i: nat, v: T, p: T -> bool)
    requires i < |s|
    ensures Count(s[i := v], p) ==
            Count(s, p) - (if p(s[i]) then 1 else 0) + (if p(v) then 1 else 0)
  {
    var last := |s| - 1;
    if i == last {
      assert s[i := v][..last] == s[..last];
    } else {
      assert s[i := v][..last] == s[..last][i := v];
      CountUpdate(s[..last], i, v, p);
    }
  }

  lemma {:induction false} CountAppend<T>(s: seq<T>, v: T, p: T -> bool)
    ensures Count(s + [v], p) == Count(s, p) + (if p(v) then 1 else 0)
  {
    assert (s + [v])[..|s|] == s;
  }

  /** A count is zero exactly when no element qualifies. */
  lemma {:induction false} CountZero<T>(s: seq<T>, p: T -> bool)
    ensures Count(s, p) == 0 <==> forall i :: 0 <= i < |s| ==> !p(s[i])
  {
    if s != [] {
      var last := |s| - 1;
      CountZero(s[..last], p);
      assert forall i :: 0 <= i < last ==> s[..last][i] == s[i];
    }
  }

  /** The positions that qualify; there are as many as counted. */
  ghost function Indices<T>(s: seq<T>, p: T -> bool): set<nat> {
    set i | 0 <= i < |s| && p(s[i])
  }

  lemma {:induction false} CountIsSize<T>(s: seq<T>, p: T -> bool)
    ensures Count(s, p) == |Indices(s, p)|
  {
    if s == [] {
      assert Indices(s, p) == {};
    } else {
      var front := s[..|s| - 1];
      CountIsSize(front, p);
      assert Indices(s, p) == Indices(front, p) + (if p(s[|s| - 1]) then {|s| - 1} else {});
    }
  }

  /** Two predicates that agree on every element count the same. */
  lemma {:induction false} CountAgree<T>(s: seq<T>, p: T -> bool, q: T -> bool)
    requires forall i :: 0 <= i < |s| ==> p(s[i]) == q(s[i])
    ensures Count(s, p) == Count(s, q)
  {
    if s != [] {
      CountAgree(s[..|s| - 1], p, q);
    }
  }

  /** A predicate that implies another counts no more. */
  lemma {:induction false} CountMonotone<T>(s: seq<T>, p: T -> bool, q: T -> bool)
    requires forall i :: 0 <= i < |s| && p(s[i]) ==> q(s[i])
    ensures Count(s, p) <= Count(s, q)
  {
    if s != [] {
      CountMonotone(s[..|s| - 1], p, q);
    }
  }

  /** Counts of two mutually exclusive predicates add up to the count of their disjunction. */
  lemma {:induction false} CountSplit<T>(s: seq<T>, p: T -> bool, q: T -> bool, r: T -> bool)
    requires forall i :: 0 <= i < |s| ==> r(s[i]) == (p(s[i]) || q(s[i])) && !(p(s[i]) && q(s[i]))
    ensures Count(s, r) == Count(s, p) + Count(s, q)
  {
    if s != [] {
      CountSplit(s[..|s| - 1], p, q, r);
    }
  }

  /** Pigeonhole: a sequence of distinct numbers below `n` has at most `n` elements. */
  lemma {:induction false} DistinctBelow(s: seq<nat>, n: nat)
    requires forall i :: 0 <= i < |s| ==> s[i] < n
    requires forall i, j :: 0 <= i < j < |s| ==> s[i] != s[j]
    ensures |s| <= n
  {
    if s != [] {
      assert s[0] < n;
      if i :| 0 <= i < |s| && s[i] == n - 1 {
        DistinctBelow(s[..i] + s[i + 1..], n - 1);
      } else {
        DistinctBelow(s, n - 1);
      }
    }
  }
}
