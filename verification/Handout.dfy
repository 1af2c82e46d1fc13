/**
 What GetPending can hand out (pkg/mempool/mempool.go): it draws from the heap's entries, best
 first, whatever carries a live hash.  An entry is surplus when a live hash has it more often than
 its live transaction needs, as when a transaction was removed and added again; surplus entries are
 all that keeps the answer from being right.
 */
module Handouts {
  import opened Transactions

  ghost predicate Filed(txs: map<Hash, Tx>) {
    forall h :: h in txs ==> txs[h].hash == h
  }

  ghost predicate AllEntered(txs: map<Hash, Tx>, entries: multiset<Tx>) {
    forall h :: h in txs ==> txs[h] in entries
  }

  /** Every live transaction has a heap entry. */
  ghost predicate Covered(txs: map<Hash, Tx>, pending: seq<Tx>) {
    AllEntered(txs, multiset(pending))
  }

  lemma {:induction false} ValuesSize(txs: map<Hash, Tx>)
    requires Filed(txs)
    ensures |txs.Values| == |txs|
    decreases |txs|
  {
    if txs == map[] {
      assert txs.Values == {};
    } else {
      var h :| h in txs;
      var rest := txs - {h};
      assert rest.Keys == txs.Keys - {h};
      assert |txs.Keys| == |txs| && |rest.Keys| == |rest|;
      ValuesSize(rest);
      forall t | t in txs.Values ensures t in rest.Values + {txs[h]} {
        assert t.hash in txs && txs[t.hash] == t;
        assert t.hash != h ==> rest[t.hash] == t;
      }
      forall t | t in rest.Values ensures t in txs.Values && t != txs[h] {
        assert t.hash in rest && rest[t.hash] == t;
        assert txs[t.hash] == t;
      }
      assert txs.Values == rest.Values + {txs[h]};
    }
  }

  /** A collection that holds every live transaction is at least as large as the pool. */
  lemma AllLiveIn(txs: map<Hash, Tx>, result: seq<Tx>)
    requires Filed(txs) && forall h :: h in txs ==> txs[h] in multiset(result)
    ensures |txs| <= |result|
  {
    ValuesSize(txs);
    var live := multiset(txs.Values);
    forall t | t in live ensures live[t] <= multiset(result)[t] {
      assert t in txs.Values;
      assert t.hash in txs && txs[t.hash] == t;
    }
    assert live <= multiset(result) && |multiset(result)| == |result|;
    assert multiset(result) == live + (multiset(result) - live);
  }

  ghost predicate Descends(result: seq<Tx>, now: int) {
    forall i, j :: 0 <= i < j < |result| ==> result[i].Priority(now) >= result[j].Priority(now)
  }

  ghost predicate NoneAbove(entries: seq<Tx>, result: seq<Tx>, now: int) {
    forall t, r :: t in entries && r in result ==> t.Priority(now) <= r.Priority(now)
  }

  ghost predicate AllLive(result: seq<Tx>, txs: map<Hash, Tx>) {
    forall t :: t in result ==> t.hash in txs
  }

  /** Every entry of a live hash is drawn already or still in the copy. */
  ghost predicate Accounted(txs: map<Hash, Tx>, pending: multiset<Tx>, result: multiset<Tx>, copied: multiset<Tx>) {
    && result + copied <= pending
    && forall t :: t in pending && t.hash in txs ==> result[t] + copied[t] == pending[t]
  }

  lemma DrawOne(txs: map<Hash, Tx>, pending: multiset<Tx>, result: multiset<Tx>, copied: multiset<Tx>, tx: Tx)
    requires Accounted(txs, pending, result, copied) && tx in copied
    ensures tx.hash in txs ==> Accounted(txs, pending, result + multiset{tx}, copied - multiset{tx})
    ensures tx.hash !in txs ==> Accounted(txs, pending, result, copied - multiset{tx})
  {
  }

  lemma DrawInOrder(entries: seq<Tx>, rest: seq<Tx>, result: seq<Tx>, tx: Tx, now: int)
    requires Descends(result, now) && NoneAbove(entries, result, now) && tx in entries
    requires multiset(rest) <= multiset(entries) && forall t :: t in entries ==> t.Priority(now) <= tx.Priority(now)
    ensures Descends(result + [tx], now) && NoneAbove(rest, result + [tx], now) && NoneAbove(rest, result, now)
  {
    forall t | t in rest ensures t in entries {
      assert t in multiset(rest);
    }
  }

  /** An exhausted copy means every live transaction was drawn. */
  lemma AllDrawn(txs: map<Hash, Tx>, pending: seq<Tx>, result: seq<Tx>, copied: seq<Tx>)
    requires Filed(txs) && Covered(txs, pending) && copied == []
    requires Accounted(txs, multiset(pending), multiset(result), multiset(copied))
    ensures |txs| <= |result|
  {
    forall h | h in txs ensures txs[h] in multiset(result) {
      assert txs[h] in multiset(pending) && txs[h].hash in txs;
      assert multiset(copied)[txs[h]] == 0;
    }
    AllLiveIn(txs, result);
  }

  /** What is left out of the result is still in the copy, so it outranks nothing in the result. */
  lemma LeftOutBelow(txs: map<Hash, Tx>, pending: seq<Tx>, result: seq<Tx>, copied: seq<Tx>, now: int)
    requires Accounted(txs, multiset(pending), multiset(result), multiset(copied)) && NoneAbove(copied, result, now)
    ensures multiset(result) <= multiset(pending)
    ensures forall t, r :: t in multiset(pending) - multiset(result) && t.hash in txs && r in result ==>
              t.Priority(now) <= r.Priority(now)
  {
    forall t | t in multiset(pending) - multiset(result) && t.hash in txs ensures t in copied {
      assert t in multiset(copied);
    }
  }

  /**
   What GetPending promises of its answer in every case: drawn from the entries, of live hashes, in
   non-increasing priority, and no entry of a live hash left out outranks one handed out.
   */
  ghost predicate HandedOut(txs: map<Hash, Tx>, pending: multiset<Tx>, result: seq<Tx>, now: int) {
    && Descends(result, now) && AllLive(result, txs) && multiset(result) <= pending
    && forall t, r :: t in pending - multiset(result) && t.hash in txs && r in result ==>
         t.Priority(now) <= r.Priority(now)
  }

  /** So a live transaction that is left out outranks nothing handed out. */
  lemma LeftOutIsBelow(txs: map<Hash, Tx>, pending: multiset<Tx>, result: seq<Tx>, now: int)
    requires Filed(txs) && AllEntered(txs, pending) && HandedOut(txs, pending, result, now)
    ensures forall i, j :: 0 <= i < j < |result| ==> result[i].Priority(now) >= result[j].Priority(now)
    ensures forall h, t :: h in txs && txs[h] !in result && t in result ==> txs[h].Priority(now) <= t.Priority(now)
  {
    hide Tx.Priority;
    forall h | h in txs && txs[h] !in result ensures txs[h] in pending - multiset(result) && txs[h].hash in txs {
      assert txs[h] !in multiset(result);
    }
  }

  // ---------------------------------------------------------------------------------------
  // When the answer is right.

  lemma {:induction false} RepeatsCount(s: seq<Tx>, i: nat, j: nat)
    requires i < j < |s| && s[i] == s[j]
    ensures multiset(s)[s[i]] >= 2
  {
    assert s == s[..i] + [s[i]] + s[i + 1..j] + [s[j]] + s[j + 1..];
  }

  /** More entries of one live hash than its live transaction needs. */
  ghost predicate Surplus(txs: map<Hash, Tx>, pending: multiset<Tx>, s: Tx) {
    s in pending && s.hash in txs && pending[s] > (if txs[s.hash] == s then 1 else 0)
  }

  ghost predicate NoSurplus(txs: map<Hash, Tx>, pending: multiset<Tx>) {
    forall s :: !Surplus(txs, pending, s)
  }

  /** The live hashes of at least this priority. */
  ghost function AtLeast(txs: map<Hash, Tx>, priority: int, now: int): set<Hash> {
    set h | h in txs && txs[h].Priority(now) >= priority
  }

  ghost function Above(txs: map<Hash, Tx>, priority: int, now: int): set<Hash> {
    set h | h in txs && txs[h].Priority(now) > priority
  }

  /** The priorities handed out are the highest live ones: the k-th one is the k-th highest. */
  ghost predicate RanksRight(txs: map<Hash, Tx>, result: seq<Tx>, now: int) {
    forall k :: 0 <= k < |result| ==>
      |Above(txs, result[k].Priority(now), now)| <= k < |AtLeast(txs, result[k].Priority(now), now)|
  }

  /** Live transactions themselves, none twice. */
  ghost predicate LiveOnce(txs: map<Hash, Tx>, result: seq<Tx>) {
    && (forall t :: t in result ==> t.hash in txs && txs[t.hash] == t)
    && forall i, j :: 0 <= i < j < |result| ==> result[i].hash != result[j].hash
  }

  /** Against every surplus entry, `n` live transactions rank at least as high. */
  ghost predicate SurplusMatched(txs: map<Hash, Tx>, pending: multiset<Tx>, n: nat, now: int) {
    forall s :: Surplus(txs, pending, s) ==> |AtLeast(txs, s.Priority(now), now)| >= n
  }

  /** Against every surplus entry, `n` live transactions rank strictly higher. */
  ghost predicate SurplusOutranked(txs: map<Hash, Tx>, pending: multiset<Tx>, n: nat, now: int) {
    forall s :: Surplus(txs, pending, s) ==> |Above(txs, s.Priority(now), now)| >= n
  }

  /** Live transactions that all occur in a sequence are no more than its elements. */
  lemma {:induction false} ManyIn(txs: map<Hash, Tx>, hs: set<Hash>, s: seq<Tx>)
    requires Filed(txs) && hs <= txs.Keys && forall h :: h in hs ==> txs[h] in s
    ensures |hs| <= |s|
  {
    if s == [] {
      assert hs == {};
    } else {
      var n := |s| - 1;
      var less := hs - {s[n].hash};
      forall h | h in less ensures txs[h] in s[..n] {
        assert s == s[..n] + [s[n]] && txs[h].hash == h;
      }
      ManyIn(txs, less, s[..n]);
      assert |hs| <= |less| + 1 by {
        assert hs <= less + {s[n].hash};
        SubsetSize(hs, less + {s[n].hash});
      }
    }
  }

  lemma {:induction false} SubsetSize<T>(a: set<T>, b: set<T>)
    requires a <= b
    ensures |a| <= |b|
  {
    assert b == a + (b - a);
  }

  /** Entries of different hashes out of a set are no more than the set. */
  lemma {:induction false} DifferentIn(s: seq<Tx>, hs: set<Hash>)
    requires forall i :: 0 <= i < |s| ==> s[i].hash in hs
    requires forall i, j :: 0 <= i < j < |s| ==> s[i].hash != s[j].hash
    ensures |s| <= |hs|
  {
    if s != [] {
      var n := |s| - 1;
      DifferentIn(s[..n], hs - {s[n].hash});
    }
  }

  /** Every live transaction above the k-th handed out is handed out before it. */
  lemma FewAbove(txs: map<Hash, Tx>, pending: multiset<Tx>, result: seq<Tx>, now: int, k: nat)
    requires Filed(txs) && AllEntered(txs, pending) && HandedOut(txs, pending, result, now)
    requires k < |result|
    ensures |Above(txs, result[k].Priority(now), now)| <= k
  {
    hide Tx.Priority;
    var hs := Above(txs, result[k].Priority(now), now);
    forall h | h in hs ensures txs[h] in result[..k] {
      assert txs[h].hash in txs && result[k] in result;
      assert txs[h] in multiset(result);
      var i :| 0 <= i < |result| && result[i] == txs[h];
      assert i < k;
    }
    ManyIn(txs, hs, result[..k]);
  }

  /** A start of the answer that is live transactions, none twice, bounds the rank of its last. */
  lemma EnoughAtLeast(txs: map<Hash, Tx>, result: seq<Tx>, now: int, k: nat)
    requires Descends(result, now) && k < |result| && LiveOnce(txs, result[..k + 1])
    ensures k < |AtLeast(txs, result[k].Priority(now), now)|
  {
    hide Tx.Priority;
    var r := result[..k + 1];
    forall i | 0 <= i < |r| ensures r[i].hash in AtLeast(txs, result[k].Priority(now), now) {
      assert r[i] == result[i] && r[i] in r;
    }
    DifferentIn(r, AtLeast(txs, result[k].Priority(now), now));
  }

  /** Entries drawn that are not surplus are live transactions, none twice. */
  lemma NotSurplusIsLive(txs: map<Hash, Tx>, pending: multiset<Tx>, result: seq<Tx>, now: int, k: nat)
    requires HandedOut(txs, pending, result, now) && k <= |result|
    requires forall i :: 0 <= i < k ==> !Surplus(txs, pending, result[i])
    ensures LiveOnce(txs, result[..k])
  {
    hide Tx.Priority;
    forall i | 0 <= i < k ensures result[i].hash in txs && txs[result[i].hash] == result[i] && pending[result[i]] == 1 {
      assert result[i] in result && result[i] in multiset(result) && !Surplus(txs, pending, result[i]);
    }
    forall i, j | 0 <= i < j < k ensures result[i].hash != result[j].hash {
      if result[i] == result[j] {
        RepeatsCount(result, i, j);
      }
    }
  }

  /** Above a surplus entry the answer holds more than the live transactions there. */
  lemma SurplusShifts(txs: map<Hash, Tx>, pending: multiset<Tx>, result: seq<Tx>, now: int, s: Tx)
    requires Filed(txs) && AllEntered(txs, pending) && HandedOut(txs, pending, result, now)
    requires Surplus(txs, pending, s) && |AtLeast(txs, s.Priority(now), now)| < |result|
    ensures var m := |AtLeast(txs, s.Priority(now), now)|;
            result[m].Priority(now) >= s.Priority(now) && |AtLeast(txs, result[m].Priority(now), now)| <= m
  {
    hide Tx.Priority;
    var hs := AtLeast(txs, s.Priority(now), now);
    var m := |hs|;
    if result[m].Priority(now) < s.Priority(now) {
      AllDrawnAbove(txs, pending, result, now, s, m);
      OneMoreIn(txs, hs, result[..m], s);
      assert false;
    }
    SubsetSize(AtLeast(txs, result[m].Priority(now), now), hs);
  }

  /** Entries of a live hash above something handed out are all handed out before it. */
  lemma AllDrawnBefore(txs: map<Hash, Tx>, pending: multiset<Tx>, result: seq<Tx>, now: int, t: Tx, m: nat)
    requires HandedOut(txs, pending, result, now) && t in pending && t.hash in txs
    requires m < |result| && result[m].Priority(now) < t.Priority(now)
    ensures multiset(result[..m])[t] == pending[t]
  {
    hide Tx.Priority, AllLive;
    assert result[m] in result && t !in pending - multiset(result);
    assert result == result[..m] + result[m..];
    assert t !in result[m..];
  }

  lemma AllDrawnAbove(txs: map<Hash, Tx>, pending: multiset<Tx>, result: seq<Tx>, now: int, s: Tx, m: nat)
    requires AllEntered(txs, pending) && HandedOut(txs, pending, result, now) && Surplus(txs, pending, s)
    requires Filed(txs) && m < |result| && result[m].Priority(now) < s.Priority(now)
    ensures forall h :: h in AtLeast(txs, s.Priority(now), now) ==> txs[h] in result[..m]
    ensures multiset(result[..m])[s] > (if txs[s.hash] == s then 1 else 0)
  {
    hide Tx.Priority, HandedOut;
    AllDrawnBefore(txs, pending, result, now, s, m);
    forall h | h in AtLeast(txs, s.Priority(now), now) ensures txs[h] in result[..m] {
      AllDrawnBefore(txs, pending, result, now, txs[h], m);
      assert txs[h] in multiset(result[..m]);
    }
  }

  /** With a surplus copy there is one more element. */
  lemma OneMoreIn(txs: map<Hash, Tx>, hs: set<Hash>, r: seq<Tx>, s: Tx)
    requires Filed(txs) && hs <= txs.Keys && forall h :: h in hs ==> txs[h] in r
    requires s.hash in txs && multiset(r)[s] > (if txs[s.hash] == s then 1 else 0)
    ensures |hs| < |r|
  {
    assert s in multiset(r);
    var i :| 0 <= i < |r| && r[i] == s;
    var rest := r[..i] + r[i + 1..];
    assert r == r[..i] + [s] + r[i + 1..];
    assert multiset(rest) == multiset(r) - multiset{s};
    forall h | h in hs ensures txs[h] in rest {
      assert txs[h] in multiset(r);
      assert txs[h] in multiset(rest);
    }
    ManyIn(txs, hs, rest);
  }

  /**
   The exact condition: the highest live priorities are handed out if and only if against every
   surplus entry as many live transactions as asked for rank at least as high.
   */
  lemma RanksRightIff(txs: map<Hash, Tx>, pending: multiset<Tx>, result: seq<Tx>, now: int)
    requires Filed(txs) && AllEntered(txs, pending) && HandedOut(txs, pending, result, now)
    ensures RanksRight(txs, result, now) <==> SurplusMatched(txs, pending, |result|, now)
  {
    hide Tx.Priority, HandedOut, Surplus, AtLeast, Above, LiveOnce, Filed;
    if SurplusMatched(txs, pending, |result|, now) {
      forall k: nat | k < |result|
        ensures |Above(txs, result[k].Priority(now), now)| <= k < |AtLeast(txs, result[k].Priority(now), now)|
      {
        FewAbove(txs, pending, result, now, k);
        MatchedIsEnough(txs, pending, result, now, k);
      }
    } else {
      var s :| Surplus(txs, pending, s) && |AtLeast(txs, s.Priority(now), now)| < |result|;
      SurplusShifts(txs, pending, result, now, s);
      var m := |AtLeast(txs, s.Priority(now), now)|;
      assert |AtLeast(txs, result[m].Priority(now), now)| <= m;
    }
  }

  lemma MatchedIsEnough(txs: map<Hash, Tx>, pending: multiset<Tx>, result: seq<Tx>, now: int, k: nat)
    requires HandedOut(txs, pending, result, now) && SurplusMatched(txs, pending, |result|, now) && k < |result|
    ensures k < |AtLeast(txs, result[k].Priority(now), now)|
  {
    hide Tx.Priority, Surplus, LiveOnce;
    if i :| 0 <= i <= k && Surplus(txs, pending, result[i]) {
      SubsetSize(AtLeast(txs, result[i].Priority(now), now), AtLeast(txs, result[k].Priority(now), now));
    } else {
      NotSurplusIsLive(txs, pending, result, now, k + 1);
      EnoughAtLeast(txs, result, now, k);
    }
  }

  /**
   Whether it is the live transactions themselves, none twice: if as many as asked for rank strictly
   above every surplus entry; not if a surplus entry has fewer at its rank or above.  In between, a
   surplus entry ties with the last one handed out, and the heap's layout decides.
   */
  lemma LiveOnceHalves(txs: map<Hash, Tx>, pending: multiset<Tx>, result: seq<Tx>, now: int)
    requires Filed(txs) && AllEntered(txs, pending) && HandedOut(txs, pending, result, now)
    ensures SurplusOutranked(txs, pending, |result|, now) ==> LiveOnce(txs, result)
    ensures LiveOnce(txs, result) ==> SurplusMatched(txs, pending, |result|, now)
  {
    hide Tx.Priority, Surplus, AtLeast, Above, Filed, AllEntered, Descends, AllLive;
    assert result[..|result|] == result;
    if SurplusOutranked(txs, pending, |result|, now) {
      forall k: nat | k < |result| ensures !Surplus(txs, pending, result[k]) {
        FewAbove(txs, pending, result, now, k);
      }
      NotSurplusIsLive(txs, pending, result, now, |result|);
    }
    if LiveOnce(txs, result) && !SurplusMatched(txs, pending, |result|, now) {
      var s :| Surplus(txs, pending, s) && |AtLeast(txs, s.Priority(now), now)| < |result|;
      SurplusShifts(txs, pending, result, now, s);
      EnoughAtLeast(txs, result, now, |AtLeast(txs, s.Priority(now), now)|);
      assert false;
    }
  }
}
