/**
 The seen cache of pkg/node/broadcast.go under any interleaving of MarkSeen calls with the cleanup
 sweep: every load, store and counter update is one step.  The clock never runs backwards.
 */
module SeenCache {
  import opened Common

  type Hash = nat
  type Time = int

  /** A MarkSeen call: it reads the clock, then loads or stores, then counts what it stored. */
  datatype MarkPc =
    | Idle
    | LoadOrStore(hash: Hash, stamp: Time)
    | AddCount(hash: Hash)
    | Returned(hash: Hash, isNew: bool)

  /** A sweep: it visits entries in any order, each at most once, and deducts what it deleted at the end. */
  datatype SweepPc =
    | Resting
    | Scanning(now: Time, deleted: nat, visited: set<Hash>)
    | Deleting(now: Time, deleted: nat, visited: set<Hash>, hash: Hash)

  datatype State = State(clock: Time, cache: map<Hash, Time>, count: int, threads: seq<MarkPc>, sweep: SweepPc)

  /** `Visit` picks the next entry of a sweep; `EndSweep` ends it. */
  datatype Turn = Tick(later: Time) | Mark(thread: nat, hash: Hash) | Visit(hash: Hash) | EndSweep

  function Init(threads: nat): State {
    State(0, map[], 0, seq(threads, _ => Idle), Resting)
  }

  ghost predicate Enabled(threads: nat, turn: Turn) {
    turn.Mark? ==> turn.thread < threads
  }

  function MarkStep(s: State, t: nat, hash: Hash): State
    requires t < |s.threads|
  {
    match s.threads[t]
    case Idle => s.(threads := s.threads[t := LoadOrStore(hash, s.clock)])
    case LoadOrStore(h, stamp) =>
      if h in s.cache then s.(threads := s.threads[t := Returned(h, false)])
      else s.(cache := s.cache[h := stamp], threads := s.threads[t := AddCount(h)])
    case AddCount(h) => s.(count := s.count + 1, threads := s.threads[t := Returned(h, true)])
    case Returned(_, _) => s.(threads := s.threads[t := Idle])
  }

  /** A visit of an entry older than the lifetime turns into its deletion. */
  function VisitStep(s: State, ttl: Time, hash: Hash): State {
    match s.sweep
    case Resting => s.(sweep := Scanning(s.clock, 0, {}))
    case Scanning(now, deleted, visited) =>
      if hash !in s.cache || hash in visited then s
      else if now - s.cache[hash] > ttl then s.(sweep := Deleting(now, deleted, visited + {hash}, hash))
      else s.(sweep := Scanning(now, deleted, visited + {hash}))
    case Deleting(now, deleted, visited, h) =>
      s.(cache := s.cache - {h}, sweep := Scanning(now, deleted + 1, visited))
  }

  function Step(s: State, ttl: Time, turn: Turn): State
    requires Enabled(|s.threads|, turn)
  {
    match turn
    case Tick(later) => if later >= s.clock then s.(clock := later) else s
    case Mark(t, hash) => MarkStep(s, t, hash)
    case Visit(hash) => VisitStep(s, ttl, hash)
    case EndSweep => if s.sweep.Scanning? then s.(count := s.count - s.sweep.deleted, sweep := Resting) else s
  }

  predicate Counting(pc: MarkPc) { pc.AddCount? }

  /** Deletions the sweep has made and not deducted yet. */
  function Undeducted(sweep: SweepPc): nat {
    if sweep.Resting? then 0 else sweep.deleted
  }

  /** The counter, plus what is stored and not counted, minus what is deleted and not deducted, is the cache size. */
  ghost predicate CountExact(s: State) {
    s.count + Count(s.threads, Counting) - Undeducted(s.sweep) == |s.cache|
  }

  /** An entry about to be deleted is the one that was found too old: nothing replaces it meanwhile. */
  ghost predicate SweepOk(s: State, ttl: Time) {
    match s.sweep
    case Resting => true
    case Scanning(now, _, _) => now <= s.clock
    case Deleting(now, _, _, h) => now <= s.clock && h in s.cache && now - s.cache[h] > ttl
  }

  ghost predicate StampsOk(s: State) {
    forall t :: 0 <= t < |s.threads| && s.threads[t].LoadOrStore? ==> s.threads[t].stamp <= s.clock
  }

  ghost predicate Inv(s: State, ttl: Time) {
    CountExact(s) && SweepOk(s, ttl) && StampsOk(s)
  }

  lemma MarkKeepsInv(s: State, ttl: Time, t: nat, hash: Hash)
    requires Inv(s, ttl) && t < |s.threads|
    ensures Inv(MarkStep(s, t, hash), ttl)
  {
    hide Count;
    var s' := MarkStep(s, t, hash);
    CountUpdate(s.threads, t, s'.threads[t], Counting);
    assert s'.threads == s.threads[t := s'.threads[t]];
    if s.threads[t].LoadOrStore? && s.threads[t].hash !in s.cache {
      assert s'.cache.Keys == s.cache.Keys + {s.threads[t].hash};
      assert |s'.cache| == |s'.cache.Keys| && |s.cache| == |s.cache.Keys|;
    }
  }

  lemma VisitKeepsInv(s: State, ttl: Time, hash: Hash)
    requires Inv(s, ttl)
    ensures Inv(VisitStep(s, ttl, hash), ttl)
  {
    hide Count;
    if s.sweep.Deleting? {
      var s' := VisitStep(s, ttl, hash);
      assert s'.cache.Keys == s.cache.Keys - {s.sweep.hash};
      assert |s'.cache| == |s'.cache.Keys| && |s.cache| == |s.cache.Keys|;
    }
  }

  lemma StepKeepsInv(s: State, ttl: Time, turn: Turn)
    requires Inv(s, ttl) && Enabled(|s.threads|, turn)
    ensures Inv(Step(s, ttl, turn), ttl)
  {
    hide MarkStep, VisitStep, Count;
    match turn
    case Mark(t, hash) => MarkKeepsInv(s, ttl, t, hash);
    case Visit(hash) => VisitKeepsInv(s, ttl, hash);
    case _ =>
  }

  // ---------------------------------------------------------------------------------------
  // Interleavings.

  ghost predicate Scheduled(threads: nat, turns: seq<Turn>) {
    forall i :: 0 <= i < |turns| ==> Enabled(threads, turns[i])
  }

  ghost function After(threads: nat, ttl: Time, turns: seq<Turn>): (s: State)
    requires Scheduled(threads, turns)
    ensures |s.threads| == threads
    decreases |turns|
  {
    if turns == [] then Init(threads)
    else
      var s := After(threads, ttl, turns[..|turns| - 1]);
      Step(s, ttl, turns[|turns| - 1])
  }

  /** The state after the first `k` turns. */
  ghost function Moment(threads: nat, ttl: Time, turns: seq<Turn>, k: nat): (s: State)
    requires Scheduled(threads, turns) && k <= |turns|
    ensures |s.threads| == threads
  {
    After(threads, ttl, turns[..k])
  }

  lemma NextMoment(threads: nat, ttl: Time, turns: seq<Turn>, k: nat)
    requires Scheduled(threads, turns) && k < |turns|
    ensures Moment(threads, ttl, turns, k + 1) == Step(Moment(threads, ttl, turns, k), ttl, turns[k])
  {
    assert turns[..k + 1][..k] == turns[..k];
  }

  /** In every reachable state the counter is exact up to the updates in flight. */
  lemma {:induction false} Reachable(threads: nat, ttl: Time, turns: seq<Turn>, k: nat)
    requires Scheduled(threads, turns) && k <= |turns|
    ensures Inv(Moment(threads, ttl, turns, k), ttl)
  {
    if k == 0 {
      CountZero(Init(threads).threads, Counting);
    } else {
      Reachable(threads, ttl, turns, k - 1);
      NextMoment(threads, ttl, turns, k - 1);
      StepKeepsInv(Moment(threads, ttl, turns, k - 1), ttl, turns[k - 1]);
    }
  }

  /** At turn `k` some call stores an entry for `hash`. */
  ghost predicate StoresAt(threads: nat, ttl: Time, turns: seq<Turn>, k: nat, hash: Hash)
    requires Scheduled(threads, turns) && k < |turns|
  {
    Stores(Moment(threads, ttl, turns, k), turns[k], hash)
  }

  ghost predicate Stores(s: State, turn: Turn, hash: Hash)
    requires Enabled(|s.threads|, turn)
  {
    turn.Mark? && s.threads[turn.thread].LoadOrStore? && s.threads[turn.thread].hash == hash && hash !in s.cache
  }

  /** At turn `k` a caller is told that `hash` is new. */
  ghost predicate Tells(s: State, turn: Turn, hash: Hash)
    requires Enabled(|s.threads|, turn)
  {
    turn.Mark? && s.threads[turn.thread] == AddCount(hash)
  }

  /** How often the first `k` turns stored an entry for the hash, and told a caller that it is new. */
  ghost function Stored(threads: nat, ttl: Time, turns: seq<Turn>, k: nat, hash: Hash): nat
    requires Scheduled(threads, turns) && k <= |turns|
  {
    if k == 0 then 0
    else Stored(threads, ttl, turns, k - 1, hash)
         + if Stores(Moment(threads, ttl, turns, k - 1), turns[k - 1], hash) then 1 else 0
  }

  ghost function Told(threads: nat, ttl: Time, turns: seq<Turn>, k: nat, hash: Hash): nat
    requires Scheduled(threads, turns) && k <= |turns|
  {
    if k == 0 then 0
    else Told(threads, ttl, turns, k - 1, hash)
         + if Tells(Moment(threads, ttl, turns, k - 1), turns[k - 1], hash) then 1 else 0
  }

  ghost function CountingHash(hash: Hash): MarkPc -> bool {
    (pc: MarkPc) => pc == AddCount(hash)
  }

  lemma TellsOnceStep(s: State, ttl: Time, turn: Turn, hash: Hash)
    requires Enabled(|s.threads|, turn)
    ensures Count(Step(s, ttl, turn).threads, CountingHash(hash)) ==
            Count(s.threads, CountingHash(hash))
            + (if Stores(s, turn, hash) then 1 else 0) - (if Tells(s, turn, hash) then 1 else 0)
  {
    hide Count;
    if turn.Mark? {
      var s' := Step(s, ttl, turn);
      assert s'.threads == s.threads[turn.thread := s'.threads[turn.thread]];
      CountUpdate(s.threads, turn.thread, s'.threads[turn.thread], CountingHash(hash));
    }
  }

  /**
   Exactly one caller gets true per stored entry: at every moment the callers told so far and the
   calls about to be told together are as many as the entries stored.
   */
  lemma {:induction false} OneCallerPerEntry(threads: nat, ttl: Time, turns: seq<Turn>, k: nat, hash: Hash)
    requires Scheduled(threads, turns) && k <= |turns|
    ensures Told(threads, ttl, turns, k, hash) + Count(Moment(threads, ttl, turns, k).threads, CountingHash(hash))
            == Stored(threads, ttl, turns, k, hash)
  {
    hide Moment;
    if k == 0 {
      StartsIdle(threads, ttl, turns);
      CountZero(Init(threads).threads, CountingHash(hash));
    } else {
      OneCallerPerEntry(threads, ttl, turns, k - 1, hash);
      NextMoment(threads, ttl, turns, k - 1);
      TellsOnceStep(Moment(threads, ttl, turns, k - 1), ttl, turns[k - 1], hash);
    }
  }

  lemma StartsIdle(threads: nat, ttl: Time, turns: seq<Turn>)
    requires Scheduled(threads, turns)
    ensures Moment(threads, ttl, turns, 0) == Init(threads)
  {
  }

  /** The timestamp recorded by the store at turn `k`. */
  ghost function StampAt(threads: nat, ttl: Time, turns: seq<Turn>, k: nat, hash: Hash): Time
    requires Scheduled(threads, turns) && k < |turns| && StoresAt(threads, ttl, turns, k, hash)
  {
    Moment(threads, ttl, turns, k).threads[turns[k].thread].stamp
  }

  /** An entry stays, or its lifetime is over. */
  ghost predicate KeptOrOver(s: State, ttl: Time, hash: Hash, stamp: Time) {
    (hash in s.cache && s.cache[hash] == stamp) || s.clock - stamp > ttl
  }

  lemma StepKeepsEntry(s: State, ttl: Time, turn: Turn, hash: Hash, stamp: Time)
    requires Inv(s, ttl) && Enabled(|s.threads|, turn) && KeptOrOver(s, ttl, hash, stamp)
    ensures KeptOrOver(Step(s, ttl, turn), ttl, hash, stamp)
  {
    hide Count;
  }

  lemma {:induction false} EntryStays(threads: nat, ttl: Time, turns: seq<Turn>, i: nat, j: nat, hash: Hash)
    requires Scheduled(threads, turns) && i < j <= |turns| && StoresAt(threads, ttl, turns, i, hash)
    ensures KeptOrOver(Moment(threads, ttl, turns, j), ttl, hash, StampAt(threads, ttl, turns, i, hash))
  {
    hide Moment, Inv;
    NextMoment(threads, ttl, turns, j - 1);
    Reachable(threads, ttl, turns, j - 1);
    if i + 1 < j {
      EntryStays(threads, ttl, turns, i, j - 1, hash);
      StepKeepsEntry(
        Moment(threads, ttl, turns, j - 1), ttl, turns[j - 1], hash, StampAt(threads, ttl, turns, i, hash));
    }
  }

  /** A hash is new again only more than the lifetime after the timestamp of any entry it had before. */
  lemma NewAgainOnlyAfterTTL(threads: nat, ttl: Time, turns: seq<Turn>, i: nat, j: nat, hash: Hash)
    requires Scheduled(threads, turns) && i < j < |turns|
    requires StoresAt(threads, ttl, turns, i, hash) && StoresAt(threads, ttl, turns, j, hash)
    ensures Moment(threads, ttl, turns, j).clock - StampAt(threads, ttl, turns, i, hash) > ttl
  {
    EntryStays(threads, ttl, turns, i, j, hash);
  }

  // ---------------------------------------------------------------------------------------
  // Answers, stamps and sweeps.

  /** A caller told that the hash is not new found an entry at that very moment. */
  lemma RefusedWasSeen(threads: nat, ttl: Time, turns: seq<Turn>, k: nat, t: nat, hash: Hash)
    requires Scheduled(threads, turns) && k < |turns| && t < threads
    requires Moment(threads, ttl, turns, k).threads[t] != Returned(hash, false)
    requires Moment(threads, ttl, turns, k + 1).threads[t] == Returned(hash, false)
    ensures hash in Moment(threads, ttl, turns, k).cache
  {
    hide Moment;
    NextMoment(threads, ttl, turns, k);
  }

  /** How many turns thread `t` has had since it was last idle. */
  ghost function OwnTurns(threads: nat, ttl: Time, turns: seq<Turn>, k: nat, t: nat): nat
    requires Scheduled(threads, turns) && k <= |turns| && t < threads
  {
    if k == 0 then 0
    else if turns[k - 1].Mark? && turns[k - 1].thread == t then
      (if Moment(threads, ttl, turns, k - 1).threads[t].Idle? then 1 else OwnTurns(threads, ttl, turns, k - 1, t) + 1)
    else OwnTurns(threads, ttl, turns, k - 1, t)
  }

  /** A MarkSeen call has its answer after at most three turns of its own, whatever the others do. */
  lemma {:induction false} MarkFinishes(threads: nat, ttl: Time, turns: seq<Turn>, k: nat, t: nat)
    requires Scheduled(threads, turns) && k <= |turns| && t < threads
    requires !Moment(threads, ttl, turns, k).threads[t].Idle?
    ensures 1 <= OwnTurns(threads, ttl, turns, k, t) <= 3
    ensures var pc, n := Moment(threads, ttl, turns, k).threads[t], OwnTurns(threads, ttl, turns, k, t);
            (n == 3 ==> pc.Returned?) && (n == 2 ==> pc.Returned? || pc.AddCount?) && (n == 1 ==> pc.LoadOrStore?)
  {
    hide Moment;
    if k == 0 {
      StartsIdle(threads, ttl, turns);
    } else {
      NextMoment(threads, ttl, turns, k - 1);
      if !Moment(threads, ttl, turns, k - 1).threads[t].Idle? {
        MarkFinishes(threads, ttl, turns, k - 1, t);
      }
    }
  }

  /** The stamp a call stores is the clock of the moment at which it was called. */
  lemma {:induction false} StampIsCallTime(threads: nat, ttl: Time, turns: seq<Turn>, k: nat, t: nat) returns (c: nat)
    requires Scheduled(threads, turns) && k <= |turns| && t < threads
    requires Moment(threads, ttl, turns, k).threads[t].LoadOrStore?
    ensures c < k && turns[c] == Mark(t, Moment(threads, ttl, turns, k).threads[t].hash)
    ensures Moment(threads, ttl, turns, c).threads[t].Idle?
    ensures Moment(threads, ttl, turns, k).threads[t].stamp == Moment(threads, ttl, turns, c).clock
  {
    hide Moment;
    c := 0;
    if k == 0 {
      StartsIdle(threads, ttl, turns);
    } else {
      NextMoment(threads, ttl, turns, k - 1);
      if Moment(threads, ttl, turns, k - 1).threads[t].LoadOrStore? {
        c := StampIsCallTime(threads, ttl, turns, k - 1, t);
      } else {
        c := k - 1;
      }
    }
  }

  /** One sweep is under way from moment `k` on, and at `j` it is between two entries. */
  ghost predicate OneSweep(threads: nat, ttl: Time, turns: seq<Turn>, k: nat, j: nat)
    requires Scheduled(threads, turns) && k <= j <= |turns|
  {
    forall m :: k <= m <= j ==> !Moment(threads, ttl, turns, m).sweep.Resting?
  }

  ghost predicate StoredBetween(threads: nat, ttl: Time, turns: seq<Turn>, k: nat, j: nat, hash: Hash)
    requires Scheduled(threads, turns) && k <= j <= |turns|
  {
    exists m :: k <= m < j && StoresAt(threads, ttl, turns, m, hash)
  }

  /** The sweep is done with the hash: gone, young enough, stored since, or about to be deleted. */
  ghost predicate SeenTo(s: State, ttl: Time, now: Time, hash: Hash, storedSince: bool) {
    && !s.sweep.Resting? && s.sweep.now == now
    && ((s.sweep.Deleting? && s.sweep.hash == hash) || hash !in s.cache || now - s.cache[hash] <= ttl || storedSince)
  }

  lemma {:induction false} StaysSeenTo(threads: nat, ttl: Time, turns: seq<Turn>, k: nat, j: nat, hash: Hash)
    requires Scheduled(threads, turns) && k < j <= |turns| && OneSweep(threads, ttl, turns, k, j)
    requires turns[k] == Visit(hash)
    requires var s := Moment(threads, ttl, turns, k); s.sweep.Scanning? && hash !in s.sweep.visited
    ensures var s, s' := Moment(threads, ttl, turns, k), Moment(threads, ttl, turns, j);
            SeenTo(s', ttl, s.sweep.now, hash, StoredBetween(threads, ttl, turns, k, j, hash))
  {
    hide Moment;
    NextMoment(threads, ttl, turns, j - 1);
    var s := Moment(threads, ttl, turns, j - 1);
    assert !Moment(threads, ttl, turns, j).sweep.Resting?;
    if k + 1 < j {
      StaysSeenTo(threads, ttl, turns, k, j - 1, hash);
      Reachable(threads, ttl, turns, j - 1);
      if Stores(s, turns[j - 1], hash) {
        assert StoresAt(threads, ttl, turns, j - 1, hash);
      }
    }
  }

  /**
   What a sweep has visited it has forgotten if its lifetime was over: between two entries, and so
   also when it ends, the hash is gone, or still within its lifetime, or was stored again since.
   */
  lemma SweepForgets(threads: nat, ttl: Time, turns: seq<Turn>, k: nat, j: nat, hash: Hash)
    requires Scheduled(threads, turns) && k < j <= |turns| && OneSweep(threads, ttl, turns, k, j)
    requires turns[k] == Visit(hash)
    requires var s := Moment(threads, ttl, turns, k); s.sweep.Scanning? && hash !in s.sweep.visited
    requires Moment(threads, ttl, turns, j).sweep.Scanning?
    ensures var s, s' := Moment(threads, ttl, turns, k), Moment(threads, ttl, turns, j);
            || hash !in s'.cache || s.sweep.now - s'.cache[hash] <= ttl
            || exists m :: k <= m < j && StoresAt(threads, ttl, turns, m, hash)
  {
    hide Moment;
    StaysSeenTo(threads, ttl, turns, k, j, hash);
  }

  /** A sweep judges by the clock of the moment at which it began. */
  lemma {:induction false} SweepBegan(threads: nat, ttl: Time, turns: seq<Turn>, j: nat) returns (k: nat)
    requires Scheduled(threads, turns) && j <= |turns| && !Moment(threads, ttl, turns, j).sweep.Resting?
    ensures k < j && Moment(threads, ttl, turns, k).sweep.Resting? && OneSweep(threads, ttl, turns, k + 1, j)
    ensures Moment(threads, ttl, turns, j).sweep.now == Moment(threads, ttl, turns, k).clock
  {
    hide Moment;
    k := 0;
    if j == 0 {
      StartsIdle(threads, ttl, turns);
    } else {
      NextMoment(threads, ttl, turns, j - 1);
      if Moment(threads, ttl, turns, j - 1).sweep.Resting? {
        k := j - 1;
      } else {
        k := SweepBegan(threads, ttl, turns, j - 1);
      }
    }
  }

  lemma AfterMore(threads: nat, ttl: Time, turns: seq<Turn>, turn: Turn)
    requires Scheduled(threads, turns) && Enabled(threads, turn)
    ensures Scheduled(threads, turns + [turn])
    ensures After(threads, ttl, turns + [turn]) == Step(After(threads, ttl, turns), ttl, turn)
  {
    assert (turns + [turn])[..|turns|] == turns;
  }

  /** A sweep can end at any time, with at most one deletion left to make, and then all it deleted is deducted. */
  lemma SweepCanEnd(threads: nat, ttl: Time, turns: seq<Turn>) returns (more: seq<Turn>)
    requires Scheduled(threads, turns) && !After(threads, ttl, turns).sweep.Resting?
    ensures |more| <= 2 && Scheduled(threads, turns + more)
    ensures forall i :: 0 <= i < |more| ==> !more[i].Mark? && !more[i].Tick?
    ensures var s, s' := After(threads, ttl, turns), After(threads, ttl, turns + more);
            && s'.sweep.Resting? && s'.threads == s.threads && s'.clock == s.clock
            && s'.count == s.count - s.sweep.deleted - (if s.sweep.Deleting? then 1 else 0)
            && s'.cache == (if s.sweep.Deleting? then s.cache - {s.sweep.hash} else s.cache)
  {
    hide After;
    var first := if After(threads, ttl, turns).sweep.Deleting? then [Visit(0)] else [];
    if first != [] {
      AfterMore(threads, ttl, turns, Visit(0));
    } else {
      assert turns + first == turns;
    }
    AfterMore(threads, ttl, turns + first, EndSweep);
    more := first + [EndSweep];
    assert turns + more == turns + first + [EndSweep];
  }

  /** A sweep that visits one expired entry deletes it, and only it, and the counter goes down by one. */
  lemma SweepCanForget(threads: nat, ttl: Time, turns: seq<Turn>, hash: Hash)
    requires Scheduled(threads, turns)
    requires var s := After(threads, ttl, turns); s.sweep.Resting? && hash in s.cache && s.clock - s.cache[hash] > ttl
    ensures Scheduled(threads, turns + [Visit(hash)] + [Visit(hash)] + [Visit(hash)] + [EndSweep])
    ensures var s, s' := After(threads, ttl, turns),
                         After(threads, ttl, turns + [Visit(hash)] + [Visit(hash)] + [Visit(hash)] + [EndSweep]);
            s'.sweep.Resting? && s'.cache == s.cache - {hash} && s'.count == s.count - 1
  {
    hide After;
    var v := [Visit(hash)];
    AfterMore(threads, ttl, turns, Visit(hash));
    AfterMore(threads, ttl, turns + v, Visit(hash));
    AfterMore(threads, ttl, turns + v + v, Visit(hash));
    AfterMore(threads, ttl, turns + v + v + v, EndSweep);
  }

  /** While no call and no sweep is under way the counter is the cache size. */
  lemma QuiescentCount(threads: nat, ttl: Time, turns: seq<Turn>, k: nat)
    requires Scheduled(threads, turns) && k <= |turns|
    requires var s := Moment(threads, ttl, turns, k);
             s.sweep.Resting? && forall t :: 0 <= t < threads ==> !s.threads[t].AddCount?
    ensures Moment(threads, ttl, turns, k).count == |Moment(threads, ttl, turns, k).cache|
  {
    Reachable(threads, ttl, turns, k);
    CountZero(Moment(threads, ttl, turns, k).threads, Counting);
  }
}
