/**
 Get of pkg/ds/lockfree/hashmap.go beside any number of Put and Delete calls.  A Get only reads, so
 each of its loads is a look at the shared state of some moment of the writers' run, one moment no
 earlier than the one before.
 */
module HashMapReaders {
  import opened Common
  import opened HashMapSteps
  import opened HashMapRuns

  datatype Reader =
    | Start                  // loads the bucket's entry, or else the head, which never changes
    | At(curr: Option<nat>)  // compares, then loads the flag or the next pointer
    | Clear(node: nat)       // the flag was clear; loads the value
    | Hit(value: Value)
    | Miss

  function EntryOf(p: Params, s: State, key: Key): nat {
    var b := if s.bucketCount == 0 then 0 else p.hashOf(key) % s.bucketCount;
    if b in s.buckets then s.buckets[b] else 0
  }

  /** One load of the reader from this shared state. */
  function Read(p: Params, s: State, key: Key, r: Reader): Reader {
    match r
    case Start => At(Some(EntryOf(p, s, key)))
    case At(None) => Miss
    case At(Some(n)) =>
      if n >= |s.nodes| then Miss
      else if s.nodes[n].hash == p.hashOf(key) && s.nodes[n].key == key then (if s.nodes[n].deleted then Miss else Clear(n))
      else if s.nodes[n].hash > p.hashOf(key) then Miss
      else At(s.nodes[n].next)
    case Clear(n) => if n < |s.nodes| then Hit(s.nodes[n].value) else Miss
    case Hit(_) => r
    case Miss => r
  }

  /** The moments at which a Get makes its loads. */
  ghost predicate Reading(g: Program, turns: seq<Turn>, moments: seq<nat>) {
    && Scheduled(g, turns)
    && (forall i :: 0 <= i < |moments| ==> moments[i] <= |turns|)
    && forall i, j :: 0 <= i < j < |moments| ==> moments[i] <= moments[j]
  }

  ghost function ReaderAfter(g: Program, turns: seq<Turn>, key: Key, moments: seq<nat>): Reader
    requires Reading(g, turns, moments)
  {
    if moments == [] then Start
    else
      var last := |moments| - 1;
      Read(g.params, After(g, turns[..moments[last]]), key, ReaderAfter(g, turns, key, moments[..last]))
  }

  // ---------------------------------------------------------------------------------------
  // From one moment to a later one.

  lemma {:induction false} NodesLast(g: Program, turns: seq<Turn>, i: nat, j: nat)
    requires Scheduled(g, turns) && i <= j <= |turns|
    ensures var nodes, nodes' := After(g, turns[..i]).nodes, After(g, turns[..j]).nodes;
            && |nodes| <= |nodes'|
            && forall n :: 0 <= n < |nodes| ==> nodes'[n].key == nodes[n].key && nodes'[n].hash == nodes[n].hash
  {
    if i < j {
      NodesLast(g, turns, i, j - 1);
      assert turns[..j][..j - 1] == turns[..j - 1];
      KeysStay(g.params, After(g, turns[..j - 1]), turns[j - 1].thread, turns[j - 1].op);
    }
  }

  /** What a reader holds is linked, and a clear flag was seen on a node of its key. */
  ghost predicate Holds(p: Params, s: State, v: View, key: Key, r: Reader) {
    match r
    case At(Some(n)) => v.Has(n) && n < |s.nodes|
    case Clear(n) => v.Has(n) && n < |s.nodes| && n != 0 && s.nodes[n].key == key
    case _ => true
  }

  lemma HoldsLater(g: Program, turns: seq<Turn>, i: nat, j: nat, key: Key, r: Reader)
    requires Scheduled(g, turns) && i <= j <= |turns|
    requires Holds(g.params, After(g, turns[..i]), ViewAfter(g, turns[..i]), key, r)
    ensures Holds(g.params, After(g, turns[..j]), ViewAfter(g, turns[..j]), key, r)
  {
    hide After, ViewAfter;
    NodesLast(g, turns, i, j);
    NeverUnlinked(g, turns, i, j);
  }

  lemma HoldsOn(p: Params, s: State, v: View, key: Key, r: Reader)
    requires SortedList(p, s.nodes, v) && BucketsOk(p, s, v) && Holds(p, s, v, key, r)
    requires p.hashOf("") != 0 && s.nodes[0].key == ""
    ensures Holds(p, s, v, key, Read(p, s, key, r))
    ensures Read(p, s, key, r).Clear? && !r.Clear? ==> IsLive(s.nodes, v, key)
  {
    if r.At? && r.curr.Some? {
      assert Linked(s.nodes, v, r.curr.value);
      if s.nodes[r.curr.value].next.Some? {
        assert Linked(s.nodes, v, s.nodes[r.curr.value].next.value);
      }
    }
  }

  lemma Dummy(g: Program, turns: seq<Turn>, k: nat)
    requires Scheduled(g, turns) && k <= |turns|
    ensures |After(g, turns[..k]).nodes| > 0 && After(g, turns[..k]).nodes[0].key == ""
  {
    NodesLast(g, turns, 0, k);
  }

  // ---------------------------------------------------------------------------------------
  // What a hit says.

  /** The key was live at one of the first `k` moments of the Get. */
  ghost predicate SeenLive(g: Program, turns: seq<Turn>, key: Key, moments: seq<nat>)
    requires Reading(g, turns, moments)
  {
    exists i :: 0 <= i < |moments| && LiveAt(g, turns, moments[i], key)
  }

  /** Somebody had called Put with this key and value before this moment. */
  ghost predicate Written(g: Program, turns: seq<Turn>, key: Key, value: Value)
    requires Scheduled(g, turns)
  {
    exists c :: 0 <= c < |turns| && turns[c].op == Put(key, value) && After(g, turns[..c]).threads[turns[c].thread].Idle?
  }

  /** A step leaves a value alone, or it is its own operation's, stored under its own key. */
  lemma ValueStep(p: Params, s: State, v: View, t: nat, op: Op)
    requires t < |s.threads| && LocalsOk(p, s.nodes, v, s.threads[t])
    ensures var nodes', pc := Step(p, s, t, op).nodes, s.threads[t];
            forall n :: 0 <= n < |nodes'| ==>
              || (n < |s.nodes| && nodes'[n].value == s.nodes[n].value && nodes'[n].key == s.nodes[n].key)
              || (!pc.Idle? && pc.op.Put? && nodes'[n].key == pc.op.key && nodes'[n].value == pc.op.value)
  {
  }

  lemma WrittenLater(g: Program, turns: seq<Turn>, turn: Turn, key: Key, value: Value)
    requires Scheduled(g, turns + [turn]) && Scheduled(g, turns) && Written(g, turns, key, value)
    ensures Written(g, turns + [turn], key, value)
  {
    hide After;
    var c :| 0 <= c < |turns| && turns[c].op == Put(key, value) && After(g, turns[..c]).threads[turns[c].thread].Idle?;
    SameMoment(g, turns, turn, c);
    assert (turns + [turn])[c] == turns[c];
  }

  lemma CallWrites(g: Program, turns: seq<Turn>, t: nat)
    requires Scheduled(g, turns) && t < g.threads && !After(g, turns).threads[t].Idle?
    requires After(g, turns).threads[t].op.Put?
    ensures var op := After(g, turns).threads[t].op; Written(g, turns, op.key, op.value)
  {
    ThreadsOk(g, turns, t);
    CalledWhenIdle(g, turns, t);
    assert turns[LastCall(g, turns, t)].thread == t;
  }

  /** Every value in the list was put there by a Put of that key. */
  lemma {:induction false} ValuesWritten(g: Program, turns: seq<Turn>)
    requires Scheduled(g, turns)
    ensures var nodes := After(g, turns).nodes;
            forall n :: 0 < n < |nodes| ==> Written(g, turns, nodes[n].key, nodes[n].value)
  {
    if turns != [] {
      var before, last := turns[..|turns| - 1], turns[|turns| - 1];
      assert turns == before + [last];
      ValuesWritten(g, before);
      LastMoment(g, before, last);
      Reachable(g, before);
      var s, t := After(g, before), last.thread;
      OwnLocals(g.params, s, ViewAfter(g, before), t);
      ValueStep(g.params, s, ViewAfter(g, before), t, last.op);
      var nodes := After(g, turns).nodes;
      hide Structure, CounterExact, LocalsOk, PrivateOk, SortedList, BucketsOk, Written, After, Step, ViewAfter;
      forall n | 0 < n < |nodes| ensures Written(g, turns, nodes[n].key, nodes[n].value) {
        if n < |s.nodes| && nodes[n].value == s.nodes[n].value && nodes[n].key == s.nodes[n].key {
          WrittenLater(g, before, last, nodes[n].key, nodes[n].value);
        } else {
          CallWrites(g, before, t);
          WrittenLater(g, before, last, nodes[n].key, nodes[n].value);
        }
      }
    }
  }

  /** What the reader's state says about the moments so far. */
  ghost predicate Tells(g: Program, turns: seq<Turn>, key: Key, moments: seq<nat>)
    requires Reading(g, turns, moments)
  {
    var r := ReaderAfter(g, turns, key, moments);
    && (moments != [] ==>
          var k := moments[|moments| - 1];
          Holds(g.params, After(g, turns[..k]), ViewAfter(g, turns[..k]), key, r))
    && (moments == [] ==> r.Start?)
    && (r.Clear? || r.Hit? ==> SeenLive(g, turns, key, moments))
    && (r.Hit? ==> moments != [] && Written(g, turns[..moments[|moments| - 1]], key, r.value))
  }

  lemma SeenEarlier(g: Program, turns: seq<Turn>, key: Key, moments: seq<nat>)
    requires Reading(g, turns, moments) && moments != []
    ensures Reading(g, turns, moments[..|moments| - 1])
    ensures SeenLive(g, turns, key, moments[..|moments| - 1]) ==> SeenLive(g, turns, key, moments)
    ensures LiveAt(g, turns, moments[|moments| - 1], key) ==> SeenLive(g, turns, key, moments)
  {
    hide LiveAt;
    var front := moments[..|moments| - 1];
    if SeenLive(g, turns, key, front) {
      var i :| 0 <= i < |front| && LiveAt(g, turns, front[i], key);
      assert LiveAt(g, turns, moments[i], key);
    }
  }

  lemma WrittenBy(g: Program, turns: seq<Turn>, i: nat, j: nat, key: Key, value: Value)
    requires Scheduled(g, turns) && i <= j <= |turns| && Written(g, turns[..i], key, value)
    ensures Written(g, turns[..j], key, value)
  {
    hide After;
    var c :| 0 <= c < i && turns[..i][c].op == Put(key, value)
             && After(g, turns[..i][..c]).threads[turns[..i][c].thread].Idle?;
    assert turns[..i][..c] == turns[..c] == turns[..j][..c] && turns[..i][c] == turns[c] == turns[..j][c];
  }

  lemma {:induction false} ReaderTells(g: Program, turns: seq<Turn>, key: Key, moments: seq<nat>)
    requires Reading(g, turns, moments) && g.params.hashOf("") != 0
    ensures Tells(g, turns, key, moments)
  {
    if moments != [] {
      var front, k := moments[..|moments| - 1], moments[|moments| - 1];
      SeenEarlier(g, turns, key, moments);
      ReaderTells(g, turns, key, front);
      var r := ReaderAfter(g, turns, key, front);
      hide SeenLive, Written, Holds, Structure, CounterExact, After, ViewAfter, SortedList, BucketsOk;
      var s, v := After(g, turns[..k]), ViewAfter(g, turns[..k]);
      if front != [] {
        HoldsLater(g, turns, front[|front| - 1], k, key, r);
      } else {
        assert Holds(g.params, s, v, key, r) by {
          StartHolds(g.params, s, v, key);
        }
      }
      Reachable(g, turns[..k]);
      AllLinked(g.params, s, v);
      Dummy(g, turns, k);
      HoldsOn(g.params, s, v, key, r);
      if r.Clear? {
        ClearHolds(g.params, s, v, key, r);
        ValuesWritten(g, turns[..k]);
      } else if r.Hit? {
        WrittenBy(g, turns, front[|front| - 1], k, key, r.value);
      }
    }
  }

  lemma StartHolds(p: Params, s: State, v: View, key: Key)
    ensures Holds(p, s, v, key, Start)
  {
  }

  lemma ClearHolds(p: Params, s: State, v: View, key: Key, r: Reader)
    requires Holds(p, s, v, key, r) && r.Clear?
    ensures 0 < r.node < |s.nodes| && s.nodes[r.node].key == key
  {
  }

  lemma AllLinked(p: Params, s: State, v: View)
    requires Structure(p, s, v)
    ensures SortedList(p, s.nodes, v) && BucketsOk(p, s, v)
  {
  }

  /**
   A Get that finds its key was right: the key was live at one of the moments at which the Get looked,
   and the value is one that a Put of this key brought, called before the last of them.
   */
  lemma HitWasRight(g: Program, turns: seq<Turn>, key: Key, moments: seq<nat>)
    requires Reading(g, turns, moments) && g.params.hashOf("") != 0
    requires ReaderAfter(g, turns, key, moments).Hit?
    ensures SeenLive(g, turns, key, moments)
    ensures moments != []
            && Written(g, turns[..moments[|moments| - 1]], key, ReaderAfter(g, turns, key, moments).value)
  {
    ReaderTells(g, turns, key, moments);
  }

  // ---------------------------------------------------------------------------------------
  // What a miss says.

  /** The node of this key. */
  ghost predicate IsNode(p: Params, s: State, v: View, key: Key, n: nat) {
    v.Has(n) && n != 0 && n < |s.nodes| && s.nodes[n].key == key
  }

  /** The bucket's entry stands behind the key's node. */
  ghost predicate EntryBehind(p: Params, s: State, v: View, key: Key) {
    var b := if s.bucketCount == 0 then 0 else p.hashOf(key) % s.bucketCount;
    b in s.buckets && exists n :: IsNode(p, s, v, key, n) && v.Before(n, s.buckets[b])
  }

  /** The reader is on its way to node `n`, or past the comparison with it. */
  ghost predicate OnTheWay(s: State, v: View, n: nat, r: Reader) {
    match r
    case At(Some(m)) => v.Has(m) && v.Has(n) && m < |s.nodes| && (m == n || v.Before(m, n))
    case Clear(m) => m < |s.nodes|
    case Hit(_) => true
    case _ => false
  }

  lemma OnTheWayLater(g: Program, turns: seq<Turn>, i: nat, j: nat, n: nat, r: Reader)
    requires Scheduled(g, turns) && i <= j <= |turns|
    requires OnTheWay(After(g, turns[..i]), ViewAfter(g, turns[..i]), n, r)
    ensures OnTheWay(After(g, turns[..j]), ViewAfter(g, turns[..j]), n, r)
  {
    hide After, ViewAfter;
    NodesLast(g, turns, i, j);
    NeverUnlinked(g, turns, i, j);
  }

  lemma NodeLater(g: Program, turns: seq<Turn>, i: nat, j: nat, key: Key, n: nat)
    requires Scheduled(g, turns) && i <= j <= |turns|
    requires IsNode(g.params, After(g, turns[..i]), ViewAfter(g, turns[..i]), key, n)
    ensures IsNode(g.params, After(g, turns[..j]), ViewAfter(g, turns[..j]), key, n)
  {
    hide After, ViewAfter;
    NodesLast(g, turns, i, j);
    NeverUnlinked(g, turns, i, j);
  }

  /** A reader on its way to a live node stays on its way. */
  lemma StaysOnTheWay(p: Params, s: State, v: View, key: Key, n: nat, r: Reader)
    requires SortedList(p, s.nodes, v) && IsNode(p, s, v, key, n) && !s.nodes[n].deleted
    requires p.hashOf("") != 0 && s.nodes[0].key == "" && OnTheWay(s, v, n, r)
    ensures OnTheWay(s, v, n, Read(p, s, key, r))
  {
    if r.At? && r.curr.value != n {
      var m := r.curr.value;
      assert Linked(s.nodes, v, m) && Linked(s.nodes, v, n) && Ordered(s.nodes, v, m, n);
      assert s.nodes[m].next.Some?;
      var next := s.nodes[m].next.value;
      assert Linked(s.nodes, v, next) && Ordered(s.nodes, v, next, n);
    }
  }

  lemma SetsOut(p: Params, s: State, v: View, key: Key, n: nat)
    requires SortedList(p, s.nodes, v) && BucketsOk(p, s, v) && IsNode(p, s, v, key, n) && !EntryBehind(p, s, v, key)
    ensures OnTheWay(s, v, n, Read(p, s, key, Start))
  {
    var e := EntryOf(p, s, key);
    assert Linked(s.nodes, v, 0);
    assert v.Has(e) && e < |s.nodes|;
    assert Ordered(s.nodes, v, e, n);
  }

  lemma LiveNode(p: Params, s: State, v: View, key: Key) returns (n: nat)
    requires IsLive(s.nodes, v, key)
    ensures IsNode(p, s, v, key, n)
  {
    n :| n in Live(s.nodes, v) && s.nodes[n].key == key;
  }

  /** With the key live at every look and the entry not behind it, the reader is always on its way. */
  lemma {:induction false} AlwaysOnTheWay(g: Program, turns: seq<Turn>, key: Key, moments: seq<nat>, n: nat)
    requires Reading(g, turns, moments) && moments != [] && g.params.hashOf("") != 0
    requires forall i :: 0 <= i < |moments| ==> LiveAt(g, turns, moments[i], key)
    requires !EntryBehind(g.params, After(g, turns[..moments[0]]), ViewAfter(g, turns[..moments[0]]), key)
    requires IsNode(g.params, After(g, turns[..moments[0]]), ViewAfter(g, turns[..moments[0]]), key, n)
    ensures var k := moments[|moments| - 1];
            && OnTheWay(After(g, turns[..k]), ViewAfter(g, turns[..k]), n, ReaderAfter(g, turns, key, moments))
            && IsNode(g.params, After(g, turns[..k]), ViewAfter(g, turns[..k]), key, n)
  {
    var front, k := moments[..|moments| - 1], moments[|moments| - 1];
    hide Structure, CounterExact, After, ViewAfter, SortedList, BucketsOk, EntryBehind, IsNode, OnTheWay, IsLive;
    var s, v := After(g, turns[..k]), ViewAfter(g, turns[..k]);
    Reachable(g, turns[..k]);
    AllLinked(g.params, s, v);
    if front == [] {
      SetsOut(g.params, s, v, key, n);
    } else {
      AlwaysOnTheWay(g, turns, key, front, n);
      var before := front[|front| - 1];
      OnTheWayLater(g, turns, before, k, n, ReaderAfter(g, turns, key, front));
      NodeLater(g, turns, before, k, key, n);
      assert LiveAt(g, turns, moments[|moments| - 1], key);
      LiveFlag(g.params, s, v, key, n);
      Dummy(g, turns, k);
      StaysOnTheWay(g.params, s, v, key, n, ReaderAfter(g, turns, key, front));
    }
  }

  lemma LiveFlag(p: Params, s: State, v: View, key: Key, n: nat)
    requires SortedList(p, s.nodes, v) && IsNode(p, s, v, key, n) && IsLive(s.nodes, v, key)
    ensures n < |s.nodes| && !s.nodes[n].deleted
  {
    hide SortedList, IsLive;
    FlagDecides(p, s, v, Delete(key), n);
  }

  /**
   A Get that misses its key has one of two reasons: the key was not live at one of the moments at
   which the Get looked, or the bucket's entry it began with stands behind the key's node.
   */
  lemma MissHadReason(g: Program, turns: seq<Turn>, key: Key, moments: seq<nat>)
    requires Reading(g, turns, moments) && g.params.hashOf("") != 0
    requires ReaderAfter(g, turns, key, moments).Miss?
    ensures moments != []
    ensures || (exists i :: 0 <= i < |moments| && !LiveAt(g, turns, moments[i], key))
            || EntryBehind(g.params, After(g, turns[..moments[0]]), ViewAfter(g, turns[..moments[0]]), key)
  {
    hide After, ViewAfter, EntryBehind, IsLive, Read;
    var s, v := After(g, turns[..moments[0]]), ViewAfter(g, turns[..moments[0]]);
    if (forall i :: 0 <= i < |moments| ==> LiveAt(g, turns, moments[i], key)) && !EntryBehind(g.params, s, v, key) {
      assert LiveAt(g, turns, moments[0], key);
      var n := LiveNode(g.params, s, v, key);
      AlwaysOnTheWay(g, turns, key, moments, n);
      assert false;
    }
  }

  /** The reader is past node `n`. */
  ghost predicate Past(s: State, v: View, n: nat, r: Reader) {
    match r
    case At(Some(m)) => v.Before(n, m) && m < |s.nodes|
    case At(None) => true
    case Miss => true
    case _ => false
  }

  lemma PastLater(g: Program, turns: seq<Turn>, i: nat, j: nat, n: nat, r: Reader)
    requires Scheduled(g, turns) && i <= j <= |turns|
    requires Past(After(g, turns[..i]), ViewAfter(g, turns[..i]), n, r)
    ensures Past(After(g, turns[..j]), ViewAfter(g, turns[..j]), n, r)
  {
    hide After, ViewAfter;
    NodesLast(g, turns, i, j);
    NeverUnlinked(g, turns, i, j);
  }

  lemma StaysPast(p: Params, s: State, v: View, key: Key, n: nat, r: Reader)
    requires SortedList(p, s.nodes, v) && IsNode(p, s, v, key, n) && Past(s, v, n, r)
    ensures Past(s, v, n, Read(p, s, key, r))
  {
    if r.At? && r.curr.Some? {
      var m := r.curr.value;
      assert Linked(s.nodes, v, m) && Linked(s.nodes, v, n) && Ordered(s.nodes, v, m, n);
      if s.nodes[m].next.Some? {
        assert Linked(s.nodes, v, s.nodes[m].next.value);
      }
    }
  }

  /** And the second reason is compelling: begun behind the key's node, no Get finds the key. */
  lemma {:induction false} BehindIsMissed(g: Program, turns: seq<Turn>, key: Key, moments: seq<nat>, n: nat)
    requires Reading(g, turns, moments) && moments != []
    requires var s, v := After(g, turns[..moments[0]]), ViewAfter(g, turns[..moments[0]]);
             var b := if s.bucketCount == 0 then 0 else g.params.hashOf(key) % s.bucketCount;
             IsNode(g.params, s, v, key, n) && b in s.buckets && v.Before(n, s.buckets[b])
    ensures !ReaderAfter(g, turns, key, moments).Hit?
    ensures var k := moments[|moments| - 1];
            && Past(After(g, turns[..k]), ViewAfter(g, turns[..k]), n, ReaderAfter(g, turns, key, moments))
            && IsNode(g.params, After(g, turns[..k]), ViewAfter(g, turns[..k]), key, n)
  {
    var front, k := moments[..|moments| - 1], moments[|moments| - 1];
    hide Structure, CounterExact, After, ViewAfter, SortedList, IsNode;
    var s, v := After(g, turns[..k]), ViewAfter(g, turns[..k]);
    Reachable(g, turns[..k]);
    AllLinked(g.params, s, v);
    if front == [] {
      EntryExists(g.params, s, v, key);
    } else {
      hide Past;
      BehindIsMissed(g, turns, key, front, n);
      var before := front[|front| - 1];
      PastLater(g, turns, before, k, n, ReaderAfter(g, turns, key, front));
      NodeLater(g, turns, before, k, key, n);
      StaysPast(g.params, s, v, key, n, ReaderAfter(g, turns, key, front));
      PastIsNoHit(s, v, n, ReaderAfter(g, turns, key, moments));
    }
  }

  lemma EntryExists(p: Params, s: State, v: View, key: Key)
    requires SortedList(p, s.nodes, v) && BucketsOk(p, s, v)
    ensures EntryOf(p, s, key) < |s.nodes|
  {
  }

  lemma PastIsNoHit(s: State, v: View, n: nat, r: Reader)
    requires Past(s, v, n, r)
    ensures !r.Hit?
  {
  }
}
