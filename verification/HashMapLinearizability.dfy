/**
 Linearizability of the lock-free hash map as a set of keys: every interleaving of Put and Delete
 has one history that a plain set replays with the same answers.  Each operation takes effect at a
 step of its own, known as it is made: a link, a revival or a mark, a flag that settles the answer,
 or the load of a successor that proves a miss.
 */
module HashMapLinearizability {
  import opened HashMapSteps
  import opened HashMapRuns

  // ---------------------------------------------------------------------------------------
  // The sequential specification.

  ghost function Apply(keys: set<Key>, op: Op): (set<Key>, bool) {
    match op
    case Put(key, _) => (keys + {key}, true)
    case Delete(key) => (keys - {key}, key in keys)
  }

  /** One operation in a sequential history: called by `thread` at moment `call`. */
  datatype Entry = Entry(thread: nat, call: nat, op: Op, answer: bool)

  /** The keys after performing the history one operation after another. */
  ghost function Performed(history: seq<Entry>): set<Key> {
    if history == [] then {} else Apply(Performed(history[..|history| - 1]), history[|history| - 1].op).0
  }

  ghost predicate AnswersRight(history: seq<Entry>) {
    forall i :: 0 <= i < |history| ==> history[i].answer == Apply(Performed(history[..i]), history[i].op).1
  }

  lemma OneMoreRight(history: seq<Entry>, e: Entry)
    requires AnswersRight(history) && e.answer == Apply(Performed(history), e.op).1
    ensures AnswersRight(history + [e]) && Performed(history + [e]) == Apply(Performed(history), e.op).0
  {
    var more := history + [e];
    assert more[..|history|] == history;
    forall i | 0 <= i < |more| ensures more[i].answer == Apply(Performed(more[..i]), more[i].op).1 {
      assert i < |history| ==> more[..i] == history[..i];
    }
  }

  // ---------------------------------------------------------------------------------------
  // Where operations take effect.

  ghost function LiveKeys(nodes: seq<HashNode>, v: View): set<Key> {
    set n | n in Live(nodes, v) :: nodes[n].key
  }

  /** The operation has taken effect; what is left is bookkeeping. */
  ghost predicate Done(p: Params, nodes: seq<HashNode>, pc: Pc) {
    match pc
    case FindAt(op, _, curr) => op.Delete? && Missed(p, nodes, op, curr)
    case PutReviveStore(_, _) => true
    case PutUpdate(_, _) => true
    case PutAddCount(_, _) => true
    case PutSetBucket(_, _) => true
    case DelSubCount(_) => true
    case Returned(_, _) => true
    case _ => false
  }

  function AnswerOf(pc: Pc): bool {
    match pc
    case FindAt(_, _, _) => false
    case Returned(_, answer) => answer
    case _ => true
  }

  ghost predicate TakesEffect(p: Params, s: State, t: nat, op: Op)
    requires t < |s.threads|
  {
    var s' := Step(p, s, t, op);
    !Done(p, s.nodes, s.threads[t]) && Done(p, s'.nodes, s'.threads[t])
  }

  lemma LiveExist(nodes: seq<HashNode>, v: View)
    ensures forall n :: n in Live(nodes, v) ==> n < |nodes| && v.Has(n) && n != 0
  {
  }

  /** What a step does to the set of live keys: only links, revivals and marks change it. */
  lemma StepOnKeys(p: Params, s: State, v: View, t: nat, op: Op)
    requires t < |s.threads| && Structure(p, s, v)
    ensures var keys, keys' := LiveKeys(s.nodes, v), LiveKeys(Step(p, s, t, op).nodes, NextView(s, v, t));
            keys' == if LinksNode(s, t) || Revives(s, t) then keys + {s.threads[t].op.key}
                     else if Marks(s, t) then keys - {s.threads[t].op.key}
                     else keys
  {
    hide Step, Structure, Live, NextView, SortedList, BucketsOk;
    KeysStay(p, s, t, op);
    OwnLocals(p, s, v, t);
    LiveExist(s.nodes, v);
    if LinksNode(s, t) {
      LinkAddsLive(p, s, v, t, op);
    } else if Revives(s, t) {
      ReviveAddsLive(p, s, v, t, op);
    } else if Marks(s, t) {
      MarkRemovesLive(p, s, v, t, op);
      OnlyNodeOf(p, s, v, s.threads[t].found);
    } else {
      OtherwiseLiveStays(p, s, v, t, op);
    }
  }

  /** Keys are distinct. */
  lemma OnlyNodeOf(p: Params, s: State, v: View, n: nat)
    requires SortedList(p, s.nodes, v) && v.Has(n) && n != 0 && n < |s.nodes|
    ensures forall m :: m in Live(s.nodes, v) && s.nodes[m].key == s.nodes[n].key ==> m == n
  {
    forall m | m in Live(s.nodes, v) && s.nodes[m].key == s.nodes[n].key ensures m == n {
      assert Ordered(s.nodes, v, m, n);
    }
  }

  lemma LiveKey(nodes: seq<HashNode>, v: View, key: Key)
    ensures key in LiveKeys(nodes, v) <==> IsLive(nodes, v, key)
    ensures var keys := LiveKeys(nodes, v);
            if key in keys then keys + {key} == keys else keys - {key} == keys
  {
  }

  /** A step by which an operation takes effect does to the key set what the operation should, with its answer. */
  lemma EffectIsRight(p: Params, s: State, v: View, t: nat, op: Op)
    requires t < |s.threads| && Structure(p, s, v)
    ensures var s', keys, keys' := Step(p, s, t, op), LiveKeys(s.nodes, v), LiveKeys(Step(p, s, t, op).nodes, NextView(s, v, t));
            if TakesEffect(p, s, t, op) then
              !s'.threads[t].Idle? && Apply(keys, s'.threads[t].op) == (keys', AnswerOf(s'.threads[t]))
            else keys' == keys
  {
    hide Structure, LiveKeys, Live, IsLive, NextView, SortedList, BucketsOk, PrivateOk;
    var pc := s.threads[t];
    StepOnKeys(p, s, v, t, op);
    OwnLocals(p, s, v, t);
    if !pc.Idle? {
      LiveKey(s.nodes, v, pc.op.key);
    }
    if pc.FindStart? {
      StartWalk(p, s.nodes, v, pc.op);
      if Missed(p, s.nodes, pc.op, NextOf(s.nodes, 0)) {
        MissIsExact(p, s, v, pc.op, 0);
      }
    } else if pc.FindAt? && WalksOn(p, s.nodes, pc.op, pc.curr) {
      WalkOn(p, s.nodes, v, pc.op, pc.prev, pc.curr);
      if Missed(p, s.nodes, pc.op, NextOf(s.nodes, pc.curr.value)) {
        MissIsExact(p, s, v, pc.op, pc.curr.value);
      }
    } else if pc.PutLoadDeleted? || pc.DelLoadDeleted? || pc.DelMark? {
      FlagDecides(p, s, v, pc.op, pc.found);
    }
  }

  // ---------------------------------------------------------------------------------------
  // The history.

  ghost function Effect(g: Program, turns: seq<Turn>, turn: Turn): seq<Entry>
    requires Scheduled(g, turns) && turn.thread < g.threads
  {
    var s, t := After(g, turns), turn.thread;
    if TakesEffect(g.params, s, t, turn.op) then
      var pc' := Step(g.params, s, t, turn.op).threads[t];
      [Entry(t, LastCall(g, turns, t), pc'.op, AnswerOf(pc'))]
    else []
  }

  ghost function History(g: Program, turns: seq<Turn>): seq<Entry>
    requires Scheduled(g, turns)
  {
    if turns == [] then []
    else
      var before := turns[..|turns| - 1];
      History(g, before) + Effect(g, before, turns[|turns| - 1])
  }

  /** A plain set of keys gives the same answers and ends with the same keys. */
  lemma {:induction false} HistoryIsRight(g: Program, turns: seq<Turn>)
    requires Scheduled(g, turns)
    ensures AnswersRight(History(g, turns))
    ensures Performed(History(g, turns)) == LiveKeys(After(g, turns).nodes, ViewAfter(g, turns))
  {
    hide AnswersRight, Apply, Structure, TakesEffect, Step, CounterExact, LiveKeys, NextView;
    if turns == [] {
      NothingYet(g);
    } else {
      var before, last := turns[..|turns| - 1], turns[|turns| - 1];
      HistoryIsRight(g, before);
      Reachable(g, before);
      var s, t := After(g, before), last.thread;
      EffectIsRight(g.params, s, ViewAfter(g, before), t, last.op);
      if TakesEffect(g.params, s, t, last.op) {
        OneMoreRight(History(g, before), Effect(g, before, last)[0]);
      } else {
        assert History(g, before) + [] == History(g, before);
      }
    }
  }

  lemma NothingYet(g: Program)
    ensures AnswersRight([]) && LiveKeys(After(g, []).nodes, ViewAfter(g, [])) == {}
  {
    assert Live(After(g, []).nodes, ViewAfter(g, [])) == {};
  }

  /** The entry stands for a call that was really made. */
  ghost predicate Genuine(g: Program, turns: seq<Turn>, e: Entry)
    requires Scheduled(g, turns)
  {
    && e.call < |turns| && turns[e.call] == Turn(e.thread, e.op)
    && After(g, turns[..e.call]).threads[e.thread].Idle?
  }

  ghost predicate NoneTwice(history: seq<Entry>) {
    forall i, j :: 0 <= i < j < |history| ==> history[i].thread != history[j].thread || history[i].call != history[j].call
  }

  /** A call in flight is listed with its answer once it has taken effect, and not before. */
  ghost predicate Logged(g: Program, turns: seq<Turn>, t: nat)
    requires Scheduled(g, turns) && t < g.threads
  {
    var s, call, history := After(g, turns), LastCall(g, turns, t), History(g, turns);
    var pc := s.threads[t];
    !pc.Idle? ==>
      if Done(g.params, s.nodes, pc) then Entry(t, call, pc.op, AnswerOf(pc)) in history
      else forall e :: e in history ==> e.thread != t || e.call != call
  }

  /** What the other threads do changes nothing about an operation having taken effect. */
  lemma DoneKept(p: Params, s: State, v: View, t: nat, op: Op, u: nat)
    requires t < |s.threads| && u < |s.threads| && t != u && Structure(p, s, v)
    ensures var s' := Step(p, s, t, op);
            s'.threads[u] == s.threads[u] && Done(p, s'.nodes, s.threads[u]) == Done(p, s.nodes, s.threads[u])
  {
    hide Step, Structure;
    KeysStay(p, s, t, op);
    OwnLocals(p, s, v, u);
  }

  /** An operation that has taken effect keeps its answer until the thread is idle again. */
  lemma DoneStays(p: Params, s: State, t: nat, op: Op)
    requires t < |s.threads| && Done(p, s.nodes, s.threads[t])
    ensures var s' := Step(p, s, t, op);
            !s'.threads[t].Idle? ==>
              Done(p, s'.nodes, s'.threads[t]) && AnswerOf(s'.threads[t]) == AnswerOf(s.threads[t]) && s'.threads[t].op == s.threads[t].op
  {
  }

  lemma OthersLogged(g: Program, turns: seq<Turn>, turn: Turn, u: nat)
    requires Scheduled(g, turns + [turn]) && Scheduled(g, turns) && turn.thread < g.threads && u < g.threads && u != turn.thread
    requires Logged(g, turns, u)
    ensures Logged(g, turns + [turn], u)
  {
    hide After, ViewAfter, LastCall, History, Step, Structure, Done, CounterExact, NextView;
    LastMoment(g, turns, turn);
    Reachable(g, turns);
    DoneKept(g.params, After(g, turns), ViewAfter(g, turns), turn.thread, turn.op, u);
    LongerHistory(g, turns, turn);
  }

  lemma LongerHistory(g: Program, turns: seq<Turn>, turn: Turn)
    requires Scheduled(g, turns + [turn]) && Scheduled(g, turns) && turn.thread < g.threads
    ensures History(g, turns + [turn]) == History(g, turns) + Effect(g, turns, turn)
    ensures forall u :: 0 <= u < g.threads ==>
              LastCall(g, turns + [turn], u)
              == if turn.thread == u && After(g, turns).threads[u].Idle? then |turns| else LastCall(g, turns, u)
  {
    assert (turns + [turn])[..|turns|] == turns;
  }

  lemma OwnLogged(g: Program, turns: seq<Turn>, turn: Turn)
    requires Scheduled(g, turns + [turn]) && Scheduled(g, turns) && turn.thread < g.threads
    requires Logged(g, turns, turn.thread) && forall e :: e in History(g, turns) ==> Genuine(g, turns, e)
    ensures Logged(g, turns + [turn], turn.thread)
    ensures forall e, o :: e in Effect(g, turns, turn) && o in History(g, turns) ==> e.thread != o.thread || e.call != o.call
    ensures forall e :: e in Effect(g, turns, turn) ==> Genuine(g, turns + [turn], e)
  {
    hide After, ViewAfter, LastCall, History, Structure, CounterExact, NextView;
    var p, s, t := g.params, After(g, turns), turn.thread;
    LastMoment(g, turns, turn);
    LongerHistory(g, turns, turn);
    OpStays(p, s, t, turn.op);
    if !s.threads[t].Idle? {
      ThreadsOk(g, turns, t);
      CalledWhenIdle(g, turns, t);
      SameMoment(g, turns, turn, LastCall(g, turns, t));
      if Done(p, s.nodes, s.threads[t]) {
        DoneStays(p, s, t, turn.op);
      }
    }
  }

  lemma {:induction false} AllLogged(g: Program, turns: seq<Turn>)
    requires Scheduled(g, turns)
    ensures NoneTwice(History(g, turns)) && forall e :: e in History(g, turns) ==> Genuine(g, turns, e)
    ensures forall t :: 0 <= t < g.threads ==> Logged(g, turns, t)
  {
    if turns != [] {
      var before, last := turns[..|turns| - 1], turns[|turns| - 1];
      assert turns == before + [last];
      hide After, LastCall, Effect, Logged;
      AllLogged(g, before);
      OwnLogged(g, before, last);
      forall t | 0 <= t < g.threads && t != last.thread ensures Logged(g, turns, t) {
        OthersLogged(g, before, last, t);
      }
      forall e | e in History(g, before) ensures Genuine(g, turns, e) {
        assert Genuine(g, before, e);
        SameMoment(g, before, last, e.call);
      }
    }
  }

  lemma {:induction false} EarlierHistory(g: Program, turns: seq<Turn>, k: nat)
    requires Scheduled(g, turns) && k <= |turns|
    ensures History(g, turns[..k]) <= History(g, turns)
  {
    if k == |turns| {
      assert turns[..k] == turns;
    } else {
      var before := turns[..|turns| - 1];
      assert before[..k] == turns[..k];
      EarlierHistory(g, before, k);
    }
  }

  // ---------------------------------------------------------------------------------------
  // The main result.

  /** The operation thread `t` had returned from by moment `k` comes before all that are called later. */
  ghost predicate InOrder(g: Program, turns: seq<Turn>, history: seq<Entry>, k: nat, t: nat)
    requires Scheduled(g, turns) && k <= |turns| && t < g.threads && After(g, turns[..k]).threads[t].Returned?
  {
    var pc := After(g, turns[..k]).threads[t];
    exists i ::
      && 0 <= i < |history|
      && history[i] == Entry(t, LastCall(g, turns[..k], t), pc.op, pc.answer)
      && forall j :: 0 <= j < |history| && history[j].call >= k ==> i < j
  }

  /**
   The history explains the final keys and all answers, lists only calls really made and none twice,
   lists every operation that has returned with the answer it gave, and puts one that had returned
   before another was called in front of it.
   */
  ghost predicate IsLinearization(g: Program, turns: seq<Turn>, history: seq<Entry>)
    requires Scheduled(g, turns)
  {
    && AnswersRight(history) && Performed(history) == LiveKeys(After(g, turns).nodes, ViewAfter(g, turns))
    && (forall e :: e in history ==> Genuine(g, turns, e))
    && NoneTwice(history)
    && (forall k, t :: 0 <= k <= |turns| && 0 <= t < g.threads && After(g, turns[..k]).threads[t].Returned? ==>
          InOrder(g, turns, history, k, t))
  }

  /** Linearizability of every interleaving of any number of threads, as far as the keys go. */
  lemma Linearizable(g: Program, turns: seq<Turn>)
    requires Scheduled(g, turns)
    ensures IsLinearization(g, turns, History(g, turns))
  {
    hide AnswersRight, Performed, Genuine, NoneTwice, InOrder, Logged, LiveKeys, History, After, ViewAfter;
    HistoryIsRight(g, turns);
    AllLogged(g, turns);
    forall k, t | 0 <= k <= |turns| && 0 <= t < g.threads && After(g, turns[..k]).threads[t].Returned?
      ensures InOrder(g, turns, History(g, turns), k, t)
    {
      ReturnedInOrder(g, turns, k, t);
    }
  }

  lemma ReturnedInOrder(g: Program, turns: seq<Turn>, k: nat, t: nat)
    requires Scheduled(g, turns) && k <= |turns| && t < g.threads && After(g, turns[..k]).threads[t].Returned?
    ensures InOrder(g, turns, History(g, turns), k, t)
  {
    hide After, LastCall, History;
    var early, history, pc := History(g, turns[..k]), History(g, turns), After(g, turns[..k]).threads[t];
    AllLogged(g, turns[..k]);
    EarlierHistory(g, turns, k);
    assert Logged(g, turns[..k], t);
    var i :| 0 <= i < |early| && early[i] == Entry(t, LastCall(g, turns[..k], t), pc.op, pc.answer);
    forall j | 0 <= j < |early| ensures history[j].call < k {
      assert early[j] in early && history[j] == early[j];
    }
    assert history[i] == early[i];
  }
}
