/**
 Lock-freedom of the queue as a bound: whatever the interleaving, one thread's failed loop rounds
 are paid for, one each, by links, tail swings and head moves that succeeded in the meantime.
 */
module QueueProgress {
  import opened LockFreeQueue
  import opened QueueLinearizability

  /** A step that changes a shared pointer, by whichever thread. */
  ghost predicate Moves(s: State, t: nat)
    requires t < |s.threads|
  {
    Links(s, t) || SwingsTail(s, t) || MovesHead(s, t)
  }

  /** A step that sends the thread back to the top of its retry loop. */
  ghost predicate FailsRound(s: State, t: nat, op: Op)
    requires t < |s.threads|
  {
    var pc, pc' := s.threads[t], Step(s, t, op).threads[t];
    !pc.Idle? && (pc'.EnqLoadTail? || pc'.DeqLoadHead?)
  }

  /** Pointer changes among the steps from moment `from` on. */
  ghost function MovesSince(threads: nat, turns: seq<Turn>, from: nat): nat
    requires Scheduled(threads, turns)
  {
    if |turns| <= from then 0
    else
      var before, last := turns[..|turns| - 1], turns[|turns| - 1];
      MovesSince(threads, before, from) + (if Moves(After(threads, before), last.thread) then 1 else 0)
  }

  /** Failed rounds of thread `t` among the steps from moment `from` on. */
  ghost function FailuresSince(threads: nat, turns: seq<Turn>, from: nat, t: nat): nat
    requires Scheduled(threads, turns)
  {
    if |turns| <= from then 0
    else
      var before, last := turns[..|turns| - 1], turns[|turns| - 1];
      FailuresSince(threads, before, from, t)
      + (if last.thread == t && FailsRound(After(threads, before), t, last.op) then 1 else 0)
  }

  /** Steps thread `t` itself took from moment `from` on. */
  ghost function OwnStepsSince(threads: nat, turns: seq<Turn>, from: nat, t: nat): nat
    requires Scheduled(threads, turns)
  {
    if |turns| <= from then 0
    else OwnStepsSince(threads, turns[..|turns| - 1], from, t) + (if turns[|turns| - 1].thread == t then 1 else 0)
  }

  /** Something the current round has read is out of date, so a pointer has moved during the round. */
  ghost predicate Stale(s: State, pc: Pc) {
    match pc
    case EnqLoadNext(_, tail) => s.tail != tail
    case EnqCheckTail(_, tail, loaded) => s.tail != tail || (loaded.None? && NextOf(s.nodes, tail).Some?)
    case EnqLink(_, tail) => NextOf(s.nodes, tail).Some?
    case EnqHelp(_, tail, _) => s.tail != tail
    case DeqLoadTail(head) => s.head != head
    case DeqLoadNext(head, tail) => s.head != head || s.tail != tail
    case DeqCheckHead(head, tail, loaded) => s.head != head || s.tail != tail
    case DeqHelp(tail, _) => s.tail != tail
    case DeqReadValue(head, _) => s.head != head
    case DeqSwing(head, _, _) => s.head != head
    case _ => false
  }

  /** A round goes stale only through a pointer change. */
  lemma StaleOnlyByMove(s: State, t: nat, op: Op, u: nat)
    requires t < |s.threads| && u < |s.threads| && t != u
    ensures !Stale(s, s.threads[u]) && Stale(Step(s, t, op), s.threads[u]) ==> Moves(s, t)
  {
  }

  /** A round fails only if it has gone stale, or by making a pointer change itself. */
  lemma FailureIsPaidFor(s: State, t: nat, op: Op)
    requires t < |s.threads|
    ensures FailsRound(s, t, op) ==> Stale(s, s.threads[t]) || Moves(s, t)
    ensures FailsRound(s, t, op) ==> !Stale(Step(s, t, op), Step(s, t, op).threads[t])
    ensures Stale(Step(s, t, op), Step(s, t, op).threads[t]) ==> Stale(s, s.threads[t]) || Moves(s, t)
  {
  }

  /**
   Failed rounds never outnumber pointer changes, counted from any moment at which the thread's
   round was not already stale - in particular from its call.
   */
  lemma {:induction false} FailuresBounded(threads: nat, turns: seq<Turn>, from: nat, t: nat)
    requires Scheduled(threads, turns) && t < threads && from <= |turns|
    requires !Stale(At(threads, turns, from), At(threads, turns, from).threads[t])
    ensures FailuresSince(threads, turns, from, t)
            + (if Stale(After(threads, turns), After(threads, turns).threads[t]) then 1 else 0)
            <= MovesSince(threads, turns, from)
  {
    if |turns| == from {
      assert turns[..from] == turns;
    } else {
      var before, last := turns[..|turns| - 1], turns[|turns| - 1];
      assert turns == before + [last];
      SameMoment(threads, before, last, from);
      LastMoment(threads, before, last);
      FailuresBounded(threads, before, from, t);
      var s := After(threads, before);
      if last.thread == t {
        FailureIsPaidFor(s, t, last.op);
      } else {
        StaleOnlyByMove(s, last.thread, last.op, t);
        StepFrame(s, last.thread, last.op);
      }
    }
  }

  /** How many steps of the current round, and of the call before it, a program counter has behind it. */
  function Rank(pc: Pc): nat {
    match pc
    case Idle => 0
    case EnqLoadTail(_) => 1
    case EnqLoadNext(_, _) => 2
    case EnqCheckTail(_, _, _) => 3
    case EnqLink(_, _) => 4
    case EnqHelp(_, _, _) => 4
    case EnqSwing(_, _) => 5
    case DeqLoadHead => 1
    case DeqLoadTail(_) => 2
    case DeqLoadNext(_, _) => 3
    case DeqCheckHead(_, _, _) => 4
    case DeqHelp(_, _) => 5
    case DeqReadValue(_, _) => 5
    case DeqSwing(_, _, _) => 6
    case PeekLoadHead => 1
    case PeekLoadNext(_) => 2
    case PeekReadValue(_) => 3
    case IsEmptyLoadHead => 1
    case IsEmptyLoadNext(_) => 2
    case Returned(_, _) => 7
    case Crashed => 7
  }

  lemma RankGrows(s: State, t: nat, op: Op)
    requires t < |s.threads| && !s.threads[t].Returned? && !s.threads[t].Crashed?
    ensures var pc, pc' := s.threads[t], Step(s, t, op).threads[t];
            if FailsRound(s, t, op) then Rank(pc) < 7 && Rank(pc') == 1 else Rank(pc') > Rank(pc)
  {
  }

  lemma {:induction false} StepsByFailures(threads: nat, turns: seq<Turn>, t: nat)
    requires Scheduled(threads, turns) && t < threads
    requires !After(threads, turns).threads[t].Idle?
    ensures var call := LastCall(threads, turns, t);
            && call < |turns| && At(threads, turns, call).threads[t].Idle?
            && OwnStepsSince(threads, turns, call, t)
               <= 6 * FailuresSince(threads, turns, call, t) + Rank(After(threads, turns).threads[t])
  {
    var before, last := turns[..|turns| - 1], turns[|turns| - 1];
    assert turns == before + [last];
    hide After, LastCall, MovesSince, Step, FailsRound, Rank;
    LastMoment(threads, before, last);
    LastCallStep(threads, before, last, t);
    var s, call := After(threads, before), LastCall(threads, turns, t);
    StepFrame(s, last.thread, last.op);
    SameMoment(threads, before, last, call);
    NeverCrashes(threads, before, t);
    if last.thread == t && s.threads[t].Idle? {
      assert call == |before|;
      RankGrows(s, t, last.op);
    } else {
      StepsByFailures(threads, before, t);
      if last.thread == t {
        RankGrows(s, t, last.op);
      }
    }
  }

  // ---------------------------------------------------------------------------------------
  // Pointer changes are paid for by operations that take effect.

  /** An operation takes effect: a value is linked or taken out. */
  ghost predicate TakesEffect(s: State, t: nat)
    requires t < |s.threads|
  {
    Links(s, t) || MovesHead(s, t)
  }

  /** Operations, by whichever thread, that took effect from moment `from` on. */
  ghost function EffectsSince(threads: nat, turns: seq<Turn>, from: nat): nat
    requires Scheduled(threads, turns)
  {
    if |turns| <= from then 0
    else
      var before, last := turns[..|turns| - 1], turns[|turns| - 1];
      EffectsSince(threads, before, from) + (if TakesEffect(After(threads, before), last.thread) then 1 else 0)
  }

  /** One while tail is the node before the last, otherwise zero. */
  ghost function Lag(s: State): nat {
    if NextOf(s.nodes, s.tail).Some? then 1 else 0
  }

  lemma LagInView(s: State, v: View)
    requires Inv(s, v)
    ensures Lag(s) == |v.chain| - 1 - v.pos[s.tail]
  {
    LastIffNilNext(s.nodes, v, s.tail);
  }

  /** A link puts tail one behind, and only a tail swing, possible while it is behind, brings it back. */
  lemma SwingsFollowLinks(s: State, v: View, t: nat, op: Op)
    requires t < |s.threads| && Inv(s, v)
    ensures (if Moves(s, t) then 1 else 0) + Lag(Step(s, t, op)) <= 2 * (if TakesEffect(s, t) then 1 else 0) + Lag(s)
  {
    hide Chained, Lag;
    var s', v', pc := Step(s, t, op), NextView(s, v, t), s.threads[t];
    StepKeepsInv(s, v, t, op);
    LagInView(s, v);
    LagInView(s', v');
    assert LocalsOk(s, v, pc);
    if Links(s, t) {
      LinkIsAtTheEnd(s, v, t);
    }
  }

  lemma {:induction false} MovesArePaidFor(threads: nat, turns: seq<Turn>, from: nat)
    requires Scheduled(threads, turns) && from <= |turns|
    ensures MovesSince(threads, turns, from) <= 2 * EffectsSince(threads, turns, from) + 1
    ensures MovesSince(threads, turns, from) + Lag(After(threads, turns))
            <= 2 * EffectsSince(threads, turns, from) + Lag(At(threads, turns, from))
  {
    hide Inv, Moves, TakesEffect, Step;
    if |turns| == from {
      assert turns[..from] == turns;
    } else {
      var before, last := turns[..|turns| - 1], turns[|turns| - 1];
      assert turns == before + [last];
      SameMoment(threads, before, last, from);
      MovesArePaidFor(threads, before, from);
      ReachableInv(threads, before);
      SwingsFollowLinks(After(threads, before), ViewAfter(threads, before), last.thread, last.op);
    }
  }

  /**
   Lock-freedom: since its call, a thread still inside an operation (or just done with it) has
   taken at most 7 steps of its own plus 6 for every pointer change made meanwhile by anyone; and
   those are at most one more than twice the operations that took effect meanwhile.
   */
  lemma OwnStepsBounded(threads: nat, turns: seq<Turn>, t: nat)
    requires Scheduled(threads, turns) && t < threads
    requires !After(threads, turns).threads[t].Idle?
    ensures var call := LastCall(threads, turns, t);
            && FailuresSince(threads, turns, call, t) <= MovesSince(threads, turns, call)
            && OwnStepsSince(threads, turns, call, t) <= 7 + 6 * MovesSince(threads, turns, call)
            && OwnStepsSince(threads, turns, call, t) <= 13 + 12 * EffectsSince(threads, turns, call)
  {
    hide After, LastCall, OwnStepsSince, FailuresSince, MovesSince, EffectsSince;
    StepsByFailures(threads, turns, t);
    FailuresBounded(threads, turns, LastCall(threads, turns, t), t);
    MovesArePaidFor(threads, turns, LastCall(threads, turns, t));
  }
}
