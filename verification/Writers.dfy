/**
 Any number of WriteMessage calls on one connection: `writeMu` lets one of them write at a time,
 the bytes reach the wire in chunks of any size, and a write may fail at any point, after which the
 buffered writer takes no more bytes.
 */
module WriterSteps {
  import opened Bytes
  import opened Common
  import opened Connections
  import opened Frames
  import opened Messages
  import opened Readers

  datatype Pc = Waiting | Writing(offset: nat) | Releasing | Finished | Failed

  /** `order` lists the calls whose frame is complete; `partial` is the frame that is not, if any. */
  datatype State = State(wire: seq<byte>, holder: Option<nat>, threads: seq<Pc>, broken: bool, order: seq<nat>, partial: seq<byte>)

  /** A scheduled call; `chunk` bounds how many bytes it gets onto the wire. */
  datatype Turn = Turn(thread: nat, chunk: nat, fails: bool)

  function Init(calls: nat): State {
    State([], None, seq(calls, _ => Waiting), false, [], [])
  }

  ghost function Step(data: seq<seq<byte>>, s: State, turn: Turn): State
    requires turn.thread < |s.threads| == |data|
  {
    var t := turn.thread;
    match s.threads[t]
    case Waiting =>
      if s.holder.None? then s.(holder := Some(t), threads := s.threads[t := Writing(0)]) else s
    case Writing(o) =>
      if s.broken || turn.fails || o >= |Frame(data[t])| then
        s.(holder := None, threads := s.threads[t := Failed], broken := true)
      else
        var left := |Frame(data[t])| - o;
        var k := if turn.chunk < 1 then 1 else if turn.chunk > left then left else turn.chunk;
        var bytes := Frame(data[t])[o..o + k];
        if k < left then
          s.(wire := s.wire + bytes, threads := s.threads[t := Writing(o + k)], partial := s.partial + bytes)
        else
          s.(wire := s.wire + bytes, threads := s.threads[t := Releasing], order := s.order + [t], partial := [])
    case Releasing => s.(holder := None, threads := s.threads[t := Finished])
    case Finished => s
    case Failed => s
  }

  ghost function Sent(data: seq<seq<byte>>, order: seq<nat>): (r: seq<seq<byte>>)
    requires forall i :: 0 <= i < |order| ==> order[i] < |data|
    ensures |r| == |order| && forall i :: 0 <= i < |order| ==> r[i] == data[order[i]]
  {
    seq(|order|, i requires 0 <= i < |order| => data[order[i]])
  }

  predicate Busy(pc: Pc) { pc.Writing? || pc.Releasing? }

  predicate Complete(pc: Pc) { pc.Releasing? || pc.Finished? }

  ghost predicate IsCut(data: seq<seq<byte>>, partial: seq<byte>) {
    partial == [] || exists t :: 0 <= t < |data| && partial <= Frame(data[t]) && partial != Frame(data[t])
  }

  ghost predicate HolderOk(data: seq<seq<byte>>, s: State)
    requires |s.threads| == |data|
  {
    && (forall t :: 0 <= t < |s.threads| ==> (Busy(s.threads[t]) <==> s.holder == Some(t)))
    && (s.holder.None? && !s.broken ==> s.partial == [])
    && (s.holder.Some? ==>
          var t := s.holder.value;
          && t < |s.threads|
          && (s.threads[t].Writing? && !s.broken ==>
                && s.threads[t].offset < |Frame(data[t])| && s.partial == Frame(data[t])[..s.threads[t].offset])
          && (s.threads[t].Releasing? && !s.broken ==> s.partial == []))
  }

  /** Whole frames in lock order, each complete call exactly once, then at most one cut frame. */
  ghost predicate Inv(data: seq<seq<byte>>, s: State) {
    && |s.threads| == |data|
    && (forall i :: 0 <= i < |s.order| ==> s.order[i] < |data| && Complete(s.threads[s.order[i]]))
    && (forall i, j :: 0 <= i < j < |s.order| ==> s.order[i] != s.order[j])
    && (forall t :: 0 <= t < |s.threads| && Complete(s.threads[t]) ==> t in s.order)
    && s.wire == Stream(Sent(data, s.order)) + s.partial
    && IsCut(data, s.partial)
    && HolderOk(data, s)
  }

  /** Getting hold of the lock, releasing it and failing leave the wire alone. */
  lemma QuietStep(data: seq<seq<byte>>, s: State, turn: Turn)
    requires turn.thread < |s.threads| == |data| && Inv(data, s)
    requires !(s.threads[turn.thread].Writing? && !s.broken && !turn.fails)
    ensures Inv(data, Step(data, s, turn))
  {
    hide Stream, Frame, IsCut;
    var s' := Step(data, s, turn);
    assert s'.wire == s.wire && s'.order == s.order && s'.partial == s.partial;
  }

  lemma WriterFacts(data: seq<seq<byte>>, s: State, t: nat)
    requires t < |s.threads| == |data| && Inv(data, s) && s.threads[t].Writing? && !s.broken
    ensures s.holder == Some(t) && s.threads[t].offset < |Frame(data[t])|
    ensures s.partial == Frame(data[t])[..s.threads[t].offset]
  {
  }

  lemma PartIsCut(data: seq<seq<byte>>, t: nat, o: nat)
    requires t < |data| && o < |Frame(data[t])|
    ensures IsCut(data, Frame(data[t])[..o])
  {
    hide Frame;
    var part := Frame(data[t])[..o];
    assert part <= Frame(data[t]) && part != Frame(data[t]);
  }

  /** Part of a frame on the wire. */
  lemma WritePart(data: seq<seq<byte>>, s: State, t: nat, k: nat)
    requires t < |s.threads| == |data| && Inv(data, s) && s.threads[t].Writing? && !s.broken
    requires var o := s.threads[t].offset; o + k < |Frame(data[t])|
    ensures var o := s.threads[t].offset;
            var bytes := Frame(data[t])[o..o + k];
            Inv(data, s.(wire := s.wire + bytes, threads := s.threads[t := Writing(o + k)], partial := s.partial + bytes))
  {
    hide Stream, Frame, IsCut, Sent;
    WriterFacts(data, s, t);
    var o, f := s.threads[t].offset, Frame(data[t]);
    PartIsCut(data, t, o + k);
    assert f[..o] + f[o..o + k] == f[..o + k];
  }

  /** The rest of a frame on the wire. */
  lemma WriteLast(data: seq<seq<byte>>, s: State, t: nat)
    requires t < |s.threads| == |data| && Inv(data, s) && s.threads[t].Writing? && !s.broken
    requires s.threads[t].offset < |Frame(data[t])|
    ensures var bytes := Frame(data[t])[s.threads[t].offset..];
            Inv(data, s.(wire := s.wire + bytes, threads := s.threads[t := Releasing], order := s.order + [t], partial := []))
  {
    hide Stream, Frame;
    var o, f := s.threads[t].offset, Frame(data[t]);
    assert s.holder == Some(t);
    assert f[..o] + f[o..] == f;
    assert Sent(data, s.order + [t]) == Sent(data, s.order) + [data[t]];
    StreamSnoc(Sent(data, s.order), data[t]);
    assert t !in s.order;
  }

  lemma WriteStep(data: seq<seq<byte>>, s: State, turn: Turn)
    requires turn.thread < |s.threads| == |data| && Inv(data, s)
    requires s.threads[turn.thread].Writing? && !s.broken && !turn.fails
    ensures Inv(data, Step(data, s, turn))
  {
    hide Inv, Frame, Stream, HolderOk, IsCut, Sent;
    var t := turn.thread;
    WriterFacts(data, s, t);
    var left := |Frame(data[t])| - s.threads[t].offset;
    var k := if turn.chunk < 1 then 1 else if turn.chunk > left then left else turn.chunk;
    if k < left {
      WritePart(data, s, t, k);
    } else {
      var o, f := s.threads[t].offset, Frame(data[t]);
      assert f[o..o + k] == f[o..];
      WriteLast(data, s, t);
    }
  }

  lemma StepKeepsInv(data: seq<seq<byte>>, s: State, turn: Turn)
    requires turn.thread < |s.threads| == |data| && Inv(data, s)
    ensures Inv(data, Step(data, s, turn))
  {
    if s.threads[turn.thread].Writing? && !s.broken && !turn.fails {
      WriteStep(data, s, turn);
    } else {
      QuietStep(data, s, turn);
    }
  }

  ghost predicate Scheduled(data: seq<seq<byte>>, turns: seq<Turn>) {
    forall i :: 0 <= i < |turns| ==> turns[i].thread < |data|
  }

  ghost function After(data: seq<seq<byte>>, turns: seq<Turn>): (s: State)
    requires Scheduled(data, turns)
    ensures |s.threads| == |data|
    decreases |turns|
  {
    if turns == [] then Init(|data|) else Step(data, After(data, turns[..|turns| - 1]), turns[|turns| - 1])
  }

  /** However the calls interleave, the wire carries whole frames in lock order and at most one partial frame. */
  lemma {:induction false} WholeFrames(data: seq<seq<byte>>, turns: seq<Turn>)
    requires Scheduled(data, turns)
    ensures Inv(data, After(data, turns))
    decreases |turns|
  {
    if turns != [] {
      WholeFrames(data, turns[..|turns| - 1]);
      StepKeepsInv(data, After(data, turns[..|turns| - 1]), turns[|turns| - 1]);
    }
  }

  // ---------------------------------------------------------------------------------------
  // Calls fail only when a write fails, and otherwise get done.

  ghost predicate NoneFails(turns: seq<Turn>) {
    forall i :: 0 <= i < |turns| ==> !turns[i].fails
  }

  lemma LastTurn(data: seq<seq<byte>>, turns: seq<Turn>)
    requires Scheduled(data, turns) && turns != []
    ensures var before, last := turns[..|turns| - 1], turns[|turns| - 1];
            && Scheduled(data, before) && last.thread < |data|
            && After(data, turns) == Step(data, After(data, before), last)
            && (NoneFails(turns) ==> NoneFails(before) && !last.fails)
  {
    assert forall i :: 0 <= i < |turns| - 1 ==> turns[..|turns| - 1][i] == turns[i];
  }

  /** While no write has failed the connection is intact and no call has failed. */
  lemma {:induction false} FailureHasCause(data: seq<seq<byte>>, turns: seq<Turn>)
    requires Scheduled(data, turns)
    ensures var s := After(data, turns);
            s.broken || (exists t :: 0 <= t < |data| && s.threads[t].Failed?) ==> exists i :: 0 <= i < |turns| && turns[i].fails
    decreases |turns|
  {
    if turns != [] {
      var before, last := turns[..|turns| - 1], turns[|turns| - 1];
      FailureHasCause(data, before);
      WholeFrames(data, before);
      var s := After(data, before);
      if NoneFails(turns) {
        assert forall i :: 0 <= i < |before| ==> before[i] == turns[i];
        hide Inv, Frame;
        if s.threads[last.thread].Writing? {
          WriterFacts(data, s, last.thread);
        }
      }
    }
  }

  lemma Intact(data: seq<seq<byte>>, turns: seq<Turn>)
    requires Scheduled(data, turns) && NoneFails(turns)
    ensures !After(data, turns).broken
  {
    hide After;
    FailureHasCause(data, turns);
  }

  /** How many of the turns found thread `t` writing. */
  ghost function WriteTurns(data: seq<seq<byte>>, turns: seq<Turn>, t: nat): nat
    requires Scheduled(data, turns) && t < |data|
    decreases |turns|
  {
    if turns == [] then 0
    else
      var before, last := turns[..|turns| - 1], turns[|turns| - 1];
      WriteTurns(data, before, t) + if last.thread == t && After(data, before).threads[t].Writing? then 1 else 0
  }

  /** What a turn does to one call while nothing fails. */
  lemma OneTurn(data: seq<seq<byte>>, s: State, turn: Turn, t: nat)
    requires turn.thread < |s.threads| == |data| && Inv(data, s) && t < |data| && !s.broken && !turn.fails
    ensures var pc, pc' := s.threads[t], Step(data, s, turn).threads[t];
            if turn.thread != t then pc' == pc
            else
              && (pc.Waiting? ==> pc'.Waiting? || pc' == Writing(0))
              && (pc.Writing? ==> pc'.Releasing? || (pc'.Writing? && pc.offset < pc'.offset < |data[t]| + 4))
              && (pc.Releasing? || pc.Finished? ==> pc'.Finished?)
  {
    if s.threads[t].Writing? {
      WriterFacts(data, s, t);
    }
  }

  /**
   With no failing write, each turn of a writer brings its frame on by at least a byte, so as many
   turns as its frame has bytes complete it.
   */
  lemma {:induction false} WritersAdvance(data: seq<seq<byte>>, turns: seq<Turn>, t: nat)
    requires Scheduled(data, turns) && t < |data| && NoneFails(turns)
    ensures WriteTurns(data, turns, t) <= |data[t]| + 4
    ensures var pc := After(data, turns).threads[t];
            && (pc.Waiting? ==> WriteTurns(data, turns, t) == 0)
            && (pc.Writing? ==> WriteTurns(data, turns, t) <= pc.offset < |data[t]| + 4)
            && (WriteTurns(data, turns, t) == |data[t]| + 4 ==> Complete(pc))
    decreases |turns|
  {
    if turns != [] {
      var before, last := turns[..|turns| - 1], turns[|turns| - 1];
      LastTurn(data, turns);
      hide NoneFails, Scheduled;
      WritersAdvance(data, before, t);
      WholeFrames(data, before);
      Intact(data, before);
      IntactMeansNoneFailed(data, before);
      hide Inv, After, Frame, Step;
      OneTurn(data, After(data, before), last, t);
    }
  }

  lemma AfterAppend(data: seq<seq<byte>>, turns: seq<Turn>, turn: Turn)
    requires Scheduled(data, turns) && turn.thread < |data|
    ensures Scheduled(data, turns + [turn]) && After(data, turns + [turn]) == Step(data, After(data, turns), turn)
  {
    assert (turns + [turn])[..|turns|] == turns;
  }

  ghost function LeftToWrite(data: seq<seq<byte>>, s: State, t: nat): int
    requires t < |s.threads| == |data|
  {
    if s.threads[t].Writing? then |data[t]| + 4 - s.threads[t].offset else 0
  }

  /** One more byte from the lock holder, or the end of its frame. */
  lemma HolderWrites(data: seq<seq<byte>>, s: State, t: nat)
    requires t < |s.threads| == |data| && Inv(data, s) && s.threads[t].Writing? && !s.broken
    ensures var s' := Step(data, s, Turn(t, 1, false));
            && !s'.broken && s'.threads == s.threads[t := s'.threads[t]] && Busy(s'.threads[t])
            && LeftToWrite(data, s', t) < LeftToWrite(data, s, t) && LeftToWrite(data, s, t) > 0
  {
    hide Frame, Inv;
    WriterFacts(data, s, t);
  }

  /** The lock holder can finish by itself. */
  lemma {:induction false} FinishHolder(data: seq<seq<byte>>, turns: seq<Turn>, t: nat) returns (more: seq<Turn>)
    requires Scheduled(data, turns) && t < |data| && !After(data, turns).broken && Busy(After(data, turns).threads[t])
    ensures NoneFails(more) && Scheduled(data, turns + more) && !After(data, turns + more).broken
    ensures After(data, turns + more).threads == After(data, turns).threads[t := Finished]
    decreases LeftToWrite(data, After(data, turns), t)
  {
    hide Inv, After, Step, LeftToWrite, Scheduled;
    var s, turn := After(data, turns), Turn(t, 1, false);
    WholeFrames(data, turns);
    AfterAppend(data, turns, turn);
    if s.threads[t].Releasing? {
      more := [turn];
      HolderReleases(data, s, t);
    } else {
      HolderWrites(data, s, t);
      NoNegative(data, s, t);
      var rest := FinishHolder(data, turns + [turn], t);
      more := [turn] + rest;
      assert turns + more == turns + [turn] + rest;
    }
  }

  lemma HolderReleases(data: seq<seq<byte>>, s: State, t: nat)
    requires t < |s.threads| == |data| && s.threads[t].Releasing?
    ensures var s' := Step(data, s, Turn(t, 1, false));
            s'.broken == s.broken && s'.threads == s.threads[t := Finished]
  {
  }

  lemma NoNegative(data: seq<seq<byte>>, s: State, t: nat)
    requires t < |s.threads| == |data| && Inv(data, s) && !s.broken
    ensures LeftToWrite(data, s, t) >= 0
  {
    if s.threads[t].Writing? {
      WriterFacts(data, s, t);
    }
  }

  ghost function Unfinished(s: State): set<nat> {
    set t | 0 <= t < |s.threads| && !s.threads[t].Finished?
  }

  /** While the connection is intact, some continuation without a failing write finishes every call. */
  lemma {:induction false} EveryCallCanFinish(data: seq<seq<byte>>, turns: seq<Turn>) returns (more: seq<Turn>)
    requires Scheduled(data, turns) && !After(data, turns).broken
    ensures NoneFails(more) && Scheduled(data, turns + more)
    ensures forall t :: 0 <= t < |data| ==> After(data, turns + more).threads[t].Finished? && t in After(data, turns + more).order
    decreases |Unfinished(After(data, turns))|
  {
    var s := After(data, turns);
    WholeFrames(data, turns);
    IntactMeansNoneFailed(data, turns);
    hide After, Inv, Step, Scheduled, Unfinished;
    if Unfinished(s) == {} {
      more := [];
      assert turns + [] == turns;
      FinishedAreListed(data, s);
    } else {
      var one := FinishOne(data, turns);
      var rest := EveryCallCanFinish(data, turns + one);
      more := one + rest;
      assert turns + more == turns + one + rest;
    }
  }

  lemma FinishOne(data: seq<seq<byte>>, turns: seq<Turn>) returns (more: seq<Turn>)
    requires Scheduled(data, turns) && !After(data, turns).broken && Unfinished(After(data, turns)) != {}
    ensures NoneFails(more) && Scheduled(data, turns + more) && !After(data, turns + more).broken
    ensures |Unfinished(After(data, turns + more))| < |Unfinished(After(data, turns))|
  {
    hide After, Scheduled;
    var t: nat, first := BeginOne(data, turns);
    var rest := FinishHolder(data, turns + first, t);
    more := first + rest;
    assert turns + more == turns + first + rest;
    var s, s' := After(data, turns), After(data, turns + more);
    assert s'.threads == s.threads[t := Finished];
    assert Unfinished(s') == Unfinished(s) - {t};
  }

  lemma FinishedAreListed(data: seq<seq<byte>>, s: State)
    requires Inv(data, s) && Unfinished(s) == {}
    ensures forall t :: 0 <= t < |data| ==> s.threads[t].Finished? && t in s.order
  {
    forall t | 0 <= t < |data| ensures s.threads[t].Finished? && t in s.order {
      assert t !in Unfinished(s);
    }
  }

  /** Either someone holds the lock, or a waiting call can take it. */
  lemma BeginOne(data: seq<seq<byte>>, turns: seq<Turn>) returns (t: nat, first: seq<Turn>)
    requires Scheduled(data, turns) && !After(data, turns).broken && Unfinished(After(data, turns)) != {}
    ensures t in Unfinished(After(data, turns)) && NoneFails(first) && Scheduled(data, turns + first)
    ensures var s' := After(data, turns + first);
            !s'.broken && Busy(s'.threads[t]) && s'.threads == After(data, turns).threads[t := s'.threads[t]]
  {
    var s := After(data, turns);
    WholeFrames(data, turns);
    IntactMeansNoneFailed(data, turns);
    if s.holder.Some? {
      t, first := s.holder.value, [];
      assert turns + [] == turns;
    } else {
      t :| t in Unfinished(s);
      assert s.threads[t].Waiting?;
      first := [Turn(t, 1, false)];
      AfterAppend(data, turns, first[0]);
    }
  }

  lemma {:induction false} IntactMeansNoneFailed(data: seq<seq<byte>>, turns: seq<Turn>)
    requires Scheduled(data, turns) && !After(data, turns).broken
    ensures forall t :: 0 <= t < |data| ==> !After(data, turns).threads[t].Failed?
    decreases |turns|
  {
    if turns != [] {
      IntactMeansNoneFailed(data, turns[..|turns| - 1]);
    }
  }

  ghost function Selected(ms: seq<Message>, order: seq<nat>): (r: seq<Message>)
    requires forall i :: 0 <= i < |order| ==> order[i] < |ms|
    ensures |r| == |order| && forall i :: 0 <= i < |order| ==> r[i] == ms[order[i]]
  {
    seq(|order|, i requires 0 <= i < |order| => ms[order[i]])
  }

  /** Bytes cut off inside the frame of a sendable message hold no whole frame. */
  lemma CutYieldsNothing(ms: seq<Message>, partial: seq<byte>, crc: Crc)
    requires (forall i :: 0 <= i < |ms| ==> Sendable(ms[i], crc)) && IsCut(EncodedAll(ms), partial)
    ensures FirstFrame(partial).NoData?
  {
    if partial != [] {
      var t :| 0 <= t < |ms| && partial <= Frame(EncodedAll(ms)[t]) && partial != Frame(EncodedAll(ms)[t]);
      EncodedSize(ms[t]);
      CutFrame(Encoded(ms[t]), partial);
    }
  }

  lemma ReadBack(ms: seq<Message>, s: State, crc: Crc)
    requires (forall i :: 0 <= i < |ms| ==> Sendable(ms[i], crc)) && Inv(EncodedAll(ms), s)
    ensures (forall i :: 0 <= i < |s.order| ==> s.order[i] < |ms|)
    ensures Handled(s.wire, crc) == Selected(ms, s.order)
  {
    hide Stream, Frame, FirstFrame, Handled, HolderOk, Sendable, Encoded;
    var chosen := Selected(ms, s.order);
    assert Sent(EncodedAll(ms), s.order) == EncodedAll(chosen);
    assert forall i :: 0 <= i < |chosen| ==> Sendable(chosen[i], crc);
    CutYieldsNothing(ms, s.partial, crc);
    HandledAre(chosen, s.partial, crc);
  }

  /**
   End to end: sendable messages written by concurrent calls, in any interleaving and with failures,
   and the wire read back in chunks of any size: the read loop handles exactly the messages whose
   writing completed, each once, in lock order.
   */
  method EndToEnd(ms: seq<Message>, ghost turns: seq<Turn>, crc: Crc, wire: seq<byte>) returns (handled: seq<Message>)
    requires (forall i :: 0 <= i < |ms| ==> Sendable(ms[i], crc)) && Scheduled(EncodedAll(ms), turns)
    requires wire == After(EncodedAll(ms), turns).wire
    ensures var s := After(EncodedAll(ms), turns);
            && (forall t :: 0 <= t < |ms| ==> (t in s.order <==> Complete(s.threads[t])))
            && (forall i :: 0 <= i < |s.order| ==> s.order[i] < |ms|)
            && (forall i, j :: 0 <= i < j < |s.order| ==> s.order[i] != s.order[j])
            && handled == Selected(ms, s.order)
  {
    hide After, Step, Frame, FirstFrame, Handled, IsCut, HolderOk, Stream, Encoded, Sendable;
    var r := new Reader(wire, false);
    var c := new Connection(r);
    handled := ReadLoop(c, crc);
    WholeFrames(EncodedAll(ms), turns);
    ReadBack(ms, After(EncodedAll(ms), turns), crc);
  }
}
