/**
 The mutex priority queue of pkg/ds/sync/priority_queue.go, a binary heap of items, and its
 agreement with the skip list run by one thread: every sequence of calls gets the same answers.
 */
module HeapQueues {
  import opened Common
  import opened Priorities
  import BinaryHeap

  function Rank(x: Item): int {
    x.priority
  }

  class HeapQueue {
    var items: seq<Item>

    ghost predicate Valid()
      reads this
    {
      BinaryHeap.Ordered(items, Rank)
    }

    constructor ()
      ensures Valid() && items == []
    {
      items := [];
      new;
      items := BinaryHeap.Init(items, Rank);
    }

    method Push(value: Value, priority: int)
      requires Valid()
      modifies this
      ensures Valid() && multiset(items) == old(multiset(items)) + multiset{Item(value, priority)}
    {
      items := BinaryHeap.Push(items, Rank, Item(value, priority));
    }

    /** Takes out an item that no other outranks. */
    method Pop() returns (item: Option<Item>)
      requires Valid()
      modifies this
      ensures Valid() && (item.None? <==> old(items) == [])
      ensures item.None? ==> items == []
      ensures item.Some? ==> multiset(items) == old(multiset(items)) - multiset{item.value} && item.value in old(items)
      ensures item.Some? ==> forall x :: x in old(items) ==> x.priority <= item.value.priority
    {
      if |items| == 0 {
        return None;
      }
      var rest, x := BinaryHeap.Pop(items, Rank);
      items, item := rest, Some(x);
    }

    method Peek() returns (item: Option<Item>)
      requires Valid()
      ensures item.None? <==> items == []
      ensures item.Some? ==> item.value in items && forall x :: x in items ==> x.priority <= item.value.priority
    {
      if |items| == 0 {
        return None;
      }
      item := Some(items[0]);
      forall x | x in items ensures x.priority <= items[0].priority {
        var k :| 0 <= k < |items| && items[k] == x;
        BinaryHeap.RootIsLargest(items, Rank, k);
      }
    }

    method Len() returns (n: nat)
      ensures n == |items|
    {
      n := |items|;
    }

    method Clear()
      modifies this
      ensures Valid() && items == []
    {
      items := items[..0];
    }
  }
}

module PriorityQueues {
  import opened Common
  import opened Priorities
  import SkipLevels
  import opened SkipLists
  import opened HeapQueues

  /** One call; a push carries the random level the skip list would draw for it. */
  datatype Op = PushOp(value: Value, priority: int, level: nat) | PopOp | PeekOp | ClearOp

  /** What the caller sees: the priority handed out, if any, and the length afterwards. */
  datatype Answer = Answer(front: Option<int>, len: nat)

  ghost function Front(s: seq<Item>): Option<int> {
    if s == [] then None else Some(s[0].priority)
  }

  ghost function Next(s: seq<Item>, op: Op): seq<Item> {
    match op
    case PushOp(value, priority, _) => Insert(s, Item(value, priority))
    case PopOp => if s == [] then [] else s[1..]
    case PeekOp => s
    case ClearOp => []
  }

  ghost function Seen(s: seq<Item>, op: Op): Answer {
    Answer(if op.PopOp? || op.PeekOp? then Front(s) else None, |Next(s, op)|)
  }

  /** The sorted list after a sequence of calls, and the answers it gives on the way. */
  ghost function After(ops: seq<Op>): (s: seq<Item>)
    ensures Sorted(s)
    decreases |ops|
  {
    if ops == [] then []
    else
      var s := After(ops[..|ops| - 1]);
      NextSorted(s, ops[|ops| - 1]);
      Next(s, ops[|ops| - 1])
  }

  lemma NextSorted(s: seq<Item>, op: Op)
    requires Sorted(s)
    ensures Sorted(Next(s, op))
  {
    if op.PushOp? {
      InsertKeeps(s, Item(op.value, op.priority));
    }
  }

  ghost function Answers(ops: seq<Op>): (r: seq<Answer>)
    ensures |r| == |ops|
    decreases |ops|
  {
    if ops == [] then []
    else Answers(ops[..|ops| - 1]) + [Seen(After(ops[..|ops| - 1]), ops[|ops| - 1])]
  }

  lemma OneMore(ops: seq<Op>, i: nat)
    requires i < |ops|
    ensures After(ops[..i + 1]) == Next(After(ops[..i]), ops[i])
    ensures Answers(ops[..i + 1]) == Answers(ops[..i]) + [Seen(After(ops[..i]), ops[i])]
  {
    assert ops[..i + 1][..i] == ops[..i];
  }

  /** A pop or peek reports the priority that no item of the list exceeds, or that there is none; every call the length. */
  ghost predicate Tells(ops: seq<Op>, answers: seq<Answer>, i: nat)
    requires i < |ops| == |answers|
  {
    var s := After(ops[..i]);
    && (answers[i].front.Some? <==> (ops[i].PopOp? || ops[i].PeekOp?) && s != [])
    && (answers[i].front.Some? ==>
          (exists x :: x in s && x.priority == answers[i].front.value) && forall x :: x in s ==> x.priority <= answers[i].front.value)
    && answers[i].len == |After(ops[..i + 1])|
  }

  lemma {:induction false} AnswersTell(ops: seq<Op>, i: nat)
    requires i < |ops|
    ensures Tells(ops, Answers(ops), i)
    decreases |ops|
  {
    hide After, Insert;
    var n := |ops| - 1;
    var before := ops[..n];
    assert Answers(ops) == Answers(before) + [Seen(After(before), ops[n])];
    if i == n {
      assert ops[..i + 1] == ops;
      AfterIs(ops);
      FrontTells(After(before));
    } else {
      AnswersTell(before, i);
      assert before[..i] == ops[..i] && before[..i + 1] == ops[..i + 1];
    }
  }

  lemma AfterIs(ops: seq<Op>)
    requires ops != []
    ensures After(ops) == Next(After(ops[..|ops| - 1]), ops[|ops| - 1])
  {
  }

  lemma FrontTells(s: seq<Item>)
    requires Sorted(s)
    ensures Front(s).Some? <==> s != []
    ensures s != [] ==> (exists x :: x in s && x.priority == Front(s).value) && forall x :: x in s ==> x.priority <= Front(s).value
  {
    if s != [] {
      assert s[0] in s;
    }
  }

  lemma AllTell(ops: seq<Op>)
    ensures forall i :: 0 <= i < |ops| ==> Tells(ops, Answers(ops), i)
  {
    forall i | 0 <= i < |ops| ensures Tells(ops, Answers(ops), i) {
      AnswersTell(ops, i);
    }
  }

  ghost predicate LevelsDrawn(ops: seq<Op>) {
    forall i :: 0 <= i < |ops| && ops[i].PushOp? ==> 1 <= ops[i].level <= SkipLevels.MAX_LEVEL
  }

  /** The skip list answers as the sorted list does, whatever levels it draws. */
  method RunSkipList(ops: seq<Op>) returns (answers: seq<Answer>)
    requires LevelsDrawn(ops)
    ensures answers == Answers(ops) && forall i :: 0 <= i < |ops| ==> Tells(ops, answers, i)
  {
    hide Answers, After, Insert, Tells;
    var q := new SkipQueue();
    answers := [];
    NoneYet(ops);
    for i := 0 to |ops|
      invariant q.Valid() && q.Contents() == After(ops[..i]) && answers == Answers(ops[..i])
      invariant fresh(q) && forall n :: n in q.list ==> fresh(n)
    {
      OneMore(ops, i);
      assert forall p :: 0 <= p < |q.list| ==> q.list[p] in q.list;
      var front := StepSkipList(q, ops[i]);
      var n := q.Len();
      answers := answers + [Answer(front, n)];
    }
    assert ops[..|ops|] == ops;
    AllTell(ops);
  }

  lemma NoneYet(ops: seq<Op>)
    ensures After(ops[..0]) == [] && Answers(ops[..0]) == []
  {
  }

  method StepSkipList(q: SkipQueue, op: Op) returns (front: Option<int>)
    requires q.Valid() && (op.PushOp? ==> 1 <= op.level <= SkipLevels.MAX_LEVEL)
    modifies q, q.list
    ensures q.Valid() && q.Contents() == Next(old(q.Contents()), op) && front == Seen(old(q.Contents()), op).front
    ensures forall n :: n in q.list ==> n in old(q.list) || fresh(n)
  {
    hide SkipQueue.Valid, SkipQueue.Items, Insert;
    front := None;
    match op
    case PushOp(value, priority, level) =>
      q.Push(value, priority, level);
    case PopOp =>
      var item := q.Pop();
      front := if item.None? then None else Some(item.value.priority);
    case PeekOp =>
      var item := q.Peek();
      front := if item.None? then None else Some(item.value.priority);
    case ClearOp =>
      q.Clear();
  }

  // ---------------------------------------------------------------------------------------
  // The heap, against the same list: they hold the same priorities.

  ghost function Prios(s: seq<Item>): (r: seq<int>)
    ensures |r| == |s| && forall i :: 0 <= i < |s| ==> r[i] == s[i].priority
  {
    seq(|s|, i requires 0 <= i < |s| => s[i].priority)
  }

  ghost function Ranks(s: seq<Item>): multiset<int> {
    multiset(Prios(s))
  }

  lemma RanksWithout(s: seq<Item>, j: nat)
    requires j < |s|
    ensures Ranks(s) == Ranks(s[..j] + s[j + 1..]) + multiset{s[j].priority}
  {
    var p := Prios(s);
    assert p == p[..j] + [p[j]] + p[j + 1..];
    assert Prios(s[..j] + s[j + 1..]) == p[..j] + p[j + 1..];
  }

  lemma ItemsWithout(s: seq<Item>, j: nat)
    requires j < |s|
    ensures multiset(s[..j] + s[j + 1..]) == multiset(s) - multiset{s[j]}
  {
    assert s == s[..j] + [s[j]] + s[j + 1..];
  }

  lemma {:induction false} SameItemsSameRanks(a: seq<Item>, b: seq<Item>)
    requires multiset(a) == multiset(b)
    ensures Ranks(a) == Ranks(b) && |a| == |b|
    decreases |a|
  {
    hide Ranks;
    assert |multiset(a)| == |a| && |multiset(b)| == |b|;
    if a == [] {
      assert a == b;
    } else {
      assert a[0] in multiset(b);
      var j :| 0 <= j < |b| && b[j] == a[0];
      ItemsWithout(a, 0);
      ItemsWithout(b, j);
      RanksWithout(a, 0);
      RanksWithout(b, j);
      SameItemsSameRanks(a[..0] + a[1..], b[..j] + b[j + 1..]);
    }
  }

  lemma RanksAdd(a: seq<Item>, b: seq<Item>, x: Item)
    requires multiset(b) == multiset(a) + multiset{x}
    ensures Ranks(b) == Ranks(a) + multiset{x.priority} && |b| == |a| + 1
  {
    SameItemsSameRanks(b, a + [x]);
    RanksWithout(a + [x], |a|);
    assert (a + [x])[..|a|] + (a + [x])[|a| + 1..] == a;
  }

  lemma RankIn(s: seq<Item>, p: int)
    ensures p in Ranks(s) <==> exists i :: 0 <= i < |s| && s[i].priority == p
  {
    assert p in Ranks(s) <==> p in Prios(s);
  }

  /** Of two collections with the same priorities, the largest of one is the front of the other. */
  lemma LargestIsFront(items: seq<Item>, s: seq<Item>, top: Item)
    requires Ranks(items) == Ranks(s) && Sorted(s)
    requires top in items && forall x :: x in items ==> x.priority <= top.priority
    ensures s != [] && s[0].priority == top.priority
  {
    RankIn(items, top.priority);
    RankIn(s, top.priority);
    RankIn(s, s[0].priority);
    RankIn(items, s[0].priority);
  }

  lemma PushedRanks(before: seq<Item>, after: seq<Item>, s: seq<Item>, x: Item)
    requires Ranks(before) == Ranks(s) && |before| == |s| && Sorted(s) && multiset(after) == multiset(before) + multiset{x}
    ensures Ranks(after) == Ranks(Insert(s, x)) && |after| == |Insert(s, x)|
  {
    hide Ranks, Insert;
    InsertKeeps(s, x);
    RanksAdd(s, Insert(s, x), x);
    RanksAdd(before, after, x);
  }

  lemma PoppedRanks(before: seq<Item>, after: seq<Item>, s: seq<Item>, x: Item)
    requires Ranks(before) == Ranks(s) && |before| == |s| && s != [] && s[0].priority == x.priority
    requires x in before && multiset(after) == multiset(before) - multiset{x}
    ensures Ranks(after) == Ranks(s[1..]) && |after| == |s| - 1
  {
    hide Ranks;
    assert x in multiset(before);
    RanksAdd(after, before, x);
    RanksWithout(s, 0);
    assert s[..0] + s[1..] == s[1..];
    assert Ranks(after) == Ranks(before) - multiset{x.priority};
  }

  method StepHeap(q: HeapQueue, op: Op, ghost s: seq<Item>) returns (front: Option<int>)
    requires q.Valid() && Sorted(s) && Ranks(q.items) == Ranks(s) && |q.items| == |s|
    modifies q
    ensures q.Valid() && Ranks(q.items) == Ranks(Next(s, op)) && |q.items| == |Next(s, op)| && front == Seen(s, op).front
  {
    hide Ranks, Sorted, Insert, BinaryHeap.Ordered;
    front := None;
    match op
    case PushOp(value, priority, level) =>
      ghost var before := q.items;
      q.Push(value, priority);
      PushedRanks(before, q.items, s, Item(value, priority));
    case PopOp =>
      ghost var before := q.items;
      var item := q.Pop();
      if item.Some? {
        LargestIsFront(before, s, item.value);
        PoppedRanks(before, q.items, s, item.value);
        front := Some(item.value.priority);
      }
    case PeekOp =>
      var item := q.Peek();
      if item.Some? {
        LargestIsFront(q.items, s, item.value);
        front := Some(item.value.priority);
      }
    case ClearOp =>
      q.Clear();
  }

  /** The heap answers as the sorted list does. */
  method RunHeap(ops: seq<Op>) returns (answers: seq<Answer>)
    ensures answers == Answers(ops) && forall i :: 0 <= i < |ops| ==> Tells(ops, answers, i)
  {
    hide Answers, After, Insert, Ranks, Tells;
    var q := new HeapQueue();
    answers := [];
    NoneYet(ops);
    for i := 0 to |ops|
      invariant fresh(q) && q.Valid() && Ranks(q.items) == Ranks(After(ops[..i])) && |q.items| == |After(ops[..i])|
      invariant answers == Answers(ops[..i])
    {
      OneMore(ops, i);
      var front := StepHeap(q, ops[i], After(ops[..i]));
      var n := q.Len();
      answers := answers + [Answer(front, n)];
    }
    assert ops[..|ops|] == ops;
    AllTell(ops);
  }

  /** The two queues cannot be told apart by the priorities and lengths they report. */
  method QueuesAgree(ops: seq<Op>) returns (fromSkipList: seq<Answer>, fromHeap: seq<Answer>)
    requires LevelsDrawn(ops)
    ensures fromSkipList == fromHeap == Answers(ops)
  {
    fromSkipList := RunSkipList(ops);
    fromHeap := RunHeap(ops);
  }
}
