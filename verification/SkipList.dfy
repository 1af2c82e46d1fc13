/** The skip list of pkg/ds/lockfree/priority_queue.go run by one thread. */
module SkipLists {
  import opened Common
  import opened Priorities
  import opened SkipLevels

  class SkipNode {
    const item: Item
    const level: nat
    var next: seq<SkipNode?>
    var marked: bool

    constructor (item: Item, level: nat)
      ensures this.item == item && this.level == level && next == seq(MAX_LEVEL, _ => null) && !marked
    {
      this.item, this.level := item, level;
      next, marked := seq(MAX_LEVEL, _ => null), false;
    }
  }

  type Row = seq<SkipNode?>

  ghost function NodeAt(list: seq<SkipNode>, p: nat): SkipNode? {
    if p < |list| then list[p] else null
  }

  /** Entry `i` of row `p` is the next node linked at level `i`. */
  ghost predicate LinkOk(list: seq<SkipNode>, heights: seq<nat>, rows: seq<Row>, p: nat, i: nat)
    requires |list| == |heights| == |rows| && p < |list| && i < heights[p]
  {
    |rows[p]| == MAX_LEVEL && i < MAX_LEVEL && rows[p][i] == NodeAt(list, Succ(heights, p, i))
  }

  /** The rows link, at every level, exactly the nodes high enough for it; every node is at the bottom level. */
  ghost predicate LevelsOk(list: seq<SkipNode>, heights: seq<nat>, rows: seq<Row>)
  {
    && |list| == |heights| == |rows| > 0
    && heights[0] == MAX_LEVEL
    && (forall p :: 0 <= p < |list| ==> 1 <= heights[p] <= MAX_LEVEL && |rows[p]| == MAX_LEVEL)
    && (forall p: nat, i: nat {:trigger LinkOk(list, heights, rows, p, i)} ::
          p < |list| && i < heights[p] ==> LinkOk(list, heights, rows, p, i))
  }

  /** The rows with a new row in front of position `pos` and its predecessor's bottom link turned to it. */
  ghost function RowsWith(rows: seq<Row>, pos: nat, node: SkipNode, row: Row): seq<Row>
    requires 0 < pos <= |rows| && |rows[pos - 1]| == MAX_LEVEL
  {
    Inserted(rows[pos - 1 := rows[pos - 1][0 := node]], pos, row)
  }

  lemma NewRows(rows: seq<Row>, pos: nat, node: SkipNode, row: Row)
    requires 0 < pos <= |rows| && |rows[pos - 1]| == MAX_LEVEL
    ensures RowsWith(rows, pos, node, row) == Inserted(rows[pos - 1 := rows[pos - 1][0 := node]], pos, row)
  {
  }

  lemma RowsWithAt(rows: seq<Row>, pos: nat, node: SkipNode, row: Row, p: nat)
    requires 0 < pos <= |rows| && |rows[pos - 1]| == MAX_LEVEL && p <= |rows|
    ensures |RowsWith(rows, pos, node, row)| == |rows| + 1
    ensures RowsWith(rows, pos, node, row)[p] ==
            if p == pos then row else if p == pos - 1 then rows[p][0 := node] else if p < pos then rows[p] else rows[p - 1]
  {
  }

  /** The old position of what stands at `p` behind an insertion at `pos`. */
  ghost function Origin(pos: nat, p: nat): nat {
    if p < pos || p == 0 then p else p - 1
  }

  /** A new node linked at the bottom level in front of position `pos`. */
  lemma BottomLinked(list: seq<SkipNode>, heights: seq<nat>, rows: seq<Row>, pos: nat, node: SkipNode, row: Row)
    requires LevelsOk(list, heights, rows) && 0 < pos <= |list| && |row| == MAX_LEVEL && row[0] == NodeAt(list, pos)
    ensures LevelsOk(Inserted(list, pos, node), Inserted(heights, pos, 1), RowsWith(rows, pos, node, row))
  {
    var list', heights', rows' := Inserted(list, pos, node), Inserted(heights, pos, 1), RowsWith(rows, pos, node, row);
    forall p: nat | p < |list'| ensures 1 <= heights'[p] <= MAX_LEVEL && |rows'[p]| == MAX_LEVEL {
      InsertedAt(heights, pos, 1, p);
      RowsWithAt(rows, pos, node, row, p);
    }
    forall p: nat, i: nat | p < |list'| && i < heights'[p] ensures LinkOk(list', heights', rows', p, i) {
      if i == 0 {
        BottomLink(list, heights, rows, pos, node, row, p);
      } else {
        HigherLink(list, heights, rows, pos, node, row, p, i);
      }
    }
  }

  lemma BottomLink(list: seq<SkipNode>, heights: seq<nat>, rows: seq<Row>, pos: nat, node: SkipNode, row: Row, p: nat)
    requires LevelsOk(list, heights, rows) && 0 < pos <= |list| && |row| == MAX_LEVEL && row[0] == NodeAt(list, pos)
    requires p <= |list|
    ensures Inserted(heights, pos, 1)[p] > 0
    ensures LinkOk(Inserted(list, pos, node), Inserted(heights, pos, 1), RowsWith(rows, pos, node, row), p, 0)
  {
    var list', heights' := Inserted(list, pos, node), Inserted(heights, pos, 1);
    RowsWithAt(rows, pos, node, row, p);
    InsertedAt(heights, pos, 1, p);
    if p + 1 < |list'| {
      InsertedAt(heights, pos, 1, p + 1);
      InsertedAt(list, pos, node, p + 1);
    }
    SuccIs(heights', p, 0, p + 1);
    if p != pos && p != pos - 1 {
      var o := Origin(pos, p);
      assert LinkOk(list, heights, rows, o, 0);
      SuccIs(heights, o, 0, o + 1);
    }
  }

  lemma HigherLink(list: seq<SkipNode>, heights: seq<nat>, rows: seq<Row>, pos: nat, node: SkipNode, row: Row, p: nat, i: nat)
    requires LevelsOk(list, heights, rows) && 0 < pos <= |list| && |row| == MAX_LEVEL && row[0] == NodeAt(list, pos)
    requires p <= |list| && 0 < i < Inserted(heights, pos, 1)[p]
    ensures LinkOk(Inserted(list, pos, node), Inserted(heights, pos, 1), RowsWith(rows, pos, node, row), p, i)
  {
    hide Inserted, RowsWith;
    RowsWithAt(rows, pos, node, row, p);
    InsertedAt(heights, pos, 1, p);
    var o := Origin(pos, p);
    var s := Succ(heights, o, i);
    assert LinkOk(list, heights, rows, o, i);
    SuccInserted(heights, pos, 1, o, i);
    if s < |list| {
      InsertedAt(list, pos, node, if s < pos then s else s + 1);
    }
  }

  /** The node at `pos` linked at one more level. */
  lemma LevelLinked(list: seq<SkipNode>, heights: seq<nat>, rows: seq<Row>, pos: nat, i: nat)
    requires LevelsOk(list, heights, rows) && 0 < pos < |list| && heights[pos] == i < MAX_LEVEL
    ensures var b := Before(heights, pos, i);
            LevelsOk(list, heights[pos := i + 1],
                     rows[pos := rows[pos][i := NodeAt(list, Succ(heights, pos, i))]][b := rows[b][i := list[pos]]])
  {
    var b, heights' := Before(heights, pos, i), heights[pos := i + 1];
    var rows' := rows[pos := rows[pos][i := NodeAt(list, Succ(heights, pos, i))]][b := rows[b][i := list[pos]]];
    forall p: nat, j: nat | p < |list| && j < heights'[p] ensures LinkOk(list, heights', rows', p, j) {
      SuccRaised(heights, pos, i, p, j);
      if p == pos && j == i {
      } else {
        assert LinkOk(list, heights, rows, p, j);
      }
    }
  }

  lemma SuccShifted(heights: seq<nat>, p: nat, i: nat)
    requires p + 1 < |heights| && |heights| > 1
    ensures Succ([heights[0]] + heights[2..], p, i) == Succ(heights, p + 1, i) - 1
  {
    var heights', s := [heights[0]] + heights[2..], Succ(heights, p + 1, i);
    assert forall r :: 0 < r < |heights'| ==> heights'[r] == heights[r + 1];
    SuccIs(heights', p, i, s - 1);
  }

  /** The first node taken out: the head takes over its successor at every level it was linked in. */
  lemma FirstUnlinked(list: seq<SkipNode>, heights: seq<nat>, rows: seq<Row>, row: Row)
    requires LevelsOk(list, heights, rows) && |list| > 1 && |row| == MAX_LEVEL
    requires forall i: nat :: i < MAX_LEVEL ==> row[i] == NodeAt(list, Succ(heights, 1, i))
    ensures LevelsOk([list[0]] + list[2..], [heights[0]] + heights[2..], [row] + rows[2..])
  {
    var list', heights', rows' := [list[0]] + list[2..], [heights[0]] + heights[2..], [row] + rows[2..];
    forall p: nat, i: nat | p < |list'| && i < heights'[p] ensures LinkOk(list', heights', rows', p, i) {
      assert p > 0 ==> LinkOk(list, heights, rows, p + 1, i);
      SuccShifted(heights, p, i);
    }
  }

  /** The head alone. */
  lemma NothingLinked(head: SkipNode, row: Row)
    requires row == seq(MAX_LEVEL, _ => null)
    ensures LevelsOk([head], [MAX_LEVEL], [row])
  {
    forall i: nat | i < MAX_LEVEL ensures LinkOk([head], [MAX_LEVEL], [row], 0, i) {
    }
  }

  /** The nodes from position `p` on that are linked at level `i`. */
  ghost function HighEnough(list: seq<SkipNode>, heights: seq<nat>, p: nat, i: nat): seq<SkipNode>
    requires |list| == |heights|
    decreases |list| - p
  {
    if p >= |list| then []
    else (if heights[p] > i then [list[p]] else []) + HighEnough(list, heights, p + 1, i)
  }

  ghost predicate Sublist(a: seq<SkipNode>, b: seq<SkipNode>)
    decreases |b|
  {
    || a == []
    || (b != [] && (if a[0] == b[0] then Sublist(a[1..], b[1..]) else Sublist(a, b[1..])))
  }

  lemma {:induction false} HighEnoughFrom(list: seq<SkipNode>, heights: seq<nat>, p: nat, i: nat, n: SkipNode)
    requires |list| == |heights| && n in HighEnough(list, heights, p, i)
    ensures exists q :: p <= q < |list| && list[q] == n
    decreases |list| - p
  {
    if heights[p] <= i || n != list[p] {
      HighEnoughFrom(list, heights, p + 1, i, n);
    }
  }

  lemma {:induction false} HigherIsSublist(list: seq<SkipNode>, heights: seq<nat>, p: nat, i: nat)
    requires |list| == |heights| && forall a, b :: 0 <= a < b < |list| ==> list[a] != list[b]
    ensures Sublist(HighEnough(list, heights, p, i + 1), HighEnough(list, heights, p, i))
    decreases |list| - p
  {
    if p < |list| {
      HigherIsSublist(list, heights, p + 1, i);
      var a, b := HighEnough(list, heights, p + 1, i + 1), HighEnough(list, heights, p + 1, i);
      if a != [] {
        HighEnoughFrom(list, heights, p + 1, i + 1, a[0]);
      }
      assert HighEnough(list, heights, p, i + 1) == if heights[p] > i + 1 then [list[p]] + a else a;
      assert HighEnough(list, heights, p, i) == if heights[p] > i then [list[p]] + b else b;
    }
  }

  /** Skipping the positions that are not linked changes nothing. */
  lemma {:induction false} HighEnoughAt(list: seq<SkipNode>, heights: seq<nat>, p: nat, q: nat, i: nat)
    requires |list| == |heights| && p <= q <= |list| && forall r :: p <= r < q ==> heights[r] <= i
    ensures HighEnough(list, heights, p, i) == HighEnough(list, heights, q, i)
    decreases q - p
  {
    if p < q {
      HighEnoughAt(list, heights, p + 1, q, i);
    }
  }

  ghost predicate Descending(s: seq<SkipNode>) {
    forall a, b :: 0 <= a < b < |s| ==> s[a].item.priority >= s[b].item.priority
  }

  lemma {:induction false} HighEnoughSorted(list: seq<SkipNode>, heights: seq<nat>, p: nat, i: nat)
    requires |list| == |heights|
    requires forall a, b :: p <= a < b < |list| ==> list[a].item.priority >= list[b].item.priority
    ensures Descending(HighEnough(list, heights, p, i))
    decreases |list| - p
  {
    if p < |list| {
      HighEnoughSorted(list, heights, p + 1, i);
      var rest := HighEnough(list, heights, p + 1, i);
      if heights[p] > i {
        forall n | n in rest ensures list[p].item.priority >= n.item.priority {
          HighEnoughFrom(list, heights, p + 1, i, n);
        }
      }
      assert HighEnough(list, heights, p, i) == if heights[p] > i then [list[p]] + rest else rest;
    }
  }

  lemma {:induction false} BottomHasAll(list: seq<SkipNode>, heights: seq<nat>, p: nat)
    requires |list| == |heights| && p <= |list| && forall q :: p <= q < |list| ==> heights[q] >= 1
    ensures HighEnough(list, heights, p, 0) == list[p..]
    decreases |list| - p
  {
    if p < |list| {
      BottomHasAll(list, heights, p + 1);
    }
  }

  class SkipQueue {
    const head: SkipNode
    var maxLevel: nat
    var count: int
    ghost var list: seq<SkipNode>     // the bottom level, head first
    ghost var heights: seq<nat>       // in how many levels each of them is linked
    ghost var rows: seq<Row>          // their next pointers

    static ghost predicate Mirrors(list: seq<SkipNode>, rows: seq<Row>)
      reads list`next
    {
      |rows| == |list| && forall p :: 0 <= p < |list| ==> list[p].next == rows[p]
    }

    static ghost predicate Distinct(list: seq<SkipNode>) {
      forall p, q :: 0 <= p < q < |list| ==> list[p] != list[q]
    }

    /** Popping marks a node and unlinks it; what is linked is unmarked. */
    static ghost predicate Unmarked(list: seq<SkipNode>)
      reads list`marked
    {
      forall p :: 0 < p < |list| ==> !list[p].marked
    }

    static ghost function Items(list: seq<SkipNode>): (r: seq<Item>)
      requires |list| > 0
      ensures |r| == |list| - 1
    {
      seq(|list| - 1, p requires 0 <= p < |list| - 1 => list[p + 1].item)
    }

    /** No node is linked above the current maximum level or above its own level. */
    static ghost predicate HeightsOk(list: seq<SkipNode>, heights: seq<nat>, maxLevel: nat) {
      && |list| == |heights|
      && forall p :: 0 < p < |list| ==> heights[p] <= maxLevel && heights[p] <= list[p].level <= MAX_LEVEL
    }

    ghost predicate Linked()
      reads this, list
    {
      && LevelsOk(list, heights, rows) && list[0] == head
      && Mirrors(list, rows) && Distinct(list) && Unmarked(list)
    }

    ghost predicate Valid()
      reads this, list
    {
      && Linked()
      && HeightsOk(list, heights, maxLevel) && 1 <= maxLevel <= MAX_LEVEL
      && Sorted(Items(list)) && count == |list| - 1
    }

    ghost function Contents(): seq<Item>
      requires Valid()
      reads this, list
    {
      Items(list)
    }

    constructor ()
      ensures Valid() && Contents() == [] && fresh(list)
    {
      var node := new SkipNode(Item(0, 0x7FFF_FFFF_FFFF_FFFF), MAX_LEVEL);
      head, maxLevel, count := node, 1, 0;
      list, heights, rows := [node], [MAX_LEVEL], [seq(MAX_LEVEL, _ => null)];
      NothingLinked(node, seq(MAX_LEVEL, _ => null));
    }

    /** Where the items with a larger priority end. */
    ghost function Above(priority: int, from: nat): (pos: nat)
      requires Valid() && 1 <= from <= |list|
      requires forall p :: 1 <= p < from ==> list[p].item.priority > priority
      reads this, list
      ensures from <= pos <= |list| && (forall p :: 1 <= p < pos ==> list[p].item.priority > priority)
      ensures forall p :: pos <= p < |list| ==> list[p].item.priority <= priority
      decreases |list| - from
    {
      if from == |list| || list[from].item.priority <= priority then
        assert forall p :: 1 <= p < |list| ==> list[p].item == Items(list)[p - 1];
        from
      else Above(priority, from + 1)
    }

    lemma Sizes()
      requires LevelsOk(list, heights, rows)
      ensures |list| == |heights| == |rows| > 0 && forall p :: 0 <= p < |list| ==> 1 <= heights[p] <= MAX_LEVEL
    {
    }

    lemma LinkAt(p: nat, i: nat)
      requires LevelsOk(list, heights, rows) && Mirrors(list, rows) && p < |list| && i < heights[p]
      ensures |list[p].next| == MAX_LEVEL && i < MAX_LEVEL && list[p].next[i] == NodeAt(list, Succ(heights, p, i))
    {
      assert LinkOk(list, heights, rows, p, i);
    }

    /** The nodes met by following the pointers of level `i` from position `p`. */
    ghost function Met(p: nat, i: nat): seq<SkipNode>
      requires Linked() && p < |list| && i < heights[p]
      reads this, list
      decreases |list| - p
    {
      LinkAt(p, i);
      if list[p].next[i] == null then [] else [list[p].next[i]] + Met(Succ(heights, p, i), i)
    }

    lemma {:induction false} MetAre(p: nat, i: nat)
      requires Linked() && p < |list| && i < heights[p]
      ensures Met(p, i) == HighEnough(list, heights, p + 1, i)
      decreases |list| - p
    {
      hide LevelsOk, LinkOk, Mirrors, Distinct;
      Sizes();
      LinkAt(p, i);
      var q := Succ(heights, p, i);
      HighEnoughAt(list, heights, p + 1, q, i);
      if q < |list| {
        MetAre(q, i);
      }
    }

    lemma ListDescends()
      requires Valid()
      ensures forall a, b :: 1 <= a < b < |list| ==> list[a].item.priority >= list[b].item.priority
    {
      forall a, b | 1 <= a < b < |list| ensures list[a].item.priority >= list[b].item.priority {
        assert Items(list)[a - 1] == list[a].item && Items(list)[b - 1] == list[b].item;
      }
    }

    /**
     Following the pointers from the head: the bottom level meets every node, each level meets a
     sublist of what the level below meets, and every level is in descending priority.
     */
    lemma LevelsNest(i: nat)
      requires Valid() && i < MAX_LEVEL
      ensures i < heights[0] && Met(0, 0) == list[1..]
      ensures i + 1 < MAX_LEVEL ==> Sublist(Met(0, i + 1), Met(0, i))
      ensures Descending(Met(0, i))
    {
      hide LevelsOk, LinkOk, Mirrors, Items, Sorted, Met, HighEnough, Unmarked, Sublist;
      Sizes();
      HeadHeight();
      MetAre(0, 0);
      MetAre(0, i);
      BottomHasAll(list, heights, 1);
      ListDescends();
      HighEnoughSorted(list, heights, 1, i);
      if i + 1 < MAX_LEVEL {
        MetAre(0, i + 1);
        HigherIsSublist(list, heights, 1, i);
      }
    }

    /** One level of the search: goes on while the next node's priority is larger. */
    method Advance(start: SkipNode, ghost from: nat, level: nat, priority: int, ghost pos: nat)
      returns (pred: SkipNode, curr: SkipNode?, ghost a: nat)
      requires Valid() && from < pos <= |list| && list[from] == start && level < heights[from]
      requires (forall p :: 1 <= p < pos ==> list[p].item.priority > priority)
      requires forall p :: pos <= p < |list| ==> list[p].item.priority <= priority
      ensures a < pos && list[a] == pred && level < heights[a]
      ensures level < MAX_LEVEL && a == Before(heights, pos, level) && curr == NodeAt(list, Succ(heights, pos - 1, level))
    {
      hide LevelsOk, LinkOk, Mirrors, Distinct, Sorted, Items;
      pred, a := start, from;
      LinkAt(a, level);
      curr := pred.next[level];
      while curr != null && curr.item.priority > priority
        invariant a < pos && list[a] == pred && level < heights[a]
        invariant curr == NodeAt(list, Succ(heights, a, level))
        decreases pos - a
      {
        a := Succ(heights, a, level);
        if !curr.marked {
          pred := curr;
        }
        LinkAt(a, level);
        curr := curr.next[level];
      }
      HeadHeight();
      BeforeIs(heights, a, pos, level);
    }

    lemma HeadHeight()
      requires Linked()
      ensures |list| == |heights| > 0 && heights[0] == MAX_LEVEL
      ensures forall p :: 0 < p < |list| ==> heights[p] >= 1
    {
    }

    lemma RowAt(p: nat)
      requires Linked() && p < |list|
      ensures |list| == |heights| == |rows| && list[p].next == rows[p] && |rows[p]| == MAX_LEVEL && 1 <= heights[p] <= MAX_LEVEL
    {
    }

    /** The last node of larger priority at every level in use, and what follows it there. */
    method FindPosition(priority: int) returns (preds: Row, succs: Row, ghost pos: nat)
      requires Valid()
      ensures 1 <= pos <= |list| && (forall p :: 1 <= p < pos ==> list[p].item.priority > priority)
      ensures forall p :: pos <= p < |list| ==> list[p].item.priority <= priority
      ensures |preds| == |succs| == MAX_LEVEL && |heights| == |list| && heights[0] == MAX_LEVEL
      ensures forall i :: 0 <= i < maxLevel ==>
                preds[i] == list[Before(heights, pos, i)] && succs[i] == NodeAt(list, Succ(heights, pos - 1, i))
      ensures forall i :: maxLevel <= i < MAX_LEVEL ==> preds[i] == null
    {
      hide LevelsOk, LinkOk, Mirrors, Distinct, Unmarked, Sorted, Items, Above, Succ, Before, NodeAt;
      HeadHeight();
      preds, succs, pos := seq(MAX_LEVEL, _ => null), seq(MAX_LEVEL, _ => null), Above(priority, 1);
      var pred := head;
      ghost var a: nat := 0;
      for level := maxLevel downto 0
        invariant a < pos <= |list| == |heights| && list[a] == pred && level <= heights[a]
        invariant |preds| == |succs| == MAX_LEVEL
        invariant forall i :: level <= i < maxLevel ==>
                    preds[i] == list[Before(heights, pos, i)] && succs[i] == NodeAt(list, Succ(heights, pos - 1, i))
        invariant forall i :: maxLevel <= i < MAX_LEVEL ==> preds[i] == null
      {
        var curr;
        pred, curr, a := Advance(pred, a, level, priority, pos);
        preds := preds[level := pred];
        succs := succs[level := curr];
      }
    }

    static lemma SameRow(list: seq<SkipNode>, rows: seq<Row>, p: nat)
      requires Mirrors(list, rows) && p < |list|
      ensures p < |rows| && list[p].next == rows[p]
    {
    }

    static method SetNext(ghost list: seq<SkipNode>, ghost rows: seq<Row>, ghost p: nat, node: SkipNode, i: nat, target: SkipNode?)
      requires Mirrors(list, rows) && Distinct(list) && p < |list| && list[p] == node && i < |node.next|
      modifies node`next
      ensures i < |rows[p]| && Mirrors(list, rows[p := rows[p][i := target]])
    {
      node.next := node.next[i := target];
    }

    lemma NewcomerLinked(pos: nat, node: SkipNode, rows1: seq<Row>)
      requires Mirrors(list, rows1) && Distinct(list) && Unmarked(list) && node !in list && !node.marked && 0 < pos <= |list|
      ensures Mirrors(Inserted(list, pos, node), Inserted(rows1, pos, node.next))
      ensures Distinct(Inserted(list, pos, node)) && Unmarked(Inserted(list, pos, node))
    {
    }

    /** Links a new node behind `pred` at the bottom level. */
    method LinkBottom(pred: SkipNode, succ: SkipNode?, node: SkipNode, ghost pos: nat)
      requires Linked() && 0 < pos <= |list| && pred == list[pos - 1] && succ == NodeAt(list, pos)
      requires node !in list && !node.marked && |node.next| == MAX_LEVEL
      modifies `list, `heights, `rows, node`next, pred`next
      ensures Linked() && list == Inserted(old(list), pos, node)
      ensures |heights| == |old(heights)| + 1 && |old(heights)| == |old(list)| && heights == Inserted(old(heights), pos, 1)
    {
      hide LevelsOk, LinkOk, Mirrors, Distinct, Unmarked, Inserted, RowsWith;
      RowAt(pos - 1);
      node.next := node.next[0 := succ];
      BottomLinked(list, heights, rows, pos, node, node.next);
      SetNext(list, rows, pos - 1, pred, 0, node);
      NewcomerLinked(pos, node, rows[pos - 1 := rows[pos - 1][0 := node]]);
      InsertedAt(list, pos, node, 0);
      NewRows(rows, pos, node, node.next);
      rows := RowsWith(rows, pos, node, node.next);
      list := Inserted(list, pos, node);
      heights := Inserted(heights, pos, 1);
    }

    /** Links the node at `pos`, linked in the `i` levels below, at level `i` as well. */
    method LinkLevel(pred: SkipNode, succ: SkipNode?, node: SkipNode, i: nat, ghost pos: nat)
      requires Linked() && 0 < pos < |list| == |heights| && list[pos] == node && heights[pos] == i < MAX_LEVEL == heights[0]
      requires pred == list[Before(heights, pos, i)] && succ == NodeAt(list, Succ(heights, pos, i))
      modifies `heights, `rows, node`next, pred`next
      ensures Linked() && |old(heights)| > pos && heights == old(heights)[pos := i + 1]
    {
      hide LevelsOk, LinkOk, Mirrors, Distinct, Unmarked;
      ghost var b := Before(heights, pos, i);
      RowAt(pos);
      RowAt(b);
      LevelLinked(list, heights, rows, pos, i);
      SetNext(list, rows, pos, node, i, succ);
      SameRow(list, rows[pos := rows[pos][i := succ]], b);
      SetNext(list, rows[pos := rows[pos][i := succ]], b, pred, i, node);
      rows := rows[pos := rows[pos][i := succ]][b := rows[b][i := node]];
      heights := heights[pos := i + 1];
    }

    /** What the search found still holds for the list with the new node at the bottom level. */
    static lemma FoundStays(list: seq<SkipNode>, heights: seq<nat>, pos: nat, node: SkipNode, h: nat, i: nat)
      requires 0 < pos <= |list| == |heights| && heights[0] > i && h <= i
      ensures Before(Inserted(heights, pos, h), pos, i) == Before(heights, pos, i)
      ensures list[Before(heights, pos, i)] == Inserted(list, pos, node)[Before(heights, pos, i)]
      ensures NodeAt(Inserted(list, pos, node), Succ(Inserted(heights, pos, h), pos, i)) == NodeAt(list, Succ(heights, pos - 1, i))
    {
      var heights', b, s := Inserted(heights, pos, h), Before(heights, pos, i), Succ(heights, pos - 1, i);
      forall r: nat | r <= |heights| ensures heights'[r] == if r < pos then heights[r] else if r == pos then h else heights[r - 1] {
        InsertedAt(heights, pos, h, r);
      }
      var b' := Before(heights', pos, i);
      assert heights'[b'] > i && heights[b] > i;
      SuccIs(heights', pos, i, s + 1);
    }

    lemma BottomFound(pos: nat)
      requires LevelsOk(list, heights, rows) && 0 < pos <= |list| == |heights|
      ensures Before(heights, pos, 0) == pos - 1 && Succ(heights, pos - 1, 0) == pos
    {
    }

    static lemma ItemsInserted(list: seq<SkipNode>, pos: nat, node: SkipNode)
      requires 0 < pos <= |list|
      ensures Items(Inserted(list, pos, node)) == Items(list)[..pos - 1] + [node.item] + Items(list)[pos - 1..]
    {
      hide Inserted;
      forall p: nat | p < |list|
        ensures Items(Inserted(list, pos, node))[p] == (Items(list)[..pos - 1] + [node.item] + Items(list)[pos - 1..])[p]
      {
        InsertedAt(list, pos, node, p + 1);
      }
    }

    static lemma ItemsAre(list: seq<SkipNode>)
      requires |list| > 0
      ensures forall p :: 0 <= p < |list| - 1 ==> Items(list)[p] == list[p + 1].item
    {
    }

    static lemma PushedItems(list: seq<SkipNode>, pos: nat, node: SkipNode)
      requires 0 < pos <= |list| && Sorted(Items(list))
      requires forall p :: 1 <= p < pos ==> list[p].item.priority > node.item.priority
      requires forall p :: pos <= p < |list| ==> list[p].item.priority <= node.item.priority
      ensures Items(Inserted(list, pos, node)) == Insert(Items(list), node.item)
      ensures Sorted(Items(Inserted(list, pos, node)))
    {
      ItemsAre(list);
      hide Items, Inserted, Insert, Sorted;
      InsertAt(Items(list), node.item, pos - 1);
      InsertKeeps(Items(list), node.item);
      ItemsInserted(list, pos, node);
    }

    static lemma PushedHeights(list: seq<SkipNode>, heights: seq<nat>, maxLevel: nat, pos: nat, node: SkipNode, h: nat)
      requires HeightsOk(list, heights, maxLevel) && 0 < pos <= |list| && h <= maxLevel && h <= node.level <= MAX_LEVEL
      ensures HeightsOk(Inserted(list, pos, node), Inserted(heights, pos, h),
                        if node.level > maxLevel then node.level else maxLevel)
    {
    }

    /** Links the new node at every level it has a predecessor for. */
    method LinkUpper(preds: Row, succs: Row, node: SkipNode, level: nat, ghost pos: nat,
                     ghost list0: seq<SkipNode>, ghost heights0: seq<nat>)
      returns (ghost h: nat)
      requires Linked() && 0 < pos <= |list0| == |heights0| && heights0[0] == MAX_LEVEL
      requires list == Inserted(list0, pos, node) && heights == Inserted(heights0, pos, 1)
      requires |preds| == |succs| == MAX_LEVEL && 1 <= level <= MAX_LEVEL && 1 <= maxLevel <= MAX_LEVEL
      requires forall i :: 0 <= i < maxLevel ==>
                 preds[i] == list0[Before(heights0, pos, i)] && succs[i] == NodeAt(list0, Succ(heights0, pos - 1, i))
      requires forall i :: maxLevel <= i < MAX_LEVEL ==> preds[i] == null
      modifies `heights, `rows, list`next
      ensures Linked() && heights == Inserted(heights0, pos, h) && h == if level < maxLevel then level else maxLevel
    {
      hide LevelsOk, LinkOk, Mirrors, Distinct, Unmarked, Inserted, Succ, Before, NodeAt;
      h := 1;
      for i := 1 to level
        invariant Linked() && heights == Inserted(heights0, pos, h) && h == if i < maxLevel then i else maxLevel
      {
        assert i < maxLevel ==> preds[i] == list0[Before(heights0, pos, i)];
        if preds[i] != null {
          HeadHeight();
          InsertedAt(heights0, pos, h, pos);
          InsertedAt(list0, pos, node, pos);
          FoundStays(list0, heights0, pos, node, h, i);
          LinkLevel(preds[i], succs[i], node, i, pos);
          ghost var h1: nat := i + 1;
          InsertedUpdate(heights0, pos, h, h1);
          h := h1;
        }
      }
    }

    /** Links a new node at the bottom level and then at every level in use up to its own. */
    method LinkNew(preds: Row, succs: Row, node: SkipNode, level: nat, ghost pos: nat) returns (ghost h: nat)
      requires Linked() && 0 < pos <= |list| == |heights| && heights[0] == MAX_LEVEL
      requires node !in list && !node.marked && |node.next| == MAX_LEVEL
      requires |preds| == |succs| == MAX_LEVEL && 1 <= level <= MAX_LEVEL && 1 <= maxLevel <= MAX_LEVEL
      requires forall i :: 0 <= i < maxLevel ==>
                 preds[i] == list[Before(heights, pos, i)] && succs[i] == NodeAt(list, Succ(heights, pos - 1, i))
      requires forall i :: maxLevel <= i < MAX_LEVEL ==> preds[i] == null
      modifies `list, `heights, `rows, list`next, node`next
      ensures Linked() && list == Inserted(old(list), pos, node)
      ensures heights == Inserted(old(heights), pos, h) && h == if level < maxLevel then level else maxLevel
    {
      hide LevelsOk, LinkOk, Mirrors, Distinct, Unmarked, Inserted, Succ, Before, NodeAt;
      ghost var list0, heights0 := list, heights;
      BottomFound(pos);
      LinkBottom(preds[0], succs[0], node, pos);
      InsertedFrom(list0, pos, node);
      assert forall p :: 0 <= p < |list| ==> list[p] in list;
      h := LinkUpper(preds, succs, node, level, pos, list0, heights0);
    }

    /** Pushes an item on a node of the given, randomly chosen, level, linked in every level in use up to it. */
    method Push(value: Value, priority: int, level: nat)
      requires Valid() && 1 <= level <= MAX_LEVEL
      modifies this, list
      ensures Valid() && Contents() == Insert(old(Contents()), Item(value, priority))
      ensures maxLevel == if level > old(maxLevel) then level else old(maxLevel)
      ensures exists pos: nat, h: nat :: h == (if level < old(maxLevel) then level else old(maxLevel))
                && pos <= |old(heights)| && heights == Inserted(old(heights), pos, h)
      ensures forall n :: n in list ==> n in old(list) || fresh(n)
    {
      hide LevelsOk, LinkOk, Mirrors, Distinct, Unmarked, Inserted, Items, Sorted, Succ, Before, NodeAt, Insert, Above, HeightsOk;
      var preds, succs, pos := FindPosition(priority);
      var node := new SkipNode(Item(value, priority), level);
      ghost var h := LinkNew(preds, succs, node, level, pos);
      count := count + 1;
      InsertedFrom(old(list), pos, node);
      PushedItems(old(list), pos, node);
      PushedHeights(old(list), old(heights), maxLevel, pos, node, h);
      if level > maxLevel {
        maxLevel := level;
      }
    }

    static ghost predicate TailMirrors(list: seq<SkipNode>, rows: seq<Row>)
      reads list`next
    {
      |rows| == |list| && forall p :: 1 <= p < |list| ==> list[p].next == rows[p]
    }

    /** The first node is unlinked at the levels below `i`: there the head points past it. */
    ghost predicate Unlinking(i: nat)
      reads this, list
    {
      && LevelsOk(list, heights, rows) && |list| > 1 && list[0] == head
      && TailMirrors(list, rows) && Distinct(list)
      && |head.next| == MAX_LEVEL
      && forall j: nat :: j < MAX_LEVEL ==> head.next[j] == NodeAt(list, Succ(heights, if j < i then 1 else 0, j))
    }

    lemma TailLinkAt(i: nat, p: nat, j: nat)
      requires Unlinking(i) && 1 <= p < |list| && j < heights[p]
      ensures |list[p].next| == MAX_LEVEL && j < MAX_LEVEL && list[p].next[j] == NodeAt(list, Succ(heights, p, j))
    {
      assert LinkOk(list, heights, rows, p, j);
    }

    /** A level the first node is linked in starts with it; any other level looks the same from the head. */
    lemma FirstAtLevel(j: nat)
      requires LevelsOk(list, heights, rows) && |list| > 1
      ensures heights[1] > j ==> Succ(heights, 0, j) == 1
      ensures heights[1] <= j ==> Succ(heights, 0, j) == Succ(heights, 1, j)
    {
    }

    /** Walks level `i` from the head until it meets the first node or the end. */
    method Meet(first: SkipNode, i: nat) returns (pred: SkipNode, curr: SkipNode?)
      requires Unlinking(i) && list[1] == first && i < MAX_LEVEL
      ensures curr == if heights[1] > i then first else null
      ensures curr != null ==> pred == head
    {
      hide LevelsOk, LinkOk, Succ, TailMirrors;
      Sizes();
      FirstAtLevel(i);
      pred, curr := head, head.next[i];
      ghost var p := Succ(heights, 0, i);
      while curr != null && curr != first
        invariant 1 <= p <= |list| && curr == NodeAt(list, p) && (p < |list| ==> heights[p] > i)
        invariant heights[1] > i ==> p == 1 && pred == head
        invariant heights[1] <= i ==> p > 1
        decreases |list| - p
      {
        TailLinkAt(i, p, i);
        pred := curr;
        p := Succ(heights, p, i);
        curr := curr.next[i];
      }
    }

    method Unlink(pred: SkipNode, i: nat, target: SkipNode?)
      requires Unlinking(i) && pred == head && i < MAX_LEVEL && target == NodeAt(list, Succ(heights, 1, i))
      modifies pred`next
      ensures Unlinking(i + 1)
    {
      pred.next := pred.next[i := target];
    }

    lemma NotAtLevel(i: nat)
      requires Unlinking(i) && i < MAX_LEVEL && heights[1] <= i
      ensures Unlinking(i + 1)
    {
      FirstAtLevel(i);
    }

    static lemma PoppedItems(list: seq<SkipNode>, heights: seq<nat>, maxLevel: nat)
      requires |list| > 1 && Sorted(Items(list)) && HeightsOk(list, heights, maxLevel)
      ensures Items([list[0]] + list[2..]) == Items(list)[1..] && Sorted(Items(list)[1..])
      ensures HeightsOk([list[0]] + list[2..], [heights[0]] + heights[2..], maxLevel)
    {
    }

    lemma StartUnlinking()
      requires Linked() && |list| > 1
      ensures Unlinking(0)
    {
      forall j: nat | j < MAX_LEVEL ensures head.next[j] == NodeAt(list, Succ(heights, 0, j)) {
        LinkAt(0, j);
      }
    }

    /** Unlinks the first node at the bottom level and then, level by level, wherever a walk from the head meets it. */
    method UnlinkLevels(first: SkipNode)
      requires Unlinking(0) && list[1] == first && |list| == |heights| && 1 <= heights[1] <= first.level <= MAX_LEVEL
      modifies head`next
      ensures Unlinking(first.level)
    {
      hide LevelsOk, LinkOk, Succ, TailMirrors;
      Sizes();
      TailLinkAt(0, 1, 0);
      FirstAtLevel(0);
      Unlink(head, 0, first.next[0]);
      for i := 1 to first.level
        invariant Unlinking(i)
      {
        var pred, curr := Meet(first, i);
        FirstAtLevel(i);
        if curr == first {
          TailLinkAt(i, 1, i);
          Unlink(pred, i, first.next[i]);
        } else {
          NotAtLevel(i);
        }
      }
    }

    /** Marks the first node and unlinks it. */
    method UnlinkFirst(first: SkipNode)
      requires Linked() && |list| > 1 && list[1] == first
      requires |list| == |heights| && 1 <= heights[1] <= first.level <= MAX_LEVEL
      modifies `list, `heights, `rows, head`next, first`marked
      ensures Linked() && list == [old(list)[0]] + old(list)[2..]
      ensures heights == [old(heights)[0]] + old(heights)[2..]
    {
      hide LevelsOk, LinkOk, Succ, TailMirrors;
      Sizes();
      StartUnlinking();
      first.marked := true;
      UnlinkLevels(first);
      FirstUnlinked(list, heights, rows, head.next);
      rows := [head.next] + rows[2..];
      list := [list[0]] + list[2..];
      heights := [heights[0]] + heights[2..];
    }

    /** Takes out the first item, if any. */
    method Pop() returns (item: Option<Item>)
      requires Valid()
      modifies this, list
      ensures Valid() && maxLevel == old(maxLevel) && forall n :: n in list ==> n in old(list)
      ensures old(Contents()) == [] ==> item == None && Contents() == []
      ensures old(Contents()) != [] ==> item == Some(old(Contents())[0]) && Contents() == old(Contents())[1..]
    {
      hide LevelsOk, LinkOk, Mirrors, Distinct, Succ, Unmarked;
      RowAt(0);
      LinkAt(0, 0);
      BottomFound(1);
      var first := head.next[0];
      if first == null {
        return None;
      }
      Sizes();
      PoppedItems(list, heights, maxLevel);
      UnlinkFirst(first);
      count := count - 1;
      item := Some(first.item);
    }

    /** A walk past marked nodes stops at the first one. */
    lemma FrontIsFirst(p: nat)
      requires Valid() && 1 <= p <= |list| && (p > 1 ==> list[1].marked)
      ensures p == 1
    {
    }

    /** The first unmarked node's item, if any, which is the first item. */
    method Peek() returns (item: Option<Item>)
      requires Valid()
      ensures item == if Contents() == [] then None else Some(Contents()[0])
    {
      hide LevelsOk, LinkOk, Mirrors, Distinct, Sorted, Succ, Unmarked;
      RowAt(0);
      LinkAt(0, 0);
      BottomFound(1);
      var first := head.next[0];
      ghost var p := 1;
      while first != null && first.marked
        invariant 1 <= p <= |list| && first == NodeAt(list, p) && (p > 1 ==> list[1].marked)
        decreases |list| - p
      {
        RowAt(p);
        LinkAt(p, 0);
        if p + 1 < |list| {
          RowAt(p + 1);
        }
        BottomFound(p + 1);
        first := first.next[0];
        p := p + 1;
      }
      FrontIsFirst(p);
      item := if first == null then None else Some(first.item);
    }

    method Len() returns (n: int)
      requires Valid()
      ensures n == |Contents()|
    {
      n := count;
    }

    /** Marks every node and empties every level; the maximum level stays what it was. */
    method Clear()
      requires Valid()
      modifies this, list
      ensures Valid() && Contents() == [] && maxLevel == old(maxLevel) && forall n :: n in list ==> n in old(list)
      ensures forall p :: 1 <= p < |old(list)| ==> old(list)[p].marked
    {
      MarkNodes();
      head.next := seq(MAX_LEVEL, _ => null);
      count := 0;
      list, heights, rows := [head], [MAX_LEVEL], [head.next];
      NothingLinked(head, head.next);
    }

    method MarkNodes()
      requires Linked()
      modifies list`marked
      ensures forall p :: 1 <= p < |list| ==> list[p].marked
    {
      hide LevelsOk, LinkOk, Mirrors, Succ, Unmarked;
      Sizes();
      RowAt(0);
      LinkAt(0, 0);
      BottomFound(1);
      var curr := head.next[0];
      ghost var p := 1;
      while curr != null
        invariant 1 <= p <= |list| && curr == NodeAt(list, p) && forall q :: 1 <= q < p ==> list[q].marked
        decreases |list| - p
      {
        curr.marked := true;
        Sizes();
        LinkAt(p, 0);
        BottomFound(p + 1);
        curr := curr.next[0];
        p := p + 1;
      }
    }
  }
}
