/** The specification both priority queues share: items in descending priority. */
module Priorities {
  type Value = int
  datatype Item = Item(value: Value, priority: int)

  ghost predicate Sorted(s: seq<Item>) {
    forall i, j :: 0 <= i < j < |s| ==> s[i].priority >= s[j].priority
  }

  /** A new item goes in front of the first item whose priority is not larger, so before its equals. */
  function Insert(s: seq<Item>, x: Item): (r: seq<Item>)
    ensures |r| == |s| + 1
    decreases |s|
  {
    if s == [] || s[0].priority <= x.priority then [x] + s else [s[0]] + Insert(s[1..], x)
  }

  lemma {:induction false} InsertAt(s: seq<Item>, x: Item, k: nat)
    requires k <= |s| && (forall j :: 0 <= j < k ==> s[j].priority > x.priority)
    requires k < |s| ==> s[k].priority <= x.priority
    ensures Insert(s, x) == s[..k] + [x] + s[k..]
    decreases k
  {
    if k > 0 {
      InsertAt(s[1..], x, k - 1);
      assert s == [s[0]] + s[1..];
    }
  }

  /** Insertion keeps the order and adds exactly the new item. */
  lemma {:induction false} InsertKeeps(s: seq<Item>, x: Item)
    requires Sorted(s)
    ensures Sorted(Insert(s, x)) && multiset(Insert(s, x)) == multiset(s) + multiset{x}
    decreases |s|
  {
    if s != [] && s[0].priority > x.priority {
      InsertKeeps(s[1..], x);
      assert s == [s[0]] + s[1..];
      var t := Insert(s[1..], x);
      forall j | 0 <= j < |t| ensures s[0].priority >= t[j].priority {
        assert t[j] in multiset(t);
        assert t[j] == x || t[j] in s[1..];
      }
    } else {
      assert Insert(s, x) == [x] + s;
    }
  }
}
