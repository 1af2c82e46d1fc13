/**
 The hash map of pkg/ds/lockfree/hashmap.go run by one thread: a list of nodes sorted by hash,
 never unlinked and deleted by flag, with one remembered entry node per bucket.  The hash
 function is a parameter; all the code relies on is that the empty key, which the dummy head
 carries, does not hash to the dummy's 0 (FNV-1a hashes it to its offset basis).
 */
module HashMaps {
  import opened Common
  import opened HashCells
  import BitOps

  class HashNode {
    const key: Key
    const hash: nat
    var value: Value
    var next: HashNode?
    var deleted: bool

    constructor (key: Key, hash: nat, value: Value)
      ensures this.key == key && this.hash == hash && this.value == value && next == null && !deleted
    {
      this.key, this.hash, this.value := key, hash, value;
      next, deleted := null, false;
    }

    ghost function ToCell(): Cell
      reads `value, `deleted
    {
      Cell(key, hash, deleted, value)
    }
  }

  class HashMap {
    const hashOf: Key -> nat
    const bucketCount: nat
    ghost const bits: nat
    const head: HashNode
    const buckets: array<HashNode?>
    var count: int
    ghost var chain: seq<HashNode>        // the list, dummy head first
    ghost var cells: seq<Cell>            // what its nodes hold
    ghost var contents: map<Key, Value>   // what the map stands for

    /** The next pointers run through exactly the chain. */
    static ghost predicate Linked(chain: seq<HashNode>)
      reads chain`next
    {
      && |chain| > 0
      && (forall i, j :: 0 <= i < j < |chain| ==> chain[i] != chain[j])
      && (forall i, j :: 0 <= i && j == i + 1 < |chain| ==> chain[i].next == chain[j])
      && chain[|chain| - 1].next == null
    }

    /** The cells are what the nodes hold. */
    static ghost predicate Mirrors(chain: seq<HashNode>, cells: seq<Cell>)
      reads chain`value, chain`deleted
    {
      |cells| == |chain| && forall i :: 0 <= i < |chain| ==> chain[i].ToCell() == cells[i]
    }

    ghost predicate ListOk()
      reads this, chain
    {
      && Linked(chain) && chain[0] == head && Mirrors(chain, cells)
      && Sorted(cells, hashOf) && Represents(cells, contents) && count == |contents|
    }

    /** Every bucket entry is a listed node that belongs to the bucket. */
    ghost predicate EntriesOk(chain: seq<HashNode>, entries: seq<HashNode?>)
    {
      forall b :: 0 <= b < |entries| && entries[b] != null ==>
        entries[b] in chain && entries[b] != head && BucketOf(entries[b].hash) == b
    }

    ghost predicate Sized()
    {
      bucketCount == BitOps.Pow2(bits) && bits <= 31 && buckets.Length == bucketCount
    }

    ghost predicate Valid()
      reads this, chain, buckets
    {
      ListOk() && Sized() && EntriesOk(chain, buckets[..])
    }

    /** `getBucket`: the low 32 bits of the hash, masked. */
    function BucketOf(hash: nat): nat
    {
      BitOps.And(hash % BitOps.U32, if bucketCount == 0 then BitOps.U32 - 1 else bucketCount - 1)
    }

    /** The mask is the remainder by the bucket count, so it is inside the slice. */
    lemma BucketIsRemainder(hash: nat)
      requires bucketCount == BitOps.Pow2(bits)
      ensures BucketOf(hash) == hash % BitOps.U32 % bucketCount < bucketCount
    {
      BitOps.MaskIsRemainder(hash % BitOps.U32, bits);
    }

    /** NewHashMap; beyond 2^31 buckets the rounded size wraps to zero, and no bucket index is in range. */
    constructor (hashOf: Key -> nat, bucketCount: nat)
      requires hashOf("") != 0 && bucketCount < BitOps.U32
      ensures ListOk() && contents == map[] && |cells| == 1 && fresh(chain) && fresh(buckets)
      ensures if bucketCount <= 0x8000_0000 then Valid() else buckets.Length == 0
      ensures this.hashOf == hashOf
      ensures bucketCount <= 0x8000_0000 ==>
                var n := if bucketCount == 0 then 64 else bucketCount; n <= this.bucketCount < 2 * n
      ensures forall b :: 0 <= b < buckets.Length ==> buckets[b] == null
    {
      hide Sorted, Represents, BitOps.NextPowerOf2, BitOps.Pow2;
      DummyAlone(hashOf);
      var n := if bucketCount == 0 then 64 else bucketCount;
      ghost var k := 0;
      if n <= 0x8000_0000 {
        k := BitOps.NextPowerOf2IsLeast(n);
      } else {
        BitOps.NextPowerOf2Wraps(n);
      }
      this.hashOf := hashOf;
      this.bits := k;
      this.bucketCount := BitOps.NextPowerOf2(n);
      buckets := new HashNode?[BitOps.NextPowerOf2(n)](_ => null);
      var dummy := new HashNode("", 0, 0);
      head := dummy;
      count := 0;
      chain := [dummy];
      cells := [Cell("", 0, false, 0)];
      contents := map[];
    }

    /** `prev` is nil when the position is right behind the dummy head. */
    method FindPosition(hash: nat, key: Key) returns (prev: HashNode?, curr: HashNode?, ghost p: nat)
      requires ListOk() && hash == hashOf(key)
      ensures StopsAt(cells, hashOf, key, p)
      ensures prev == (if p == 0 then null else chain[p])
      ensures curr == (if p + 1 < |chain| then chain[p + 1] else null)
      ensures curr == (if prev == null then head else prev).next
    {
      prev, curr, p := null, head.next, 0;
      while curr != null
        invariant p < |chain| && chain[p].hash <= hash
        invariant forall i :: 0 < i <= p ==> chain[i].key != key
        invariant prev == (if p == 0 then null else chain[p])
        invariant curr == (if p + 1 < |chain| then chain[p + 1] else null)
        decreases |chain| - p
      {
        if curr.hash > hash {
          break;
        }
        if curr.hash == hash && curr.key == key {
          return;
        }
        prev := curr;
        curr := curr.next;
        p := p + 1;
      }
    }

    static lemma MirrorsAt(chain: seq<HashNode>, cells: seq<Cell>, i: nat)
      requires Mirrors(chain, cells)
      ensures |cells| == |chain| && (i < |chain| ==> cells[i] == chain[i].ToCell())
    {
    }

    /** Writes one listed node; the cells are told apart by their nodes. */
    static method WriteNode(ghost chain: seq<HashNode>, ghost cells: seq<Cell>, node: HashNode, ghost i: nat, value: Value)
      returns (revived: bool)
      requires Linked(chain) && Mirrors(chain, cells) && 0 < i < |chain| && chain[i] == node
      modifies node`deleted, node`value
      ensures Mirrors(chain, cells[i := cells[i].(deleted := false, value := value)])
      ensures revived <==> cells[i].deleted
    {
      revived := node.deleted;
      if node.deleted {
        node.deleted := false;
        node.value := value;
      } else {
        node.value := value;
      }
    }

    /** Stores a value in a listed node, reviving it if it was deleted. */
    method SetNode(node: HashNode, ghost i: nat, value: Value)
      requires ListOk() && 0 < i < |chain| && chain[i] == node
      modifies `count, `contents, `cells, node`deleted, node`value
      ensures ListOk() && contents == old(contents)[node.key := value]
    {
      hide Linked, Mirrors, Sorted, Represents;
      MirrorsAt(chain, cells, i);
      ReplaceCell(cells, hashOf, contents, i, cells[i].(deleted := false, value := value), contents[node.key := value]);
      ghost var cells' := cells[i := cells[i].(deleted := false, value := value)];
      var revived := WriteNode(chain, cells, node, i, value);
      if revived {
        count := count + 1;
      }
      cells := cells';
      contents := contents[node.key := value];
    }

    /** Marks one listed node unless it is marked already. */
    method MarkNode(node: HashNode, ghost i: nat) returns (marked: bool)
      requires ListOk() && 0 < i < |chain| && chain[i] == node
      modifies `count, `contents, `cells, node`deleted
      ensures ListOk() && contents == old(contents) - {node.key} && marked == (node.key in old(contents))
    {
      hide Linked, Mirrors, Sorted, Represents;
      MirrorsAt(chain, cells, i);
      ReplaceCell(cells, hashOf, contents, i, cells[i].(deleted := true), contents - {node.key});
      ghost var cells' := cells[i := cells[i].(deleted := true)];
      marked := !node.deleted;
      if node.deleted {
        assert contents - {node.key} == contents && cells' == cells;
      } else {
        Mark(chain, cells, node, i);
        count := count - 1;
        assert (contents - {node.key}).Keys == contents.Keys - {node.key};
      }
      cells := cells';
      contents := contents - {node.key};
    }

    static method Mark(ghost chain: seq<HashNode>, ghost cells: seq<Cell>, node: HashNode, ghost i: nat)
      requires Linked(chain) && Mirrors(chain, cells) && 0 < i < |chain| && chain[i] == node
      modifies node`deleted
      ensures Mirrors(chain, cells[i := cells[i].(deleted := true)])
    {
      node.deleted := true;
    }

    static ghost function ChainWith(chain: seq<HashNode>, node: HashNode, p: nat): seq<HashNode>
      requires p < |chain|
    {
      chain[..p + 1] + [node] + chain[p + 1..]
    }

    static lemma MirrorsInsert(chain: seq<HashNode>, cells: seq<Cell>, node: HashNode, p: nat)
      requires Mirrors(chain, cells) && p < |chain|
      ensures |cells| == |chain| && Mirrors(ChainWith(chain, node, p), Insert(cells, node.ToCell(), p))
    {
    }

    static method LinkIn(ghost chain: seq<HashNode>, pred: HashNode, node: HashNode, ghost p: nat)
      requires Linked(chain) && p < |chain| && pred == chain[p] && node.next == pred.next && node !in chain
      modifies pred`next
      ensures Linked(ChainWith(chain, node, p))
    {
      pred.next := node;
      ghost var chain' := ChainWith(chain, node, p);
      assert forall i :: 0 <= i <= p ==> chain'[i] == chain[i];
      assert forall i :: p + 1 < i < |chain'| ==> chain'[i] == chain[i - 1];
    }

    /** Links a fresh node behind position `p`. */
    method LinkNode(pred: HashNode, node: HashNode, ghost p: nat)
      requires ListOk() && StopsAt(cells, hashOf, node.key, p) && pred == chain[p] && node.next == pred.next
      requires node !in chain && !node.deleted && node.hash == hashOf(node.key) && node.key !in Keys(cells)
      modifies `count, `contents, `cells, `chain, pred`next
      ensures ListOk() && contents == old(contents)[node.key := node.value]
      ensures chain == ChainWith(old(chain), node, p)
    {
      hide Linked, Mirrors, Sorted, Represents, Insert;
      ghost var cell := node.ToCell();
      MirrorsAt(chain, cells, p);
      InsertSorted(cells, hashOf, cell, p);
      InsertRepresents(cells, contents, cell, p);
      MirrorsInsert(chain, cells, node, p);
      LinkIn(chain, pred, node, p);
      count := count + 1;
      contents := contents[cell.key := cell.value];
      cells := Insert(cells, cell, p);
      chain := ChainWith(chain, node, p);
    }

    lemma EntriesStay(before: seq<HashNode>, after: seq<HashNode>, node: HashNode, p: nat, entries: seq<HashNode?>)
      requires p < |before| && after == before[..p + 1] + [node] + before[p + 1..]
      requires EntriesOk(before, entries)
      ensures node in after && EntriesOk(after, entries)
    {
      assert after[p + 1] == node;
      forall n | n in before ensures n in after {
        var i :| 0 <= i < |before| && before[i] == n;
        assert n == after[if i <= p then i else i + 1];
      }
    }

    /** The node found is the key's exactly when the key is listed. */
    lemma MatchDecides(key: Key, curr: HashNode?, p: nat)
      requires ListOk() && StopsAt(cells, hashOf, key, p)
      requires curr == (if p + 1 < |chain| then chain[p + 1] else null)
      ensures p < |chain| && contents.Keys <= Keys(cells)
      ensures key in Keys(cells) <==> curr != null && curr.hash == hashOf(key) && curr.key == key
    {
      if curr != null {
        assert chain[p + 1].ToCell() == cells[p + 1];
      }
    }

    /** Stores the value under the key, whatever was there. */
    method Put(key: Key, value: Value)
      requires Valid()
      modifies this, chain, buckets
      ensures Valid() && contents == old(contents)[key := value]
      ensures forall n :: n in chain ==> n in old(chain) || fresh(n)
      ensures forall b :: 0 <= b < bucketCount && old(buckets[b]) != null ==> buckets[b] == old(buckets[b])
      ensures key !in old(Keys(cells)) && BucketOf(hashOf(key)) < bucketCount && old(buckets[BucketOf(hashOf(key))]) == null ==>
                buckets[BucketOf(hashOf(key))] != null && buckets[BucketOf(hashOf(key))].key == key
    {
      hide Linked, Mirrors, Sorted, Represents, StopsAt, Keys;
      var hash := hashOf(key);
      var prev, curr, p := FindPosition(hash, key);
      MatchDecides(key, curr, p);
      if curr != null && curr.hash == hash && curr.key == key {
        SetNode(curr, p + 1, value);
        return;
      }
      PutNew(key, hash, value, prev, curr, p);
    }

    /** Links a new node where the search stopped, and offers it to its bucket. */
    method PutNew(key: Key, hash: nat, value: Value, prev: HashNode?, curr: HashNode?, ghost p: nat)
      requires Valid() && hash == hashOf(key) && key !in Keys(cells) && StopsAt(cells, hashOf, key, p) && p < |chain|
      requires prev == (if p == 0 then null else chain[p])
      requires curr == (if prev == null then head else prev).next
      modifies `count, `contents, `cells, `chain, chain`next, buckets
      ensures Valid() && contents == old(contents)[key := value]
      ensures forall n :: n in chain ==> n in old(chain) || fresh(n)
      ensures BucketOf(hash) < buckets.Length && buckets[BucketOf(hash)] != null
      ensures forall b :: 0 <= b < buckets.Length && old(buckets[b]) != null ==> buckets[b] == old(buckets[b])
      ensures old(buckets[BucketOf(hash)]) == null ==> buckets[BucketOf(hash)].key == key
    {
      hide Linked, Mirrors, Sorted, Represents, StopsAt, Keys;
      var node := new HashNode(key, hash, value);
      if curr != null {
        node.next := curr;
      }
      if prev == null {
        node.next := head.next;
      }
      LinkNode(if prev == null then head else prev, node, p);
      EntriesStay(old(chain), chain, node, p, buckets[..]);
      MaybeUpdateBucket(hash, node);
    }

    /** Fills the bucket's entry if it is still nil: the first node inserted stays the entry. */
    method MaybeUpdateBucket(hash: nat, node: HashNode)
      requires Sized() && EntriesOk(chain, buckets[..]) && node in chain && node != head && node.hash == hash
      modifies buckets
      ensures EntriesOk(chain, buckets[..]) && BucketOf(hash) < buckets.Length
      ensures buckets[..] == old(buckets[..])[BucketOf(hash) := if old(buckets[BucketOf(hash)]) == null then node
                                                             else old(buckets[BucketOf(hash)])]
    {
      BucketIsRemainder(hash);
      var b := BucketOf(hash);
      if buckets[b] == null {
        buckets[b] := node;
      }
    }

    /** Reports whether the key was there, and takes it away. */
    method Delete(key: Key) returns (ok: bool)
      requires Valid()
      modifies this, chain
      ensures Valid() && ok == (key in old(contents)) && contents == old(contents) - {key}
      ensures chain == old(chain)
    {
      hide Linked, Mirrors, Sorted, Represents, StopsAt, Keys;
      var hash := hashOf(key);
      var prev, curr, p := FindPosition(hash, key);
      MatchDecides(key, curr, p);
      if curr == null || curr.hash != hash || curr.key != key {
        return false;
      }
      ok := MarkNode(curr, p + 1);
    }

    method Len() returns (n: int)
      requires Valid()
      ensures n == |contents|
    {
      n := count;
    }

    /** The key's node is found from the bucket's entry: there is none, or it does not stand behind the node. */
    ghost predicate Findable(key: Key)
      requires Valid() && BucketOf(hashOf(key)) < bucketCount
      reads this, chain, buckets
    {
      var entry := buckets[BucketOf(hashOf(key))];
      entry == null || exists i, j :: 0 <= i <= j < |chain| && chain[i] == entry && chain[j].key == key
    }

    lemma FindableMeans(key: Key, entry: HashNode?, q: nat)
      requires Valid() && BucketOf(hashOf(key)) < bucketCount && entry == buckets[BucketOf(hashOf(key))] && key in contents
      requires if entry == null then q == 0 else q < |chain| && chain[q] == entry
      ensures Findable(key) <==> ListedFrom(cells, q, key)
    {
      assert key in Keys(cells);
      var j :| 0 < j < |cells| && cells[j].key == key;
      assert chain[j].ToCell() == cells[j];
    }

    /** Walks the list from position `q` until the key, a larger hash or the end. */
    method Search(start: HashNode, ghost q: nat, hash: nat, key: Key) returns (found: Option<Value>)
      requires ListOk() && q < |chain| && start == chain[q] && hash == hashOf(key)
      ensures found == if key in contents && ListedFrom(cells, q, key) then Some(contents[key]) else None
    {
      hide Keys;
      var curr: HashNode? := start;
      ghost var r := q;
      while curr != null
        invariant q <= r <= |chain| && curr == (if r < |chain| then chain[r] else null)
        invariant forall j :: q <= j < r && 0 < j ==> cells[j].key != key
        decreases |chain| - r
      {
        MirrorsAt(chain, cells, r);
        if curr.hash == hash && curr.key == key {
          assert ListedFrom(cells, q, key) && Fits(cells[r], contents);
          return if curr.deleted then None else Some(curr.value);
        }
        if curr.hash > hash {
          assert forall j :: r <= j < |cells| ==> cells[j].hash > hash;
          return None;
        }
        curr := curr.next;
        r := r + 1;
      }
      return None;
    }

    /** A found value is the one stored; a stored key is found exactly when it is findable. */
    method Get(key: Key) returns (found: Option<Value>)
      requires Valid()
      ensures BucketOf(hashOf(key)) < bucketCount
      ensures found == if key in contents && Findable(key) then Some(contents[key]) else None
      ensures key in contents && buckets[BucketOf(hashOf(key))] == null ==> found == Some(contents[key])
      ensures key in contents && found.None? ==>
                exists i, j :: 0 <= j < i < |chain| && chain[i] == buckets[BucketOf(hashOf(key))] && chain[j].key == key
    {
      var hash := hashOf(key);
      BucketIsRemainder(hash);
      var curr: HashNode? := buckets[BucketOf(hash)];
      ghost var q: nat := 0;
      if curr == null {
        curr := head;
      } else {
        q :| 0 <= q < |chain| && chain[q] == curr;
      }
      if key in contents {
        FindableMeans(key, buckets[BucketOf(hash)], q);
      }
      found := Search(curr, q, hash, key);
    }

    /** Calls `visit` on the undeleted entries in list order, until it returns false. */
    method Range(visit: (Key, Value) -> bool) returns (visited: seq<(Key, Value)>)
      requires Valid()
      ensures visited <= Live(cells, 1)
      ensures forall i :: 0 <= i < |visited| - 1 ==> visit(visited[i].0, visited[i].1)
      ensures visited == Live(cells, 1)
              || (visited != [] && var e := visited[|visited| - 1]; !visit(e.0, e.1))
    {
      hide Live, Sorted, Represents;
      var curr := head.next;
      ghost var q := 1;
      visited := [];
      LiveStep(cells, 0);
      while curr != null
        invariant 1 <= q <= |chain| && curr == (if q < |chain| then chain[q] else null)
        invariant Live(cells, 1) == visited + Live(cells, q)
        invariant forall i :: 0 <= i < |visited| ==> visit(visited[i].0, visited[i].1)
        decreases |chain| - q
      {
        assert curr.ToCell() == cells[q];
        LiveStep(cells, q);
        if !curr.deleted {
          visited := visited + [(curr.key, curr.value)];
          if !visit(curr.key, curr.value) {
            return;
          }
        }
        curr := curr.next;
        q := q + 1;
      }
    }

    /** Marks every node, zeroes the counter and forgets every bucket entry; no node is unlinked. */
    method Clear()
      requires Valid()
      modifies this, chain, buckets
      ensures Valid() && contents == map[] && chain == old(chain)
      ensures forall b :: 0 <= b < bucketCount ==> buckets[b] == null
    {
      hide Linked, Mirrors, Sorted, Represents;
      MarkAll(cells, hashOf);
      MarkNodes(head, chain, cells);
      cells, contents := AllMarked(cells), map[];
      count := 0;
      ForgetEntries();
    }

    method ForgetEntries()
      modifies buckets
      ensures forall b :: 0 <= b < buckets.Length ==> buckets[b] == null
    {
      for i := 0 to buckets.Length
        invariant forall b :: 0 <= b < i ==> buckets[b] == null
      {
        buckets[i] := null;
      }
    }

    static method MarkNodes(head: HashNode, ghost chain: seq<HashNode>, ghost cells: seq<Cell>)
      requires Linked(chain) && chain[0] == head && Mirrors(chain, cells)
      modifies chain`deleted
      ensures Mirrors(chain, AllMarked(cells))
    {
      var curr := head.next;
      ghost var q := 1;
      while curr != null
        invariant Linked(chain)
        invariant 1 <= q <= |chain| && curr == (if q < |chain| then chain[q] else null)
        invariant forall i :: 0 <= i < |chain| ==>
                    chain[i].ToCell() == if 0 < i < q then cells[i].(deleted := true) else cells[i]
        decreases |chain| - q
      {
        curr.deleted := true;
        curr := curr.next;
        q := q + 1;
      }
    }
  }

  /** A key whose bucket's entry has a larger hash stands in front of the entry. */
  lemma NotFindable(m: HashMap, key: Key)
    requires m.Valid() && m.BucketOf(m.hashOf(key)) < m.bucketCount
    requires var entry := m.buckets[m.BucketOf(m.hashOf(key))]; entry != null && m.hashOf(entry.key) > m.hashOf(key)
    ensures !m.Findable(key)
  {
    var entry := m.buckets[m.BucketOf(m.hashOf(key))];
    forall i, j | 0 <= i <= j < |m.chain| && m.chain[i] == entry ensures m.chain[j].key != key {
      assert m.chain[i].ToCell() == m.cells[i] && m.chain[j].ToCell() == m.cells[j];
      assert i > 0;
    }
  }

  /**
   Get can miss a stored key: of two new keys in one bucket that is still empty, the one with the
   larger hash put first stays the bucket's entry, and the other stands in front of it.
   */
  method SecondSmallerKeyIsMissed(m: HashMap, first: Key, second: Key, value: Value) returns (found: Option<Value>)
    requires m.Valid() && first !in Keys(m.cells) && m.hashOf(second) < m.hashOf(first)
    requires var b := m.BucketOf(m.hashOf(first));
             m.BucketOf(m.hashOf(second)) == b && (b < m.bucketCount ==> m.buckets[b] == null)
    modifies m, m.chain, m.buckets
    ensures m.Valid() && m.contents == old(m.contents)[first := value][second := value]
    ensures found == None
  {
    hide Sorted, Represents, Fits, HashMap.Linked, HashMap.Mirrors, HashMap.Findable, HashMap.EntriesOk;
    m.BucketIsRemainder(m.hashOf(first));
    m.Put(first, value);
    assert forall i :: 0 <= i < |m.chain| ==> m.chain[i] in m.chain;
    m.Put(second, value);
    NotFindable(m, second);
    found := m.Get(second);
  }
}
