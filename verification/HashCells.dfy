/**
 What a list of hash map cells stands for: the map of its undeleted cells, apart from the dummy at
 position 0.  Pure, so that the class HashMap only has to relate its nodes to cells.
 */
module HashCells {
  type Key = string
  type Value = int

  datatype Cell = Cell(key: Key, hash: nat, deleted: bool, value: Value)

  /** Sorted by hash behind a dummy with hash 0, with distinct keys. */
  ghost predicate Sorted(cells: seq<Cell>, hashOf: Key -> nat) {
    && |cells| > 0 && cells[0].key == "" && cells[0].hash == 0 && !cells[0].deleted && hashOf("") != 0
    && (forall i, j :: 0 <= i < j < |cells| ==> cells[i].hash <= cells[j].hash)
    && (forall i :: 0 < i < |cells| ==> cells[i].hash == hashOf(cells[i].key))
    && (forall i, j :: 0 < i < j < |cells| ==> cells[i].key != cells[j].key)
  }

  ghost predicate Fits(cell: Cell, contents: map<Key, Value>) {
    if cell.deleted then cell.key !in contents
    else cell.key in contents && contents[cell.key] == cell.value
  }

  ghost function Keys(cells: seq<Cell>): set<Key> {
    set i | 0 < i < |cells| :: cells[i].key
  }

  ghost predicate Represents(cells: seq<Cell>, contents: map<Key, Value>) {
    (forall i :: 0 < i < |cells| ==> Fits(cells[i], contents)) && contents.Keys <= Keys(cells)
  }

  /** A search for `key` stops behind position `p`. */
  ghost predicate StopsAt(cells: seq<Cell>, hashOf: Key -> nat, key: Key, p: nat) {
    && p < |cells| && cells[p].hash <= hashOf(key)
    && (forall i :: 0 < i <= p ==> cells[i].key != key)
    && (p + 1 < |cells| ==> cells[p + 1].hash > hashOf(key) || cells[p + 1].key == key)
  }

  /** Replacing the flag and the value of a listed cell leaves order and keys alone. */
  lemma SameKeys(cells: seq<Cell>, hashOf: Key -> nat, i: nat, cell: Cell)
    requires Sorted(cells, hashOf) && 0 < i < |cells| && cell.key == cells[i].key && cell.hash == cells[i].hash
    ensures Sorted(cells[i := cell], hashOf) && Keys(cells[i := cell]) == Keys(cells)
  {
    var cells' := cells[i := cell];
    forall k ensures k in Keys(cells') <==> k in Keys(cells) {
      if k in Keys(cells) {
        var j :| 0 < j < |cells| && cells[j].key == k;
        assert cells'[j].key == k;
      }
    }
  }

  /** Such a replacement changes the map at that cell's key alone. */
  lemma ReplaceCell(cells: seq<Cell>, hashOf: Key -> nat, contents: map<Key, Value>, i: nat, cell: Cell, contents': map<Key, Value>)
    requires Sorted(cells, hashOf) && Represents(cells, contents) && 0 < i < |cells|
    requires cell.key == cells[i].key && cell.hash == cells[i].hash && Fits(cell, contents')
    requires contents' - {cell.key} == contents - {cell.key}
    ensures Sorted(cells[i := cell], hashOf) && Represents(cells[i := cell], contents')
    ensures cells[i].deleted <==> cells[i].key !in contents
  {
    SameKeys(cells, hashOf, i, cell);
    hide Keys;
    assert Fits(cells[i], contents);
    assert cell.key in Keys(cells) by {
      CellKey(cells, i);
    }
    var cells' := cells[i := cell];
    forall j | 0 < j < |cells| ensures Fits(cells'[j], contents') {
      if j != i {
        assert Fits(cells[j], contents) && cells[j].key != cell.key;
        assert cells[j].key in contents' <==> cells[j].key in contents' - {cell.key};
        assert cells[j].key in contents <==> cells[j].key in contents - {cell.key};
      }
    }
    forall k | k in contents' ensures k in Keys(cells) {
      assert k == cell.key || k in contents' - {cell.key};
    }
  }

  lemma DummyAlone(hashOf: Key -> nat)
    requires hashOf("") != 0
    ensures var cells := [Cell("", 0, false, 0)]; Sorted(cells, hashOf) && Represents(cells, map[])
  {
  }

  lemma CellKey(cells: seq<Cell>, i: nat)
    requires 0 < i < |cells|
    ensures cells[i].key in Keys(cells)
  {
  }

  ghost predicate ListedFrom(cells: seq<Cell>, q: nat, key: Key) {
    exists j :: q <= j < |cells| && 0 < j && cells[j].key == key
  }

  /** Every listed node marked; the dummy stays as it is. */
  ghost function AllMarked(cells: seq<Cell>): seq<Cell> {
    seq(|cells|, i requires 0 <= i < |cells| => if i == 0 then cells[i] else cells[i].(deleted := true))
  }

  lemma MarkAll(cells: seq<Cell>, hashOf: Key -> nat)
    requires Sorted(cells, hashOf)
    ensures Sorted(AllMarked(cells), hashOf) && Represents(AllMarked(cells), map[])
  {
  }

  /** The undeleted cells from position `i` on, in list order. */
  ghost function Live(cells: seq<Cell>, i: nat): seq<(Key, Value)>
    decreases |cells| - i
  {
    if i >= |cells| then []
    else if cells[i].deleted then Live(cells, i + 1)
    else [(cells[i].key, cells[i].value)] + Live(cells, i + 1)
  }

  lemma LiveStep(cells: seq<Cell>, i: nat)
    requires i < |cells|
    ensures Live(cells, i) == (if cells[i].deleted then [] else [(cells[i].key, cells[i].value)]) + Live(cells, i + 1)
    ensures Live(cells, |cells|) == []
  {
  }

  lemma {:induction false} LiveFrom(cells: seq<Cell>, i: nat, e: (Key, Value))
    requires e in Live(cells, i)
    ensures exists j :: i <= j < |cells| && !cells[j].deleted && (cells[j].key, cells[j].value) == e
    decreases |cells| - i
  {
    if !cells[i].deleted && e == (cells[i].key, cells[i].value) {
      return;
    }
    LiveFrom(cells, i + 1, e);
  }

  lemma {:induction false} LiveHas(cells: seq<Cell>, i: nat, j: nat)
    requires i <= j < |cells| && !cells[j].deleted
    ensures (cells[j].key, cells[j].value) in Live(cells, i)
    decreases |cells| - i
  {
    if i < j {
      LiveHas(cells, i + 1, j);
    }
  }

  lemma {:induction false} LiveDistinct(cells: seq<Cell>, hashOf: Key -> nat, i: nat)
    requires Sorted(cells, hashOf) && i > 0
    ensures forall a, b :: 0 <= a < b < |Live(cells, i)| ==> Live(cells, i)[a].0 != Live(cells, i)[b].0
    decreases |cells| - i
  {
    if i < |cells| {
      LiveDistinct(cells, hashOf, i + 1);
      if !cells[i].deleted {
        forall e | e in Live(cells, i + 1) ensures e.0 != cells[i].key {
          LiveFrom(cells, i + 1, e);
        }
      }
    }
  }

  /** The undeleted cells are exactly the entries of the map, each once. */
  lemma LiveIsContents(cells: seq<Cell>, hashOf: Key -> nat, contents: map<Key, Value>)
    requires Sorted(cells, hashOf) && Represents(cells, contents)
    ensures forall k, v :: (k, v) in Live(cells, 1) <==> k in contents && contents[k] == v
    ensures forall a, b :: 0 <= a < b < |Live(cells, 1)| ==> Live(cells, 1)[a].0 != Live(cells, 1)[b].0
  {
    LiveDistinct(cells, hashOf, 1);
    forall k, v | (k, v) in Live(cells, 1) ensures k in contents && contents[k] == v {
      LiveFrom(cells, 1, (k, v));
      var j :| 1 <= j < |cells| && !cells[j].deleted && (cells[j].key, cells[j].value) == (k, v);
      assert Fits(cells[j], contents);
    }
    forall k | k in contents ensures (k, contents[k]) in Live(cells, 1) {
      assert k in Keys(cells);
      var j :| 0 < j < |cells| && cells[j].key == k;
      assert Fits(cells[j], contents);
      LiveHas(cells, 1, j);
    }
  }

  function Insert(cells: seq<Cell>, cell: Cell, p: nat): seq<Cell>
    requires p < |cells|
  {
    cells[..p + 1] + [cell] + cells[p + 1..]
  }

  /** Where the cells of the longer list come from. */
  lemma InsertAt(cells: seq<Cell>, cell: Cell, p: nat, i: nat)
    requires p < |cells| && i <= |cells|
    ensures Insert(cells, cell, p)[i] == if i <= p then cells[i] else if i == p + 1 then cell else cells[i - 1]
  {
  }

  /** A new key inserted where its search stopped keeps the list sorted. */
  lemma InsertSorted(cells: seq<Cell>, hashOf: Key -> nat, cell: Cell, p: nat)
    requires Sorted(cells, hashOf) && StopsAt(cells, hashOf, cell.key, p) && cell.key !in Keys(cells)
    requires cell.hash == hashOf(cell.key)
    ensures Sorted(Insert(cells, cell, p), hashOf)
  {
    var cells' := Insert(cells, cell, p);
    forall i | 0 <= i < |cells'| ensures i > 0 ==> cells'[i].hash == hashOf(cells'[i].key) {
      InsertAt(cells, cell, p, i);
    }
    forall i, j | 0 <= i < j < |cells'|
      ensures cells'[i].hash <= cells'[j].hash && (i > 0 ==> cells'[i].key != cells'[j].key)
    {
      InsertAt(cells, cell, p, i);
      InsertAt(cells, cell, p, j);
      if i == p + 1 {
        assert cells[j - 1].key in Keys(cells);
        assert cells[p + 1].hash <= cells[j - 1].hash;
      } else if j == p + 1 {
        assert i > 0 ==> cells[i].key in Keys(cells);
      }
    }
  }

  lemma InsertRepresents(cells: seq<Cell>, contents: map<Key, Value>, cell: Cell, p: nat)
    requires Represents(cells, contents) && p < |cells| && cell.key !in Keys(cells) && !cell.deleted
    ensures Represents(Insert(cells, cell, p), contents[cell.key := cell.value])
    ensures cell.key !in contents
  {
    var cells' := Insert(cells, cell, p);
    forall i | 0 < i < |cells'| ensures Fits(cells'[i], contents[cell.key := cell.value]) {
      if i != p + 1 {
        var j := if i <= p then i else i - 1;
        assert cells'[i] == cells[j] && Fits(cells[j], contents) && cells[j].key in Keys(cells);
      }
    }
    assert cells'[p + 1].key == cell.key;
    forall k | k in Keys(cells) ensures k in Keys(cells') {
      var i :| 0 < i < |cells| && cells[i].key == k;
      assert cells'[if i <= p then i else i + 1].key == k;
    }
  }
}
