/** Inventories (pkg/protocol/handlers.go): a count and so many items. */
module Inventories {
  import opened Bytes
  import opened Common

  datatype InvItem = InvItem(kind: byte, hash: bytes32)

  const ITEM: nat := 33

  ghost function EncodedItem(item: InvItem): (r: seq<byte>)
    ensures |r| == ITEM
  {
    [item.kind] + item.hash
  }

  method EncodeItem(item: InvItem) returns (buf: array<byte>)
    ensures fresh(buf) && buf[..] == EncodedItem(item)
  {
    buf := new byte[33];
    buf[0] := item.kind;
    Copy(buf, 1, item.hash);
    assert buf[..33] == buf[..];
  }

  function ItemAt(s: seq<byte>): InvItem
    requires |s| >= ITEM
  {
    InvItem(s[0], s[1..33])
  }

  ghost function EncodedItems(items: seq<InvItem>): (r: seq<byte>)
    ensures |r| == ITEM * |items|
    decreases |items|
  {
    if items == [] then [] else EncodedItems(items[..|items| - 1]) + EncodedItem(items[|items| - 1])
  }

  ghost function EncodedInv(items: seq<InvItem>): (r: seq<byte>)
    ensures |r| == 2 + ITEM * |items|
  {
    Put16(|items| % U16) + EncodedItems(items)
  }

  lemma ItemsSnoc(items: seq<InvItem>, item: InvItem)
    ensures EncodedItems(items + [item]) == EncodedItems(items) + EncodedItem(item)
  {
    assert (items + [item])[..|items|] == items;
  }

  lemma OneItemMore(items: seq<InvItem>, i: nat)
    requires i < |items|
    ensures EncodedItems(items[..i + 1]) == EncodedItems(items[..i]) + EncodedItem(items[i])
  {
    assert items[..i + 1][..i] == items[..i];
  }

  method EncodeInv(items: seq<InvItem>) returns (buf: array<byte>)
    ensures fresh(buf) && buf[..] == EncodedInv(items)
  {
    hide EncodedItems, EncodedItem, Put16;
    buf := new byte[2 + |items| * 33];
    PutUint16(buf, 0, |items| % U16);
    var offset := 2;
    for i := 0 to |items|
      invariant offset == 2 + 33 * i
      invariant buf[..offset] == Put16(|items| % U16) + EncodedItems(items[..i])
    {
      OneItemMore(items, i);
      var one := EncodeItem(items[i]);
      Copy(buf, offset, one[..]);
      offset := offset + 33;
    }
    assert items[..|items|] == items && buf[..offset] == buf[..];
  }

  /** The items a long enough payload holds. */
  ghost function ItemsAt(s: seq<byte>, count: nat): (r: seq<InvItem>)
    requires |s| >= ITEM * count
    ensures |r| == count
    decreases count
  {
    if count == 0 then [] else ItemsAt(s, count - 1) + [ItemAt(s[ITEM * (count - 1)..])]
  }

  ghost function ParseInv(s: seq<byte>): Option<seq<InvItem>> {
    if |s| < 2 || |s| < 2 + ITEM * Get16(s[..2]) then None
    else Some(ItemsAt(s[2..], Get16(s[..2])))
  }

  method DecodeInv(data: seq<byte>) returns (r: Option<seq<InvItem>>)
    ensures r == ParseInv(data)
  {
    if |data| < 2 {
      return None;
    }
    var count := Get16(data[0..2]);
    var expectedSize := 2 + count * 33;
    if |data| < expectedSize {
      return None;
    }
    var items: seq<InvItem> := [];
    var offset := 2;
    for i := 0 to count
      invariant offset == 2 + 33 * i && items == ItemsAt(data[2..], i)
    {
      assert data[2..][ITEM * i..] == data[offset..];
      items := items + [ItemAt(data[offset..])];
      offset := offset + 33;
    }
    r := Some(items);
  }

  lemma {:induction false} ItemsInvert(s: seq<byte>, items: seq<InvItem>)
    requires |s| >= ITEM * |items|
    ensures ItemsAt(s, |items|) == items <==> EncodedItems(items) <= s
    decreases |items|
  {
    if items != [] {
      var n := |items| - 1;
      ItemsInvert(s, items[..n]);
      ItemInverts(s[ITEM * n..], items[n]);
      LastItem(s, items[..n], items[n]);
      assert items == items[..n] + [items[n]];
      var front := ItemsAt(s, n);
      assert ItemsAt(s, n + 1) == front + [ItemAt(s[ITEM * n..])];
      assert ItemsAt(s, n + 1)[..n] == front;
    }
  }

  lemma ItemInverts(s: seq<byte>, item: InvItem)
    requires |s| >= ITEM
    ensures ItemAt(s) == item <==> s[..ITEM] == EncodedItem(item)
  {
    assert s[..ITEM] == [s[0]] + s[1..33];
    assert EncodedItem(item)[0] == item.kind && EncodedItem(item)[1..] == item.hash;
  }

  lemma LastItem(s: seq<byte>, items: seq<InvItem>, item: InvItem)
    requires |s| >= ITEM * (|items| + 1)
    ensures EncodedItems(items + [item]) <= s <==>
            EncodedItems(items) <= s && s[ITEM * |items|..][..ITEM] == EncodedItem(item)
  {
    hide EncodedItem, EncodedItems;
    ItemsSnoc(items, item);
    PrefixSplit(EncodedItems(items), EncodedItem(item), s);
  }

  /** Decoding is the inverse of encoding, for inventories of at most 65535 items. */
  lemma ParseInvInverts(s: seq<byte>, items: seq<InvItem>)
    ensures ParseInv(s) == Some(items) <==> |items| < U16 && EncodedInv(items) <= s
  {
    hide Put16, Get16, ItemsAt, EncodedItems;
    PrefixSplit(Put16(|items| % U16), EncodedItems(items), s);
    if |s| >= 2 {
      Unique16(s[..2]);
      RoundTrip16(|items| % U16);
      if |s| >= 2 + ITEM * |items| {
        ItemsInvert(s[2..], items);
      }
    }
  }

  lemma InvRoundTrip(items: seq<InvItem>, rest: seq<byte>)
    ensures ParseInv(EncodedInv(items) + rest) == Some(items) <==> |items| <= 65535
  {
    ParseInvInverts(EncodedInv(items) + rest, items);
  }
}
