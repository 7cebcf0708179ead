/**
 The recursion and the loops of `decode_cbor_item`, proved equal to the specification.
 */
module DagCborLoops {
  import opened ByteStrings
  import opened DagCbor
  import opened DagCborCanonical

  function PrependItems(done: seq<Value>, r: Result<Read<seq<Value>>, Error>): Result<Read<seq<Value>>, Error> {
    if r.Ok? then Ok(Read(done + r.value.value, r.value.end)) else r
  }

  function PrependEntries(done: seq<Entry>, r: Result<Read<seq<Entry>>, Error>): Result<Read<seq<Entry>>, Error> {
    if r.Ok? then Ok(Read(done + r.value.value, r.value.end)) else r
  }

  /** `decode_cbor_item`: recursion over items, loops over the members of a list or map. */
  method DecodeItem(data: seq<Byte>, offset: nat, depth: nat, maxItems: nat) returns (r: Result<Read<Value>, Error>)
    requires offset <= |data|
    ensures r == Item(data, offset, depth, maxItems)
    decreases |data| - offset, 0, 0
  {
    if depth > MAX_CBOR_DEPTH || offset >= |data| {
      return Err(TruncatedOrTooDeep);
    }
    var major, additional := data[offset] / 32, data[offset] % 32;
    if major == 7 {
      return Simple(additional, offset + 1);
    }
    var head := Argument(data, offset + 1, additional);
    if head.Err? {
      return Err(head.error);
    }
    var argument, start := head.value.value, head.value.end;
    if major <= 3 {
      r := Content(data, start, depth, maxItems, major, argument);
    } else if major == 4 {
      if argument > maxItems {
        return Err(TooManyItems);
      }
      var list := DecodeItems(data, start, depth + 1, maxItems, argument);
      r := if list.Ok? then Ok(Read(List(list.value.value), list.value.end)) else Err(list.error);
    } else if major == 5 {
      if argument > maxItems {
        return Err(TooManyEntries);
      }
      var entries := DecodeEntries(data, start, depth + 1, maxItems, argument);
      r := if entries.Ok? then Ok(Read(Map(entries.value.value), entries.value.end)) else Err(entries.error);
    } else if argument != 42 {
      r := Err(ForbiddenTag);
    } else {
      var link := DecodeItem(data, start, depth + 1, maxItems);
      r := if link.Ok? then Link(link.value) else link;
    }
  }

  method DecodeItems(data: seq<Byte>, start: nat, depth: nat, maxItems: nat, count: nat)
    returns (r: Result<Read<seq<Value>>, Error>)
    requires start <= |data|
    ensures r == Items(data, start, depth, maxItems, count)
    decreases |data| - start, 1, 0
  {
    hide Item;
    var values: seq<Value>, offset := [], start;
    ghost var all := Items(data, start, depth, maxItems, count);
    assert all.Ok? ==> [] + all.value.value == all.value.value;
    for i := 0 to count
      invariant start <= offset <= |data|
      invariant all == PrependItems(values, Items(data, offset, depth, maxItems, count - i))
    {
      var item := DecodeItem(data, offset, depth, maxItems);
      if item.Err? {
        return Err(item.error);
      }
      ghost var rest := Items(data, item.value.end, depth, maxItems, count - i - 1);
      assert rest.Ok? ==> values + ([item.value.value] + rest.value.value) == (values + [item.value.value]) + rest.value.value;
      values, offset := values + [item.value.value], item.value.end;
    }
    r := Ok(Read(values, offset));
    assert values + [] == values;
  }

  /** The bytes a key was read from are its encoding. */
  lemma KeySlice(data: seq<Byte>, offset: nat, depth: nat, maxItems: nat)
    requires offset <= |data| && Item(data, offset, depth, maxItems).Ok?
    requires Item(data, offset, depth, maxItems).value.value.Text?
    ensures var key := Item(data, offset, depth, maxItems).value;
            data[offset..key.end] == KeyEncoding(key.value.utf8)
  {
    ItemIsCanonical(data, offset, depth, maxItems);
  }

  method DecodeEntries(data: seq<Byte>, start: nat, depth: nat, maxItems: nat, count: nat)
    returns (r: Result<Read<seq<Entry>>, Error>)
    requires start <= |data|
    ensures r == Entries(data, start, depth, maxItems, count, None, {})
    decreases |data| - start, 1, 0
  {
    hide Item, LexLess, Head, Canonical, HasAt;
    var result: seq<Entry>, keys: set<seq<Byte>>, offset := [], {}, start;
    var previous: Option<seq<Byte>> := None;
    ghost var all := Entries(data, start, depth, maxItems, count, None, {});
    assert all.Ok? ==> [] + all.value.value == all.value.value;
    for i := 0 to count
      invariant start <= offset <= |data|
      invariant all == PrependEntries(result, Entries(data, offset, depth, maxItems, count - i, previous, keys))
    {
      var keyStart := offset;
      var key := DecodeItem(data, offset, depth, maxItems);
      if key.Err? {
        return Err(key.error);
      }
      var encoding := data[keyStart..key.value.end];
      if !key.value.value.Text? {
        return Err(KeyNotText);
      }
      if previous.Some? && !LexLess(previous.value, encoding) {
        return Err(KeyOrder);
      }
      if key.value.value.utf8 in keys {
        return Err(DuplicateKey);
      }
      var value := DecodeItem(data, key.value.end, depth, maxItems);
      if value.Err? {
        return Err(value.error);
      }
      KeySlice(data, keyStart, depth, maxItems);
      var e := Entry(key.value.value.utf8, value.value.value);
      ghost var rest := Entries(data, value.value.end, depth, maxItems, count - i - 1, Some(encoding), keys + {e.key});
      assert rest.Ok? ==> result + ([e] + rest.value.value) == (result + [e]) + rest.value.value;
      result, keys, offset, previous := result + [e], keys + {e.key}, value.value.end, Some(encoding);
    }
    r := Ok(Read(result, offset));
    assert result + [] == result;
  }
}
