/**
 The decoder accepts exactly the encodings of canonical values (`DecodeIffEncoding`):
 whatever is accepted re-encodes to the consumed bytes (`ItemIsCanonical`), and every
 canonical value is read back from its encoding (`CanonicalIsRead`). Its duplicate-key
 error is never raised (`NoDuplicateKeyError`).
 */
module DagCborCanonical {
  import opened ByteStrings
  import opened DagCbor

  // ------------------------------------------- accepted bytes are canonical

  /** The value `r` was read from its own encoding, and is canonical. */
  ghost predicate Exact(data: seq<Byte>, offset: nat, depth: nat, maxItems: nat, r: Result<Read<Value>, Error>) {
    r.Ok? ==>
      && Canonical(r.value.value, depth, maxItems)
      && HasAt(data, offset, Encode(r.value.value))
      && r.value.end == offset + |Encode(r.value.value)|
  }

  /** Whatever is accepted is a canonical value, and re-encoding it gives the consumed bytes. */
  lemma {:induction false} ItemIsCanonical(data: seq<Byte>, offset: nat, depth: nat, maxItems: nat)
    requires offset <= |data|
    ensures Exact(data, offset, depth, maxItems, Item(data, offset, depth, maxItems))
    decreases |data| - offset, 0, 0
  {
    if depth <= MAX_CBOR_DEPTH && offset < |data| {
      if data[offset] / 32 == 7 {
        HasAtByte(data, offset, data[offset]);
      } else {
        ArgumentIsShortest(data, offset);
        var head := Argument(data, offset + 1, data[offset] % 32);
        if head.Ok? {
          ContentIsCanonical(data, offset, head.value.end, depth, maxItems, data[offset] / 32, head.value.value);
        }
      }
    }
  }

  lemma {:induction false} ContentIsCanonical(
      data: seq<Byte>, start: nat, offset: nat, depth: nat, maxItems: nat, major: nat, argument: nat)
    requires start < offset <= |data| && major < 7 && depth <= MAX_CBOR_DEPTH && argument < TWO_TO_64
    requires HasAt(data, start, Head(major, argument)) && offset == start + |Head(major, argument)|
    ensures Exact(data, start, depth, maxItems, Content(data, offset, depth, maxItems, major, argument))
    decreases |data| - offset, 3, 0
  {
    if major == 2 || major == 3 {
      StringIsCanonical(data, start, offset, depth, maxItems, major, argument);
    } else if major == 4 {
      ListIsCanonical(data, start, offset, depth, maxItems, argument);
    } else if major == 5 {
      MapIsCanonical(data, start, offset, depth, maxItems, argument);
    } else if major == 6 {
      CidIsCanonical(data, start, offset, depth, maxItems, argument);
    }
  }

  lemma StringIsCanonical(
      data: seq<Byte>, start: nat, offset: nat, depth: nat, maxItems: nat, major: nat, length: nat)
    requires offset <= |data| && 2 <= major <= 3 && depth <= MAX_CBOR_DEPTH && length < TWO_TO_64
    requires HasAt(data, start, Head(major, length)) && offset == start + |Head(major, length)|
    ensures Exact(data, start, depth, maxItems, String(data, offset, major, length))
  {
    hide Head, WellFormedUtf8;
    if offset + length <= |data| {
      HasAtConcat(data, start, Head(major, length), data[offset..offset + length]);
    }
  }

  lemma {:induction false} ListIsCanonical(
      data: seq<Byte>, start: nat, offset: nat, depth: nat, maxItems: nat, count: nat)
    requires offset <= |data| && depth <= MAX_CBOR_DEPTH && count < TWO_TO_64
    requires HasAt(data, start, Head(4, count)) && offset == start + |Head(4, count)|
    ensures Exact(data, start, depth, maxItems, Content(data, offset, depth, maxItems, 4, count))
    decreases |data| - offset, 1, count + 1
  {
    if count <= maxItems {
      ItemsAreCanonical(data, offset, depth + 1, maxItems, count);
      var list := Items(data, offset, depth + 1, maxItems, count);
      if list.Ok? {
        HasAtConcat(data, start, Head(4, count), EncodeItems(list.value.value));
      }
    }
  }

  lemma {:induction false} MapIsCanonical(
      data: seq<Byte>, start: nat, offset: nat, depth: nat, maxItems: nat, count: nat)
    requires offset <= |data| && depth <= MAX_CBOR_DEPTH && count < TWO_TO_64
    requires HasAt(data, start, Head(5, count)) && offset == start + |Head(5, count)|
    ensures Exact(data, start, depth, maxItems, Content(data, offset, depth, maxItems, 5, count))
    decreases |data| - offset, 2, count + 1
  {
    hide Item, OneEntry, BigEndian, LexLess;
    if count <= maxItems {
      EntriesAreCanonical(data, offset, depth + 1, maxItems, count, None, {});
      var entries := Entries(data, offset, depth + 1, maxItems, count, None, {});
      if entries.Ok? {
        HasAtConcat(data, start, Head(5, count), EncodeEntries(entries.value.value));
      }
    }
  }

  lemma {:induction false} CidIsCanonical(
      data: seq<Byte>, start: nat, offset: nat, depth: nat, maxItems: nat, tag: nat)
    requires offset <= |data| && depth <= MAX_CBOR_DEPTH
    requires HasAt(data, start, Head(6, tag)) && offset == start + |Head(6, tag)|
    ensures Exact(data, start, depth, maxItems, Content(data, offset, depth, maxItems, 6, tag))
    decreases |data| - offset, 1, 0
  {
    hide Item, Head;
    if tag == 42 {
      ItemIsCanonical(data, offset, depth + 1, maxItems);
      var link := Item(data, offset, depth + 1, maxItems);
      if link.Ok? && Link(link.value).Ok? {
        var raw := Link(link.value).value.value.raw;
        assert link.value.value.bytes == [0] + raw;
        HasAtConcat(data, start, Head(6, 42), Encode(link.value.value));
      }
    }
  }

  lemma {:induction false} ItemsAreCanonical(data: seq<Byte>, offset: nat, depth: nat, maxItems: nat, count: nat)
    requires offset <= |data|
    ensures var r := Items(data, offset, depth, maxItems, count);
            r.Ok? ==>
              && |r.value.value| == count
              && (forall i | 0 <= i < count :: Canonical(r.value.value[i], depth, maxItems))
              && HasAt(data, offset, EncodeItems(r.value.value))
              && r.value.end == offset + |EncodeItems(r.value.value)|
    decreases |data| - offset, 1, count
  {
    hide Item, Head;
    if count > 0 {
      var item := Item(data, offset, depth, maxItems);
      ItemIsCanonical(data, offset, depth, maxItems);
      if item.Ok? {
        ItemsAreCanonical(data, item.value.end, depth, maxItems, count - 1);
        var rest := Items(data, item.value.end, depth, maxItems, count - 1);
        if rest.Ok? {
          ConsItems(item.value.value, rest.value.value);
          HasAtConcat(data, offset, Encode(item.value.value), EncodeItems(rest.value.value));
        }
      }
    }
  }

  lemma ConsItems(v: Value, rest: seq<Value>)
    ensures EncodeItems([v] + rest) == Encode(v) + EncodeItems(rest)
  {
    assert ([v] + rest)[1..] == rest;
  }

  lemma ConsEntries(e: Entry, rest: seq<Entry>, previous: Option<seq<Byte>>)
    ensures EncodeEntries([e] + rest) == EncodeEntry(e) + EncodeEntries(rest)
    ensures Ascending(previous, [e] + rest)
       <==> Above(previous, KeyEncoding(e.key)) && Ascending(Some(KeyEncoding(e.key)), rest)
  {
    assert ([e] + rest)[1..] == rest;
  }

  lemma {:induction false} EntriesAreCanonical(
      data: seq<Byte>, offset: nat, depth: nat, maxItems: nat, count: nat,
      previous: Option<seq<Byte>>, seen: set<seq<Byte>>)
    requires offset <= |data|
    ensures var r := Entries(data, offset, depth, maxItems, count, previous, seen);
            r.Ok? ==>
              && |r.value.value| == count
              && Ascending(previous, r.value.value)
              && (forall i | 0 <= i < count :: CanonicalEntry(r.value.value[i], depth, maxItems))
              && HasAt(data, offset, EncodeEntries(r.value.value))
              && r.value.end == offset + |EncodeEntries(r.value.value)|
    decreases |data| - offset, 2, count
  {
    hide OneEntry, Head, LexLess, CanonicalEntry;
    if count > 0 {
      var entry := OneEntry(data, offset, depth, maxItems, previous, seen);
      EntryIsCanonical(data, offset, depth, maxItems, previous, seen);
      if entry.Ok? {
        var e := entry.value.value;
        var last, seen' := Some(KeyEncoding(e.key)), seen + {e.key};
        EntriesAreCanonical(data, entry.value.end, depth, maxItems, count - 1, last, seen');
        var rest := Entries(data, entry.value.end, depth, maxItems, count - 1, last, seen');
        if rest.Ok? {
          ConsEntries(e, rest.value.value, previous);
          HasAtConcat(data, offset, EncodeEntry(e), EncodeEntries(rest.value.value));
        }
      }
    }
  }

  lemma {:induction false} EntryIsCanonical(
      data: seq<Byte>, offset: nat, depth: nat, maxItems: nat, previous: Option<seq<Byte>>, seen: set<seq<Byte>>)
    requires offset <= |data|
    ensures var r := OneEntry(data, offset, depth, maxItems, previous, seen);
            r.Ok? ==>
              var e := r.value.value;
              && Above(previous, KeyEncoding(e.key))
              && CanonicalEntry(e, depth, maxItems)
              && HasAt(data, offset, EncodeEntry(e)) && r.value.end == offset + |EncodeEntry(e)|
    decreases |data| - offset, 1, 0
  {
    var r := OneEntry(data, offset, depth, maxItems, previous, seen);
    if r.Ok? {
      ItemIsCanonical(data, offset, depth, maxItems);
      var middle := Item(data, offset, depth, maxItems).value.end;
      ItemIsCanonical(data, middle, depth, maxItems);
      JoinEntry(data, offset, depth, maxItems, r.value.value, middle, r.value.end);
    }
  }

  lemma JoinEntry(data: seq<Byte>, offset: nat, depth: nat, maxItems: nat, e: Entry, middle: nat, end: nat)
    requires offset <= middle <= end
    requires Exact(data, offset, depth, maxItems, Ok(Read(Text(e.key), middle)))
    requires Exact(data, middle, depth, maxItems, Ok(Read(e.value, end)))
    ensures data[offset..middle] == KeyEncoding(e.key)
    ensures CanonicalEntry(e, depth, maxItems)
    ensures HasAt(data, offset, EncodeEntry(e)) && end == offset + |EncodeEntry(e)|
  {
    HasAtConcat(data, offset, KeyEncoding(e.key), Encode(e.value));
  }

  // ------------------------------------------- canonical values are accepted

  /** A shortest head is read, and the decoder goes on with the content. */
  lemma HeadIsRead(data: seq<Byte>, offset: nat, depth: nat, maxItems: nat, major: nat, n: nat)
    requires major < 7 && n < TWO_TO_64 && depth <= MAX_CBOR_DEPTH
    requires HasAt(data, offset, Head(major, n))
    ensures Item(data, offset, depth, maxItems)
         == Content(data, offset + |Head(major, n)|, depth, maxItems, major, n)
  {
    ShortestIsRead(data, offset, major, n);
  }

  /** Every canonical value is read back from its encoding, wherever the encoding stands. */
  lemma {:induction false} CanonicalIsRead(data: seq<Byte>, offset: nat, depth: nat, maxItems: nat, v: Value)
    requires Canonical(v, depth, maxItems) && HasAt(data, offset, Encode(v))
    ensures Item(data, offset, depth, maxItems) == Ok(Read(v, offset + |Encode(v)|))
    decreases v, 1
  {
    hide Argument, EncodeItems, EncodeEntries, Ascending, WellFormedUtf8;
    match v
    case Bool(flag) =>
      SimpleIsRead(data, offset, depth, maxItems, v);
    case Null =>
      SimpleIsRead(data, offset, depth, maxItems, v);
    case Int(n) =>
      if n >= 0 {
        HeadIsRead(data, offset, depth, maxItems, 0, n);
      } else {
        HeadIsRead(data, offset, depth, maxItems, 1, -1 - n);
      }
    case Bytes(s) =>
      CanonicalStringIsRead(data, offset, depth, maxItems, v);
    case Text(s) =>
      CanonicalStringIsRead(data, offset, depth, maxItems, v);
    case List(items) =>
      CanonicalListIsRead(data, offset, depth, maxItems, v);
    case Map(entries) =>
      CanonicalMapIsRead(data, offset, depth, maxItems, v);
    case Cid(raw) =>
      CanonicalCidIsRead(data, offset, depth, maxItems, raw);
  }

  lemma SimpleIsRead(data: seq<Byte>, offset: nat, depth: nat, maxItems: nat, v: Value)
    requires v.Bool? || v.Null?
    requires Canonical(v, depth, maxItems) && HasAt(data, offset, Encode(v))
    ensures Item(data, offset, depth, maxItems) == Ok(Read(v, offset + |Encode(v)|))
  {
    HasAtByte(data, offset, Encode(v)[0]);
  }

  lemma StringIsRead(data: seq<Byte>, offset: nat, depth: nat, maxItems: nat, major: nat, s: seq<Byte>)
    requires 2 <= major <= 3 && |s| < TWO_TO_64 && depth <= MAX_CBOR_DEPTH
    requires major == 3 ==> WellFormedUtf8(s)
    requires HasAt(data, offset, Head(major, |s|)) && HasAt(data, offset + |Head(major, |s|)|, s)
    ensures Item(data, offset, depth, maxItems)
         == Ok(Read(if major == 2 then Bytes(s) else Text(s), offset + |Head(major, |s|)| + |s|))
  {
    hide Head, Argument, BigEndian, FromBigEndian, Item, WellFormedUtf8, HasAt;
    HeadIsRead(data, offset, depth, maxItems, major, |s|);
    hide Content, String;
    StringContent(data, offset + |Head(major, |s|)|, depth, maxItems, major, s);
  }

  lemma StringContent(data: seq<Byte>, offset: nat, depth: nat, maxItems: nat, major: nat, s: seq<Byte>)
    requires 2 <= major <= 3 && (major == 3 ==> WellFormedUtf8(s)) && HasAt(data, offset, s)
    ensures Content(data, offset, depth, maxItems, major, |s|) == Ok(Read(if major == 2 then Bytes(s) else Text(s), offset + |s|))
  {
    hide Item, Items, Entries, WellFormedUtf8;
  }

  lemma CanonicalStringIsRead(data: seq<Byte>, offset: nat, depth: nat, maxItems: nat, v: Value)
    requires (v.Bytes? || v.Text?) && Canonical(v, depth, maxItems) && HasAt(data, offset, Encode(v))
    ensures Item(data, offset, depth, maxItems) == Ok(Read(v, offset + |Encode(v)|))
  {
    hide Head, Item, WellFormedUtf8, HasAt;
    var major, s := if v.Bytes? then 2 else 3, if v.Bytes? then v.bytes else v.utf8;
    HasAtConcat(data, offset, Head(major, |s|), s);
    StringIsRead(data, offset, depth, maxItems, major, s);
  }

  lemma {:induction false} CanonicalListIsRead(data: seq<Byte>, offset: nat, depth: nat, maxItems: nat, v: Value)
    requires v.List? && Canonical(v, depth, maxItems) && HasAt(data, offset, Encode(v))
    ensures Item(data, offset, depth, maxItems) == Ok(Read(v, offset + |Encode(v)|))
    decreases v, 0
  {
    hide Item, Argument, BigEndian;
    var head := Head(4, |v.items|);
    HasAtConcat(data, offset, head, EncodeItems(v.items));
    HeadIsRead(data, offset, depth, maxItems, 4, |v.items|);
    CanonicalItemsAreRead(data, offset + |head|, depth + 1, maxItems, v.items);
  }

  lemma {:induction false} CanonicalMapIsRead(data: seq<Byte>, offset: nat, depth: nat, maxItems: nat, v: Value)
    requires v.Map? && Canonical(v, depth, maxItems) && HasAt(data, offset, Encode(v))
    ensures Item(data, offset, depth, maxItems) == Ok(Read(v, offset + |Encode(v)|))
    decreases v, 0
  {
    hide Item, Argument, BigEndian, OneEntry, LexLess;
    var head := Head(5, |v.entries|);
    HasAtConcat(data, offset, head, EncodeEntries(v.entries));
    HeadIsRead(data, offset, depth, maxItems, 5, |v.entries|);
    CanonicalEntriesAreRead(data, offset + |head|, depth + 1, maxItems, v.entries, None, {});
  }

  lemma CanonicalCidIsRead(data: seq<Byte>, offset: nat, depth: nat, maxItems: nat, raw: seq<Byte>)
    requires Canonical(Cid(raw), depth, maxItems) && HasAt(data, offset, Encode(Cid(raw)))
    ensures Item(data, offset, depth, maxItems) == Ok(Read(Cid(raw), offset + |Encode(Cid(raw))|))
  {
    hide Item, Head, String, Argument;
    var link := [0] + raw;
    var inner := Head(2, |link|) + link;
    HasAtConcat(data, offset, Head(6, 42), inner);
    HeadIsRead(data, offset, depth, maxItems, 6, 42);
    HasAtConcat(data, offset + |Head(6, 42)|, Head(2, |link|), link);
    StringIsRead(data, offset + |Head(6, 42)|, depth + 1, maxItems, 2, link);
    assert link[1..] == raw;
  }

  lemma {:induction false} CanonicalItemsAreRead(
      data: seq<Byte>, offset: nat, depth: nat, maxItems: nat, items: seq<Value>)
    requires HasAt(data, offset, EncodeItems(items))
    requires forall i | 0 <= i < |items| :: Canonical(items[i], depth, maxItems)
    ensures Items(data, offset, depth, maxItems, |items|) == Ok(Read(items, offset + |EncodeItems(items)|))
    decreases items, 0
  {
    hide Head, Item, Canonical;
    if items != [] {
      HasAtConcat(data, offset, Encode(items[0]), EncodeItems(items[1..]));
      CanonicalIsRead(data, offset, depth, maxItems, items[0]);
      CanonicalItemsAreRead(data, offset + |Encode(items[0])|, depth, maxItems, items[1..]);
      assert items == [items[0]] + items[1..];
    }
  }

  /** `previous` is the largest of the encodings of the keys in `seen`. */
  ghost predicate Bounds(previous: Option<seq<Byte>>, seen: set<seq<Byte>>) {
    forall k | k in seen :: previous.Some? && (KeyEncoding(k) == previous.value || LexLess(KeyEncoding(k), previous.value))
  }

  /** A key above the last one has not been seen, and becomes the last one. */
  lemma NotSeen(previous: Option<seq<Byte>>, seen: set<seq<Byte>>, key: seq<Byte>)
    requires Bounds(previous, seen) && Above(previous, KeyEncoding(key))
    ensures key !in seen
    ensures Bounds(Some(KeyEncoding(key)), seen + {key})
  {
    LexTrichotomy(KeyEncoding(key), KeyEncoding(key));
    forall k | k in seen
      ensures LexLess(KeyEncoding(k), KeyEncoding(key))
    {
      if KeyEncoding(k) != previous.value {
        LexTransitive(KeyEncoding(k), previous.value, KeyEncoding(key));
      }
    }
  }

  lemma {:induction false} CanonicalEntriesAreRead(
      data: seq<Byte>, offset: nat, depth: nat, maxItems: nat, entries: seq<Entry>,
      previous: Option<seq<Byte>>, seen: set<seq<Byte>>)
    requires HasAt(data, offset, EncodeEntries(entries))
    requires Ascending(previous, entries) && Bounds(previous, seen)
    requires forall i | 0 <= i < |entries| :: CanonicalEntry(entries[i], depth, maxItems)
    ensures Entries(data, offset, depth, maxItems, |entries|, previous, seen)
         == Ok(Read(entries, offset + |EncodeEntries(entries)|))
    decreases entries, 0
  {
    hide OneEntry, Head, LexLess, CanonicalEntry, Bounds;
    if entries != [] {
      var e := entries[0];
      HasAtConcat(data, offset, EncodeEntry(e), EncodeEntries(entries[1..]));
      CanonicalEntryIsRead(data, offset, depth, maxItems, e, previous, seen);
      NotSeen(previous, seen, e.key);
      CanonicalEntriesAreRead(data, offset + |EncodeEntry(e)|, depth, maxItems, entries[1..],
                              Some(KeyEncoding(e.key)), seen + {e.key});
      assert entries == [e] + entries[1..];
    }
  }

  lemma {:induction false} CanonicalEntryIsRead(
      data: seq<Byte>, offset: nat, depth: nat, maxItems: nat, e: Entry,
      previous: Option<seq<Byte>>, seen: set<seq<Byte>>)
    requires CanonicalEntry(e, depth, maxItems) && HasAt(data, offset, EncodeEntry(e))
    requires Above(previous, KeyEncoding(e.key)) && Bounds(previous, seen)
    ensures OneEntry(data, offset, depth, maxItems, previous, seen) == Ok(Read(e, offset + |EncodeEntry(e)|))
    decreases e, 0
  {
    hide Item, Head, Canonical, LexLess, Encode, EncodeEntry;
    SplitEntry(data, offset, e);
    NotSeen(previous, seen, e.key);
    HasAtConcat(data, offset, Head(3, |e.key|), e.key);
    StringIsRead(data, offset, depth, maxItems, 3, e.key);
    CanonicalIsRead(data, offset + |KeyEncoding(e.key)|, depth, maxItems, e.value);
  }

  lemma SplitEntry(data: seq<Byte>, offset: nat, e: Entry)
    requires HasAt(data, offset, EncodeEntry(e))
    ensures HasAt(data, offset, KeyEncoding(e.key))
    ensures HasAt(data, offset + |KeyEncoding(e.key)|, Encode(e.value))
    ensures |EncodeEntry(e)| == |KeyEncoding(e.key)| + |Encode(e.value)|
  {
    HasAtConcat(data, offset, KeyEncoding(e.key), Encode(e.value));
  }

  // ---------------------------------------------------------- whole buffers

  /** A buffer decodes to a value exactly when it is the encoding of that value and the value is canonical. */
  lemma DecodeIffEncoding(data: seq<Byte>, maxItems: nat, v: Value)
    ensures Decode(data, maxItems) == Ok(v) <==> Canonical(v, 0, maxItems) && data == Encode(v)
  {
    hide Item, Canonical, Encode;
    ItemIsCanonical(data, 0, 0, maxItems);
    if Canonical(v, 0, maxItems) && data == Encode(v) {
      assert data[0..|data|] == data;
      CanonicalIsRead(data, 0, 0, maxItems, v);
    }
    if Decode(data, maxItems) == Ok(v) {
      assert data[0..|data|] == data;
    }
  }

  /** Encodings are self-delimiting: at one place of a buffer stands at most one canonical value. */
  lemma EncodingsArePrefixFree(v: Value, w: Value, maxItems: nat, vRest: seq<Byte>, wRest: seq<Byte>)
    requires Canonical(v, 0, maxItems) && Canonical(w, 0, maxItems)
    requires Encode(v) + vRest == Encode(w) + wRest
    ensures v == w && vRest == wRest
  {
    hide Item, Canonical, Encode;
    var data := Encode(v) + vRest;
    assert data[0..|Encode(v)|] == Encode(v);
    assert data[0..|Encode(w)|] == Encode(w);
    CanonicalIsRead(data, 0, 0, maxItems, v);
    CanonicalIsRead(data, 0, 0, maxItems, w);
    assert vRest == data[|Encode(v)|..] && wRest == data[|Encode(w)|..];
  }

  /** The decoder's duplicate-key error can never be raised: the order check comes first. */
  lemma {:induction false} NoDuplicateKeyError(data: seq<Byte>, offset: nat, depth: nat, maxItems: nat)
    requires offset <= |data|
    ensures Item(data, offset, depth, maxItems) != Err(DuplicateKey)
    decreases |data| - offset, 0, 0
  {
    if depth <= MAX_CBOR_DEPTH && offset < |data| && data[offset] / 32 != 7 {
      var head := Argument(data, offset + 1, data[offset] % 32);
      if head.Ok? {
        var major := data[offset] / 32;
        if major == 4 {
          NoDuplicateInItems(data, head.value.end, depth + 1, maxItems, head.value.value);
        } else if major == 5 {
          NoDuplicateInEntries(data, head.value.end, depth + 1, maxItems, head.value.value, None, {});
        } else if major == 6 {
          NoDuplicateKeyError(data, head.value.end, depth + 1, maxItems);
        }
      }
    }
  }

  lemma {:induction false} NoDuplicateInItems(data: seq<Byte>, offset: nat, depth: nat, maxItems: nat, count: nat)
    requires offset <= |data|
    ensures Items(data, offset, depth, maxItems, count) != Err(DuplicateKey)
    decreases |data| - offset, 1, count
  {
    if count > 0 {
      NoDuplicateKeyError(data, offset, depth, maxItems);
      var item := Item(data, offset, depth, maxItems);
      if item.Ok? {
        NoDuplicateInItems(data, item.value.end, depth, maxItems, count - 1);
      }
    }
  }

  lemma {:induction false} NoDuplicateInEntries(
      data: seq<Byte>, offset: nat, depth: nat, maxItems: nat, count: nat,
      previous: Option<seq<Byte>>, seen: set<seq<Byte>>)
    requires offset <= |data| && Bounds(previous, seen)
    ensures Entries(data, offset, depth, maxItems, count, previous, seen) != Err(DuplicateKey)
    decreases |data| - offset, 2, count
  {
    hide OneEntry, Head, LexLess;
    if count > 0 {
      NoDuplicateInEntry(data, offset, depth, maxItems, previous, seen);
      EntryIsCanonical(data, offset, depth, maxItems, previous, seen);
      var entry := OneEntry(data, offset, depth, maxItems, previous, seen);
      if entry.Ok? {
        var key := entry.value.value.key;
        NotSeen(previous, seen, key);
        NoDuplicateInEntries(data, entry.value.end, depth, maxItems, count - 1,
                             Some(KeyEncoding(key)), seen + {key});
      }
    }
  }

  lemma {:induction false} NoDuplicateInEntry(
      data: seq<Byte>, offset: nat, depth: nat, maxItems: nat, previous: Option<seq<Byte>>, seen: set<seq<Byte>>)
    requires offset <= |data| && Bounds(previous, seen)
    ensures OneEntry(data, offset, depth, maxItems, previous, seen) != Err(DuplicateKey)
    decreases |data| - offset, 1, 0
  {
    hide Head, LexLess, Canonical, Content;
    NoDuplicateKeyError(data, offset, depth, maxItems);
    ItemIsCanonical(data, offset, depth, maxItems);
    var key := Item(data, offset, depth, maxItems);
    if key.Ok? {
      NoDuplicateKeyError(data, key.value.end, depth, maxItems);
      if key.value.value.Text? && Above(previous, data[offset..key.value.end]) {
        NotSeen(previous, seen, key.value.value.utf8);
      }
    }
  }
}
