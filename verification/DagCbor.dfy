/**
 The DAG-CBOR decoder shared by the launch-policy and onboarding scripts, and an
 independent shortest-form encoder (RFC 8949 section 3, with the deterministic rules of
 section 4.2.1). `Item`, `Items` and `Entries` specify the decoder on values.

 The heads of items: the argument reader accepts exactly the shortest head
 (`ArgumentIsShortest`, `ShortestIsRead`).
 */
module DagCbor {
  import opened ByteStrings

  const MAX_CBOR_DEPTH: nat := 32

  /** A decoded value. A text is held as its well-formed UTF-8 bytes, a map as its
      entries in insertion order. */
  datatype Value =
    | Bool(flag: bool)
    | Null
    | Int(number: int)
    | Bytes(bytes: seq<Byte>)
    | Text(utf8: seq<Byte>)
    | List(items: seq<Value>)
    | Map(entries: seq<Entry>)
    | Cid(raw: seq<Byte>)

  datatype Entry = Entry(key: seq<Byte>, value: Value)

  datatype Error =
    | TruncatedOrTooDeep
    | ForbiddenSimple
    | InvalidLength
    | NonCanonicalInteger
    | TruncatedString
    | InvalidUtf8
    | TooManyItems
    | TooManyEntries
    | KeyNotText
    | KeyOrder
    | DuplicateKey
    | ForbiddenTag
    | InvalidCidTag
    | TrailingData

  // ------------------------------------------------------------- the decoder

  predicate Continuation(b: Byte) {
    0x80 <= b <= 0xBF
  }

  /** Well-formed UTF-8, table 3-7 of the Unicode standard: what `bytes.decode("utf-8")` accepts. */
  predicate WellFormedUtf8(s: seq<Byte>) {
    if s == [] then true
    else if s[0] < 0x80 then WellFormedUtf8(s[1..])
    else if 0xC2 <= s[0] <= 0xDF then
      |s| >= 2 && Continuation(s[1]) && WellFormedUtf8(s[2..])
    else if 0xE0 <= s[0] <= 0xEF then
      && |s| >= 3 && Continuation(s[1]) && Continuation(s[2])
      && (s[0] == 0xE0 ==> 0xA0 <= s[1]) && (s[0] == 0xED ==> s[1] <= 0x9F)
      && WellFormedUtf8(s[3..])
    else if 0xF0 <= s[0] <= 0xF4 then
      && |s| >= 4 && Continuation(s[1]) && Continuation(s[2]) && Continuation(s[3])
      && (s[0] == 0xF0 ==> 0x90 <= s[1]) && (s[0] == 0xF4 ==> s[1] <= 0x8F)
      && WellFormedUtf8(s[4..])
    else false
  }

  /** The argument of an item head; `offset` is just past the initial byte. */
  function Argument(data: seq<Byte>, offset: nat, additional: nat): (r: Result<Read<nat>, Error>)
    requires offset <= |data| && additional < 32
    ensures r.Ok? ==> offset <= r.value.end <= |data|
  {
    if additional < 24 then Ok(Read(additional, offset))
    else if additional > 27 then Err(InvalidLength)
    else
      var width := ArgumentWidth(additional);
      if offset + width > |data| then Err(InvalidLength)
      else
        var value := FromBigEndian(data[offset..offset + width]);
        if value < Minimum(width) then Err(NonCanonicalInteger)
        else Ok(Read(value, offset + width))
  }

  function ArgumentWidth(additional: nat): nat
    requires 24 <= additional <= 27
  {
    if additional == 24 then 1 else if additional == 25 then 2 else if additional == 26 then 4 else 8
  }

  /** The least argument that needs this many bytes. */
  function Minimum(width: nat): nat {
    if width == 1 then 24 else if width == 2 then 0x100 else if width == 4 then TWO_TO_16 else TWO_TO_32
  }

  /** One item at `offset`, `depth` levels below the root. */
  function Item(data: seq<Byte>, offset: nat, depth: nat, maxItems: nat): (r: Result<Read<Value>, Error>)
    requires offset <= |data|
    ensures r.Ok? ==> offset < r.value.end <= |data|
    decreases |data| - offset, 0, 0
  {
    if depth > MAX_CBOR_DEPTH || offset >= |data| then Err(TruncatedOrTooDeep)
    else if data[offset] / 32 == 7 then Simple(data[offset] % 32, offset + 1)
    else
      var head :- Argument(data, offset + 1, data[offset] % 32);
      Content(data, head.end, depth, maxItems, data[offset] / 32, head.value)
  }

  function Simple(additional: nat, end: nat): Result<Read<Value>, Error> {
    if additional == 20 then Ok(Read(Bool(false), end))
    else if additional == 21 then Ok(Read(Bool(true), end))
    else if additional == 22 then Ok(Read(Null, end))
    else Err(ForbiddenSimple)
  }

  /** What follows a head with this major type and argument. */
  function Content(data: seq<Byte>, offset: nat, depth: nat, maxItems: nat, major: nat, argument: nat)
    : (r: Result<Read<Value>, Error>)
    requires offset <= |data| && major < 7
    ensures r.Ok? ==> offset <= r.value.end <= |data|
    decreases |data| - offset, 3, 0
  {
    if major == 0 then Ok(Read(Int(argument), offset))
    else if major == 1 then Ok(Read(Int(-1 - argument), offset))
    else if major == 2 || major == 3 then String(data, offset, major, argument)
    else if major == 4 then
      if argument > maxItems then Err(TooManyItems)
      else
        var list :- Items(data, offset, depth + 1, maxItems, argument);
        Ok(Read(List(list.value), list.end))
    else if major == 5 then
      if argument > maxItems then Err(TooManyEntries)
      else
        var entries :- Entries(data, offset, depth + 1, maxItems, argument, None, {});
        Ok(Read(Map(entries.value), entries.end))
    else if argument != 42 then Err(ForbiddenTag)
    else
      var link :- Item(data, offset, depth + 1, maxItems);
      Link(link)
  }

  function String(data: seq<Byte>, offset: nat, major: nat, length: nat): (r: Result<Read<Value>, Error>)
    requires offset <= |data|
    ensures r.Ok? ==> offset <= r.value.end <= |data|
  {
    var end := offset + length;
    if end > |data| then Err(TruncatedString)
    else if major == 2 then Ok(Read(Bytes(data[offset..end]), end))
    else if WellFormedUtf8(data[offset..end]) then Ok(Read(Text(data[offset..end]), end))
    else Err(InvalidUtf8)
  }

  /** A CID is a tag-42 byte string with a leading zero byte. */
  function Link(link: Read<Value>): Result<Read<Value>, Error> {
    if link.value.Bytes? && |link.value.bytes| >= 2 && link.value.bytes[0] == 0
    then Ok(Read(Cid(link.value.bytes[1..]), link.end))
    else Err(InvalidCidTag)
  }

  /** `count` consecutive items. */
  function Items(data: seq<Byte>, offset: nat, depth: nat, maxItems: nat, count: nat)
    : (r: Result<Read<seq<Value>>, Error>)
    requires offset <= |data|
    ensures r.Ok? ==> offset <= r.value.end <= |data|
    decreases |data| - offset, 1, count
  {
    if count == 0 then Ok(Read([], offset))
    else
      var item :- Item(data, offset, depth, maxItems);
      var rest :- Items(data, item.end, depth, maxItems, count - 1);
      Ok(Read([item.value] + rest.value, rest.end))
  }

  /** `count` consecutive map entries, after the keys in `seen`, the last of which encodes to `previous`. */
  function Entries(data: seq<Byte>, offset: nat, depth: nat, maxItems: nat, count: nat,
                   previous: Option<seq<Byte>>, seen: set<seq<Byte>>)
    : (r: Result<Read<seq<Entry>>, Error>)
    requires offset <= |data|
    ensures r.Ok? ==> offset <= r.value.end <= |data|
    decreases |data| - offset, 2, count
  {
    if count == 0 then Ok(Read([], offset))
    else
      var entry :- OneEntry(data, offset, depth, maxItems, previous, seen);
      var rest :- Entries(data, entry.end, depth, maxItems, count - 1,
                          Some(KeyEncoding(entry.value.key)), seen + {entry.value.key});
      Ok(Read([entry.value] + rest.value, rest.end))
  }

  function OneEntry(data: seq<Byte>, offset: nat, depth: nat, maxItems: nat,
                    previous: Option<seq<Byte>>, seen: set<seq<Byte>>)
    : (r: Result<Read<Entry>, Error>)
    requires offset <= |data|
    ensures r.Ok? ==> offset < r.value.end <= |data|
    decreases |data| - offset, 1, 0
  {
    var key :- Item(data, offset, depth, maxItems);
    if !key.value.Text? then Err(KeyNotText)
    else if !Above(previous, data[offset..key.end]) then Err(KeyOrder)
    else if key.value.utf8 in seen then Err(DuplicateKey)
    else
      var value :- Item(data, key.end, depth, maxItems);
      Ok(Read(Entry(key.value.utf8, value.value), value.end))
  }

  predicate Above(previous: Option<seq<Byte>>, encoding: seq<Byte>) {
    previous.Some? ==> LexLess(previous.value, encoding)
  }

  /** A whole buffer that must hold exactly one item. */
  function Decode(data: seq<Byte>, maxItems: nat): (r: Result<Value, Error>)
  {
    var item :- Item(data, 0, 0, maxItems);
    if item.end != |data| then Err(TrailingData) else Ok(item.value)
  }

  // ------------------------------------------------------------- the encoder

  /** The number of bytes the shortest form of an argument takes after the initial byte. */
  function Width(n: nat): (w: nat)
    ensures w == 0 || w == 1 || w == 2 || w == 4 || w == 8
  {
    if n < 24 then 0 else if n < 0x100 then 1 else if n < TWO_TO_16 then 2 else if n < TWO_TO_32 then 4 else 8
  }

  /** The shortest head for an argument (RFC 8949 section 4.2.1). */
  function Head(major: nat, n: nat): (s: seq<Byte>)
    requires major < 8
    ensures |s| == 1 + Width(n) && s[0] / 32 == major
  {
    [major * 32 + Additional(n)] + BigEndian(n, Width(n))
  }

  function Additional(n: nat): (a: nat)
    ensures a < 32
  {
    var w := Width(n);
    if w == 0 then n else if w == 1 then 24 else if w == 2 then 25 else if w == 4 then 26 else 27
  }

  function KeyEncoding(key: seq<Byte>): seq<Byte> {
    Head(3, |key|) + key
  }

  function Encode(v: Value): (s: seq<Byte>)
    ensures |s| > 0
    decreases v
  {
    match v
    case Bool(flag) => [if flag then 0xF5 else 0xF4]
    case Null => [0xF6]
    case Int(n) => if n >= 0 then Head(0, n) else Head(1, -1 - n)
    case Bytes(s) => Head(2, |s|) + s
    case Text(s) => KeyEncoding(s)
    case List(items) => Head(4, |items|) + EncodeItems(items)
    case Map(entries) => Head(5, |entries|) + EncodeEntries(entries)
    case Cid(raw) => Head(6, 42) + (Head(2, |raw| + 1) + ([0] + raw))
  }

  function EncodeItems(items: seq<Value>): seq<Byte>
    decreases items
  {
    if items == [] then [] else Encode(items[0]) + EncodeItems(items[1..])
  }

  function EncodeEntries(entries: seq<Entry>): seq<Byte>
    decreases entries
  {
    if entries == [] then []
    else EncodeEntry(entries[0]) + EncodeEntries(entries[1..])
  }

  function EncodeEntry(e: Entry): seq<Byte>
    decreases e
  {
    KeyEncoding(e.key) + Encode(e.value)
  }

  /** Keys in strictly increasing order of their encodings, all above `previous`. */
  predicate Ascending(previous: Option<seq<Byte>>, entries: seq<Entry>)
    decreases |entries|
  {
    entries == []
    || (&& Above(previous, KeyEncoding(entries[0].key))
        && Ascending(Some(KeyEncoding(entries[0].key)), entries[1..]))
  }

  /** The values the decoder can produce `depth` levels below the root. */
  predicate Canonical(v: Value, depth: nat, maxItems: nat)
    decreases v
  {
    && depth <= 32
    && match v
       case Bool(_) => true
       case Null => true
       case Int(n) => -TWO_TO_64 <= n < TWO_TO_64
       case Bytes(s) => |s| < TWO_TO_64
       case Text(s) => |s| < TWO_TO_64 && WellFormedUtf8(s)
       case List(items) =>
         && |items| <= maxItems && |items| < TWO_TO_64
         && forall i | 0 <= i < |items| :: Canonical(items[i], depth + 1, maxItems)
       case Map(entries) =>
         && |entries| <= maxItems && |entries| < TWO_TO_64
         && Ascending(None, entries)
         && forall i | 0 <= i < |entries| :: CanonicalEntry(entries[i], depth + 1, maxItems)
       case Cid(raw) => depth < 32 && 0 < |raw| < TWO_TO_64 - 1
  }

  predicate CanonicalEntry(e: Entry, depth: nat, maxItems: nat)
    decreases e
  {
    && depth <= 32 && |e.key| < TWO_TO_64 && WellFormedUtf8(e.key)
    && Canonical(e.value, depth, maxItems)
  }

  // ---------------------------------------------------------- heads round-trip

  lemma WidthBounds(n: nat, width: nat)
    requires width == 1 || width == 2 || width == 4 || width == 8
    ensures Width(n) == width && n < TWO_TO_64 <==> Minimum(width) <= n < Pow(256, width)
  {
    Pow256Values();
  }

  lemma InitialByte(b: Byte, major: nat, additional: nat)
    requires additional < 32
    ensures b == major * 32 + additional <==> b / 32 == major && b % 32 == additional
  {
  }

  /** The argument reader accepts nothing but the shortest head. */
  lemma ArgumentIsShortest(data: seq<Byte>, offset: nat)
    requires offset < |data|
    ensures var r := Argument(data, offset + 1, data[offset] % 32);
            r.Ok? ==>
              var head := Head(data[offset] / 32, r.value.value);
              r.value.value < TWO_TO_64 && r.value.end == offset + |head| && HasAt(data, offset, head)
  {
    hide BigEndian, FromBigEndian, Pow, HasAt;
    var major, additional := data[offset] / 32, data[offset] % 32;
    var r := Argument(data, offset + 1, additional);
    InitialByte(data[offset], major, additional);
    HasAtByte(data, offset, data[offset]);
    if r.Ok? && additional >= 24 {
      var width := ArgumentWidth(additional);
      var digits := data[offset + 1..offset + 1 + width];
      BigEndianOfFromBigEndian(digits);
      WidthBounds(r.value.value, width);
      HasAtSlice(data, offset + 1, width);
      HasAtConcat(data, offset, [data[offset]], digits);
    } else if r.Ok? {
      assert BigEndian(r.value.value, 0) == [];
      assert Head(major, r.value.value) == [data[offset]];
    }
  }

  /** The argument reader accepts every shortest head. */
  lemma ShortestIsRead(data: seq<Byte>, offset: nat, major: nat, n: nat)
    requires major < 8 && n < TWO_TO_64 && HasAt(data, offset, Head(major, n))
    ensures offset < |data| && data[offset] / 32 == major
    ensures Argument(data, offset + 1, data[offset] % 32) == Ok(Read(n, offset + |Head(major, n)|))
  {
    hide BigEndian, FromBigEndian, Pow;
    var initial, width := major * 32 + Additional(n), Width(n);
    HasAtConcat(data, offset, [initial], BigEndian(n, width));
    HasAtByte(data, offset, initial);
    InitialByte(initial, major, Additional(n));
    if n >= 24 {
      WidthBounds(n, width);
      FromBigEndianOfBigEndian(n, width);
    }
  }
}
