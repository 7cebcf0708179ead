/**
 The two readers of single-block CARv1 files: the launch-policy reader and the
 onboarding reader, which has wider limits and other error cases.

 The file an accepting reader saw is completely determined: it is `BuildCar` of the
 header's version item and the block (`LaunchAccepts`, `OnboardingAccepts`). That
 gives uniqueness of the file (`SameBlockSameFile`, `SameRootSameBlock`) and the exact
 relation between the readers (`ReadersAgree`).
 */
module CarReaders {
  import opened ByteStrings
  import opened DagCbor
  import opened DagCborCanonical
  import opened DagCborKeys
  import opened Uvarint

  const CID_PREFIX: seq<Byte> := [1, 0x71, 0x12, 32]
  const ROOTS: seq<Byte> := [114, 111, 111, 116, 115]
  const VERSION: seq<Byte> := [118, 101, 114, 115, 105, 111, 110]

  const LAUNCH_MAX_HEADER: nat := 4 * 1024
  const LAUNCH_MAX_ITEMS: nat := 1024
  const ONBOARDING_MAX_CAR: nat := 64 * 1024 * 1024
  const ONBOARDING_MAX_HEADER: nat := 16 * 1024
  const ONBOARDING_MAX_ITEMS: nat := 16384

  datatype CarError =
    | TooLarge
    | Varint(varint: Uvarint.Error)
    | HeaderLength
    | HeaderTruncated
    | Cbor(cbor: DagCbor.Error)
    | HeaderKeys
    | NotOneRoot
    | RootNotCid
    | CidProfile
    | BlockInvalid
    | NotOneBlock
    | RootBlockNotFirst
    | RootMismatch
    | RootNotObject

  datatype Car = Car(root: seq<Byte>, value: Value, block: seq<Byte>)

  function MapVarint<T>(r: Result<T, Uvarint.Error>): Result<T, CarError> {
    if r.Ok? then Ok(r.value) else Err(Varint(r.error))
  }

  function MapCbor<T>(r: Result<T, DagCbor.Error>): Result<T, CarError> {
    if r.Ok? then Ok(r.value) else Err(Cbor(r.error))
  }

  /** `dict.get`. */
  function Lookup(entries: seq<Entry>, key: seq<Byte>): Option<Value> {
    if entries == [] then None
    else if entries[0].key == key then Some(entries[0].value)
    else Lookup(entries[1..], key)
  }

  /** `value == 1` in Python, where `True == 1`. */
  predicate EqualsOne(v: Option<Value>) {
    v == Some(Int(1)) || v == Some(Bool(true))
  }

  /** The root CID a decoded header declares, or why it is not a strict CARv1 header. */
  function HeaderRoot(header: Value): Result<seq<Byte>, CarError> {
    if !header.Map? || Keys(header.entries) != {ROOTS, VERSION} then Err(HeaderKeys)
    else
      var roots := Lookup(header.entries, ROOTS);
      if !EqualsOne(Lookup(header.entries, VERSION)) || !roots.Some? || !roots.value.List? || |roots.value.items| != 1
      then Err(NotOneRoot)
      else
        var root := roots.value.items[0];
        if !root.Cid? then Err(RootNotCid)
        else if |root.raw| != 36 || root.raw[..4] != CID_PREFIX then Err(CidProfile)
        else Ok(root.raw)
  }

  /** The header at the front of a file: the root it declares, and where it ends. */
  function Header(raw: seq<Byte>, maxHeader: nat, maxItems: nat): (r: Result<Read<seq<Byte>>, CarError>)
    ensures r.Ok? ==> r.value.end <= |raw| && |r.value.value| == 36
  {
    var length :- MapVarint(ReadUvarint(raw, 0));
    if length.value < 1 || length.value > maxHeader then Err(HeaderLength)
    else
      var end := length.end + length.value;
      if end > |raw| then Err(HeaderTruncated)
      else
        var header :- MapCbor(Decode(raw[length.end..end], maxItems));
        var root :- HeaderRoot(header);
        Ok(Read(root, end))
  }

  /** `load_single_block_dag_cbor_car` of the launch policy. */
  function LaunchCar(raw: seq<Byte>, maximum: nat, hash: Hash): Result<Car, CarError> {
    if |raw| > maximum then Err(TooLarge)
    else
      var header :- Header(raw, LAUNCH_MAX_HEADER, LAUNCH_MAX_ITEMS);
      var root := header.value;
      var section :- MapVarint(ReadUvarint(raw, header.end));
      var end := section.end + section.value;
      if section.value <= |root| || end > |raw| then Err(BlockInvalid)
      else if end != |raw| then Err(NotOneBlock)
      else if raw[section.end..section.end + |root|] != root then Err(RootBlockNotFirst)
      else
        var block := raw[section.end + |root|..end];
        if CID_PREFIX + hash(block) != root then Err(RootMismatch)
        else
          var value :- MapCbor(Decode(block, LAUNCH_MAX_ITEMS));
          Ok(Car(root, value, block))
  }

  /** `_load_single_block_dag_cbor_car` of the onboarding script. */
  function OnboardingCar(raw: seq<Byte>, hash: Hash): Result<Car, CarError> {
    if |raw| > ONBOARDING_MAX_CAR then Err(TooLarge)
    else
      var header :- Header(raw, ONBOARDING_MAX_HEADER, ONBOARDING_MAX_ITEMS);
      var root := header.value;
      var section :- MapVarint(ReadUvarint(raw, header.end));
      if section.value <= |root| || section.end + section.value != |raw| then Err(NotOneBlock)
      else
        var block := raw[section.end + |root|..];
        if raw[section.end..section.end + |root|] != root || CID_PREFIX + hash(block) != root then Err(RootMismatch)
        else
          var value :- MapCbor(Decode(block, ONBOARDING_MAX_ITEMS));
          if !value.Map? then Err(RootNotObject) else Ok(Car(root, value, block))
  }

  // ------------------------------------------------------- the writer

  function RootCid(block: seq<Byte>, hash: Hash): (cid: seq<Byte>)
    ensures |cid| == 36 && cid[..4] == CID_PREFIX
  {
    CID_PREFIX + hash(block)
  }

  /** The only header that can declare `root` with this version item. */
  function HeaderValue(root: seq<Byte>, version: Value): Value {
    Map([Entry(ROOTS, List([Cid(root)])), Entry(VERSION, version)])
  }

  function HeaderSection(root: seq<Byte>, version: Value): seq<Byte> {
    var header := Encode(HeaderValue(root, version));
    Leb128(|header|) + header
  }

  function BlockSection(root: seq<Byte>, block: seq<Byte>): seq<Byte> {
    Leb128(|root| + |block|) + (root + block)
  }

  function BuildCar(version: Value, block: seq<Byte>, hash: Hash): seq<Byte> {
    var root := RootCid(block, hash);
    HeaderSection(root, version) + BlockSection(root, block)
  }

  // --------------------------------------------------- header values

  lemma KeyFacts()
    ensures ROOTS != VERSION
    ensures WellFormedUtf8(ROOTS) && WellFormedUtf8(VERSION)
    ensures LexLess(KeyEncoding(ROOTS), KeyEncoding(VERSION))
  {
    assert ROOTS[0] != VERSION[0];
    Ascii(ROOTS);
    Ascii(VERSION);
    KeyOrderIsLengthFirst(ROOTS, VERSION);
  }

  lemma {:induction false} Ascii(s: seq<Byte>)
    requires forall i | 0 <= i < |s| :: s[i] < 0x80
    ensures WellFormedUtf8(s)
  {
    if s != [] {
      Ascii(s[1..]);
    }
  }

  /** Of the two key orders only one is canonical, so the header's entries are fixed. */
  lemma HeaderIsFixed(header: Value, maxItems: nat)
    requires Canonical(header, 0, maxItems) && HeaderRoot(header).Ok?
    ensures exists version :: EqualsOne(Some(version)) && header == HeaderValue(HeaderRoot(header).value, version)
  {
    hide WellFormedUtf8, LexLess, KeyEncoding, Head;
    KeyFacts();
    var entries := header.entries;
    var model := [Entry(ROOTS, Null), Entry(VERSION, Null)];
    assert Keys(model) == {ROOTS, VERSION} by {
      assert model[0].key in Keys(model) && model[1].key in Keys(model);
    }
    AscendingPair(ROOTS, VERSION);
    KeySetFixesOrder(None, entries, None, model);
    assert Lookup(entries[1..], VERSION) == Some(entries[1].value);
    var version := entries[1].value;
    assert entries == [entries[0], entries[1]];
    assert entries[0].value.items == [Cid(HeaderRoot(header).value)];
    assert header == HeaderValue(HeaderRoot(header).value, version);
  }

  lemma AscendingPair(a: seq<Byte>, b: seq<Byte>)
    requires LexLess(KeyEncoding(a), KeyEncoding(b))
    ensures forall v, w :: Ascending(None, [Entry(a, v), Entry(b, w)])
  {
    forall v, w ensures Ascending(None, [Entry(a, v), Entry(b, w)]) {
      assert [Entry(a, v), Entry(b, w)][1..] == [Entry(b, w)];
      assert [Entry(b, w)][1..] == [];
    }
  }

  /** Every header of this form is canonical and declares its root. */
  lemma HeaderIsRead(root: seq<Byte>, version: Value, maxItems: nat)
    requires EqualsOne(Some(version)) && |root| == 36 && root[..4] == CID_PREFIX && maxItems >= 2
    ensures Canonical(HeaderValue(root, version), 0, maxItems)
    ensures HeaderRoot(HeaderValue(root, version)) == Ok(root)
  {
    hide WellFormedUtf8, LexLess, KeyEncoding, Head;
    KeyFacts();
    AscendingPair(ROOTS, VERSION);
    var entries := HeaderValue(root, version).entries;
    assert entries[0].key in Keys(entries) && entries[1].key in Keys(entries);
    assert Keys(entries) == {ROOTS, VERSION};
    assert Lookup(entries[1..], VERSION) == Some(version);
    assert CanonicalEntry(entries[0], 1, maxItems) by {
      assert Canonical(Cid(root), 2, maxItems);
    }
    assert CanonicalEntry(entries[1], 1, maxItems);
  }

  lemma KeyLengths()
    ensures |KeyEncoding(ROOTS)| == 6 && |KeyEncoding(VERSION)| == 8
  {
  }

  /** Every strict header takes 58 bytes, so neither reader's header limit matters. */
  lemma HeaderSize(root: seq<Byte>, version: Value)
    requires EqualsOne(Some(version)) && |root| == 36
    ensures |Encode(HeaderValue(root, version))| == 58
  {
    hide KeyEncoding;
    KeyLengths();
    var entries := HeaderValue(root, version).entries;
    ConsEntries(entries[0], entries[1..], None);
    ConsEntries(entries[1], [], None);
    assert entries == [entries[0]] + entries[1..] && entries[1..] == [entries[1]] + [];
    ConsItems(Cid(root), []);
    assert [Cid(root)] == [Cid(root)] + [];
    assert |Encode(Cid(root))| == 41;
    assert |Encode(List([Cid(root)]))| == 42;
    assert |Encode(version)| == 1;
  }

  const HEADER_START: seq<Byte> :=
    [0xA2, 0x65, 'r' as int, 'o' as int, 'o' as int, 't' as int, 's' as int, 0x81, 0xD8, 0x2A, 0x58, 0x25, 0x00]
  const HEADER_END: seq<Byte> :=
    [0x67, 'v' as int, 'e' as int, 'r' as int, 's' as int, 'i' as int, 'o' as int, 'n' as int]

  lemma CidBytes(root: seq<Byte>)
    requires |root| == 36
    ensures Encode(Cid(root)) == [0xD8, 0x2A, 0x58, 0x25, 0x00] + root
  {
    assert Head(6, 42) == [0xD8, 0x2A] && Head(2, 37) == [0x58, 0x25];
  }

  lemma RootsKey()
    ensures KeyEncoding(ROOTS) + [0x81, 0xD8, 0x2A, 0x58, 0x25, 0x00] == HEADER_START[1..]
  {
    assert KeyEncoding(ROOTS) == [0x65] + ROOTS;
  }

  lemma RootsBytes(root: seq<Byte>)
    requires |root| == 36
    ensures KeyEncoding(ROOTS) + Encode(List([Cid(root)])) == HEADER_START[1..] + root
  {
    hide KeyEncoding, HEADER_START;
    CidBytes(root);
    RootsKey();
    ConsItems(Cid(root), []);
    assert [Cid(root)] == [Cid(root)] + [];
    assert Encode(List([Cid(root)])) == [0x81] + Encode(Cid(root));
    assert [0x81] + ([0xD8, 0x2A, 0x58, 0x25, 0x00] + root) == [0x81, 0xD8, 0x2A, 0x58, 0x25, 0x00] + root;
  }

  lemma TwoEntries(a: Entry, b: Entry)
    ensures Encode(Map([a, b])) == [0xA2] + (EncodeEntry(a) + EncodeEntry(b))
  {
    hide KeyEncoding, EncodeEntry;
    assert [a, b] == [a] + [b] && [b] == [b] + [];
    ConsEntries(a, [b], None);
    ConsEntries(b, [], None);
    assert Head(5, 2) == [0xA2];
  }

  /** The bytes of the header: a map of two, the root under "roots" and the version item under "version". */
  lemma HeaderBytes(root: seq<Byte>, version: Value)
    requires |root| == 36
    ensures Encode(HeaderValue(root, version)) == HEADER_START + root + (HEADER_END + Encode(version))
  {
    hide KeyEncoding, Encode;
    TwoEntries(Entry(ROOTS, List([Cid(root)])), Entry(VERSION, version));
    RootsBytes(root);
    VersionBytes();
    assert HEADER_START == [0xA2] + HEADER_START[1..];
  }

  lemma VersionBytes()
    ensures KeyEncoding(VERSION) == HEADER_END
  {
  }

  lemma SectionBytes(root: seq<Byte>, version: Value)
    requires EqualsOne(Some(version)) && |root| == 36
    ensures HeaderSection(root, version) == [58] + (HEADER_START + root + (HEADER_END + Encode(version)))
  {
    hide HeaderValue, Encode, HEADER_START, HEADER_END;
    HeaderBytes(root, version);
    HeaderSize(root, version);
    assert Leb128(58) == [58];
  }

  lemma VersionItems()
    ensures Encode(Int(1)) == [0x01] && Encode(Bool(true)) == [0xF5]
  {
  }

  /** The bytes of a file with this block and version item. */
  lemma FileBytes(version: Value, block: seq<Byte>, hash: Hash)
    requires version == Int(1) || version == Bool(true)
    ensures var root := [1, 0x71, 0x12, 32] + hash(block);
            var header := HEADER_START + root + (HEADER_END + [if version == Int(1) then 0x01 else 0xF5]);
            BuildCar(version, block, hash) == ([58] + header) + (Leb128(36 + |block|) + (root + block))
  {
    hide HeaderSection, Encode, Leb128, HEADER_START, HEADER_END;
    VersionItems();
    SectionBytes(RootCid(block, hash), version);
  }

  /** `raw` starts with the one strict header for `root` and this version item. */
  ghost predicate StartsWithHeader(raw: seq<Byte>, root: seq<Byte>, end: nat, version: Value) {
    && EqualsOne(Some(version)) && |root| == 36 && root[..4] == CID_PREFIX
    && HasAt(raw, 0, HeaderSection(root, version)) && end == |HeaderSection(root, version)|
  }

  lemma HeaderSound(raw: seq<Byte>, maxHeader: nat, maxItems: nat)
    requires Header(raw, maxHeader, maxItems).Ok?
    ensures var r := Header(raw, maxHeader, maxItems).value;
            exists version :: StartsWithHeader(raw, r.value, r.end, version)
  {
    hide ReadFrom, Item, Canonical, Encode, EqualsOne, Leb128, HeaderValue, Keys;
    var r := Header(raw, maxHeader, maxItems).value;
    var length := ReadUvarint(raw, 0).value;
    ReadIffMinimal(raw, 0, length.value, length.end);
    var bytes := raw[length.end..r.end];
    var header := Decode(bytes, maxItems).value;
    DecodeIffEncoding(bytes, maxItems, header);
    HeaderIsFixed(header, maxItems);
    var version :| EqualsOne(Some(version)) && header == HeaderValue(r.value, version);
    HasAtSlice(raw, length.end, length.value);
    HasAtConcat(raw, 0, Leb128(length.value), bytes);
    assert StartsWithHeader(raw, r.value, r.end, version);
  }

  lemma HeaderComplete(raw: seq<Byte>, root: seq<Byte>, end: nat, version: Value, maxHeader: nat, maxItems: nat)
    requires maxHeader >= 58 && maxItems >= 2
    requires StartsWithHeader(raw, root, end, version)
    ensures Header(raw, maxHeader, maxItems) == Ok(Read(root, end))
  {
    hide ReadFrom, Item, Canonical, Encode, EqualsOne, Leb128, HeaderValue, Keys, HeaderRoot, ReadUvarint, Decode;
    var header := HeaderValue(root, version);
    var bytes := Encode(header);
    HeaderSize(root, version);
    HasAtConcat(raw, 0, Leb128(58), bytes);
    ReadIffMinimal(raw, 0, 58, |Leb128(58)|);
    HeaderIsRead(root, version, maxItems);
    DecodeIffEncoding(bytes, maxItems, header);
    assert raw[|Leb128(58)|..|Leb128(58)| + 58] == bytes;
  }

  /** The block section at `start` takes up the rest of the file. */
  lemma BlockSectionSound(raw: seq<Byte>, start: nat, root: seq<Byte>)
    requires start <= |raw| && ReadUvarint(raw, start).Ok?
    requires var section := ReadUvarint(raw, start).value;
             && section.value > |root| && section.end + section.value == |raw|
             && raw[section.end..section.end + |root|] == root
    ensures var block := raw[ReadUvarint(raw, start).value.end + |root|..];
            raw[start..] == BlockSection(root, block)
  {
    hide ReadFrom, ReadUvarint, Leb128;
    var section := ReadUvarint(raw, start).value;
    ReadIffMinimal(raw, start, section.value, section.end);
    var block := raw[section.end + |root|..];
    assert raw[section.end..] == root + block;
    assert raw[start..] == raw[start..section.end] + raw[section.end..];
  }

  lemma BlockSectionComplete(raw: seq<Byte>, start: nat, root: seq<Byte>, block: seq<Byte>)
    requires start <= |raw| && raw[start..] == BlockSection(root, block) && |raw| < TWO_TO_64
    ensures ReadUvarint(raw, start) == Ok(Read(|root| + |block|, |raw| - |root| - |block|))
    ensures var end := |raw| - |root| - |block|;
            && raw[end..end + |root|] == root
            && raw[end + |root|..] == block
  {
    hide ReadFrom, ReadUvarint, Leb128;
    var length := Leb128(|root| + |block|);
    assert raw[start..start + |length|] == raw[start..][..|length|] == length;
    ReadIffMinimal(raw, start, |root| + |block|, start + |length|);
    var end := start + |length|;
    assert raw[end..] == raw[start..][|length|..] == root + block;
    assert raw[end..end + |root|] == raw[end..][..|root|];
    assert raw[end + |root|..] == raw[end..][|root|..];
  }

  /** `raw` is the file with this block and version item, and `car` is what it holds. */
  ghost predicate Built(raw: seq<Byte>, hash: Hash, car: Car, maxItems: nat, version: Value) {
    && (version == Int(1) || version == Bool(true))
    && raw == BuildCar(version, car.block, hash)
    && car.root == [1, 0x71, 0x12, 32] + hash(car.block)
    && Decode(car.block, maxItems) == Ok(car.value)
  }

  /** What both readers establish, put together. */
  lemma Assemble(raw: seq<Byte>, hash: Hash, car: Car, maxItems: nat, end: nat)
    requires end <= |raw| && car.root == RootCid(car.block, hash) && Decode(car.block, maxItems) == Ok(car.value)
    requires exists version :: StartsWithHeader(raw, car.root, end, version)
    requires raw[end..] == BlockSection(car.root, car.block)
    ensures exists version :: Built(raw, hash, car, maxItems, version)
  {
    hide Decode, HeaderSection, BlockSection;
    var version :| StartsWithHeader(raw, car.root, end, version);
    assert raw == raw[..end] + raw[end..];
    assert raw[0..end] == raw[..end];
    assert Built(raw, hash, car, maxItems, version);
  }

  lemma Disassemble(raw: seq<Byte>, hash: Hash, car: Car, maxItems: nat, version: Value)
    requires Built(raw, hash, car, maxItems, version)
    ensures var end := |HeaderSection(car.root, version)|;
            && end <= |raw| && |car.block| > 0
            && StartsWithHeader(raw, car.root, end, version)
            && raw[end..] == BlockSection(car.root, car.block)
  {
    hide Item, HeaderSection, BlockSection;
    var head := HeaderSection(car.root, version);
    assert raw[0..|head|] == head;
  }

  /** The launch-policy reader accepts exactly the files `BuildCar` writes. */
  lemma LaunchAccepts(raw: seq<Byte>, maximum: nat, hash: Hash, car: Car)
    requires maximum < TWO_TO_64
    ensures LaunchCar(raw, maximum, hash) == Ok(car)
       <==> |raw| <= maximum && exists version :: Built(raw, hash, car, 1024, version)
  {
    hide Decode, Header, ReadUvarint, StartsWithHeader, BlockSection, Built;
    if LaunchCar(raw, maximum, hash) == Ok(car) {
      HeaderSound(raw, LAUNCH_MAX_HEADER, LAUNCH_MAX_ITEMS);
      var end := Header(raw, LAUNCH_MAX_HEADER, LAUNCH_MAX_ITEMS).value.end;
      assert raw[ReadUvarint(raw, end).value.end + |car.root|..|raw|] == raw[ReadUvarint(raw, end).value.end + |car.root|..];
      BlockSectionSound(raw, end, car.root);
      Assemble(raw, hash, car, LAUNCH_MAX_ITEMS, end);
    }
    if |raw| <= maximum && exists version :: Built(raw, hash, car, LAUNCH_MAX_ITEMS, version) {
      var version :| Built(raw, hash, car, LAUNCH_MAX_ITEMS, version);
      LaunchReadsBuilt(raw, maximum, hash, car, version);
    }
  }

  lemma LaunchReadsBuilt(raw: seq<Byte>, maximum: nat, hash: Hash, car: Car, version: Value)
    requires |raw| <= maximum < TWO_TO_64 && Built(raw, hash, car, LAUNCH_MAX_ITEMS, version)
    ensures LaunchCar(raw, maximum, hash) == Ok(car)
  {
    hide Decode, Header, ReadUvarint, StartsWithHeader, BlockSection, BuildCar, HeaderSection;
    Disassemble(raw, hash, car, LAUNCH_MAX_ITEMS, version);
    var end := |HeaderSection(car.root, version)|;
    HeaderComplete(raw, car.root, end, version, LAUNCH_MAX_HEADER, LAUNCH_MAX_ITEMS);
    BlockSectionComplete(raw, end, car.root, car.block);
    assert raw[|raw| - |car.block|..|raw|] == raw[|raw| - |car.block|..];
  }

  /** The onboarding reader accepts exactly the files `BuildCar` writes whose block is a map. */
  lemma OnboardingAccepts(raw: seq<Byte>, hash: Hash, car: Car)
    ensures OnboardingCar(raw, hash) == Ok(car)
       <==> |raw| <= 64 * 1024 * 1024 && car.value.Map?
            && exists version :: Built(raw, hash, car, 16384, version)
  {
    hide Decode, Header, ReadUvarint, StartsWithHeader, BlockSection, Built;
    if OnboardingCar(raw, hash) == Ok(car) {
      HeaderSound(raw, ONBOARDING_MAX_HEADER, ONBOARDING_MAX_ITEMS);
      var end := Header(raw, ONBOARDING_MAX_HEADER, ONBOARDING_MAX_ITEMS).value.end;
      BlockSectionSound(raw, end, car.root);
      Assemble(raw, hash, car, ONBOARDING_MAX_ITEMS, end);
    }
    if |raw| <= ONBOARDING_MAX_CAR && car.value.Map?
       && exists version :: Built(raw, hash, car, ONBOARDING_MAX_ITEMS, version) {
      var version :| Built(raw, hash, car, ONBOARDING_MAX_ITEMS, version);
      OnboardingReadsBuilt(raw, hash, car, version);
    }
  }

  lemma OnboardingReadsBuilt(raw: seq<Byte>, hash: Hash, car: Car, version: Value)
    requires |raw| <= ONBOARDING_MAX_CAR && car.value.Map? && Built(raw, hash, car, ONBOARDING_MAX_ITEMS, version)
    ensures OnboardingCar(raw, hash) == Ok(car)
  {
    hide Decode, Header, ReadUvarint, StartsWithHeader, BlockSection, BuildCar, HeaderSection;
    Disassemble(raw, hash, car, ONBOARDING_MAX_ITEMS, version);
    var end := |HeaderSection(car.root, version)|;
    HeaderComplete(raw, car.root, end, version, ONBOARDING_MAX_HEADER, ONBOARDING_MAX_ITEMS);
    BlockSectionComplete(raw, end, car.root, car.block);
  }

  // ------------------------------------------------------- main results

  /** The version item an accepted file's header carries. */
  ghost predicate HeaderVersion(raw: seq<Byte>, version: Value) {
    exists root, end :: StartsWithHeader(raw, root, end, version)
  }

  /** At one position stands one header. */
  lemma HeaderVersionUnique(raw: seq<Byte>, root: seq<Byte>, end: nat, version: Value, other: Value)
    requires StartsWithHeader(raw, root, end, version) && HeaderVersion(raw, other)
    ensures version == other
  {
    hide Encode, Leb128, EqualsOne, Canonical;
    var root', end' :| StartsWithHeader(raw, root', end', other);
    var a, b := Encode(HeaderValue(root, version)), Encode(HeaderValue(root', other));
    HeaderSize(root, version);
    HeaderSize(root', other);
    HasAtConcat(raw, 0, Leb128(58), a);
    HasAtConcat(raw, 0, Leb128(58), b);
    assert a == b;
    HeaderIsRead(root, version, 2);
    HeaderIsRead(root', other, 2);
    DecodeIffEncoding(a, 2, HeaderValue(root, version));
    DecodeIffEncoding(a, 2, HeaderValue(root', other));
  }

  /** Two accepted files with the same block and the same header version item are byte-identical. */
  lemma SameBlockSameFile(raw: seq<Byte>, raw': seq<Byte>, maximum: nat, hash: Hash, version: Value)
    requires maximum < TWO_TO_64
    requires LaunchCar(raw, maximum, hash).Ok? && LaunchCar(raw', maximum, hash).Ok?
    requires LaunchCar(raw, maximum, hash).value.block == LaunchCar(raw', maximum, hash).value.block
    requires HeaderVersion(raw, version) && HeaderVersion(raw', version)
    ensures raw == raw'
  {
    hide LaunchCar, BuildCar, Decode, HeaderVersion, StartsWithHeader, RootCid, EqualsOne;
    var car, car' := LaunchCar(raw, maximum, hash).value, LaunchCar(raw', maximum, hash).value;
    LaunchAccepts(raw, maximum, hash, car);
    LaunchAccepts(raw', maximum, hash, car');
    var v :| Built(raw, hash, car, LAUNCH_MAX_ITEMS, v);
    var v' :| Built(raw', hash, car', LAUNCH_MAX_ITEMS, v');
    Disassemble(raw, hash, car, LAUNCH_MAX_ITEMS, v);
    Disassemble(raw', hash, car', LAUNCH_MAX_ITEMS, v');
    HeaderVersionUnique(raw, car.root, |HeaderSection(car.root, v)|, v, version);
    HeaderVersionUnique(raw', car'.root, |HeaderSection(car'.root, v')|, v', version);
  }

  /** Two accepted files that declare the same root hold the same block, or exhibit a hash collision. */
  lemma SameRootSameBlock(raw: seq<Byte>, raw': seq<Byte>, maximum: nat, hash: Hash)
    requires maximum < TWO_TO_64
    requires LaunchCar(raw, maximum, hash).Ok? && LaunchCar(raw', maximum, hash).Ok?
    requires LaunchCar(raw, maximum, hash).value.root == LaunchCar(raw', maximum, hash).value.root
    ensures var a, b := LaunchCar(raw, maximum, hash).value, LaunchCar(raw', maximum, hash).value;
            a == b || (a.block != b.block && hash(a.block) == hash(b.block))
  {
    hide LaunchCar, BuildCar, Decode, HeaderVersion, StartsWithHeader, EqualsOne;
    var a, b := LaunchCar(raw, maximum, hash).value, LaunchCar(raw', maximum, hash).value;
    LaunchAccepts(raw, maximum, hash, a);
    LaunchAccepts(raw', maximum, hash, b);
    var v :| Built(raw, hash, a, LAUNCH_MAX_ITEMS, v);
    var v' :| Built(raw', hash, b, LAUNCH_MAX_ITEMS, v');
    assert hash(a.block) == RootCid(a.block, hash)[4..];
    assert hash(b.block) == RootCid(b.block, hash)[4..];
  }

  /** A file the launch-policy reader accepts with a map is accepted by the onboarding reader with the same
      root, value and block; and the converse holds exactly for files within the launch limits. */
  lemma ReadersAgree(raw: seq<Byte>, maximum: nat, hash: Hash, car: Car)
    requires maximum <= 64 * 1024 * 1024
    ensures LaunchCar(raw, maximum, hash) == Ok(car) && car.value.Map?
       <==> OnboardingCar(raw, hash) == Ok(car) && |raw| <= maximum && Canonical(car.value, 0, LAUNCH_MAX_ITEMS)
  {
    hide LaunchCar, OnboardingCar, BuildCar, Decode, Canonical, RootCid, EqualsOne, Encode;
    LaunchAccepts(raw, maximum, hash, car);
    OnboardingAccepts(raw, hash, car);
    DecodeIffEncoding(car.block, LAUNCH_MAX_ITEMS, car.value);
    DecodeIffEncoding(car.block, ONBOARDING_MAX_ITEMS, car.value);
    if Canonical(car.value, 0, LAUNCH_MAX_ITEMS) {
      CanonicalMonotone(car.value, 0, LAUNCH_MAX_ITEMS, ONBOARDING_MAX_ITEMS);
    }
    if version :| Built(raw, hash, car, LAUNCH_MAX_ITEMS, version) {
      assert Built(raw, hash, car, ONBOARDING_MAX_ITEMS, version);
    }
    if version :| Built(raw, hash, car, ONBOARDING_MAX_ITEMS, version) && Canonical(car.value, 0, LAUNCH_MAX_ITEMS) {
      assert Built(raw, hash, car, LAUNCH_MAX_ITEMS, version);
    }
  }
}
