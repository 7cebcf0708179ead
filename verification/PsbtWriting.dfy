/**
 What the PSBT parser accepts: `DecodeIffWritten` says that these are exactly the
 concatenations of the magic, a global map with the unsigned transaction, and one map
 for each of its inputs and outputs, each a list of distinct nonempty keys with values.

 With the writer, `EmptyWitnessIsSuperfluous` gives a family of PSBTs for which the
 extracted transaction does not have the form BIP 144 prescribes.
 */
module PsbtWriting {
  import opened ByteStrings
  import opened BitcoinWire
  import opened Psbt

  datatype Pair = Pair(key: seq<Byte>, value: seq<Byte>)

  // ------------------------------------------------------------------- one map

  function WriteMap(pairs: seq<Pair>): seq<Byte> {
    if pairs == [] then VarBytes([])
    else VarBytes(pairs[0].key) + (VarBytes(pairs[0].value) + WriteMap(pairs[1..]))
  }

  function Added(done: KeyMap, pairs: seq<Pair>): KeyMap
    decreases |pairs|
  {
    if pairs == [] then done else Added(done[pairs[0].key := pairs[0].value], pairs[1..])
  }

  predicate ValidPair(p: Pair) {
    p.key != [] && ValidString(p.key) && ValidString(p.value)
  }

  /** The keys are distinct, and none is one of `done`. */
  ghost predicate Distinct(done: KeyMap, pairs: seq<Pair>) {
    && (forall i | 0 <= i < |pairs| :: ValidPair(pairs[i]) && pairs[i].key !in done)
    && forall i, j | 0 <= i < j < |pairs| :: pairs[i].key != pairs[j].key
  }

  lemma DistinctIff(done: KeyMap, pairs: seq<Pair>)
    requires pairs != []
    ensures Distinct(done, pairs) <==>
              ValidPair(pairs[0]) && pairs[0].key !in done && Distinct(done[pairs[0].key := pairs[0].value], pairs[1..])
  {
    var rest, more := pairs[1..], done[pairs[0].key := pairs[0].value];
    if ValidPair(pairs[0]) && pairs[0].key !in done && Distinct(more, rest) {
      forall i | 0 < i < |pairs| ensures ValidPair(pairs[i]) && pairs[i].key !in more {
        assert pairs[i] == rest[i - 1];
      }
      forall i, j | 0 < i < j < |pairs| ensures pairs[i].key != pairs[j].key {
        assert pairs[i] == rest[i - 1] && pairs[j] == rest[j - 1];
      }
    }
  }

  lemma {:induction false} MapIsRead(data: seq<Byte>, offset: nat, pairs: seq<Pair>, done: KeyMap)
    requires Distinct(done, pairs) && HasAt(data, offset, WriteMap(pairs))
    ensures ReadMap(data, offset, done) == Ok(Read(Added(done, pairs), offset + |WriteMap(pairs)|))
    decreases |pairs|
  {
    hide VarBytes, ReadVarBytes, HasAt, Distinct;
    if pairs == [] {
      VarBytesComplete(data, offset, []);
    } else {
      var p, rest := pairs[0], pairs[1..];
      DistinctIff(done, pairs);
      HasAtConcat(data, offset, VarBytes(p.key), VarBytes(p.value) + WriteMap(rest));
      HasAtConcat(data, offset + |VarBytes(p.key)|, VarBytes(p.value), WriteMap(rest));
      VarBytesComplete(data, offset, p.key);
      VarBytesComplete(data, offset + |VarBytes(p.key)|, p.value);
      MapIsRead(data, offset + |VarBytes(p.key)| + |VarBytes(p.value)|, rest, done[p.key := p.value]);
    }
  }

  lemma {:induction false} MapIsWritten(data: seq<Byte>, offset: nat, done: KeyMap) returns (pairs: seq<Pair>)
    requires ReadMap(data, offset, done).Ok?
    ensures Distinct(done, pairs) && HasAt(data, offset, WriteMap(pairs))
    ensures ReadMap(data, offset, done) == Ok(Read(Added(done, pairs), offset + |WriteMap(pairs)|))
    decreases |data| - offset
  {
    hide VarBytes, ReadVarBytes, HasAt;
    VarBytesSound(data, offset);
    var key := ReadVarBytes(data, offset).value;
    if key.value == [] {
      pairs := [];
    } else {
      VarBytesSound(data, key.end);
      var value := ReadVarBytes(data, key.end).value;
      var rest := MapIsWritten(data, value.end, done[key.value := value.value]);
      pairs := [Pair(key.value, value.value)] + rest;
      assert pairs[1..] == rest;
      DistinctIff(done, pairs);
      HasAtConcat(data, key.end, VarBytes(value.value), WriteMap(rest));
      HasAtConcat(data, offset, VarBytes(key.value), VarBytes(value.value) + WriteMap(rest));
    }
  }

  // --------------------------------------------------------------- several maps

  function MapOf(pairs: seq<Pair>): KeyMap {
    Added(map[], pairs)
  }

  function MapsOf(maps: seq<seq<Pair>>): (r: seq<KeyMap>)
    ensures |r| == |maps|
  {
    seq(|maps|, i requires 0 <= i < |maps| => MapOf(maps[i]))
  }

  ghost predicate AllDistinct(maps: seq<seq<Pair>>) {
    forall pairs | pairs in maps :: Distinct(map[], pairs)
  }

  lemma {:induction false} MapsAreRead(data: seq<Byte>, offset: nat, maps: seq<seq<Pair>>)
    requires AllDistinct(maps) && HasAt(data, offset, WriteMany(WriteMap, maps))
    ensures ReadMaps(data, offset, |maps|) == Ok(Read(MapsOf(maps), offset + |WriteMany(WriteMap, maps)|))
    decreases |maps|
  {
    hide ReadMap, WriteMap, HasAt, Distinct, MapOf;
    if maps == [] {
      assert MapsOf(maps) == [];
    } else {
      HasAtConcat(data, offset, WriteMap(maps[0]), WriteMany(WriteMap, maps[1..]));
      OneMapIsRead(data, offset, maps[0]);
      MapsAreRead(data, offset + |WriteMap(maps[0])|, maps[1..]);
      assert MapsOf(maps) == [MapOf(maps[0])] + MapsOf(maps[1..]);
    }
  }

  lemma OneMapIsRead(data: seq<Byte>, offset: nat, pairs: seq<Pair>)
    requires Distinct(map[], pairs) && HasAt(data, offset, WriteMap(pairs))
    ensures ReadMap(data, offset, map[]) == Ok(Read(MapOf(pairs), offset + |WriteMap(pairs)|))
  {
    MapIsRead(data, offset, pairs, map[]);
  }

  lemma OneMapIsWritten(data: seq<Byte>, offset: nat) returns (pairs: seq<Pair>)
    requires ReadMap(data, offset, map[]).Ok?
    ensures Distinct(map[], pairs) && HasAt(data, offset, WriteMap(pairs))
    ensures ReadMap(data, offset, map[]) == Ok(Read(MapOf(pairs), offset + |WriteMap(pairs)|))
  {
    pairs := MapIsWritten(data, offset, map[]);
  }

  lemma {:induction false} MapsAreWritten(data: seq<Byte>, offset: nat, count: nat) returns (maps: seq<seq<Pair>>)
    requires offset <= |data| && ReadMaps(data, offset, count).Ok?
    ensures |maps| == count && AllDistinct(maps) && HasAt(data, offset, WriteMany(WriteMap, maps))
    ensures ReadMaps(data, offset, count) == Ok(Read(MapsOf(maps), offset + |WriteMany(WriteMap, maps)|))
    decreases count
  {
    hide ReadMap, WriteMap, Distinct, MapOf;
    if count == 0 {
      maps := [];
    } else {
      var first := OneMapIsWritten(data, offset);
      var rest := MapsAreWritten(data, offset + |WriteMap(first)|, count - 1);
      maps := [first] + rest;
      assert maps[1..] == rest;
      HasAtConcat(data, offset, WriteMap(first), WriteMany(WriteMap, rest));
      assert MapsOf(maps) == [MapOf(first)] + MapsOf(rest);
    }
  }

  // ------------------------------------------------------------- the whole PSBT

  datatype Contents = Contents(globals: seq<Pair>, inputs: seq<seq<Pair>>, outputs: seq<seq<Pair>>)

  function WritePsbt(c: Contents): seq<Byte> {
    [0x70, 0x73, 0x62, 0x74, 0xFF] + (WriteMap(c.globals) + (WriteMany(WriteMap, c.inputs) + WriteMany(WriteMap, c.outputs)))
  }

  /** The global keys are what the parser asks for: the transaction, nothing else of its key type, and version 0 if any. */
  ghost predicate ValidGlobals(globals: KeyMap, tx: UnsignedTransaction) {
    && [0] in globals && globals[[0]] == SerializeUnsigned(tx) && ValidUnsigned(tx)
    && (forall key | key in globals && key != [] && key[0] == 0 :: key == [0])
    && ([0xFB] in globals ==> globals[[0xFB]] == [0, 0, 0, 0])
  }

  ghost predicate Holds(c: Contents, tx: UnsignedTransaction) {
    && Distinct(map[], c.globals) && AllDistinct(c.inputs) && AllDistinct(c.outputs)
    && ValidGlobals(MapOf(c.globals), tx)
    && |c.inputs| == |tx.inputs| && |c.outputs| == |tx.outputs|
  }

  /** The parser accepts exactly the PSBTs of at most 16 MiB that hold a valid unsigned transaction and one map of
      distinct keys for each of its inputs and outputs; it returns the transaction and the input maps. */
  lemma DecodeIffWritten(data: seq<Byte>, psbt: Parsed)
    ensures DecodePsbt(data) == Ok(psbt)
       <==> (|data| <= 16777216
             && exists c :: Holds(c, psbt.transaction) && data == WritePsbt(c) && psbt.inputMaps == MapsOf(c.inputs))
  {
    hide DecodePsbt, WritePsbt, Holds, MapsOf;
    if DecodePsbt(data) == Ok(psbt) {
      var c := DecodedIsWritten(data, psbt);
    }
    if |data| <= MAX_PSBT_BYTES
       && exists c :: Holds(c, psbt.transaction) && data == WritePsbt(c) && psbt.inputMaps == MapsOf(c.inputs) {
      var c :| Holds(c, psbt.transaction) && data == WritePsbt(c) && psbt.inputMaps == MapsOf(c.inputs);
      WrittenIsDecoded(c, psbt.transaction);
    }
  }

  lemma DecodedIsWritten(data: seq<Byte>, psbt: Parsed) returns (c: Contents)
    requires DecodePsbt(data) == Ok(psbt)
    ensures |data| <= MAX_PSBT_BYTES && Holds(c, psbt.transaction)
    ensures data == WritePsbt(c) && psbt.inputMaps == MapsOf(c.inputs)
  {
    hide ReadMap, ReadMaps, ParseUnsigned, SerializeUnsigned, ValidUnsigned, WriteMap, WriteMany, Distinct, MapOf, MapsOf, AllDistinct;
    var tx := psbt.transaction;
    var globals := OneMapIsWritten(data, 5);
    var first := 5 + |WriteMap(globals)|;
    UnsignedIffSerialized(MapOf(globals)[UNSIGNED_TX], tx);
    var inputs := MapsAreWritten(data, first, |tx.inputs|);
    var middle := first + |WriteMany(WriteMap, inputs)|;
    var outputs := MapsAreWritten(data, middle, |tx.outputs|);
    c := Contents(globals, inputs, outputs);
    HasAtConcat(data, first, WriteMany(WriteMap, inputs), WriteMany(WriteMap, outputs));
    HasAtConcat(data, 5, WriteMap(globals), WriteMany(WriteMap, inputs) + WriteMany(WriteMap, outputs));
    assert data[0..5] == MAGIC;
    HasAtConcat(data, 0, MAGIC, WriteMap(globals) + (WriteMany(WriteMap, inputs) + WriteMany(WriteMap, outputs)));
    assert data[0..|data|] == data;
  }

  lemma WrittenIsDecoded(c: Contents, tx: UnsignedTransaction)
    requires Holds(c, tx) && |WritePsbt(c)| <= MAX_PSBT_BYTES
    ensures DecodePsbt(WritePsbt(c)) == Ok(Parsed(tx, MapsOf(c.inputs)))
  {
    hide ReadMap, ReadMaps, ParseUnsigned, SerializeUnsigned, ValidUnsigned, WriteMap, WriteMany, Distinct, MapOf, MapsOf, AllDistinct;
    var data := WritePsbt(c);
    var inputs, outputs := WriteMany(WriteMap, c.inputs), WriteMany(WriteMap, c.outputs);
    assert data[0..|data|] == data;
    HasAtConcat(data, 0, MAGIC, WriteMap(c.globals) + (inputs + outputs));
    HasAtConcat(data, 5, WriteMap(c.globals), inputs + outputs);
    HasAtConcat(data, 5 + |WriteMap(c.globals)|, inputs, outputs);
    OneMapIsRead(data, 5, c.globals);
    UnsignedIffSerialized(MapOf(c.globals)[UNSIGNED_TX], tx);
    MapsAreRead(data, 5 + |WriteMap(c.globals)|, c.inputs);
    MapsAreRead(data, 5 + |WriteMap(c.globals)| + |inputs|, c.outputs);
  }

  // ---------------------------------------------------- a witness with no element

  const FOUR_BYTES: seq<Byte> := [2, 0, 0, 0]

  /** Two inputs and no output. */
  function TwoInputs(a: Outpoint, b: Outpoint): UnsignedTransaction {
    UnsignedTransaction(FOUR_BYTES, [TxInput(OutpointBytes(a), FOUR_BYTES), TxInput(OutpointBytes(b), FOUR_BYTES)], [], FOUR_BYTES)
  }

  /** The first input is the marker; the second has a scriptSig and a witness with no element. */
  function EmptyWitness(a: Outpoint, b: Outpoint, scriptSig: seq<Byte>): Contents {
    Contents(
      [Pair(UNSIGNED_TX, SerializeUnsigned(TwoInputs(a, b)))],
      [[], [Pair(FINAL_SCRIPT_SIG, scriptSig), Pair(FINAL_WITNESS, [0])]],
      [])
  }

  function FinalMaps(scriptSig: seq<Byte>): seq<KeyMap> {
    [map[], map[FINAL_SCRIPT_SIG := scriptSig, FINAL_WITNESS := [0]]]
  }

  function EmptyFinals(scriptSig: seq<Byte>): seq<Final> {
    [Final([], None), Final(scriptSig, Some([]))]
  }

  lemma TwoInputsAreValid(a: Outpoint, b: Outpoint)
    ensures ValidUnsigned(TwoInputs(a, b)) && |SerializeUnsigned(TwoInputs(a, b))| == 92
  {
    hide OutpointBytes;
    OutpointLength(a);
    OutpointLength(b);
    var tx := TwoInputs(a, b);
    assert tx.inputs[1..] == [tx.inputs[1]] && tx.inputs[1..][1..] == [];
    assert |WriteInput(tx.inputs[0])| == 41 && |WriteInput(tx.inputs[1])| == 41;
    assert |WriteMany(WriteInput, tx.inputs)| == 41 + |WriteMany(WriteInput, tx.inputs[1..])|;
  }

  lemma OutpointLength(o: Outpoint)
    ensures |OutpointBytes(o)| == 36
  {
  }

  lemma OnePair(p: Pair)
    ensures MapOf([p]) == map[p.key := p.value]
  {
    var none: KeyMap := map[];
    assert [p][1..] == [];
    assert MapOf([p]) == Added(none[p.key := p.value], []);
  }

  lemma EmptyWitnessMaps(a: Outpoint, b: Outpoint, scriptSig: seq<Byte>)
    ensures var c := EmptyWitness(a, b, scriptSig);
            && MapOf(c.globals) == map[UNSIGNED_TX := SerializeUnsigned(TwoInputs(a, b))]
            && MapsOf(c.inputs) == FinalMaps(scriptSig)
  {
    hide SerializeUnsigned, TwoInputs;
    var c := EmptyWitness(a, b, scriptSig);
    OnePair(c.globals[0]);
    var pairs, m: KeyMap := c.inputs[1], map[FINAL_SCRIPT_SIG := scriptSig];
    assert pairs[1..] == [Pair(FINAL_WITNESS, [0])] && pairs[1..][1..] == [];
    assert Added(m, pairs[1..]) == Added(m[FINAL_WITNESS := [0]], []);
    assert MapOf(pairs) == FinalMaps(scriptSig)[1];
    assert MapsOf(c.inputs) == FinalMaps(scriptSig);
  }

  lemma EmptyWitnessHolds(a: Outpoint, b: Outpoint, scriptSig: seq<Byte>)
    requires |scriptSig| <= 1000
    ensures Holds(EmptyWitness(a, b, scriptSig), TwoInputs(a, b))
  {
    hide SerializeUnsigned, ValidUnsigned, MapOf;
    TwoInputsAreValid(a, b);
    EmptyWitnessMaps(a, b, scriptSig);
  }

  lemma EmptyWitnessFits(a: Outpoint, b: Outpoint, scriptSig: seq<Byte>)
    requires |scriptSig| <= 1000
    ensures |WritePsbt(EmptyWitness(a, b, scriptSig))| <= MAX_PSBT_BYTES
  {
    hide SerializeUnsigned, TwoInputs, LittleEndian;
    TwoInputsAreValid(a, b);
    var c := EmptyWitness(a, b, scriptSig);
    assert c.globals[1..] == [];
    assert |WriteMap(c.globals)| <= 100;
    SecondMapFits(scriptSig);
    assert c.inputs[1..] == [c.inputs[1]] && c.inputs[1..][1..] == [];
    assert WriteMany(WriteMap, c.inputs) == WriteMap([]) + WriteMany(WriteMap, c.inputs[1..]);
    assert WriteMany(WriteMap, c.inputs[1..]) == WriteMap(c.inputs[1]) + [];
  }

  lemma SecondMapFits(scriptSig: seq<Byte>)
    requires |scriptSig| <= 1000
    ensures |WriteMap([Pair(FINAL_SCRIPT_SIG, scriptSig), Pair(FINAL_WITNESS, [0])])| <= 1100
  {
    var pairs := [Pair(FINAL_SCRIPT_SIG, scriptSig), Pair(FINAL_WITNESS, [0])];
    assert pairs[1..] == [Pair(FINAL_WITNESS, [0])] && pairs[1..][1..] == [];
    assert |VarBytes(scriptSig)| <= 1009;
  }

  /** A PSBT with a scriptSig and a witness of no element is accepted, and the bytes extracted from it have the marker
      and flag over empty stacks only, which a strict reader refuses. */
  lemma EmptyWitnessIsSuperfluous(a: Outpoint, b: Outpoint, scriptSig: seq<Byte>)
    requires a.index < TWO_TO_32 && b.index < TWO_TO_32 && 0 < |scriptSig| <= 1000
    ensures var r := Extract(WritePsbt(EmptyWitness(a, b, scriptSig)), [a, b], 0, None);
            && r.Ok? && ReadStrict(r.value) == Err(SuperfluousWitness)
            && ReadTransaction(r.value).Ok? && ReadTransaction(r.value).value.witnesses == Some([[], []])
  {
    hide WritePsbt, EmptyWitness, DecodePsbt, MapsOf, OutpointBytes, ReadTransaction, SerializeTransaction, ReadStrict, Finals,
      FinalMaps, EmptyFinals, OutpointIssue, Signed;
    var data := WritePsbt(EmptyWitness(a, b, scriptSig));
    EmptyWitnessHolds(a, b, scriptSig);
    EmptyWitnessFits(a, b, scriptSig);
    EmptyWitnessMaps(a, b, scriptSig);
    WrittenIsDecoded(EmptyWitness(a, b, scriptSig), TwoInputs(a, b));
    FinalsAreEmpty(scriptSig);
    NoIssueIff(TwoInputs(a, b).inputs, [a, b], 0);
    assert Extract(data, [a, b], 0, None) == Ok(SerializeTransaction(Signed(TwoInputs(a, b), EmptyFinals(scriptSig))));
    SuperfluousIsRead(data, a, b, scriptSig);
  }

  lemma SuperfluousIsRead(data: seq<Byte>, a: Outpoint, b: Outpoint, scriptSig: seq<Byte>)
    requires DecodePsbt(data) == Ok(Parsed(TwoInputs(a, b), FinalMaps(scriptSig)))
    requires 0 < |scriptSig| <= 1000
    requires Extract(data, [a, b], 0, None) == Ok(SerializeTransaction(Signed(TwoInputs(a, b), EmptyFinals(scriptSig))))
    ensures var r := Extract(data, [a, b], 0, None);
            && ReadStrict(r.value) == Err(SuperfluousWitness)
            && ReadTransaction(r.value).Ok? && ReadTransaction(r.value).value.witnesses == Some([[], []])
  {
    hide DecodePsbt, TwoInputs, ReadTransaction, SerializeTransaction, ReadStrict, Extract, ValidUnsigned, ValidTransaction;
    var finals := EmptyFinals(scriptSig);
    assert finals[1].stack.Some?;
    TwoInputsAreValid(a, b);
    assert |TwoInputs(a, b).inputs| == 2 by { TwoInputsCount(a, b); }
    SignedIsValid(TwoInputs(a, b), finals);
    TransactionIsRead(Signed(TwoInputs(a, b), finals));
    ExtractedIsMinimalIff(data, [a, b], 0, None);
    assert Signed(TwoInputs(a, b), finals).witnesses.value == [[], []];
    assert OnlyEmptyWitnesses(DecodePsbt(data).value.inputMaps) by {
      assert FINAL_WITNESS in DecodePsbt(data).value.inputMaps[1];
    }
  }

  lemma TwoInputsCount(a: Outpoint, b: Outpoint)
    ensures |TwoInputs(a, b).inputs| == 2
  {
  }

  lemma FinalsAreEmpty(scriptSig: seq<Byte>)
    requires scriptSig != []
    ensures Finals(FinalMaps(scriptSig), 0, 0) == Ok(EmptyFinals(scriptSig))
  {
    hide ParseWitness;
    var maps, finals := FinalMaps(scriptSig), EmptyFinals(scriptSig);
    EmptyStackIff([]);
    WitnessIffSerialized([0], []);
    assert FinalOf(maps[0], true) == Ok(finals[0]) && FinalOf(maps[1], false) == Ok(finals[1]);
    assert Finals(maps, 2, 0) == Ok([]);
    assert Finals(maps, 1, 0) == Ok([finals[1]] + []);
    assert [finals[0]] + ([finals[1]] + []) == finals;
  }
}
