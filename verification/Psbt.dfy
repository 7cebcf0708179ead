/**
 The PSBT parser and transaction extractor of the wallet-acceptance script (BIP 174).

 `ExtractedTransaction`: read back with a BIP 144 reader, an extracted transaction is
 the unsigned transaction of the PSBT, byte for byte once its final data are dropped,
 with the expected outpoints in order; the marker input carries nothing, and every
 other input carries exactly the final data of its map. `ExtractIff` says exactly which
 PSBTs that is, and `ExtractedIsMinimalIff` for which input maps the transaction has the
 form BIP 144 prescribes.
 */
module Psbt {
  import opened ByteStrings
  import opened BitcoinWire

  type KeyMap = map<seq<Byte>, seq<Byte>>

  const MAX_PSBT_BYTES: nat := 16 * 1024 * 1024
  const MAGIC: seq<Byte> := [0x70, 0x73, 0x62, 0x74, 0xFF]
  const UNSIGNED_TX: seq<Byte> := [0x00]
  const PSBT_VERSION: seq<Byte> := [0xFB]
  const FINAL_SCRIPT_SIG: seq<Byte> := [0x07]
  const FINAL_WITNESS: seq<Byte> := [0x08]

  datatype PsbtError =
    | Wire(wire: BitcoinWire.Error)
    | TooLarge
    | BadMagic
    | DuplicateKey
    | MissingTransaction
    | TransactionKeyData
    | UnsupportedVersion
    | TrailingMaps
    | TransactionChanged
    | InputCountChanged
    | MarkerIndexOutside
    | IndexOverflow
    | OutpointChanged
    | MarkerHasFinalData
    | NotFinalized
    | EmptyFinalData

  function OnWire<T>(r: Result<T, BitcoinWire.Error>): Result<T, PsbtError> {
    if r.Ok? then Ok(r.value) else Err(Wire(r.error))
  }

  // ---------------------------------------------------------------- parsing

  /** The rest of a key map, up to its empty key, added to `done`. */
  function ReadMap(data: seq<Byte>, offset: nat, done: KeyMap): (r: Result<Read<KeyMap>, PsbtError>)
    ensures r.Ok? ==> r.value.end <= |data|
    decreases |data| - offset
  {
    var key :- OnWire(ReadVarBytes(data, offset));
    if key.value == [] then Ok(Read(done, key.end))
    else if key.value in done then Err(DuplicateKey)
    else
      var value :- OnWire(ReadVarBytes(data, key.end));
      ReadMap(data, value.end, done[key.value := value.value])
  }

  function ReadMaps(data: seq<Byte>, offset: nat, count: nat): Result<Read<seq<KeyMap>>, PsbtError>
    decreases count
  {
    if count == 0 then Ok(Read([], offset))
    else
      var first :- ReadMap(data, offset, map[]);
      var rest :- ReadMaps(data, first.end, count - 1);
      Ok(Read([first.value] + rest.value, rest.end))
  }

  datatype Parsed = Parsed(transaction: UnsignedTransaction, inputMaps: seq<KeyMap>)

  function GlobalMap(data: seq<Byte>): Result<Read<KeyMap>, PsbtError> {
    ReadMap(data, 5, map[])
  }

  /** `decode_psbt`, on the decoded base64. */
  function DecodePsbt(data: seq<Byte>): Result<Parsed, PsbtError> {
    if |data| > MAX_PSBT_BYTES then Err(TooLarge)
    else if !(MAGIC <= data) then Err(BadMagic)
    else
      var global :- GlobalMap(data);
      if UNSIGNED_TX !in global.value then Err(MissingTransaction)
      else if exists key :: key in global.value && key != [] && key[0] == 0 && key != UNSIGNED_TX then Err(TransactionKeyData)
      else if PSBT_VERSION in global.value && global.value[PSBT_VERSION] != [0, 0, 0, 0] then Err(UnsupportedVersion)
      else
        var transaction :- OnWire(ParseUnsigned(global.value[UNSIGNED_TX]));
        var inputMaps :- ReadMaps(data, global.end, |transaction.inputs|);
        var outputMaps :- ReadMaps(data, inputMaps.end, |transaction.outputs|);
        if outputMaps.end != |data| then Err(TrailingMaps) else Ok(Parsed(transaction, inputMaps.value))
  }

  // ------------------------------------------------------------- extraction

  /** A transaction id in display order and an output index. */
  datatype Outpoint = Outpoint(txid: Digest, index: nat)

  function Reversed(s: seq<Byte>): (r: seq<Byte>)
    ensures |r| == |s|
  {
    if s == [] then [] else Reversed(s[1..]) + [s[0]]
  }

  function OutpointBytes(o: Outpoint): seq<Byte> {
    Reversed(o.txid) + LittleEndian(o.index, 4)
  }

  /** What an input map contributes to the final transaction. */
  datatype Final = Final(scriptSig: seq<Byte>, stack: Option<Stack>)

  function Get(m: KeyMap, key: seq<Byte>): Option<seq<Byte>> {
    if key in m then Some(m[key]) else None
  }

  function OrEmpty(s: Option<seq<Byte>>): seq<Byte> {
    if s.Some? then s.value else []
  }

  function FinalOf(m: KeyMap, isMarker: bool): Result<Final, PsbtError> {
    var scriptSig, witnessRaw := Get(m, FINAL_SCRIPT_SIG), Get(m, FINAL_WITNESS);
    if isMarker then
      if OrEmpty(scriptSig) != [] || witnessRaw.Some? then Err(MarkerHasFinalData) else Ok(Final([], None))
    else if scriptSig.None? && witnessRaw.None? then Err(NotFinalized)
    else
      var stack :- if witnessRaw.None? then Ok(None) else WrapWitness(OnWire(ParseWitness(witnessRaw.value)));
      if OrEmpty(scriptSig) == [] && (stack.None? || stack.value == []) then Err(EmptyFinalData)
      else Ok(Final(OrEmpty(scriptSig), stack))
  }

  function WrapWitness(r: Result<Stack, PsbtError>): Result<Option<Stack>, PsbtError> {
    if r.Ok? then Ok(Some(r.value)) else Err(r.error)
  }

  /** The final data of the input maps from `index` on. */
  function Finals(maps: seq<KeyMap>, index: nat, marker: int): (r: Result<seq<Final>, PsbtError>)
    requires index <= |maps|
    ensures r.Ok? ==> |r.value| == |maps| - index
    decreases |maps| - index
  {
    if index == |maps| then Ok([])
    else
      var first :- FinalOf(maps[index], index == marker);
      var rest :- Finals(maps, index + 1, marker);
      Ok([first] + rest)
  }

  predicate HasWitness(finals: seq<Final>) {
    exists i :: 0 <= i < |finals| && finals[i].stack.Some?
  }

  function StackOf(f: Final): Stack {
    if f.stack.Some? then f.stack.value else []
  }

  /** The unsigned transaction with its final data put in. */
  function Signed(tx: UnsignedTransaction, finals: seq<Final>): Transaction
    requires |finals| == |tx.inputs|
  {
    Transaction(
      tx.version,
      seq(|tx.inputs|, i requires 0 <= i < |tx.inputs| =>
        SignedInput(tx.inputs[i].outpoint, finals[i].scriptSig, tx.inputs[i].sequence)),
      tx.outputs,
      if HasWitness(finals) then Some(seq(|finals|, i requires 0 <= i < |finals| => StackOf(finals[i]))) else None,
      tx.locktime)
  }

  /** The first expected outpoint, from `index` on, that has no four-byte index or is not that of its input. */
  function OutpointIssue(inputs: seq<TxInput>, expected: seq<Outpoint>, index: nat): Option<PsbtError>
    requires |inputs| == |expected| && index <= |expected|
    decreases |expected| - index
  {
    if index == |expected| then None
    else if expected[index].index >= TWO_TO_32 then Some(IndexOverflow)
    else if inputs[index].outpoint != OutpointBytes(expected[index]) then Some(OutpointChanged)
    else OutpointIssue(inputs, expected, index + 1)
  }

  lemma {:induction false} NoIssueIff(inputs: seq<TxInput>, expected: seq<Outpoint>, index: nat)
    requires |inputs| == |expected| && index <= |expected|
    ensures OutpointIssue(inputs, expected, index).None? <==>
              forall i | index <= i < |expected| ::
                expected[i].index < TWO_TO_32 && inputs[i].outpoint == OutpointBytes(expected[i])
    decreases |expected| - index
  {
    hide OutpointBytes;
    if index < |expected| {
      NoIssueIff(inputs, expected, index + 1);
    }
  }

  /** `extract_marker_finalized_transaction`. */
  function Extract(data: seq<Byte>, expected: seq<Outpoint>, marker: int, expectedTx: Option<UnsignedTransaction>)
    : Result<seq<Byte>, PsbtError>
  {
    var psbt :- DecodePsbt(data);
    DecodedMaps(data);
    var tx := psbt.transaction;
    if expectedTx.Some? && expectedTx.value != tx then Err(TransactionChanged)
    else if |tx.inputs| != |expected| then Err(InputCountChanged)
    else if marker < 0 || marker >= |tx.inputs| then Err(MarkerIndexOutside)
    else if OutpointIssue(tx.inputs, expected, 0).Some? then Err(OutpointIssue(tx.inputs, expected, 0).value)
    else
      var finals :- Finals(psbt.inputMaps, 0, marker);
      Ok(SerializeTransaction(Signed(tx, finals)))
  }

  // ------------------------------------------------------------------ proofs

  lemma {:induction false} MapsCount(data: seq<Byte>, offset: nat, count: nat)
    ensures ReadMaps(data, offset, count).Ok? ==> |ReadMaps(data, offset, count).value.value| == count
    decreases count
  {
    if count > 0 {
      var first := ReadMap(data, offset, map[]);
      if first.Ok? {
        MapsCount(data, first.value.end, count - 1);
      }
    }
  }

  /** One map for each input. */
  lemma DecodedMaps(data: seq<Byte>)
    ensures DecodePsbt(data).Ok? ==> |DecodePsbt(data).value.inputMaps| == |DecodePsbt(data).value.transaction.inputs|
  {
    hide ReadMaps, ReadMap, ParseUnsigned;
    if DecodePsbt(data).Ok? {
      MapsCount(data, GlobalMap(data).value.end, |DecodePsbt(data).value.transaction.inputs|);
    }
  }

  ghost predicate StringsFit(m: KeyMap) {
    forall key | key in m :: ValidString(m[key])
  }

  /** Everything in a parsed map was length-prefixed, so its length fits. */
  lemma {:induction false} MapStringsFit(data: seq<Byte>, offset: nat, done: KeyMap)
    requires StringsFit(done)
    ensures ReadMap(data, offset, done).Ok? ==> StringsFit(ReadMap(data, offset, done).value.value)
    decreases |data| - offset
  {
    hide VarBytes, HasAt;
    var key := ReadVarBytes(data, offset);
    if key.Ok? && key.value.value != [] && key.value.value !in done {
      var value := ReadVarBytes(data, key.value.end);
      if value.Ok? {
        VarBytesSound(data, key.value.end);
        MapStringsFit(data, value.value.end, done[key.value.value := value.value.value]);
      }
    }
  }

  lemma {:induction false} MapsStringsFit(data: seq<Byte>, offset: nat, count: nat)
    ensures var r := ReadMaps(data, offset, count);
            r.Ok? ==> forall m | m in r.value.value :: StringsFit(m)
    decreases count
  {
    hide ReadMap, StringsFit;
    if count > 0 {
      assert StringsFit(map[]) by { NoStrings(); }
      MapStringsFit(data, offset, map[]);
      var first := ReadMap(data, offset, map[]);
      if first.Ok? {
        MapsStringsFit(data, first.value.end, count - 1);
      }
    }
  }

  lemma NoStrings()
    ensures StringsFit(map[])
  {
  }

  /** What a map puts into its input: the marker's nothing, any other its two final fields, not both empty. */
  ghost predicate Carries(m: KeyMap, isMarker: bool, f: Final) {
    if isMarker then
      f == Final([], None) && OrEmpty(Get(m, FINAL_SCRIPT_SIG)) == [] && FINAL_WITNESS !in m
    else
      && f.scriptSig == OrEmpty(Get(m, FINAL_SCRIPT_SIG))
      && (f.stack.Some? <==> FINAL_WITNESS in m)
      && (f.stack.Some? ==> SerializeWitness(f.stack.value) == m[FINAL_WITNESS] && ValidStack(f.stack.value))
      && (f.scriptSig != [] || StackOf(f) != [])
  }

  lemma FinalCarries(m: KeyMap, isMarker: bool)
    requires FinalOf(m, isMarker).Ok?
    ensures Carries(m, isMarker, FinalOf(m, isMarker).value)
  {
    hide ParseWitness, SerializeWitness, ValidStack;
    if !isMarker && FINAL_WITNESS in m {
      WitnessIffSerialized(m[FINAL_WITNESS], FinalOf(m, isMarker).value.stack.value);
    }
  }

  lemma {:induction false} FinalsCarry(maps: seq<KeyMap>, index: nat, marker: int)
    requires index <= |maps| && Finals(maps, index, marker).Ok?
    ensures var r := Finals(maps, index, marker).value;
            forall i | index <= i < |maps| :: Carries(maps[i], i == marker, r[i - index])
    decreases |maps| - index
  {
    hide FinalOf, Carries;
    if index < |maps| {
      FinalCarries(maps[index], index == marker);
      FinalsCarry(maps, index + 1, marker);
      var rest := Finals(maps, index + 1, marker).value;
      assert Finals(maps, index, marker).value == [FinalOf(maps[index], index == marker).value] + rest;
    }
  }

  /** Dropping scriptSigs and witnesses. */
  function Strip(t: Transaction): UnsignedTransaction {
    UnsignedTransaction(
      t.version,
      seq(|t.inputs|, i requires 0 <= i < |t.inputs| => TxInput(t.inputs[i].outpoint, t.inputs[i].sequence)),
      t.outputs, t.locktime)
  }

  lemma StripSigned(tx: UnsignedTransaction, finals: seq<Final>)
    requires |finals| == |tx.inputs|
    ensures Strip(Signed(tx, finals)) == tx
  {
    assert Strip(Signed(tx, finals)).inputs == tx.inputs;
  }

  lemma SignedIsValid(tx: UnsignedTransaction, finals: seq<Final>)
    requires |finals| == |tx.inputs| && ValidUnsigned(tx)
    requires forall i | 0 <= i < |finals| ::
               ValidString(finals[i].scriptSig) && (finals[i].stack.Some? ==> ValidStack(finals[i].stack.value))
    ensures ValidTransaction(Signed(tx, finals))
  {
    var t := Signed(tx, finals);
    assert forall i | 0 <= i < |tx.inputs| :: tx.inputs[i] in tx.inputs;
    assert forall i | 0 <= i < |t.inputs| :: ValidSignedInput(t.inputs[i]);
    if t.witnesses.Some? {
      forall i | 0 <= i < |finals| ensures AnyStack(t.witnesses.value[i]) {
        assert t.witnesses.value[i] == StackOf(finals[i]);
      }
    }
  }

  lemma FinalsFit(maps: seq<KeyMap>, marker: int, finals: seq<Final>)
    requires |finals| == |maps| && forall m | m in maps :: StringsFit(m)
    requires forall i | 0 <= i < |maps| :: Carries(maps[i], i == marker, finals[i])
    ensures forall i | 0 <= i < |finals| ::
              ValidString(finals[i].scriptSig) && (finals[i].stack.Some? ==> ValidStack(finals[i].stack.value))
  {
    hide ValidStack, SerializeWitness;
    forall i | 0 <= i < |finals|
      ensures ValidString(finals[i].scriptSig) && (finals[i].stack.Some? ==> ValidStack(finals[i].stack.value))
    {
      assert maps[i] in maps && Carries(maps[i], i == marker, finals[i]);
    }
  }

  /** An extracted transaction, read back: the unsigned one with the expected outpoints, and in each input what its map
      has under 07 and 08; nothing in the marker's, something in every other. */
  ghost predicate Faithful(t: Transaction, psbt: Parsed, unsigned: seq<Byte>, expected: seq<Outpoint>, marker: int) {
    && |t.inputs| == |psbt.inputMaps| == |psbt.transaction.inputs| == |expected| && 0 <= marker < |t.inputs|
    && Strip(t) == psbt.transaction && SerializeUnsigned(Strip(t)) == unsigned
    && (forall i | 0 <= i < |expected| :: Agrees(t.inputs[i].outpoint, expected[i]))
    && (t.witnesses.Some? <==> exists i :: 0 <= i < |psbt.inputMaps| && [8] in psbt.inputMaps[i])
    && (t.witnesses.Some? ==> |t.witnesses.value| == |t.inputs|)
    && forall i | 0 <= i < |t.inputs| ::
         var m, stack := psbt.inputMaps[i], if t.witnesses.Some? then t.witnesses.value[i] else [];
         && t.inputs[i].scriptSig == (if [7] in m then m[[7]] else [])
         && (if [8] in m then SerializeWitness(stack) == m[[8]] && ValidStack(stack) else stack == [])
         && (i == marker <==> t.inputs[i].scriptSig == [] && stack == [])
         && (i == marker ==> [8] !in m)
  }

  /** The 36 bytes are the transaction id backwards and the index, least byte first. */
  ghost predicate Agrees(bytes: seq<Byte>, o: Outpoint) {
    && |bytes| == 36 && (forall j | 0 <= j < 32 :: bytes[j] == o.txid[31 - j])
    && o.index == bytes[32] as int + 256 * (bytes[33] as int) + 65536 * (bytes[34] as int) + 16777216 * (bytes[35] as int)
  }

  lemma {:induction false} ReversedAt(s: seq<Byte>, k: nat)
    requires k < |s|
    ensures Reversed(s)[k] == s[|s| - 1 - k]
  {
    if k < |s| - 1 {
      ReversedAt(s[1..], k);
    }
  }

  lemma FourBytes(s: seq<Byte>)
    requires |s| == 4
    ensures FromLittleEndian(s) == s[0] as int + 256 * (s[1] as int) + 65536 * (s[2] as int) + 16777216 * (s[3] as int)
  {
    assert s[1..][1..] == s[2..] && s[2..][1..] == s[3..] && s[3..][1..] == [];
    assert FromLittleEndian(s[3..]) == s[3] + 256 * FromLittleEndian([]);
    assert FromLittleEndian(s[2..]) == s[2] + 256 * FromLittleEndian(s[3..]);
    assert FromLittleEndian(s[1..]) == s[1] + 256 * FromLittleEndian(s[2..]);
  }

  lemma AgreesIff(bytes: seq<Byte>, o: Outpoint)
    ensures Agrees(bytes, o) <==> o.index < TWO_TO_32 && bytes == OutpointBytes(o)
  {
    hide LittleEndian, FromLittleEndian, Pow;
    Pow256Values();
    var back := Reversed(o.txid);
    forall j | 0 <= j < 32 ensures back[j] == o.txid[31 - j] {
      ReversedAt(o.txid, j);
    }
    if |bytes| == 36 {
      FourBytes(bytes[32..]);
      assert bytes == bytes[..32] + bytes[32..];
    }
    if Agrees(bytes, o) {
      assert bytes[..32] == back;
      LittleEndianOfFromLittleEndian(bytes[32..]);
    }
    if o.index < TWO_TO_32 && bytes == OutpointBytes(o) {
      FromLittleEndianOfLittleEndian(o.index, 4);
    }
  }

  /** What the extraction asks of the map of an input: nothing final in the marker's; in every other a scriptSig that is
      not empty or a witness with an element, and no witness that is not a serialized stack. */
  ghost predicate FinalMap(m: KeyMap, isMarker: bool) {
    if isMarker then [8] !in m && ([7] in m ==> m[[7]] == [])
    else
      && ([8] in m ==> exists stack :: ValidStack(stack) && m[[8]] == SerializeWitness(stack))
      && (([7] in m && m[[7]] != []) || ([8] in m && m[[8]] != [0]))
  }

  lemma FinalIff(m: KeyMap, isMarker: bool)
    ensures FinalOf(m, isMarker).Ok? <==> FinalMap(m, isMarker)
  {
    hide ParseWitness, SerializeWitness, ValidStack;
    if !isMarker && [8] in m {
      forall stack ensures ParseWitness(m[[8]]) == Ok(stack) <==> ValidStack(stack) && m[[8]] == SerializeWitness(stack) {
        WitnessIffSerialized(m[[8]], stack);
      }
      if ParseWitness(m[[8]]).Ok? {
        var stack := ParseWitness(m[[8]]).value;
        assert ParseWitness(m[[8]]) == Ok(stack);
        ValidStackLength(stack);
        EmptyStackIff(stack);
      }
    }
  }

  lemma ValidStackLength(stack: Stack)
    requires ValidStack(stack)
    ensures |stack| < TWO_TO_64
  {
  }

  lemma {:induction false} FinalsIff(maps: seq<KeyMap>, index: nat, marker: int)
    requires index <= |maps|
    ensures Finals(maps, index, marker).Ok? <==> forall i | index <= i < |maps| :: FinalMap(maps[i], i == marker)
    decreases |maps| - index
  {
    hide FinalOf, FinalMap;
    if index < |maps| {
      FinalIff(maps[index], index == marker);
      FinalsIff(maps, index + 1, marker);
    }
  }

  /** Exactly which PSBTs a transaction is extracted from. */
  lemma ExtractIff(data: seq<Byte>, expected: seq<Outpoint>, marker: int, expectedTx: Option<UnsignedTransaction>)
    ensures Extract(data, expected, marker, expectedTx).Ok? <==>
              && DecodePsbt(data).Ok?
              && var psbt := DecodePsbt(data).value;
                 && (expectedTx.Some? ==> expectedTx.value == psbt.transaction)
                 && |psbt.transaction.inputs| == |expected| && 0 <= marker < |expected|
                 && (forall i | 0 <= i < |expected| :: Agrees(psbt.transaction.inputs[i].outpoint, expected[i]))
                 && forall i | 0 <= i < |psbt.inputMaps| :: FinalMap(psbt.inputMaps[i], i == marker)
  {
    hide DecodePsbt, Finals, FinalMap, SerializeTransaction, Signed, OutpointBytes, OutpointIssue, Agrees;
    if DecodePsbt(data).Ok? {
      var psbt := DecodePsbt(data).value;
      DecodedMaps(data);
      FinalsIff(psbt.inputMaps, 0, marker);
      if |psbt.transaction.inputs| == |expected| {
        NoIssueIff(psbt.transaction.inputs, expected, 0);
        forall i | 0 <= i < |expected|
          ensures Agrees(psbt.transaction.inputs[i].outpoint, expected[i]) <==>
                    expected[i].index < TWO_TO_32 && psbt.transaction.inputs[i].outpoint == OutpointBytes(expected[i])
        {
          AgreesIff(psbt.transaction.inputs[i].outpoint, expected[i]);
        }
      }
    }
  }

  /** For every accepted PSBT the bytes are the serialization of the unsigned transaction with final data that are those
      of the maps. */
  lemma ExtractedFinals(data: seq<Byte>, expected: seq<Outpoint>, marker: int, expectedTx: Option<UnsignedTransaction>)
    returns (finals: seq<Final>)
    requires Extract(data, expected, marker, expectedTx).Ok?
    ensures DecodePsbt(data).Ok? && |finals| == |DecodePsbt(data).value.transaction.inputs| == |DecodePsbt(data).value.inputMaps|
    ensures ValidTransaction(Signed(DecodePsbt(data).value.transaction, finals))
    ensures Extract(data, expected, marker, expectedTx).value == SerializeTransaction(Signed(DecodePsbt(data).value.transaction, finals))
    ensures forall i | 0 <= i < |finals| :: Carries(DecodePsbt(data).value.inputMaps[i], i == marker, finals[i])
    ensures expectedTx.Some? ==> expectedTx.value == DecodePsbt(data).value.transaction
  {
    hide ReadMaps, ReadMap, ParseUnsigned, SerializeUnsigned, SerializeTransaction, FinalOf,
      ValidUnsigned, StringsFit, Finals, Carries, ValidTransaction, OutpointBytes, OutpointIssue, Signed;
    var psbt, global := DecodePsbt(data).value, GlobalMap(data).value;
    var tx, maps := psbt.transaction, psbt.inputMaps;
    DecodedMaps(data);
    UnsignedIffSerialized(global.value[UNSIGNED_TX], tx);
    MapsStringsFit(data, global.end, |tx.inputs|);
    finals := Finals(maps, 0, marker).value;
    FinalsCarry(maps, 0, marker);
    FinalsFit(maps, marker, finals);
    SignedIsValid(tx, finals);
  }

  /** For every accepted PSBT the extracted bytes read back as the unsigned transaction with exactly
      the final data of the input maps. */
  lemma ExtractedTransaction(data: seq<Byte>, expected: seq<Outpoint>, marker: int, expectedTx: Option<UnsignedTransaction>)
    requires Extract(data, expected, marker, expectedTx).Ok?
    ensures DecodePsbt(data).Ok? && GlobalMap(data).Ok? && UNSIGNED_TX in GlobalMap(data).value.value
    ensures ReadTransaction(Extract(data, expected, marker, expectedTx).value).Ok?
    ensures Faithful(ReadTransaction(Extract(data, expected, marker, expectedTx).value).value,
                     DecodePsbt(data).value, GlobalMap(data).value.value[UNSIGNED_TX], expected, marker)
    ensures expectedTx.Some? ==> expectedTx.value == DecodePsbt(data).value.transaction
  {
    hide ReadMaps, ReadMap, ParseUnsigned, SerializeUnsigned, SerializeTransaction, ReadTransaction,
      ValidUnsigned, Carries, ValidTransaction, Strip, Signed, Agrees, Extract, FinalMap, Faithful;
    var finals := ExtractedFinals(data, expected, marker, expectedTx);
    ExtractIff(data, expected, marker, expectedTx);
    var psbt, global := DecodePsbt(data).value, GlobalMap(data).value;
    UnsignedIffSerialized(global.value[UNSIGNED_TX], psbt.transaction);
    TransactionIsRead(Signed(psbt.transaction, finals));
    SignedIsFaithful(psbt, finals, expected, marker);
  }

  lemma SignedIsFaithful(psbt: Parsed, finals: seq<Final>, expected: seq<Outpoint>, marker: int)
    requires |finals| == |psbt.inputMaps| == |psbt.transaction.inputs| == |expected| && 0 <= marker < |expected|
    requires forall i | 0 <= i < |finals| :: Carries(psbt.inputMaps[i], i == marker, finals[i])
    requires forall i | 0 <= i < |expected| :: Agrees(psbt.transaction.inputs[i].outpoint, expected[i])
    ensures Faithful(Signed(psbt.transaction, finals), psbt, SerializeUnsigned(psbt.transaction), expected, marker)
  {
    hide SerializeUnsigned, SerializeWitness, ValidStack, Agrees;
    StripSigned(psbt.transaction, finals);
    WitnessPresence(psbt.transaction, psbt.inputMaps, marker, finals);
    var t := Signed(psbt.transaction, finals);
    forall i | 0 <= i < |finals|
      ensures t.inputs[i].scriptSig == finals[i].scriptSig
      ensures (if t.witnesses.Some? then t.witnesses.value[i] else []) == StackOf(finals[i])
    {
      assert finals[i].stack.Some? ==> HasWitness(finals);
    }
  }

  lemma WitnessPresence(tx: UnsignedTransaction, maps: seq<KeyMap>, marker: int, finals: seq<Final>)
    requires |finals| == |maps| == |tx.inputs|
    requires forall i | 0 <= i < |maps| :: Carries(maps[i], i == marker, finals[i])
    ensures Signed(tx, finals).witnesses.Some? <==> exists i :: 0 <= i < |maps| && FINAL_WITNESS in maps[i]
  {
    hide SerializeWitness, ValidStack;
    assert forall i | 0 <= i < |maps| :: finals[i].stack.Some? <==> FINAL_WITNESS in maps[i];
  }

  /** Some map has a final witness, and each one there is has no element. */
  ghost predicate OnlyEmptyWitnesses(maps: seq<KeyMap>) {
    && (exists i :: 0 <= i < |maps| && [8] in maps[i])
    && forall i | 0 <= i < |maps| && [8] in maps[i] :: maps[i][[8]] == [0]
  }

  lemma SignedIsMinimalIff(tx: UnsignedTransaction, maps: seq<KeyMap>, marker: int, finals: seq<Final>)
    requires |finals| == |maps| == |tx.inputs|
    requires forall i | 0 <= i < |maps| :: Carries(maps[i], i == marker, finals[i])
    ensures Minimal(Signed(tx, finals)) <==> !OnlyEmptyWitnesses(maps)
  {
    hide SerializeWitness;
    WitnessPresence(tx, maps, marker, finals);
    forall i | 0 <= i < |maps| ensures StackOf(finals[i]) != [] <==> FINAL_WITNESS in maps[i] && maps[i][FINAL_WITNESS] != [0] {
      if finals[i].stack.Some? {
        EmptyStackIff(finals[i].stack.value);
      }
    }
    var t := Signed(tx, finals);
    if t.witnesses.Some? {
      assert forall i | 0 <= i < |maps| :: t.witnesses.value[i] == StackOf(finals[i]);
    }
  }

  /** For every accepted PSBT, exactly when the extracted bytes have the form BIP 144 prescribes: unless the input maps
      have final witnesses, but none with an element. Those bytes a strict reader refuses. */
  lemma ExtractedIsMinimalIff(data: seq<Byte>, expected: seq<Outpoint>, marker: int, expectedTx: Option<UnsignedTransaction>)
    requires Extract(data, expected, marker, expectedTx).Ok?
    ensures DecodePsbt(data).Ok?
    ensures ReadStrict(Extract(data, expected, marker, expectedTx).value) ==
              if OnlyEmptyWitnesses(DecodePsbt(data).value.inputMaps) then Err(SuperfluousWitness)
              else ReadTransaction(Extract(data, expected, marker, expectedTx).value)
  {
    hide DecodePsbt, Extract, ReadTransaction, Carries, Signed, SerializeTransaction, ValidTransaction, OnlyEmptyWitnesses, Minimal;
    var finals := ExtractedFinals(data, expected, marker, expectedTx);
    var psbt := DecodePsbt(data).value;
    TransactionIsRead(Signed(psbt.transaction, finals));
    SignedIsMinimalIff(psbt.transaction, psbt.inputMaps, marker, finals);
  }

  // ------------------------------------------------- the loops of the source

  method ReadMapLoop(data: seq<Byte>, start: nat) returns (r: Result<Read<KeyMap>, PsbtError>)
    ensures r == ReadMap(data, start, map[])
  {
    hide ReadVarBytes;
    var result: KeyMap, offset := map[], start;
    while true
      invariant ReadMap(data, start, map[]) == ReadMap(data, offset, result)
      decreases |data| - offset
    {
      var key :- OnWire(ReadVarBytes(data, offset));
      if key.value == [] {
        return Ok(Read(result, key.end));
      }
      if key.value in result {
        return Err(DuplicateKey);
      }
      var value :- OnWire(ReadVarBytes(data, key.end));
      result, offset := result[key.value := value.value], value.end;
    }
  }

  method ReadMapsLoop(data: seq<Byte>, start: nat, count: nat) returns (r: Result<Read<seq<KeyMap>>, PsbtError>)
    ensures r == ReadMaps(data, start, count)
  {
    hide ReadMap;
    var maps: seq<KeyMap>, offset := [], start;
    ghost var all := ReadMaps(data, start, count);
    assert all.Ok? ==> [] + all.value.value == all.value.value;
    for i := 0 to count
      invariant var rest := ReadMaps(data, offset, count - i);
                all == if rest.Ok? then Ok(Read(maps + rest.value.value, rest.value.end)) else rest
    {
      var m :- ReadMapLoop(data, offset);
      ghost var rest := ReadMaps(data, m.end, count - i - 1);
      assert rest.Ok? ==> maps + ([m.value] + rest.value.value) == (maps + [m.value]) + rest.value.value;
      maps, offset := maps + [m.value], m.end;
    }
    r := Ok(Read(maps, offset));
    assert maps + [] == maps;
  }

  method FinalsLoop(maps: seq<KeyMap>, marker: int)
    returns (r: Result<seq<Final>, PsbtError>)
    ensures r == Finals(maps, 0, marker)
  {
    hide FinalOf;
    var finals: seq<Final> := [];
    ghost var all := Finals(maps, 0, marker);
    assert all.Ok? ==> [] + all.value == all.value;
    for index := 0 to |maps|
      invariant var rest := Finals(maps, index, marker);
                all == if rest.Ok? then Ok(finals + rest.value) else rest
    {
      var final :- FinalOf(maps[index], index == marker);
      ghost var rest := Finals(maps, index + 1, marker);
      assert rest.Ok? ==> finals + ([final] + rest.value) == (finals + [final]) + rest.value;
      finals := finals + [final];
    }
    r := Ok(finals);
    assert finals + [] == finals;
  }

  lemma {:induction false} WriteManySnoc<T>(write: T -> seq<Byte>, values: seq<T>, v: T)
    ensures WriteMany(write, values + [v]) == WriteMany(write, values) + write(v)
    decreases |values|
  {
    if values == [] {
      assert [v][1..] == [];
    } else {
      assert (values + [v])[1..] == values[1..] + [v];
      WriteManySnoc(write, values[1..], v);
    }
  }

  /** The appends that build the final transaction. */
  method Serialize(tx: UnsignedTransaction, finals: seq<Final>) returns (result: seq<Byte>)
    requires |finals| == |tx.inputs|
    ensures result == SerializeTransaction(Signed(tx, finals))
  {
    hide VarBytes, CompactSize, WriteMany;
    ghost var t := Signed(tx, finals);
    var hasWitness := HasWitness(finals);
    result := tx.version;
    if hasWitness {
      result := result + [0, 1];
    }
    var inputs := SerializeInputs(tx, finals);
    var outputs := SerializeOutputs(tx.outputs);
    result := result + CompactSize(|tx.inputs|) + inputs + CompactSize(|tx.outputs|) + outputs;
    if hasWitness {
      var stacks := SerializeStacks(finals);
      assert t.witnesses.value == seq(|finals|, i requires 0 <= i < |finals| => StackOf(finals[i]));
      result := result + stacks;
    }
    result := result + tx.locktime;
    assert result == SerializeTransaction(t);
  }

  method SerializeInputs(tx: UnsignedTransaction, finals: seq<Final>) returns (result: seq<Byte>)
    requires |finals| == |tx.inputs|
    ensures result == WriteMany(WriteSignedInput, Signed(tx, finals).inputs)
  {
    hide VarBytes, WriteMany;
    ghost var inputs := Signed(tx, finals).inputs;
    result := [];
    assert WriteMany(WriteSignedInput, inputs[..0]) == [] by { NothingWritten(WriteSignedInput, inputs[..0]); }
    for i := 0 to |tx.inputs|
      invariant result == WriteMany(WriteSignedInput, inputs[..i])
    {
      result := result + (tx.inputs[i].outpoint + (VarBytes(finals[i].scriptSig) + tx.inputs[i].sequence));
      WriteManySnoc(WriteSignedInput, inputs[..i], inputs[i]);
      assert inputs[..i + 1] == inputs[..i] + [inputs[i]];
    }
    assert inputs[..|inputs|] == inputs;
  }

  method SerializeOutputs(outputs: seq<TxOutput>) returns (result: seq<Byte>)
    ensures result == WriteMany(WriteOutput, outputs)
  {
    hide VarBytes, WriteMany;
    result := [];
    assert WriteMany(WriteOutput, outputs[..0]) == [] by { NothingWritten(WriteOutput, outputs[..0]); }
    for i := 0 to |outputs|
      invariant result == WriteMany(WriteOutput, outputs[..i])
    {
      result := result + (outputs[i].value + VarBytes(outputs[i].script));
      WriteManySnoc(WriteOutput, outputs[..i], outputs[i]);
      assert outputs[..i + 1] == outputs[..i] + [outputs[i]];
    }
    assert outputs[..|outputs|] == outputs;
  }

  method SerializeStacks(finals: seq<Final>) returns (result: seq<Byte>)
    ensures result == WriteMany(SerializeWitness, seq(|finals|, i requires 0 <= i < |finals| => StackOf(finals[i])))
  {
    hide WriteCounted, WriteMany;
    ghost var stacks := seq(|finals|, i requires 0 <= i < |finals| => StackOf(finals[i]));
    result := [];
    assert WriteMany(SerializeWitness, stacks[..0]) == [] by { NothingWritten(SerializeWitness, stacks[..0]); }
    for i := 0 to |finals|
      invariant result == WriteMany(SerializeWitness, stacks[..i])
    {
      result := result + SerializeWitness(StackOf(finals[i]));
      WriteManySnoc(SerializeWitness, stacks[..i], stacks[i]);
      assert stacks[..i + 1] == stacks[..i] + [stacks[i]];
    }
    assert stacks[..|stacks|] == stacks;
  }

  method DecodePsbtLoop(data: seq<Byte>) returns (r: Result<Parsed, PsbtError>)
    ensures r == DecodePsbt(data)
  {
    hide ReadMap, ReadMaps, ParseUnsigned;
    if |data| > MAX_PSBT_BYTES {
      return Err(TooLarge);
    }
    if !(MAGIC <= data) {
      return Err(BadMagic);
    }
    var global :- ReadMapLoop(data, 5);
    if UNSIGNED_TX !in global.value {
      return Err(MissingTransaction);
    }
    if exists key :: key in global.value && key != [] && key[0] == 0 && key != UNSIGNED_TX {
      return Err(TransactionKeyData);
    }
    if PSBT_VERSION in global.value && global.value[PSBT_VERSION] != [0, 0, 0, 0] {
      return Err(UnsupportedVersion);
    }
    var parsed := ParseUnsignedLoop(global.value[UNSIGNED_TX]);
    var transaction :- OnWire(parsed);
    var inputMaps :- ReadMapsLoop(data, global.end, |transaction.inputs|);
    var outputMaps :- ReadMapsLoop(data, inputMaps.end, |transaction.outputs|);
    r := if outputMaps.end != |data| then Err(TrailingMaps) else Ok(Parsed(transaction, inputMaps.value));
  }

  /** `extract_marker_finalized_transaction`, with its loops. */
  method ExtractLoop(data: seq<Byte>, expected: seq<Outpoint>, marker: int, expectedTx: Option<UnsignedTransaction>)
    returns (r: Result<seq<Byte>, PsbtError>)
    ensures r == Extract(data, expected, marker, expectedTx)
  {
    hide DecodePsbt, Finals, SerializeTransaction, Signed, OutpointBytes;
    var psbt :- DecodePsbtLoop(data);
    DecodedMaps(data);
    var tx := psbt.transaction;
    if expectedTx.Some? && tx != expectedTx.value {
      return Err(TransactionChanged);
    }
    if |tx.inputs| != |expected| {
      return Err(InputCountChanged);
    }
    if marker < 0 || marker >= |tx.inputs| {
      return Err(MarkerIndexOutside);
    }
    for index := 0 to |expected|
      invariant OutpointIssue(tx.inputs, expected, 0) == OutpointIssue(tx.inputs, expected, index)
    {
      if expected[index].index >= TWO_TO_32 {
        return Err(IndexOverflow);
      }
      if tx.inputs[index].outpoint != OutpointBytes(expected[index]) {
        return Err(OutpointChanged);
      }
    }
    var finals :- FinalsLoop(psbt.inputMaps, marker);
    var bytes := Serialize(tx, finals);
    r := Ok(bytes);
  }
}
