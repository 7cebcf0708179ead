/**
 Bitcoin's wire format as the wallet-acceptance script reads and writes it: compact
 sizes, length-prefixed byte strings, the unsigned transaction of a PSBT and final
 witness stacks, and two BIP 144 transaction readers to read back what the script writes.

 Every reader here is `Lawful` for its writer: it accepts exactly the strings the
 writer produces, and returns what was written. BIP 144 leaves out the marker and flag
 bytes when all witness stacks are empty (`Minimal`). `ReadTransaction` does not ask for
 this; `ReadStrict` does, and accepts exactly what BIP 144 prescribes
 (`StrictIffSerialized`).
 */
module BitcoinWire {
  import opened ByteStrings

  datatype Error =
    | Truncated
    | NonCanonicalSize
    | WitnessSerialization
    | TooManyInputs
    | NonemptyScriptSig
    | TooManyOutputs
    | TooManyElements
    | TrailingBytes
    | UnknownFlag
    | SuperfluousWitness

  type Reader<!T> = (seq<Byte>, nat) -> Result<Read<T>, Error>

  const MAX_COUNT: nat := 100_000

  // ------------------------------------------------------------ lawful readers

  /** What is read is a valid value, and stands there as the writer writes it. */
  ghost predicate Sound<T(!new)>(read: Reader<T>, write: T -> seq<Byte>, valid: T -> bool) {
    forall data: seq<Byte>, offset: nat :: read(data, offset).Ok? ==>
      var r := read(data, offset).value;
      valid(r.value) && HasAt(data, offset, write(r.value)) && r.end == offset + |write(r.value)|
  }

  /** Every valid value is read where it stands written. */
  ghost predicate Complete<T(!new)>(read: Reader<T>, write: T -> seq<Byte>, valid: T -> bool) {
    forall data: seq<Byte>, offset: nat, v: T :: valid(v) && HasAt(data, offset, write(v)) ==>
      read(data, offset) == Ok(Read(v, offset + |write(v)|))
  }

  ghost predicate Lawful<T(!new)>(read: Reader<T>, write: T -> seq<Byte>, valid: T -> bool) {
    Sound(read, write, valid) && Complete(read, write, valid)
  }

  /** `count` values, one after the other. */
  function ReadMany<T>(read: Reader<T>, data: seq<Byte>, offset: nat, count: nat): Result<Read<seq<T>>, Error>
    decreases count
  {
    if count == 0 then Ok(Read([], offset))
    else
      var first :- read(data, offset);
      var rest :- ReadMany(read, data, first.end, count - 1);
      Ok(Read([first.value] + rest.value, rest.end))
  }

  /** The loop all list readers of the source share. */
  method ReadManyLoop<T>(read: Reader<T>, data: seq<Byte>, start: nat, count: nat)
    returns (r: Result<Read<seq<T>>, Error>)
    ensures r == ReadMany(read, data, start, count)
  {
    var values: seq<T>, offset := [], start;
    ghost var all := ReadMany(read, data, start, count);
    assert all.Ok? ==> [] + all.value.value == all.value.value;
    for i := 0 to count
      invariant var rest := ReadMany(read, data, offset, count - i);
                all == if rest.Ok? then Ok(Read(values + rest.value.value, rest.value.end)) else rest
    {
      var item := read(data, offset);
      if item.Err? {
        return Err(item.error);
      }
      ghost var rest := ReadMany(read, data, item.value.end, count - i - 1);
      assert rest.Ok? ==>
        values + ([item.value.value] + rest.value.value) == (values + [item.value.value]) + rest.value.value;
      values, offset := values + [item.value.value], item.value.end;
    }
    r := Ok(Read(values, offset));
    assert values + [] == values;
  }

  function WriteMany<T>(write: T -> seq<Byte>, values: seq<T>): seq<Byte> {
    if values == [] then [] else write(values[0]) + WriteMany(write, values[1..])
  }

  lemma {:induction false} ManySound<T(!new)>(
      read: Reader<T>, write: T -> seq<Byte>, valid: T -> bool, data: seq<Byte>, offset: nat, count: nat)
    requires Sound(read, write, valid) && offset <= |data|
    ensures var r := ReadMany(read, data, offset, count);
            r.Ok? ==>
              && |r.value.value| == count && (forall v | v in r.value.value :: valid(v))
              && HasAt(data, offset, WriteMany(write, r.value.value))
              && r.value.end == offset + |WriteMany(write, r.value.value)|
    decreases count
  {
    var first := read(data, offset);
    if count > 0 && first.Ok? {
      ManySound(read, write, valid, data, first.value.end, count - 1);
      var rest := ReadMany(read, data, first.value.end, count - 1);
      if rest.Ok? {
        var all := [first.value.value] + rest.value.value;
        assert all[1..] == rest.value.value;
        HasAtConcat(data, offset, write(first.value.value), WriteMany(write, rest.value.value));
      }
    }
  }

  lemma {:induction false} ManyComplete<T(!new)>(
      read: Reader<T>, write: T -> seq<Byte>, valid: T -> bool, data: seq<Byte>, offset: nat, values: seq<T>)
    requires Complete(read, write, valid) && (forall v | v in values :: valid(v))
    requires HasAt(data, offset, WriteMany(write, values))
    ensures ReadMany(read, data, offset, |values|) == Ok(Read(values, offset + |WriteMany(write, values)|))
    decreases |values|
  {
    hide HasAt;
    if values != [] {
      HasAtConcat(data, offset, write(values[0]), WriteMany(write, values[1..]));
      assert read(data, offset) == Ok(Read(values[0], offset + |write(values[0])|));
      ManyComplete(read, write, valid, data, offset + |write(values[0])|, values[1..]);
      assert values == [values[0]] + values[1..];
    }
  }

  // ------------------------------------------------------------ compact sizes

  function SizeWidth(prefix: Byte): nat
    requires prefix >= 253
  {
    if prefix == 253 then 2 else if prefix == 254 then 4 else 8
  }

  function SizeMinimum(prefix: Byte): nat
    requires prefix >= 253
  {
    if prefix == 253 then 253 else if prefix == 254 then TWO_TO_16 else TWO_TO_32
  }

  function ReadCompactSize(data: seq<Byte>, offset: nat): (r: Result<Read<nat>, Error>)
    ensures r.Ok? ==> offset < r.value.end <= |data|
  {
    if offset >= |data| then Err(Truncated)
    else
      var prefix := data[offset];
      if prefix < 253 then Ok(Read(prefix, offset + 1))
      else
        var end := offset + 1 + SizeWidth(prefix);
        if end > |data| then Err(Truncated)
        else
          var value := FromLittleEndian(data[offset + 1..end]);
          if value < SizeMinimum(prefix) then Err(NonCanonicalSize) else Ok(Read(value, end))
  }

  function SizePrefix(n: nat): Byte
    requires n >= 253
  {
    if n < TWO_TO_16 then 253 else if n < TWO_TO_32 then 254 else 255
  }

  /** `write_compact_size` on the integers it does not refuse. */
  function CompactSize(n: nat): (s: seq<Byte>)
    ensures |s| > 0
  {
    if n < 253 then [n] else [SizePrefix(n)] + LittleEndian(n, SizeWidth(SizePrefix(n)))
  }

  predicate ValidSize(n: nat) {
    n < TWO_TO_64
  }

  lemma SizeBounds(n: nat, prefix: Byte)
    requires prefix >= 253
    ensures 253 <= n < TWO_TO_64 && SizePrefix(n) == prefix
       <==> SizeMinimum(prefix) <= n < Pow(256, SizeWidth(prefix))
  {
    Pow256Values();
  }

  lemma SizeSound(data: seq<Byte>, offset: nat)
    requires ReadCompactSize(data, offset).Ok?
    ensures var r := ReadCompactSize(data, offset).value;
            ValidSize(r.value) && HasAt(data, offset, CompactSize(r.value)) && r.end == offset + |CompactSize(r.value)|
  {
    hide LittleEndian, FromLittleEndian, HasAt, Pow;
    var prefix := data[offset];
    HasAtByte(data, offset, prefix);
    if prefix >= 253 {
      var width := SizeWidth(prefix);
      var digits := data[offset + 1..offset + 1 + width];
      LittleEndianOfFromLittleEndian(digits);
      SizeBounds(FromLittleEndian(digits), prefix);
      HasAtSlice(data, offset + 1, width);
      HasAtConcat(data, offset, [prefix], digits);
    }
  }

  lemma SizeComplete(data: seq<Byte>, offset: nat, n: nat)
    requires ValidSize(n) && HasAt(data, offset, CompactSize(n))
    ensures ReadCompactSize(data, offset) == Ok(Read(n, offset + |CompactSize(n)|))
  {
    hide LittleEndian, FromLittleEndian, Pow;
    if n < 253 {
      HasAtByte(data, offset, n);
    } else {
      var prefix := SizePrefix(n);
      var digits := LittleEndian(n, SizeWidth(prefix));
      HasAtConcat(data, offset, [prefix], digits);
      HasAtByte(data, offset, prefix);
      SizeBounds(n, prefix);
      FromLittleEndianOfLittleEndian(n, SizeWidth(prefix));
    }
  }

  /** Reading and writing compact sizes are mutual inverses on the integers below 2^64. */
  lemma CompactSizeLawful()
    ensures Lawful(ReadCompactSize, CompactSize, ValidSize)
  {
    hide ReadCompactSize, CompactSize, HasAt;
    forall data: seq<Byte>, offset: nat | ReadCompactSize(data, offset).Ok?
      ensures var r := ReadCompactSize(data, offset).value;
              ValidSize(r.value) && HasAt(data, offset, CompactSize(r.value)) && r.end == offset + |CompactSize(r.value)|
    {
      SizeSound(data, offset);
    }
    forall data: seq<Byte>, offset: nat, n: nat | ValidSize(n) && HasAt(data, offset, CompactSize(n))
      ensures ReadCompactSize(data, offset) == Ok(Read(n, offset + |CompactSize(n)|))
    {
      SizeComplete(data, offset, n);
    }
  }

  /** The bytes of a compact size: one below 253, else a byte that says how many follow, least byte first. */
  lemma CompactSizeBytes(n: nat)
    requires n < TWO_TO_64
    ensures n < 253 ==> CompactSize(n) == [n]
    ensures 253 <= n < 65536 ==> CompactSize(n) == [253, n % 256, n / 256]
    ensures 65536 <= n < TWO_TO_32 ==> |CompactSize(n)| == 5 && CompactSize(n)[0] == 254 && FromLittleEndian(CompactSize(n)[1..]) == n
    ensures TWO_TO_32 <= n ==> |CompactSize(n)| == 9 && CompactSize(n)[0] == 255 && FromLittleEndian(CompactSize(n)[1..]) == n
  {
    hide FromLittleEndian;
    Pow256Values();
    if 253 <= n < 65536 {
      assert LittleEndian(n, 2) == [n % 256] + LittleEndian(n / 256, 1);
      assert LittleEndian(n / 256, 1) == [n / 256 % 256] + LittleEndian(n / 256 / 256, 0);
    } else if n >= 65536 {
      hide LittleEndian;
      FromLittleEndianOfLittleEndian(n, SizeWidth(SizePrefix(n)));
      assert CompactSize(n)[1..] == LittleEndian(n, SizeWidth(SizePrefix(n)));
    }
  }

  // ----------------------------------------------- fixed and prefixed strings

  function RequireBytes(data: seq<Byte>, offset: nat, length: nat): (r: Result<Read<seq<Byte>>, Error>)
    ensures r.Ok? ==> |r.value.value| == length && r.value.end == offset + length <= |data|
  {
    if offset + length > |data| then Err(Truncated) else Ok(Read(data[offset..offset + length], offset + length))
  }

  function ReadVarBytes(data: seq<Byte>, offset: nat): (r: Result<Read<seq<Byte>>, Error>)
    ensures r.Ok? ==> offset < r.value.end <= |data|
  {
    var length :- ReadCompactSize(data, offset);
    RequireBytes(data, length.end, length.value)
  }

  function VarBytes(s: seq<Byte>): seq<Byte> {
    CompactSize(|s|) + s
  }

  predicate ValidString(s: seq<Byte>) {
    |s| < TWO_TO_64
  }

  lemma VarBytesSound(data: seq<Byte>, offset: nat)
    requires ReadVarBytes(data, offset).Ok?
    ensures var r := ReadVarBytes(data, offset).value;
            ValidString(r.value) && HasAt(data, offset, VarBytes(r.value)) && r.end == offset + |VarBytes(r.value)|
  {
    hide CompactSize;
    SizeSound(data, offset);
    var length := ReadCompactSize(data, offset).value;
    HasAtConcat(data, offset, CompactSize(length.value), ReadVarBytes(data, offset).value.value);
  }

  lemma VarBytesComplete(data: seq<Byte>, offset: nat, s: seq<Byte>)
    requires ValidString(s) && HasAt(data, offset, VarBytes(s))
    ensures ReadVarBytes(data, offset) == Ok(Read(s, offset + |VarBytes(s)|))
  {
    hide CompactSize, ReadCompactSize;
    HasAtConcat(data, offset, CompactSize(|s|), s);
    SizeComplete(data, offset, |s|);
  }

  lemma VarBytesLawful()
    ensures Lawful(ReadVarBytes, VarBytes, ValidString)
  {
    hide ReadVarBytes, VarBytes, HasAt;
    forall data: seq<Byte>, offset: nat | ReadVarBytes(data, offset).Ok?
      ensures var r := ReadVarBytes(data, offset).value;
              ValidString(r.value) && HasAt(data, offset, VarBytes(r.value)) && r.end == offset + |VarBytes(r.value)|
    {
      VarBytesSound(data, offset);
    }
    forall data: seq<Byte>, offset: nat, s: seq<Byte> | ValidString(s) && HasAt(data, offset, VarBytes(s))
      ensures ReadVarBytes(data, offset) == Ok(Read(s, offset + |VarBytes(s)|))
    {
      VarBytesComplete(data, offset, s);
    }
  }

  // ------------------------------------------------------------ counted lists

  /** A count, which may be refused, and that many values. */
  function ReadCounted<T>(read: Reader<T>, refuse: nat -> Option<Error>, data: seq<Byte>, offset: nat)
    : Result<Read<seq<T>>, Error>
  {
    var count :- ReadCompactSize(data, offset);
    if refuse(count.value).Some? then Err(refuse(count.value).value)
    else ReadMany(read, data, count.end, count.value)
  }

  function WriteCounted<T>(write: T -> seq<Byte>, values: seq<T>): seq<Byte> {
    CompactSize(|values|) + WriteMany(write, values)
  }

  ghost predicate ValidCounted<T(!new)>(valid: T -> bool, refuse: nat -> Option<Error>, values: seq<T>) {
    |values| < TWO_TO_64 && refuse(|values|).None? && forall v | v in values :: valid(v)
  }

  lemma CountedSound<T(!new)>(
      read: Reader<T>, write: T -> seq<Byte>, valid: T -> bool, refuse: nat -> Option<Error>, data: seq<Byte>, offset: nat)
    requires Sound(read, write, valid) && ReadCounted(read, refuse, data, offset).Ok?
    ensures var r := ReadCounted(read, refuse, data, offset).value;
            && ValidCounted(valid, refuse, r.value)
            && HasAt(data, offset, WriteCounted(write, r.value)) && r.end == offset + |WriteCounted(write, r.value)|
  {
    hide CompactSize, ReadCompactSize, Sound;
    SizeSound(data, offset);
    var count := ReadCompactSize(data, offset).value;
    ManySound(read, write, valid, data, count.end, count.value);
    HasAtConcat(data, offset, CompactSize(count.value), WriteMany(write, ReadCounted(read, refuse, data, offset).value.value));
  }

  lemma CountedComplete<T(!new)>(
      read: Reader<T>, write: T -> seq<Byte>, valid: T -> bool, refuse: nat -> Option<Error>,
      data: seq<Byte>, offset: nat, values: seq<T>)
    requires Complete(read, write, valid) && ValidCounted(valid, refuse, values)
    requires HasAt(data, offset, WriteCounted(write, values))
    ensures ReadCounted(read, refuse, data, offset) == Ok(Read(values, offset + |WriteCounted(write, values)|))
  {
    hide CompactSize, ReadCompactSize, Complete;
    HasAtConcat(data, offset, CompactSize(|values|), WriteMany(write, values));
    SizeComplete(data, offset, |values|);
    ManyComplete(read, write, valid, data, offset + |CompactSize(|values|)|, values);
  }

  // ------------------------------------------------------- unsigned transactions

  datatype TxInput = TxInput(outpoint: seq<Byte>, sequence: seq<Byte>)

  datatype TxOutput = TxOutput(value: seq<Byte>, script: seq<Byte>)

  datatype UnsignedTransaction = UnsignedTransaction(
    version: seq<Byte>, inputs: seq<TxInput>, outputs: seq<TxOutput>, locktime: seq<Byte>)

  function ReadInput(data: seq<Byte>, offset: nat): Result<Read<TxInput>, Error> {
    var outpoint :- RequireBytes(data, offset, 36);
    var scriptSig :- ReadVarBytes(data, outpoint.end);
    if scriptSig.value != [] then Err(NonemptyScriptSig)
    else
      var sequence :- RequireBytes(data, scriptSig.end, 4);
      Ok(Read(TxInput(outpoint.value, sequence.value), sequence.end))
  }

  function WriteInput(i: TxInput): seq<Byte> {
    i.outpoint + (VarBytes([]) + i.sequence)
  }

  predicate ValidInput(i: TxInput) {
    |i.outpoint| == 36 && |i.sequence| == 4
  }

  lemma InputLawful()
    ensures Lawful(ReadInput, WriteInput, ValidInput)
  {
    hide VarBytes, ReadVarBytes;
    forall data: seq<Byte>, offset: nat | ReadInput(data, offset).Ok?
      ensures var r := ReadInput(data, offset).value;
              ValidInput(r.value) && HasAt(data, offset, WriteInput(r.value)) && r.end == offset + |WriteInput(r.value)|
    {
      var i := ReadInput(data, offset).value.value;
      VarBytesSound(data, offset + 36);
      HasAtConcat(data, offset + 36, VarBytes([]), i.sequence);
      HasAtConcat(data, offset, i.outpoint, VarBytes([]) + i.sequence);
    }
    forall data: seq<Byte>, offset: nat, i: TxInput | ValidInput(i) && HasAt(data, offset, WriteInput(i))
      ensures ReadInput(data, offset) == Ok(Read(i, offset + |WriteInput(i)|))
    {
      HasAtConcat(data, offset, i.outpoint, VarBytes([]) + i.sequence);
      HasAtConcat(data, offset + 36, VarBytes([]), i.sequence);
      VarBytesComplete(data, offset + 36, []);
    }
  }

  function ReadOutput(data: seq<Byte>, offset: nat): Result<Read<TxOutput>, Error> {
    var value :- RequireBytes(data, offset, 8);
    var script :- ReadVarBytes(data, value.end);
    Ok(Read(TxOutput(value.value, script.value), script.end))
  }

  function WriteOutput(o: TxOutput): seq<Byte> {
    o.value + VarBytes(o.script)
  }

  predicate ValidOutput(o: TxOutput) {
    |o.value| == 8 && ValidString(o.script)
  }

  lemma OutputLawful()
    ensures Lawful(ReadOutput, WriteOutput, ValidOutput)
  {
    hide VarBytes, ReadVarBytes;
    forall data: seq<Byte>, offset: nat | ReadOutput(data, offset).Ok?
      ensures var r := ReadOutput(data, offset).value;
              ValidOutput(r.value) && HasAt(data, offset, WriteOutput(r.value)) && r.end == offset + |WriteOutput(r.value)|
    {
      var o := ReadOutput(data, offset).value.value;
      VarBytesSound(data, offset + 8);
      HasAtConcat(data, offset, o.value, VarBytes(o.script));
    }
    forall data: seq<Byte>, offset: nat, o: TxOutput | ValidOutput(o) && HasAt(data, offset, WriteOutput(o))
      ensures ReadOutput(data, offset) == Ok(Read(o, offset + |WriteOutput(o)|))
    {
      HasAtConcat(data, offset, o.value, VarBytes(o.script));
      VarBytesComplete(data, offset + 8, o.script);
    }
  }

  function RefuseInputCount(count: nat): Option<Error> {
    if count == 0 then Some(WitnessSerialization) else if count > MAX_COUNT then Some(TooManyInputs) else None
  }

  function RefuseOutputCount(count: nat): Option<Error> {
    if count > MAX_COUNT then Some(TooManyOutputs) else None
  }

  function RefuseElementCount(count: nat): Option<Error> {
    if count > MAX_COUNT then Some(TooManyElements) else None
  }

  function RefuseNone(count: nat): Option<Error> {
    None
  }

  /** `parse_unsigned_transaction`. */
  function ParseUnsigned(data: seq<Byte>): Result<UnsignedTransaction, Error> {
    var version :- RequireBytes(data, 0, 4);
    var inputs :- ReadCounted(ReadInput, RefuseInputCount, data, version.end);
    var outputs :- ReadCounted(ReadOutput, RefuseOutputCount, data, inputs.end);
    var locktime :- RequireBytes(data, outputs.end, 4);
    if locktime.end != |data| then Err(TrailingBytes)
    else Ok(UnsignedTransaction(version.value, inputs.value, outputs.value, locktime.value))
  }

  function SerializeUnsigned(tx: UnsignedTransaction): seq<Byte> {
    tx.version + (WriteCounted(WriteInput, tx.inputs) + (WriteCounted(WriteOutput, tx.outputs) + tx.locktime))
  }

  ghost predicate ValidUnsigned(tx: UnsignedTransaction) {
    && |tx.version| == 4 && |tx.locktime| == 4
    && 0 < |tx.inputs| <= 100000 && |tx.outputs| <= 100000
    && (forall i | i in tx.inputs :: |i.outpoint| == 36 && |i.sequence| == 4)
    && (forall o | o in tx.outputs :: |o.value| == 8 && |o.script| < TWO_TO_64)
  }

  lemma ValidUnsignedIff(tx: UnsignedTransaction)
    ensures ValidUnsigned(tx) <==>
              && |tx.version| == 4 && |tx.locktime| == 4
              && ValidCounted(ValidInput, RefuseInputCount, tx.inputs)
              && ValidCounted(ValidOutput, RefuseOutputCount, tx.outputs)
  {
  }

  /** An unsigned transaction has exactly one serialization, and the parser accepts nothing else. */
  lemma UnsignedIffSerialized(data: seq<Byte>, tx: UnsignedTransaction)
    ensures ParseUnsigned(data) == Ok(tx) <==> ValidUnsigned(tx) && data == SerializeUnsigned(tx)
  {
    if ParseUnsigned(data) == Ok(tx) {
      UnsignedSound(data, tx);
    }
    if ValidUnsigned(tx) && data == SerializeUnsigned(tx) {
      UnsignedComplete(data, tx);
    }
  }

  lemma UnsignedSound(data: seq<Byte>, tx: UnsignedTransaction)
    requires ParseUnsigned(data) == Ok(tx)
    ensures ValidUnsigned(tx) && data == SerializeUnsigned(tx)
  {
    hide ReadCounted, WriteCounted, ValidCounted, Sound, Complete;
    ValidUnsignedIff(tx);
    InputLawful();
    OutputLawful();
    CountedSound(ReadInput, WriteInput, ValidInput, RefuseInputCount, data, 4);
    var inputs, outputs := WriteCounted(WriteInput, tx.inputs), WriteCounted(WriteOutput, tx.outputs);
    var middle := 4 + |inputs|;
    CountedSound(ReadOutput, WriteOutput, ValidOutput, RefuseOutputCount, data, middle);
    HasAtConcat(data, middle, outputs, tx.locktime);
    HasAtConcat(data, 4, inputs, outputs + tx.locktime);
    HasAtConcat(data, 0, tx.version, inputs + (outputs + tx.locktime));
    assert data == data[0..|data|];
  }

  lemma UnsignedComplete(data: seq<Byte>, tx: UnsignedTransaction)
    requires ValidUnsigned(tx) && data == SerializeUnsigned(tx)
    ensures ParseUnsigned(data) == Ok(tx)
  {
    hide ReadCounted, WriteCounted, ValidCounted, Sound, Complete;
    ValidUnsignedIff(tx);
    InputLawful();
    OutputLawful();
    var inputs, outputs := WriteCounted(WriteInput, tx.inputs), WriteCounted(WriteOutput, tx.outputs);
    assert data[0..|data|] == data;
    HasAtConcat(data, 0, tx.version, inputs + (outputs + tx.locktime));
    HasAtConcat(data, 4, inputs, outputs + tx.locktime);
    HasAtConcat(data, 4 + |inputs|, outputs, tx.locktime);
    CountedComplete(ReadInput, WriteInput, ValidInput, RefuseInputCount, data, 4, tx.inputs);
    CountedComplete(ReadOutput, WriteOutput, ValidOutput, RefuseOutputCount, data, 4 + |inputs|, tx.outputs);
  }

  method ParseUnsignedLoop(data: seq<Byte>) returns (r: Result<UnsignedTransaction, Error>)
    ensures r == ParseUnsigned(data)
  {
    hide ReadMany, ReadCompactSize, ReadInput, ReadOutput;
    var version :- RequireBytes(data, 0, 4);
    var inputCount :- ReadCompactSize(data, version.end);
    if inputCount.value == 0 {
      return Err(WitnessSerialization);
    }
    if inputCount.value > MAX_COUNT {
      return Err(TooManyInputs);
    }
    var inputs :- ReadManyLoop(ReadInput, data, inputCount.end, inputCount.value);
    var outputCount :- ReadCompactSize(data, inputs.end);
    if outputCount.value > MAX_COUNT {
      return Err(TooManyOutputs);
    }
    var outputs :- ReadManyLoop(ReadOutput, data, outputCount.end, outputCount.value);
    var locktime :- RequireBytes(data, outputs.end, 4);
    if locktime.end != |data| {
      return Err(TrailingBytes);
    }
    r := Ok(UnsignedTransaction(version.value, inputs.value, outputs.value, locktime.value));
  }

  // ------------------------------------------------------------ witness stacks

  type Stack = seq<seq<Byte>>

  /** `parse_final_witness`. */
  function ParseWitness(data: seq<Byte>): Result<Stack, Error> {
    var stack :- ReadCounted(ReadVarBytes, RefuseElementCount, data, 0);
    if stack.end != |data| then Err(TrailingBytes) else Ok(stack.value)
  }

  method ParseWitnessLoop(data: seq<Byte>) returns (r: Result<Stack, Error>)
    ensures r == ParseWitness(data)
  {
    hide ReadMany, ReadCompactSize, ReadVarBytes;
    var count :- ReadCompactSize(data, 0);
    if count.value > MAX_COUNT {
      return Err(TooManyElements);
    }
    var stack :- ReadManyLoop(ReadVarBytes, data, count.end, count.value);
    r := if stack.end != |data| then Err(TrailingBytes) else Ok(stack.value);
  }

  /** `serialize_witness`. */
  function SerializeWitness(stack: Stack): seq<Byte> {
    WriteCounted(VarBytes, stack)
  }

  ghost predicate ValidStack(stack: Stack) {
    |stack| <= 100000 && forall s | s in stack :: |s| < TWO_TO_64
  }

  lemma ValidStackIff(stack: Stack)
    ensures ValidStack(stack) <==> ValidCounted(ValidString, RefuseElementCount, stack)
  {
  }

  /** Parsing and serializing witness stacks are mutual inverses. */
  lemma WitnessIffSerialized(data: seq<Byte>, stack: Stack)
    ensures ParseWitness(data) == Ok(stack) <==> ValidStack(stack) && data == SerializeWitness(stack)
  {
    hide ReadCounted, WriteCounted, ValidCounted, Sound, Complete;
    VarBytesLawful();
    ValidStackIff(stack);
    assert data[0..|data|] == data;
    if ParseWitness(data) == Ok(stack) {
      CountedSound(ReadVarBytes, VarBytes, ValidString, RefuseElementCount, data, 0);
    }
    if ValidStack(stack) && data == SerializeWitness(stack) {
      CountedComplete(ReadVarBytes, VarBytes, ValidString, RefuseElementCount, data, 0, stack);
    }
  }

  // ---------------------------------------------------------- BIP 144 transactions

  datatype SignedInput = SignedInput(outpoint: seq<Byte>, scriptSig: seq<Byte>, sequence: seq<Byte>)

  /** A transaction as BIP 144 serializes it; `witnesses` is present when the marker and flag bytes are. */
  datatype Transaction = Transaction(
    version: seq<Byte>, inputs: seq<SignedInput>, outputs: seq<TxOutput>,
    witnesses: Option<seq<Stack>>, locktime: seq<Byte>)

  function ReadSignedInput(data: seq<Byte>, offset: nat): Result<Read<SignedInput>, Error> {
    var outpoint :- RequireBytes(data, offset, 36);
    var scriptSig :- ReadVarBytes(data, outpoint.end);
    var sequence :- RequireBytes(data, scriptSig.end, 4);
    Ok(Read(SignedInput(outpoint.value, scriptSig.value, sequence.value), sequence.end))
  }

  function WriteSignedInput(i: SignedInput): seq<Byte> {
    i.outpoint + (VarBytes(i.scriptSig) + i.sequence)
  }

  predicate ValidSignedInput(i: SignedInput) {
    |i.outpoint| == 36 && ValidString(i.scriptSig) && |i.sequence| == 4
  }

  lemma SignedInputLawful()
    ensures Lawful(ReadSignedInput, WriteSignedInput, ValidSignedInput)
  {
    hide VarBytes, ReadVarBytes;
    forall data: seq<Byte>, offset: nat | ReadSignedInput(data, offset).Ok?
      ensures var r := ReadSignedInput(data, offset).value;
              && ValidSignedInput(r.value)
              && HasAt(data, offset, WriteSignedInput(r.value)) && r.end == offset + |WriteSignedInput(r.value)|
    {
      var i := ReadSignedInput(data, offset).value.value;
      VarBytesSound(data, offset + 36);
      HasAtConcat(data, offset + 36, VarBytes(i.scriptSig), i.sequence);
      HasAtConcat(data, offset, i.outpoint, VarBytes(i.scriptSig) + i.sequence);
    }
    forall data: seq<Byte>, offset: nat, i: SignedInput | ValidSignedInput(i) && HasAt(data, offset, WriteSignedInput(i))
      ensures ReadSignedInput(data, offset) == Ok(Read(i, offset + |WriteSignedInput(i)|))
    {
      HasAtConcat(data, offset, i.outpoint, VarBytes(i.scriptSig) + i.sequence);
      HasAtConcat(data, offset + 36, VarBytes(i.scriptSig), i.sequence);
      VarBytesComplete(data, offset + 36, i.scriptSig);
    }
  }

  function ReadStack(data: seq<Byte>, offset: nat): Result<Read<Stack>, Error> {
    ReadCounted(ReadVarBytes, RefuseNone, data, offset)
  }

  ghost predicate AnyStack(stack: Stack) {
    ValidCounted(ValidString, RefuseNone, stack)
  }

  lemma StackLawful()
    ensures Lawful(ReadStack, SerializeWitness, AnyStack)
  {
    hide ReadCounted, WriteCounted, ValidCounted, HasAt;
    VarBytesLawful();
    forall data: seq<Byte>, offset: nat | ReadStack(data, offset).Ok?
      ensures var r := ReadStack(data, offset).value;
              AnyStack(r.value) && HasAt(data, offset, SerializeWitness(r.value)) && r.end == offset + |SerializeWitness(r.value)|
    {
      CountedSound(ReadVarBytes, VarBytes, ValidString, RefuseNone, data, offset);
    }
    forall data: seq<Byte>, offset: nat, stack: Stack | AnyStack(stack) && HasAt(data, offset, SerializeWitness(stack))
      ensures ReadStack(data, offset) == Ok(Read(stack, offset + |SerializeWitness(stack)|))
    {
      CountedComplete(ReadVarBytes, VarBytes, ValidString, RefuseNone, data, offset, stack);
    }
  }

  /** A BIP 144 reader: a zero input count is the marker, and must be followed by flag 1. The stacks may all be empty. */
  function ReadTransaction(data: seq<Byte>): Result<Transaction, Error> {
    var version :- RequireBytes(data, 0, 4);
    if 4 < |data| && data[4] == 0 then
      if !(5 < |data| && data[5] == 1) then Err(UnknownFlag)
      else
        var inputs :- ReadCounted(ReadSignedInput, RefuseNone, data, 6);
        var outputs :- ReadCounted(ReadOutput, RefuseNone, data, inputs.end);
        var stacks :- ReadMany(ReadStack, data, outputs.end, |inputs.value|);
        Finish(data, version.value, inputs.value, outputs.value, Some(stacks.value), stacks.end)
    else
      var inputs :- ReadCounted(ReadSignedInput, RefuseNone, data, 4);
      var outputs :- ReadCounted(ReadOutput, RefuseNone, data, inputs.end);
      Finish(data, version.value, inputs.value, outputs.value, None, outputs.end)
  }

  function Finish(data: seq<Byte>, version: seq<Byte>, inputs: seq<SignedInput>, outputs: seq<TxOutput>,
                  witnesses: Option<seq<Stack>>, offset: nat): Result<Transaction, Error>
  {
    var locktime :- RequireBytes(data, offset, 4);
    if locktime.end != |data| then Err(TrailingBytes)
    else Ok(Transaction(version, inputs, outputs, witnesses, locktime.value))
  }

  /** What the script writes: the marker and flag whenever witnesses are present, even if all are empty. It is what
      BIP 144 prescribes for the transactions that are `Minimal`. */
  function SerializeTransaction(tx: Transaction): seq<Byte> {
    var inputs, outputs := WriteCounted(WriteSignedInput, tx.inputs), WriteCounted(WriteOutput, tx.outputs);
    match tx.witnesses
    case None => tx.version + (inputs + (outputs + tx.locktime))
    case Some(stacks) =>
      tx.version + ([0, 1] + (inputs + (outputs + (WriteMany(SerializeWitness, stacks) + tx.locktime))))
  }

  ghost predicate ValidTransaction(tx: Transaction) {
    && |tx.version| == 4 && |tx.locktime| == 4 && tx.inputs != []
    && ValidCounted(ValidSignedInput, RefuseNone, tx.inputs)
    && ValidCounted(ValidOutput, RefuseNone, tx.outputs)
    && (tx.witnesses.Some? ==>
          && |tx.witnesses.value| == |tx.inputs|
          && forall stack | stack in tx.witnesses.value :: AnyStack(stack))
  }

  /** Every transaction with at least one input is read back from its serialization. */
  lemma TransactionIsRead(tx: Transaction)
    requires ValidTransaction(tx)
    ensures ReadTransaction(SerializeTransaction(tx)) == Ok(tx)
  {
    if tx.witnesses.Some? {
      WitnessTransactionIsRead(tx);
    } else {
      PlainTransactionIsRead(tx);
    }
  }

  lemma PlainTransactionIsRead(tx: Transaction)
    requires ValidTransaction(tx) && tx.witnesses.None?
    ensures ReadTransaction(SerializeTransaction(tx)) == Ok(tx)
  {
    hide ReadCounted, WriteCounted, Sound, Complete;
    SignedInputLawful();
    OutputLawful();
    var data := SerializeTransaction(tx);
    var inputs, outputs := WriteCounted(WriteSignedInput, tx.inputs), WriteCounted(WriteOutput, tx.outputs);
    assert data[0..|data|] == data;
    HasAtConcat(data, 0, tx.version, inputs + (outputs + tx.locktime));
    HasAtConcat(data, 4, inputs, outputs + tx.locktime);
    HasAtConcat(data, 4 + |inputs|, outputs, tx.locktime);
    NonzeroCount(data, 4, WriteSignedInput, tx.inputs);
    CountedComplete(ReadSignedInput, WriteSignedInput, ValidSignedInput, RefuseNone, data, 4, tx.inputs);
    CountedComplete(ReadOutput, WriteOutput, ValidOutput, RefuseNone, data, 4 + |inputs|, tx.outputs);
  }

  lemma WitnessTransactionIsRead(tx: Transaction)
    requires ValidTransaction(tx) && tx.witnesses.Some?
    ensures ReadTransaction(SerializeTransaction(tx)) == Ok(tx)
  {
    hide ReadCounted, WriteCounted, ValidCounted, Sound, Complete, WriteMany, ReadMany, AnyStack;
    SignedInputLawful();
    OutputLawful();
    StackLawful();
    var data := SerializeTransaction(tx);
    var inputs, outputs := WriteCounted(WriteSignedInput, tx.inputs), WriteCounted(WriteOutput, tx.outputs);
    var stacks := WriteMany(SerializeWitness, tx.witnesses.value);
    assert data[0..|data|] == data;
    HasAtConcat(data, 0, tx.version, [0, 1] + (inputs + (outputs + (stacks + tx.locktime))));
    HasAtConcat(data, 4, [0, 1], inputs + (outputs + (stacks + tx.locktime)));
    HasAtConcat(data, 6, inputs, outputs + (stacks + tx.locktime));
    HasAtConcat(data, 6 + |inputs|, outputs, stacks + tx.locktime);
    HasAtConcat(data, 6 + |inputs| + |outputs|, stacks, tx.locktime);
    assert data[4..6] == [0, 1];
    assert data[4] == data[4..6][0] && data[5] == data[4..6][1];
    CountedComplete(ReadSignedInput, WriteSignedInput, ValidSignedInput, RefuseNone, data, 6, tx.inputs);
    CountedComplete(ReadOutput, WriteOutput, ValidOutput, RefuseNone, data, 6 + |inputs|, tx.outputs);
    ManyComplete(ReadStack, SerializeWitness, AnyStack, data, 6 + |inputs| + |outputs|, tx.witnesses.value);
  }

  /** A nonempty list does not start with a zero byte, so it cannot be taken for a marker. */
  lemma NonzeroCount<T>(data: seq<Byte>, offset: nat, write: T -> seq<Byte>, values: seq<T>)
    requires values != [] && |values| < TWO_TO_64 && HasAt(data, offset, WriteCounted(write, values))
    ensures offset < |data| && data[offset] != 0
  {
    hide WriteMany, LittleEndian;
    var count := CompactSize(|values|);
    assert WriteCounted(write, values)[0] == count[0];
    assert data[offset..offset + |WriteCounted(write, values)|][0] == data[offset];
  }

  // --------------------------------------------------- the form BIP 144 prescribes

  /** Witnesses are present only if some stack has an element. */
  predicate Minimal(tx: Transaction) {
    tx.witnesses.Some? ==> exists i :: 0 <= i < |tx.witnesses.value| && tx.witnesses.value[i] != []
  }

  /** A reader that holds to BIP 144: no marker and flag over nothing but empty stacks. */
  function ReadStrict(data: seq<Byte>): Result<Transaction, Error> {
    var tx :- ReadTransaction(data);
    if Minimal(tx) then Ok(tx) else Err(SuperfluousWitness)
  }

  /** The strict reader accepts exactly the serializations of the transactions that have an input and are minimal. */
  lemma StrictIffSerialized(data: seq<Byte>, tx: Transaction)
    ensures ReadStrict(data) == Ok(tx) <==> ValidTransaction(tx) && Minimal(tx) && data == SerializeTransaction(tx)
  {
    hide ReadTransaction, ValidTransaction, SerializeTransaction;
    if ReadStrict(data) == Ok(tx) {
      if tx.witnesses.Some? {
        WitnessTransactionSound(data, tx);
      } else {
        PlainTransactionSound(data, tx);
      }
    }
    if ValidTransaction(tx) && data == SerializeTransaction(tx) {
      TransactionIsRead(tx);
    }
  }

  lemma PlainTransactionSound(data: seq<Byte>, tx: Transaction)
    requires ReadTransaction(data) == Ok(tx) && tx.witnesses.None?
    ensures ValidTransaction(tx) && data == SerializeTransaction(tx)
  {
    hide WriteCounted, ValidCounted, Sound, Complete, ReadMany;
    SignedInputLawful();
    OutputLawful();
    CountedSound(ReadSignedInput, WriteSignedInput, ValidSignedInput, RefuseNone, data, 4);
    var inputs, outputs := WriteCounted(WriteSignedInput, tx.inputs), WriteCounted(WriteOutput, tx.outputs);
    CountedSound(ReadOutput, WriteOutput, ValidOutput, RefuseNone, data, 4 + |inputs|);
    EmptyCount(data, 4, WriteSignedInput, tx.inputs);
    HasAtConcat(data, 4 + |inputs|, outputs, tx.locktime);
    HasAtConcat(data, 4, inputs, outputs + tx.locktime);
    HasAtConcat(data, 0, tx.version, inputs + (outputs + tx.locktime));
    assert data == data[0..|data|];
  }

  lemma WitnessTransactionSound(data: seq<Byte>, tx: Transaction)
    requires ReadTransaction(data) == Ok(tx) && tx.witnesses.Some? && Minimal(tx)
    ensures ValidTransaction(tx) && data == SerializeTransaction(tx)
  {
    hide WriteCounted, ValidCounted, Sound, Complete, ReadMany, WriteMany, ReadCounted, AnyStack;
    SignedInputLawful();
    OutputLawful();
    StackLawful();
    CountedSound(ReadSignedInput, WriteSignedInput, ValidSignedInput, RefuseNone, data, 6);
    var inputs, outputs := WriteCounted(WriteSignedInput, tx.inputs), WriteCounted(WriteOutput, tx.outputs);
    CountedSound(ReadOutput, WriteOutput, ValidOutput, RefuseNone, data, 6 + |inputs|);
    ManySound(ReadStack, SerializeWitness, AnyStack, data, 6 + |inputs| + |outputs|, |tx.inputs|);
    assert data[4..6] == [0, 1];
    WitnessLayout(data, tx.version, inputs, outputs, WriteMany(SerializeWitness, tx.witnesses.value), tx.locktime);
  }

  /** The parts of a witness serialization, one after the other, make up the whole. */
  lemma WitnessLayout(
      data: seq<Byte>, version: seq<Byte>, inputs: seq<Byte>, outputs: seq<Byte>, stacks: seq<Byte>, locktime: seq<Byte>)
    requires |version| == 4 && HasAt(data, 0, version) && HasAt(data, 4, [0, 1]) && HasAt(data, 6, inputs)
    requires HasAt(data, 6 + |inputs|, outputs) && HasAt(data, 6 + |inputs| + |outputs|, stacks)
    requires HasAt(data, 6 + |inputs| + |outputs| + |stacks|, locktime)
    requires |data| == 6 + |inputs| + |outputs| + |stacks| + |locktime|
    ensures data == version + ([0, 1] + (inputs + (outputs + (stacks + locktime))))
  {
    HasAtConcat(data, 6 + |inputs| + |outputs|, stacks, locktime);
    HasAtConcat(data, 6 + |inputs|, outputs, stacks + locktime);
    HasAtConcat(data, 6, inputs, outputs + (stacks + locktime));
    HasAtConcat(data, 4, [0, 1], inputs + (outputs + (stacks + locktime)));
    HasAtConcat(data, 0, version, [0, 1] + (inputs + (outputs + (stacks + locktime))));
    assert data == data[0..|data|];
  }

  /** An empty list is written as a zero byte. */
  lemma EmptyCount<T>(data: seq<Byte>, offset: nat, write: T -> seq<Byte>, values: seq<T>)
    requires HasAt(data, offset, WriteCounted(write, values))
    ensures values == [] ==> offset < |data| && data[offset] == 0
  {
    if values == [] {
      assert WriteCounted(write, values) == [0];
      assert data[offset..offset + 1][0] == data[offset];
    }
  }

  /** The empty stack, and no other, is written as a single zero byte. */
  lemma EmptyStackIff(stack: Stack)
    requires |stack| < TWO_TO_64
    ensures SerializeWitness(stack) == [0] <==> stack == []
  {
    hide WriteMany, LittleEndian;
    var data := SerializeWitness(stack);
    assert data[0..|data|] == data;
    if stack == [] {
      assert WriteMany(VarBytes, stack) == [] by { NothingWritten(VarBytes, stack); }
    } else {
      NonzeroCount(data, 0, VarBytes, stack);
    }
  }

  lemma NothingWritten<T>(write: T -> seq<Byte>, values: seq<T>)
    requires values == []
    ensures WriteMany(write, values) == []
  {
  }
}
