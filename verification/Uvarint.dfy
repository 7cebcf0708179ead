/**
 Unsigned LEB128 integers as the CAR readers read them: at most ten bytes, below
 2^64, and only in their minimal form.
 */
module Uvarint {
  import opened ByteStrings

  datatype Error = Truncated | Overflow | NonMinimal

  const MAX_BYTES: nat := 10

  /** The minimal form. */
  function Leb128(n: nat): (s: seq<Byte>)
    ensures |s| > 0
  {
    if n < 128 then [n] else [128 + n % 128] + Leb128(n / 128)
  }

  /** The reader after `index` bytes, which gave `result`. The bits a byte adds lie
      above those already read, so the source's `|` is a sum. */
  function ReadFrom(data: seq<Byte>, offset: nat, index: nat, result: nat): (r: Result<Read<nat>, Error>)
    requires offset <= |data| && index <= MAX_BYTES
    ensures r.Ok? ==> offset < r.value.end <= |data|
    decreases MAX_BYTES - index
  {
    if index == MAX_BYTES then Err(Overflow)
    else if offset >= |data| then Err(Truncated)
    else if index == 9 && data[offset] > 1 then Err(Overflow)
    else
      var next: nat := result + data[offset] % 128 * Pow(128, index);
      if data[offset] < 128 then
        if index > 0 && next < Pow(128, index) then Err(NonMinimal) else Ok(Read(next, offset + 1))
      else ReadFrom(data, offset + 1, index + 1, next)
  }

  function ReadUvarint(data: seq<Byte>, offset: nat): (r: Result<Read<nat>, Error>)
    requires offset <= |data|
    ensures r.Ok? ==> offset < r.value.end <= |data|
  {
    ReadFrom(data, offset, 0, 0)
  }

  /** `read_uvarint`: the loop of the source. */
  method ReadLoop(data: seq<Byte>, start: nat) returns (r: Result<Read<nat>, Error>)
    requires start <= |data|
    ensures r == ReadUvarint(data, start)
  {
    hide Pow;
    var result: nat, offset := 0, start;
    LastPlace();
    for index := 0 to MAX_BYTES
      invariant start <= offset <= |data| && result < Pow(128, index)
      invariant ReadUvarint(data, start) == ReadFrom(data, offset, index, result)
    {
      if offset >= |data| {
        return Err(Truncated);
      }
      var byte := data[offset];
      offset := offset + 1;
      if index == 9 && byte > 1 {
        return Err(Overflow);
      }
      LowBits(result, byte % 128, index);
      result := result + byte % 128 * Pow(128, index);
      if byte < 128 {
        if index > 0 && result < Pow(128, index) {
          return Err(NonMinimal);
        }
        return Ok(Read(result, offset));
      }
    }
    r := Err(Overflow);
  }

  lemma MulMonotone(a: nat, b: nat, p: nat)
    requires a <= b
    ensures 0 <= a * p <= b * p
  {
  }

  /** A 7-bit digit and the digits above it, at place value `p`. */
  lemma PlaceValue(low: nat, high: nat, p: nat)
    ensures low * p + high * (128 * p) == (low + 128 * high) * p
  {
  }

  lemma PowStep(index: nat)
    ensures Pow(128, index + 1) == 128 * Pow(128, index)
    ensures Pow(128, index) > 0
  {
    PowPositive(128, index);
  }

  lemma LowBits(result: nat, digit: nat, index: nat)
    requires result < Pow(128, index) && digit < 128
    ensures 0 <= result + digit * Pow(128, index) < Pow(128, index + 1)
  {
    hide Pow;
    PowStep(index);
    MulMonotone(digit, 127, Pow(128, index));
  }

  /** What an accepting run reads is the minimal form of the remaining bits. */
  lemma {:induction false} AcceptedIsMinimal(data: seq<Byte>, offset: nat, index: nat, result: nat) returns (rest: nat)
    requires offset <= |data| && index <= MAX_BYTES && result < Pow(128, index)
    requires ReadFrom(data, offset, index, result).Ok?
    ensures index < MAX_BYTES && rest < 2 * Pow(128, 9 - index) && (index > 0 ==> rest > 0)
    ensures HasAt(data, offset, Leb128(rest))
    ensures ReadFrom(data, offset, index, result)
         == Ok(Read(result + rest * Pow(128, index), offset + |Leb128(rest)|))
    decreases MAX_BYTES - index
  {
    hide Pow, HasAt;
    var byte := data[offset];
    HasAtByte(data, offset, byte);
    LastPlace();
    if index < 9 {
      PowStep(8 - index);
    }
    if byte < 128 {
      rest := byte;
    } else {
      var low := byte - 128;
      LowBits(result, low, index);
      var high := AcceptedIsMinimal(data, offset + 1, index + 1, result + low * Pow(128, index));
      rest := low + 128 * high;
      PowStep(index);
      PlaceValue(low, high, Pow(128, index));
      Leb128Step(low, high);
      HasAtConcat(data, offset, [byte], Leb128(high));
    }
  }

  lemma LastPlace()
    ensures Pow(128, 0) == 1
  {
  }

  lemma Leb128Small(n: nat)
    requires n < 128
    ensures Leb128(n) == [n]
  {
  }

  lemma Leb128Step(low: nat, high: nat)
    requires low < 128 && high > 0
    ensures Leb128(low + 128 * high) == [128 + low] + Leb128(high)
  {
    var n := low + 128 * high;
    assert n % 128 == low && n / 128 == high;
  }

  lemma ReadContinues(data: seq<Byte>, offset: nat, index: nat, result: nat, low: nat)
    requires offset < |data| && index < 9 && low < 128 && data[offset] == 128 + low
    ensures 0 <= result + low * Pow(128, index)
    ensures ReadFrom(data, offset, index, result)
         == ReadFrom(data, offset + 1, index + 1, result + low * Pow(128, index))
  {
    hide Pow;
    assert data[offset] % 128 == low;
    MulMonotone(0, low, Pow(128, index));
  }

  lemma ReadStops(data: seq<Byte>, offset: nat, index: nat, result: nat)
    requires offset < |data| && index < MAX_BYTES && data[offset] < 128
    requires index == 9 ==> data[offset] <= 1
    requires index > 0 ==> data[offset] > 0
    ensures ReadFrom(data, offset, index, result) == Ok(Read(result + data[offset] * Pow(128, index), offset + 1))
  {
    hide Pow;
    if index > 0 {
      MulMonotone(1, data[offset], Pow(128, index));
    }
  }

  /** Every minimal form of a value that fits is accepted. */
  lemma {:induction false} MinimalIsAccepted(data: seq<Byte>, offset: nat, index: nat, result: nat, rest: nat)
    requires index < MAX_BYTES && rest < 2 * Pow(128, 9 - index) && (index > 0 ==> rest > 0)
    requires result < Pow(128, index) && HasAt(data, offset, Leb128(rest))
    ensures ReadFrom(data, offset, index, result)
         == Ok(Read(result + rest * Pow(128, index), offset + |Leb128(rest)|))
    decreases MAX_BYTES - index
  {
    hide Pow, HasAt, Leb128, ReadFrom;
    LastPlace();
    if index < 9 {
      PowStep(8 - index);
    }
    if rest < 128 {
      Leb128Small(rest);
      HasAtByte(data, offset, rest);
      ReadStops(data, offset, index, result);
    } else {
      var low, high := Digits(rest);
      Leb128Step(low, high);
      HasAtConcat(data, offset, [128 + low], Leb128(high));
      HasAtByte(data, offset, 128 + low);
      LowBits(result, low, index);
      var next := result + low * Pow(128, index);
      ReadContinues(data, offset, index, result, low);
      MinimalIsAccepted(data, offset + 1, index + 1, next, high);
      PowStep(index);
      PlaceValue(low, high, Pow(128, index));
    }
  }

  lemma Digits(n: nat) returns (low: nat, high: nat)
    requires n >= 128
    ensures n == low + 128 * high && low < 128 && high > 0
  {
    low, high := n % 128, n / 128;
  }

  lemma PowBound()
    ensures 2 * Pow(128, 9) == TWO_TO_64
  {
    assert Pow(128, 1) == 128 && Pow(128, 2) == 0x4000;
    PowAdd(128, 2, 2);
    PowAdd(128, 4, 4);
    PowAdd(128, 8, 1);
  }

  /** The reader accepts exactly the minimal forms of the integers below 2^64. */
  lemma ReadIffMinimal(data: seq<Byte>, offset: nat, n: nat, end: nat)
    requires offset <= |data|
    ensures ReadUvarint(data, offset) == Ok(Read(n, end))
       <==> n < TWO_TO_64 && HasAt(data, offset, Leb128(n)) && end == offset + |Leb128(n)|
  {
    hide ReadFrom;
    PowBound();
    if ReadUvarint(data, offset).Ok? {
      var rest := AcceptedIsMinimal(data, offset, 0, 0);
    }
    if n < TWO_TO_64 && HasAt(data, offset, Leb128(n)) {
      MinimalIsAccepted(data, offset, 0, 0, n);
    }
  }
}
