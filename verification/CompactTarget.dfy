/**
 Bitcoin compact targets as the report comparison encodes and decodes them, and its
 check of a fork's proof-of-work limit.

 A nonzero target below 2^255 is encoded as mantissa and size with
 0x8000 <= mantissa <= 0x7FFFFF and size == bit length / 8 + 1 (`EncodeNormal`). Loss,
 monotonicity, idempotence and the exact meaning of the limit check follow.
 */
module CompactTarget {
  import opened Bits

  const SIGN_BIT: nat := 0x80_0000
  const TWO_TO_24: nat := 0x100_0000

  /** `compact_target`. */
  function Decode(bits: nat): nat {
    var exponent, mantissa := bits / TWO_TO_24, bits % TWO_TO_24;
    if exponent > 32 || mantissa >= SIGN_BIT then 0
    else if exponent <= 3 then ShiftRight(mantissa, 8 * (3 - exponent))
    else ShiftLeft(mantissa, 8 * (exponent - 3))
  }

  /** The leading three bytes of a target of `size` bytes. */
  function Mantissa(target: nat, size: nat): nat {
    if size <= 3 then ShiftLeft(target, 8 * (3 - size)) else ShiftRight(target, 8 * (size - 3))
  }

  /** `compact_from_target`. */
  function Encode(target: nat): nat {
    var size := (BitLength(target) + 7) / 8;
    var compact := Mantissa(target, size);
    if compact / SIGN_BIT % 2 == 1 then compact / 256 + (size + 1) * TWO_TO_24
    else compact + size * TWO_TO_24
  }

  /** The updates of two locals the source performs. The result decodes to at most the target, short of it by less than
      one part in 2^15, and to zero exactly for the targets that have no encoding. */
  method EncodeInPlace(target: nat) returns (bits: nat)
    ensures bits == Encode(target)
    ensures Decode(bits) == 0 <==> target == 0 || target >= Pow2(255)
    ensures 0 < target < Pow2(255) ==> Decode(bits) <= target && (target - Decode(bits)) * 0x8000 < target
  {
    hide BitLength, Mantissa, Pow2, Decode;
    NonzeroIffInRange(target);
    if target < Pow2(255) {
      EncodingLoss(target);
    }
    var size := (BitLength(target) + 7) / 8;
    var compact := Mantissa(target, size);
    if compact / SIGN_BIT % 2 == 1 {
      compact := compact / 256;
      size := size + 1;
    }
    bits := compact + size * TWO_TO_24;
  }

  /** The size byte of the encoding of a nonzero target. */
  function Size(target: nat): nat {
    BitLength(target) / 8 + 1
  }

  // ------------------------------------------------------------- normal form

  lemma Pow2Values()
    ensures Pow2(8) == 256 && Pow2(15) == 0x8000 && Pow2(16) == 0x1_0000
    ensures Pow2(23) == SIGN_BIT && Pow2(24) == TWO_TO_24
  {
  }

  /** A mantissa of at least 2^15 stays that many units large. */
  lemma {:induction false} LeadingBits(m: nat, count: nat)
    requires m >= 0x8000
    ensures ShiftLeft(m, count) >= 0x8000 * Pow2(count)
    ensures ShiftLeft(m, count) >= Pow2(count + 15)
  {
    if count > 0 {
      LeadingBits(m, count - 1);
    } else {
      Pow2Values();
    }
  }

  /** A target between 2^e and 2^(e+1) has a mantissa between the same powers, shifted by its size. */
  lemma MantissaBounds(target: nat, e: nat, size: nat)
    requires Pow2(e) <= target < Pow2(e + 1) && 8 * size <= e + 24
    ensures Pow2(e + 24 - 8 * size) <= Mantissa(target, size) < Pow2(e + 25 - 8 * size)
  {
    hide Pow2, ShiftLeft, ShiftRight;
    if size <= 3 {
      ShiftLeftBounds(target, e, 8 * (3 - size));
    } else {
      ShiftRightBounds(target, e, 8 * (size - 3));
    }
  }

  /** Dropping the lowest byte of a mantissa is taking the mantissa of one more byte. */
  lemma MantissaShift(target: nat, size: nat)
    ensures Mantissa(target, size) / 256 == Mantissa(target, size + 1)
  {
    hide ShiftLeft, ShiftRight;
    ByteShift(Mantissa(target, size));
    if size < 3 {
      ShiftBack(target, 8 * (3 - size), 8);
    } else if size == 3 {
      NoShift(target);
    } else {
      ShiftRightTwice(target, 8 * (size - 3), 8);
    }
  }

  lemma ByteShift(n: nat)
    ensures n / 256 == ShiftRight(n, 8)
  {
    assert ShiftRight(n, 8) == ShiftRight(n / 2 / 2 / 2 / 2, 4);
  }

  /** The shape of every encoding of a nonzero target. */
  lemma EncodeNormal(target: nat)
    requires target > 0
    ensures Encode(target) == Mantissa(target, Size(target)) + Size(target) * TWO_TO_24
    ensures 0x8000 <= Mantissa(target, Size(target)) < SIGN_BIT
  {
    hide Pow2, Mantissa, BitLength;
    var bits := BitLength(target);
    BitLengthBounds(target);
    Pow2Values();
    var size := (bits + 7) / 8;
    if bits % 8 == 0 {
      assert bits == 8 * size && Size(target) == size + 1;
      MantissaBounds(target, bits - 1, size);
      MantissaShift(target, size);
      MantissaBounds(target, bits - 1, size + 1);
    } else {
      assert size == Size(target) && 8 * (size - 1) < bits < 8 * size;
      MantissaBounds(target, bits - 1, size);
      Pow2Monotone(15, bits - 1 + 24 - 8 * size);
      Pow2Monotone(bits + 24 - 8 * size, 23);
    }
  }

  lemma SizeBelow32(target: nat)
    ensures Size(target) <= 32 <==> target < Pow2(255)
  {
    hide Pow2, BitLength;
    BitLengthAtLeast(target, 256);
  }

  /** What the encoding of a nonzero target below 2^255 decodes to. */
  function Rounded(target: nat): nat {
    var size := Size(target);
    if size <= 3 then target else ShiftLeft(ShiftRight(target, 8 * (size - 3)), 8 * (size - 3))
  }

  lemma DecodeEncode(target: nat)
    requires target > 0
    ensures Decode(Encode(target)) == if target < Pow2(255) then Rounded(target) else 0
  {
    hide Pow2, Size, ShiftLeft, ShiftRight, Encode;
    EncodeNormal(target);
    SizeBelow32(target);
    var size := Size(target);
    if size <= 3 {
      ShiftBack(target, 8 * (3 - size), 8 * (3 - size));
      NoShift(target);
    }
  }

  // ------------------------------------------------------------- main results

  /** Encoding loses less than one unit of the last kept byte, and less than one part in 2^15. */
  lemma EncodingLoss(target: nat)
    requires target < Pow2(255)
    ensures var decoded := Decode(Encode(target));
            && decoded <= target
            && target - decoded < Pow2(if Size(target) <= 3 then 0 else 8 * (Size(target) - 3))
            && (target > 0 ==> (target - decoded) * 0x8000 < target && decoded > 0)
  {
    hide Pow2, Size, Decode, Encode, ShiftLeft, ShiftRight;
    var k := if Size(target) <= 3 then 0 else 8 * (Size(target) - 3);
    Pow2Monotone(k, k);
    if target == 0 {
      ZeroTarget();
    } else {
      DecodeEncode(target);
      EncodeNormal(target);
      if Size(target) > 3 {
        ShiftLoss(target, k);
        LeadingBits(ShiftRight(target, k), k);
      }
    }
  }

  lemma ZeroTarget()
    ensures Encode(0) == 0 && Decode(0) == 0
  {
    hide ShiftLeft, ShiftRight;
    ZeroShifts(24);
  }

  lemma {:induction false} ZeroShifts(count: nat)
    ensures ShiftLeft(0, count) == 0 && ShiftRight(0, count) == 0
  {
    if count > 0 {
      ZeroShifts(count - 1);
    }
  }

  /** A target survives encoding as a nonzero target exactly when it lies strictly between 0 and 2^255. */
  lemma NonzeroIffInRange(target: nat)
    ensures Decode(Encode(target)) > 0 <==> 0 < target < Pow2(255)
  {
    hide Pow2, Decode, Encode, Rounded;
    if target == 0 {
      ZeroTarget();
    } else {
      DecodeEncode(target);
      if target < Pow2(255) {
        EncodingLoss(target);
      }
    }
  }

  /** Encoding is monotone. */
  lemma EncodeMonotone(a: nat, b: nat)
    requires a <= b
    ensures Encode(a) <= Encode(b)
  {
    hide Mantissa, Encode, BitLength;
    if a == 0 {
      ZeroTarget();
    } else {
      EncodeNormal(a);
      EncodeNormal(b);
      BitLengthMonotone(a, b);
      if Size(a) == Size(b) {
        MantissaMonotone(a, b, Size(a));
      }
    }
  }

  lemma MantissaMonotone(a: nat, b: nat, size: nat)
    requires a <= b
    ensures Mantissa(a, size) <= Mantissa(b, size)
  {
    hide ShiftLeft, ShiftRight;
    if size <= 3 {
      ShiftLeftMonotone(a, b, 8 * (3 - size));
    } else {
      ShiftRightMonotone(a, b, 8 * (size - 3));
    }
  }

  /** Rounding keeps the size and the mantissa. */
  lemma RoundedKeeps(target: nat)
    requires target > 0
    ensures Rounded(target) > 0 && Size(Rounded(target)) == Size(target)
    ensures Mantissa(Rounded(target), Size(target)) == Mantissa(target, Size(target))
  {
    hide Pow2, BitLength, ShiftLeft, ShiftRight;
    var size := Size(target);
    if size > 3 {
      EncodeNormal(target);
      var k := 8 * (size - 3);
      var m := ShiftRight(target, k);
      ShiftLoss(target, k);
      ShiftBack(m, k, k);
      NoShift(m);
      LeadingBits(m, k);
      Pow2Monotone(k + 15, k + 15);
      BitLengthAtLeast(Rounded(target), k + 16);
      BitLengthMonotone(Rounded(target), target);
    }
  }

  /** Encoding what an encoding decodes to changes nothing. */
  lemma EncodeIdempotent(target: nat)
    requires target < Pow2(255)
    ensures Encode(Decode(Encode(target))) == Encode(target)
  {
    hide Pow2, Mantissa, Encode, Decode, Size, Rounded;
    if target == 0 {
      ZeroTarget();
    } else {
      DecodeEncode(target);
      RoundedKeeps(target);
      EncodeNormal(target);
      EncodeNormal(Rounded(target));
    }
  }

  /** The check on `post_fork_pow_limit_bits`. */
  predicate PowLimitAccepted(bits: nat) {
    && 0 < bits <= 0xFFFF_FFFF
    && Decode(bits) != 0
    && Encode(Decode(bits)) == bits
  }

  /** Whatever decodes is below 2^255. */
  lemma DecodeBelow(bits: nat)
    ensures Decode(bits) < Pow2(255)
  {
    hide Pow2, ShiftLeft, ShiftRight;
    var exponent, mantissa := bits / TWO_TO_24, bits % TWO_TO_24;
    Pow2Values();
    Pow2Monotone(23, 255);
    if exponent <= 32 && mantissa < SIGN_BIT {
      if exponent <= 3 {
        ShiftRightBelow(mantissa, 8 * (3 - exponent));
      } else {
        var k := 8 * (exponent - 3);
        ShiftLeftMonotone(mantissa, SIGN_BIT, k);
        Pow2Shifted(23, k);
        Pow2Monotone(23 + k, 255);
      }
    }
  }

  lemma EncodeFits(target: nat)
    requires 0 < target < Pow2(255)
    ensures 0 < Encode(target) <= 0xFFFF_FFFF
  {
    hide Pow2, Mantissa, Size, Encode;
    EncodeNormal(target);
    SizeBelow32(target);
  }

  /** The limit check accepts exactly the encodings of the nonzero targets below 2^255. */
  lemma PowLimitAcceptsEncodings(bits: nat)
    ensures PowLimitAccepted(bits) <==> exists target: nat :: 0 < target < Pow2(255) && Encode(target) == bits
  {
    hide Pow2, Encode, Decode;
    if PowLimitAccepted(bits) {
      DecodeBelow(bits);
      assert 0 < Decode(bits) < Pow2(255) && Encode(Decode(bits)) == bits;
    }
    if target: nat :| 0 < target < Pow2(255) && Encode(target) == bits {
      EncodeFits(target);
      NonzeroIffInRange(target);
      EncodeIdempotent(target);
    }
  }

  /** What any compact form decodes to: nothing if its size is above 32 or its sign bit is set, else the mantissa shifted
      left by its size in bytes and right by three. */
  lemma DecodeIs(bits: nat)
    ensures var size, mantissa := bits / 0x100_0000, bits % 0x100_0000;
            Decode(bits) == if size > 32 || mantissa >= 0x80_0000 then 0 else ShiftRight(ShiftLeft(mantissa, 8 * size), 24)
  {
    hide ShiftLeft, ShiftRight;
    var size, mantissa := bits / 0x100_0000, bits % 0x100_0000;
    if size <= 3 {
      ShiftRightTwice(ShiftLeft(mantissa, 8 * size), 8 * size, 24 - 8 * size);
      ShiftBack(mantissa, 8 * size, 8 * size);
      NoShift(mantissa);
    } else {
      ShiftBack(mantissa, 8 * size, 24);
    }
  }
}
