/**
 Shifts and bit lengths of nonnegative Python integers.
 */
module Bits {

  /** `int.bit_length`. */
  function BitLength(n: nat): nat {
    if n == 0 then 0 else 1 + BitLength(n / 2)
  }

  /** `n << count`. */
  function ShiftLeft(n: nat, count: nat): nat {
    if count == 0 then n else 2 * ShiftLeft(n, count - 1)
  }

  /** `n >> count`. */
  function ShiftRight(n: nat, count: nat): nat
    decreases count
  {
    if count == 0 then n else ShiftRight(n / 2, count - 1)
  }

  function Pow2(n: nat): nat {
    ShiftLeft(1, n)
  }

  lemma {:induction false} ShiftLeftTwice(n: nat, i: nat, j: nat)
    ensures ShiftLeft(ShiftLeft(n, i), j) == ShiftLeft(n, i + j)
  {
    if j > 0 {
      ShiftLeftTwice(n, i, j - 1);
    }
  }

  lemma {:induction false} ShiftRightTwice(n: nat, i: nat, j: nat)
    ensures ShiftRight(ShiftRight(n, i), j) == ShiftRight(n, i + j)
    decreases i
  {
    if i > 0 {
      ShiftRightTwice(n / 2, i - 1, j);
    }
  }

  /** Shifting left and back. */
  lemma {:induction false} ShiftBack(n: nat, i: nat, j: nat)
    requires j <= i
    ensures ShiftRight(ShiftLeft(n, i), j) == ShiftLeft(n, i - j)
    decreases j
  {
    if j > 0 {
      ShiftBack(n, i - 1, j - 1);
    }
  }

  lemma {:induction false} ShiftLeftMonotone(m: nat, n: nat, count: nat)
    requires m <= n
    ensures ShiftLeft(m, count) <= ShiftLeft(n, count)
    ensures m < n ==> ShiftLeft(m, count) < ShiftLeft(n, count)
  {
    if count > 0 {
      ShiftLeftMonotone(m, n, count - 1);
    }
  }

  lemma {:induction false} ShiftRightMonotone(m: nat, n: nat, count: nat)
    requires m <= n
    ensures ShiftRight(m, count) <= ShiftRight(n, count)
    decreases count
  {
    if count > 0 {
      ShiftRightMonotone(m / 2, n / 2, count - 1);
    }
  }

  lemma {:induction false} Pow2Monotone(i: nat, j: nat)
    requires i <= j
    ensures 0 < Pow2(i) <= Pow2(j)
    decreases j
  {
    if i < j {
      Pow2Monotone(i, j - 1);
    } else if i > 0 {
      Pow2Monotone(i - 1, i - 1);
    }
  }

  /** Shifting right and left again loses less than one unit of the last kept bit. */
  lemma {:induction false} ShiftLoss(n: nat, count: nat)
    ensures ShiftLeft(ShiftRight(n, count), count) <= n < ShiftLeft(ShiftRight(n, count), count) + Pow2(count)
    decreases count
  {
    if count > 0 {
      ShiftLoss(n / 2, count - 1);
    }
  }

  lemma {:induction false} ShiftLeftBounds(n: nat, e: nat, count: nat)
    requires Pow2(e) <= n < Pow2(e + 1)
    ensures Pow2(e + count) <= ShiftLeft(n, count) < Pow2(e + 1 + count)
  {
    if count > 0 {
      ShiftLeftBounds(n, e, count - 1);
    }
  }

  lemma {:induction false} ShiftRightBounds(n: nat, e: nat, count: nat)
    requires Pow2(e) <= n < Pow2(e + 1) && count <= e
    ensures Pow2(e - count) <= ShiftRight(n, count) < Pow2(e + 1 - count)
    decreases count
  {
    if count > 0 {
      ShiftRightBounds(n / 2, e - 1, count - 1);
    }
  }

  lemma {:induction false} ShiftRightBelow(n: nat, count: nat)
    ensures ShiftRight(n, count) <= n
    decreases count
  {
    if count > 0 {
      ShiftRightBelow(n / 2, count - 1);
    }
  }

  // ------------------------------------------------------------ bit lengths

  lemma {:induction false} BitLengthBounds(n: nat)
    requires n > 0
    ensures BitLength(n) > 0 && Pow2(BitLength(n) - 1) <= n < Pow2(BitLength(n))
  {
    if n > 1 {
      BitLengthBounds(n / 2);
    }
  }

  lemma {:induction false} BitLengthMonotone(m: nat, n: nat)
    requires m <= n
    ensures BitLength(m) <= BitLength(n)
  {
    if m > 0 {
      BitLengthMonotone(m / 2, n / 2);
    }
  }

  /** A target with at least this many bits is at least this large, and conversely. */
  lemma BitLengthAtLeast(n: nat, bits: nat)
    requires bits > 0
    ensures BitLength(n) >= bits <==> n >= Pow2(bits - 1)
  {
    hide Pow2, ShiftLeft;
    if n == 0 {
      Pow2Monotone(bits - 1, bits - 1);
    } else {
      BitLengthBounds(n);
      ComparePowers(n, BitLength(n), bits);
    }
  }

  lemma ComparePowers(n: nat, length: nat, bits: nat)
    requires bits > 0 && length > 0 && Pow2(length - 1) <= n < Pow2(length)
    ensures length >= bits <==> n >= Pow2(bits - 1)
  {
    hide Pow2, ShiftLeft;
    if length >= bits {
      Pow2Monotone(bits - 1, length - 1);
    } else {
      Pow2Monotone(length, bits - 1);
    }
  }

  lemma Pow2Shifted(i: nat, j: nat)
    ensures ShiftLeft(Pow2(i), j) == Pow2(i + j)
  {
    hide ShiftLeft;
    ShiftLeftTwice(1, i, j);
  }

  lemma NoShift(n: nat)
    ensures ShiftLeft(n, 0) == n && ShiftRight(n, 0) == n
  {
  }
}
