/**
 Byte strings as the readers and writers of this project see them: fixed-width
 integers in both byte orders, a byte string found at an offset of a buffer, and
 the lexicographic order Python uses to compare `bytes`.
 */
module ByteStrings {

  type Byte = b: int | 0 <= b < 256

  type Digest = d: seq<Byte> | |d| == 32 witness seq(32, _ => 0)

  /** SHA-256 is a parameter wherever it is used: nothing depends on which function it is. */
  type Hash = seq<Byte> -> Digest

  /** What a reader returns: the value it read, or the error it raised. */
  datatype Result<+T, +E> = Ok(value: T) | Err(error: E) {
    predicate IsFailure() {
      Err?
    }

    function PropagateFailure<U>(): Result<U, E>
      requires Err?
    {
      Err(error)
    }

    function Extract(): T
      requires Ok?
    {
      value
    }
  }

  datatype Option<+T> = None | Some(value: T)

  /** A value read from a buffer and the offset just past it. */
  datatype Read<+T> = Read(value: T, end: nat)

  // ---------------------------------------------------------------- powers

  function Pow(base: nat, exponent: nat): nat {
    if exponent == 0 then 1 else base * Pow(base, exponent - 1)
  }

  lemma {:induction false} PowPositive(base: nat, exponent: nat)
    requires base > 0
    ensures Pow(base, exponent) > 0
  {
    if exponent > 0 {
      PowPositive(base, exponent - 1);
    }
  }

  lemma {:induction false} PowAdd(base: nat, i: nat, j: nat)
    ensures Pow(base, i + j) == Pow(base, i) * Pow(base, j)
  {
    if i > 0 {
      PowAdd(base, i - 1, j);
      MulAssociative(base, Pow(base, i - 1), Pow(base, j));
    }
  }

  lemma MulAssociative(x: int, y: int, z: int)
    ensures x * (y * z) == (x * y) * z
  {
  }

  const TWO_TO_16 := 0x1_0000
  const TWO_TO_32 := 0x1_0000_0000
  const TWO_TO_64 := 0x1_0000_0000_0000_0000

  lemma Pow256Values()
    ensures Pow(256, 1) == 256
    ensures Pow(256, 2) == TWO_TO_16
    ensures Pow(256, 4) == TWO_TO_32
    ensures Pow(256, 8) == TWO_TO_64
  {
    assert Pow(256, 2) == 256 * Pow(256, 1);
    PowAdd(256, 2, 2);
    PowAdd(256, 4, 4);
  }

  // ------------------------------------------------- fixed-width integers

  /** `int.to_bytes(width, "big")`. */
  function BigEndian(n: nat, width: nat): (s: seq<Byte>)
    ensures |s| == width
  {
    if width == 0 then [] else BigEndian(n / 256, width - 1) + [n % 256]
  }

  /** `int.from_bytes(s, "big")`. */
  function FromBigEndian(s: seq<Byte>): nat {
    if s == [] then 0 else FromBigEndian(s[..|s| - 1]) * 256 + s[|s| - 1]
  }

  lemma {:induction false} FromBigEndianOfBigEndian(n: nat, width: nat)
    requires n < Pow(256, width)
    ensures FromBigEndian(BigEndian(n, width)) == n
  {
    if width > 0 {
      FromBigEndianOfBigEndian(n / 256, width - 1);
      assert BigEndian(n, width)[..width - 1] == BigEndian(n / 256, width - 1);
    }
  }

  lemma {:induction false} BigEndianOfFromBigEndian(s: seq<Byte>)
    ensures FromBigEndian(s) < Pow(256, |s|)
    ensures BigEndian(FromBigEndian(s), |s|) == s
  {
    if s != [] {
      BigEndianOfFromBigEndian(s[..|s| - 1]);
      assert s == s[..|s| - 1] + [s[|s| - 1]];
    }
  }

  /** `int.to_bytes(width, "little")` and the `struct` formats `<H`, `<I`, `<Q`. */
  function LittleEndian(n: nat, width: nat): (s: seq<Byte>)
    ensures |s| == width
  {
    if width == 0 then [] else [n % 256] + LittleEndian(n / 256, width - 1)
  }

  /** `int.from_bytes(s, "little")`. */
  function FromLittleEndian(s: seq<Byte>): nat {
    if s == [] then 0 else s[0] + 256 * FromLittleEndian(s[1..])
  }

  lemma {:induction false} FromLittleEndianOfLittleEndian(n: nat, width: nat)
    requires n < Pow(256, width)
    ensures FromLittleEndian(LittleEndian(n, width)) == n
  {
    if width > 0 {
      FromLittleEndianOfLittleEndian(n / 256, width - 1);
      assert LittleEndian(n, width)[1..] == LittleEndian(n / 256, width - 1);
    }
  }

  lemma {:induction false} LittleEndianOfFromLittleEndian(s: seq<Byte>)
    ensures FromLittleEndian(s) < Pow(256, |s|)
    ensures LittleEndian(FromLittleEndian(s), |s|) == s
  {
    if s != [] {
      LittleEndianOfFromLittleEndian(s[1..]);
      var rest := FromLittleEndian(s[1..]);
      assert (s[0] + 256 * rest) / 256 == rest && (s[0] + 256 * rest) % 256 == s[0];
      assert s == [s[0]] + s[1..];
    }
  }

  lemma LittleEndianInjective(m: nat, n: nat, width: nat)
    requires m < Pow(256, width) && n < Pow(256, width)
    requires LittleEndian(m, width) == LittleEndian(n, width)
    ensures m == n
  {
    FromLittleEndianOfLittleEndian(m, width);
    FromLittleEndianOfLittleEndian(n, width);
  }

  // ------------------------------------------------------------- buffers

  /** `part` is what the buffer holds at `offset`. */
  ghost predicate HasAt(data: seq<Byte>, offset: nat, part: seq<Byte>) {
    offset + |part| <= |data| && data[offset..offset + |part|] == part
  }

  lemma HasAtConcat(data: seq<Byte>, offset: nat, a: seq<Byte>, b: seq<Byte>)
    ensures HasAt(data, offset, a + b) <==> HasAt(data, offset, a) && HasAt(data, offset + |a|, b)
  {
    if HasAt(data, offset, a + b) {
      assert data[offset..offset + |a|] == (a + b)[..|a|];
      assert data[offset + |a|..offset + |a| + |b|] == (a + b)[|a|..];
    }
    if HasAt(data, offset, a) && HasAt(data, offset + |a|, b) {
      assert data[offset..offset + |a| + |b|]
          == data[offset..offset + |a|] + data[offset + |a|..offset + |a| + |b|];
    }
  }

  lemma HasAtSlice(data: seq<Byte>, offset: nat, length: nat)
    requires offset + length <= |data|
    ensures HasAt(data, offset, data[offset..offset + length])
  {
  }

  lemma HasAtByte(data: seq<Byte>, offset: nat, b: Byte)
    ensures HasAt(data, offset, [b]) <==> offset < |data| && data[offset] == b
  {
    if offset < |data| {
      assert data[offset..offset + 1] == [data[offset]];
    }
  }

  // ------------------------------------------------------- lexicographic order

  /** Python's `a < b` on `bytes` or on the code points of two strings. */
  predicate LexLess(a: seq<int>, b: seq<int>) {
    if b == [] then false
    else if a == [] then true
    else a[0] < b[0] || (a[0] == b[0] && LexLess(a[1..], b[1..]))
  }

  lemma {:induction false} LexTransitive(a: seq<int>, b: seq<int>, c: seq<int>)
    requires LexLess(a, b) && LexLess(b, c)
    ensures LexLess(a, c)
  {
    if a != [] && a[0] == b[0] && b[0] == c[0] {
      LexTransitive(a[1..], b[1..], c[1..]);
    }
  }

  lemma {:induction false} LexTrichotomy(a: seq<int>, b: seq<int>)
    ensures LexLess(a, b) || a == b || LexLess(b, a)
    ensures !(LexLess(a, b) && LexLess(b, a))
    ensures !LexLess(a, a)
  {
    if a != [] && b != [] && a[0] == b[0] {
      LexTrichotomy(a[1..], b[1..]);
      assert a == [a[0]] + a[1..] && b == [b[0]] + b[1..];
    }
    if a != [] {
      LexTrichotomy(a[1..], a[1..]);
    }
  }

  /** A common prefix does not change the order. */
  lemma {:induction false} LexCommonPrefix(p: seq<int>, a: seq<int>, b: seq<int>)
    ensures LexLess(p + a, p + b) <==> LexLess(a, b)
  {
    if p == [] {
      assert p + a == a && p + b == b;
    } else {
      LexCommonPrefix(p[1..], a, b);
      assert (p + a)[1..] == p[1..] + a && (p + b)[1..] == p[1..] + b;
    }
  }
}
