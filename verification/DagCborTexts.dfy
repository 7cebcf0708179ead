/**
 The texts of the DAG-CBOR decoder. Its test for well-formed bytes accepts exactly the
 UTF-8 encodings of sequences of Unicode scalar values (`Utf8Iff`).
 */
module DagCborTexts {
  import opened ByteStrings
  import opened DagCbor

  /** A Unicode scalar value: a code point that is no surrogate. */
  predicate Scalar(n: nat) {
    n < 0xD800 || 0xE000 <= n < 0x11_0000
  }

  function Utf8(n: nat): (s: seq<Byte>)
    requires Scalar(n)
    ensures |s| > 0
  {
    if n < 0x80 then [n]
    else if n < 0x800 then [0xC0 + n / 0x40, 0x80 + n % 0x40]
    else if n < 0x1_0000 then [0xE0 + n / 0x1000, 0x80 + n / 0x40 % 0x40, 0x80 + n % 0x40]
    else [0xF0 + n / 0x4_0000, 0x80 + n / 0x1000 % 0x40, 0x80 + n / 0x40 % 0x40, 0x80 + n % 0x40]
  }

  function Utf8All(text: seq<nat>): seq<Byte>
    requires forall i | 0 <= i < |text| :: Scalar(text[i])
  {
    if text == [] then [] else Utf8(text[0]) + Utf8All(text[1..])
  }

  lemma OnePrepended(a: Byte, rest: seq<Byte>)
    requires a < 0x80
    ensures WellFormedUtf8([a] + rest) <==> WellFormedUtf8(rest)
  {
    assert ([a] + rest)[1..] == rest;
  }

  lemma TwoPrepended(a: Byte, b: Byte, rest: seq<Byte>)
    requires 0xC2 <= a <= 0xDF && 0x80 <= b <= 0xBF
    ensures WellFormedUtf8([a, b] + rest) <==> WellFormedUtf8(rest)
  {
    assert ([a, b] + rest)[2..] == rest;
  }

  lemma ThreePrepended(a: Byte, b: Byte, c: Byte, rest: seq<Byte>)
    requires 0xE0 <= a <= 0xEF && 0x80 <= b <= 0xBF && 0x80 <= c <= 0xBF
    requires (a == 0xE0 ==> 0xA0 <= b) && (a == 0xED ==> b <= 0x9F)
    ensures WellFormedUtf8([a, b, c] + rest) <==> WellFormedUtf8(rest)
  {
    assert ([a, b, c] + rest)[3..] == rest;
  }

  lemma FourPrepended(a: Byte, b: Byte, c: Byte, d: Byte, rest: seq<Byte>)
    requires 0xF0 <= a <= 0xF4 && 0x80 <= b <= 0xBF && 0x80 <= c <= 0xBF && 0x80 <= d <= 0xBF
    requires (a == 0xF0 ==> 0x90 <= b) && (a == 0xF4 ==> b <= 0x8F)
    ensures WellFormedUtf8([a, b, c, d] + rest) <==> WellFormedUtf8(rest)
  {
    assert ([a, b, c, d] + rest)[4..] == rest;
  }

  lemma Prepended(n: nat, rest: seq<Byte>)
    requires Scalar(n)
    ensures WellFormedUtf8(Utf8(n) + rest) <==> WellFormedUtf8(rest)
  {
    hide WellFormedUtf8;
    if n < 0x80 {
      OnePrepended(n, rest);
    } else if n < 0x800 {
      TwoPrepended(0xC0 + n / 0x40, 0x80 + n % 0x40, rest);
    } else if n < 0x1_0000 {
      ThreePrepended(0xE0 + n / 0x1000, 0x80 + n / 0x40 % 0x40, 0x80 + n % 0x40, rest);
    } else {
      FourPrepended(0xF0 + n / 0x4_0000, 0x80 + n / 0x1000 % 0x40, 0x80 + n / 0x40 % 0x40, 0x80 + n % 0x40, rest);
    }
  }

  /** The number that is made of six bits more. */
  function More(high: int, byte: int): int {
    high * 0x40 + (byte - 0x80)
  }

  lemma MoreSplits(high: nat, byte: int)
    requires 0x80 <= byte <= 0xBF
    ensures More(high, byte) / 0x40 == high && 0x80 + More(high, byte) % 0x40 == byte
  {
  }

  /** The number the leading bytes of a well-formed text stand for. */
  function Leading(s: seq<Byte>): int
    requires s != [] && WellFormedUtf8(s)
  {
    if s[0] < 0x80 then s[0]
    else if s[0] < 0xE0 then More(s[0] - 0xC0, s[1])
    else if s[0] < 0xF0 then More(More(s[0] - 0xE0, s[1]), s[2])
    else More(More(More(s[0] - 0xF0, s[1]), s[2]), s[3])
  }

  lemma TwoAreWritten(a: int, b: int)
    requires 0xC2 <= a <= 0xDF && 0x80 <= b <= 0xBF
    ensures 0x80 <= More(a - 0xC0, b) < 0x800 && Utf8(More(a - 0xC0, b)) == [a, b]
  {
    MoreSplits(a - 0xC0, b);
  }

  lemma ThreeAreWritten(a: int, b: int, c: int)
    requires 0xE0 <= a <= 0xEF && 0x80 <= b <= 0xBF && 0x80 <= c <= 0xBF
    requires (a == 0xE0 ==> 0xA0 <= b) && (a == 0xED ==> b <= 0x9F)
    ensures var n := More(More(a - 0xE0, b), c);
            0x800 <= n < 0x1_0000 && Scalar(n) && Utf8(n) == [a, b, c]
  {
    var m := More(a - 0xE0, b);
    MoreSplits(a - 0xE0, b);
    MoreSplits(m, c);
    var n := More(m, c);
    assert n / 0x1000 == n / 0x40 / 0x40;
  }

  lemma FourAreWritten(a: int, b: int, c: int, d: int)
    requires 0xF0 <= a <= 0xF4 && 0x80 <= b <= 0xBF && 0x80 <= c <= 0xBF && 0x80 <= d <= 0xBF
    requires (a == 0xF0 ==> 0x90 <= b) && (a == 0xF4 ==> b <= 0x8F)
    ensures var n := More(More(More(a - 0xF0, b), c), d);
            0x1_0000 <= n < 0x11_0000 && Scalar(n) && Utf8(n) == [a, b, c, d]
  {
    var l := More(a - 0xF0, b);
    var m := More(l, c);
    var n := More(m, d);
    MoreSplits(a - 0xF0, b);
    MoreSplits(l, c);
    MoreSplits(m, d);
    assert n / 0x1000 == n / 0x40 / 0x40 && n / 0x4_0000 == n / 0x40 / 0x40 / 0x40;
  }

  lemma LeadingIsWritten(s: seq<Byte>)
    requires s != [] && WellFormedUtf8(s)
    ensures Leading(s) >= 0 && Scalar(Leading(s)) && Utf8(Leading(s)) <= s && WellFormedUtf8(s[|Utf8(Leading(s))|..])
  {
    hide Utf8, More;
    if s[0] < 0x80 {
      OneIsWritten(s[0]);
    } else if s[0] < 0xE0 {
      TwoAreWritten(s[0], s[1]);
    } else if s[0] < 0xF0 {
      ThreeAreWritten(s[0], s[1], s[2]);
    } else {
      FourAreWritten(s[0], s[1], s[2], s[3]);
    }
  }

  lemma OneIsWritten(a: nat)
    requires a < 0x80
    ensures Utf8(a) == [a]
  {
  }

  lemma {:induction false} WellFormedIsWritten(s: seq<Byte>) returns (text: seq<nat>)
    requires WellFormedUtf8(s)
    ensures (forall i | 0 <= i < |text| :: Scalar(text[i])) && Utf8All(text) == s
    decreases |s|
  {
    hide Utf8, Leading, Scalar, WellFormedUtf8;
    if s == [] {
      text := [];
    } else {
      LeadingIsWritten(s);
      var first := Leading(s);
      var k := |Utf8(first)|;
      var rest := WellFormedIsWritten(s[k..]);
      text := [first] + rest;
      assert text[1..] == rest;
      assert s == s[..k] + s[k..];
    }
  }

  lemma {:induction false} WrittenIsWellFormed(text: seq<nat>)
    requires forall i | 0 <= i < |text| :: Scalar(text[i])
    ensures WellFormedUtf8(Utf8All(text))
    decreases |text|
  {
    if text != [] {
      hide Utf8, Scalar, WellFormedUtf8;
      WrittenIsWellFormed(text[1..]);
      Prepended(text[0], Utf8All(text[1..]));
    }
  }

  ghost predicate Encodes(text: seq<nat>, s: seq<Byte>) {
    (forall i | 0 <= i < |text| :: Scalar(text[i])) && Utf8All(text) == s
  }

  /** Bytes are accepted as a text exactly when they encode a sequence of scalar values. */
  lemma Utf8Iff(s: seq<Byte>)
    ensures WellFormedUtf8(s) <==> exists text :: Encodes(text, s)
  {
    hide Utf8, Scalar, WellFormedUtf8, Utf8All;
    if WellFormedUtf8(s) {
      var text := WellFormedIsWritten(s);
      assert Encodes(text, s);
    }
    if text :| Encodes(text, s) {
      WrittenIsWellFormed(text);
    }
  }
}
