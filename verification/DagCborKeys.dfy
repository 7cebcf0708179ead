/**
 Key order, and what it fixes: for text keys the order of the encodings is length first
 (`KeyOrderIsLengthFirst`), a key set has one order (`KeySetFixesOrder`), and two
 accepted buffers with the same value, comparing maps as Python compares dicts, are
 identical (`OneEncodingPerValue`). Larger item limits keep what is accepted
 (`DecodeMonotone`).
 */
module DagCborKeys {
  import opened ByteStrings
  import opened DagCbor
  import opened DagCborCanonical

  // --------------------------------------------------------------- key order

  /** Length first, then bytewise: the older rule of RFC 8949 section 4.2.3. */
  predicate LengthFirst(a: seq<Byte>, b: seq<Byte>) {
    |a| < |b| || (|a| == |b| && LexLess(a, b))
  }

  lemma BigEndianOrder(m: nat, n: nat, width: nat)
    requires m < n < Pow(256, width)
    ensures LexLess(BigEndian(m, width), BigEndian(n, width))
    decreases width
  {
    var m', n' := m / 256, n / 256;
    if m' < n' {
      BigEndianOrder(m', n', width - 1);
      LexAppend(BigEndian(m', width - 1), BigEndian(n', width - 1), [m % 256], [n % 256]);
    } else {
      LexCommonPrefix(BigEndian(m', width - 1), [m % 256], [n % 256]);
    }
  }

  /** Strings of one length stay ordered whatever follows them. */
  lemma {:induction false} LexAppend(a: seq<int>, b: seq<int>, x: seq<int>, y: seq<int>)
    requires |a| == |b| && LexLess(a, b)
    ensures LexLess(a + x, b + y)
  {
    if a[0] == b[0] {
      LexAppend(a[1..], b[1..], x, y);
      assert (a + x)[1..] == a[1..] + x && (b + y)[1..] == b[1..] + y;
    }
  }

  /** A longer string has a larger head. */
  lemma HeadOrder(major: nat, m: nat, n: nat, x: seq<Byte>, y: seq<Byte>)
    requires major < 8 && m < n < TWO_TO_64
    ensures LexLess(Head(major, m) + x, Head(major, n) + y)
  {
    var a, b := Head(major, m), Head(major, n);
    if Width(m) == Width(n) && Width(m) > 0 {
      Pow256Values();
      BigEndianOrder(m, n, Width(m));
      assert a == [a[0]] + BigEndian(m, Width(m)) && b == [b[0]] + BigEndian(n, Width(n));
      LexCommonPrefix([a[0]], BigEndian(m, Width(m)), BigEndian(n, Width(n)));
      LexAppend(a, b, x, y);
    } else {
      assert a[0] < b[0];
      assert (a + x)[0] == a[0] && (b + y)[0] == b[0];
    }
  }

  /** For text keys the bytewise order of the encodings is the length-first order of the texts. */
  lemma KeyOrderIsLengthFirst(a: seq<Byte>, b: seq<Byte>)
    requires |a| < TWO_TO_64 && |b| < TWO_TO_64
    ensures LexLess(KeyEncoding(a), KeyEncoding(b)) <==> LengthFirst(a, b)
  {
    hide Head;
    if |a| < |b| {
      HeadOrder(3, |a|, |b|, a, b);
    } else if |b| < |a| {
      HeadOrder(3, |b|, |a|, b, a);
      LexTrichotomy(KeyEncoding(a), KeyEncoding(b));
    } else {
      LexCommonPrefix(Head(3, |a|), a, b);
    }
  }

  // ------------------------------------------------ one encoding per value

  function Keys(entries: seq<Entry>): set<seq<Byte>> {
    set i | 0 <= i < |entries| :: entries[i].key
  }

  /** Equality of decoded values with maps compared as dicts: same keys, same value for each key, in any order. */
  ghost predicate SameValue(v: Value, w: Value)
    decreases v
  {
    match (v, w)
    case (List(a), List(b)) => |a| == |b| && forall i | 0 <= i < |a| :: SameValue(a[i], b[i])
    case (Map(a), Map(b)) =>
      && Keys(a) == Keys(b)
      && forall i, j | 0 <= i < |a| && 0 <= j < |b| && a[i].key == b[j].key :: SameValue(a[i].value, b[j].value)
    case _ => v == w
  }

  /** Every key of a map in canonical order lies above `previous`, and the first one below all the others. */
  lemma {:induction false} AscendingBounds(previous: Option<seq<Byte>>, entries: seq<Entry>, i: nat)
    requires Ascending(previous, entries) && i < |entries|
    ensures Above(previous, KeyEncoding(entries[i].key))
    ensures i > 0 ==> LexLess(KeyEncoding(entries[0].key), KeyEncoding(entries[i].key))
    decreases |entries|
  {
    hide Head;
    if i > 0 {
      AscendingBounds(Some(KeyEncoding(entries[0].key)), entries[1..], i - 1);
      assert entries[1..][i - 1] == entries[i];
      if previous.Some? {
        LexTransitive(previous.value, KeyEncoding(entries[0].key), KeyEncoding(entries[i].key));
      }
    }
  }

  lemma NoKeys(entries: seq<Entry>)
    ensures Keys(entries) == {} <==> entries == []
  {
    if entries != [] {
      assert entries[0].key in Keys(entries);
    }
  }

  /** The key set of a canonical map fixes its key sequence. */
  lemma {:induction false} KeySetFixesOrder(p: Option<seq<Byte>>, a: seq<Entry>, q: Option<seq<Byte>>, b: seq<Entry>)
    requires Ascending(p, a) && Ascending(q, b) && Keys(a) == Keys(b)
    ensures |a| == |b| && forall i | 0 <= i < |a| :: a[i].key == b[i].key
    decreases |a|
  {
    hide Head, LexLess, Ascending, KeyEncoding;
    NoKeys(a);
    NoKeys(b);
    if a != [] {
      FirstKeysAgree(p, a, q, b);
      TailKeys(p, a);
      TailKeys(q, b);
      KeySetFixesOrder(Some(KeyEncoding(a[0].key)), a[1..], Some(KeyEncoding(b[0].key)), b[1..]);
      forall i | 0 <= i < |a| ensures a[i].key == b[i].key {
        if i > 0 {
          assert a[1..][i - 1] == a[i] && b[1..][i - 1] == b[i];
        }
      }
    }
  }

  lemma FirstKeysAgree(p: Option<seq<Byte>>, a: seq<Entry>, q: Option<seq<Byte>>, b: seq<Entry>)
    requires Ascending(p, a) && Ascending(q, b) && Keys(a) == Keys(b) && a != [] && b != []
    ensures a[0].key == b[0].key
  {
    hide Head, LexLess, Ascending;
    assert a[0].key in Keys(a) && b[0].key in Keys(b);
    var i :| 0 <= i < |b| && b[i].key == a[0].key;
    var j :| 0 <= j < |a| && a[j].key == b[0].key;
    AscendingBounds(q, b, i);
    AscendingBounds(p, a, j);
    if i > 0 && j > 0 {
      LexTrichotomy(KeyEncoding(a[0].key), KeyEncoding(b[0].key));
    }
  }

  lemma TailKeys(p: Option<seq<Byte>>, a: seq<Entry>)
    requires Ascending(p, a) && a != []
    ensures Keys(a[1..]) == Keys(a) - {a[0].key}
    ensures Ascending(Some(KeyEncoding(a[0].key)), a[1..])
  {
    hide Head, LexLess;
    forall i | 0 < i < |a| ensures a[i].key != a[0].key && a[i].key in Keys(a[1..]) {
      AscendingBounds(p, a, i);
      LexTrichotomy(KeyEncoding(a[0].key), KeyEncoding(a[0].key));
      assert a[1..][i - 1] == a[i];
    }
    forall k | k in Keys(a[1..]) ensures k in Keys(a) - {a[0].key} {
      var i :| 0 <= i < |a| - 1 && a[1..][i].key == k;
      assert a[i + 1].key == k;
    }
  }

  /** Canonical values that compare equal as Python values are the same value. */
  lemma {:induction false} SameCanonicalValuesAreEqual(v: Value, w: Value, depth: nat, maxItems: nat)
    requires Canonical(v, depth, maxItems) && Canonical(w, depth, maxItems) && SameValue(v, w)
    ensures v == w
    decreases v
  {
    hide Ascending, WellFormedUtf8, Keys;
    match (v, w)
    case (List(a), List(b)) =>
      forall i | 0 <= i < |a| ensures a[i] == b[i] {
        SameCanonicalValuesAreEqual(a[i], b[i], depth + 1, maxItems);
      }
    case (Map(a), Map(b)) =>
      KeySetFixesOrder(None, a, None, b);
      forall i | 0 <= i < |a| ensures a[i] == b[i] {
        assert CanonicalEntry(a[i], depth + 1, maxItems) && CanonicalEntry(b[i], depth + 1, maxItems);
        SameCanonicalValuesAreEqual(a[i].value, b[i].value, depth + 1, maxItems);
      }
    case _ =>
  }

  /** Two accepted buffers with the same value are the same buffer. */
  lemma OneEncodingPerValue(a: seq<Byte>, b: seq<Byte>, maxItems: nat)
    requires Decode(a, maxItems).Ok? && Decode(b, maxItems).Ok?
    requires SameValue(Decode(a, maxItems).value, Decode(b, maxItems).value)
    ensures a == b
  {
    hide Item, Decode, Canonical, Encode, SameValue;
    var v, w := Decode(a, maxItems).value, Decode(b, maxItems).value;
    DecodeIffEncoding(a, maxItems, v);
    DecodeIffEncoding(b, maxItems, w);
    SameCanonicalValuesAreEqual(v, w, 0, maxItems);
  }

  // --------------------------------------------------------- raised limits

  /** Canonical under one item limit means canonical under any larger one. */
  lemma {:induction false} CanonicalMonotone(v: Value, depth: nat, maxItems: nat, larger: nat)
    requires maxItems <= larger && Canonical(v, depth, maxItems)
    ensures Canonical(v, depth, larger)
    decreases v
  {
    hide Ascending, WellFormedUtf8;
    match v
    case List(items) =>
      forall i | 0 <= i < |items| ensures Canonical(items[i], depth + 1, larger) {
        CanonicalMonotone(items[i], depth + 1, maxItems, larger);
      }
    case Map(entries) =>
      forall i | 0 <= i < |entries| ensures CanonicalEntry(entries[i], depth + 1, larger) {
        assert CanonicalEntry(entries[i], depth + 1, maxItems);
        CanonicalMonotone(entries[i].value, depth + 1, maxItems, larger);
      }
    case _ =>
  }

  /** Raising the item limit keeps every accepted buffer and its value. */
  lemma DecodeMonotone(data: seq<Byte>, maxItems: nat, larger: nat)
    requires maxItems <= larger && Decode(data, maxItems).Ok?
    ensures Decode(data, larger) == Decode(data, maxItems)
  {
    hide Item, Decode, Canonical, Encode;
    var v := Decode(data, maxItems).value;
    DecodeIffEncoding(data, maxItems, v);
    CanonicalMonotone(v, 0, maxItems, larger);
    DecodeIffEncoding(data, larger, v);
  }
}
