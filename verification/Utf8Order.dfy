/** The order of strings by code point is the order of their UTF-8 bytes. */
module Utf8Order {
  import opened Prelude
  import opened Encoding
  import opened Sorting

  predicate BytesLe(a: Bytes, b: Bytes) {
    a == [] || (b != [] && (a[0] < b[0] || (a[0] == b[0] && BytesLe(a[1..], b[1..]))))
  }

  lemma {:induction false} SamePrefix(p: Bytes, a: Bytes, b: Bytes)
    ensures BytesLe(p + a, p + b) <==> BytesLe(a, b)
  {
    if p == [] {
      assert p + a == a && p + b == b;
    } else {
      SamePrefix(p[1..], a, b);
      assert (p + a)[1..] == p[1..] + a && (p + b)[1..] == p[1..] + b;
    }
  }

  lemma {:induction false} FirstDifference(a: Bytes, b: Bytes, k: nat)
    requires k < |a| && k < |b| && a[..k] == b[..k] && a[k] < b[k]
    ensures BytesLe(a, b) && !BytesLe(b, a)
    decreases k
  {
    if k > 0 {
      assert a[0] == a[..k][0] && b[0] == b[..k][0];
      assert a[1..][..k - 1] == a[..k][1..] && b[1..][..k - 1] == b[..k][1..];
      FirstDifference(a[1..], b[1..], k - 1);
    }
  }

  /** The first byte in which the encodings of two characters differ. */
  predicate DifferAt(a: Bytes, b: Bytes, k: nat) {
    k < |a| && k < |b| && a[..k] == b[..k] && a[k] < b[k]
  }

  lemma Digits(m: int, n: int)
    requires 0 <= m < n
    ensures m / 0x40 <= n / 0x40 && (m / 0x40 == n / 0x40 ==> m % 0x40 < n % 0x40)
  {
  }

  lemma TwoBytesDiffer(c: char, d: char) returns (k: nat)
    requires 0x80 <= c as int < d as int < 0x800
    ensures DifferAt(EncodeChar(c), EncodeChar(d), k)
  {
    Digits(c as int, d as int);
    k := if c as int / 0x40 < d as int / 0x40 then 0 else 1;
  }

  lemma ThreeBytesDiffer(c: char, d: char) returns (k: nat)
    requires 0x800 <= c as int < d as int < 0x1_0000
    ensures DifferAt(EncodeChar(c), EncodeChar(d), k)
  {
    var (m, n) := (c as int, d as int);
    Digits(m, n);
    assert m / 0x40 / 0x40 == m / 0x1000 && n / 0x40 / 0x40 == n / 0x1000;
    if m / 0x40 < n / 0x40 {
      Digits(m / 0x40, n / 0x40);
    }
    k := if m / 0x1000 < n / 0x1000 then 0 else if m / 0x40 < n / 0x40 then 1 else 2;
  }

  /** The same for the upper two of four digits. */
  lemma UpperDigits(m: int, n: int)
    requires 0 <= m < n
    ensures m / 0x40 % 0x40 < n / 0x40 % 0x40 || m / 0x40 == n / 0x40 || m / 0x1000 < n / 0x1000
    ensures m / 0x1000 <= n / 0x1000
    ensures m / 0x1000 % 0x40 < n / 0x1000 % 0x40 || m / 0x1000 == n / 0x1000 || m / 0x4_0000 < n / 0x4_0000
    ensures m / 0x4_0000 <= n / 0x4_0000
  {
    Digits(m, n);
    assert m / 0x40 / 0x40 == m / 0x1000 && n / 0x40 / 0x40 == n / 0x1000;
    assert m / 0x1000 / 0x40 == m / 0x4_0000 && n / 0x1000 / 0x40 == n / 0x4_0000;
    if m / 0x40 < n / 0x40 {
      Digits(m / 0x40, n / 0x40);
    }
    if m / 0x1000 < n / 0x1000 {
      Digits(m / 0x1000, n / 0x1000);
    }
  }

  lemma FourBytesDiffer(c: char, d: char) returns (k: nat)
    requires 0x1_0000 <= c as int < d as int
    ensures DifferAt(EncodeChar(c), EncodeChar(d), k)
  {
    var (m, n) := (c as int, d as int);
    Digits(m, n);
    UpperDigits(m, n);
    k := if m / 0x4_0000 < n / 0x4_0000 then 0
         else if m / 0x1000 < n / 0x1000 then 1
         else if m / 0x40 < n / 0x40 then 2 else 3;
  }

  /** The first byte grows with the length, and within a length the digits of the code point decide. */
  lemma CharsDiffer(c: char, d: char) returns (k: nat)
    requires c < d
    ensures DifferAt(EncodeChar(c), EncodeChar(d), k)
  {
    if 0x1_0000 <= c as int {
      k := FourBytesDiffer(c, d);
    } else if 0x800 <= c as int && d as int < 0x1_0000 {
      k := ThreeBytesDiffer(c, d);
    } else if 0x80 <= c as int && d as int < 0x800 {
      k := TwoBytesDiffer(c, d);
    } else {
      k := 0;
    }
  }

  lemma CharsDecide(c: char, a: Bytes, d: char, b: Bytes)
    requires c < d
    ensures BytesLe(EncodeChar(c) + a, EncodeChar(d) + b) && !BytesLe(EncodeChar(d) + b, EncodeChar(c) + a)
  {
    var k := CharsDiffer(c, d);
    var (x, y) := (EncodeChar(c) + a, EncodeChar(d) + b);
    assert x[..k] == EncodeChar(c)[..k] && y[..k] == EncodeChar(d)[..k];
    FirstDifference(x, y, k);
  }

  /** Comparing strings by code point is comparing their UTF-8 bytes. */
  lemma {:induction false} StringLeIsByteOrder(a: string, b: string)
    ensures StringLe(a, b) <==> BytesLe(EncodeUtf8(a), EncodeUtf8(b))
  {
    if a != "" && b != "" {
      if a[0] == b[0] {
        SamePrefix(EncodeChar(a[0]), EncodeUtf8(a[1..]), EncodeUtf8(b[1..]));
        StringLeIsByteOrder(a[1..], b[1..]);
      } else if a[0] < b[0] {
        CharsDecide(a[0], EncodeUtf8(a[1..]), b[0], EncodeUtf8(b[1..]));
      } else {
        CharsDecide(b[0], EncodeUtf8(b[1..]), a[0], EncodeUtf8(a[1..]));
      }
    }
  }
}
