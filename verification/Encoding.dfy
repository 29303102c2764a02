/** Choosing and applying the encoding of dictionary files: UTF-8 (section 4 of RFC 3629) and
    UTF-16 in both byte orders (section 2.2 of RFC 2781). */
module Encoding {
  import opened Prelude
  import opened Json

  datatype Encoding = Utf8 | Utf16Le | Utf16Be

  const BOM := '\U{FEFF}'
  const REPLACEMENT := '\U{FFFD}'

  // ---- UTF-8 ----

  function EncodeChar(c: char): (r: Bytes)
    ensures 1 <= |r| <= 4
    ensures c != '\0' ==> forall i :: 0 <= i < |r| ==> r[i] != 0
    ensures forall i :: 0 <= i < |r| ==> r[i] < 0xF5
  {
    var n := c as int;
    if n < 0x80 then [n]
    else if n < 0x800 then [0xC0 + n / 0x40, 0x80 + n % 0x40]
    else if n < 0x1_0000 then [0xE0 + n / 0x1000, 0x80 + n / 0x40 % 0x40, 0x80 + n % 0x40]
    else [0xF0 + n / 0x4_0000, 0x80 + n / 0x1000 % 0x40, 0x80 + n / 0x40 % 0x40, 0x80 + n % 0x40]
  }

  function EncodeUtf8(s: string): Bytes {
    if s == [] then [] else EncodeChar(s[0]) + EncodeUtf8(s[1..])
  }

  /** The first step of decoding: a scalar, or the length of the longest malformed prefix. */
  datatype Step = Scalar(c: char, length: nat) | Malformed(length: nat)

  function ByteAt(b: Bytes, i: nat): byte {
    if i < |b| then b[i] else 0
  }

  predicate IsContinuation(b: byte) {
    0x80 <= b < 0xC0
  }

  /** The range of the second byte excludes overlong forms, surrogates and values above U+10FFFF. */
  predicate SecondByteOk(first: byte, second: byte) {
    if first == 0xE0 then 0xA0 <= second < 0xC0
    else if first == 0xED then 0x80 <= second < 0xA0
    else if first == 0xF0 then 0x90 <= second < 0xC0
    else if first == 0xF4 then 0x80 <= second < 0x90
    else IsContinuation(second)
  }

  function Utf8Step(b: Bytes): (r: Step)
    requires b != []
    ensures 1 <= r.length <= |b|
  {
    var b0, b1, b2, b3 := b[0] as int, ByteAt(b, 1) as int, ByteAt(b, 2) as int, ByteAt(b, 3) as int;
    if b0 < 0x80 then Scalar(b0 as char, 1)
    else if 0xC2 <= b0 < 0xE0 then
      if !IsContinuation(b1) then Malformed(1)
      else Scalar(((b0 - 0xC0) * 0x40 + (b1 - 0x80)) as char, 2)
    else if 0xE0 <= b0 < 0xF0 then
      if !SecondByteOk(b0, b1) then Malformed(1)
      else if !IsContinuation(b2) then Malformed(2)
      else Scalar(((b0 - 0xE0) * 0x1000 + (b1 - 0x80) * 0x40 + (b2 - 0x80)) as char, 3)
    else if 0xF0 <= b0 < 0xF5 then
      if !SecondByteOk(b0, b1) then Malformed(1)
      else if !IsContinuation(b2) then Malformed(2)
      else if !IsContinuation(b3) then Malformed(3)
      else Scalar(((b0 - 0xF0) * 0x4_0000 + (b1 - 0x80) * 0x1000 + (b2 - 0x80) * 0x40 + (b3 - 0x80)) as char, 4)
    else Malformed(1)
  }

  /** Lossy decoding: every longest malformed part becomes one U+FFFD; also whether there was one. */
  function DecodeUtf8Lossy(b: Bytes): (string, bool)
    decreases |b|
  {
    if b == [] then ("", false)
    else
      var step := Utf8Step(b);
      var (rest, had) := DecodeUtf8Lossy(b[step.length..]);
      match step
      case Scalar(c, _) => ([c] + rest, had)
      case Malformed(_) => ([REPLACEMENT] + rest, true)
  }

  /** Strict decoding. */
  function DecodeUtf8(b: Bytes): Option<string> {
    var (text, had) := DecodeUtf8Lossy(b);
    if had then None else Some(text)
  }

  lemma StepOfEncoded(c: char, rest: Bytes)
    ensures Utf8Step(EncodeChar(c) + rest) == Scalar(c, |EncodeChar(c)|)
  {
    if c as int < 0x800 {
      StepOfShort(c, rest);
    } else if c as int < 0x1_0000 {
      StepOfThree(c, rest);
    } else {
      StepOfFour(c, rest);
    }
  }

  lemma StepOfShort(c: char, rest: Bytes)
    requires c as int < 0x800
    ensures Utf8Step(EncodeChar(c) + rest) == Scalar(c, |EncodeChar(c)|)
  {
    var n := c as int;
    assert n == n / 0x40 * 0x40 + n % 0x40;
  }

  lemma StepOfThree(c: char, rest: Bytes)
    requires 0x800 <= c as int < 0x1_0000
    ensures Utf8Step(EncodeChar(c) + rest) == Scalar(c, |EncodeChar(c)|)
  {
    var n := c as int;
    assert n == n / 0x1000 * 0x1000 + n / 0x40 % 0x40 * 0x40 + n % 0x40;
  }

  lemma StepOfFour(c: char, rest: Bytes)
    requires 0x1_0000 <= c as int
    ensures Utf8Step(EncodeChar(c) + rest) == Scalar(c, |EncodeChar(c)|)
  {
    var n := c as int;
    assert n == n / 0x4_0000 * 0x4_0000 + n / 0x1000 % 0x40 * 0x1000 + n / 0x40 % 0x40 * 0x40 + n % 0x40;
  }

  lemma {:induction false} Utf8RoundTrip(s: string)
    ensures DecodeUtf8Lossy(EncodeUtf8(s)) == (s, false)
  {
    if s != [] {
      var head, tail := EncodeChar(s[0]), EncodeUtf8(s[1..]);
      StepOfEncoded(s[0], tail);
      assert (head + tail)[|head|..] == tail;
      Utf8RoundTrip(s[1..]);
      assert [s[0]] + s[1..] == s;
    }
  }

  lemma TwoBytesDecoded(b: Bytes)
    requires b != [] && 0xC2 <= b[0] < 0xE0 && Utf8Step(b).Scalar?
    ensures b[..2] == EncodeChar(Utf8Step(b).c)
  {
    var (x, y) := (b[0] as int - 0xC0, b[1] as int - 0x80);
    assert (x * 0x40 + y) / 0x40 == x && (x * 0x40 + y) % 0x40 == y;
  }

  lemma ThreeBytesDecoded(b: Bytes)
    requires b != [] && 0xE0 <= b[0] < 0xF0 && Utf8Step(b).Scalar?
    ensures b[..3] == EncodeChar(Utf8Step(b).c)
  {
    var (x, y, z) := (b[0] as int - 0xE0, b[1] as int - 0x80, b[2] as int - 0x80);
    var n := x * 0x1000 + y * 0x40 + z;
    assert n / 0x40 == x * 0x40 + y && n % 0x40 == z;
    assert n / 0x1000 == x && n / 0x40 % 0x40 == y;
  }

  lemma FourBytesDecoded(b: Bytes)
    requires b != [] && 0xF0 <= b[0] && Utf8Step(b).Scalar?
    ensures b[..4] == EncodeChar(Utf8Step(b).c)
  {
    var (x, y, z, u) := (b[0] as int - 0xF0, b[1] as int - 0x80, b[2] as int - 0x80, b[3] as int - 0x80);
    var n := x * 0x4_0000 + y * 0x1000 + z * 0x40 + u;
    assert n / 0x40 == x * 0x1000 + y * 0x40 + z && n % 0x40 == u;
    assert n / 0x1000 == x * 0x40 + y && n / 0x40 % 0x40 == z;
    assert n / 0x4_0000 == x && n / 0x1000 % 0x40 == y;
  }

  lemma StepIsEncoding(b: Bytes)
    requires b != [] && Utf8Step(b).Scalar?
    ensures b[..Utf8Step(b).length] == EncodeChar(Utf8Step(b).c)
  {
    if b[0] < 0x80 {
    } else if b[0] < 0xE0 {
      TwoBytesDecoded(b);
    } else if b[0] < 0xF0 {
      ThreeBytesDecoded(b);
    } else {
      FourBytesDecoded(b);
    }
  }

  /** Strict decoding accepts exactly the encodings: no overlong form, no surrogate, nothing cut short. */
  lemma {:induction false} Utf8Exactly(b: Bytes, s: string)
    ensures DecodeUtf8(b) == Some(s) <==> b == EncodeUtf8(s)
    decreases |b|
  {
    if b == EncodeUtf8(s) {
      Utf8RoundTrip(s);
    }
    if b != [] && DecodeUtf8(b) == Some(s) {
      var n := Utf8Step(b).length;
      StepIsEncoding(b);
      Utf8Exactly(b[n..], s[1..]);
      assert b == b[..n] + b[n..];
    }
  }

  lemma {:induction false} EncodedBytes(s: string)
    requires '\0' !in s
    ensures forall i :: 0 <= i < |EncodeUtf8(s)| ==> 0 < EncodeUtf8(s)[i] < 0xF5
  {
    if s != [] {
      EncodedBytes(s[1..]);
    }
  }

  // ---- UTF-16 ----

  type Unit = x: int | 0 <= x <= 0xFFFF

  function Units(b: Bytes, le: bool): seq<Unit> {
    if |b| < 2 then []
    else [if le then b[0] as int + 0x100 * b[1] as int else 0x100 * b[0] as int + b[1] as int] + Units(b[2..], le)
  }

  predicate IsHigh(u: Unit) {
    0xD800 <= u < 0xDC00
  }

  predicate IsLow(u: Unit) {
    0xDC00 <= u < 0xE000
  }

  /** Decodes code units; every unpaired surrogate becomes U+FFFD and is reported. */
  function DecodeUnits(u: seq<Unit>): (string, bool) {
    if u == [] then ("", false)
    else if !IsHigh(u[0]) && !IsLow(u[0]) then
      var (rest, had) := DecodeUnits(u[1..]);
      ([u[0] as char] + rest, had)
    else if IsHigh(u[0]) && |u| >= 2 && IsLow(u[1]) then
      var (rest, had) := DecodeUnits(u[2..]);
      ([(0x1_0000 + (u[0] as int - 0xD800) * 0x400 + (u[1] as int - 0xDC00)) as char] + rest, had)
    else
      var (rest, had) := DecodeUnits(u[1..]);
      ([REPLACEMENT] + rest, true)
  }

  function DecodeUtf16(b: Bytes, le: bool): Option<string> {
    var (text, had) := DecodeUnits(Units(b, le));
    if |b| % 2 != 0 || had then None else Some(text)
  }

  function DecodeUtf16Lossy(b: Bytes, le: bool): (string, bool) {
    var (text, had) := DecodeUnits(Units(b, le));
    (text, had || |b| % 2 != 0)
  }

  function EncodeUnit(u: Unit, le: bool): Bytes {
    if le then [u % 0x100, u / 0x100] else [u / 0x100, u % 0x100]
  }

  function EncodeChar16(c: char, le: bool): (r: Bytes)
    ensures |r| == 2 || |r| == 4
  {
    var n := c as int;
    if n < 0x1_0000 then EncodeUnit(n, le)
    else EncodeUnit(0xD800 + (n - 0x1_0000) / 0x400, le) + EncodeUnit(0xDC00 + (n - 0x1_0000) % 0x400, le)
  }

  function EncodeUtf16(s: string, le: bool): (r: Bytes)
    ensures |r| % 2 == 0
  {
    if s == [] then [] else EncodeChar16(s[0], le) + EncodeUtf16(s[1..], le)
  }

  lemma UnitsCons(u: Unit, rest: Bytes, le: bool)
    ensures Units(EncodeUnit(u, le) + rest, le) == [u] + Units(rest, le)
  {
    assert (EncodeUnit(u, le) + rest)[2..] == rest;
    assert u == u / 0x100 * 0x100 + u % 0x100;
  }

  lemma UnitsPair(high: Unit, low: Unit, rest: Bytes, le: bool)
    ensures Units(EncodeUnit(high, le) + EncodeUnit(low, le) + rest, le) == [high, low] + Units(rest, le)
  {
    var tail := EncodeUnit(low, le) + rest;
    assert EncodeUnit(high, le) + EncodeUnit(low, le) + rest == EncodeUnit(high, le) + tail;
    UnitsCons(low, rest, le);
    UnitsCons(high, tail, le);
  }

  lemma DecodePair(c: char, u: seq<Unit>)
    requires c as int >= 0x1_0000
    ensures var n := c as int - 0x1_0000;
            var (rest, had) := DecodeUnits(u);
            DecodeUnits([0xD800 + n / 0x400, 0xDC00 + n % 0x400] + u) == ([c] + rest, had)
  {
    var n := c as int - 0x1_0000;
    assert n == n / 0x400 * 0x400 + n % 0x400;
    assert ([0xD800 + n / 0x400, 0xDC00 + n % 0x400] + u)[2..] == u;
  }

  lemma DecodeChar16(c: char, rest: Bytes, le: bool)
    ensures var (text, had) := DecodeUnits(Units(rest, le));
            DecodeUnits(Units(EncodeChar16(c, le) + rest, le)) == ([c] + text, had)
  {
    var n := c as int;
    if n < 0x1_0000 {
      UnitsCons(n, rest, le);
      assert ([n] + Units(rest, le))[1..] == Units(rest, le);
    } else {
      UnitsPair(0xD800 + (n - 0x1_0000) / 0x400, 0xDC00 + (n - 0x1_0000) % 0x400, rest, le);
      DecodePair(c, Units(rest, le));
    }
  }

  lemma {:induction false} UnitsRoundTrip(s: string, le: bool)
    ensures DecodeUnits(Units(EncodeUtf16(s, le), le)) == (s, false)
  {
    if s != [] {
      UnitsRoundTrip(s[1..], le);
      DecodeChar16(s[0], EncodeUtf16(s[1..], le), le);
      assert [s[0]] + s[1..] == s;
    }
  }

  lemma Utf16RoundTrip(s: string, le: bool)
    ensures DecodeUtf16(EncodeUtf16(s, le), le) == Some(s)
  {
    UnitsRoundTrip(s, le);
  }

  function CharUnits(c: char): seq<Unit> {
    var n := c as int;
    if n < 0x1_0000 then [n] else [0xD800 + (n - 0x1_0000) / 0x400, 0xDC00 + (n - 0x1_0000) % 0x400]
  }

  function UnitsOf(s: string): seq<Unit> {
    if s == [] then [] else CharUnits(s[0]) + UnitsOf(s[1..])
  }

  function UnitBytes(u: seq<Unit>, le: bool): Bytes {
    if u == [] then [] else EncodeUnit(u[0], le) + UnitBytes(u[1..], le)
  }

  lemma {:induction false} BytesOfUnits(b: Bytes, le: bool)
    requires |b| % 2 == 0
    ensures UnitBytes(Units(b, le), le) == b
  {
    if b != [] {
      BytesOfUnits(b[2..], le);
      assert EncodeUnit(Units(b, le)[0], le) == b[..2] && Units(b, le)[1..] == Units(b[2..], le);
      assert b == b[..2] + b[2..];
    }
  }

  lemma {:induction false} UnitBytesConcat(u: seq<Unit>, v: seq<Unit>, le: bool)
    ensures UnitBytes(u + v, le) == UnitBytes(u, le) + UnitBytes(v, le)
  {
    if u == [] {
      assert u + v == v;
    } else {
      assert (u + v)[1..] == u[1..] + v;
      UnitBytesConcat(u[1..], v, le);
      Reassociate(EncodeUnit(u[0], le), UnitBytes(u[1..], le), UnitBytes(v, le));
    }
  }

  lemma CharBytes(c: char, le: bool)
    ensures UnitBytes(CharUnits(c), le) == EncodeChar16(c, le)
  {
    var u := CharUnits(c);
    assert UnitBytes([], le) == [];
    if |u| == 2 {
      assert u[1..] == [u[1]];
      assert UnitBytes([u[1]], le) == EncodeUnit(u[1], le);
    }
  }

  lemma {:induction false} EncodedInUnits(s: string, le: bool)
    ensures EncodeUtf16(s, le) == UnitBytes(UnitsOf(s), le)
  {
    if s != [] {
      EncodedInUnits(s[1..], le);
      CharBytes(s[0], le);
      UnitBytesConcat(CharUnits(s[0]), UnitsOf(s[1..]), le);
    }
  }

  lemma PairUnits(high: Unit, low: Unit)
    requires IsHigh(high) && IsLow(low)
    ensures CharUnits((0x1_0000 + (high as int - 0xD800) * 0x400 + (low as int - 0xDC00)) as char) == [high, low]
  {
    var (x, y) := (high as int - 0xD800, low as int - 0xDC00);
    assert (x * 0x400 + y) / 0x400 == x && (x * 0x400 + y) % 0x400 == y;
  }

  lemma {:induction false} DecodedUnits(u: seq<Unit>)
    requires !DecodeUnits(u).1
    ensures UnitsOf(DecodeUnits(u).0) == u
  {
    if u != [] {
      var n := if IsHigh(u[0]) || IsLow(u[0]) then 2 else 1;
      DecodedUnits(u[n..]);
      if n == 2 {
        PairUnits(u[0], u[1]);
      }
      assert DecodeUnits(u).0[1..] == DecodeUnits(u[n..]).0;
      assert u == u[..n] + u[n..];
    }
  }

  /** Strict decoding accepts exactly the encodings: no unpaired surrogate and no odd byte. */
  lemma Utf16Exactly(b: Bytes, s: string, le: bool)
    ensures DecodeUtf16(b, le) == Some(s) <==> b == EncodeUtf16(s, le)
  {
    if b == EncodeUtf16(s, le) {
      Utf16RoundTrip(s, le);
    } else if DecodeUtf16(b, le) == Some(s) {
      DecodedUnits(Units(b, le));
      BytesOfUnits(b, le);
      EncodedInUnits(s, le);
    }
  }

  // ---- recognising dictionary text ----

  predicate IsWhitespace(c: char) {
    || '\U{0009}' <= c <= '\U{000D}' || c == '\U{0020}' || c == '\U{0085}' || c == '\U{00A0}' || c == '\U{1680}'
    || '\U{2000}' <= c <= '\U{200A}' || c == '\U{2028}' || c == '\U{2029}' || c == '\U{202F}' || c == '\U{205F}'
    || c == '\U{3000}'
  }

  function TrimStartWhitespace(s: string): string {
    if s != [] && IsWhitespace(s[0]) then TrimStartWhitespace(s[1..]) else s
  }

  function TrimEndWhitespace(s: string): string {
    if s != [] && IsWhitespace(s[|s| - 1]) then TrimEndWhitespace(s[..|s| - 1]) else s
  }

  /** `str::trim`. */
  function Trim(s: string): string {
    TrimEndWhitespace(TrimStartWhitespace(s))
  }

  function TrimEndNuls(s: string): string {
    if s != [] && s[|s| - 1] == '\0' then TrimEndNuls(s[..|s| - 1]) else s
  }

  function SplitOn(s: string, c: char): (parts: seq<string>)
    ensures parts != []
  {
    if s == [] then [[]]
    else
      var rest := SplitOn(s[1..], c);
      if s[0] == c then [[]] + rest else [[s[0]] + rest[0]] + rest[1..]
  }

  /** `str::lines`: LF ends a line, one CR before it belongs to the ending, and nothing follows the
      last ending. */
  function Lines(s: string): seq<string>
    decreases |s|
  {
    if s == [] then []
    else
      var end := IndexOf(s, '\n');
      if end == |s| then [s]
      else [if end > 0 && s[end - 1] == '\r' then s[..end - 1] else s[..end]] + Lines(s[end + 1..])
  }

  function IndexOf(s: string, c: char): (i: nat)
    ensures i <= |s| && c !in s[..i] && (i < |s| ==> s[i] == c)
  {
    if s == [] || s[0] == c then 0 else 1 + IndexOf(s[1..], c)
  }

  predicate HasTsvColumns(text: string) {
    var lines := Lines(text);
    exists i | 0 <= i < |lines| :: lines[i] != "" && |SplitOn(lines[i], '\t')| >= 2
  }

  predicate IsInvalidC0(c: char) {
    c <= '\U{001F}' && c != '\t' && c != '\r' && c != '\n'
  }

  function InvalidC0Count(s: string): nat {
    if s == [] then 0 else (if IsInvalidC0(s[0]) then 1 else 0) + InvalidC0Count(s[1..])
  }

  /** Two's complement wrap-around of the source's `i32` arithmetic. */
  function WrapI32(x: int): int {
    if -0x8000_0000 <= x < 0x8000_0000 then x else (x + 0x8000_0000) % 0x1_0000_0000 - 0x8000_0000
  }

  const I32_MIN := -0x8000_0000

  /** A JSON parser; `None` is a syntax error. */
  type JsonParser = string -> Option<Json>

  /** What the JSON grammar promises: a container is written with its opening delimiter. */
  ghost predicate ContainersAreDelimited(parse: JsonParser) {
    forall t: string :: parse(t).Some? && (parse(t).value.Array? || parse(t).value.Object?) ==> '[' in t || '{' in t
  }

  /** The evidence less the penalty, as 32-bit arithmetic has it. */
  function Weigh(evidence: int, invalid: nat): int {
    WrapI32(evidence - WrapI32(WrapI32(invalid) * 20))
  }

  function StructureScore(parse: JsonParser, text: string): int {
    var detection := TrimEndNuls(text);
    var parsed := parse(Trim(detection));
    var container := parsed.Some? && (parsed.value.Array? || parsed.value.Object?);
    var json := if !container then 0 else if HasRubyWord(parsed.value) then 200 else 100;
    var invalid := InvalidC0Count(detection);
    var tsv := if HasTsvColumns(detection) && invalid == 0 then 100 else 0;
    Weigh(json + tsv, invalid)
  }

  function Score(parse: JsonParser, text: Option<string>): Option<int> {
    match text
    case None => None
    case Some(t) => Some(StructureScore(parse, t))
  }

  function Best(scores: seq<Option<int>>): int {
    if scores == [] then I32_MIN
    else Max(if scores[0].Some? then scores[0].value else I32_MIN, Best(scores[1..]))
  }

  function TrimEndZeros(b: Bytes): Bytes {
    if b != [] && b[|b| - 1] == 0 then TrimEndZeros(b[..|b| - 1]) else b
  }

  /** The zero bytes at even and at odd offsets. */
  function ZeroParity(b: Bytes): (nat, nat) {
    if b == [] then (0, 0)
    else
      var (even, odd) := ZeroParity(b[1..]);
      (odd + (if b[0] == 0 then 1 else 0), even)
  }

  /** The choice between the scored readings; the zero parity decides only between the two UTF-16 readings. */
  function Choose(utf8: Option<int>, le: Option<int>, be: Option<int>, parity: (nat, nat)): Encoding {
    var best := Best([utf8, le, be]);
    if best <= 0 then Utf8
    else
      var utf8Best, leBest, beBest := utf8 == Some(best), le == Some(best), be == Some(best);
      if utf8Best && !leBest && !beBest then Utf8
      else if leBest && !utf8Best && !beBest then Utf16Le
      else if beBest && !utf8Best && !leBest then Utf16Be
      else if utf8Best then Utf8
      else
        var (even, odd) := parity;
        if odd > even && leBest then Utf16Le
        else if even > odd && beBest then Utf16Be
        else Utf8
  }

  function SniffEncoding(parse: JsonParser, b: Bytes): Encoding {
    if [0xEF, 0xBB, 0xBF] <= b then Utf8
    else if [0xFF, 0xFE] <= b then Utf16Le
    else if [0xFE, 0xFF] <= b then Utf16Be
    else
      Choose(Score(parse, DecodeUtf8(b)), Score(parse, DecodeUtf16(b, true)), Score(parse, DecodeUtf16(b, false)),
             ZeroParity(TrimEndZeros(b)))
  }

  function StripLeadingBom(s: string): string {
    if s != [] && s[0] == BOM then s[1..] else s
  }

  /** Strict decoding, for JSON. */
  function DecodeBytes(parse: JsonParser, b: Bytes): Option<string> {
    var text := match SniffEncoding(parse, b)
                case Utf8 => DecodeUtf8(b)
                case Utf16Le => DecodeUtf16(b, true)
                case Utf16Be => DecodeUtf16(b, false);
    if text.None? then None else Some(StripLeadingBom(text.value))
  }

  /** Lossy decoding, for TSV. */
  function DecodeBytesLossy(parse: JsonParser, b: Bytes): (string, bool) {
    var (text, had) := match SniffEncoding(parse, b)
                       case Utf8 => DecodeUtf8Lossy(b)
                       case Utf16Le => DecodeUtf16Lossy(b, true)
                       case Utf16Be => DecodeUtf16Lossy(b, false);
    (StripLeadingBom(text), had)
  }

  // ---- text without zero bytes is UTF-8 ----

  predicate NoneBelow(s: string, limit: char) {
    forall i :: 0 <= i < |s| ==> s[i] >= limit
  }

  lemma {:induction false} UnitsAreHigh(b: Bytes, le: bool)
    requires 0 !in b
    ensures forall i :: 0 <= i < |Units(b, le)| ==> Units(b, le)[i] >= 0x100
  {
    if |b| >= 2 {
      assert b[0] in b && b[1] in b;
      forall x | x in b[2..] ensures x in b {
      }
      UnitsAreHigh(b[2..], le);
    }
  }

  lemma {:induction false} DecodedIsHigh(u: seq<Unit>)
    requires forall i :: 0 <= i < |u| ==> u[i] >= 0x100
    ensures NoneBelow(DecodeUnits(u).0, '\U{0100}')
  {
    if u != [] {
      DecodedIsHigh(u[1..]);
      if |u| >= 2 {
        DecodedIsHigh(u[2..]);
      }
    }
  }

  lemma {:induction false} TrimmedIsPart(s: string, limit: char)
    requires NoneBelow(s, limit)
    ensures NoneBelow(Trim(s), limit) && NoneBelow(TrimEndNuls(s), limit)
  {
    TrimStartIsPart(s, limit);
    TrimEndIsPart(TrimStartWhitespace(s), limit);
    TrimNulsIsPart(s, limit);
  }

  lemma {:induction false} TrimStartIsPart(s: string, limit: char)
    requires NoneBelow(s, limit)
    ensures NoneBelow(TrimStartWhitespace(s), limit)
  {
    if s != [] {
      TrimStartIsPart(s[1..], limit);
    }
  }

  lemma {:induction false} TrimEndIsPart(s: string, limit: char)
    requires NoneBelow(s, limit)
    ensures NoneBelow(TrimEndWhitespace(s), limit)
  {
    if s != [] {
      TrimEndIsPart(s[..|s| - 1], limit);
    }
  }

  lemma {:induction false} TrimNulsIsPart(s: string, limit: char)
    requires NoneBelow(s, limit)
    ensures NoneBelow(TrimEndNuls(s), limit)
  {
    if s != [] {
      TrimNulsIsPart(s[..|s| - 1], limit);
    }
  }

  lemma {:induction false} SplitWithout(s: string, c: char)
    requires c !in s
    ensures SplitOn(s, c) == [s]
  {
    if s != [] {
      SplitWithout(s[1..], c);
      assert [s[0]] + s[1..] == s;
    }
  }

  lemma {:induction false} SplitAtFirst(a: string, c: char, b: string)
    requires c !in a
    ensures SplitOn(a + [c] + b, c) == [a] + SplitOn(b, c)
  {
    var s := a + [c] + b;
    if a == "" {
      assert s[1..] == b;
      assert [[]] == [a];
    } else {
      assert s[1..] == a[1..] + [c] + b;
      SplitAtFirst(a[1..], c, b);
      assert [a[0]] + a[1..] == a;
    }
  }

  lemma {:induction false} IndexOfFirst(a: string, c: char, b: string)
    requires c !in a
    ensures IndexOf(a + [c] + b, c) == |a|
  {
    if a != "" {
      assert (a + [c] + b)[1..] == a[1..] + [c] + b;
      IndexOfFirst(a[1..], c, b);
    }
  }

  lemma TrimKeepsFirst(s: string)
    requires s != "" && !IsWhitespace(s[0])
    ensures Trim(s) != ""
  {
    TrimEndKeepsFirst(s);
  }

  lemma {:induction false} TrimEndKeepsFirst(s: string)
    requires s != "" && !IsWhitespace(s[0])
    ensures TrimEndWhitespace(s) != ""
  {
    if |s| > 1 {
      TrimEndKeepsFirst(s[..|s| - 1]);
    }
  }

  /** Only white space trims to nothing. */
  lemma {:induction false} TrimsAwayExactly(s: string)
    ensures Trim(s) == "" <==> forall c | c in s :: IsWhitespace(c)
  {
    if s != "" {
      assert s[0] in s;
      if IsWhitespace(s[0]) {
        TrimsAwayExactly(s[1..]);
        assert forall c | c in s :: c == s[0] || c in s[1..];
      } else {
        TrimKeepsFirst(s);
      }
    }
  }

  /** Text without ASCII has no TSV column, no JSON container and no control character. */
  lemma HighTextScoresZero(parse: JsonParser, text: string)
    requires ContainersAreDelimited(parse)
    requires NoneBelow(text, '\U{0100}')
    ensures StructureScore(parse, text) == 0
  {
    var detection := TrimEndNuls(text);
    TrimmedIsPart(text, '\U{0100}');
    TrimmedIsPart(detection, '\U{0100}');
    NoC0(detection);
    var end := IndexOf(detection, '\n');
    assert end == |detection|;
    if detection != [] {
      SplitWithout(detection, '\t');
      assert Lines(detection) == [detection];
    }
  }

  lemma {:induction false} NoC0(s: string)
    requires NoneBelow(s, '\U{0100}')
    ensures InvalidC0Count(s) == 0
  {
    if s != [] {
      NoC0(s[1..]);
    }
  }

  lemma Utf16ScoresZero(parse: JsonParser, b: Bytes, le: bool)
    requires ContainersAreDelimited(parse) && 0 !in b
    ensures var s := Score(parse, DecodeUtf16(b, le)); s.None? || s == Some(0)
  {
    UnitsAreHigh(b, le);
    DecodedIsHigh(Units(b, le));
    if DecodeUtf16(b, le).Some? {
      HighTextScoresZero(parse, DecodeUtf16(b, le).value);
    }
  }

  /** Bytes without a zero and without a UTF-16 byte order mark are taken for UTF-8. */
  lemma NoZeroByteMeansUtf8(parse: JsonParser, b: Bytes)
    requires ContainersAreDelimited(parse)
    requires 0 !in b && !([0xFF, 0xFE] <= b) && !([0xFE, 0xFF] <= b)
    ensures SniffEncoding(parse, b) == Utf8
  {
    Utf16ScoresZero(parse, b, true);
    Utf16ScoresZero(parse, b, false);
  }

  /** UTF-8 text without NUL is read back exactly, up to one leading byte order mark. */
  lemma Utf8TextIsReadBack(parse: JsonParser, s: string)
    requires ContainersAreDelimited(parse) && '\0' !in s
    ensures DecodeBytes(parse, EncodeUtf8(s)) == Some(StripLeadingBom(s))
    ensures DecodeBytesLossy(parse, EncodeUtf8(s)) == (StripLeadingBom(s), false)
  {
    EncodedBytes(s);
    assert EncodeUtf8(s) == [] || EncodeUtf8(s)[0] < 0xF5;
    NoZeroByteMeansUtf8(parse, EncodeUtf8(s));
    Utf8RoundTrip(s);
  }

  /** Text written as UTF-16 with its byte order mark is read back exactly. */
  lemma MarkedUtf16IsReadBack(parse: JsonParser, s: string, le: bool)
    ensures DecodeBytes(parse, EncodeUtf16([BOM] + s, le)) == Some(s)
    ensures DecodeBytesLossy(parse, EncodeUtf16([BOM] + s, le)) == (s, false)
  {
    var b := EncodeUtf16([BOM] + s, le);
    Utf16RoundTrip([BOM] + s, le);
    assert b == EncodeChar16(BOM, le) + EncodeUtf16(([BOM] + s)[1..], le);
    assert b[0] == (if le then 0xFF else 0xFE) && b[1] == (if le then 0xFE else 0xFF);
  }
}
