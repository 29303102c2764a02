/** Recognising UTF-16 without a byte order mark: when the structure of the text decides, and when the zero bytes do. */
module Utf16Detection {
  import opened Prelude
  import opened Json
  import opened Encoding

  // ---- the choice by score ----

  predicate Marked(b: Bytes) {
    [0xEF, 0xBB, 0xBF] <= b || [0xFF, 0xFE] <= b || [0xFE, 0xFF] <= b
  }

  /** A reading that fails counts as the lowest score. */
  function Points(score: Option<int>): int {
    if score.None? then I32_MIN else score.value
  }

  lemma BestOfThree(a: Option<int>, b: Option<int>, c: Option<int>)
    ensures Best([a, b, c]) == Max(Points(a), Max(Points(b), Max(Points(c), I32_MIN)))
  {
    assert [a, b, c][1..] == [b, c] && [b, c][1..] == [c] && [c][1..] == [];
    assert Best([]) == I32_MIN;
    assert Best([c]) == Max(Points(c), I32_MIN);
    assert Best([b, c]) == Max(Points(b), Best([c]));
  }

  lemma ChooseExactly(utf8: Option<int>, le: Option<int>, be: Option<int>, even: nat, odd: nat)
    ensures Choose(utf8, le, be, (even, odd)) == Utf16Le <==>
              && Points(le) > 0 && Points(le) > Points(utf8)
              && (Points(le) > Points(be) || (Points(le) == Points(be) && odd > even))
    ensures Choose(utf8, le, be, (even, odd)) == Utf16Be <==>
              && Points(be) > 0 && Points(be) > Points(utf8)
              && (Points(be) > Points(le) || (Points(be) == Points(le) && even > odd))
  {
    BestOfThree(utf8, le, be);
  }

  /** Of bytes without a mark the positive and strictly highest score decides; between the two UTF-16 readings
      more zero bytes at odd offsets speak for little-endian, and more at even ones for big-endian. */
  lemma SniffExactly(parse: JsonParser, b: Bytes)
    requires !Marked(b)
    ensures var utf8 := Points(Score(parse, DecodeUtf8(b)));
            var (le, be) := (Points(Score(parse, DecodeUtf16(b, true))), Points(Score(parse, DecodeUtf16(b, false))));
            var (even, odd) := ZeroParity(TrimEndZeros(b));
            && (SniffEncoding(parse, b) == Utf16Le <==>
                  le > 0 && le > utf8 && (le > be || (le == be && odd > even)))
            && (SniffEncoding(parse, b) == Utf16Be <==>
                  be > 0 && be > utf8 && (be > le || (be == le && even > odd)))
  {
    var (even, odd) := ZeroParity(TrimEndZeros(b));
    ChooseExactly(Score(parse, DecodeUtf8(b)), Score(parse, DecodeUtf16(b, true)), Score(parse, DecodeUtf16(b, false)),
                  even, odd);
  }

  /** What one more byte does to the numbers of zero bytes at even and at odd offsets. */
  lemma {:induction false} ZeroParitySnoc(b: Bytes, x: byte)
    ensures var (even, odd) := ZeroParity(b);
            ZeroParity(b + [x]) ==
              if x != 0 then (even, odd) else if |b| % 2 == 0 then (even + 1, odd) else (even, odd + 1)
  {
    if b != [] {
      assert (b + [x])[1..] == b[1..] + [x];
      ZeroParitySnoc(b[1..], x);
    }
  }

  // ---- a zero byte inside UTF-8 ----

  /** A zero byte with another byte somewhere after it. */
  ghost predicate ZeroInside(b: Bytes) {
    exists j, k :: 0 <= j < k < |b| && b[j] == 0 && b[k] != 0
  }

  ghost predicate NulInside(s: string) {
    exists j, k :: 0 <= j < k < |s| && s[j] == '\0' && s[k] != '\0'
  }

  /** A scalar of one byte is that byte; the bytes of a longer one are all above ASCII, and so is the scalar. */
  lemma StepBytes(b: Bytes)
    requires b != [] && Utf8Step(b).Scalar?
    ensures var step := Utf8Step(b);
            || (step.length == 1 && step.c as int == b[0])
            || (step.c != '\0' && forall i :: 0 <= i < step.length ==> b[i] != 0)
  {
  }

  lemma {:induction false} SomethingElse(b: Bytes, k: nat)
    requires k < |b| && b[k] != 0 && !DecodeUtf8Lossy(b).1
    ensures exists i :: 0 <= i < |DecodeUtf8Lossy(b).0| && DecodeUtf8Lossy(b).0[i] != '\0'
    decreases |b|
  {
    var step := Utf8Step(b);
    var text := DecodeUtf8Lossy(b).0;
    StepBytes(b);
    if step.c != '\0' {
      assert text[0] != '\0';
    } else {
      SomethingElse(b[1..], k - 1);
      var i :| 0 <= i < |DecodeUtf8Lossy(b[1..]).0| && DecodeUtf8Lossy(b[1..]).0[i] != '\0';
      assert text[i + 1] != '\0';
    }
  }

  lemma {:induction false} ZeroGivesNul(b: Bytes, j: nat, k: nat)
    requires j < k < |b| && b[j] == 0 && b[k] != 0 && !DecodeUtf8Lossy(b).1
    ensures NulInside(DecodeUtf8Lossy(b).0)
    decreases |b|
  {
    var step := Utf8Step(b);
    var text := DecodeUtf8Lossy(b).0;
    var rest := DecodeUtf8Lossy(b[step.length..]).0;
    StepBytes(b);
    assert text == [step.c] + rest;
    if j == 0 {
      SomethingElse(b[1..], k - 1);
      var i :| 0 <= i < |rest| && rest[i] != '\0';
      assert text[0] == '\0' && text[i + 1] != '\0';
    } else {
      assert j >= step.length;
      ZeroGivesNul(b[step.length..], j - step.length, k - step.length);
      var m, n :| 0 <= m < n < |rest| && rest[m] == '\0' && rest[n] != '\0';
      assert text[m + 1] == '\0' && text[n + 1] != '\0';
    }
  }

  lemma {:induction false} TrimEndNulsKeepsInside(s: string)
    requires NulInside(s)
    ensures '\0' in TrimEndNuls(s)
  {
    var j, k :| 0 <= j < k < |s| && s[j] == '\0' && s[k] != '\0';
    if s[|s| - 1] == '\0' {
      var front := s[..|s| - 1];
      assert front[j] == '\0' && front[k] != '\0';
      TrimEndNulsKeepsInside(front);
    }
  }

  lemma {:induction false} TrimStartKeeps(s: string, c: char)
    requires c in s && !IsWhitespace(c)
    ensures c in TrimStartWhitespace(s)
  {
    if IsWhitespace(s[0]) {
      TrimStartKeeps(s[1..], c);
    }
  }

  lemma {:induction false} TrimEndKeeps(s: string, c: char)
    requires c in s && !IsWhitespace(c)
    ensures c in TrimEndWhitespace(s)
  {
    if IsWhitespace(s[|s| - 1]) {
      TrimEndKeeps(s[..|s| - 1], c);
    }
  }

  lemma {:induction false} CountInvalid(s: string)
    ensures InvalidC0Count(s) <= |s|
    ensures InvalidC0Count(s) == 0 <==> forall c | c in s :: !IsInvalidC0(c)
  {
    if s != [] {
      CountInvalid(s[1..]);
    }
  }

  lemma {:induction false} TrimEndNulsIsShorter(s: string)
    ensures TrimEndNuls(s) <= s
  {
    if s != [] {
      TrimEndNulsIsShorter(s[..|s| - 1]);
    }
  }

  lemma {:induction false} DecodedIsShorter(b: Bytes)
    ensures |DecodeUtf8Lossy(b).0| <= |b|
    decreases |b|
  {
    if b != [] {
      DecodedIsShorter(b[Utf8Step(b).length..]);
    }
  }

  /** Below this length the penalty for control characters stays within 32 bits. */
  const PENALTY_FITS := 100_000_000

  /** The JSON grammar has no place for a NUL. */
  ghost predicate RejectsNul(parse: JsonParser) {
    forall t: string :: '\0' in t ==> parse(t).None?
  }

  predicate IsContainer(parsed: Option<Json>) {
    parsed.Some? && (parsed.value.Array? || parsed.value.Object?)
  }

  lemma WeighedExactly(evidence: int, invalid: nat)
    requires 0 <= evidence <= 300 && invalid <= PENALTY_FITS
    ensures Weigh(evidence, invalid) == evidence - 20 * invalid
  {
  }

  /** What the evidence weighs: a JSON container, one with the fields of an entry, columns in a text without control
      characters, and against them each control character; NULs at the end do not count. */
  lemma ScoreExactly(parse: JsonParser, text: string)
    requires |text| <= PENALTY_FITS
    ensures var d := TrimEndNuls(text);
            var parsed := parse(Trim(d));
            StructureScore(parse, text) ==
              (if !IsContainer(parsed) then 0 else if HasRubyWord(parsed.value) then 200 else 100)
              + (if HasTsvColumns(d) && InvalidC0Count(d) == 0 then 100 else 0) - 20 * InvalidC0Count(d)
  {
    var d := TrimEndNuls(text);
    var parsed := parse(Trim(d));
    CountInvalid(d);
    TrimEndNulsIsShorter(text);
    var json := if !IsContainer(parsed) then 0 else if HasRubyWord(parsed.value) then 200 else 100;
    var tsv := if HasTsvColumns(d) && InvalidC0Count(d) == 0 then 100 else 0;
    WeighedExactly(json + tsv, InvalidC0Count(d));
    assert StructureScore(parse, text) == Weigh(json + tsv, InvalidC0Count(d));
  }

  /** A text without any evidence of a dictionary scores at most zero. */
  lemma NoEvidence(parse: JsonParser, text: string)
    requires |text| <= PENALTY_FITS
    requires var d := TrimEndNuls(text); !IsContainer(parse(Trim(d))) && (!HasTsvColumns(d) || InvalidC0Count(d) > 0)
    ensures StructureScore(parse, text) <= 0
  {
    ScoreExactly(parse, text);
  }

  lemma Utf8ReadingScoresNothing(parse: JsonParser, b: Bytes)
    requires RejectsNul(parse) && ZeroInside(b) && |b| <= PENALTY_FITS
    ensures Points(Score(parse, DecodeUtf8(b))) <= 0
  {
    if DecodeUtf8(b).Some? {
      var text := DecodeUtf8(b).value;
      var j, k :| 0 <= j < k < |b| && b[j] == 0 && b[k] != 0;
      ZeroGivesNul(b, j, k);
      TrimEndNulsKeepsInside(text);
      var d := TrimEndNuls(text);
      TrimStartKeeps(d, '\0');
      TrimEndKeeps(TrimStartWhitespace(d), '\0');
      CountInvalid(d);
      DecodedIsShorter(b);
      NoEvidence(parse, text);
    }
  }

  // ---- the reading in the other byte order ----

  function Swapped(u: Unit): Unit {
    u % 0x100 * 0x100 + u / 0x100
  }

  lemma SwappedHead(x: byte, y: byte)
    ensures Swapped(x as int + 0x100 * y as int) == 0x100 * x as int + y as int
    ensures Swapped(0x100 * x as int + y as int) == x as int + 0x100 * y as int
  {
  }

  lemma {:induction false} OtherUnits(b: Bytes, le: bool, u: Unit)
    requires u in Units(b, !le)
    ensures Swapped(u) in Units(b, le)
  {
    var first := Units(b, !le)[0];
    if u == first {
      SwappedHead(b[0], b[1]);
      assert Units(b, le)[0] == Swapped(first);
    } else {
      OtherUnits(b[2..], le, u);
    }
  }

  lemma {:induction false} DecodedComesFrom(u: seq<Unit>, c: char)
    requires c in DecodeUnits(u).0 && c < '\U{D7FF}'
    ensures c as int in u
  {
    if c != DecodeUnits(u).0[0] {
      if c in DecodeUnits(u[1..]).0 {
        DecodedComesFrom(u[1..], c);
      } else {
        DecodedComesFrom(u[2..], c);
      }
    }
  }

  lemma {:induction false} EncodedComesFrom(s: string, le: bool, u: Unit)
    requires u in Units(EncodeUtf16(s, le), le) && u < 0xD800
    ensures u as char in s
  {
    var (c, rest) := (s[0], EncodeUtf16(s[1..], le));
    var n := c as int;
    if n < 0x1_0000 {
      UnitsCons(n, rest, le);
    } else {
      UnitsPair(0xD800 + (n - 0x1_0000) / 0x400, 0xDC00 + (n - 0x1_0000) % 0x400, rest, le);
    }
    if u != n {
      EncodedComesFrom(s[1..], le, u);
    }
  }

  /** Swapped, these would be a TAB, an opening bracket and an opening brace. */
  predicate NoLookalikes(s: string) {
    '\U{0900}' !in s && '\U{5B00}' !in s && '\U{7B00}' !in s
  }

  lemma SwappedAscii(c: char)
    requires c < '\U{0080}'
    ensures Swapped(c as int) == c as int * 0x100
  {
  }

  lemma OtherOrderUnit(b: Bytes, le: bool, c: char)
    requires c in DecodeUnits(Units(b, !le)).0 && c < '\U{0080}'
    ensures c as int * 0x100 in Units(b, le)
  {
    DecodedComesFrom(Units(b, !le), c);
    OtherUnits(b, le, c as int);
    SwappedAscii(c);
  }

  /** An ASCII character of the reading in the other order comes from its swapped unit. */
  lemma OtherOrderChar(s: string, le: bool, c: char)
    requires c in DecodeUnits(Units(EncodeUtf16(s, le), !le)).0 && c < '\U{0080}'
    ensures (c as int * 0x100) as char in s
  {
    OtherOrderUnit(EncodeUtf16(s, le), le, c);
    EncodedComesFrom(s, le, c as int * 0x100);
  }

  lemma {:induction false} TrimStartWithout(s: string, c: char)
    requires c !in s
    ensures c !in TrimStartWhitespace(s)
  {
    if s != [] && IsWhitespace(s[0]) {
      TrimStartWithout(s[1..], c);
    }
  }

  lemma {:induction false} TrimEndWithout(s: string, c: char)
    requires c !in s
    ensures c !in TrimEndWhitespace(s)
  {
    if s != [] && IsWhitespace(s[|s| - 1]) {
      TrimEndWithout(s[..|s| - 1], c);
    }
  }

  lemma TrimWithout(s: string, c: char)
    requires c !in s
    ensures c !in Trim(s)
  {
    TrimStartWithout(s, c);
    TrimEndWithout(TrimStartWhitespace(s), c);
  }

  lemma {:induction false} LinesWithout(s: string, c: char)
    requires c !in s
    ensures forall line | line in Lines(s) :: c !in line
    decreases |s|
  {
    var end := IndexOf(s, '\n');
    if s != [] && end < |s| {
      var first := if end > 0 && s[end - 1] == '\r' then s[..end - 1] else s[..end];
      assert Lines(s) == [first] + Lines(s[end + 1..]);
      LinesWithout(s[end + 1..], c);
    }
  }

  lemma NoTabNoColumns(s: string)
    requires '\t' !in s
    ensures !HasTsvColumns(s)
  {
    LinesWithout(s, '\t');
    var lines := Lines(s);
    forall i | 0 <= i < |lines| ensures |SplitOn(lines[i], '\t')| < 2 {
      SplitWithout(lines[i], '\t');
    }
  }

  lemma OtherReadingScoresNothing(parse: JsonParser, s: string, le: bool)
    requires ContainersAreDelimited(parse) && NoLookalikes(s) && |EncodeUtf16(s, le)| <= PENALTY_FITS
    ensures Points(Score(parse, DecodeUtf16(EncodeUtf16(s, le), !le))) <= 0
  {
    var b := EncodeUtf16(s, le);
    if DecodeUtf16(b, !le).Some? {
      var text := DecodeUtf16(b, !le).value;
      var d := TrimEndNuls(text);
      TrimEndNulsIsShorter(text);
      forall c | c in ['\t', '[', '{'] ensures c !in text && c !in d {
        if c in text {
          OtherOrderChar(s, le, c);
        }
      }
      TrimWithout(d, '[');
      TrimWithout(d, '{');
      NoTabNoColumns(d);
      UnitsAreHalf(b, !le);
      DecodedUnitsAreShorter(Units(b, !le));
      NoEvidence(parse, text);
    }
  }

  lemma {:induction false} UnitsAreHalf(b: Bytes, le: bool)
    ensures |Units(b, le)| == |b| / 2
  {
    if |b| >= 2 {
      UnitsAreHalf(b[2..], le);
    }
  }

  lemma {:induction false} DecodedUnitsAreShorter(u: seq<Unit>)
    ensures |DecodeUnits(u).0| <= |u|
  {
    if u != [] {
      DecodedUnitsAreShorter(u[1..]);
      if |u| >= 2 {
        DecodedUnitsAreShorter(u[2..]);
      }
    }
  }

  // ---- the reading in the right byte order ----

  /** What the structure of a dictionary looks like: no control characters, and columns or a JSON container. */
  predicate LooksLikeDictionary(parse: JsonParser, s: string) {
    InvalidC0Count(s) == 0 && (HasTsvColumns(s) || IsContainer(parse(Trim(s))))
  }

  lemma NoNulToTrim(s: string)
    requires InvalidC0Count(s) == 0
    ensures '\0' !in s && TrimEndNuls(s) == s
  {
    CountInvalid(s);
    if s != [] {
      assert s[|s| - 1] in s;
    }
  }

  lemma DictionaryScores(parse: JsonParser, s: string)
    requires LooksLikeDictionary(parse, s)
    ensures StructureScore(parse, s) > 0
  {
    NoNulToTrim(s);
  }

  /** A character whose UTF-16 form has a zero byte, with a byte after it that is not zero. */
  predicate HasLowInside(s: string, le: bool) {
    exists i :: 0 <= i < |s| && s[i] < '\U{0100}' && (le ==> i + 1 < |s|)
  }

  lemma NonZeroUnit(c: char, le: bool)
    requires c != '\0'
    ensures EncodeChar16(c, le)[0] != 0 || EncodeChar16(c, le)[1] != 0
  {
  }

  lemma {:induction false} LowGivesZero(s: string, le: bool, i: nat)
    requires i < |s| && s[i] < '\U{0100}' && (le ==> i + 1 < |s|) && '\0' !in s
    ensures ZeroInside(EncodeUtf16(s, le))
  {
    var (head, rest) := (EncodeChar16(s[0], le), EncodeUtf16(s[1..], le));
    var b := EncodeUtf16(s, le);
    assert b == head + rest;
    if i == 0 {
      if le {
        NonZeroUnit(s[1], le);
        assert EncodeChar16(s[1], le) <= rest;
        assert b[1] == 0 && (b[2] != 0 || b[3] != 0);
      } else {
        assert b[0] == 0 && b[1] != 0;
      }
    } else {
      LowGivesZero(s[1..], le, i - 1);
      var j, k :| 0 <= j < k < |rest| && rest[j] == 0 && rest[k] != 0;
      assert b[|head| + j] == 0 && b[|head| + k] != 0;
    }
  }

  lemma UnmarkedUtf16IsRecognised(parse: JsonParser, s: string, le: bool)
    requires ContainersAreDelimited(parse) && RejectsNul(parse)
    requires LooksLikeDictionary(parse, s) && HasLowInside(s, le) && NoLookalikes(s)
    requires !Marked(EncodeUtf16(s, le)) && |EncodeUtf16(s, le)| <= PENALTY_FITS
    ensures SniffEncoding(parse, EncodeUtf16(s, le)) == if le then Utf16Le else Utf16Be
  {
    var b := EncodeUtf16(s, le);
    Utf16RoundTrip(s, le);
    DictionaryScores(parse, s);
    NoNulToTrim(s);
    var i :| 0 <= i < |s| && s[i] < '\U{0100}' && (le ==> i + 1 < |s|);
    LowGivesZero(s, le, i);
    Utf8ReadingScoresNothing(parse, b);
    OtherReadingScoresNothing(parse, s, le);
    SniffExactly(parse, b);
  }

  lemma UnmarkedHasNoBom(s: string, le: bool)
    requires !Marked(EncodeUtf16(s, le))
    ensures StripLeadingBom(s) == s
  {
    if s != [] {
      assert EncodeUtf16(s, le) == EncodeChar16(s[0], le) + EncodeUtf16(s[1..], le);
    }
  }

  /** Text of a dictionary that was written as UTF-16 without a mark, in either byte order, is recognised by its
      structure and read back exactly. */
  lemma UnmarkedUtf16IsReadBack(parse: JsonParser, s: string, le: bool)
    requires ContainersAreDelimited(parse) && RejectsNul(parse)
    requires LooksLikeDictionary(parse, s) && HasLowInside(s, le) && NoLookalikes(s)
    requires !Marked(EncodeUtf16(s, le)) && |EncodeUtf16(s, le)| <= PENALTY_FITS
    ensures SniffEncoding(parse, EncodeUtf16(s, le)) == if le then Utf16Le else Utf16Be
    ensures DecodeBytes(parse, EncodeUtf16(s, le)) == Some(s)
    ensures DecodeBytesLossy(parse, EncodeUtf16(s, le)) == (s, false)
  {
    UnmarkedUtf16IsRecognised(parse, s, le);
    Utf16RoundTrip(s, le);
    UnitsRoundTrip(s, le);
    UnmarkedHasNoBom(s, le);
  }

  // ---- the condition that a low character stands inside ----

  predicate IsPlain(c: char) {
    !IsInvalidC0(c) && c != '\t' && c != '\n' && c != '[' && c != '{'
  }

  lemma TrailingTabIsColumn(a: string)
    requires a != "" && forall c | c in a :: IsPlain(c)
    ensures HasTsvColumns(a + "\t") && InvalidC0Count(a + "\t") == 0
  {
    var d := a + "\t";
    CountInvalid(d);
    assert '\n' !in d;
    assert IndexOf(d, '\n') == |d|;
    assert Lines(d) == [d];
    SplitAtFirst(a, '\t', "");
    assert a + ['\t'] + "" == d;
    assert Lines(d)[0] == d && |SplitOn(d, '\t')| == 1 + |SplitOn("", '\t')|;
  }

  lemma TrailingTabScores(parse: JsonParser, a: string, end: string)
    requires ContainersAreDelimited(parse) && (end == "" || end == "\0")
    requires a != "" && forall c | c in a :: IsPlain(c)
    ensures StructureScore(parse, a + "\t" + end) == 100
  {
    var d := a + "\t";
    assert (d + "\0")[..|d|] == d && d + "" == d;
    assert TrimEndNuls(d + end) == d;
    TrimWithout(d, '[');
    TrimWithout(d, '{');
    TrailingTabIsColumn(a);
  }

  lemma UnmarkedFirst(b: Bytes)
    requires b != [] && b[0] < 0x80
    ensures !Marked(b)
  {
    assert [0xEF, 0xBB, 0xBF][0] == 0xEF && [0xFF, 0xFE][0] == 0xFF && [0xFE, 0xFF][0] == 0xFE;
  }

  lemma AsciiBytes(c: char, s: string)
    requires c < '\U{0080}'
    ensures EncodeUtf8([c] + s) == [c as int] + EncodeUtf8(s)
  {
    assert ([c] + s)[1..] == s;
  }

  lemma TrailingTabBytes(le: string, utf8: string)
    requires le == ['あ', '\t'] && utf8 == ['B', '0', '\t', '\0']
    ensures EncodeUtf16(le, true) == EncodeUtf8(utf8) && !Marked(EncodeUtf16(le, true))
  {
    assert le[1..] == ['\t'] && ['\t'][1..] == [];
    assert EncodeChar16('あ', true) == [0x42, 0x30] && EncodeUtf16(['\t'], true) == [0x09, 0x00];
    assert EncodeUtf16(le, true) == [0x42, 0x30, 0x09, 0x00];
    var (three, two, one) := (['0', '\t', '\0'], ['\t', '\0'], ['\0']);
    assert utf8 == ['B'] + three && three == ['0'] + two && two == ['\t'] + one && one == ['\0'] + [];
    AsciiBytes('\0', []);
    AsciiBytes('\t', one);
    AsciiBytes('0', two);
    AsciiBytes('B', three);
    assert EncodeUtf8([]) == [] && EncodeUtf8(one) == [0x00] && EncodeUtf8(two) == [0x09, 0x00];
    UnmarkedFirst(EncodeUtf16(le, true));
  }

  lemma TrailingTabReadings(parse: JsonParser, le: string, utf8: string)
    requires ContainersAreDelimited(parse) && le == ['あ', '\t'] && utf8 == ['B', '0', '\t', '\0']
    ensures StructureScore(parse, le) == 100 == StructureScore(parse, utf8)
    ensures HasTsvColumns(le) && InvalidC0Count(le) == 0
  {
    var (kana, ascii) := (['あ'], ['B', '0']);
    TrailingTabIsColumn(kana);
    TrailingTabScores(parse, kana, "");
    TrailingTabScores(parse, ascii, "\0");
    assert kana + "\t" == le && le + "" == le;
    assert ascii + "\t" + "\0" == utf8;
  }

  lemma TieMeansUtf8(parse: JsonParser, b: Bytes, le: string, utf8: string)
    requires b == EncodeUtf16(le, true) == EncodeUtf8(utf8) && !Marked(b)
    requires StructureScore(parse, le) == StructureScore(parse, utf8)
    requires Points(Score(parse, DecodeUtf16(b, false))) <= 0
    ensures SniffEncoding(parse, b) == Utf8
  {
    Utf16RoundTrip(le, true);
    Utf8RoundTrip(utf8);
    SniffExactly(parse, b);
  }

  /** A TAB at the very end does not help: its zero byte is ignored at the end of the UTF-8 reading, both readings
      score the same, and the text is taken for UTF-8. */
  lemma LowAtTheEndIsUtf8(parse: JsonParser, s: string)
    requires ContainersAreDelimited(parse) && s == ['あ', '\t']
    ensures HasTsvColumns(s) && InvalidC0Count(s) == 0 && SniffEncoding(parse, EncodeUtf16(s, true)) == Utf8
  {
    var utf8 := ['B', '0', '\t', '\0'];
    TrailingTabBytes(s, utf8);
    TrailingTabReadings(parse, s, utf8);
    OtherReadingScoresNothing(parse, s, true);
    TieMeansUtf8(parse, EncodeUtf16(s, true), s, utf8);
  }
}
