/** Kana normalisation of readings and words: trimming, hiragana to katakana, and the fixed kana
    subset of canonical composition (section 3.11 of The Unicode Standard). */
module Kana {
  import opened Prelude

  const DAKUTEN := '\U{3099}'
  const HANDAKUTEN := '\U{309A}'

  predicate IsMark(c: char) {
    c == DAKUTEN || c == HANDAKUTEN
  }

  /** Space separators and TAB, but no line break. */
  predicate IsTrimWs(c: char) {
    || c == '\U{0009}' || c == '\U{0020}' || c == '\U{00A0}' || c == '\U{1680}'
    || '\U{2000}' <= c <= '\U{200A}'
    || c == '\U{202F}' || c == '\U{205F}' || c == '\U{3000}'
  }

  function WithDakuten(base: char): Option<char> {
    match base
    case 'か' => Some('が')
    case 'き' => Some('ぎ')
    case 'く' => Some('ぐ')
    case 'け' => Some('げ')
    case 'こ' => Some('ご')
    case 'さ' => Some('ざ')
    case 'し' => Some('じ')
    case 'す' => Some('ず')
    case 'せ' => Some('ぜ')
    case 'そ' => Some('ぞ')
    case 'た' => Some('だ')
    case 'ち' => Some('ぢ')
    case 'つ' => Some('づ')
    case 'て' => Some('で')
    case 'と' => Some('ど')
    case 'は' => Some('ば')
    case 'ひ' => Some('び')
    case 'ふ' => Some('ぶ')
    case 'へ' => Some('べ')
    case 'ほ' => Some('ぼ')
    case 'う' => Some('ゔ')
    case 'ゝ' => Some('ゞ')
    case 'カ' => Some('ガ')
    case 'キ' => Some('ギ')
    case 'ク' => Some('グ')
    case 'ケ' => Some('ゲ')
    case 'コ' => Some('ゴ')
    case 'サ' => Some('ザ')
    case 'シ' => Some('ジ')
    case 'ス' => Some('ズ')
    case 'セ' => Some('ゼ')
    case 'ソ' => Some('ゾ')
    case 'タ' => Some('ダ')
    case 'チ' => Some('ヂ')
    case 'ツ' => Some('ヅ')
    case 'テ' => Some('デ')
    case 'ト' => Some('ド')
    case 'ハ' => Some('バ')
    case 'ヒ' => Some('ビ')
    case 'フ' => Some('ブ')
    case 'ヘ' => Some('ベ')
    case 'ホ' => Some('ボ')
    case 'ウ' => Some('ヴ')
    case 'ワ' => Some('ヷ')
    case 'ヰ' => Some('ヸ')
    case 'ヱ' => Some('ヹ')
    case 'ヲ' => Some('ヺ')
    case 'ヽ' => Some('ヾ')
    case _ => None
  }

  function WithHandakuten(base: char): Option<char> {
    match base
    case 'は' => Some('ぱ')
    case 'ひ' => Some('ぴ')
    case 'ふ' => Some('ぷ')
    case 'へ' => Some('ぺ')
    case 'ほ' => Some('ぽ')
    case 'ハ' => Some('パ')
    case 'ヒ' => Some('ピ')
    case 'フ' => Some('プ')
    case 'ヘ' => Some('ペ')
    case 'ホ' => Some('ポ')
    case _ => None
  }

  /** The composition table, split by its mark column. */
  function ComposePair(base: char, mark: char): Option<char> {
    if mark == DAKUTEN then WithDakuten(base)
    else if mark == HANDAKUTEN then WithHandakuten(base)
    else None
  }

  /** The composition scan: a pair that composes is consumed whole. */
  function ComposeKana(s: string): string {
    if s == [] then []
    else if |s| >= 2 && ComposePair(s[0], s[1]).Some? then [ComposePair(s[0], s[1]).value] + ComposeKana(s[2..])
    else [s[0]] + ComposeKana(s[1..])
  }

  method ComposeKanaScan(s: string) returns (out: string)
    ensures out == ComposeKana(s)
  {
    out := [];
    var i := 0;
    while i < |s|
      invariant 0 <= i <= |s|
      invariant out + ComposeKana(s[i..]) == ComposeKana(s)
    {
      var base := s[i];
      ghost var done, rest := out, s[i..];
      i := i + 1;
      if i < |s| {
        var composed := ComposePair(base, s[i]);
        if composed.Some? {
          assert rest == [base, s[i]] + s[i + 1..];
          ComposeHeadPair(base, s[i], s[i + 1..]);
          assert done + ([composed.value] + ComposeKana(s[i + 1..])) ==
              done + [composed.value] + ComposeKana(s[i + 1..]);
          out := out + [composed.value];
          i := i + 1;
          continue;
        }
      }
      assert rest == [base] + s[i..];
      ComposeHead(base, s[i..]);
      assert done + ([base] + ComposeKana(s[i..])) == done + [base] + ComposeKana(s[i..]);
      out := out + [base];
    }
  }

  function TrimStart(s: string): string {
    if s != [] && IsTrimWs(s[0]) then TrimStart(s[1..]) else s
  }

  function TrimEnd(s: string): string {
    if s != [] && IsTrimWs(s[|s| - 1]) then TrimEnd(s[..|s| - 1]) else s
  }

  function TrimWs(s: string): string {
    TrimEnd(TrimStart(s))
  }

  function KatakanaOf(c: char): char {
    if '\U{3041}' <= c <= '\U{3096}' then (c as int + 0x60) as char else c
  }

  function HiraganaOf(c: char): char {
    if '\U{30A1}' <= c <= '\U{30F6}' then (c as int - 0x60) as char else c
  }

  function MapChars(f: char -> char, s: string): (r: string)
    ensures |r| == |s|
  {
    seq(|s|, i requires 0 <= i < |s| => f(s[i]))
  }

  function HiraganaToKatakana(s: string): string {
    MapChars(KatakanaOf, s)
  }

  /** The clause code's normal form of a reading: katakana to hiragana. */
  function NormalizeReading(s: string): string {
    MapChars(HiraganaOf, s)
  }

  /** The engine's lookup key: map first, compose second. */
  function NormalizeKey(ruby: string): string {
    ComposeKana(HiraganaToKatakana(TrimWs(ruby)))
  }

  function NormalizeWord(word: string): string {
    ComposeKana(TrimWs(word))
  }

  // ---- facts about single characters ----

  /** Bases and composed characters lie in the kana blocks and are not marks. */
  predicate IsKana(c: char) {
    '\U{3041}' <= c <= '\U{3098}' || '\U{309D}' <= c <= '\U{30FE}'
  }

  lemma DakutenShape(base: char)
    requires WithDakuten(base).Some?
    ensures IsKana(base) && IsKana(WithDakuten(base).value)
  {
  }

  lemma HandakutenShape(base: char)
    requires WithHandakuten(base).Some?
    ensures IsKana(base) && IsKana(WithHandakuten(base).value)
  {
  }

  lemma PairShape(base: char, mark: char)
    requires ComposePair(base, mark).Some?
    ensures IsMark(mark) && !IsMark(base) && !IsTrimWs(base)
    ensures !IsMark(ComposePair(base, mark).value) && !IsTrimWs(ComposePair(base, mark).value)
  {
    if mark == DAKUTEN {
      DakutenShape(base);
    } else {
      HandakutenShape(base);
    }
  }

  lemma NoBase(c: char)
    requires !IsKana(c)
    ensures WithDakuten(c) == None && WithHandakuten(c) == None
  {
    if WithDakuten(c).Some? {
      DakutenShape(c);
    } else if WithHandakuten(c).Some? {
      HandakutenShape(c);
    }
  }

  /** The katakana of a composed character is no base: composition never cascades. */
  lemma ComposedIsNoBase(base: char, mark: char)
    requires ComposePair(base, mark).Some?
    ensures var c := KatakanaOf(ComposePair(base, mark).value); WithDakuten(c) == None && WithHandakuten(c) == None
  {
    if mark == HANDAKUTEN {
      SemiVoicedIsNoBase(base);
    } else if base < '\U{30A1}' {
      VoicedHiraganaIsNoBase(base);
    } else {
      VoicedKatakanaIsNoBase(base);
    }
  }

  lemma SemiVoicedIsNoBase(base: char)
    requires WithHandakuten(base).Some?
    ensures var c := KatakanaOf(WithHandakuten(base).value); WithDakuten(c) == None && WithHandakuten(c) == None
  {
  }

  lemma VoicedHiraganaIsNoBase(base: char)
    requires base < '\U{30A1}' && WithDakuten(base).Some?
    ensures var c := KatakanaOf(WithDakuten(base).value); WithDakuten(c) == None && WithHandakuten(c) == None
  {
  }

  lemma VoicedKatakanaIsNoBase(base: char)
    requires base >= '\U{30A1}' && WithDakuten(base).Some?
    ensures var c := KatakanaOf(WithDakuten(base).value); WithDakuten(c) == None && WithHandakuten(c) == None
  {
  }

  /** Composing and mapping to katakana commute on every pair of the table. */
  lemma PairKatakana(base: char, mark: char)
    requires ComposePair(base, mark).Some?
    ensures ComposePair(KatakanaOf(base), mark) == Some(KatakanaOf(ComposePair(base, mark).value))
  {
  }

  lemma CharMaps(c: char)
    ensures KatakanaOf(KatakanaOf(c)) == KatakanaOf(c)
    ensures KatakanaOf(HiraganaOf(c)) == KatakanaOf(c)
    ensures IsTrimWs(KatakanaOf(c)) <==> IsTrimWs(c)
    ensures IsTrimWs(HiraganaOf(c)) <==> IsTrimWs(c)
    ensures IsMark(KatakanaOf(c)) <==> IsMark(c)
    ensures IsMark(c) ==> KatakanaOf(c) == c
  {
  }

  // ---- trimming commutes with every step ----

  lemma {:induction false} ComposeSnoc(s: string, c: char)
    requires !IsMark(c)
    ensures ComposeKana(s + [c]) == ComposeKana(s) + [c]
  {
    var t := s + [c];
    if |s| >= 1 {
      var n := if |s| >= 2 && ComposePair(s[0], s[1]).Some? then 2 else 1;
      if |s| == 1 && ComposePair(s[0], c).Some? {
        PairShape(s[0], c);
      }
      assert t[n..] == s[n..] + [c];
      ComposeSnoc(s[n..], c);
    }
  }

  /** Composition keeps emptiness and whether the ends are trimmable. */
  lemma {:induction false} ComposeEnds(s: string)
    ensures s == [] <==> ComposeKana(s) == []
    ensures s != [] ==> (IsTrimWs(ComposeKana(s)[0]) <==> IsTrimWs(s[0]))
    ensures s != [] && !IsTrimWs(s[|s| - 1]) ==> !IsTrimWs(ComposeKana(s)[|ComposeKana(s)| - 1])
  {
    if s != [] {
      var n := if |s| >= 2 && ComposePair(s[0], s[1]).Some? then 2 else 1;
      if n == 2 {
        PairShape(s[0], s[1]);
      }
      ComposeEnds(s[n..]);
    }
  }

  lemma WsIsNoKana(c: char)
    requires IsTrimWs(c)
    ensures !IsMark(c) && WithDakuten(c) == None && WithHandakuten(c) == None
  {
    NoBase(c);
  }

  lemma {:induction false} TrimStartCompose(s: string)
    ensures TrimStart(ComposeKana(s)) == ComposeKana(TrimStart(s))
  {
    ComposeEnds(s);
    if s != [] && IsTrimWs(s[0]) {
      WsIsNoKana(s[0]);
      assert ComposeKana(s) == [s[0]] + ComposeKana(s[1..]);
      TrimStartCompose(s[1..]);
    }
  }

  lemma {:induction false} TrimEndCompose(s: string)
    ensures TrimEnd(ComposeKana(s)) == ComposeKana(TrimEnd(s))
  {
    ComposeEnds(s);
    if s != [] && IsTrimWs(s[|s| - 1]) {
      var front, last := s[..|s| - 1], s[|s| - 1];
      WsIsNoKana(last);
      ComposeSnoc(front, last);
      assert s == front + [last];
      assert (ComposeKana(front) + [last])[..|ComposeKana(front)|] == ComposeKana(front);
      TrimEndCompose(front);
    }
  }

  lemma TrimCompose(s: string)
    ensures TrimWs(ComposeKana(s)) == ComposeKana(TrimWs(s))
  {
    TrimStartCompose(s);
    TrimEndCompose(TrimStart(s));
  }

  /** A map of single characters that neither makes nor removes trimmable characters. */
  ghost predicate KeepsWs(f: char -> char) {
    forall c :: IsTrimWs(f(c)) <==> IsTrimWs(c)
  }

  lemma {:induction false} TrimMap(f: char -> char, s: string)
    requires KeepsWs(f)
    ensures TrimWs(MapChars(f, s)) == MapChars(f, TrimWs(s))
  {
    TrimStartMap(f, s);
    TrimEndMap(f, TrimStart(s));
  }

  lemma {:induction false} TrimStartMap(f: char -> char, s: string)
    requires KeepsWs(f)
    ensures TrimStart(MapChars(f, s)) == MapChars(f, TrimStart(s))
  {
    if s != [] && IsTrimWs(s[0]) {
      assert MapChars(f, s)[1..] == MapChars(f, s[1..]);
      TrimStartMap(f, s[1..]);
    }
  }

  lemma {:induction false} TrimEndMap(f: char -> char, s: string)
    requires KeepsWs(f)
    ensures TrimEnd(MapChars(f, s)) == MapChars(f, TrimEnd(s))
  {
    if s != [] && IsTrimWs(s[|s| - 1]) {
      assert MapChars(f, s)[..|s| - 1] == MapChars(f, s[..|s| - 1]);
      TrimEndMap(f, s[..|s| - 1]);
    }
  }

  lemma {:induction false} TrimStartShape(s: string)
    ensures TrimStart(s) == [] || !IsTrimWs(TrimStart(s)[0])
    ensures TrimStart(TrimStart(s)) == TrimStart(s)
    ensures |TrimStart(s)| <= |s| && TrimStart(s) == s[|s| - |TrimStart(s)|..]
  {
    if s != [] && IsTrimWs(s[0]) {
      TrimStartShape(s[1..]);
    }
  }

  lemma {:induction false} TrimEndShape(s: string)
    ensures TrimEnd(s) <= s
    ensures TrimEnd(s) == [] || !IsTrimWs(TrimEnd(s)[|TrimEnd(s)| - 1])
    ensures TrimEnd(TrimEnd(s)) == TrimEnd(s)
  {
    if s != [] && IsTrimWs(s[|s| - 1]) {
      TrimEndShape(s[..|s| - 1]);
    }
  }

  /** Trimming is idempotent and leaves no trimmable character at either end. */
  lemma TrimShape(s: string)
    ensures TrimWs(TrimWs(s)) == TrimWs(s)
    ensures TrimWs(s) != [] ==> !IsTrimWs(TrimWs(s)[0]) && !IsTrimWs(TrimWs(s)[|TrimWs(s)| - 1])
  {
    TrimStartShape(s);
    TrimEndShape(TrimStart(s));
    var t := TrimWs(s);
    if t != [] {
      assert t[0] == TrimStart(s)[0];
      assert TrimStart(t) == t;
    }
  }

  // ---- the key is blind to spelling ----

  lemma ComposeHead(c: char, s: string)
    requires s == [] || ComposePair(c, s[0]).None?
    ensures ComposeKana([c] + s) == [c] + ComposeKana(s)
  {
    assert ([c] + s)[1..] == s;
  }

  lemma ComposeHeadPair(base: char, mark: char, s: string)
    requires ComposePair(base, mark).Some?
    ensures ComposeKana([base, mark] + s) == [ComposePair(base, mark).value] + ComposeKana(s)
  {
    assert ([base, mark] + s)[2..] == s;
  }

  lemma MarkIsNoBase(mark: char, c: char)
    requires IsMark(mark)
    ensures ComposePair(mark, c) == None
  {
    NoBase(mark);
  }

  lemma FirstStaysUnmarked(s: string)
    requires s != [] && !IsMark(s[0])
    ensures ComposeKana(s) != [] && !IsMark(ComposeKana(s)[0])
  {
    if |s| >= 2 && ComposePair(s[0], s[1]).Some? {
      PairShape(s[0], s[1]);
    }
  }

  lemma KatakanaCons(c: char, s: string)
    ensures HiraganaToKatakana([c] + s) == [KatakanaOf(c)] + HiraganaToKatakana(s)
  {
  }

  /** Composing before or after the katakana map makes no difference to the key. */
  lemma {:induction false} ComposeKatakana(s: string)
    ensures ComposeKana(HiraganaToKatakana(ComposeKana(s))) == ComposeKana(HiraganaToKatakana(s))
    decreases |s|
  {
    if |s| >= 2 && ComposePair(s[0], s[1]).Some? {
      ComposeKatakanaPair(s);
    } else if s != [] {
      ComposeKatakanaSingle(s);
    }
  }

  lemma {:induction false} ComposeKatakanaPair(s: string)
    requires |s| >= 2 && ComposePair(s[0], s[1]).Some?
    ensures ComposeKana(HiraganaToKatakana(ComposeKana(s))) == ComposeKana(HiraganaToKatakana(s))
    decreases |s|, 0
  {
    var c, rest := ComposePair(s[0], s[1]).value, s[2..];
    PairShape(s[0], s[1]);
    CharMaps(s[1]);
    PairKatakana(s[0], s[1]);
    ComposedIsNoBase(s[0], s[1]);
    var image := HiraganaToKatakana(ComposeKana(rest));
    KatakanaCons(c, ComposeKana(rest));
    ComposeHead(KatakanaOf(c), image);
    assert HiraganaToKatakana(s) == [KatakanaOf(s[0]), s[1]] + HiraganaToKatakana(rest);
    ComposeHeadPair(KatakanaOf(s[0]), s[1], HiraganaToKatakana(rest));
    ComposeKatakana(rest);
  }

  lemma {:induction false} ComposeKatakanaSingle(s: string)
    requires s != [] && (|s| >= 2 ==> ComposePair(s[0], s[1]).None?)
    ensures ComposeKana(HiraganaToKatakana(ComposeKana(s))) == ComposeKana(HiraganaToKatakana(s))
    decreases |s|, 0
  {
    var a, t := KatakanaOf(s[0]), s[1..];
    var x, y := HiraganaToKatakana(ComposeKana(t)), HiraganaToKatakana(t);
    KatakanaCons(s[0], ComposeKana(t));
    KatakanaCons(s[0], t);
    assert s == [s[0]] + t;
    ComposeKatakana(t);
    if t != [] && IsMark(t[0]) {
      CharMaps(t[0]);
      if |t| >= 2 {
        MarkIsNoBase(t[0], t[1]);
      }
      assert ComposeKana(t) == [t[0]] + ComposeKana(t[1..]);
      KatakanaCons(t[0], ComposeKana(t[1..]));
      if ComposePair(a, t[0]).Some? {
        ComposeKatakana(t[1..]);
        assert [a] + x == [a, t[0]] + HiraganaToKatakana(ComposeKana(t[1..]));
        assert [a] + y == [a, t[0]] + HiraganaToKatakana(t[1..]);
        ComposeHeadPair(a, t[0], HiraganaToKatakana(ComposeKana(t[1..])));
        ComposeHeadPair(a, t[0], HiraganaToKatakana(t[1..]));
      } else {
        ComposeHead(a, x);
        ComposeHead(a, y);
      }
    } else if t != [] {
      FirstStaysUnmarked(t);
      CharMaps(t[0]);
      CharMaps(ComposeKana(t)[0]);
      ComposeHead(a, x);
      ComposeHead(a, y);
    }
  }

  lemma KatakanaMaps(s: string)
    ensures HiraganaToKatakana(HiraganaToKatakana(s)) == HiraganaToKatakana(s)
    ensures HiraganaToKatakana(NormalizeReading(s)) == HiraganaToKatakana(s)
    ensures TrimWs(HiraganaToKatakana(s)) == HiraganaToKatakana(TrimWs(s))
    ensures TrimWs(NormalizeReading(s)) == NormalizeReading(TrimWs(s))
  {
    forall c: char {
      CharMaps(c);
    }
    TrimMap(KatakanaOf, s);
    TrimMap(HiraganaOf, s);
  }

  /** The key does not depend on how a reading is spelled: composed or not, hiragana or katakana. */
  lemma KeyIsBlindToSpelling(r: string)
    ensures NormalizeKey(ComposeKana(r)) == NormalizeKey(r)
    ensures NormalizeKey(HiraganaToKatakana(r)) == NormalizeKey(r)
    ensures NormalizeKey(NormalizeReading(r)) == NormalizeKey(r)
  {
    TrimCompose(r);
    ComposeKatakana(TrimWs(r));
    KatakanaMaps(r);
    KatakanaMaps(TrimWs(r));
  }

  lemma KeyIsIdempotent(r: string)
    ensures NormalizeKey(NormalizeKey(r)) == NormalizeKey(r)
  {
    var image := HiraganaToKatakana(TrimWs(r));
    TrimShape(r);
    KatakanaMaps(r);
    KatakanaMaps(TrimWs(r));
    TrimCompose(image);
    ComposeKatakana(image);
  }

  /** Trimming takes trimmable characters off both ends and nothing else. */
  lemma {:induction false} TrimTakesOnlyWs(s: string) returns (front: string, back: string)
    ensures s == front + TrimWs(s) + back
    ensures forall i :: 0 <= i < |front| ==> IsTrimWs(front[i])
    ensures forall i :: 0 <= i < |back| ==> IsTrimWs(back[i])
  {
    if s != [] && IsTrimWs(s[0]) {
      front, back := TrimTakesOnlyWs(s[1..]);
      front := [s[0]] + front;
      assert s == [s[0]] + s[1..];
    } else {
      front := [];
      back := TrimEndTakesOnlyWs(s);
    }
  }

  lemma {:induction false} TrimEndTakesOnlyWs(s: string) returns (back: string)
    ensures s == TrimEnd(s) + back
    ensures forall i :: 0 <= i < |back| ==> IsTrimWs(back[i])
  {
    if s != [] && IsTrimWs(s[|s| - 1]) {
      back := TrimEndTakesOnlyWs(s[..|s| - 1]);
      back := back + [s[|s| - 1]];
    } else {
      back := [];
    }
  }

  // ---- the table by code point ----

  /** The plain bases of the two kana blocks, counted from the start of their block: k, s and t rows, then h. */
  predicate IsPlainBase(k: int) {
    (0x0B <= k <= 0x21 && k % 2 == 1) || k == 0x24 || k == 0x26 || k == 0x28 || IsHBase(k)
  }

  predicate IsHBase(k: int) {
    0x2F <= k <= 0x3B && (k - 0x2F) % 3 == 0
  }

  /** A voiced character stands one place after its base, except for u and the katakana w row; a half-voiced one
      stands two places after. */
  lemma TableByCodePoint(c: char)
    ensures var n := c as int;
            WithDakuten(c) ==
              if IsPlainBase(n - 0x3040) || IsPlainBase(n - 0x30A0) || n == 0x309D || n == 0x30FD then
                Some((n + 1) as char)
              else if n == 0x3046 || n == 0x30A6 then Some((n + 0x4E) as char)
              else if 0x30EF <= n <= 0x30F2 then Some((n + 8) as char)
              else None
    ensures var n := c as int;
            WithHandakuten(c) == if IsHBase(n - 0x3040) || IsHBase(n - 0x30A0) then Some((n + 2) as char) else None
  {
  }

  /** The two kana maps move a character by the distance of the blocks, exactly where both blocks have it; there
      they undo each other. */
  lemma KanaMapsExactly(c: char)
    ensures '\U{3041}' <= c <= '\U{3096}' ==>
              KatakanaOf(c) as int == c as int + 0x60 && HiraganaOf(KatakanaOf(c)) == c == HiraganaOf(c)
    ensures '\U{30A1}' <= c <= '\U{30F6}' ==>
              HiraganaOf(c) as int == c as int - 0x60 && KatakanaOf(HiraganaOf(c)) == c == KatakanaOf(c)
    ensures !('\U{3041}' <= c <= '\U{3096}') && !('\U{30A1}' <= c <= '\U{30F6}') ==> KatakanaOf(c) == c == HiraganaOf(c)
  {
  }

  // ---- composition is canonical ----

  lemma ComposedStaysComposed(base: char, mark: char)
    requires ComposePair(base, mark).Some?
    ensures var c := ComposePair(base, mark).value; WithDakuten(c) == None && WithHandakuten(c) == None
  {
    var c := ComposePair(base, mark).value;
    ComposedIsNoBase(base, mark);
    if ComposePair(c, DAKUTEN).Some? {
      PairKatakana(c, DAKUTEN);
    }
    if ComposePair(c, HANDAKUTEN).Some? {
      PairKatakana(c, HANDAKUTEN);
    }
  }

  /** No two neighbours are left that could be composed. */
  predicate FullyComposed(s: string) {
    forall i :: 0 <= i < |s| - 1 ==> ComposePair(s[i], s[i + 1]).None?
  }

  lemma FullyComposedCons(c: char, s: string)
    requires FullyComposed(s) && (s == [] || ComposePair(c, s[0]).None?)
    ensures FullyComposed([c] + s)
  {
  }

  lemma {:induction false} ComposeLeavesNoPair(s: string)
    ensures FullyComposed(ComposeKana(s))
    decreases |s|
  {
    if |s| >= 2 && ComposePair(s[0], s[1]).Some? {
      ComposeLeavesNoPair(s[2..]);
      ComposedStaysComposed(s[0], s[1]);
      FullyComposedCons(ComposePair(s[0], s[1]).value, ComposeKana(s[2..]));
    } else if s != [] {
      ComposeLeavesNoPair(s[1..]);
      FirstAfterComposing(s);
      FullyComposedCons(s[0], ComposeKana(s[1..]));
    }
  }

  lemma FirstAfterComposing(s: string)
    requires s != [] && (|s| >= 2 ==> ComposePair(s[0], s[1]).None?)
    ensures var rest := ComposeKana(s[1..]); rest == [] || ComposePair(s[0], rest[0]).None?
  {
    if |s| >= 2 {
      if IsMark(s[1]) {
        if |s| >= 3 {
          MarkIsNoBase(s[1], s[2]);
        }
        assert ComposeKana(s[1..])[0] == s[1];
      } else {
        FirstStaysUnmarked(s[1..]);
      }
    }
  }

  lemma {:induction false} ComposedIsFixed(s: string)
    requires FullyComposed(s)
    ensures ComposeKana(s) == s
  {
    if s != [] {
      ComposedIsFixed(s[1..]);
      assert s == [s[0]] + s[1..];
    }
  }

  /** A character as its base and mark, by code point. */
  function Decomposed(c: char): (r: string) {
    var n := c as int;
    if IsPlainBase(n - 0x3041) || IsPlainBase(n - 0x30A1) || n == 0x309E || n == 0x30FE then [(n - 1) as char, DAKUTEN]
    else if n == 0x3094 || n == 0x30F4 then [(n - 0x4E) as char, DAKUTEN]
    else if 0x30F7 <= n <= 0x30FA then [(n - 8) as char, DAKUTEN]
    else if IsHBase(n - 0x3042) || IsHBase(n - 0x30A2) then [(n - 2) as char, HANDAKUTEN]
    else [c]
  }

  function Decompose(s: string): string {
    if s == [] then [] else Decomposed(s[0]) + Decompose(s[1..])
  }

  lemma DecomposedPair(base: char, mark: char)
    requires ComposePair(base, mark).Some?
    ensures Decomposed(ComposePair(base, mark).value) == [base, mark] == Decomposed(base) + Decomposed(mark)
  {
    TableByCodePoint(base);
  }

  /** Composing changes the spelling only: taken apart again, the text is what it was, and no pair is left that
      could be composed. */
  lemma {:induction false} ComposeIsCanonical(s: string)
    ensures Decompose(ComposeKana(s)) == Decompose(s)
    ensures FullyComposed(ComposeKana(s)) && ComposeKana(ComposeKana(s)) == ComposeKana(s)
    decreases |s|
  {
    ComposeLeavesNoPair(s);
    ComposedIsFixed(ComposeKana(s));
    if |s| >= 2 && ComposePair(s[0], s[1]).Some? {
      DecomposedPair(s[0], s[1]);
      ComposeIsCanonical(s[2..]);
      assert s[1..][1..] == s[2..];
      Reassociate(Decomposed(s[0]), Decomposed(s[1]), Decompose(s[2..]));
    } else if s != [] {
      ComposeIsCanonical(s[1..]);
    }
  }

  // ---- words ----

  /** The normal form of a word does not depend on blanks around it or on how its kana are composed; it has no
      trimmable end and is its own normal form. */
  lemma WordIsBlindToSpelling(w: string)
    ensures NormalizeWord(TrimWs(w)) == NormalizeWord(w)
    ensures NormalizeWord(ComposeKana(w)) == NormalizeWord(w)
    ensures NormalizeWord(NormalizeWord(w)) == NormalizeWord(w)
    ensures var n := NormalizeWord(w); n != [] ==> !IsTrimWs(n[0]) && !IsTrimWs(n[|n| - 1])
    ensures Decompose(NormalizeWord(w)) == Decompose(TrimWs(w)) && FullyComposed(NormalizeWord(w))
  {
    TrimShape(w);
    TrimCompose(w);
    TrimCompose(TrimWs(w));
    TrimCompose(ComposeKana(w));
    ComposeIsCanonical(w);
    ComposeIsCanonical(TrimWs(w));
    ComposeEnds(TrimWs(w));
  }

  lemma KeyIgnoresBlanks(r: string)
    ensures NormalizeKey(TrimWs(r)) == NormalizeKey(r)
    ensures NormalizeKey(r) == ComposeKana(HiraganaToKatakana(ComposeKana(TrimWs(r))))
  {
    TrimShape(r);
    ComposeKatakana(TrimWs(r));
  }
}
