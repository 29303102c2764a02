/** Dictionary entries: validation, keys, parts of speech, deduplication and import merging. */
module UserDictionary {
  import opened Prelude
  import opened Kana
  import opened KeyedList

  datatype UserDictEntry = UserDictEntry(ruby: string, word: string, pos: Option<string>)

  datatype UserDictError = InvalidRuby | EmptyField | TooLong | ControlChar

  type Key = (string, string)

  function EntryKey(e: UserDictEntry): Key {
    (NormalizeKey(e.ruby), NormalizeWord(e.word))
  }

  // ---- validation ----

  predicate IsControl(c: char) {
    c <= '\U{001F}'
  }

  predicate HasControlChar(s: string) {
    exists i :: 0 <= i < |s| && IsControl(s[i])
  }

  predicate IsValidRubyChar(c: char) {
    '\U{3041}' <= c <= '\U{3096}' || '\U{30A1}' <= c <= '\U{30F6}' || c == '\U{30FC}'
  }

  predicate AllRubyChars(s: string) {
    forall i :: 0 <= i < |s| ==> IsValidRubyChar(s[i])
  }

  /** Not empty, at most 300 scalars, no C0 control; the first failing rule is reported. */
  function CheckGeneric(s: string): (r: Result<(), UserDictError>)
    ensures r.Ok? <==> 0 < |s| <= 300 && !HasControlChar(s)
  {
    if |s| == 0 then Err(EmptyField)
    else if |s| > 300 then Err(TooLong)
    else if HasControlChar(s) then Err(ControlChar)
    else Ok(())
  }

  /** Both fields are judged after trimming and composing. */
  function ValidateEntry(ruby: string, word: string): (r: Result<(), UserDictError>)
    ensures r.Ok? <==>
            var (rubyN, wordN) := (ComposeKana(TrimWs(ruby)), ComposeKana(TrimWs(word)));
            && 0 < |rubyN| <= 300 && AllRubyChars(rubyN)
            && 0 < |wordN| <= 300 && !HasControlChar(wordN)
  {
    var rubyN := ComposeKana(TrimWs(ruby));
    var wordN := ComposeKana(TrimWs(word));
    var rubyCheck := CheckGeneric(rubyN);
    if rubyCheck.Err? then rubyCheck
    else if !AllRubyChars(rubyN) then Err(InvalidRuby)
    else CheckGeneric(wordN)
  }

  predicate ValidRow(e: UserDictEntry) {
    ValidateEntry(e.ruby, e.word).Ok?
  }

  lemma RubyCharFacts(c: char)
    requires IsValidRubyChar(c)
    ensures !IsMark(c) && !IsControl(c) && !IsTrimWs(c)
    ensures '\U{30A1}' <= KatakanaOf(c) <= '\U{30F6}' || KatakanaOf(c) == '\U{30FC}'
  {
  }

  lemma {:induction false} ComposeUnmarked(s: string)
    requires forall i :: 0 <= i < |s| ==> !IsMark(s[i])
    ensures ComposeKana(s) == s
  {
    if s != [] {
      ComposeUnmarked(s[1..]);
    }
  }

  /** The lookup key of an accepted ruby is the katakana image of the ruby as shown to the user, and
      it is made of katakana and the long vowel mark only. */
  lemma KeyOfValidRuby(ruby: string, word: string)
    requires ValidateEntry(ruby, word).Ok?
    ensures var shown := ComposeKana(TrimWs(ruby));
            && NormalizeKey(ruby) == HiraganaToKatakana(shown)
            && |NormalizeKey(ruby)| == |shown| > 0
    ensures forall i :: 0 <= i < |NormalizeKey(ruby)| ==>
              '\U{30A1}' <= NormalizeKey(ruby)[i] <= '\U{30F6}' || NormalizeKey(ruby)[i] == '\U{30FC}'
  {
    var shown := ComposeKana(TrimWs(ruby));
    var image := HiraganaToKatakana(shown);
    ComposeKatakana(TrimWs(ruby));
    forall i | 0 <= i < |image|
      ensures !IsMark(image[i]) && ('\U{30A1}' <= image[i] <= '\U{30F6}' || image[i] == '\U{30FC}')
    {
      RubyCharFacts(shown[i]);
      CharMaps(shown[i]);
    }
    ComposeUnmarked(image);
  }

  /** Which rule an entry breaks first, of the ruby before the word. */
  lemma ValidationErrors(ruby: string, word: string)
    ensures var (rubyN, wordN) := (ComposeKana(TrimWs(ruby)), ComposeKana(TrimWs(word)));
            var r := ValidateEntry(ruby, word);
            && (r == Err(InvalidRuby) <==> 0 < |rubyN| <= 300 && !HasControlChar(rubyN) && !AllRubyChars(rubyN))
            && (0 < |rubyN| <= 300 && AllRubyChars(rubyN) ==>
                  && (r == Err(EmptyField) <==> wordN == "") && (r == Err(TooLong) <==> |wordN| > 300)
                  && (r == Err(ControlChar) <==> 0 < |wordN| <= 300 && HasControlChar(wordN)))
            && (!(0 < |rubyN| <= 300 && AllRubyChars(rubyN)) && r != Err(InvalidRuby) ==>
                  && (r == Err(EmptyField) <==> rubyN == "") && (r == Err(TooLong) <==> |rubyN| > 300)
                  && (r == Err(ControlChar) <==> 0 < |rubyN| <= 300 && HasControlChar(rubyN)))
  {
  }

  /** The two entries are spelled differently at most: their shown rubies are the same in katakana, and their shown
      words are the same. */
  predicate SameSpelling(a: UserDictEntry, b: UserDictEntry) {
    && HiraganaToKatakana(ComposeKana(TrimWs(a.ruby))) == HiraganaToKatakana(ComposeKana(TrimWs(b.ruby)))
    && ComposeKana(TrimWs(a.word)) == ComposeKana(TrimWs(b.word))
  }

  /** Two accepted entries have the same key exactly when they are respellings of each other; for entries that
      were never checked, being one is enough. */
  lemma SameKeyExactly(a: UserDictEntry, b: UserDictEntry)
    ensures SameSpelling(a, b) ==> EntryKey(a) == EntryKey(b)
    ensures ValidRow(a) && ValidRow(b) ==> (EntryKey(a) == EntryKey(b) <==> SameSpelling(a, b))
  {
    KeyIgnoresBlanks(a.ruby);
    KeyIgnoresBlanks(b.ruby);
    if ValidRow(a) && ValidRow(b) {
      KeyOfValidRuby(a.ruby, a.word);
      KeyOfValidRuby(b.ruby, b.word);
    }
  }

  /** Blanks around the fields, the composition of their kana, and hiragana or katakana in the ruby make no
      difference to the key. */
  lemma RespellingKeepsKey(e: UserDictEntry)
    ensures EntryKey(e.(ruby := TrimWs(e.ruby), word := TrimWs(e.word))) == EntryKey(e)
    ensures EntryKey(e.(ruby := ComposeKana(e.ruby), word := ComposeKana(e.word))) == EntryKey(e)
    ensures EntryKey(e.(ruby := HiraganaToKatakana(e.ruby))) == EntryKey(e)
    ensures EntryKey(e.(ruby := NormalizeReading(e.ruby))) == EntryKey(e)
  {
    KeyIgnoresBlanks(e.ruby);
    KeyIsBlindToSpelling(e.ruby);
    WordIsBlindToSpelling(e.word);
  }

  // ---- parts of speech ----

  predicate Contains(s: string, part: string) {
    part <= s || (s != [] && Contains(s[1..], part))
  }

  /** `str::replace(part, "")`: every non-overlapping occurrence, from the left. */
  function Without(s: string, part: string): string
    requires part != []
  {
    if |s| < |part| then s
    else if s[..|part|] == part then Without(s[|part|..], part)
    else [s[0]] + Without(s[1..], part)
  }

  function CanonicalPos(pos: Option<string>): string {
    if pos.None? || pos.value == "" then "名詞"
    else
      var p := pos.value;
      if Contains(p, "人名") then
        if Contains(p, "姓") then "姓"
        else if Contains(Without(p, "人名"), "名") then "名"
        else "人名"
      else if p == "姓" then "姓"
      else if p == "名" then "名"
      else if Contains(p, "組織") then "組織"
      else if Contains(p, "地名") || Contains(p, "駅") then "地名"
      else if Contains(p, "固有") then "固有名詞"
      else if Contains(p, "数") then "数"
      else "名詞"
  }

  /** The canonical names of the parts of speech. */
  const CANONICAL := ["名詞", "姓", "名", "人名", "組織", "地名", "固有名詞", "数"]

  lemma NotContained(s: string, c: char, part: string)
    requires part != [] && part[0] == c && c !in s
    ensures !Contains(s, part)
  {
    if s != [] {
      NotContained(s[1..], c, part);
    }
  }

  lemma Misses(p: string)
    ensures '人' !in p ==> !Contains(p, "人名")
    ensures '組' !in p ==> !Contains(p, "組織")
    ensures '地' !in p ==> !Contains(p, "地名")
    ensures '駅' !in p ==> !Contains(p, "駅")
    ensures '固' !in p ==> !Contains(p, "固有")
    ensures '数' !in p ==> !Contains(p, "数")
  {
    if '人' !in p { NotContained(p, '人', "人名"); }
    if '組' !in p { NotContained(p, '組', "組織"); }
    if '地' !in p { NotContained(p, '地', "地名"); }
    if '駅' !in p { NotContained(p, '駅', "駅"); }
    if '固' !in p { NotContained(p, '固', "固有"); }
    if '数' !in p { NotContained(p, '数', "数"); }
  }

  lemma CanonicalNamesAreFixed(p: string)
    requires p in CANONICAL
    ensures CanonicalPos(Some(p)) == p
  {
    Misses(p);
    if p == "名詞" {
    } else if p == "人名" {
      NotContained(p, '姓', "姓");
      assert Without(p, "人名") == "";
    }
  }

  /** Canonical names are stable, so exporting twice gives the same column. */
  lemma CanonicalPosIsStable(pos: Option<string>)
    ensures CanonicalPos(pos) in CANONICAL
    ensures CanonicalPos(Some(CanonicalPos(pos))) == CanonicalPos(pos)
  {
    CanonicalNamesAreFixed(CanonicalPos(pos));
  }

  /** Somewhere in the text. */
  ghost predicate Occurs(part: string, s: string) {
    exists i :: 0 <= i <= |s| && part <= s[i..]
  }

  lemma {:induction false} ContainsExactly(s: string, part: string)
    ensures Contains(s, part) <==> Occurs(part, s)
  {
    assert s[0..] == s;
    if part <= s {
    } else if s != [] {
      ContainsExactly(s[1..], part);
      if Contains(s, part) {
        var i :| 0 <= i <= |s[1..]| && part <= s[1..][i..];
        assert s[1..][i..] == s[i + 1..];
      }
      if Occurs(part, s) {
        var i :| 0 <= i <= |s| && part <= s[i..];
        assert i != 0 && s[1..][i - 1..] == s[i..];
      }
    }
  }

  /** The character for a given name stands somewhere outside the word for a person's name. */
  predicate NamesGiven(s: string) {
    exists i :: 0 <= i < |s| && s[i] == '名' && (i == 0 || s[i - 1] != '人')
  }

  lemma {:induction false} WithoutPersonName(s: string)
    ensures '名' in Without(s, "人名") <==> NamesGiven(s)
    decreases |s|
  {
    if |s| >= 2 && s[..2] == "人名" {
      WithoutPersonName(s[2..]);
      assert s[1] == '名';
      if NamesGiven(s) {
        var i :| 0 <= i < |s| && s[i] == '名' && (i == 0 || s[i - 1] != '人');
        assert i >= 2 && s[2..][i - 2] == '名';
      }
      if NamesGiven(s[2..]) {
        var i :| 0 <= i < |s[2..]| && s[2..][i] == '名' && (i == 0 || s[2..][i - 1] != '人');
        assert s[i + 2] == '名' && s[i + 1] != '人';
      }
    } else if |s| >= 2 {
      WithoutPersonName(s[1..]);
      NamesGivenCons(s);
    }
  }

  lemma NamesGivenCons(s: string)
    requires |s| >= 2 && s[..2] != "人名"
    ensures NamesGiven(s) <==> s[0] == '名' || NamesGiven(s[1..])
  {
    assert s[..2] == [s[0], s[1]];
    if NamesGiven(s) {
      var i :| 0 <= i < |s| && s[i] == '名' && (i == 0 || s[i - 1] != '人');
      if i > 0 {
        assert s[1..][i - 1] == '名';
      }
    }
    if NamesGiven(s[1..]) {
      var i :| 0 <= i < |s[1..]| && s[1..][i] == '名' && (i == 0 || s[1..][i - 1] != '人');
      assert s[i + 1] == '名';
      assert i == 0 ==> s[0] != '人';
    }
  }

  lemma {:induction false} ContainsOne(s: string, c: char)
    ensures Contains(s, [c]) <==> c in s
  {
    if s != [] {
      ContainsOne(s[1..], c);
      assert s == [s[0]] + s[1..];
    }
  }

  /** What a part of speech is called depends on what occurs in it, a person's name before an organisation, a place,
      a proper noun and a number. */
  lemma PosExactly(p: string)
    ensures var name := CanonicalPos(Some(p));
            var (person, organisation) := (Occurs("人名", p), Occurs("組織", p));
            var (place, proper) := (Occurs("地名", p) || '駅' in p, Occurs("固有", p));
            && (name == "姓" <==> p == "姓" || (person && '姓' in p))
            && (name == "名" <==> p == "名" || (person && '姓' !in p && NamesGiven(p)))
            && (name == "人名" <==> person && '姓' !in p && !NamesGiven(p))
            && (name == "組織" <==> !person && organisation)
            && (name == "地名" <==> !person && !organisation && place)
            && (name == "固有名詞" <==> !person && !organisation && !place && proper)
            && (name == "数" <==> !person && !organisation && !place && !proper && '数' in p)
  {
    ContainsExactly(p, "人名");
    ContainsExactly(p, "組織");
    ContainsExactly(p, "地名");
    ContainsExactly(p, "固有");
    ContainsOne(p, '姓');
    ContainsOne(Without(p, "人名"), '名');
    ContainsOne(p, '駅');
    ContainsOne(p, '数');
    WithoutPersonName(p);
    Misses(p);
  }

  lemma CanonicalNamesArePrintable(p: string)
    requires p in CANONICAL
    ensures p != "" && !HasControlChar(p)
  {
  }

  // ---- deduplication and import ----

  predicate HasReplacement(e: UserDictEntry) {
    '\U{FFFD}' in e.ruby || '\U{FFFD}' in e.word
  }

  method DedupEntries(entries: seq<UserDictEntry>) returns (out: seq<UserDictEntry>, deduped: nat)
    ensures out == FirstOccurrences(EntryKey, entries)
    ensures |out| + deduped == |entries|
  {
    out, deduped := Dedup(EntryKey, entries);
  }

  method MergeImported(existing: seq<UserDictEntry>, rows: seq<UserDictEntry>, hadReplacement: bool)
    returns (merged: seq<UserDictEntry>, report: MergeReport)
    ensures merged == existing + NewRows(EntryKey, ValidRow, existing, rows)
    ensures report.added == |NewRows(EntryKey, ValidRow, existing, rows)|
    ensures report.skippedInvalid == InvalidRows(ValidRow, rows)
    ensures report.added + report.skippedDup + report.skippedInvalid == |rows|
    ensures report.encodingHint <==>
            hadReplacement || exists i :: 0 <= i < |rows| && !ValidRow(rows[i])
                                          && ('\U{FFFD}' in rows[i].ruby || '\U{FFFD}' in rows[i].word)
  {
    merged, report := Merge(EntryKey, ValidRow, HasReplacement, existing, rows, hadReplacement);
  }
}
