/** The chord language of the configurable keymap: key names, parsing and printing. */
module Keymap {
  import opened Prelude
  import opened Decimal
  import opened Encoding

  datatype KeyChord = KeyChord(vk: u32, ctrl: bool, shift: bool, alt: bool)

  /** `str::parse::<u32>`: digits with an optional plus sign, within 32 bits. */
  function ParseU32(s: string): Option<u32> {
    match DigitsValue(if s != [] && s[0] == '+' then s[1..] else s)
    case Some(n) => if n <= U32_MAX then Some(n) else None
    case None => None
  }

  // ---- key names ----

  function NamedKey(name: string): Option<u32> {
    if name == "Backspace" then Some(0x08)
    else if name == "Tab" then Some(0x09)
    else if name == "Space" then Some(0x20)
    else if name == "Convert" then Some(0x1C)
    else if name == "NonConvert" then Some(0x1D)
    else if name == "Semicolon" then Some(0xBA)
    else if name == "Equal" then Some(0xBB)
    else if name == "Comma" then Some(0xBC)
    else if name == "Minus" then Some(0xBD)
    else if name == "Period" then Some(0xBE)
    else if name == "Slash" then Some(0xBF)
    else if name == "Backquote" then Some(0xC0)
    else if name == "HankakuZenkaku" then Some(0xF3)
    else if name == "BracketLeft" then Some(0xDB)
    else if name == "Backslash" then Some(0xDC)
    else if name == "BracketRight" then Some(0xDD)
    else if name == "Quote" then Some(0xDE)
    else None
  }

  /** `key_name_to_vk` */
  function KeyNameToVk(name: string): Option<u32> {
    if NamedKey(name).Some? then NamedKey(name)
    else if "Key" <= name then
      if |name| == 4 && 'A' <= name[3] <= 'Z' then Some(name[3] as int) else None
    else if "Digit" <= name then
      if |name| == 6 && IsDigit(name[5]) then Some(name[5] as int) else None
    else if "F" <= name then
      match ParseU32(name[1..])
      case Some(i) => if 1 <= i <= 24 && name[1..] == ToString(i) then Some(0x70 + i - 1) else None
      case None => None
    else None
  }

  /** `vk_to_key_name` */
  function VkToKeyName(vk: u32): Option<string> {
    if vk == 0x08 then Some("Backspace")
    else if vk == 0x09 then Some("Tab")
    else if vk == 0x1C then Some("Convert")
    else if vk == 0x1D then Some("NonConvert")
    else if vk == 0x20 then Some("Space")
    else if 0x30 <= vk <= 0x39 then Some("Digit" + [DigitChar(vk - 0x30)])
    else if 0x41 <= vk <= 0x5A then Some("Key" + [vk as char])
    else if 0x70 <= vk <= 0x87 then Some("F" + ToString(vk - 0x70 + 1))
    else if vk == 0xBA then Some("Semicolon")
    else if vk == 0xBB then Some("Equal")
    else if vk == 0xBC then Some("Comma")
    else if vk == 0xBD then Some("Minus")
    else if vk == 0xBE then Some("Period")
    else if vk == 0xBF then Some("Slash")
    else if vk == 0xC0 then Some("Backquote")
    else if vk == 0xDB then Some("BracketLeft")
    else if vk == 0xDC then Some("Backslash")
    else if vk == 0xDD then Some("BracketRight")
    else if vk == 0xDE then Some("Quote")
    else if vk == 0xF3 then Some("HankakuZenkaku")
    else None
  }

  /** The two tables are inverse to each other. */
  lemma KeyNamesAreVks(name: string, vk: u32)
    ensures KeyNameToVk(name) == Some(vk) <==> VkToKeyName(vk) == Some(name)
  {
    if KeyNameToVk(name) == Some(vk) {
      NameOfVk(name);
    }
    if VkToKeyName(vk) == Some(name) {
      VkOfName(vk);
    }
  }

  lemma NotNamed(name: string)
    requires name != "" && (name[0] == 'K' || name[0] == 'D' || name[0] == 'F')
    ensures NamedKey(name) == None
  {
  }

  lemma NamedKeyIsPrinted(name: string)
    requires NamedKey(name).Some?
    ensures VkToKeyName(NamedKey(name).value) == Some(name)
  {
  }

  lemma NameOfVk(name: string)
    requires KeyNameToVk(name).Some?
    ensures VkToKeyName(KeyNameToVk(name).value) == Some(name)
  {
    if NamedKey(name).Some? {
      NamedKeyIsPrinted(name);
    } else if "Key" <= name {
      assert name == "Key" + [name[3]];
    } else if "Digit" <= name {
      assert name == "Digit" + [name[5]];
    } else {
      assert name == "F" + name[1..];
    }
  }

  lemma DigitKey(d: nat)
    requires d < 10
    ensures KeyNameToVk("Digit" + [DigitChar(d)]) == Some(0x30 + d)
  {
    NotNamed("Digit" + [DigitChar(d)]);
  }

  lemma LetterKey(vk: u32)
    requires 0x41 <= vk <= 0x5A
    ensures KeyNameToVk("Key" + [vk as char]) == Some(vk)
  {
    NotNamed("Key" + [vk as char]);
  }

  lemma FunctionKey(i: nat)
    requires 1 <= i <= 24
    ensures KeyNameToVk("F" + ToString(i)) == Some(0x70 + i - 1)
  {
    var name := "F" + ToString(i);
    NotNamed(name);
    DigitsValueOfString(i);
    assert name[1..] == ToString(i);
    assert IsDigit(name[1]);
  }

  lemma LowNamedKey(vk: u32)
    requires vk <= 0x20 && VkToKeyName(vk).Some?
    ensures KeyNameToVk(VkToKeyName(vk).value) == Some(vk)
  {
  }

  lemma HighNamedKey(vk: u32)
    requires vk >= 0xBA && VkToKeyName(vk).Some?
    ensures KeyNameToVk(VkToKeyName(vk).value) == Some(vk)
  {
  }

  lemma VkOfName(vk: u32)
    requires VkToKeyName(vk).Some?
    ensures KeyNameToVk(VkToKeyName(vk).value) == Some(vk)
  {
    if vk <= 0x20 {
      LowNamedKey(vk);
    } else if vk <= 0x39 {
      DigitKey(vk - 0x30);
    } else if vk <= 0x5A {
      LetterKey(vk);
    } else if vk <= 0x87 {
      FunctionKey(vk - 0x70 + 1);
    } else {
      HighNamedKey(vk);
    }
  }

  lemma NameHasNoPlus(vk: u32)
    requires VkToKeyName(vk).Some?
    ensures '+' !in VkToKeyName(vk).value
  {
  }

  lemma ModifiersAreNoKeys(part: string)
    requires IsModifier(part)
    ensures KeyNameToVk(part) == None
  {
  }

  // ---- parsing ----

  datatype ChordError = DuplicateModifier | SeveralKeys | NoKey | UnknownKey(name: string)

  predicate IsModifier(part: string) {
    part == "Ctrl" || part == "Shift" || part == "Alt"
  }

  /** The parts of a chord text read so far. */
  datatype Parts = Parts(ctrl: bool, shift: bool, alt: bool, key: Option<string>) {
    /** How often a part has been read. */
    function Count(part: string): nat {
      if part == "Ctrl" then (if ctrl then 1 else 0)
      else if part == "Shift" then (if shift then 1 else 0)
      else if part == "Alt" then (if alt then 1 else 0)
      else if key == Some(part) then 1 else 0
    }

    predicate Valid() {
      key.Some? ==> !IsModifier(key.value)
    }
  }

  function ReadPart(p: Parts, part: string): Result<Parts, ChordError> {
    if part == "Ctrl" && !p.ctrl then Ok(p.(ctrl := true))
    else if part == "Shift" && !p.shift then Ok(p.(shift := true))
    else if part == "Alt" && !p.alt then Ok(p.(alt := true))
    else if IsModifier(part) then Err(DuplicateModifier)
    else if p.key.Some? then Err(SeveralKeys)
    else Ok(p.(key := Some(part)))
  }

  function ReadParts(p: Parts, parts: seq<string>): Result<Parts, ChordError>
    decreases |parts|
  {
    if parts == [] then Ok(p)
    else
      match ReadPart(p, parts[0])
      case Ok(next) => ReadParts(next, parts[1..])
      case Err(error) => Err(error)
  }

  function ToChord(p: Parts): Result<KeyChord, ChordError> {
    if p.key.None? then Err(NoKey)
    else
      match KeyNameToVk(p.key.value)
      case Some(vk) => Ok(KeyChord(vk, p.ctrl, p.shift, p.alt))
      case None => Err(UnknownKey(p.key.value))
  }

  /** `parse_chord` as a function of the text. */
  function ParseSpec(s: string): Result<KeyChord, ChordError> {
    match ReadParts(Parts(false, false, false, None), SplitOn(s, '+'))
    case Ok(p) => ToChord(p)
    case Err(error) => Err(error)
  }

  method ParseChord(s: string) returns (r: Result<KeyChord, ChordError>)
    ensures r == ParseSpec(s)
  {
    var parts := SplitOn(s, '+');
    var ctrl, shift, alt := false, false, false;
    var key: Option<string> := None;
    for i := 0 to |parts|
      invariant ReadParts(Parts(ctrl, shift, alt, key), parts[i..]) ==
          ReadParts(Parts(false, false, false, None), parts)
    {
      var part := parts[i];
      assert parts[i..][0] == part && parts[i..][1..] == parts[i + 1..];
      if part == "Ctrl" && !ctrl {
        ctrl := true;
      } else if part == "Shift" && !shift {
        shift := true;
      } else if part == "Alt" && !alt {
        alt := true;
      } else if IsModifier(part) {
        return Err(DuplicateModifier);
      } else if key.Some? {
        return Err(SeveralKeys);
      } else {
        key := Some(part);
      }
    }
    r := ToChord(Parts(ctrl, shift, alt, key));
  }

  // ---- printing ----

  function Prefixed(present: bool, modifier: string, rest: string): string {
    if present then modifier + "+" + rest else rest
  }

  /** `format_chord` as a function: modifiers in a fixed order, and `?` for a key without a name. */
  function FormatSpec(c: KeyChord): string {
    Prefixed(c.ctrl, "Ctrl", Prefixed(c.shift, "Shift", Prefixed(c.alt, "Alt",
      if VkToKeyName(c.vk).Some? then VkToKeyName(c.vk).value else "?")))
  }

  lemma PushPrefixed(s: string, present: bool, modifier: string, rest: string)
    ensures s + Prefixed(present, modifier, rest) == (if present then s + (modifier + "+") else s) + rest
  {
    if present {
      assert s + (modifier + "+" + rest) == s + (modifier + "+") + rest;
    }
  }

  method FormatChord(c: KeyChord) returns (s: string)
    ensures s == FormatSpec(c)
  {
    ghost var name := if VkToKeyName(c.vk).Some? then VkToKeyName(c.vk).value else "?";
    ghost var afterShift := Prefixed(c.alt, "Alt", name);
    ghost var afterCtrl := Prefixed(c.shift, "Shift", afterShift);
    s := "";
    PushPrefixed(s, c.ctrl, "Ctrl", afterCtrl);
    if c.ctrl {
      s := s + ("Ctrl" + "+");
    }
    PushPrefixed(s, c.shift, "Shift", afterShift);
    if c.shift {
      s := s + ("Shift" + "+");
    }
    PushPrefixed(s, c.alt, "Alt", name);
    if c.alt {
      s := s + ("Alt" + "+");
    }
    s := s + if VkToKeyName(c.vk).Some? then VkToKeyName(c.vk).value else "?";
  }

  // ---- what is accepted ----

  /** `q` has been read where `p` and then the parts, in whatever order, have been read. */
  ghost predicate Completes(p: Parts, parts: seq<string>, q: Parts) {
    forall part: string :: p.Count(part) + multiset(parts)[part] == q.Count(part)
  }

  lemma CountsDetermine(p: Parts, q: Parts)
    requires p.Valid() && q.Valid() && forall part: string :: p.Count(part) == q.Count(part)
    ensures p == q
  {
    assert p.Count("Ctrl") == q.Count("Ctrl");
    assert p.Count("Shift") == q.Count("Shift");
    assert p.Count("Alt") == q.Count("Alt");
    var name := if p.key.Some? then p.key.value else if q.key.Some? then q.key.value else "";
    assert p.Count(name) == q.Count(name);
  }

  lemma ReadPartCounts(p: Parts, part: string, other: string)
    requires p.Valid() && ReadPart(p, part).Ok?
    ensures ReadPart(p, part).value.Valid()
    ensures ReadPart(p, part).value.Count(other) == p.Count(other) + if other == part then 1 else 0
  {
  }

  /** A refused part stays in the way: each modifier counts once and so does the one other part. */
  lemma RefusalIsFinal(p: Parts, part: string, q: Parts)
    requires p.Valid() && q.Valid() && ReadPart(p, part).Err?
    ensures p.Count(part) + 1 > q.Count(part)
            || (p.key.Some? && p.key.value != part && p.Count(p.key.value) > q.Count(p.key.value))
  {
  }

  lemma MultisetCons(parts: seq<string>, part: string)
    requires parts != []
    ensures multiset(parts)[part] == (if part == parts[0] then 1 else 0) + multiset(parts[1..])[part]
  {
    assert parts == [parts[0]] + parts[1..];
  }

  /** Reading succeeds with `q` exactly when `q` completes `p` by the parts. */
  lemma {:induction false} ReadPartsExactly(p: Parts, parts: seq<string>, q: Parts)
    requires p.Valid() && q.Valid()
    ensures ReadParts(p, parts) == Ok(q) <==> Completes(p, parts, q)
    decreases |parts|
  {
    if parts == [] {
      if Completes(p, parts, q) {
        CountsDetermine(p, q);
      }
    } else {
      forall part: string
        ensures multiset(parts)[part] == (if part == parts[0] then 1 else 0) + multiset(parts[1..])[part]
      {
        MultisetCons(parts, part);
      }
      var r := ReadPart(p, parts[0]);
      if r.Ok? {
        forall part: string ensures r.value.Count(part) == p.Count(part) + if part == parts[0] then 1 else 0 {
          ReadPartCounts(p, parts[0], part);
        }
        ReadPartCounts(p, parts[0], parts[0]);
        ReadPartsExactly(r.value, parts[1..], q);
        assert Completes(p, parts, q) <==> Completes(r.value, parts[1..], q);
      } else {
        RefusalIsFinal(p, parts[0], q);
      }
    }
  }

  /** The parts of a chord with a named key. */
  function PartsOf(c: KeyChord): Parts {
    Parts(c.ctrl, c.shift, c.alt, VkToKeyName(c.vk))
  }

  const NO_PARTS := Parts(false, false, false, None)

  /** The '+'-separated parts of the text are, in any order, the chord's modifiers and its key's name. */
  ghost predicate Spells(s: string, c: KeyChord) {
    VkToKeyName(c.vk).Some? && Completes(NO_PARTS, SplitOn(s, '+'), PartsOf(c))
  }

  /** Exactly the texts that spell a chord are accepted as that chord. */
  lemma ParseExactly(s: string, c: KeyChord)
    ensures ParseSpec(s) == Ok(c) <==> Spells(s, c)
  {
    var parts := SplitOn(s, '+');
    var read := ReadParts(NO_PARTS, parts);
    if VkToKeyName(c.vk).Some? {
      var name := VkToKeyName(c.vk).value;
      KeyNamesAreVks(name, c.vk);
      if IsModifier(name) {
        ModifiersAreNoKeys(name);
      }
      ReadPartsExactly(NO_PARTS, parts, PartsOf(c));
    }
    if read.Ok? && read.value.key.Some? {
      KeyNamesAreVks(read.value.key.value, c.vk);
    }
  }

  /** The parts of the text are, in any order, those of `q`. */
  ghost predicate ReadsAs(s: string, q: Parts) {
    q.Valid() && Completes(NO_PARTS, SplitOn(s, '+'), q)
  }

  /** A text without a key, and one with an unknown key, are told from those with a part too many. */
  lemma ErrorsExactly(s: string)
    ensures ParseSpec(s) == Err(NoKey) <==> exists q :: ReadsAs(s, q) && q.key.None?
    ensures forall name :: ParseSpec(s) == Err(UnknownKey(name)) <==>
                           KeyNameToVk(name).None? && exists q :: ReadsAs(s, q) && q.key == Some(name)
    ensures ParseSpec(s) == Err(DuplicateModifier) || ParseSpec(s) == Err(SeveralKeys) <==> !exists q :: ReadsAs(s, q)
  {
    var parts := SplitOn(s, '+');
    forall q: Parts | q.Valid() ensures ReadParts(NO_PARTS, parts) == Ok(q) <==> ReadsAs(s, q) {
      ReadPartsExactly(NO_PARTS, parts, q);
    }
    ReadIsValid(NO_PARTS, parts);
  }

  lemma {:induction false} ReadPartsGoOn(p: Parts, before: seq<string>, rest: seq<string>)
    requires ReadParts(p, before).Ok?
    ensures ReadParts(p, before + rest) == ReadParts(ReadParts(p, before).value, rest)
    decreases |before|
  {
    if before == [] {
      assert before + rest == rest;
    } else {
      assert (before + rest)[1..] == before[1..] + rest;
      ReadPartsGoOn(ReadPart(p, before[0]).value, before[1..], rest);
    }
  }

  /** The first part too many decides the error: a repeated modifier, or a second key. */
  lemma {:induction false} FirstExcess(before: seq<string>, part: string, rest: seq<string>)
    requires ReadParts(NO_PARTS, before).Ok?
    ensures IsModifier(part) && part in before ==>
              ReadParts(NO_PARTS, before + ([part] + rest)) == Err(DuplicateModifier)
    ensures !IsModifier(part) && (exists other <- before :: !IsModifier(other)) ==>
              ReadParts(NO_PARTS, before + ([part] + rest)) == Err(SeveralKeys)
  {
    var q := ReadParts(NO_PARTS, before).value;
    ReadIsValid(NO_PARTS, before);
    ReadPartsExactly(NO_PARTS, before, q);
    ReadPartsGoOn(NO_PARTS, before, [part] + rest);
    if part in before {
      assert NO_PARTS.Count(part) + multiset(before)[part] == q.Count(part);
    }
    if other :| other in before && !IsModifier(other) {
      assert NO_PARTS.Count(other) + multiset(before)[other] == q.Count(other);
    }
  }

  lemma {:induction false} ReadIsValid(p: Parts, parts: seq<string>)
    requires p.Valid()
    ensures var r := ReadParts(p, parts);
            (r.Ok? ==> r.value.Valid()) && (r.Err? ==> r.error == DuplicateModifier || r.error == SeveralKeys)
    decreases |parts|
  {
    if parts != [] && ReadPart(p, parts[0]).Ok? {
      ReadPartCounts(p, parts[0], parts[0]);
      ReadIsValid(ReadPart(p, parts[0]).value, parts[1..]);
    }
  }

  /** Two accepted texts mean the same chord exactly when their parts are permutations of each other. */
  lemma SameChordIffPermuted(s: string, t: string)
    requires ParseSpec(s).Ok? && ParseSpec(t).Ok?
    ensures ParseSpec(s) == ParseSpec(t) <==> multiset(SplitOn(s, '+')) == multiset(SplitOn(t, '+'))
  {
    var c := ParseSpec(s).value;
    ParseExactly(s, c);
    ParseExactly(t, c);
    if ParseSpec(t) == Ok(c) {
      forall part: string ensures multiset(SplitOn(s, '+'))[part] == multiset(SplitOn(t, '+'))[part] {
        assert NO_PARTS.Count(part) + multiset(SplitOn(s, '+'))[part] == PartsOf(c).Count(part);
        assert NO_PARTS.Count(part) + multiset(SplitOn(t, '+'))[part] == PartsOf(c).Count(part);
      }
    } else if multiset(SplitOn(s, '+')) == multiset(SplitOn(t, '+')) {
      assert Completes(NO_PARTS, SplitOn(t, '+'), PartsOf(c));
    }
  }

  /** Reading a printed modifier, or none, and then the rest. */
  lemma ReadPrefixed(p: Parts, present: bool, modifier: string, rest: string)
    requires IsModifier(modifier) && p.Count(modifier) == 0
    ensures ReadParts(p, SplitOn(Prefixed(present, modifier, rest), '+')) ==
              if present then ReadParts(ReadPart(p, modifier).value, SplitOn(rest, '+'))
              else ReadParts(p, SplitOn(rest, '+'))
  {
    if present {
      SplitAtFirst(modifier, '+', rest);
      assert modifier + ['+'] + rest == modifier + "+" + rest;
      assert ([modifier] + SplitOn(rest, '+'))[1..] == SplitOn(rest, '+');
    }
  }

  lemma ReadFormatted(c: KeyChord, name: string)
    requires VkToKeyName(c.vk) == Some(name) && !IsModifier(name)
    ensures ReadParts(NO_PARTS, SplitOn(FormatSpec(c), '+')) == Ok(PartsOf(c))
  {
    var afterShift := Prefixed(c.alt, "Alt", name);
    var afterCtrl := Prefixed(c.shift, "Shift", afterShift);
    ReadPrefixed(NO_PARTS, c.ctrl, "Ctrl", afterCtrl);
    var p := NO_PARTS.(ctrl := c.ctrl);
    ReadPrefixed(p, c.shift, "Shift", afterShift);
    var q := p.(shift := c.shift);
    ReadPrefixed(q, c.alt, "Alt", name);
    NameHasNoPlus(c.vk);
    SplitWithout(name, '+');
    assert ReadPart(q.(alt := c.alt), name) == Ok(PartsOf(c));
  }

  /** Printing is read back exactly for chords whose key has a name; the parser accepts no others, so
      whatever it accepts survives printing and parsing again. */
  lemma FormatThenParse(c: KeyChord)
    ensures ParseSpec(FormatSpec(c)) == Ok(c) <==> VkToKeyName(c.vk).Some?
    ensures forall s: string :: ParseSpec(s) == Ok(c) ==> ParseSpec(FormatSpec(c)) == Ok(c)
  {
    ParseExactly(FormatSpec(c), c);
    if VkToKeyName(c.vk).Some? {
      var name := VkToKeyName(c.vk).value;
      KeyNamesAreVks(name, c.vk);
      if IsModifier(name) {
        ModifiersAreNoKeys(name);
      }
      ReadFormatted(c, name);
    }
    forall s: string | ParseSpec(s) == Ok(c) ensures VkToKeyName(c.vk).Some? {
      ParseExactly(s, c);
    }
  }
}
