/** Conflict detection between key bindings, and the dispatch that it protects. */
module KeyConflicts {
  import opened Prelude
  import opened Decimal
  import opened Keymap

  datatype Func =
    | ModeToggle | Reconvert | Feedback | Ephemeral | CommitUndo | TypoCorrect | LlmConvert
    | ToHiragana | ToKatakana | ToHankakuKana | ToZenkakuEisu | ToHankakuEisu | NotationRotate | Convert

  const ALL_FUNCS := [ModeToggle, Reconvert, Feedback, Ephemeral, CommitUndo, TypoCorrect, LlmConvert,
                      ToHiragana, ToKatakana, ToHankakuKana, ToZenkakuEisu, ToHankakuEisu, NotationRotate, Convert]

  datatype Group = Global | Idle | Composing

  function GroupOf(f: Func): Group {
    if f == ModeToggle || f == Reconvert || f == Feedback then Global
    else if f == Ephemeral || f == CommitUndo then Idle
    else Composing
  }

  /** `bare_special`: a key that the system may refuse to reserve. */
  predicate BareSpecial(c: KeyChord) {
    !c.ctrl && !c.shift && !c.alt && (c.vk == 0x1C || c.vk == 0x1D || c.vk == 0xF3)
  }

  function ConflictGroup(f: Func, c: KeyChord): Group {
    if f == Reconvert && BareSpecial(c) then Idle else GroupOf(f)
  }

  function Bare(vk: u32): KeyChord {
    KeyChord(vk, false, false, false)
  }

  function LegacyEphemeralChord(name: string): KeyChord {
    Bare(if name == "f9" then 0x78 else if name == "f10" then 0x79 else 0x77)
  }

  function DefaultChords(f: Func, legacy: string): (chords: seq<KeyChord>)
    ensures chords != [] && Distinct(chords)
  {
    match f
    case ModeToggle => [Bare(0x1D), Bare(0xBA).(alt := true), Bare(0xF3)]
    case Reconvert => [Bare(0x1C), Bare(0xBF).(alt := true)]
    case Feedback => [Bare(0x1C).(ctrl := true), Bare(0xBF).(ctrl := true)]
    case Ephemeral => [LegacyEphemeralChord(legacy)]
    case CommitUndo => [Bare(0x08).(ctrl := true)]
    case TypoCorrect => [Bare(0x09)]
    case LlmConvert => [Bare(0x09).(shift := true)]
    case ToHiragana => [Bare(0x75)]
    case ToKatakana => [Bare(0x76)]
    case ToHankakuKana => [Bare(0x77)]
    case ToZenkakuEisu => [Bare(0x78)]
    case ToHankakuEisu => [Bare(0x79)]
    case NotationRotate => [Bare(0x1D)]
    case Convert => [Bare(0x20), Bare(0x1C)]
  }

  /** The defaults by name; the old setting of the ephemeral trigger counts as long as it names F9 or F10. */
  function DefaultNames(f: Func, legacy: string): seq<string> {
    match f
    case ModeToggle => ["NonConvert", "Alt+Semicolon", "HankakuZenkaku"]
    case Reconvert => ["Convert", "Alt+Slash"]
    case Feedback => ["Ctrl+Convert", "Ctrl+Slash"]
    case Ephemeral => [if legacy == "f9" then "F9" else if legacy == "f10" then "F10" else "F8"]
    case CommitUndo => ["Ctrl+Backspace"]
    case TypoCorrect => ["Tab"]
    case LlmConvert => ["Shift+Tab"]
    case ToHiragana => ["F6"]
    case ToKatakana => ["F7"]
    case ToHankakuKana => ["F8"]
    case ToZenkakuEisu => ["F9"]
    case ToHankakuEisu => ["F10"]
    case NotationRotate => ["NonConvert"]
    case Convert => ["Space", "Convert"]
  }

  lemma FunctionKeyNames()
    ensures FormatSpec(Bare(0x75)) == "F6" && FormatSpec(Bare(0x76)) == "F7" && FormatSpec(Bare(0x77)) == "F8"
    ensures FormatSpec(Bare(0x78)) == "F9" && FormatSpec(Bare(0x79)) == "F10"
  {
    assert ToString(6) == "6" && ToString(7) == "7" && ToString(8) == "8" && ToString(9) == "9";
    assert ToString(1) == "1" && ToString(10) == "10";
  }

  lemma ModifiedKeyNames()
    ensures FormatSpec(Bare(0xBA).(alt := true)) == "Alt+Semicolon"
    ensures FormatSpec(Bare(0xBF).(alt := true)) == "Alt+Slash"
    ensures FormatSpec(Bare(0x1C).(ctrl := true)) == "Ctrl+Convert"
    ensures FormatSpec(Bare(0xBF).(ctrl := true)) == "Ctrl+Slash"
    ensures FormatSpec(Bare(0x08).(ctrl := true)) == "Ctrl+Backspace"
    ensures FormatSpec(Bare(0x09).(shift := true)) == "Shift+Tab"
  {
    assert "Alt" + "+" + "Semicolon" == "Alt+Semicolon" && "Alt" + "+" + "Slash" == "Alt+Slash";
    assert "Ctrl" + "+" + "Convert" == "Ctrl+Convert" && "Ctrl" + "+" + "Slash" == "Ctrl+Slash";
    assert "Ctrl" + "+" + "Backspace" == "Ctrl+Backspace" && "Shift" + "+" + "Tab" == "Shift+Tab";
  }

  lemma DefaultsByName(f: Func, legacy: string)
    ensures Map(FormatSpec, DefaultChords(f, legacy)) == DefaultNames(f, legacy)
  {
    FunctionKeyNames();
    ModifiedKeyNames();
  }

  datatype Binding = Default | Disabled | Chord(chord: KeyChord)

  /** `resolve_binding`: what cannot be parsed counts as the default. */
  function ResolveBinding(v: Option<string>): Binding {
    if v.None? then Default
    else if v.value == "none" then Disabled
    else
      match ParseSpec(v.value)
      case Ok(c) => Chord(c)
      case Err(_) => Default
  }

  /** Which of the optional features are on. */
  datatype Features = Features(ephemeral: bool, feedback: bool, typo: bool, llm: bool)

  predicate IsEnabled(f: Func, features: Features) {
    match f
    case Ephemeral => features.ephemeral
    case Feedback => features.feedback
    case TypoCorrect => features.typo
    case LlmConvert => features.llm
    case _ => true
  }

  datatype Entry = Entry(func: Func, value: Option<string>)

  datatype Bound = Bound(func: Func, chord: KeyChord)

  /** The chords that a setting gives a function. */
  function ChordsOf(f: Func, v: Option<string>, legacy: string): (chords: seq<KeyChord>)
    ensures Distinct(chords)
  {
    match ResolveBinding(v)
    case Disabled => []
    case Chord(c) => [c]
    case Default => DefaultChords(f, legacy)
  }

  function Bind(f: Func, chords: seq<KeyChord>): (bounds: seq<Bound>)
    ensures |bounds| == |chords| && forall i | 0 <= i < |chords| :: bounds[i] == Bound(f, chords[i])
  {
    if chords == [] then [] else [Bound(f, chords[0])] + Bind(f, chords[1..])
  }

  function EntryBounds(e: Entry, legacy: string, features: Features): seq<Bound> {
    if IsEnabled(e.func, features) then Bind(e.func, ChordsOf(e.func, e.value, legacy)) else []
  }

  /** All effective chords, in entry order. */
  function Effective(entries: seq<Entry>, legacy: string, features: Features): seq<Bound> {
    if entries == [] then [] else EntryBounds(entries[0], legacy, features) + Effective(entries[1..], legacy, features)
  }

  // ---- conflicts ----

  datatype Conflict = Conflict(a: Func, b: Func, chord: KeyChord)

  /** The test of `find_conflicts_in` on two effective chords. */
  predicate Clash(x: Bound, y: Bound) {
    var gx, gy := ConflictGroup(x.func, x.chord), ConflictGroup(y.func, y.chord);
    var crossGroupOk := gx != gy && gx != Global && gy != Global;
    var exempt := BareSpecial(x.chord)
                  && ((gx == Global && gy == Composing && x.func == ModeToggle)
                      || (gx == Composing && gy == Global && y.func == ModeToggle));
    x.chord == y.chord && !crossGroupOk && !exempt
  }

  function Against(x: Bound, rest: seq<Bound>): seq<Conflict> {
    if rest == [] then []
    else (if Clash(x, rest[0]) then [Conflict(x.func, rest[0].func, x.chord)] else []) + Against(x, rest[1..])
  }

  function Conflicts(bounds: seq<Bound>): seq<Conflict> {
    if bounds == [] then [] else Against(bounds[0], bounds[1..]) + Conflicts(bounds[1..])
  }

  lemma EffectiveStep(bounds: seq<Bound>, e: Entry, rest: seq<Entry>, legacy: string, features: Features)
    ensures bounds + Effective([e] + rest, legacy, features) ==
              (bounds + EntryBounds(e, legacy, features)) + Effective(rest, legacy, features)
  {
    assert ([e] + rest)[1..] == rest;
  }

  lemma AgainstStep(out: seq<Conflict>, x: Bound, y: Bound, rest: seq<Bound>)
    ensures out + Against(x, [y] + rest) ==
              (if Clash(x, y) then out + [Conflict(x.func, y.func, x.chord)] else out) + Against(x, rest)
  {
    var first := if Clash(x, y) then [Conflict(x.func, y.func, x.chord)] else [];
    assert ([y] + rest)[0] == y && ([y] + rest)[1..] == rest;
    Reassociate(out, first, Against(x, rest));
    if first == [] {
      assert out + first == out;
    }
  }

  lemma ConflictsStep(out: seq<Conflict>, x: Bound, rest: seq<Bound>)
    ensures out + Conflicts([x] + rest) == (out + Against(x, rest)) + Conflicts(rest)
  {
    assert ([x] + rest)[1..] == rest;
  }

  lemma BindStep(bounds: seq<Bound>, f: Func, c: KeyChord, rest: seq<KeyChord>)
    ensures bounds + Bind(f, [c] + rest) == (bounds + [Bound(f, c)]) + Bind(f, rest)
  {
    assert ([c] + rest)[1..] == rest;
  }

  method PushAll(before: seq<Bound>, f: Func, chords: seq<KeyChord>) returns (bounds: seq<Bound>)
    ensures bounds == before + Bind(f, chords)
  {
    bounds := before;
    for k := 0 to |chords|
      invariant bounds + Bind(f, chords[k..]) == before + Bind(f, chords)
    {
      BindStep(bounds, f, chords[k], chords[k + 1..]);
      assert [chords[k]] + chords[k + 1..] == chords[k..];
      bounds := bounds + [Bound(f, chords[k])];
    }
  }

  method PushEntry(before: seq<Bound>, e: Entry, legacy: string, features: Features) returns (bounds: seq<Bound>)
    ensures bounds == before + EntryBounds(e, legacy, features)
  {
    bounds := before;
    if IsEnabled(e.func, features) {
      match ResolveBinding(e.value)
      case Disabled =>
      case Chord(c) => bounds := bounds + [Bound(e.func, c)];
      case Default => bounds := PushAll(bounds, e.func, DefaultChords(e.func, legacy));
    }
  }

  method EffectiveChords(entries: seq<Entry>, legacy: string, features: Features) returns (bounds: seq<Bound>)
    ensures bounds == Effective(entries, legacy, features)
  {
    bounds := [];
    for i := 0 to |entries|
      invariant bounds + Effective(entries[i..], legacy, features) == Effective(entries, legacy, features)
    {
      EffectiveStep(bounds, entries[i], entries[i + 1..], legacy, features);
      assert [entries[i]] + entries[i + 1..] == entries[i..];
      bounds := PushEntry(bounds, entries[i], legacy, features);
    }
  }

  /** The inner loop: one chord against those after it. */
  method PushConflicts(before: seq<Conflict>, x: Bound, rest: seq<Bound>) returns (out: seq<Conflict>)
    ensures out == before + Against(x, rest)
  {
    out := before;
    for j := 0 to |rest|
      invariant out + Against(x, rest[j..]) == before + Against(x, rest)
    {
      AgainstStep(out, x, rest[j], rest[j + 1..]);
      assert [rest[j]] + rest[j + 1..] == rest[j..];
      if Clash(x, rest[j]) {
        out := out + [Conflict(x.func, rest[j].func, x.chord)];
      }
    }
  }

  /** The outer loop. */
  method FindConflicts(chords: seq<Bound>) returns (out: seq<Conflict>)
    ensures out == Conflicts(chords)
  {
    out := [];
    for i := 0 to |chords|
      invariant out + Conflicts(chords[i..]) == Conflicts(chords)
    {
      ConflictsStep(out, chords[i], chords[i + 1..]);
      assert [chords[i]] + chords[i + 1..] == chords[i..];
      out := PushConflicts(out, chords[i], chords[i + 1..]);
    }
  }

  /** `find_conflicts_in` */
  method FindConflictsIn(entries: seq<Entry>, legacy: string, features: Features) returns (out: seq<Conflict>)
    ensures out == Conflicts(Effective(entries, legacy, features))
  {
    var chords := EffectiveChords(entries, legacy, features);
    out := FindConflicts(chords);
  }

  // ---- what the list says ----

  lemma ClashIsSymmetric(x: Bound, y: Bound)
    ensures Clash(x, y) <==> Clash(y, x)
  {
  }

  lemma {:induction false} AgainstExactly(x: Bound, rest: seq<Bound>, k: Conflict)
    ensures k in Against(x, rest) <==>
        k.a == x.func && k.chord == x.chord && Bound(k.b, k.chord) in rest && Clash(x, Bound(k.b, k.chord))
  {
    if rest != [] {
      AgainstExactly(x, rest[1..], k);
      assert rest == [rest[0]] + rest[1..];
    }
  }

  /** A conflict is reported exactly when its two functions have the chord, in this order, and clash. */
  lemma {:induction false} ConflictsExactly(bounds: seq<Bound>, k: Conflict)
    ensures k in Conflicts(bounds) <==>
              exists i, j | 0 <= i < j < |bounds| ::
                bounds[i] == Bound(k.a, k.chord) && bounds[j] == Bound(k.b, k.chord) && Clash(bounds[i], bounds[j])
  {
    if bounds != [] {
      var x, rest := bounds[0], bounds[1..];
      AgainstExactly(x, rest, k);
      ConflictsExactly(rest, k);
      if k in Against(x, rest) {
        var j :| 0 <= j < |rest| && rest[j] == Bound(k.b, k.chord);
        assert bounds[j + 1] == rest[j];
      } else if k in Conflicts(rest) {
        var i, j :| 0 <= i < j < |rest| && rest[i] == Bound(k.a, k.chord)
                    && rest[j] == Bound(k.b, k.chord) && Clash(rest[i], rest[j]);
        assert bounds[i + 1] == rest[i] && bounds[j + 1] == rest[j];
      }
      if i, j :| 0 <= i < j < |bounds| && bounds[i] == Bound(k.a, k.chord)
                 && bounds[j] == Bound(k.b, k.chord) && Clash(bounds[i], bounds[j]) {
        assert bounds[j] == rest[j - 1];
        if i > 0 {
          assert bounds[i] == rest[i - 1];
        }
      }
    }
  }

  /** Two different functions share a chord in a way that is reported. */
  predicate Collide(bounds: seq<Bound>, f: Func, g: Func, c: KeyChord) {
    f != g && Bound(f, c) in bounds && Bound(g, c) in bounds && Clash(Bound(f, c), Bound(g, c))
  }

  predicate Reported(bounds: seq<Bound>, f: Func, g: Func, c: KeyChord) {
    Conflict(f, g, c) in Conflicts(bounds) || Conflict(g, f, c) in Conflicts(bounds)
  }

  /** As unordered pairs the reported conflicts are exactly the collisions. */
  lemma ReportedExactly(bounds: seq<Bound>, f: Func, g: Func, c: KeyChord)
    requires Distinct(bounds)
    ensures Reported(bounds, f, g, c) <==> Collide(bounds, f, g, c)
  {
    ConflictsExactly(bounds, Conflict(f, g, c));
    ConflictsExactly(bounds, Conflict(g, f, c));
    ClashIsSymmetric(Bound(f, c), Bound(g, c));
    if Collide(bounds, f, g, c) {
      var i :| 0 <= i < |bounds| && bounds[i] == Bound(f, c);
      var j :| 0 <= j < |bounds| && bounds[j] == Bound(g, c);
    }
  }

  // ---- unambiguous contexts ----

  /** The function answers to the chord while nothing is being composed. */
  predicate AnswersIdle(bounds: seq<Bound>, f: Func, c: KeyChord) {
    Bound(f, c) in bounds && ConflictGroup(f, c) != Composing
  }

  /** The function answers to the chord during a composition, where the mode toggle yields on the keys
      that the system may refuse to reserve. */
  predicate AnswersComposing(bounds: seq<Bound>, f: Func, c: KeyChord) {
    Bound(f, c) in bounds && ConflictGroup(f, c) != Idle && !(f == ModeToggle && BareSpecial(c))
  }

  /** Two functions that answer to the chord in the same context. */
  predicate Rivals(bounds: seq<Bound>, f: Func, g: Func, c: KeyChord) {
    f != g && ((AnswersIdle(bounds, f, c) && AnswersIdle(bounds, g, c))
               || (AnswersComposing(bounds, f, c) && AnswersComposing(bounds, g, c)))
  }

  /** Two functions collide exactly when some context leaves them both to answer. */
  lemma CollideMeansRivals(bounds: seq<Bound>, f: Func, g: Func, c: KeyChord)
    ensures Collide(bounds, f, g, c) <==> Rivals(bounds, f, g, c)
  {
    if f != g && Bound(f, c) in bounds && Bound(g, c) in bounds {
      ClashIsRivalry(f, g, c);
    }
  }

  lemma ClashIsRivalry(f: Func, g: Func, c: KeyChord)
    requires f != g
    ensures Clash(Bound(f, c), Bound(g, c)) <==>
              || (ConflictGroup(f, c) != Composing && ConflictGroup(g, c) != Composing)
              || (ConflictGroup(f, c) != Idle && ConflictGroup(g, c) != Idle
                  && !(BareSpecial(c) && (f == ModeToggle || g == ModeToggle)))
  {
  }

  /** The functions that answer only during a composition. */
  const COMPOSING_FUNCS := {TypoCorrect, LlmConvert, ToHiragana, ToKatakana, ToHankakuKana, ToZenkakuEisu,
                            ToHankakuEisu, NotationRotate, Convert}

  /** The function leaves the chord to a composing function. */
  predicate Yields(f: Func, c: KeyChord) {
    f == Ephemeral || f == CommitUndo || ((f == Reconvert || f == ModeToggle) && BareSpecial(c))
  }

  /** Two functions may share a chord exactly when one is for compositions and the other yields to it: feedback shares
      with nothing, and the mode toggle and reconversion only the keys that the system may refuse to reserve. */
  lemma MayShareExactly(f: Func, g: Func, c: KeyChord)
    requires f != g
    ensures !Clash(Bound(f, c), Bound(g, c)) <==>
              (f in COMPOSING_FUNCS && Yields(g, c)) || (g in COMPOSING_FUNCS && Yields(f, c))
  {
  }

  lemma ModifierShows(c: KeyChord)
    requires c.ctrl || c.shift || c.alt
    ensures '+' in FormatSpec(c)
  {
    if c.ctrl {
      assert FormatSpec(c)[4] == '+';
    } else if c.shift {
      assert FormatSpec(c)[5] == '+';
    } else {
      assert FormatSpec(c)[3] == '+';
    }
  }

  /** Those keys by name. */
  lemma SpecialKeysByName(c: KeyChord)
    ensures BareSpecial(c) <==> FormatSpec(c) in ["Convert", "NonConvert", "HankakuZenkaku"]
  {
    if c.ctrl || c.shift || c.alt {
      ModifierShows(c);
    } else if VkToKeyName(c.vk).Some? {
      KeyNamesAreVks(FormatSpec(c), c.vk);
    }
  }

  /** No two functions clash on their default chords. */
  lemma DefaultsDoNotClash(f: Func, g: Func, c: KeyChord, legacy: string)
    requires f != g && c in DefaultChords(f, legacy) && c in DefaultChords(g, legacy)
    ensures !Clash(Bound(f, c), Bound(g, c))
  {
    MayShareExactly(f, g, c);
  }

  /** In neither context does a chord have two functions. */
  ghost predicate Unambiguous(bounds: seq<Bound>) {
    forall f, g, c :: !Rivals(bounds, f, g, c)
  }

  /** No conflict means exactly that each chord has at most one function in either context. */
  lemma EmptyMeansUnambiguous(bounds: seq<Bound>)
    requires Distinct(bounds)
    ensures Conflicts(bounds) == [] <==> Unambiguous(bounds)
  {
    forall f, g, c ensures Reported(bounds, f, g, c) <==> Rivals(bounds, f, g, c) {
      ReportedExactly(bounds, f, g, c);
      CollideMeansRivals(bounds, f, g, c);
    }
    if Conflicts(bounds) != [] {
      var k := Conflicts(bounds)[0];
      assert k in Conflicts(bounds);
      assert Reported(bounds, k.a, k.b, k.chord);
    }
  }

  // ---- the same about settings ----

  /** Each function has one entry. */
  predicate OneEntryEach(entries: seq<Entry>) {
    forall i, j | 0 <= i < j < |entries| :: entries[i].func != entries[j].func
  }

  /** The entry makes the chord effective. */
  predicate Binds(e: Entry, legacy: string, features: Features, b: Bound) {
    e.func == b.func && IsEnabled(e.func, features) && b.chord in ChordsOf(e.func, e.value, legacy)
  }

  lemma EntryBoundsExactly(e: Entry, legacy: string, features: Features, b: Bound)
    ensures b in EntryBounds(e, legacy, features) <==> Binds(e, legacy, features, b)
  {
    if Binds(e, legacy, features, b) {
      var chords := ChordsOf(e.func, e.value, legacy);
      var i :| 0 <= i < |chords| && chords[i] == b.chord;
      assert EntryBounds(e, legacy, features)[i] == b;
    }
  }

  lemma {:induction false} EffectiveExactly(entries: seq<Entry>, legacy: string, features: Features, b: Bound)
    ensures b in Effective(entries, legacy, features) <==> exists e | e in entries :: Binds(e, legacy, features, b)
  {
    if entries != [] {
      EffectiveExactly(entries[1..], legacy, features, b);
      EntryBoundsExactly(entries[0], legacy, features, b);
      assert entries == [entries[0]] + entries[1..];
    }
  }

  lemma {:induction false} EffectiveIsDistinct(entries: seq<Entry>, legacy: string, features: Features)
    requires OneEntryEach(entries)
    ensures Distinct(Effective(entries, legacy, features))
  {
    if entries != [] {
      var first, rest := EntryBounds(entries[0], legacy, features), Effective(entries[1..], legacy, features);
      EffectiveIsDistinct(entries[1..], legacy, features);
      forall a, b | a in first && b in rest ensures a != b {
        EntryBoundsExactly(entries[0], legacy, features, a);
        EffectiveExactly(entries[1..], legacy, features, b);
        var e :| e in entries[1..] && Binds(e, legacy, features, b);
      }
      DistinctConcat(first, rest);
    }
  }

  /** An empty answer of `find_conflicts_in` means exactly that dispatch is unambiguous. */
  lemma NoConflictsInSettings(entries: seq<Entry>, legacy: string, features: Features)
    requires OneEntryEach(entries)
    ensures Conflicts(Effective(entries, legacy, features)) == [] <==> Unambiguous(Effective(entries, legacy, features))
  {
    EffectiveIsDistinct(entries, legacy, features);
    EmptyMeansUnambiguous(Effective(entries, legacy, features));
  }

  /** The unordered pairs do not depend on the order of the entries. */
  lemma ReportIgnoresOrder(entries: seq<Entry>, others: seq<Entry>, legacy: string, features: Features, f: Func,
                           g: Func, c: KeyChord)
    requires OneEntryEach(entries) && OneEntryEach(others)
    requires forall e :: e in entries <==> e in others
    ensures Reported(Effective(entries, legacy, features), f, g, c) <==>
        Reported(Effective(others, legacy, features), f, g, c)
  {
    EffectiveIsDistinct(entries, legacy, features);
    EffectiveIsDistinct(others, legacy, features);
    ReportedExactly(Effective(entries, legacy, features), f, g, c);
    ReportedExactly(Effective(others, legacy, features), f, g, c);
    EffectiveExactly(entries, legacy, features, Bound(f, c));
    EffectiveExactly(entries, legacy, features, Bound(g, c));
    EffectiveExactly(others, legacy, features, Bound(f, c));
    EffectiveExactly(others, legacy, features, Bound(g, c));
  }
}
