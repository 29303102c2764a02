/** Which action a key event starts, and what the conflict check guarantees about it. */
module KeyDispatch {
  import opened Prelude
  import opened Keymap
  import opened KeyConflicts
  import Encoding

  /** The keymap settings: one value for each function. */
  type Values = Func -> Option<string>

  /** `find_conflicts` looks at the entries of all functions. */
  function AllEntries(values: Values): seq<Entry> {
    seq(|ALL_FUNCS|, i requires 0 <= i < |ALL_FUNCS| => Entry(ALL_FUNCS[i], values(ALL_FUNCS[i])))
  }

  /** The key and the state it arrives in. */
  datatype Input = Input(chord: KeyChord, composing: bool, showing: bool, direct: bool, undoArmed: bool)

  predicate IsIdle(i: Input) {
    !i.composing && !i.showing
  }

  /** `sink_chord`: a function of the key sink answers to its first default only. */
  function SinkChord(values: Values, f: Func, legacy: string): Option<KeyChord> {
    match ResolveBinding(values(f))
    case Default => Some(DefaultChords(f, legacy)[0])
    case Disabled => None
    case Chord(c) => Some(c)
  }

  predicate Hits(values: Values, f: Func, legacy: string, c: KeyChord) {
    SinkChord(values, f, legacy) == Some(c)
  }

  /** Conversion answers to both of its defaults. */
  predicate HitsConvert(values: Values, c: KeyChord) {
    match ResolveBinding(values(Convert))
    case Default => c == DefaultChords(Convert, "")[0] || c == DefaultChords(Convert, "")[1]
    case Disabled => false
    case Chord(own) => c == own
  }

  /** `global_bare_special_hit` */
  predicate HitsBareSpecial(values: Values, f: Func, c: KeyChord) {
    BareSpecial(c) &&
    match ResolveBinding(values(f))
    case Default => Bare(c.vk) in DefaultChords(f, "")
    case Disabled => false
    case Chord(own) => own == Bare(c.vk)
  }

  /** `resolve_action` */
  function ResolveAction(values: Values, legacy: string, features: Features, i: Input): Option<Func> {
    if i.undoArmed && Hits(values, CommitUndo, legacy, i.chord) then Some(CommitUndo)
    else if features.ephemeral && i.direct && IsIdle(i) && Hits(values, Ephemeral, legacy, i.chord) then Some(Ephemeral)
    else if i.composing && !i.direct && features.typo && Hits(values, TypoCorrect, legacy, i.chord)
    then Some(TypoCorrect)
    else if i.composing && !i.direct && features.llm && Hits(values, LlmConvert, legacy, i.chord) then Some(LlmConvert)
    else if i.composing && !i.direct && Hits(values, ToHiragana, legacy, i.chord) then Some(ToHiragana)
    else if i.composing && !i.direct && Hits(values, ToKatakana, legacy, i.chord) then Some(ToKatakana)
    else if i.composing && !i.direct && Hits(values, ToHankakuKana, legacy, i.chord) then Some(ToHankakuKana)
    else if i.composing && !i.direct && Hits(values, ToZenkakuEisu, legacy, i.chord) then Some(ToZenkakuEisu)
    else if i.composing && !i.direct && Hits(values, ToHankakuEisu, legacy, i.chord) then Some(ToHankakuEisu)
    else if i.composing && !i.direct && Hits(values, NotationRotate, legacy, i.chord) then Some(NotationRotate)
    else if !IsIdle(i) && HitsConvert(values, i.chord) then Some(Convert)
    else if HitsBareSpecial(values, ModeToggle, i.chord) then Some(ModeToggle)
    else if i.direct && IsIdle(i) && HitsBareSpecial(values, Reconvert, i.chord) then Some(Reconvert)
    else None
  }

  /** The function could take the key, whatever comes before it in the order of the checks. */
  predicate Candidate(values: Values, legacy: string, features: Features, i: Input, f: Func) {
    match f
    case CommitUndo => i.undoArmed && Hits(values, f, legacy, i.chord)
    case Ephemeral => features.ephemeral && i.direct && IsIdle(i) && Hits(values, f, legacy, i.chord)
    case Convert => !IsIdle(i) && HitsConvert(values, i.chord)
    case ModeToggle => HitsBareSpecial(values, f, i.chord)
    case Reconvert => i.direct && IsIdle(i) && HitsBareSpecial(values, f, i.chord)
    case Feedback => false
    case _ => i.composing && !i.direct && IsEnabled(f, features) && Hits(values, f, legacy, i.chord)
  }

  /** The chosen function is a candidate, and none is chosen only when there is none. */
  lemma ChosenIsCandidate(values: Values, legacy: string, features: Features, i: Input)
    ensures var chosen := ResolveAction(values, legacy, features, i);
            && (chosen.Some? ==> Candidate(values, legacy, features, i, chosen.value))
            && (chosen.None? ==> forall f :: !Candidate(values, legacy, features, i, f))
            && (chosen == Some(ModeToggle) ==>
                forall f | GroupOf(f) == Composing :: !Candidate(values, legacy, features, i, f))
  {
  }

  function PlaceOf(f: Func): nat {
    match f
    case ModeToggle => 0 case Reconvert => 1 case Feedback => 2 case Ephemeral => 3 case CommitUndo => 4
    case TypoCorrect => 5 case LlmConvert => 6 case ToHiragana => 7 case ToKatakana => 8 case ToHankakuKana => 9
    case ToZenkakuEisu => 10 case ToHankakuEisu => 11 case NotationRotate => 12 case Convert => 13
  }

  /** Every function is listed once. */
  lemma AllFuncsListed(f: Func, k: nat)
    requires k < |ALL_FUNCS|
    ensures PlaceOf(f) < |ALL_FUNCS| && ALL_FUNCS[PlaceOf(f)] == f
    ensures PlaceOf(ALL_FUNCS[k]) == k
  {
  }

  lemma AllEntriesOnce(values: Values)
    ensures OneEntryEach(AllEntries(values))
  {
    var entries := AllEntries(values);
    forall i, j | 0 <= i < j < |entries| ensures entries[i].func != entries[j].func {
      AllFuncsListed(ModeToggle, i);
      AllFuncsListed(ModeToggle, j);
    }
  }

  /** What a candidate answers to is among the chords that the conflict check looks at. */
  lemma CandidateIsBound(values: Values, legacy: string, features: Features, i: Input, f: Func)
    requires Candidate(values, legacy, features, i, f)
    ensures Bound(f, i.chord) in Effective(AllEntries(values), legacy, features)
  {
    AllFuncsListed(f, 0);
    var e := Entry(f, values(f));
    assert AllEntries(values)[PlaceOf(f)] == e;
    assert Binds(e, legacy, features, Bound(f, i.chord));
    EffectiveExactly(AllEntries(values), legacy, features, Bound(f, i.chord));
  }

  /** The state in which the function listens. */
  predicate Listens(f: Func, i: Input) {
    match f
    case CommitUndo => i.undoArmed
    case Ephemeral => i.direct && IsIdle(i)
    case Convert => !IsIdle(i)
    case ModeToggle => BareSpecial(i.chord)
    case Reconvert => BareSpecial(i.chord) && i.direct && IsIdle(i)
    case Feedback => false
    case _ => i.composing && !i.direct
  }

  lemma EntryOf(values: Values, f: Func)
    ensures Entry(f, values(f)) in AllEntries(values)
    ensures forall e | e in AllEntries(values) && e.func == f :: e == Entry(f, values(f))
  {
    AllFuncsListed(f, 0);
    assert AllEntries(values)[PlaceOf(f)] == Entry(f, values(f));
  }

  lemma BoundExactly(values: Values, legacy: string, features: Features, f: Func, c: KeyChord)
    ensures Bound(f, c) in Effective(AllEntries(values), legacy, features) <==>
              IsEnabled(f, features) && c in ChordsOf(f, values(f), legacy)
  {
    EntryOf(values, f);
    EffectiveExactly(AllEntries(values), legacy, features, Bound(f, c));
    if IsEnabled(f, features) && c in ChordsOf(f, values(f), legacy) {
      assert Binds(Entry(f, values(f)), legacy, features, Bound(f, c));
    }
  }

  /** Dispatch and the conflict check agree on the chords: a function could take a key exactly when the key is one of
      its effective chords and it listens. */
  lemma CandidateExactly(values: Values, legacy: string, features: Features, i: Input, f: Func)
    ensures Candidate(values, legacy, features, i, f) <==>
              Bound(f, i.chord) in Effective(AllEntries(values), legacy, features) && Listens(f, i)
  {
    BoundExactly(values, legacy, features, f, i.chord);
  }

  lemma SetChordIsEffective(f: Func, c: KeyChord, legacy: string)
    requires VkToKeyName(c.vk).Some?
    ensures ChordsOf(f, Some(FormatSpec(c)), legacy) == [c]
  {
    FormatThenParse(c);
    NoneIsNoChord();
  }

  /** A chord that is set for a function starts it: where there is no conflict, the function listens, and no armed undo
      is in the way, the mode toggle again yielding to the composing functions. */
  lemma SetChordFires(values: Values, legacy: string, features: Features, i: Input, f: Func)
    requires Conflicts(Effective(AllEntries(values), legacy, features)) == []
    requires values(f) == Some(FormatSpec(i.chord)) && VkToKeyName(i.chord.vk).Some? && IsEnabled(f, features)
    requires Listens(f, i) && !UndoShadows(values, legacy, features, i)
    requires f == ModeToggle ==> forall g | GroupOf(g) == Composing :: !Candidate(values, legacy, features, i, g)
    ensures ResolveAction(values, legacy, features, i) == Some(f)
  {
    SetChordIsEffective(f, i.chord, legacy);
    BoundExactly(values, legacy, features, f, i.chord);
    CandidateExactly(values, legacy, features, i, f);
    EntitledIsChosen(values, legacy, features, i, f);
  }

  lemma EntitledIsChosen(values: Values, legacy: string, features: Features, i: Input, f: Func)
    requires Conflicts(Effective(AllEntries(values), legacy, features)) == []
    requires Entitled(values, legacy, features, i, f) && !UndoShadows(values, legacy, features, i)
    ensures ResolveAction(values, legacy, features, i) == Some(f)
  {
    DispatchIsUnambiguous(values, legacy, features, i);
  }

  lemma NoneIsNoChord()
    ensures ParseSpec("none").Err?
  {
    Encoding.SplitWithout("none", '+');
    assert ReadPart(NO_PARTS, "none") == Ok(NO_PARTS.(key := Some("none")));
    assert ReadParts(NO_PARTS, ["none"]) == Ok(NO_PARTS.(key := Some("none")));
  }

  /** The defaults have no conflict, whatever features are on and whatever the old setting was. */
  lemma DefaultsHaveNoConflict(legacy: string, features: Features)
    ensures Conflicts(Effective(AllEntries(_ => None), legacy, features)) == []
  {
    var values: Values := _ => None;
    var bounds := Effective(AllEntries(values), legacy, features);
    forall f, g, c ensures !Rivals(bounds, f, g, c) {
      BoundExactly(values, legacy, features, f, c);
      BoundExactly(values, legacy, features, g, c);
      CollideMeansRivals(bounds, f, g, c);
      if Rivals(bounds, f, g, c) {
        DefaultsDoNotClash(f, g, c, legacy);
      }
    }
    AllEntriesOnce(values);
    NoConflictsInSettings(AllEntries(values), legacy, features);
  }

  /** Without conflicts, two candidates for one key are a composing function and either the yielding mode
      toggle or an armed undo, whose check is not limited to the idle state. */
  lemma TwoCandidates(values: Values, legacy: string, features: Features, i: Input, f: Func, g: Func)
    requires Unambiguous(Effective(AllEntries(values), legacy, features))
    requires f != g && Candidate(values, legacy, features, i, f) && Candidate(values, legacy, features, i, g)
    ensures var other := if GroupOf(f) == Composing then g else f;
            && (GroupOf(f) == Composing || GroupOf(g) == Composing) && !IsIdle(i)
            && ((other == ModeToggle && BareSpecial(i.chord)) || (other == CommitUndo && i.undoArmed))
  {
    var bounds := Effective(AllEntries(values), legacy, features);
    CandidateIsBound(values, legacy, features, i, f);
    CandidateIsBound(values, legacy, features, i, g);
    assert !Rivals(bounds, f, g, i.chord);
    CollideMeansRivals(bounds, f, g, i.chord);
    CandidateContext(values, legacy, features, i, f);
    CandidateContext(values, legacy, features, i, g);
  }

  lemma CandidateContext(values: Values, legacy: string, features: Features, i: Input, f: Func)
    requires Candidate(values, legacy, features, i, f)
    ensures ConflictGroup(f, i.chord) == Composing ==> !IsIdle(i)
    ensures ConflictGroup(f, i.chord) == Idle ==> IsIdle(i) || f == CommitUndo
    ensures ConflictGroup(f, i.chord) == Global ==> f == ModeToggle && BareSpecial(i.chord)
    ensures f == CommitUndo ==> i.undoArmed
    ensures ConflictGroup(f, i.chord) == Composing <==> GroupOf(f) == Composing
  {
  }

  lemma OnlyCandidateIsChosen(values: Values, legacy: string, features: Features, i: Input, f: Func)
    requires Unambiguous(Effective(AllEntries(values), legacy, features))
    requires Candidate(values, legacy, features, i, f) && ResolveAction(values, legacy, features, i) != Some(f)
    ensures var chosen := ResolveAction(values, legacy, features, i);
            && chosen.Some? && Candidate(values, legacy, features, i, chosen.value)
            && ((f == ModeToggle && GroupOf(chosen.value) == Composing) || UndoShadows(values, legacy, features, i))
  {
    ChosenIsCandidate(values, legacy, features, i);
    TwoCandidates(values, legacy, features, i, f, ResolveAction(values, legacy, features, i).value);
  }

  /** An armed undo has the same key as a composing function. */
  predicate UndoShadows(values: Values, legacy: string, features: Features, i: Input) {
    Candidate(values, legacy, features, i, CommitUndo)
    && exists g :: GroupOf(g) == Composing && Candidate(values, legacy, features, i, g)
  }

  /** The function is the only one that could take the key, except that the mode toggle yields. */
  predicate Entitled(values: Values, legacy: string, features: Features, i: Input, f: Func) {
    Candidate(values, legacy, features, i, f)
    && (f == ModeToggle ==> forall g | GroupOf(g) == Composing :: !Candidate(values, legacy, features, i, g))
  }

  /** Without conflicts the order of the checks decides nothing but that the mode toggle yields, for
      every key event but one kind: an armed undo that shares its key with a composing function. */
  lemma DispatchIsUnambiguous(values: Values, legacy: string, features: Features, i: Input)
    requires Conflicts(Effective(AllEntries(values), legacy, features)) == []
    ensures (forall f ::
               ResolveAction(values, legacy, features, i) == Some(f) <==> Entitled(values, legacy, features, i, f))
            <==> !UndoShadows(values, legacy, features, i)
  {
    AllEntriesOnce(values);
    NoConflictsInSettings(AllEntries(values), legacy, features);
    ChosenIsCandidate(values, legacy, features, i);
    if UndoShadows(values, legacy, features, i) {
      var g :| GroupOf(g) == Composing && Candidate(values, legacy, features, i, g);
      assert Entitled(values, legacy, features, i, g);
      assert ResolveAction(values, legacy, features, i) == Some(CommitUndo);
    } else {
      forall f
        ensures ResolveAction(values, legacy, features, i) == Some(f) <==> Entitled(values, legacy, features, i, f)
      {
        if Entitled(values, legacy, features, i, f) && ResolveAction(values, legacy, features, i) != Some(f) {
          OnlyCandidateIsChosen(values, legacy, features, i, f);
        }
      }
    }
  }

  /** Everything is off except undo with its default chord, and language-model conversion on the same. */
  function UndoAndLlm(f: Func): Option<string> {
    if f == CommitUndo then None
    else if f == LlmConvert then Some(FormatSpec(Bare(0x08).(ctrl := true)))
    else Some("none")
  }

  lemma OnlyUndoAndLlm(legacy: string, features: Features, f: Func, c: KeyChord)
    ensures Bound(f, c) in Effective(AllEntries(UndoAndLlm), legacy, features) ==> f == CommitUndo || f == LlmConvert
  {
    BoundExactly(UndoAndLlm, legacy, features, f, c);
    if f != CommitUndo && f != LlmConvert {
      assert ChordsOf(f, Some("none"), legacy) == [];
    }
  }

  lemma UndoAndLlmHaveNoConflict(legacy: string, features: Features)
    ensures Conflicts(Effective(AllEntries(UndoAndLlm), legacy, features)) == []
  {
    var bounds := Effective(AllEntries(UndoAndLlm), legacy, features);
    forall f, g, c ensures !Rivals(bounds, f, g, c) {
      OnlyUndoAndLlm(legacy, features, f, c);
      OnlyUndoAndLlm(legacy, features, g, c);
    }
    AllEntriesOnce(UndoAndLlm);
    NoConflictsInSettings(AllEntries(UndoAndLlm), legacy, features);
  }

  lemma UndoAndLlmShareKey(c: KeyChord, legacy: string)
    requires c == Bare(0x08).(ctrl := true)
    ensures Hits(UndoAndLlm, CommitUndo, legacy, c) && Hits(UndoAndLlm, LlmConvert, legacy, c)
  {
    FormatThenParse(c);
    assert FormatSpec(c)[0] == 'C';
  }

  /** The exception is real: these settings have no conflict, and during a composition an armed undo
      takes the key of the conversion. */
  lemma UndoShadowsWithoutConflict(legacy: string)
    ensures var features := Features(true, true, true, true);
            var i := Input(Bare(0x08).(ctrl := true), true, false, false, true);
            && Conflicts(Effective(AllEntries(UndoAndLlm), legacy, features)) == []
            && Candidate(UndoAndLlm, legacy, features, i, LlmConvert)
            && ResolveAction(UndoAndLlm, legacy, features, i) == Some(CommitUndo)
  {
    UndoAndLlmHaveNoConflict(legacy, Features(true, true, true, true));
    UndoAndLlmShareKey(Bare(0x08).(ctrl := true), legacy);
  }
}
