/** The text store of the test bench: UTF-16 text, selection and composition range. */
module DocState {
  import opened Prelude
  import opened Encoding

  type Text = seq<Unit>

  datatype Range = Range(from: int, to: int)

  /** The document as a value; `explicit` says that the selection was set since the last edit. */
  datatype Doc = Doc(buf: Text, selection: Range, composition: Option<Range>, explicit: bool)

  const EMPTY := Doc([], Range(0, 0), None, false)

  predicate Within(r: Range, buf: Text) {
    0 <= r.from <= r.to <= |buf|
  }

  /** Selection and composition are ordered and inside the text. */
  predicate WellFormed(d: Doc) {
    Within(d.selection, d.buf) && (d.composition.Some? ==> Within(d.composition.value, d.buf))
  }

  function Clamp(x: int, low: int, high: int): int {
    Max(low, Min(x, high))
  }

  function Splice(buf: Text, from: int, to: int, text: Text): Text
    requires 0 <= from <= to <= |buf|
  {
    buf[..from] + text + buf[to..]
  }

  /** The selection end after an edit that does not move it on purpose. */
  function Adjust(p: int, from: int, to: int, delta: int): int {
    if p <= from then p else if p >= to then p + delta else from
  }

  /** The composition ends where the edit ends, and starts no later than the edit. */
  function Recompose(composition: Option<Range>, from: int, newEnd: int): Option<Range> {
    if composition.None? then None else Some(Range(Min(composition.value.from, from), newEnd))
  }

  /** `set_text` */
  function SetTextSpec(d: Doc, from: int, to: int, text: Text): Doc {
    var s := Clamp(from, 0, |d.buf|);
    var e := Clamp(to, s, |d.buf|);
    var delta := |text| - (e - s);
    Doc(Splice(d.buf, s, e, text),
        Range(Adjust(d.selection.from, s, e, delta), Adjust(d.selection.to, s, e, delta)),
        Recompose(d.composition, s, s + |text|),
        false)
  }

  /** `insert_at_selection` */
  function InsertSpec(d: Doc, from: int, to: int, text: Text): Doc {
    var s := Clamp(from, 0, |d.buf|);
    var e := Clamp(to, s, |d.buf|);
    Doc(Splice(d.buf, s, e, text), Range(s + |text|, s + |text|), Recompose(d.composition, s, s + |text|), false)
  }

  /** `set_selection` does not check its arguments. */
  function SetSelectionSpec(d: Doc, from: int, to: int): Doc {
    d.(selection := Range(from, to), explicit := true)
  }

  /** `start_composition` */
  function StartSpec(d: Doc): Doc {
    d.(composition := Some(Range(d.selection.from, d.selection.from)), explicit := false)
  }

  /** `end_composition`: without an explicit selection the caret goes back to where the composition began. */
  function EndSpec(d: Doc): Doc {
    d.(composition := None,
       selection := if !d.explicit && d.composition.Some? then Range(d.composition.value.from, d.composition.value.from)
                    else d.selection)
  }

  function SeedSpec(text: Text): Doc {
    Doc(text, Range(|text|, |text|), None, false)
  }

  /** `preedit`, before decoding. */
  function Preedit(d: Doc): Text
    requires WellFormed(d)
  {
    if d.composition.Some? then d.buf[d.composition.value.from..d.composition.value.to] else []
  }

  /** `committed`, before decoding. */
  function Committed(d: Doc): Text
    requires WellFormed(d)
  {
    if d.composition.Some? then d.buf[..d.composition.value.from] + d.buf[d.composition.value.to..] else d.buf
  }

  datatype Edit =
    | SetText(from: int, to: int, text: Text)
    | Insert(from: int, to: int, text: Text)
    | Select(from: int, to: int)
    | Start
    | End
    | Reset
    | Seed(text: Text)

  function Apply(d: Doc, edit: Edit): Doc {
    match edit
    case SetText(from, to, text) => SetTextSpec(d, from, to, text)
    case Insert(from, to, text) => InsertSpec(d, from, to, text)
    case Select(from, to) => SetSelectionSpec(d, from, to)
    case Start => StartSpec(d)
    case End => EndSpec(d)
    case Reset => EMPTY
    case Seed(text) => SeedSpec(text)
  }

  function ApplyAll(d: Doc, edits: seq<Edit>): Doc
    decreases |edits|
  {
    if edits == [] then d else ApplyAll(Apply(d, edits[0]), edits[1..])
  }

  // ---- well-formedness ----

  /** Every edit, whatever its arguments, keeps the document well-formed; only an explicit selection
      outside the text breaks it. */
  lemma EditKeepsWellFormed(d: Doc, edit: Edit)
    requires WellFormed(d)
    ensures WellFormed(Apply(d, edit)) <==> (edit.Select? ==> Within(Range(edit.from, edit.to), d.buf))
  {
  }

  /** No selection of the run lies outside the text it is made in. */
  predicate SelectsInside(d: Doc, edits: seq<Edit>)
    decreases |edits|
  {
    edits == []
    || ((edits[0].Select? ==> Within(Range(edits[0].from, edits[0].to), d.buf))
        && SelectsInside(Apply(d, edits[0]), edits[1..]))
  }

  lemma {:induction false} RunKeepsWellFormed(d: Doc, edits: seq<Edit>)
    requires WellFormed(d) && SelectsInside(d, edits)
    ensures WellFormed(ApplyAll(d, edits))
    decreases |edits|
  {
    if edits != [] {
      EditKeepsWellFormed(d, edits[0]);
      RunKeepsWellFormed(Apply(d, edits[0]), edits[1..]);
    }
  }

  // ---- explicit selections ----

  /** Read backwards, a selection comes before anything else that edits or starts; an end of a composition is no such
      thing. */
  predicate SelectedLast(was: bool, edits: seq<Edit>)
    decreases |edits|
  {
    if edits == [] then was
    else
      match edits[|edits| - 1]
      case Select(_, _) => true
      case End => SelectedLast(was, edits[..|edits| - 1])
      case _ => false
  }

  lemma {:induction false} ApplyAllSnoc(d: Doc, edits: seq<Edit>, edit: Edit)
    ensures ApplyAll(d, edits + [edit]) == Apply(ApplyAll(d, edits), edit)
    decreases |edits|
  {
    if edits == [] {
      assert ApplyAll(Apply(d, edit), []) == Apply(d, edit);
    } else {
      assert (edits + [edit])[1..] == edits[1..] + [edit];
      ApplyAllSnoc(Apply(d, edits[0]), edits[1..], edit);
    }
  }

  lemma {:induction false} ExplicitMeansSelectedLast(d: Doc, edits: seq<Edit>)
    ensures ApplyAll(d, edits).explicit <==> SelectedLast(d.explicit, edits)
    decreases |edits|
  {
    if edits != [] {
      var (front, last) := (edits[..|edits| - 1], edits[|edits| - 1]);
      assert front + [last] == edits;
      ApplyAllSnoc(d, front, last);
      ExplicitMeansSelectedLast(d, front);
    }
  }

  /** After any run the end of a composition takes the caret back to where the composition begins, exactly when no
      selection has been set since the last edit; otherwise the selection stays. */
  lemma CaretAfterEnd(d: Doc, edits: seq<Edit>)
    ensures var (before, after) := (ApplyAll(d, edits), ApplyAll(d, edits + [End]));
            && after.composition == None && after.buf == before.buf
            && after.selection ==
                 if before.composition.Some? && !SelectedLast(d.explicit, edits) then
                   Range(before.composition.value.from, before.composition.value.from)
                 else before.selection
  {
    ApplyAllSnoc(d, edits, End);
    ExplicitMeansSelectedLast(d, edits);
  }

  // ---- preedit and committed text ----

  /** An edit that begins inside the composition makes the composition reach from its old start to the end
      of the new text, and leaves the committed text alone exactly when it ends where the composition
      ended. */
  lemma EditInsideComposition(d: Doc, from: int, to: int, text: Text)
    requires WellFormed(d) && d.composition.Some?
    requires d.composition.value.from <= from <= to <= |d.buf|
    ensures var d1 := SetTextSpec(d, from, to, text);
            && WellFormed(d1)
            && Preedit(d1) == d.buf[d.composition.value.from..from] + text
            && Committed(d1) == d.buf[..d.composition.value.from] + d.buf[to..]
            && (Committed(d1) == Committed(d) <==> to == d.composition.value.to)
            && InsertSpec(d, from, to, text).buf == d1.buf
            && InsertSpec(d, from, to, text).composition == d1.composition
  {
    var c := d.composition.value;
    var d1 := SetTextSpec(d, from, to, text);
    assert d1.buf == d.buf[..from] + text + d.buf[to..];
    assert d1.composition == Some(Range(c.from, from + |text|));
    assert d1.buf[c.from..from + |text|] == d.buf[c.from..from] + text;
    assert d1.buf[..c.from] == d.buf[..c.from];
    assert d1.buf[from + |text|..] == d.buf[to..];
    if Committed(d1) == Committed(d) {
      assert |Committed(d1)| == c.from + |d.buf| - to;
    }
  }

  /** Replacing exactly the composition makes the new text the preedit and keeps the committed text. */
  lemma ReplacingComposition(d: Doc, text: Text)
    requires WellFormed(d) && d.composition.Some?
    ensures var d1 := SetTextSpec(d, d.composition.value.from, d.composition.value.to, text);
            WellFormed(d1) && Preedit(d1) == text && Committed(d1) == Committed(d)
  {
    EditInsideComposition(d, d.composition.value.from, d.composition.value.to, text);
  }

  /** A selection end keeps its place in the text: what stood before it still does when the edit comes
      later, what stood behind it still does when the edit came earlier, and inside the edit it falls to
      the edit's start. An insertion moves both ends behind the new text. */
  lemma CaretKeepsItsPlace(d: Doc, from: int, to: int, text: Text)
    requires WellFormed(d) && 0 <= from <= to <= |d.buf|
    ensures var (p, d1) := (d.selection.from, SetTextSpec(d, from, to, text));
            var p1 := d1.selection.from;
            && (p <= from ==> d1.buf[..p1] == d.buf[..p])
            && (from < p && to <= p ==> d1.buf[p1..] == d.buf[p..])
            && (from < p < to ==> p1 == from)
    ensures SetTextSpec(d, from, to, text).selection.to ==
              SetTextSpec(d.(selection := Range(d.selection.to, d.selection.to)), from, to, text).selection.from
    ensures var d1 := InsertSpec(d, from, to, text);
            d1.selection.from == d1.selection.to && d1.buf[..d1.selection.from] == d.buf[..from] + text
            && d1.buf[d1.selection.from..] == d.buf[to..]
  {
    var d1 := SetTextSpec(d, from, to, text);
    assert d1.buf == d.buf[..from] + text + d.buf[to..];
    assert d1.buf[..from + |text|] == d.buf[..from] + text;
    assert d1.buf[from + |text|..] == d.buf[to..];
    var p, p1 := d.selection.from, d1.selection.from;
    if p <= from {
      assert d1.buf[..p] == d.buf[..p];
    } else if to <= p {
      assert d1.buf[p1..] == d1.buf[from + |text|..][p - to..];
      assert d.buf[p..] == d.buf[to..][p - to..];
    }
  }

  // ---- committing words ----

  /** One update of the composed text, and the selection set after it, if any. */
  datatype Update = Update(text: Text, selection: Option<Range>)

  /** Replace the whole composition, and then perhaps set the selection. */
  function Compose(d: Doc, u: Update): Doc
    requires d.composition.Some?
  {
    var d1 := SetTextSpec(d, d.composition.value.from, d.composition.value.to, u.text);
    if u.selection.Some? then SetSelectionSpec(d1, u.selection.value.from, u.selection.value.to) else d1
  }

  function ComposeAll(d: Doc, updates: seq<Update>): Doc
    requires d.composition.Some?
    decreases |updates|
  {
    if updates == [] then d else ComposeAll(Compose(d, updates[0]), updates[1..])
  }

  /** One word: start a composition at the caret, update it, and end it; the last update is the word. */
  function CommitWord(d: Doc, updates: seq<Update>): Doc {
    EndSpec(ComposeAll(StartSpec(d), updates))
  }

  /** The composition is `text`, between `before` and `after`. */
  predicate Composed(d: Doc, before: Text, text: Text, after: Text) {
    d.buf == before + text + after && d.composition == Some(Range(|before|, |before| + |text|))
  }

  lemma ComposeReplaces(d: Doc, u: Update, before: Text, text: Text, after: Text)
    requires Composed(d, before, text, after)
    ensures Composed(Compose(d, u), before, u.text, after)
    ensures Compose(d, u).explicit == u.selection.Some?
    ensures u.selection.Some? ==> Compose(d, u).selection == u.selection.value
  {
    assert d.buf[..|before|] == before && d.buf[|before| + |text|..] == after;
  }

  lemma {:induction false} ComposeAllReplaces(d: Doc, updates: seq<Update>, before: Text, text: Text, after: Text)
    requires Composed(d, before, text, after) && updates != []
    ensures var last := updates[|updates| - 1];
            var end := ComposeAll(d, updates);
            && Composed(end, before, last.text, after)
            && end.explicit == last.selection.Some?
            && (last.selection.Some? ==> end.selection == last.selection.value)
    decreases |updates|
  {
    ComposeReplaces(d, updates[0], before, text, after);
    if |updates| > 1 {
      ComposeAllReplaces(Compose(d, updates[0]), updates[1..], before, updates[0].text, after);
    }
  }

  /** However it was composed, the word goes in at the caret; the caret is where the last selection put
      it, and back in front of the word when there was none. */
  lemma CommitInsertsAtCaret(d: Doc, updates: seq<Update>)
    requires WellFormed(d) && updates != []
    ensures var last := updates[|updates| - 1];
            var end := CommitWord(d, updates);
            && end.buf == d.buf[..d.selection.from] + last.text + d.buf[d.selection.from..]
            && end.composition == None
            && end.selection == if last.selection.Some? then last.selection.value
                                else Range(d.selection.from, d.selection.from)
  {
    var before, after := d.buf[..d.selection.from], d.buf[d.selection.from..];
    assert before + [] + after == d.buf;
    ComposeAllReplaces(StartSpec(d), updates, before, [], after);
  }

  /** A word with the updates that lead to it; `follow` says that the caret is then set behind it. */
  datatype Word = Word(preedits: seq<Update>, text: Text, follow: bool)

  function Updates(d: Doc, w: Word): seq<Update> {
    var end := d.selection.from + |w.text|;
    w.preedits + [Update(w.text, if w.follow then Some(Range(end, end)) else None)]
  }

  function CommitWords(d: Doc, words: seq<Word>): Doc
    decreases |words|
  {
    if words == [] then d else CommitWords(CommitWord(d, Updates(d, words[0])), words[1..])
  }

  /** What stands before and behind the caret after some words. */
  datatype Halves = Halves(before: Text, after: Text)

  function Typed(h: Halves, words: seq<Word>): Halves
    decreases |words|
  {
    if words == [] then h
    else if words[0].follow then Typed(Halves(h.before + words[0].text, h.after), words[1..])
    else Typed(Halves(h.before, words[0].text + h.after), words[1..])
  }

  predicate SplitAt(d: Doc, h: Halves) {
    d.buf == h.before + h.after && d.selection.from == |h.before| && WellFormed(d)
  }

  /** Whatever choice is made for each word: a followed word goes before the caret, any other behind it. */
  lemma {:induction false} WordsGoIn(d: Doc, words: seq<Word>, h: Halves)
    requires SplitAt(d, h)
    ensures SplitAt(CommitWords(d, words), Typed(h, words))
    decreases |words|
  {
    if words != [] {
      var w := words[0];
      CommitInsertsAtCaret(d, Updates(d, w));
      assert d.buf[..|h.before|] == h.before && d.buf[|h.before|..] == h.after;
      var d1 := CommitWord(d, Updates(d, w));
      var h1 := if w.follow then Halves(h.before + w.text, h.after) else Halves(h.before, w.text + h.after);
      assert h.before + w.text + h.after == h.before + (w.text + h.after);
      WordsGoIn(d1, words[1..], h1);
    }
  }

  function InOrder(words: seq<Word>): Text {
    if words == [] then [] else words[0].text + InOrder(words[1..])
  }

  function InReverse(words: seq<Word>): Text {
    if words == [] then [] else InReverse(words[1..]) + words[0].text
  }

  lemma {:induction false} AllFollowed(h: Halves, words: seq<Word>)
    requires forall w | w in words :: w.follow
    ensures Typed(h, words) == Halves(h.before + InOrder(words), h.after)
    decreases |words|
  {
    if words == [] {
      assert h.before + [] == h.before;
    } else {
      AllFollowed(Halves(h.before + words[0].text, h.after), words[1..]);
      assert h.before + words[0].text + InOrder(words[1..]) == h.before + (words[0].text + InOrder(words[1..]));
    }
  }

  lemma {:induction false} NoneFollowed(h: Halves, words: seq<Word>)
    requires forall w | w in words :: !w.follow
    ensures Typed(h, words) == Halves(h.before, InReverse(words) + h.after)
    decreases |words|
  {
    if words == [] {
      assert [] + h.after == h.after;
    } else {
      NoneFollowed(Halves(h.before, words[0].text + h.after), words[1..]);
      assert InReverse(words[1..]) + (words[0].text + h.after) == InReverse(words[1..]) + words[0].text + h.after;
    }
  }

  /** Words committed at the caret stand in order when the caret is set behind each of them, and in
      reverse order when it never is. */
  lemma OrderOfCommittedWords(d: Doc, words: seq<Word>)
    requires WellFormed(d)
    ensures var at := d.selection.from;
            && ((forall w | w in words :: w.follow) ==>
                  CommitWords(d, words).buf == d.buf[..at] + InOrder(words) + d.buf[at..])
            && ((forall w | w in words :: !w.follow) ==>
                  CommitWords(d, words).buf == d.buf[..at] + InReverse(words) + d.buf[at..])
  {
    var h := Halves(d.buf[..d.selection.from], d.buf[d.selection.from..]);
    WordsGoIn(d, words, h);
    if forall w | w in words :: w.follow {
      AllFollowed(h, words);
    }
    if forall w | w in words :: !w.follow {
      NoneFollowed(h, words);
      assert h.before + (InReverse(words) + h.after) == h.before + InReverse(words) + h.after;
    }
  }

  // ---- the object ----

  class DocState {
    var buf: Text
    var acpStart: int
    var acpEnd: int
    var comp: Option<Range>
    var selExplicit: bool

    function State(): Doc
      reads this
    {
      Doc(buf, Range(acpStart, acpEnd), comp, selExplicit)
    }

    constructor ()
      ensures State() == EMPTY
    {
      buf := [];
      acpStart, acpEnd := 0, 0;
      comp := None;
      selExplicit := false;
    }

    method SetSelection(start: int, end: int)
      modifies this
      ensures State() == SetSelectionSpec(old(State()), start, end)
    {
      acpStart, acpEnd := start, end;
      selExplicit := true;
    }

    method SetText(start: int, end: int, text: Text)
      modifies this
      ensures State() == SetTextSpec(old(State()), start, end, text)
    {
      var s := Clamp(start, 0, |buf|);
      var e := Clamp(end, s, |buf|);
      buf := Splice(buf, s, e, text);
      var newEnd := s + |text|;
      var delta := newEnd - e;
      acpStart := Adjust(acpStart, s, e, delta);
      acpEnd := Adjust(acpEnd, s, e, delta);
      selExplicit := false;
      if comp.Some? {
        comp := Some(Range(Min(comp.value.from, s), newEnd));
      }
    }

    method InsertAtSelection(start: int, end: int, text: Text)
      modifies this
      ensures State() == InsertSpec(old(State()), start, end, text)
    {
      var s := Clamp(start, 0, |buf|);
      var e := Clamp(end, s, |buf|);
      buf := Splice(buf, s, e, text);
      var newEnd := s + |text|;
      acpStart, acpEnd := newEnd, newEnd;
      selExplicit := false;
      if comp.Some? {
        comp := Some(Range(Min(comp.value.from, s), newEnd));
      }
    }

    method StartComposition()
      modifies this
      ensures State() == StartSpec(old(State()))
    {
      comp := Some(Range(acpStart, acpStart));
      selExplicit := false;
    }

    method EndComposition()
      modifies this
      ensures State() == EndSpec(old(State()))
    {
      if !selExplicit && comp.Some? {
        acpStart, acpEnd := comp.value.from, comp.value.from;
      }
      comp := None;
    }

    method Reset()
      modifies this
      ensures State() == EMPTY
    {
      buf := [];
      acpStart, acpEnd := 0, 0;
      comp := None;
      selExplicit := false;
    }

    method SeedCommitted(text: Text)
      modifies this
      ensures State() == SeedSpec(text)
    {
      buf := text;
      acpStart, acpEnd := |text|, |text|;
      comp := None;
      selExplicit := false;
    }
  }
}
