/** Reading coordinates: the validators of clause tilings, requests, results and commit receipts. */
module Clause {
  import opened Prelude
  import opened Kana

  type Position = u32
  type ClauseId = nat

  datatype ClauseValidationError = Reading | Range | DuplicateId | Surface | Token

  type Verdict = Result<(), ClauseValidationError>

  datatype ClauseState = ReadingState | Converted

  datatype WireClause = WireClause(id: ClauseId, start: Position, end: Position, state: ClauseState,
                                   surface: string, token: Option<string>)

  datatype ClauseRange = ClauseRange(id: ClauseId, start: Position, end: Position)

  datatype PrecedingSurface = PrecedingSurface(id: ClauseId, start: Position, end: Position, surface: string)

  // ---- tilings ----

  /** Consecutive nonempty half-open ranges from `start` to `end`. */
  ghost predicate Tiles(ranges: seq<(int, int)>, start: int, end: int) {
    if ranges == [] then start == end
    else
      && ranges[0].0 == start && ranges[|ranges| - 1].1 == end
      && (forall i :: 0 <= i < |ranges| ==> ranges[i].0 < ranges[i].1)
      && (forall i :: 0 < i < |ranges| ==> ranges[i].0 == ranges[i - 1].1)
  }

  lemma TilesCons(r: (int, int), rest: seq<(int, int)>, start: int, end: int)
    ensures Tiles([r] + rest, start, end) <==> r.0 == start && r.0 < r.1 && Tiles(rest, r.1, end)
  {
    var all := [r] + rest;
    if Tiles(all, start, end) {
      assert forall i :: 0 <= i < |rest| ==> rest[i] == all[i + 1];
      if rest != [] {
        assert all[1].0 == all[0].1;
      }
      assert Tiles(rest, r.1, end);
    }
  }

  lemma {:induction false} TilesOrder(ranges: seq<(int, int)>, start: int, end: int)
    requires Tiles(ranges, start, end)
    ensures start <= end
    ensures forall i :: 0 <= i < |ranges| ==> start <= ranges[i].0 && ranges[i].1 <= end
  {
    if ranges != [] {
      assert ranges == [ranges[0]] + ranges[1..];
      TilesCons(ranges[0], ranges[1..], start, end);
      TilesOrder(ranges[1..], ranges[0].1, end);
    }
  }

  /** Tilings that meet glue together. */
  lemma {:induction false} TilesConcat(a: seq<(int, int)>, b: seq<(int, int)>, start: int, middle: int, end: int)
    requires Tiles(a, start, middle) && Tiles(b, middle, end)
    ensures Tiles(a + b, start, end)
  {
    if a == [] {
      assert a + b == b;
    } else {
      assert a == [a[0]] + a[1..];
      TilesCons(a[0], a[1..], start, middle);
      TilesConcat(a[1..], b, a[0].1, middle, end);
      assert a + b == [a[0]] + (a[1..] + b);
      TilesCons(a[0], a[1..] + b, start, end);
    }
  }

  lemma {:induction false} TilesApart(ranges: seq<(int, int)>, start: int, end: int, i: nat, j: nat)
    requires Tiles(ranges, start, end) && i < j < |ranges|
    ensures ranges[i].1 <= ranges[j].0
  {
    if i + 1 < j {
      TilesApart(ranges, start, end, i, j - 1);
      assert ranges[j - 1].0 < ranges[j - 1].1 == ranges[j].0;
    }
  }

  /** The range a position lies in. */
  ghost function RangeOf(ranges: seq<(int, int)>, start: int, end: int, p: int): (i: nat)
    requires Tiles(ranges, start, end) && start <= p < end
    ensures i < |ranges| && ranges[i].0 <= p < ranges[i].1
    decreases |ranges|
  {
    var first, rest := ranges[0], ranges[1..];
    assert ranges == [first] + rest;
    TilesCons(first, rest, start, end);
    if p < first.1 then 0 else 1 + RangeOf(rest, first.1, end, p)
  }

  /** A tiling is a partition: every position of the interval lies in exactly one range. */
  lemma TilesPartition(ranges: seq<(int, int)>, start: int, end: int, p: int, i: nat)
    requires Tiles(ranges, start, end) && start <= p < end && i < |ranges|
    ensures ranges[i].0 <= p < ranges[i].1 <==> i == RangeOf(ranges, start, end, p)
  {
    var k := RangeOf(ranges, start, end, p);
    if i < k {
      TilesApart(ranges, start, end, i, k);
    } else if k < i {
      TilesApart(ranges, start, end, k, i);
    }
  }

  // ---- boundaries ----

  /** A position where a clause may start or end: never before a combining mark, except at 0. */
  predicate IsLegal(reading: string, p: int) {
    0 <= p <= |reading| && (p == 0 || p == |reading| || !IsMark(reading[p]))
  }

  lemma {:induction false} ComposeConcat(a: string, b: string)
    requires b == [] || !IsMark(b[0])
    ensures ComposeKana(a + b) == ComposeKana(a) + ComposeKana(b)
    decreases |a|
  {
    if a == [] {
      assert a + b == b;
    } else {
      var n := if |a| >= 2 && ComposePair(a[0], a[1]).Some? then 2 else 1;
      if |a| == 1 && b != [] && ComposePair(a[0], b[0]).Some? {
        PairShape(a[0], b[0]);
      }
      assert (a + b)[n..] == a[n..] + b;
      ComposeConcat(a[n..], b);
    }
  }

  /** A cut at a legal position takes no character apart: composing the two parts is composing the whole. */
  lemma LegalCutsCompose(reading: string, p: nat)
    requires IsLegal(reading, p)
    ensures ComposeKana(reading[..p]) + ComposeKana(reading[p..]) == ComposeKana(reading)
  {
    assert reading[..p] + reading[p..] == reading;
    if p == |reading| {
      ComposeConcat(reading[..p], reading[p..]);
    } else if p == 0 {
      assert reading[..p] == "" && reading[p..] == reading;
    } else {
      ComposeConcat(reading[..p], reading[p..]);
    }
  }

  predicate StrictlySorted(s: seq<Position>) {
    forall i, j :: 0 <= i < j < |s| ==> s[i] < s[j]
  }

  /** Exactly the legal positions, in increasing order. */
  predicate AreBoundaries(reading: string, b: seq<Position>) {
    && StrictlySorted(b)
    && (forall p | p in b :: IsLegal(reading, p))
    && (forall p | 0 <= p <= |reading| :: IsLegal(reading, p) ==> p in b)
  }

  method LegalBoundaries(reading: string) returns (r: Result<seq<Position>, ClauseValidationError>)
    ensures |reading| > U32_MAX ==> r == Err(Range)
    ensures |reading| <= U32_MAX ==> r.Ok? && AreBoundaries(reading, r.value)
    ensures r.Ok? ==> r.value != [] && r.value[|r.value| - 1] == |reading|
  {
    if |reading| > U32_MAX {
      return Err(Range);
    }
    var result: seq<Position> := [0];
    var index := 1;
    while index < |reading|
      invariant 1 <= index && (index <= |reading| || |reading| == 0)
      invariant result != [] && result[0] == 0 && (index == 1 ==> result == [0]) && (|reading| == 0 ==> index == 1)
      invariant forall i :: 0 <= i < |result| ==> result[i] < index
      invariant StrictlySorted(result)
      invariant forall p | p in result :: IsLegal(reading, p)
      invariant forall p | 0 <= p < index && p < |reading| :: IsLegal(reading, p) ==> p in result
    {
      if !IsMark(reading[index]) {
        result := result + [index];
      }
      index := index + 1;
    }
    if |reading| != 0 {
      result := result + [|reading|];
    }
    r := Ok(result);
  }

  /** `slice::binary_search`, reduced to whether the value was found. */
  method Found(b: seq<Position>, p: Position) returns (found: bool)
    requires StrictlySorted(b)
    ensures found <==> p in b
  {
    var low, high := 0, |b|;
    while low < high
      invariant 0 <= low <= high <= |b|
      invariant forall i :: 0 <= i < low ==> b[i] < p
      invariant forall i :: high <= i < |b| ==> p < b[i]
    {
      var mid := low + (high - low) / 2;
      if b[mid] == p {
        return true;
      } else if b[mid] < p {
        low := mid + 1;
      } else {
        high := mid;
      }
    }
    found := false;
  }

  function ReadingSlice(reading: string, start: Position, end: Position): Option<string> {
    if start > end || end > |reading| then None else Some(reading[start..end])
  }

  predicate Normalised(reading: string) {
    NormalizeReading(reading) == reading
  }

  /** A reading is normalised exactly when it has no katakana that has a hiragana counterpart. */
  lemma NormalisedExactly(reading: string)
    ensures Normalised(reading) <==> forall c | c in reading :: !('\U{30A1}' <= c <= '\U{30F6}')
    ensures Normalised(NormalizeReading(reading))
  {
    var hiragana := NormalizeReading(reading);
    forall i | 0 <= i < |reading| ensures hiragana[i] == reading[i] <==> !('\U{30A1}' <= reading[i] <= '\U{30F6}') {
      KanaMapsExactly(reading[i]);
    }
    forall i | 0 <= i < |reading| ensures HiraganaOf(hiragana[i]) == hiragana[i] {
      KanaMapsExactly(reading[i]);
    }
    if Normalised(reading) {
      forall c | c in reading ensures !('\U{30A1}' <= c <= '\U{30F6}') {
        var i :| 0 <= i < |reading| && reading[i] == c;
      }
    }
    assert forall i :: 0 <= i < |reading| ==> reading[i] in reading;
    assert NormalizeReading(hiragana) == hiragana;
  }

  // ---- clause lists ----

  function ClauseRanges(clauses: seq<WireClause>): (r: seq<(int, int)>)
    ensures |r| == |clauses|
  {
    seq(|clauses|, i requires 0 <= i < |clauses| => (clauses[i].start as int, clauses[i].end as int))
  }

  function ClauseIds(clauses: seq<WireClause>): (r: seq<ClauseId>)
    ensures |r| == |clauses|
  {
    seq(|clauses|, i requires 0 <= i < |clauses| => clauses[i].id)
  }

  function Surfaces(clauses: seq<WireClause>): string {
    if clauses == [] then "" else clauses[0].surface + Surfaces(clauses[1..])
  }

  /** A reading clause shows its slice and has no token; a converted one has both, nonempty. */
  predicate StateOk(reading: string, c: WireClause) {
    match c.state
    case ReadingState => c.token == None && ReadingSlice(reading, c.start, c.end) == Some(c.surface)
    case Converted => c.token.Some? && c.token.value != "" && c.surface != ""
  }

  /** Only a converted clause has a token, and not an empty one. */
  predicate TokenFits(c: WireClause) {
    if c.state == Converted then c.token.Some? && c.token.value != "" else c.token.None?
  }

  /** The clause goes on where the last one ended, to a legal boundary within the range. */
  predicate InOrder(reading: string, c: WireClause, cursor: Position, end: Position) {
    c.start == cursor < c.end <= end && IsLegal(reading, c.end)
  }

  /** The first rule the next clause breaks, in the order the rules are checked. */
  function ClauseFault(reading: string, c: WireClause, cursor: Position, end: Position, seen: set<ClauseId>)
    : (r: Option<ClauseValidationError>)
    ensures r.None? <==>
              c.id !in seen && InOrder(reading, c, cursor, end) && StateOk(reading, c)
    ensures r == Some(DuplicateId) <==> c.id in seen
    ensures r == Some(Range) <==> c.id !in seen && !InOrder(reading, c, cursor, end)
    ensures r == Some(Token) <==> c.id !in seen && InOrder(reading, c, cursor, end) && !TokenFits(c)
    ensures r == Some(Surface) <==>
              c.id !in seen && InOrder(reading, c, cursor, end) && TokenFits(c) && !StateOk(reading, c)
  {
    if c.id in seen then Some(DuplicateId)
    else if c.start != cursor || c.end <= cursor || c.end > end || !IsLegal(reading, c.end) then Some(Range)
    else
      match c.state
      case ReadingState =>
        if c.token.Some? then Some(Token)
        else if ReadingSlice(reading, cursor, c.end) != Some(c.surface) then Some(Surface)
        else None
      case Converted =>
        if c.token.None? || c.token.value == "" then Some(Token)
        else if c.surface == "" then Some(Surface)
        else None
  }

  function ClausesVerdict(reading: string, clauses: seq<WireClause>, cursor: Position, end: Position,
                          seen: set<ClauseId>, surface: string, text: string): Verdict {
    if clauses == [] then
      if cursor != end then Err(Range) else if surface != text then Err(Surface) else Ok(())
    else
      var c := clauses[0];
      var fault := ClauseFault(reading, c, cursor, end, seen);
      if fault.Some? then Err(fault.value)
      else ClausesVerdict(reading, clauses[1..], c.end, end, seen + {c.id}, surface + c.surface, text)
  }

  /** The verdict of `validate_clauses`: the first error in checking order. */
  function ValidateClausesSpec(reading: string, clauses: seq<WireClause>, start: Position, end: Position,
                               text: string): Verdict {
    if !Normalised(reading) then Err(Reading)
    else if |reading| > U32_MAX then Err(Range)
    else if start > end || !IsLegal(reading, start) || !IsLegal(reading, end) then Err(Range)
    else ClausesVerdict(reading, clauses, start, end, {}, "", text)
  }

  method ValidateClauses(reading: string, clauses: seq<WireClause>, start: Position, end: Position, text: string)
    returns (r: Verdict)
    ensures r == ValidateClausesSpec(reading, clauses, start, end, text)
  {
    if NormalizeReading(reading) != reading {
      return Err(Reading);
    }
    var legal := LegalBoundaries(reading);
    if legal.Err? {
      return Err(legal.error);
    }
    var boundaries := legal.value;
    var startFound := Found(boundaries, start);
    var endFound := Found(boundaries, end);
    if start > end || !startFound || !endFound {
      return Err(Range);
    }
    var cursor, ids, surface := start, {}, "";
    for i := 0 to |clauses|
      invariant ClausesVerdict(reading, clauses[i..], cursor, end, ids, surface, text)
             == ClausesVerdict(reading, clauses, start, end, {}, "", text)
    {
      var clause := clauses[i];
      assert clauses[i..][1..] == clauses[i + 1..];
      if clause.id in ids {
        return Err(DuplicateId);
      }
      var found := Found(boundaries, clause.end);
      if clause.start != cursor || clause.end <= cursor || clause.end > end || !found {
        return Err(Range);
      }
      match clause.state {
        case ReadingState =>
          if clause.token.Some? {
            return Err(Token);
          }
          if ReadingSlice(reading, cursor, clause.end) != Some(clause.surface) {
            return Err(Surface);
          }
        case Converted =>
          if clause.token.None? || clause.token.value == "" {
            return Err(Token);
          }
          if clause.surface == "" {
            return Err(Surface);
          }
      }
      ids := ids + {clause.id};
      surface := surface + clause.surface;
      cursor := clause.end;
    }
    if cursor != end {
      return Err(Range);
    }
    if surface != text {
      return Err(Surface);
    }
    r := Ok(());
  }

  /** A well-formed tiling of [start, end), stated without any cursor. */
  ghost predicate WellFormed(reading: string, clauses: seq<WireClause>, start: Position, end: Position, text: string) {
    && Normalised(reading) && |reading| <= U32_MAX
    && IsLegal(reading, start) && IsLegal(reading, end)
    && Tiles(ClauseRanges(clauses), start, end)
    && (forall i :: 0 <= i < |clauses| ==> IsLegal(reading, clauses[i].start) && IsLegal(reading, clauses[i].end))
    && Distinct(ClauseIds(clauses))
    && (forall i :: 0 <= i < |clauses| ==> StateOk(reading, clauses[i]))
    && Surfaces(clauses) == text
  }

  lemma DistinctCons(id: ClauseId, ids: seq<ClauseId>)
    ensures Distinct([id] + ids) <==> id !in ids && Distinct(ids)
  {
    var all := [id] + ids;
    assert forall i :: 0 <= i < |ids| ==> all[i + 1] == ids[i];
    if Distinct(all) {
      forall i | 0 <= i < |ids| ensures ids[i] != id {
        assert all[0] != all[i + 1];
      }
      forall i, j | 0 <= i < j < |ids| ensures ids[i] != ids[j] {
        assert all[i + 1] != all[j + 1];
      }
    }
  }

  lemma {:induction false} VerdictMeansTiling(reading: string, clauses: seq<WireClause>, cursor: Position,
                                              end: Position,
                                              seen: set<ClauseId>, surface: string, text: string)
    requires IsLegal(reading, cursor)
    ensures ClausesVerdict(reading, clauses, cursor, end, seen, surface, text).Ok? <==>
            && Tiles(ClauseRanges(clauses), cursor, end)
            && (forall i :: 0 <= i < |clauses| ==>
                IsLegal(reading, clauses[i].start) && IsLegal(reading, clauses[i].end))
            && Distinct(ClauseIds(clauses)) && (forall id | id in ClauseIds(clauses) :: id !in seen)
            && (forall i :: 0 <= i < |clauses| ==> StateOk(reading, clauses[i]))
            && surface + Surfaces(clauses) == text
  {
    if clauses == [] {
      assert surface + "" == surface;
    } else {
      var c, rest := clauses[0], clauses[1..];
      assert ClauseRanges(clauses) == [(c.start as int, c.end as int)] + ClauseRanges(rest);
      assert ClauseIds(clauses) == [c.id] + ClauseIds(rest);
      TilesCons((c.start as int, c.end as int), ClauseRanges(rest), cursor, end);
      DistinctCons(c.id, ClauseIds(rest));
      assert surface + (c.surface + Surfaces(rest)) == surface + c.surface + Surfaces(rest);
      assert forall i :: 1 <= i < |clauses| ==> clauses[i] == rest[i - 1];
      if Tiles(ClauseRanges(rest), c.end, end) {
        TilesOrder(ClauseRanges(rest), c.end, end);
      }
      if IsLegal(reading, c.end) {
        VerdictMeansTiling(reading, rest, c.end, end, seen + {c.id}, surface + c.surface, text);
      }
    }
  }

  /** `validate_clauses` accepts exactly the well-formed tilings. */
  lemma ValidateAcceptsExactlyTilings(reading: string, clauses: seq<WireClause>, start: Position, end: Position,
                                      text: string)
    ensures ValidateClausesSpec(reading, clauses, start, end, text).Ok? <==>
            WellFormed(reading, clauses, start, end, text)
  {
    if Normalised(reading) && |reading| <= U32_MAX && IsLegal(reading, start) && IsLegal(reading, end) {
      if Tiles(ClauseRanges(clauses), start, end) {
        TilesOrder(ClauseRanges(clauses), start, end);
      }
      VerdictMeansTiling(reading, clauses, start, end, {}, "", text);
      assert "" + Surfaces(clauses) == Surfaces(clauses);
    }
  }

  function IdsBefore(clauses: seq<WireClause>, i: nat): set<ClauseId>
    requires i <= |clauses|
  {
    set j | 0 <= j < i :: clauses[j].id
  }

  /** What is wrong with clause `i`, seen after all the clauses before it. */
  function FaultAt(reading: string, clauses: seq<WireClause>, start: Position, end: Position, i: nat)
    : Option<ClauseValidationError>
    requires i < |clauses|
  {
    ClauseFault(reading, clauses[i], if i == 0 then start else clauses[i - 1].end, end, IdsBefore(clauses, i))
  }

  lemma {:induction false} FaultStopsAt(reading: string, clauses: seq<WireClause>, from: nat, start: Position,
                                        end: Position, surface: string, text: string, k: nat)
    requires from <= k < |clauses| && FaultAt(reading, clauses, start, end, k).Some?
    requires forall i :: from <= i < k ==> FaultAt(reading, clauses, start, end, i).None?
    ensures ClausesVerdict(reading, clauses[from..], if from == 0 then start else clauses[from - 1].end, end,
                           IdsBefore(clauses, from), surface, text) ==
              Err(FaultAt(reading, clauses, start, end, k).value)
    decreases k - from
  {
    var (rest, cursor) := (clauses[from..], if from == 0 then start else clauses[from - 1].end);
    assert rest != [] && rest[0] == clauses[from] && rest[1..] == clauses[from + 1..];
    assert ClauseFault(reading, rest[0], cursor, end, IdsBefore(clauses, from)) ==
           FaultAt(reading, clauses, start, end, from);
    if from < k {
      assert IdsBefore(clauses, from) + {clauses[from].id} == IdsBefore(clauses, from + 1);
      FaultStopsAt(reading, clauses, from + 1, start, end, surface + clauses[from].surface, text, k);
    }
  }

  lemma {:induction false} NoFaultGoesOn(reading: string, clauses: seq<WireClause>, from: nat, start: Position,
                                         end: Position, surface: string, text: string)
    requires from <= |clauses|
    requires forall i :: from <= i < |clauses| ==> FaultAt(reading, clauses, start, end, i).None?
    ensures ClausesVerdict(reading, clauses[from..], if from == 0 then start else clauses[from - 1].end, end,
                           IdsBefore(clauses, from), surface, text) ==
              if (if clauses == [] then start else clauses[|clauses| - 1].end) != end then Err(Range)
              else if surface + Surfaces(clauses[from..]) != text then Err(Surface)
              else Ok(())
    decreases |clauses| - from
  {
    var (rest, cursor) := (clauses[from..], if from == 0 then start else clauses[from - 1].end);
    if from < |clauses| {
      var c := clauses[from];
      assert rest != [] && rest[0] == c && rest[1..] == clauses[from + 1..];
      assert ClauseFault(reading, c, cursor, end, IdsBefore(clauses, from)) ==
             FaultAt(reading, clauses, start, end, from);
      assert IdsBefore(clauses, from) + {c.id} == IdsBefore(clauses, from + 1);
      Reassociate(surface, c.surface, Surfaces(clauses[from + 1..]));
      NoFaultGoesOn(reading, clauses, from + 1, start, end, surface + c.surface, text);
    } else {
      assert rest == [] && surface + "" == surface;
    }
  }

  /** Clauses without a fault that end too early, or do not spell the text. */
  lemma EndErrors(reading: string, clauses: seq<WireClause>, start: Position, end: Position, text: string)
    requires Normalised(reading) && |reading| <= U32_MAX && start <= end
    requires IsLegal(reading, start) && IsLegal(reading, end)
    requires forall i :: 0 <= i < |clauses| ==> FaultAt(reading, clauses, start, end, i).None?
    ensures ValidateClausesSpec(reading, clauses, start, end, text) ==
              if (if clauses == [] then start else clauses[|clauses| - 1].end) != end then Err(Range)
              else if Surfaces(clauses) != text then Err(Surface)
              else Ok(())
  {
    assert clauses[0..] == clauses && IdsBefore(clauses, 0) == {};
    NoFaultGoesOn(reading, clauses, 0, start, end, "", text);
    assert "" + Surfaces(clauses) == Surfaces(clauses);
  }

  /** The error that is reported: that of the reading, of the range, or of the first clause with one. */
  lemma FirstFaultIsReported(reading: string, clauses: seq<WireClause>, start: Position, end: Position, text: string)
    ensures var r := ValidateClausesSpec(reading, clauses, start, end, text);
            var open := Normalised(reading) && |reading| <= U32_MAX && start <= end
                        && IsLegal(reading, start) && IsLegal(reading, end);
            && (r == Err(Reading) <==> !Normalised(reading))
            && (Normalised(reading) && !open ==> r == Err(Range))
            && (open ==> forall k | 0 <= k < |clauses| && FaultAt(reading, clauses, start, end, k).Some?
                                    && (forall i :: 0 <= i < k ==> FaultAt(reading, clauses, start, end, i).None?) ::
                           r == Err(FaultAt(reading, clauses, start, end, k).value))
  {
    if Normalised(reading) && |reading| <= U32_MAX && start <= end && IsLegal(reading, start) && IsLegal(reading, end) {
      NeverReading(reading, clauses, start, end, {}, "", text);
      forall k | 0 <= k < |clauses| && FaultAt(reading, clauses, start, end, k).Some?
                 && (forall i :: 0 <= i < k ==> FaultAt(reading, clauses, start, end, i).None?)
        ensures ValidateClausesSpec(reading, clauses, start, end, text) ==
                  Err(FaultAt(reading, clauses, start, end, k).value)
      {
        assert clauses[0..] == clauses;
        assert IdsBefore(clauses, 0) == {};
        FaultStopsAt(reading, clauses, 0, start, end, "", text, k);
      }
    }
  }

  lemma {:induction false} NeverReading(reading: string, clauses: seq<WireClause>, cursor: Position, end: Position,
                                        seen: set<ClauseId>, surface: string, text: string)
    ensures ClausesVerdict(reading, clauses, cursor, end, seen, surface, text) != Err(Reading)
  {
    if clauses != [] {
      NeverReading(reading, clauses[1..], clauses[0].end, end, seen + {clauses[0].id}, surface + clauses[0].surface,
                   text);
    }
  }
}
