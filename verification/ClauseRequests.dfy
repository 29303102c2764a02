/** Conversion requests, their results and commit receipts, all over the tilings of `Clause`. */
module ClauseRequests {
  import opened Prelude
  import opened Kana
  import opened Clause

  // ---- preceding surfaces ----

  function PrecedingRanges(items: seq<PrecedingSurface>): (r: seq<(int, int)>)
    ensures |r| == |items|
  {
    seq(|items|, i requires 0 <= i < |items| => (items[i].start as int, items[i].end as int))
  }

  function PrecedingIds(items: seq<PrecedingSurface>): (r: seq<ClauseId>)
    ensures |r| == |items|
  {
    seq(|items|, i requires 0 <= i < |items| => items[i].id)
  }

  function PrecedingVerdict(reading: string, items: seq<PrecedingSurface>, cursor: Position, target: Position,
                            seen: set<ClauseId>): Verdict {
    if items == [] then
      if cursor != target || !IsLegal(reading, target) then Err(Range) else Ok(())
    else
      var item := items[0];
      if item.id in seen then Err(DuplicateId)
      else if item.start != cursor || item.end <= cursor || !IsLegal(reading, item.end) then Err(Range)
      else if item.surface == "" then Err(Surface)
      else PrecedingVerdict(reading, items[1..], item.end, target, seen + {item.id})
  }

  function ValidatePrecedingSpec(reading: string, items: seq<PrecedingSurface>, target: Position): Verdict {
    if !Normalised(reading) then Err(Reading)
    else if |reading| > U32_MAX then Err(Range)
    else PrecedingVerdict(reading, items, 0, target, {})
  }

  method ValidatePreceding(reading: string, items: seq<PrecedingSurface>, target: Position) returns (r: Verdict)
    ensures r == ValidatePrecedingSpec(reading, items, target)
  {
    if NormalizeReading(reading) != reading {
      return Err(Reading);
    }
    var legal := LegalBoundaries(reading);
    if legal.Err? {
      return Err(legal.error);
    }
    var cursor: Position, ids := 0, {};
    for i := 0 to |items|
      invariant PrecedingVerdict(reading, items[i..], cursor, target, ids) ==
          PrecedingVerdict(reading, items, 0, target, {})
    {
      var item := items[i];
      assert items[i..][1..] == items[i + 1..];
      if item.id in ids {
        return Err(DuplicateId);
      }
      var found := Found(legal.value, item.end);
      if item.start != cursor || item.end <= cursor || !found {
        return Err(Range);
      }
      if item.surface == "" {
        return Err(Surface);
      }
      ids := ids + {item.id};
      cursor := item.end;
    }
    var found := Found(legal.value, target);
    if cursor != target || !found {
      return Err(Range);
    }
    r := Ok(());
  }

  /** The surfaces before the target tile [0, target) at legal boundaries. */
  ghost predicate PrecedingOk(reading: string, items: seq<PrecedingSurface>, target: Position) {
    && Tiles(PrecedingRanges(items), 0, target) && IsLegal(reading, target)
    && (forall i :: 0 <= i < |items| ==> IsLegal(reading, items[i].end) && items[i].surface != "")
    && Distinct(PrecedingIds(items))
  }

  lemma {:induction false} PrecedingVerdictMeans(reading: string, items: seq<PrecedingSurface>, cursor: Position,
                                                 target: Position, seen: set<ClauseId>)
    ensures PrecedingVerdict(reading, items, cursor, target, seen).Ok? <==>
            && Tiles(PrecedingRanges(items), cursor, target) && IsLegal(reading, target)
            && (forall i :: 0 <= i < |items| ==> IsLegal(reading, items[i].end) && items[i].surface != "")
            && Distinct(PrecedingIds(items)) && (forall id | id in PrecedingIds(items) :: id !in seen)
  {
    if items != [] {
      var item, rest := items[0], items[1..];
      assert PrecedingRanges(items) == [(item.start as int, item.end as int)] + PrecedingRanges(rest);
      assert PrecedingIds(items) == [item.id] + PrecedingIds(rest);
      TilesCons((item.start as int, item.end as int), PrecedingRanges(rest), cursor, target);
      DistinctCons(item.id, PrecedingIds(rest));
      assert forall i :: 1 <= i < |items| ==> items[i] == rest[i - 1];
      PrecedingVerdictMeans(reading, rest, item.end, target, seen + {item.id});
    }
  }

  lemma PrecedingAcceptsExactly(reading: string, items: seq<PrecedingSurface>, target: Position)
    ensures ValidatePrecedingSpec(reading, items, target).Ok? <==>
            Normalised(reading) && |reading| <= U32_MAX && PrecedingOk(reading, items, target)
  {
    PrecedingVerdictMeans(reading, items, 0, target, {});
  }

  function EndOf(items: seq<PrecedingSurface>): Position {
    if items == [] then 0 else items[|items| - 1].end
  }

  lemma {:induction false} PrecedingGoesOn(reading: string, before: seq<PrecedingSurface>, rest: seq<PrecedingSurface>,
                                           cursor: Position, middle: Position, target: Position, seen: set<ClauseId>)
    requires PrecedingVerdict(reading, before, cursor, middle, seen).Ok?
    ensures PrecedingVerdict(reading, before + rest, cursor, target, seen) ==
              PrecedingVerdict(reading, rest, middle, target, seen + set id | id in PrecedingIds(before))
  {
    if before == [] {
      assert before + rest == rest;
      assert seen + (set id | id in PrecedingIds(before)) == seen;
    } else {
      var item := before[0];
      assert (before + rest)[1..] == before[1..] + rest;
      assert PrecedingIds(before) == [item.id] + PrecedingIds(before[1..]);
      assert seen + {item.id} + (set id | id in PrecedingIds(before[1..])) ==
             seen + set id | id in PrecedingIds(before);
      PrecedingGoesOn(reading, before[1..], rest, item.end, middle, target, seen + {item.id});
    }
  }

  /** The error of the first item with one, after items that are in order, and that of a target that is not their
      end. */
  lemma {:induction false} PrecedingErrors(reading: string, before: seq<PrecedingSurface>, item: PrecedingSurface,
                                           rest: seq<PrecedingSurface>, target: Position)
    requires Normalised(reading) && |reading| <= U32_MAX && PrecedingOk(reading, before, EndOf(before))
    ensures var r := ValidatePrecedingSpec(reading, before + ([item] + rest), target);
            var misplaced := !(item.start == EndOf(before) < item.end && IsLegal(reading, item.end));
            && (item.id in PrecedingIds(before) ==> r == Err(DuplicateId))
            && (item.id !in PrecedingIds(before) && misplaced ==> r == Err(Range))
            && (item.id !in PrecedingIds(before) && !misplaced && item.surface == "" ==> r == Err(Surface))
    ensures ValidatePrecedingSpec(reading, before, target) == if target == EndOf(before) then Ok(()) else Err(Range)
  {
    PrecedingVerdictMeans(reading, before, 0, EndOf(before), {});
    PrecedingGoesOn(reading, before, [item] + rest, 0, EndOf(before), target, {});
    PrecedingGoesOn(reading, before, [], 0, EndOf(before), target, {});
    assert before + [] == before && ([item] + rest)[1..] == rest;
    assert {} + (set id | id in PrecedingIds(before)) == set id | id in PrecedingIds(before);
  }

  lemma {:induction false} PrecedingNeverReading(reading: string, items: seq<PrecedingSurface>, cursor: Position,
                                                 target: Position, seen: set<ClauseId>)
    ensures PrecedingVerdict(reading, items, cursor, target, seen) != Err(Reading)
  {
    if items != [] {
      PrecedingNeverReading(reading, items[1..], items[0].end, target, seen + {items[0].id});
    }
  }

  /** A reading that is not normalised is reported before anything else, and one that is too long next. */
  lemma ReadingErrors(reading: string, items: seq<PrecedingSurface>, target: Position)
    ensures ValidatePrecedingSpec(reading, items, target) == Err(Reading) <==> !Normalised(reading)
    ensures Normalised(reading) && |reading| > U32_MAX ==> ValidatePrecedingSpec(reading, items, target) == Err(Range)
  {
    PrecedingNeverReading(reading, items, 0, target, {});
  }

  // ---- conversion requests ----

  datatype ConvertClausesRequest = ConvertClausesRequest(clauseId: ClauseId, reading: string,
                                                         clauses: seq<ClauseRange>, preceding: seq<PrecedingSurface>)

  function RangesOf(clauses: seq<ClauseRange>): (r: seq<(int, int)>)
    ensures |r| == |clauses|
  {
    seq(|clauses|, i requires 0 <= i < |clauses| => (clauses[i].start as int, clauses[i].end as int))
  }

  function IdsOf(clauses: seq<ClauseRange>): (r: seq<ClauseId>)
    ensures |r| == |clauses|
  {
    seq(|clauses|, i requires 0 <= i < |clauses| => clauses[i].id)
  }

  function RangesVerdict(reading: string, clauses: seq<ClauseRange>, cursor: Position, seen: set<ClauseId>): Verdict {
    if clauses == [] then Ok(())
    else
      var range := clauses[0];
      if range.id in seen then Err(DuplicateId)
      else if range.start != cursor || range.end <= cursor || !IsLegal(reading, range.end) then Err(Range)
      else RangesVerdict(reading, clauses[1..], range.end, seen + {range.id})
  }

  function ValidateRequestSpec(q: ConvertClausesRequest): Verdict {
    if q.clauses == [] then Err(Range)
    else
      var first := q.clauses[0];
      var before := ValidatePrecedingSpec(q.reading, q.preceding, first.start);
      if before.Err? then before
      else if first.id != q.clauseId then Err(Range)
      else RangesVerdict(q.reading, q.clauses, first.start, set id | id in PrecedingIds(q.preceding))
  }

  method ValidateRequest(q: ConvertClausesRequest) returns (r: Verdict)
    ensures r == ValidateRequestSpec(q)
  {
    if q.clauses == [] {
      return Err(Range);
    }
    var first := q.clauses[0];
    var before := ValidatePreceding(q.reading, q.preceding, first.start);
    if before.Err? {
      return before;
    }
    if first.id != q.clauseId {
      return Err(Range);
    }
    var legal := LegalBoundaries(q.reading);  // cannot fail: the preceding surfaces were accepted
    var cursor, ids := first.start, set id | id in PrecedingIds(q.preceding);
    for i := 0 to |q.clauses|
      invariant RangesVerdict(q.reading, q.clauses[i..], cursor, ids) == ValidateRequestSpec(q)
    {
      var range := q.clauses[i];
      assert q.clauses[i..][1..] == q.clauses[i + 1..];
      if range.id in ids {
        return Err(DuplicateId);
      }
      if range.start != cursor || range.end <= cursor || range.end !in legal.value {
        return Err(Range);
      }
      ids := ids + {range.id};
      cursor := range.end;
    }
    r := Ok(());
  }

  function RequestEnd(q: ConvertClausesRequest): Position
    requires q.clauses != []
  {
    q.clauses[|q.clauses| - 1].end
  }

  /** A well-formed request: the preceding surfaces and the ranges to convert tile an initial part of
      the reading, with no id used twice, and the keyed clause comes first. */
  ghost predicate RequestOk(q: ConvertClausesRequest) {
    && Normalised(q.reading) && |q.reading| <= U32_MAX
    && q.clauses != [] && q.clauses[0].id == q.clauseId
    && PrecedingOk(q.reading, q.preceding, q.clauses[0].start)
    && Tiles(RangesOf(q.clauses), q.clauses[0].start, RequestEnd(q))
    && (forall i :: 0 <= i < |q.clauses| ==> IsLegal(q.reading, q.clauses[i].end))
    && Distinct(PrecedingIds(q.preceding) + IdsOf(q.clauses))
  }

  lemma {:induction false} RangesVerdictMeans(reading: string, clauses: seq<ClauseRange>, cursor: Position,
                                              seen: set<ClauseId>)
    ensures RangesVerdict(reading, clauses, cursor, seen).Ok? <==>
            && Tiles(RangesOf(clauses), cursor, if clauses == [] then cursor else clauses[|clauses| - 1].end)
            && (forall i :: 0 <= i < |clauses| ==> IsLegal(reading, clauses[i].end))
            && Distinct(IdsOf(clauses)) && (forall id | id in IdsOf(clauses) :: id !in seen)
  {
    if clauses != [] {
      var range, rest := clauses[0], clauses[1..];
      assert RangesOf(clauses) == [(range.start as int, range.end as int)] + RangesOf(rest);
      assert IdsOf(clauses) == [range.id] + IdsOf(rest);
      TilesCons((range.start as int, range.end as int), RangesOf(rest), cursor, clauses[|clauses| - 1].end);
      DistinctCons(range.id, IdsOf(rest));
      assert forall i :: 1 <= i < |clauses| ==> clauses[i] == rest[i - 1];
      RangesVerdictMeans(reading, rest, range.end, seen + {range.id});
    }
  }

  /** `ConvertClausesRequest::validate` accepts exactly the well-formed requests. */
  lemma RequestAcceptsExactly(q: ConvertClausesRequest)
    ensures ValidateRequestSpec(q).Ok? <==> RequestOk(q)
  {
    if q.clauses != [] {
      PrecedingAcceptsExactly(q.reading, q.preceding, q.clauses[0].start);
      RangesVerdictMeans(q.reading, q.clauses, q.clauses[0].start, set id | id in PrecedingIds(q.preceding));
      DistinctConcat(PrecedingIds(q.preceding), IdsOf(q.clauses));
    }
  }

  lemma {:induction false} RangesGoOn(reading: string, before: seq<ClauseRange>, rest: seq<ClauseRange>,
                                      cursor: Position, seen: set<ClauseId>)
    requires RangesVerdict(reading, before, cursor, seen).Ok?
    ensures RangesVerdict(reading, before + rest, cursor, seen) ==
              RangesVerdict(reading, rest, if before == [] then cursor else before[|before| - 1].end,
                            seen + set id | id in IdsOf(before))
  {
    if before == [] {
      assert before + rest == rest;
      assert seen + (set id | id in IdsOf(before)) == seen;
    } else {
      var range := before[0];
      assert (before + rest)[1..] == before[1..] + rest;
      assert IdsOf(before) == [range.id] + IdsOf(before[1..]);
      assert seen + {range.id} + (set id | id in IdsOf(before[1..])) == seen + set id | id in IdsOf(before);
      RangesGoOn(reading, before[1..], rest, range.end, seen + {range.id});
    }
  }

  /** A request is refused for having nothing to convert, or else for the surfaces before, or else for its first
      clause. */
  lemma RequestErrors(q: ConvertClausesRequest)
    ensures q.clauses == [] ==> ValidateRequestSpec(q) == Err(Range)
    ensures q.clauses != [] ==>
              var before := ValidatePrecedingSpec(q.reading, q.preceding, q.clauses[0].start);
              && (before.Err? ==> ValidateRequestSpec(q) == before)
              && (before.Ok? && q.clauses[0].id != q.clauseId ==> ValidateRequestSpec(q) == Err(Range))
  {
  }

  /** And then for the first range with an error, after ranges that are in order. */
  lemma {:induction false} RangeErrors(q: ConvertClausesRequest, before: seq<ClauseRange>, range: ClauseRange,
                                       rest: seq<ClauseRange>)
    requires before != [] && RequestOk(q.(clauses := before)) && q.clauses == before + ([range] + rest)
    ensures var seen := PrecedingIds(q.preceding) + IdsOf(before);
            && (range.id in seen ==> ValidateRequestSpec(q) == Err(DuplicateId))
            && (range.id !in seen
                && !(range.start == before[|before| - 1].end < range.end && IsLegal(q.reading, range.end)) ==>
                  ValidateRequestSpec(q) == Err(Range))
  {
    var ids := set id | id in PrecedingIds(q.preceding);
    RequestAcceptsExactly(q.(clauses := before));
    RangesGoOn(q.reading, before, [range] + rest, before[0].start, ids);
    assert q.clauses[0] == before[0];
    assert range.id in PrecedingIds(q.preceding) + IdsOf(before) <==>
           range.id in ids + set id | id in IdsOf(before);
  }

  // ---- conversion results ----

  predicate SameRange(range: ClauseRange, clause: WireClause) {
    range.id == clause.id && range.start == clause.start && range.end == clause.end
  }

  function ValidateResultSpec(q: ConvertClausesRequest, clauses: seq<WireClause>): Verdict {
    var request := ValidateRequestSpec(q);
    if request.Err? then request
    else if |q.clauses| != |clauses| then Err(Range)
    else if exists i | 0 <= i < |clauses| :: !SameRange(q.clauses[i], clauses[i]) then Err(Range)
    else ValidateClausesSpec(q.reading, clauses, q.clauses[0].start, RequestEnd(q), Surfaces(clauses))
  }

  method JoinSurfaces(clauses: seq<WireClause>) returns (text: string)
    ensures text == Surfaces(clauses)
  {
    text := "";
    for i := 0 to |clauses|
      invariant text + Surfaces(clauses[i..]) == Surfaces(clauses)
    {
      ghost var rest := Surfaces(clauses[i + 1..]);
      assert clauses[i..][1..] == clauses[i + 1..];
      assert text + (clauses[i].surface + rest) == text + clauses[i].surface + rest;
      text := text + clauses[i].surface;
    }
    assert text + "" == text;
  }

  method ValidateResult(q: ConvertClausesRequest, clauses: seq<WireClause>) returns (r: Verdict)
    ensures r == ValidateResultSpec(q, clauses)
  {
    var request := ValidateRequest(q);
    if request.Err? {
      return request;
    }
    if |q.clauses| != |clauses| {
      return Err(Range);
    }
    for i := 0 to |clauses|
      invariant forall j :: 0 <= j < i ==> SameRange(q.clauses[j], clauses[j])
    {
      if !SameRange(q.clauses[i], clauses[i]) {
        return Err(Range);
      }
    }
    var text := JoinSurfaces(clauses);
    r := ValidateClauses(q.reading, clauses, q.clauses[0].start, RequestEnd(q), text);
  }

  /** The preceding parts and the converted clauses of an accepted exchange together tile [0, end)
      at legal boundaries, and no id occurs twice in the whole. */
  lemma AcceptedExchangeTiles(q: ConvertClausesRequest, clauses: seq<WireClause>)
    requires ValidateResultSpec(q, clauses).Ok?
    ensures Tiles(PrecedingRanges(q.preceding) + ClauseRanges(clauses), 0, RequestEnd(q))
    ensures Distinct(PrecedingIds(q.preceding) + ClauseIds(clauses))
    ensures forall i :: 0 <= i < |clauses| ==>
              IsLegal(q.reading, clauses[i].start) && IsLegal(q.reading, clauses[i].end)
              && StateOk(q.reading, clauses[i])
  {
    RequestAcceptsExactly(q);
    ValidateAcceptsExactlyTilings(q.reading, clauses, q.clauses[0].start, RequestEnd(q), Surfaces(clauses));
    TilesConcat(PrecedingRanges(q.preceding), ClauseRanges(clauses), 0, q.clauses[0].start, RequestEnd(q));
    assert ClauseIds(clauses) == IdsOf(q.clauses) by {
      assert forall i :: 0 <= i < |clauses| ==> SameRange(q.clauses[i], clauses[i]);
    }
  }

  /** A result is accepted exactly when the request is and the result is a well-formed tiling of the
      requested ranges. */
  lemma ResultAcceptsExactly(q: ConvertClausesRequest, clauses: seq<WireClause>)
    ensures ValidateResultSpec(q, clauses).Ok? <==>
            && RequestOk(q)
            && |q.clauses| == |clauses| && (forall i :: 0 <= i < |clauses| ==> SameRange(q.clauses[i], clauses[i]))
            && (forall i :: 0 <= i < |clauses| ==> StateOk(q.reading, clauses[i]))
  {
    RequestAcceptsExactly(q);
    if RequestOk(q) && |q.clauses| == |clauses|
       && (forall i :: 0 <= i < |clauses| ==> SameRange(q.clauses[i], clauses[i])) {
      ValidateAcceptsExactlyTilings(q.reading, clauses, q.clauses[0].start, RequestEnd(q), Surfaces(clauses));
      assert ClauseRanges(clauses) == RangesOf(q.clauses);
      assert ClauseIds(clauses) == IdsOf(q.clauses);
      DistinctConcat(PrecedingIds(q.preceding), IdsOf(q.clauses));
      LegalStarts(q.reading, clauses, q.clauses[0].start, RequestEnd(q));
    }
  }

  lemma LegalStarts(reading: string, clauses: seq<WireClause>, start: Position, end: Position)
    requires Tiles(ClauseRanges(clauses), start, end) && IsLegal(reading, start)
    requires forall i :: 0 <= i < |clauses| ==> IsLegal(reading, clauses[i].end)
    ensures IsLegal(reading, end)
    ensures forall i :: 0 <= i < |clauses| ==> IsLegal(reading, clauses[i].start)
  {
    var ranges := ClauseRanges(clauses);
    forall i | 0 <= i < |clauses| ensures IsLegal(reading, clauses[i].start) {
      if i > 0 {
        assert ranges[i].0 == ranges[i - 1].1;
      }
    }
  }

  // ---- candidates ----

  datatype ClauseCandidate = ClauseCandidate(surface: string, token: string, start: Position, end: Position)

  datatype ClauseCandidatesRequest = ClauseCandidatesRequest(clauseId: ClauseId, reading: string, start: Position,
                                                             end: Position, preceding: seq<PrecedingSurface>,
                                                             includePrefix: bool)

  function ValidateCandidatesRequestSpec(q: ClauseCandidatesRequest): Verdict {
    var before := ValidatePrecedingSpec(q.reading, q.preceding, q.start);
    if before.Err? then before
    else if q.start >= q.end || !IsLegal(q.reading, q.end) || q.clauseId in PrecedingIds(q.preceding) then Err(Range)
    else Ok(())
  }

  predicate CandidateInRange(q: ClauseCandidatesRequest, c: ClauseCandidate) {
    c.start == q.start && q.start < c.end <= q.end && (q.includePrefix || c.end == q.end) && IsLegal(q.reading, c.end)
  }

  function CandidateFault(q: ClauseCandidatesRequest, c: ClauseCandidate): (r: Option<ClauseValidationError>)
    ensures r.None? <==> CandidateInRange(q, c) && c.surface != "" && c.token != ""
    ensures r == Some(Range) <==> !CandidateInRange(q, c)
    ensures r == Some(Surface) <==> CandidateInRange(q, c) && c.surface == ""
    ensures r == Some(Token) <==> CandidateInRange(q, c) && c.surface != "" && c.token == ""
  {
    if !CandidateInRange(q, c) then Some(Range)
    else if c.surface == "" then Some(Surface)
    else if c.token == "" then Some(Token)
    else None
  }

  function CandidatesVerdict(q: ClauseCandidatesRequest, candidates: seq<ClauseCandidate>): Verdict {
    if candidates == [] then Ok(())
    else
      var fault := CandidateFault(q, candidates[0]);
      if fault.Some? then Err(fault.value) else CandidatesVerdict(q, candidates[1..])
  }

  /** `ClauseCandidatesRequest::validate_candidates` */
  function ValidateCandidatesSpec(q: ClauseCandidatesRequest, candidates: seq<ClauseCandidate>): Verdict {
    if ValidateCandidatesRequestSpec(q).Err? then ValidateCandidatesRequestSpec(q)
    else if candidates == [] then Err(Surface)
    else CandidatesVerdict(q, candidates)
  }

  /** A candidate that can stand for the requested clause, or for an initial part of it when those are asked for. */
  predicate CandidateOk(q: ClauseCandidatesRequest, c: ClauseCandidate) {
    && c.start == q.start < c.end && IsLegal(q.reading, c.end) && c.surface != "" && c.token != ""
    && if q.includePrefix then c.end <= q.end else c.end == q.end
  }

  lemma {:induction false} CandidatesVerdictMeans(q: ClauseCandidatesRequest, candidates: seq<ClauseCandidate>)
    ensures CandidatesVerdict(q, candidates).Ok? <==> forall c | c in candidates :: CandidateFault(q, c).None?
  {
    if candidates != [] {
      CandidatesVerdictMeans(q, candidates[1..]);
      assert forall c | c in candidates :: c == candidates[0] || c in candidates[1..];
    }
  }

  /** Candidates are accepted exactly when the surfaces before are, the clause is a nonempty range at legal positions
      that is not one of those, and there are candidates, each of which can stand for it. */
  lemma CandidatesAcceptExactly(q: ClauseCandidatesRequest, candidates: seq<ClauseCandidate>)
    ensures ValidateCandidatesSpec(q, candidates).Ok? <==>
              && Normalised(q.reading) && |q.reading| <= U32_MAX && PrecedingOk(q.reading, q.preceding, q.start)
              && q.start < q.end && IsLegal(q.reading, q.end) && q.clauseId !in PrecedingIds(q.preceding)
              && candidates != [] && forall c | c in candidates :: CandidateOk(q, c)
  {
    PrecedingAcceptsExactly(q.reading, q.preceding, q.start);
    CandidatesVerdictMeans(q, candidates);
  }

  /** The error of the first candidate with one, after candidates without. */
  lemma {:induction false} CandidateErrors(q: ClauseCandidatesRequest, before: seq<ClauseCandidate>,
                                           c: ClauseCandidate, rest: seq<ClauseCandidate>)
    requires forall b | b in before :: CandidateOk(q, b)
    ensures var (r, inRange) := (CandidatesVerdict(q, before + ([c] + rest)),
                                 CandidateOk(q, c.(surface := "x", token := "x")));
            && (!inRange ==> r == Err(Range))
            && (inRange && c.surface == "" ==> r == Err(Surface))
            && (inRange && c.surface != "" && c.token == "" ==> r == Err(Token))
    decreases |before|
  {
    if before == [] {
      assert before + ([c] + rest) == [c] + rest;
    } else {
      assert (before + ([c] + rest))[1..] == before[1..] + ([c] + rest);
      assert before[0] in before && CandidateFault(q, before[0]).None?;
      CandidateErrors(q, before[1..], c, rest);
    }
  }

  /** A request for candidates is refused for its surfaces, or else for its range; no candidates at all are a missing
      surface. */
  lemma CandidatesRequestErrors(q: ClauseCandidatesRequest, candidates: seq<ClauseCandidate>)
    ensures var before := ValidatePrecedingSpec(q.reading, q.preceding, q.start);
            var inRange := q.start < q.end && IsLegal(q.reading, q.end) && q.clauseId !in PrecedingIds(q.preceding);
            && (before.Err? ==> ValidateCandidatesSpec(q, candidates) == before)
            && (before.Ok? && !inRange ==> ValidateCandidatesSpec(q, candidates) == Err(Range))
            && (before.Ok? && inRange ==> ValidateCandidatesSpec(q, []) == Err(Surface))
  {
  }

  /** An accepted candidate goes on where the surfaces before it end: together they tile an initial part of the
      reading. */
  lemma CandidateTiles(q: ClauseCandidatesRequest, candidates: seq<ClauseCandidate>, c: ClauseCandidate)
    requires ValidateCandidatesSpec(q, candidates).Ok? && c in candidates
    ensures Tiles(PrecedingRanges(q.preceding) + [(c.start as int, c.end as int)], 0, c.end)
  {
    CandidatesAcceptExactly(q, candidates);
    TilesConcat(PrecedingRanges(q.preceding), [(c.start as int, c.end as int)], 0, q.start, c.end);
  }

  method ValidateCandidates(q: ClauseCandidatesRequest, candidates: seq<ClauseCandidate>) returns (r: Verdict)
    ensures r == ValidateCandidatesSpec(q, candidates)
  {
    var before := ValidatePreceding(q.reading, q.preceding, q.start);
    if before.Err? {
      return before;
    }
    var legal := LegalBoundaries(q.reading);
    if q.start >= q.end || q.end !in legal.value || q.clauseId in PrecedingIds(q.preceding) {
      return Err(Range);
    }
    if candidates == [] {
      return Err(Surface);
    }
    for i := 0 to |candidates|
      invariant CandidatesVerdict(q, candidates[i..]) == CandidatesVerdict(q, candidates)
      invariant forall j :: 0 <= j < i ==> CandidateFault(q, candidates[j]).None?
    {
      var c := candidates[i];
      assert candidates[i..][1..] == candidates[i + 1..];
      if c.start != q.start || c.end <= q.start || c.end > q.end || (!q.includePrefix && c.end != q.end)
         || c.end !in legal.value {
        return Err(Range);
      }
      if c.surface == "" {
        return Err(Surface);
      }
      if c.token == "" {
        return Err(Token);
      }
    }
    r := Ok(());
  }

  // ---- whole snapshots ----

  /** `from_reading`: one unconverted clause, or none for the empty reading. */
  function FromReading(reading: string): seq<WireClause>
    requires |reading| <= U32_MAX
  {
    if reading == "" then [] else [WireClause(1, 0, |reading|, ReadingState, reading, None)]
  }

  /** `SnapshotClauseData::validate`: the clauses must tile the whole reading. */
  function ValidateSnapshotSpec(reading: string, clauses: seq<WireClause>, text: string): Verdict {
    if |reading| > U32_MAX then Err(Range) else ValidateClausesSpec(reading, clauses, 0, |reading|, text)
  }

  /** The snapshot of a reading is accepted, with the reading as its text, exactly when the reading
      is normalised. */
  lemma FromReadingIsAccepted(reading: string)
    requires |reading| <= U32_MAX
    ensures ValidateSnapshotSpec(reading, FromReading(reading), reading).Ok? <==> Normalised(reading)
    ensures reading != "" ==> ClauseIds(FromReading(reading)) == [1]
  {
    var clauses := FromReading(reading);
    ValidateAcceptsExactlyTilings(reading, clauses, 0, |reading|, reading);
    if reading != "" {
      assert reading[0..|reading|] == reading;
      assert Surfaces(clauses) == reading + Surfaces(clauses[1..]) == reading;
    }
  }

  // ---- commit receipts ----

  datatype NoLearningReason = AsReading | Invalidated | NotLearningTarget

  datatype IntervalLearning = Candidate(token: string, explicitlySelected: bool) | NoLearning(reason: NoLearningReason)

  datatype CommitInterval = CommitInterval(start: Position, end: Position, surface: string, learning: IntervalLearning)

  type TokenMatches = (string, CommitInterval) -> bool

  function IntervalRanges(intervals: seq<CommitInterval>): (r: seq<(int, int)>)
    ensures |r| == |intervals|
  {
    seq(|intervals|, i requires 0 <= i < |intervals| => (intervals[i].start as int, intervals[i].end as int))
  }

  function IntervalText(intervals: seq<CommitInterval>): string {
    if intervals == [] then "" else intervals[0].surface + IntervalText(intervals[1..])
  }

  /** What an interval may show and learn. */
  predicate LearningOk(reading: string, matches: TokenMatches, v: CommitInterval) {
    && v.surface != ""
    && match v.learning
       case Candidate(token, _) => token != "" && matches(token, v)
       case NoLearning(reason) => reason == AsReading ==> ReadingSlice(reading, v.start, v.end) == Some(v.surface)
  }

  function IntervalFault(reading: string, matches: TokenMatches, v: CommitInterval, cursor: Position)
    : (r: Option<ClauseValidationError>)
    ensures r.None? <==> v.start == cursor < v.end && IsLegal(reading, v.end) && LearningOk(reading, matches, v)
    ensures r == Some(Range) <==> !(v.start == cursor < v.end && IsLegal(reading, v.end))
    ensures r == Some(Token) <==>
              && v.start == cursor < v.end && IsLegal(reading, v.end) && v.surface != ""
              && v.learning.Candidate? && !LearningOk(reading, matches, v)
    ensures r == Some(Surface) <==>
              && v.start == cursor < v.end && IsLegal(reading, v.end)
              && (v.surface == "" || (v.learning.NoLearning? && !LearningOk(reading, matches, v)))
  {
    if v.start != cursor || v.end <= cursor || !IsLegal(reading, v.end) then Some(Range)
    else if v.surface == "" then Some(Surface)
    else
      match v.learning
      case Candidate(token, _) => if token == "" || !matches(token, v) then Some(Token) else None
      case NoLearning(reason) =>
        if reason == AsReading && ReadingSlice(reading, cursor, v.end) != Some(v.surface) then Some(Surface) else None
  }

  function IntervalsVerdict(reading: string, matches: TokenMatches, intervals: seq<CommitInterval>, cursor: Position,
                            surface: string, text: string): Verdict {
    if intervals == [] then
      if cursor != |reading| then Err(Range) else if surface != text then Err(Surface) else Ok(())
    else
      var v := intervals[0];
      var fault := IntervalFault(reading, matches, v, cursor);
      if fault.Some? then Err(fault.value)
      else IntervalsVerdict(reading, matches, intervals[1..], v.end, surface + v.surface, text)
  }

  function ValidateReceiptSpec(reading: string, matches: TokenMatches, intervals: seq<CommitInterval>,
                               text: string): Verdict {
    if !Normalised(reading) then Err(Reading)
    else if |reading| > U32_MAX then Err(Range)
    else IntervalsVerdict(reading, matches, intervals, 0, "", text)
  }

  method ValidateReceipt(reading: string, matches: TokenMatches, intervals: seq<CommitInterval>, text: string)
    returns (r: Verdict)
    ensures r == ValidateReceiptSpec(reading, matches, intervals, text)
  {
    if NormalizeReading(reading) != reading {
      return Err(Reading);
    }
    var legal := LegalBoundaries(reading);
    if legal.Err? {
      return Err(legal.error);
    }
    var boundaries := legal.value;
    var cursor: Position, surface := 0, "";
    for i := 0 to |intervals|
      invariant IntervalsVerdict(reading, matches, intervals[i..], cursor, surface, text)
             == IntervalsVerdict(reading, matches, intervals, 0, "", text)
    {
      var v := intervals[i];
      assert intervals[i..][1..] == intervals[i + 1..];
      if v.start != cursor || v.end <= cursor || v.end !in boundaries {
        return Err(Range);
      }
      if v.surface == "" {
        return Err(Surface);
      }
      match v.learning {
        case Candidate(token, _) =>
          if token == "" || !matches(token, v) {
            return Err(Token);
          }
        case NoLearning(reason) =>
          if reason == AsReading && ReadingSlice(reading, cursor, v.end) != Some(v.surface) {
            return Err(Surface);
          }
      }
      cursor := v.end;
      surface := surface + v.surface;
    }
    if cursor != boundaries[|boundaries| - 1] {
      return Err(Range);
    }
    if surface != text {
      return Err(Surface);
    }
    r := Ok(());
  }

  /** A well-formed receipt: the intervals tile the whole reading and spell the text. */
  ghost predicate ReceiptOk(reading: string, matches: TokenMatches, intervals: seq<CommitInterval>, text: string) {
    && Normalised(reading) && |reading| <= U32_MAX
    && Tiles(IntervalRanges(intervals), 0, |reading|)
    && (forall i :: 0 <= i < |intervals| ==>
        IsLegal(reading, intervals[i].end) && LearningOk(reading, matches, intervals[i]))
    && IntervalText(intervals) == text
  }

  lemma {:induction false} IntervalsVerdictMeans(reading: string, matches: TokenMatches, intervals: seq<CommitInterval>,
                                                 cursor: Position, surface: string, text: string)
    ensures IntervalsVerdict(reading, matches, intervals, cursor, surface, text).Ok? <==>
            && Tiles(IntervalRanges(intervals), cursor, |reading|)
            && (forall i :: 0 <= i < |intervals| ==>
                IsLegal(reading, intervals[i].end) && LearningOk(reading, matches, intervals[i]))
            && surface + IntervalText(intervals) == text
  {
    if intervals == [] {
      assert surface + "" == surface;
    } else {
      var v, rest := intervals[0], intervals[1..];
      assert IntervalRanges(intervals) == [(v.start as int, v.end as int)] + IntervalRanges(rest);
      TilesCons((v.start as int, v.end as int), IntervalRanges(rest), cursor, |reading|);
      assert surface + (v.surface + IntervalText(rest)) == surface + v.surface + IntervalText(rest);
      assert forall i :: 1 <= i < |intervals| ==> intervals[i] == rest[i - 1];
      IntervalsVerdictMeans(reading, matches, rest, v.end, surface + v.surface, text);
    }
  }

  lemma {:induction false} IntervalsGoOn(reading: string, matches: TokenMatches, before: seq<CommitInterval>,
                                         rest: seq<CommitInterval>, cursor: Position, middle: Position,
                                         surface: string, text: string)
    requires Tiles(IntervalRanges(before), cursor, middle)
    requires forall b | b in before :: IsLegal(reading, b.end) && LearningOk(reading, matches, b)
    ensures IntervalsVerdict(reading, matches, before + rest, cursor, surface, text) ==
              IntervalsVerdict(reading, matches, rest, middle, surface + IntervalText(before), text)
    decreases |before|
  {
    if before == [] {
      assert before + rest == rest && surface + "" == surface;
    } else {
      var b := before[0];
      assert (before + rest)[1..] == before[1..] + rest;
      assert IntervalRanges(before) == [(b.start as int, b.end as int)] + IntervalRanges(before[1..]);
      TilesCons((b.start as int, b.end as int), IntervalRanges(before[1..]), cursor, middle);
      IntervalsGoOn(reading, matches, before[1..], rest, b.end, middle, surface + b.surface, text);
      Reassociate(surface, b.surface, IntervalText(before[1..]));
    }
  }

  /** `CommitReceipt::validate` accepts exactly the well-formed receipts. */
  lemma ReceiptAcceptsExactly(reading: string, matches: TokenMatches, intervals: seq<CommitInterval>, text: string)
    ensures ValidateReceiptSpec(reading, matches, intervals, text).Ok? <==> ReceiptOk(reading, matches, intervals, text)
  {
    IntervalsVerdictMeans(reading, matches, intervals, 0, "", text);
    assert "" + IntervalText(intervals) == IntervalText(intervals);
  }

  /** A receipt is refused for its reading, or else for the first interval with an error, after intervals that are in
      order, or else for where its intervals end or what they spell. */
  lemma {:induction false} ReceiptErrors(reading: string, matches: TokenMatches, before: seq<CommitInterval>,
                                         v: CommitInterval, rest: seq<CommitInterval>, end: Position, text: string)
    requires Tiles(IntervalRanges(before), 0, end)
    requires forall b | b in before :: IsLegal(reading, b.end) && LearningOk(reading, matches, b)
    ensures var longer := ValidateReceiptSpec(reading, matches, before + ([v] + rest), text);
            var fault := IntervalFault(reading, matches, v, end);
            && (!Normalised(reading) ==> longer == Err(Reading))
            && (Normalised(reading) && |reading| > U32_MAX ==> longer == Err(Range))
            && (Normalised(reading) && |reading| <= U32_MAX && fault.Some? ==> longer == Err(fault.value))
    ensures Normalised(reading) && |reading| <= U32_MAX ==>
              ValidateReceiptSpec(reading, matches, before, text) ==
                if end != |reading| then Err(Range)
                else if IntervalText(before) != text then Err(Surface)
                else Ok(())
  {
    IntervalsGoOn(reading, matches, before, [v] + rest, 0, end, "", text);
    IntervalsGoOn(reading, matches, before, [], 0, end, "", text);
    assert before + [] == before && "" + IntervalText(before) == IntervalText(before);
  }

  predicate IsReading(v: CommitInterval) {
    v.learning == NoLearning(AsReading)
  }

  /** Each interval shows its slice of the reading. */
  predicate ShowsSlices(reading: string, intervals: seq<CommitInterval>) {
    forall v | v in intervals :: ReadingSlice(reading, v.start, v.end) == Some(v.surface)
  }

  lemma SliceAndRest(reading: string, start: nat, middle: nat)
    requires start <= middle <= |reading|
    ensures reading[start..middle] + reading[middle..] == reading[start..]
  {
  }

  lemma {:induction false} SlicesSpell(reading: string, intervals: seq<CommitInterval>, start: nat)
    requires Tiles(IntervalRanges(intervals), start, |reading|) && ShowsSlices(reading, intervals)
    ensures start <= |reading| && IntervalText(intervals) == reading[start..]
  {
    if intervals != [] {
      var v, rest := intervals[0], intervals[1..];
      assert IntervalRanges(intervals) == [(v.start as int, v.end as int)] + IntervalRanges(rest);
      TilesCons((v.start as int, v.end as int), IntervalRanges(rest), start, |reading|);
      assert v in intervals && ShowsSlices(reading, rest);
      SlicesSpell(reading, rest, v.end);
      assert v.surface == reading[start..v.end];
      SliceAndRest(reading, start, v.end);
    }
  }

  /** A receipt that commits nothing but readings has the reading itself as its text. */
  lemma AllReadingMeansTextIsReading(reading: string, matches: TokenMatches, intervals: seq<CommitInterval>,
                                     text: string)
    requires ValidateReceiptSpec(reading, matches, intervals, text).Ok?
    requires forall i :: 0 <= i < |intervals| ==> IsReading(intervals[i])
    ensures text == reading
  {
    ReceiptAcceptsExactly(reading, matches, intervals, text);
    SlicesSpell(reading, intervals, 0);
    assert reading[0..] == reading;
  }

  function MergedInterval(a: CommitInterval, b: CommitInterval): CommitInterval {
    CommitInterval(a.start, b.end, a.surface + b.surface, a.learning)
  }

  /** Intervals `at` and `at + 1` as one. */
  function Merged(intervals: seq<CommitInterval>, at: nat): seq<CommitInterval>
    requires at + 1 < |intervals|
  {
    intervals[..at] + [MergedInterval(intervals[at], intervals[at + 1])] + intervals[at + 2..]
  }

  lemma {:induction false} IntervalTextConcat(a: seq<CommitInterval>, b: seq<CommitInterval>)
    ensures IntervalText(a + b) == IntervalText(a) + IntervalText(b)
  {
    if a == [] {
      assert a + b == b;
    } else {
      assert (a + b)[1..] == a[1..] + b;
      IntervalTextConcat(a[1..], b);
    }
  }

  lemma SandwichText(front: seq<CommitInterval>, middle: seq<CommitInterval>, back: seq<CommitInterval>)
    ensures IntervalText(front + middle + back) == IntervalText(front) + IntervalText(middle) + IntervalText(back)
  {
    IntervalTextConcat(front + middle, back);
    IntervalTextConcat(front, middle);
  }

  lemma ShortText(a: CommitInterval, b: CommitInterval)
    ensures IntervalText([a]) == a.surface
    ensures IntervalText([a, b]) == a.surface + b.surface
  {
    assert [a, b][1..] == [b];
    assert IntervalText([b]) == b.surface + "" == b.surface;
    assert IntervalText([a]) == a.surface + "" == a.surface;
  }

  lemma MergedAt(intervals: seq<CommitInterval>, at: nat, i: nat)
    requires at + 1 < |intervals| && i < |Merged(intervals, at)|
    ensures |Merged(intervals, at)| == |intervals| - 1
    ensures i < at ==> Merged(intervals, at)[i] == intervals[i]
    ensures i == at ==> Merged(intervals, at)[i] == MergedInterval(intervals[at], intervals[at + 1])
    ensures i > at ==> Merged(intervals, at)[i] == intervals[i + 1]
  {
  }

  lemma MergeTextAround(front: seq<CommitInterval>, a: CommitInterval, b: CommitInterval, back: seq<CommitInterval>)
    ensures IntervalText(front + [MergedInterval(a, b)] + back) == IntervalText(front + [a, b] + back)
  {
    var m := MergedInterval(a, b);
    SandwichText(front, [a, b], back);
    SandwichText(front, [m], back);
    ShortText(a, b);
    ShortText(m, m);
  }

  lemma AroundPair<T>(s: seq<T>, at: nat)
    requires at + 1 < |s|
    ensures s == s[..at] + [s[at], s[at + 1]] + s[at + 2..]
  {
  }

  lemma MergedText(intervals: seq<CommitInterval>, at: nat)
    requires at + 1 < |intervals|
    ensures IntervalText(Merged(intervals, at)) == IntervalText(intervals)
  {
    MergeTextAround(intervals[..at], intervals[at], intervals[at + 1], intervals[at + 2..]);
    AroundPair(intervals, at);
  }

  lemma MergedTiles(intervals: seq<CommitInterval>, at: nat, end: int)
    requires at + 1 < |intervals| && Tiles(IntervalRanges(intervals), 0, end)
    ensures Tiles(IntervalRanges(Merged(intervals, at)), 0, end)
  {
    var before, after := IntervalRanges(intervals), IntervalRanges(Merged(intervals, at));
    assert before[at + 1].0 == before[at].1;
    forall i | 0 <= i < |after|
      ensures after[i].0 == before[if i <= at then i else i + 1].0
      ensures after[i].1 == before[if i < at then i else i + 1].1
    {
      MergedAt(intervals, at, i);
    }
    forall i | 0 < i < |after| ensures after[i].0 == after[i - 1].1 {
      assert before[if i <= at then i else i + 1].0 == before[if i <= at then i - 1 else i].1;
    }
  }

  /** Merging any two adjacent reading intervals keeps a receipt valid, with the same text. */
  lemma MergingReadingsKeepsReceipt(reading: string, matches: TokenMatches, intervals: seq<CommitInterval>,
                                    text: string, at: nat)
    requires ValidateReceiptSpec(reading, matches, intervals, text).Ok?
    requires at + 1 < |intervals| && IsReading(intervals[at]) && IsReading(intervals[at + 1])
    ensures ValidateReceiptSpec(reading, matches, Merged(intervals, at), text).Ok?
  {
    ReceiptAcceptsExactly(reading, matches, intervals, text);
    var a, b := intervals[at], intervals[at + 1];
    var ranges := IntervalRanges(intervals);
    assert ranges[at + 1].0 == ranges[at].1;
    assert reading[a.start..a.end] + reading[b.start..b.end] == reading[a.start..b.end];
    MergedText(intervals, at);
    MergedTiles(intervals, at, |reading|);
    var merged := Merged(intervals, at);
    forall i | 0 <= i < |merged| ensures IsLegal(reading, merged[i].end) && LearningOk(reading, matches, merged[i]) {
      MergedAt(intervals, at, i);
    }
    ReceiptAcceptsExactly(reading, matches, merged, text);
  }
}
