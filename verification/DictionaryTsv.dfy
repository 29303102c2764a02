/** Google-format TSV: import and export of the dictionary. */
module DictionaryTsv {
  import opened Prelude
  import opened Kana
  import opened UserDictionary
  import opened Encoding
  import opened Utf16Detection
  import opened Sorting
  import opened Utf8Order

  // ---- export ----

  function SortKey(e: UserDictEntry): (string, string) {
    (NormalizeKey(e.ruby), e.word)
  }

  /** The order shared by the export and the dictionary list. */
  predicate EntryLe(a: UserDictEntry, b: UserDictEntry) {
    PairLe(SortKey(a), SortKey(b))
  }

  predicate Exportable(e: UserDictEntry) {
    !HasControlChar(e.ruby) && !HasControlChar(e.word) && !HasControlChar(CanonicalPos(e.pos))
  }

  /** Control-free means that the fields of the entry are: the written part of speech always is. */
  lemma ExportableExactly(e: UserDictEntry)
    ensures Exportable(e) <==> !HasControlChar(e.ruby) && !HasControlChar(e.word)
  {
    CanonicalPosIsStable(e.pos);
    CanonicalNamesArePrintable(CanonicalPos(e.pos));
  }

  function Line(e: UserDictEntry): string {
    e.ruby + "\t" + e.word + "\t" + CanonicalPos(e.pos)
  }

  function Render(entries: seq<UserDictEntry>): string {
    if entries == [] then "" else Line(entries[0]) + "\r\n" + Render(entries[1..])
  }

  /** The entries an export writes, in order. */
  function Exported(entries: seq<UserDictEntry>): seq<UserDictEntry> {
    Filter(Exportable, StableSort(EntryLe, entries))
  }

  datatype ExportOutput = ExportOutput(tsv: string, written: nat, skippedControl: nat)

  lemma {:induction false} RenderSnoc(entries: seq<UserDictEntry>, e: UserDictEntry)
    ensures Render(entries + [e]) == Render(entries) + Line(e) + "\r\n"
  {
    if entries == [] {
      assert [e][1..] == [];
    } else {
      assert (entries + [e])[1..] == entries[1..] + [e];
      RenderSnoc(entries[1..], e);
      var head := Line(entries[0]) + "\r\n";
      assert head + (Render(entries[1..]) + Line(e) + "\r\n") == head + Render(entries[1..]) + Line(e) + "\r\n";
    }
  }

  /** The loop of `to_google_tsv` over the sorted entries. */
  method WriteLines(sorted: seq<UserDictEntry>) returns (out: ExportOutput)
    ensures out.tsv == Render(Filter(Exportable, sorted))
    ensures out.written == |Filter(Exportable, sorted)|
    ensures out.written + out.skippedControl == |sorted|
  {
    var tsv, written, skippedControl := "", 0, 0;
    ghost var kept: seq<UserDictEntry> := [];
    for i := 0 to |sorted|
      invariant kept == Filter(Exportable, sorted[..i])
      invariant tsv == Render(kept) && written == |kept|
      invariant written + skippedControl == i
    {
      var e := sorted[i];
      assert sorted[..i + 1] == sorted[..i] + [e];
      FilterSnoc(Exportable, sorted[..i], e);
      if !Exportable(e) {
        skippedControl := skippedControl + 1;
        continue;
      }
      RenderSnoc(kept, e);
      tsv := tsv + Line(e) + "\r\n";
      written := written + 1;
      kept := kept + [e];
    }
    assert sorted[..|sorted|] == sorted;
    out := ExportOutput(tsv, written, skippedControl);
  }

  method ToGoogleTsv(entries: seq<UserDictEntry>) returns (out: ExportOutput)
    ensures out.tsv == Render(Exported(entries))
    ensures out.written == |Exported(entries)|
    ensures out.written + out.skippedControl == |entries|
  {
    EntryOrder();
    SortSorts(EntryLe, entries);
    out := WriteLines(StableSort(EntryLe, entries));
  }

  lemma EntryOrder()
    ensures TotalPreorder(EntryLe)
  {
    forall a, b ensures EntryLe(a, b) || EntryLe(b, a) {
      PairLeTotal(SortKey(a), SortKey(b));
    }
    forall a, b, c | EntryLe(a, b) && EntryLe(b, c) ensures EntryLe(a, c) {
      PairLeTransitive(SortKey(a), SortKey(b), SortKey(c));
    }
  }

  // ---- import ----

  /** One line: comments, blank lines and lines with a single column are skipped silently. */
  function ParseLine(line: string): Option<UserDictEntry> {
    if line == "" || line[0] == '!' || line[0] == '#' then None
    else
      var cols := SplitOn(line, '\t');
      if |cols| < 2 then None
      else Some(UserDictEntry(cols[0], cols[1], if |cols| > 2 then Some(cols[2]) else None))
  }

  function ParseLines(lines: seq<string>): seq<UserDictEntry> {
    if lines == [] then []
    else
      var row := ParseLine(lines[0]);
      (if row.None? then [] else [row.value]) + ParseLines(lines[1..])
  }

  datatype ParsedTsv = ParsedTsv(rows: seq<UserDictEntry>, hadReplacement: bool)

  function Parsed(parse: JsonParser, bytes: Bytes): ParsedTsv {
    var (text, had) := DecodeBytesLossy(parse, bytes);
    ParsedTsv(ParseLines(Lines(text)), had)
  }

  method ParseTsv(parse: JsonParser, bytes: Bytes) returns (parsed: ParsedTsv)
    ensures parsed == Parsed(parse, bytes)
  {
    var (text, had) := DecodeBytesLossy(parse, bytes);
    var lines := Lines(text);
    var rows: seq<UserDictEntry> := [];
    for i := 0 to |lines|
      invariant rows + ParseLines(lines[i..]) == ParseLines(lines)
    {
      ParseLinesStep(lines[i], lines[i + 1..], rows);
      assert lines[i..] == [lines[i]] + lines[i + 1..];
      var row := ParseLine(lines[i]);
      if row.None? {
        continue;
      }
      rows := rows + [row.value];
    }
    parsed := ParsedTsv(rows, had);
  }

  lemma ParseLinesStep(line: string, rest: seq<string>, rows: seq<UserDictEntry>)
    ensures var row := ParseLine(line);
            rows + ParseLines([line] + rest) == (if row.None? then rows else rows + [row.value]) + ParseLines(rest)
  {
    assert ([line] + rest)[1..] == rest;
  }

  // ---- the round trip ----

  lemma LinesCons(line: string, rest: string)
    requires '\n' !in line
    ensures Lines(line + "\r\n" + rest) == [line] + Lines(rest)
  {
    var s := line + "\r\n" + rest;
    assert s == (line + "\r") + ['\n'] + rest;
    IndexOfFirst(line + "\r", '\n', rest);
    assert s[..|line|] == line;
    assert s[|line| + 2..] == rest;
  }

  lemma NoControl(s: string, c: char)
    requires !HasControlChar(s) && IsControl(c)
    ensures c !in s
  {
  }

  /** The first character of an accepted ruby is a space or kana. */
  lemma FirstOfValidRuby(ruby: string, word: string)
    requires ValidateEntry(ruby, word).Ok?
    ensures ruby != "" && (IsTrimWs(ruby[0]) || IsValidRubyChar(ruby[0]) || IsKana(ruby[0]))
  {
    var trimmed := TrimWs(ruby);
    var shown := ComposeKana(trimmed);
    assert IsValidRubyChar(shown[0]);
    assert trimmed != "";
    TrimStartShape(ruby);
    TrimEndShape(TrimStart(ruby));
    if !IsTrimWs(ruby[0]) {
      assert trimmed[0] == ruby[0];
      if |trimmed| >= 2 && ComposePair(trimmed[0], trimmed[1]).Some? {
        if WithDakuten(ruby[0]).Some? {
          DakutenShape(ruby[0]);
        } else {
          HandakutenShape(ruby[0]);
        }
      }
    }
  }

  lemma FirstIsPlain(ruby: string, word: string)
    requires ValidateEntry(ruby, word).Ok?
    ensures ruby != "" && ruby[0] != '!' && ruby[0] != '#' && ruby[0] != BOM
  {
    FirstOfValidRuby(ruby, word);
  }

  function Canonicalised(e: UserDictEntry): UserDictEntry {
    e.(pos := Some(CanonicalPos(e.pos)))
  }

  lemma ColumnsWithout(e: UserDictEntry, c: char)
    requires Exportable(e) && IsControl(c)
    ensures c !in e.ruby && c !in e.word && c !in CanonicalPos(e.pos)
    ensures c != '\t' ==> c !in Line(e)
  {
    NoControl(e.ruby, c);
    NoControl(e.word, c);
    NoControl(CanonicalPos(e.pos), c);
  }

  lemma SplitThree(a: string, b: string, c: string, separator: char)
    requires separator !in a && separator !in b && separator !in c
    ensures SplitOn(a + [separator] + (b + [separator] + c), separator) == [a, b, c]
  {
    SplitAtFirst(a, separator, b + [separator] + c);
    SplitAtFirst(b, separator, c);
    SplitWithout(c, separator);
  }

  lemma SplitLine(e: UserDictEntry)
    requires Exportable(e)
    ensures SplitOn(Line(e), '\t') == [e.ruby, e.word, CanonicalPos(e.pos)]
  {
    ColumnsWithout(e, '\t');
    SplitThree(e.ruby, e.word, CanonicalPos(e.pos), '\t');
    assert Line(e) == e.ruby + ['\t'] + (e.word + ['\t'] + CanonicalPos(e.pos));
  }

  lemma ParseRenderedLine(e: UserDictEntry)
    requires Exportable(e) && ValidRow(e)
    ensures ParseLine(Line(e)) == Some(Canonicalised(e))
    ensures '\n' !in Line(e) && '\0' !in Line(e) && Line(e) != "" && Line(e)[0] != BOM
  {
    FirstIsPlain(e.ruby, e.word);
    assert Line(e)[0] == e.ruby[0];
    SplitLine(e);
    ColumnsWithout(e, '\n');
    ColumnsWithout(e, '\0');
  }

  /** Lines with their endings. */
  function Joined(lines: seq<string>): string {
    if lines == [] then "" else lines[0] + "\r\n" + Joined(lines[1..])
  }

  lemma {:induction false} RenderIsJoined(entries: seq<UserDictEntry>)
    ensures Render(entries) == Joined(Map(Line, entries))
  {
    if entries != [] {
      RenderIsJoined(entries[1..]);
      assert Map(Line, entries)[1..] == Map(Line, entries[1..]);
    }
  }

  lemma {:induction false} LinesOfJoined(lines: seq<string>)
    requires forall line | line in lines :: '\n' !in line
    ensures Lines(Joined(lines)) == lines
  {
    if lines != [] {
      LinesCons(lines[0], Joined(lines[1..]));
      LinesOfJoined(lines[1..]);
      assert lines == [lines[0]] + lines[1..];
    }
  }

  lemma {:induction false} JoinedWithout(lines: seq<string>, c: char)
    requires c != '\r' && c != '\n' && forall line | line in lines :: c !in line
    ensures c !in Joined(lines)
  {
    if lines != [] {
      JoinedWithout(lines[1..], c);
    }
  }

  lemma {:induction false} ParseEachLine(lines: seq<string>, rows: seq<UserDictEntry>)
    requires |lines| == |rows| && forall i | 0 <= i < |lines| :: ParseLine(lines[i]) == Some(rows[i])
    ensures ParseLines(lines) == rows
  {
    if lines != [] {
      ParseEachLine(lines[1..], rows[1..]);
      assert rows == [rows[0]] + rows[1..];
    }
  }

  lemma ParseRendered(entries: seq<UserDictEntry>)
    requires forall e | e in entries :: Exportable(e) && ValidRow(e)
    ensures ParseLines(Lines(Render(entries))) == Map(Canonicalised, entries)
    ensures '\0' !in Render(entries)
    ensures Render(entries) == "" || Render(entries)[0] != BOM
  {
    var lines := Map(Line, entries);
    forall i | 0 <= i < |lines|
      ensures '\n' !in lines[i] && '\0' !in lines[i] && lines[i] != "" && lines[i][0] != BOM
      ensures ParseLine(lines[i]) == Some(Map(Canonicalised, entries)[i])
    {
      ParseRenderedLine(entries[i]);
    }
    RenderIsJoined(entries);
    LinesOfJoined(lines);
    JoinedWithout(lines, '\0');
    ParseEachLine(lines, Map(Canonicalised, entries));
  }

  /** Importing what was exported gives back exactly the entries without control characters, in
      export order, with canonical parts of speech, and reports no damage. */
  lemma ExportThenImport(parse: JsonParser, entries: seq<UserDictEntry>)
    requires ContainersAreDelimited(parse)
    requires forall e | e in entries :: ValidRow(e)
    ensures Parsed(parse, EncodeUtf8(Render(Exported(entries)))) ==
            ParsedTsv(Map(Canonicalised, Exported(entries)), false)
  {
    EntryOrder();
    SortSorts(EntryLe, entries);
    FilterKeepsSorted(EntryLe, Exportable, StableSort(EntryLe, entries));
    forall e | e in Exported(entries) ensures Exportable(e) && ValidRow(e) {
      assert e in multiset(StableSort(EntryLe, entries));
    }
    ParseRendered(Exported(entries));
    Utf8TextIsReadBack(parse, Render(Exported(entries)));
  }

  // ---- what import accepts ----

  /** The columns with a separator between each two. */
  function JoinedBy(cols: seq<string>, separator: char): string
    requires cols != []
  {
    if |cols| == 1 then cols[0] else cols[0] + [separator] + JoinedBy(cols[1..], separator)
  }

  lemma {:induction false} SplitUndoesJoin(cols: seq<string>, separator: char)
    requires cols != [] && forall col | col in cols :: separator !in col
    ensures SplitOn(JoinedBy(cols, separator), separator) == cols
  {
    if |cols| == 1 {
      SplitWithout(cols[0], separator);
      assert [cols[0]] == cols;
    } else {
      SplitAtFirst(cols[0], separator, JoinedBy(cols[1..], separator));
      SplitUndoesJoin(cols[1..], separator);
      assert [cols[0]] + cols[1..] == cols;
    }
  }

  lemma {:induction false} JoinUndoesSplit(s: string, separator: char)
    ensures JoinedBy(SplitOn(s, separator), separator) == s
    ensures forall col | col in SplitOn(s, separator) :: separator !in col
  {
    if s != "" {
      JoinUndoesSplit(s[1..], separator);
      var rest := SplitOn(s[1..], separator);
      if s[0] == separator {
        assert ([[]] + rest)[1..] == rest;
        assert [] + [separator] + s[1..] == s;
      } else {
        var cols := [[s[0]] + rest[0]] + rest[1..];
        assert SplitOn(s, separator) == cols && cols[1..] == rest[1..];
        assert rest[0] in rest;
        if |rest| > 1 {
          Reassociate([s[0]], rest[0] + [separator], JoinedBy(rest[1..], separator));
          Reassociate([s[0]], rest[0], [separator]);
        }
        assert [s[0]] + s[1..] == s;
      }
    }
  }

  /** A line of columns becomes an entry exactly when it has at least two of them and does not start like a comment;
      columns after the third are ignored. Every line is one of columns. */
  lemma ParseLineExactly(cols: seq<string>)
    requires cols != [] && forall col | col in cols :: '\t' !in col
    ensures var (line, row) := (JoinedBy(cols, '\t'), ParseLine(JoinedBy(cols, '\t')));
            && (row.Some? <==> |cols| >= 2 && line[0] != '!' && line[0] != '#')
            && (row.Some? ==> row.value.ruby == cols[0] && row.value.word == cols[1])
            && (row.Some? ==> row.value.pos == if |cols| >= 3 then Some(cols[2]) else None)
  {
    SplitUndoesJoin(cols, '\t');
  }

  /** A line with its ending. */
  datatype Ended = Ended(line: string, crlf: bool)

  predicate IsLine(e: Ended) {
    '\n' !in e.line && (!e.crlf && e.line != "" ==> e.line[|e.line| - 1] != '\r')
  }

  function Text(lines: seq<Ended>, last: string): string {
    if lines == [] then last
    else lines[0].line + (if lines[0].crlf then "\r\n" else "\n") + Text(lines[1..], last)
  }

  lemma LinesConsLf(line: string, rest: string)
    requires IsLine(Ended(line, false))
    ensures Lines(line + "\n" + rest) == [line] + Lines(rest)
  {
    var s := line + ['\n'] + rest;
    assert s == line + "\n" + rest;
    IndexOfFirst(line, '\n', rest);
    assert s[..|line|] == line;
    assert s[|line| + 1..] == rest;
  }

  lemma LinesOfLast(last: string)
    requires '\n' !in last
    ensures Lines(last) == if last == "" then [] else [last]
  {
    var end := IndexOf(last, '\n');
    assert end == |last|;
  }

  function Bare(lines: seq<Ended>): seq<string> {
    if lines == [] then [] else [lines[0].line] + Bare(lines[1..])
  }

  /** Lines end with LF or CR LF, whichever each of them has, and the last one may have no ending. */
  lemma {:induction false} LinesExactly(lines: seq<Ended>, last: string)
    requires '\n' !in last && forall e | e in lines :: IsLine(e)
    ensures Lines(Text(lines, last)) == Bare(lines) + if last == "" then [] else [last]
  {
    if lines == [] {
      LinesOfLast(last);
    } else {
      var rest := Text(lines[1..], last);
      assert lines[0] in lines && IsLine(lines[0]);
      if lines[0].crlf {
        LinesCons(lines[0].line, rest);
      } else {
        LinesConsLf(lines[0].line, rest);
      }
      LinesExactly(lines[1..], last);
    }
  }

  // ---- what export writes ----

  lemma {:induction false} FilterCounts(p: UserDictEntry -> bool, s: seq<UserDictEntry>, e: UserDictEntry)
    ensures multiset(Filter(p, s))[e] == if p(e) then multiset(s)[e] else 0
  {
    if s != [] {
      FilterCounts(p, s[1..], e);
      assert s == [s[0]] + s[1..];
    }
  }

  /** An export writes each entry without control characters as often as it is there, and no other, ordered by key
      and then by word; strings compare as their UTF-8 bytes. */
  lemma ExportedExactly(entries: seq<UserDictEntry>)
    ensures forall e :: multiset(Exported(entries))[e] ==
                        if HasControlChar(e.ruby) || HasControlChar(e.word) then 0 else multiset(entries)[e]
    ensures forall i, j | 0 <= i < j < |Exported(entries)| ::
              InExportOrder(Exported(entries)[i], Exported(entries)[j])
  {
    EntryOrder();
    SortSorts(EntryLe, entries);
    forall e ensures multiset(Exported(entries))[e] ==
                     if HasControlChar(e.ruby) || HasControlChar(e.word) then 0 else multiset(entries)[e]
    {
      FilterCounts(Exportable, StableSort(EntryLe, entries), e);
      ExportableExactly(e);
    }
    FilterKeepsSorted(EntryLe, Exportable, StableSort(EntryLe, entries));
    forall i, j | 0 <= i < j < |Exported(entries)| ensures InExportOrder(Exported(entries)[i], Exported(entries)[j]) {
      var (a, b) := (Exported(entries)[i], Exported(entries)[j]);
      assert EntryLe(a, b);
      StringLeIsByteOrder(NormalizeKey(a.ruby), NormalizeKey(b.ruby));
      StringLeIsByteOrder(a.word, b.word);
      StringLeTotal(NormalizeKey(a.ruby), NormalizeKey(b.ruby));
    }
  }

  predicate InExportOrder(a: UserDictEntry, b: UserDictEntry) {
    && BytesLe(EncodeUtf8(NormalizeKey(a.ruby)), EncodeUtf8(NormalizeKey(b.ruby)))
    && (NormalizeKey(a.ruby) == NormalizeKey(b.ruby) ==> BytesLe(EncodeUtf8(a.word), EncodeUtf8(b.word)))
  }

  // ---- every encoding of a text ----

  /** The same text gives the same rows as UTF-8, as UTF-16 with a mark, and as UTF-16 without one when it can be
      told by its structure. */
  lemma EncodingsAgree(parse: JsonParser, s: string, le: bool)
    requires ContainersAreDelimited(parse) && RejectsNul(parse)
    requires LooksLikeDictionary(parse, s) && HasLowInside(s, le) && NoLookalikes(s)
    requires !Marked(EncodeUtf16(s, le)) && |EncodeUtf16(s, le)| <= PENALTY_FITS
    ensures Parsed(parse, EncodeUtf16(s, le)) == ParsedTsv(ParseLines(Lines(s)), false)
    ensures Parsed(parse, EncodeUtf16([BOM] + s, le)) == ParsedTsv(ParseLines(Lines(s)), false)
    ensures Parsed(parse, EncodeUtf8(s)) == ParsedTsv(ParseLines(Lines(s)), false)
  {
    UnmarkedUtf16IsReadBack(parse, s, le);
    MarkedUtf16IsReadBack(parse, s, le);
    NoNulToTrim(s);
    Utf8TextIsReadBack(parse, s);
    UnmarkedHasNoBom(s, le);
  }

  lemma {:induction false} RenderCanonicalised(entries: seq<UserDictEntry>)
    ensures Render(Map(Canonicalised, entries)) == Render(entries)
  {
    if entries != [] {
      RenderCanonicalised(entries[1..]);
      CanonicalPosIsStable(entries[0].pos);
      assert Map(Canonicalised, entries)[1..] == Map(Canonicalised, entries[1..]);
    }
  }

  lemma {:induction false} FilterKeepsAll(p: UserDictEntry -> bool, s: seq<UserDictEntry>)
    requires forall e | e in s :: p(e)
    ensures Filter(p, s) == s
  {
    if s != [] {
      FilterKeepsAll(p, s[1..]);
    }
  }

  /** Exporting the imported rows again is byte-identical. */
  lemma ExportIsAFixedPoint(entries: seq<UserDictEntry>)
    ensures var rows := Map(Canonicalised, Exported(entries));
            Exported(rows) == rows && Render(Exported(rows)) == Render(Exported(entries))
  {
    var kept := Exported(entries);
    var rows := Map(Canonicalised, kept);
    EntryOrder();
    SortSorts(EntryLe, entries);
    FilterKeepsSorted(EntryLe, Exportable, StableSort(EntryLe, entries));
    assert Sorted(EntryLe, rows) by {
      forall i, j | 0 <= i < j < |rows| ensures EntryLe(rows[i], rows[j]) {
        assert EntryLe(kept[i], kept[j]);
      }
    }
    SortFixesSorted(EntryLe, rows);
    forall e | e in rows ensures Exportable(e) {
      var i :| 0 <= i < |rows| && rows[i] == e;
      assert kept[i] in kept;
      CanonicalPosIsStable(kept[i].pos);
    }
    FilterKeepsAll(Exportable, rows);
    RenderCanonicalised(kept);
  }
}
