/** Serializers that keep the promises asked of serde: the hypotheses on it can be met. Their texts are not
    JSON; all that matters is that they can be read back. */
module PlainSerde {
  import opened Prelude
  import opened Decimal
  import opened Json
  import opened Encoding
  import opened Utf16Detection
  import opened SettingsMerge
  import opened UserDictionary
  import Store = SettingsStore
  import Commands = DictionaryCommands

  // ---- strings ----

  /** Character codes, each closed by a semicolon, and a full stop. */
  function Text(s: string): string {
    if s == "" then "." else ToString(s[0] as int) + [';'] + Text(s[1..])
  }

  lemma NumeralEnds(m: nat, n: nat, x: string, y: string)
    requires ToString(m) + [';'] + x == ToString(n) + [';'] + y
    ensures m == n && x == y
  {
    IndexOfFirst(ToString(m), ';', x);
    IndexOfFirst(ToString(n), ';', y);
    var all := ToString(m) + [';'] + x;
    assert ToString(m) == all[..|ToString(m)|] == all[..|ToString(n)|] == ToString(n);
    DigitsValueOfString(m);
    DigitsValueOfString(n);
    assert x == all[|ToString(m)| + 1..] == y;
  }

  lemma TextHead(s: string)
    ensures Text(s) != "" && (s == "" <==> Text(s)[0] == '.')
  {
    if s != "" {
      assert Text(s)[0] == ToString(s[0] as int)[0];
      assert IsDigit(ToString(s[0] as int)[0]);
    }
  }

  /** A text ends where it says. */
  lemma {:induction false} TextEnds(a: string, b: string, x: string, y: string)
    requires Text(a) + x == Text(b) + y
    ensures a == b && x == y
  {
    var all := Text(a) + x;
    TextHead(a);
    TextHead(b);
    assert all[0] == Text(a)[0] && all[0] == Text(b)[0];
    if a == "" {
      assert x == all[1..] == y;
    } else {
      var m, n := a[0] as int, b[0] as int;
      assert all == ToString(m) + [';'] + (Text(a[1..]) + x);
      assert all == ToString(n) + [';'] + (Text(b[1..]) + y);
      NumeralEnds(m, n, Text(a[1..]) + x, Text(b[1..]) + y);
      TextEnds(a[1..], b[1..], x, y);
      assert a == [a[0]] + a[1..] && b == [b[0]] + b[1..];
    }
  }

  /** No text contains NUL. */
  lemma {:induction false} TextWithoutNul(s: string)
    ensures '\0' !in Text(s)
  {
    if s != "" {
      TextWithoutNul(s[1..]);
    }
  }

  // ---- trees ----

  const NESTING := 100

  /** The keys of an object in some order that depends on the set alone. */
  ghost function KeyList(keys: set<string>): (list: seq<string>)
    ensures forall k :: k in list <==> k in keys
    decreases keys
  {
    if keys == {} then []
    else
      var k :| k in keys;
      [k] + KeyList(keys - {k})
  }

  /** What kind of value comes, and which of the two for booleans. */
  function Kind(v: Json): char {
    match v
    case Null => 'n'
    case Bool(b) => if b then 't' else 'f'
    case Number(_) => 'd'
    case Str(_) => 's'
    case Array(_) => 'a'
    case Object(_) => 'o'
  }

  ghost function Payload(v: Json, depth: nat): string
    requires Fits(AnyNumber, v, depth)
    decreases depth, 0
  {
    match v
    case Number(literal) => Text(literal)
    case Str(text) => Text(text)
    case Array(items) => Items(items, depth - 1)
    case Object(members) => Members(KeyList(members.Keys), members, depth - 1)
    case _ => ""
  }

  ghost function Tree(v: Json, depth: nat): string
    requires Fits(AnyNumber, v, depth)
    decreases depth, 1
  {
    [Kind(v)] + Payload(v, depth)
  }

  ghost function Items(items: seq<Json>, depth: nat): string
    requires forall i | 0 <= i < |items| :: Fits(AnyNumber, items[i], depth)
    decreases depth, |items| + 2
  {
    if items == [] then [']'] else [','] + (Tree(items[0], depth) + Items(items[1..], depth))
  }

  ghost function Members(keys: seq<string>, members: map<string, Json>, depth: nat): string
    requires forall k | k in keys :: k in members && Fits(AnyNumber, members[k], depth)
    decreases depth, |keys| + 2, 1
  {
    if keys == [] then ['}'] else [','] + (Text(keys[0]) + MembersFrom(keys, members, depth))
  }

  /** The value of the first key, and the other members. */
  ghost function MembersFrom(keys: seq<string>, members: map<string, Json>, depth: nat): string
    requires keys != [] && forall k | k in keys :: k in members && Fits(AnyNumber, members[k], depth)
    decreases depth, |keys| + 2, 0
  {
    Tree(members[keys[0]], depth) + Members(keys[1..], members, depth)
  }

  lemma HeadAndTail(c: char, d: char, p: string, q: string, x: string, y: string)
    requires [c] + p + x == [d] + q + y
    ensures c == d && p + x == q + y
  {
    var all := [c] + p + x;
    assert all[0] == c && all[0] == d;
    assert all[1..] == p + x && all[1..] == q + y;
  }

  /** A tree ends where it says. */
  lemma {:induction false} TreeEnds(v: Json, w: Json, depth: nat, x: string, y: string)
    requires Fits(AnyNumber, v, depth) && Fits(AnyNumber, w, depth)
    requires Tree(v, depth) + x == Tree(w, depth) + y
    ensures v == w && x == y
    decreases depth, 1
  {
    HeadAndTail(Kind(v), Kind(w), Payload(v, depth), Payload(w, depth), x, y);
    PayloadEnds(v, w, depth, x, y);
  }

  lemma {:induction false} PayloadEnds(v: Json, w: Json, depth: nat, x: string, y: string)
    requires Fits(AnyNumber, v, depth) && Fits(AnyNumber, w, depth) && Kind(v) == Kind(w)
    requires Payload(v, depth) + x == Payload(w, depth) + y
    ensures v == w && x == y
    decreases depth, 0
  {
    match v
    case Number(a) => TextEnds(a, w.literal, x, y);
    case Str(a) => TextEnds(a, w.text, x, y);
    case Array(items) => ItemsEnd(items, w.items, depth - 1, x, y);
    case Object(members) =>
      MembersEnd(KeyList(members.Keys), KeyList(w.members.Keys), members, w.members, depth - 1, x, y);
      assert members == w.members;
    case _ => assert "" + x == x && "" + y == y;
  }

  lemma {:induction false} ItemsEnd(a: seq<Json>, b: seq<Json>, depth: nat, x: string, y: string)
    requires forall i | 0 <= i < |a| :: Fits(AnyNumber, a[i], depth)
    requires forall i | 0 <= i < |b| :: Fits(AnyNumber, b[i], depth)
    requires Items(a, depth) + x == Items(b, depth) + y
    ensures a == b && x == y
    decreases depth, |a| + 2
  {
    var (headA, tailA) := if a == [] then (']', "") else (',', Tree(a[0], depth) + Items(a[1..], depth));
    var (headB, tailB) := if b == [] then (']', "") else (',', Tree(b[0], depth) + Items(b[1..], depth));
    assert Items(a, depth) == [headA] + tailA && Items(b, depth) == [headB] + tailB;
    HeadAndTail(headA, headB, tailA, tailB, x, y);
    if a == [] {
      assert "" + x == x && "" + y == y;
    } else {
      Reassociate(Tree(a[0], depth), Items(a[1..], depth), x);
      Reassociate(Tree(b[0], depth), Items(b[1..], depth), y);
      TreeEnds(a[0], b[0], depth, Items(a[1..], depth) + x, Items(b[1..], depth) + y);
      ItemsEnd(a[1..], b[1..], depth, x, y);
      assert a == [a[0]] + a[1..] && b == [b[0]] + b[1..];
    }
  }

  lemma {:induction false} MembersEnd(k: seq<string>, l: seq<string>, a: map<string, Json>, b: map<string, Json>,
                                      depth: nat, x: string, y: string)
    requires forall i | i in k :: i in a && Fits(AnyNumber, a[i], depth)
    requires forall i | i in l :: i in b && Fits(AnyNumber, b[i], depth)
    requires Members(k, a, depth) + x == Members(l, b, depth) + y
    ensures k == l && (forall i | i in k :: a[i] == b[i]) && x == y
    decreases depth, |k| + 2
  {
    MembersHead(k, l, a, b, depth, x, y);
    if k != [] {
      FirstMemberEnds(k, l, a, b, depth, x, y);
      MembersEnd(k[1..], l[1..], a, b, depth, x, y);
      assert k == [k[0]] + k[1..] && l == [l[0]] + l[1..];
    }
  }

  lemma MembersHead(k: seq<string>, l: seq<string>, a: map<string, Json>, b: map<string, Json>, depth: nat,
                    x: string, y: string)
    requires forall i | i in k :: i in a && Fits(AnyNumber, a[i], depth)
    requires forall i | i in l :: i in b && Fits(AnyNumber, b[i], depth)
    requires Members(k, a, depth) + x == Members(l, b, depth) + y
    ensures (k == [] <==> l == []) && (k == [] ==> x == y)
    ensures k != [] ==> k[0] == l[0] && MembersFrom(k, a, depth) + x == MembersFrom(l, b, depth) + y
  {
    var (headA, tailA) := if k == [] then ('}', "") else (',', Text(k[0]) + MembersFrom(k, a, depth));
    var (headB, tailB) := if l == [] then ('}', "") else (',', Text(l[0]) + MembersFrom(l, b, depth));
    assert Members(k, a, depth) == [headA] + tailA && Members(l, b, depth) == [headB] + tailB;
    HeadAndTail(headA, headB, tailA, tailB, x, y);
    if k == [] {
      assert "" + x == x && "" + y == y;
    } else {
      Reassociate(Text(k[0]), MembersFrom(k, a, depth), x);
      Reassociate(Text(l[0]), MembersFrom(l, b, depth), y);
      TextEnds(k[0], l[0], MembersFrom(k, a, depth) + x, MembersFrom(l, b, depth) + y);
    }
  }

  lemma {:induction false} FirstMemberEnds(k: seq<string>, l: seq<string>, a: map<string, Json>, b: map<string, Json>,
                                           depth: nat, x: string, y: string)
    requires k != [] && l != []
    requires forall i | i in k :: i in a && Fits(AnyNumber, a[i], depth)
    requires forall i | i in l :: i in b && Fits(AnyNumber, b[i], depth)
    requires MembersFrom(k, a, depth) + x == MembersFrom(l, b, depth) + y
    ensures a[k[0]] == b[l[0]] && Members(k[1..], a, depth) + x == Members(l[1..], b, depth) + y
    decreases depth, 2
  {
    Reassociate(Tree(a[k[0]], depth), Members(k[1..], a, depth), x);
    Reassociate(Tree(b[l[0]], depth), Members(l[1..], b, depth), y);
    TreeEnds(a[k[0]], b[l[0]], depth, Members(k[1..], a, depth) + x, Members(l[1..], b, depth) + y);
  }

  // ---- settings ----

  ghost function Pretty(v: Json): string {
    if Fits(AnyNumber, v, NESTING) then Tree(v, NESTING) else ""
  }

  ghost function Parse(text: string): Option<Json> {
    if v: Json :| Fits(AnyNumber, v, NESTING) && Pretty(v) == text then Some(v) else None
  }

  lemma ParsePretty(v: Json)
    requires Fits(AnyNumber, v, NESTING)
    ensures Parse(Pretty(v)) == Some(v) && Trim(Pretty(v)) != ""
  {
    var w: Json :| Fits(AnyNumber, w, NESTING) && Pretty(w) == Pretty(v) && Parse(Pretty(v)) == Some(w);
    assert Tree(v, NESTING) == Pretty(v) == Pretty(w) == Tree(w, NESTING);
    assert Pretty(v) + "" == Pretty(v);
    TreeEnds(v, w, NESTING, "", "");
    assert Pretty(v)[0] == Kind(v);
    TrimKeepsFirst(Pretty(v));
  }

  function ToValue(s: Store.Settings): Json {
    Object(map["version" := Number(ToString(s.version)), "palette_light" := Str(s.paletteLight),
               "palette_dark" := Str(s.paletteDark), "weight_path" := Str(s.weightPath), "rest" := Str(s.rest)])
  }

  ghost function FromValue(v: Json): Option<Store.Settings> {
    if s: Store.Settings :| Project(ToValue(s), v) == ToValue(s) then Some(s) else None
  }

  lemma ToValueIsInjective(s: Store.Settings, t: Store.Settings)
    requires ToValue(s) == ToValue(t)
    ensures s == t
  {
    var a, b := ToValue(s).members, ToValue(t).members;
    assert a["version"] == b["version"] && a["palette_light"] == b["palette_light"];
    assert a["palette_dark"] == b["palette_dark"] && a["weight_path"] == b["weight_path"] && a["rest"] == b["rest"];
    DigitsValueOfString(s.version);
    DigitsValueOfString(t.version);
  }

  /** A tree shows one settings value at most. */
  lemma ShownOnce(s: Store.Settings, t: Store.Settings, v: Json)
    requires Project(ToValue(s), v) == ToValue(s) && Project(ToValue(t), v) == ToValue(t)
    ensures s == t
  {
    var a, b := ToValue(s).members, ToValue(t).members;
    assert a.Keys == b.Keys;
    forall k | k in a ensures a[k] == b[k] {
      assert Project(a[k], v.members[k]) == Project(ToValue(s), v).members[k];
      assert Project(b[k], v.members[k]) == Project(ToValue(t), v).members[k];
    }
    assert a == b;
    ToValueIsInjective(s, t);
  }

  lemma FromShown(s: Store.Settings, v: Json)
    requires Project(ToValue(s), v) == ToValue(s)
    ensures FromValue(v) == Some(s)
  {
    var t: Store.Settings :| Project(ToValue(t), v) == ToValue(t) && FromValue(v) == Some(t);
    ShownOnce(s, t, v);
  }

  ghost function Decode(text: string): Option<Store.Settings> {
    match Parse(text)
    case Some(v) => FromValue(v)
    case None => None
  }

  ghost function Probe(text: string): Option<nat> {
    match Decode(text)
    case Some(s) => Some(s.version)
    case None => None
  }

  lemma ParsedFits(text: string)
    ensures Parse(text).Some? ==> Fits(AnyNumber, Parse(text).value, NESTING)
  {
  }

  lemma ToValueFits(s: Store.Settings)
    ensures Fits(AnyNumber, ToValue(s), NESTING)
  {
    assert forall k | k in ToValue(s).members :: !ToValue(s).members[k].Array? && !ToValue(s).members[k].Object?;
  }

  lemma DecodePretty(s: Store.Settings, v: Json)
    requires Fits(AnyNumber, v, NESTING) && Project(ToValue(s), v) == ToValue(s)
    ensures Decode(Pretty(v)) == Some(s) && Probe(Pretty(v)) == Some(s.version)
  {
    ParsePretty(v);
    FromShown(s, v);
  }

  lemma EncodingSurvives(s: Store.Settings)
    ensures FromValue(ToValue(s)) == Some(s)
  {
    ProjectSelf(ToValue(s));
    FromShown(s, ToValue(s));
  }

  /** What `SettingsStore` asks of serde can be met, with all numbers exact and every settings value surviving
      its encoding. */
  lemma SettingsSerdeExists(other: Store.Serde) returns (serde: Store.Serde)
    ensures Store.Faithful(serde)
    ensures serde == other.(parse := serde.parse, probe := serde.probe, decode := serde.decode,
                            fromValue := serde.fromValue, toValue := serde.toValue, pretty := serde.pretty,
                            nesting := NESTING, exact := AnyNumber)
    ensures forall s :: serde.fromValue(serde.toValue(s)) == Some(s)
  {
    serde := other.(parse := Parse, probe := Probe, decode := Decode, fromValue := FromValue, toValue := ToValue,
                    pretty := Pretty, nesting := NESTING, exact := AnyNumber);
    forall text: string | serde.parse(text).Some? ensures Fits(AnyNumber, serde.parse(text).value, serde.nesting) {
      ParsedFits(text);
    }
    forall s: Store.Settings
      ensures Fits(AnyNumber, serde.toValue(s), serde.nesting) && serde.fromValue(serde.toValue(s)) == Some(s)
    {
      ToValueFits(s);
      EncodingSurvives(s);
    }
    forall v: Json | Fits(AnyNumber, v, serde.nesting)
      ensures serde.parse(serde.pretty(v)) == Some(v) && Trim(serde.pretty(v)) != ""
    {
      ParsePretty(v);
    }
    forall s: Store.Settings, v: Json | Fits(AnyNumber, v, serde.nesting) && Store.Shows(serde, s, v)
      ensures serde.probe(serde.pretty(v)) == Some(s.version)
      ensures serde.decode(serde.pretty(v)) == serde.fromValue(serde.toValue(s))
    {
      DecodePretty(s, v);
      EncodingSurvives(s);
    }
  }

  // ---- dictionaries ----

  function Pos(pos: Option<string>): string {
    if pos.None? then "" else "s" + pos.value
  }

  function Rows(es: seq<UserDictEntry>): string {
    if es == [] then [']']
    else [','] + (Text(es[0].ruby) + (Text(es[0].word) + (Text(Pos(es[0].pos)) + Rows(es[1..]))))
  }

  function Write(es: seq<UserDictEntry>): string {
    ['['] + Rows(es)
  }

  lemma EntryEnds(e: UserDictEntry, f: UserDictEntry, x: string, y: string)
    requires Text(e.ruby) + (Text(e.word) + (Text(Pos(e.pos)) + x)) ==
        Text(f.ruby) + (Text(f.word) + (Text(Pos(f.pos)) + y))
    ensures e == f && x == y
  {
    TextEnds(e.ruby, f.ruby, Text(e.word) + (Text(Pos(e.pos)) + x), Text(f.word) + (Text(Pos(f.pos)) + y));
    TextEnds(e.word, f.word, Text(Pos(e.pos)) + x, Text(Pos(f.pos)) + y);
    TextEnds(Pos(e.pos), Pos(f.pos), x, y);
    if e.pos.Some? {
      assert Pos(e.pos)[1..] == e.pos.value && Pos(f.pos)[1..] == f.pos.value;
    }
  }

  lemma {:induction false} RowsTellEntries(a: seq<UserDictEntry>, b: seq<UserDictEntry>)
    requires Rows(a) == Rows(b)
    ensures a == b
  {
    assert Rows(a)[0] == Rows(b)[0];
    if a != [] {
      assert Rows(a)[1..] == Rows(b)[1..];
      EntryEnds(a[0], b[0], Rows(a[1..]), Rows(b[1..]));
      RowsTellEntries(a[1..], b[1..]);
      assert a == [a[0]] + a[1..] && b == [b[0]] + b[1..];
    }
  }

  lemma {:induction false} RowsWithoutNul(es: seq<UserDictEntry>)
    ensures '\0' !in Rows(es)
  {
    if es != [] {
      TextWithoutNul(es[0].ruby);
      TextWithoutNul(es[0].word);
      TextWithoutNul(Pos(es[0].pos));
      RowsWithoutNul(es[1..]);
    }
  }

  ghost function Read(text: string): Option<seq<UserDictEntry>> {
    if es: seq<UserDictEntry> :| Write(es) == text then Some(es) else None
  }

  /** What `DictionaryCommands` asks of serde can be met. */
  lemma DictionarySerdeExists() returns (serde: Commands.Serde)
    ensures Commands.Faithful(serde)
  {
    serde := Commands.Using(Write, Read, _ => None);
    forall es: seq<UserDictEntry>
      ensures Read(Write(es)) == Some(es) && '\0' !in Write(es) && Write(es) != "" && Write(es)[0] == '['
    {
      var fs: seq<UserDictEntry> :| Write(fs) == Write(es) && Read(Write(es)) == Some(fs);
      assert Rows(fs) == Write(fs)[1..] && Rows(es) == Write(es)[1..];
      RowsTellEntries(fs, es);
      RowsWithoutNul(es);
    }
  }

  /** Parsers that see containers can keep what encoding detection asks of them. */
  lemma DetectingParserExists() returns (parse: JsonParser)
    ensures ContainersAreDelimited(parse) && RejectsNul(parse) && IsContainer(parse("[]"))
  {
    parse := (t: string) => if '\0' !in t && '[' in t then Some(Array([])) else None;
  }
}
