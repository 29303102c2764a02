/** Loading, quarantining and saving the settings file over I/O that can fail. */
module SettingsStore {
  import opened Prelude
  import opened Json
  import opened Backups
  import opened Encoding
  import opened SettingsMerge

  const SETTINGS_SCHEMA_VERSION := 2

  /** The settings fields that loading looks at; `rest` stands for all the others. */
  datatype Settings = Settings(version: u32, paletteLight: string, paletteDark: string, weightPath: string,
                               rest: string)

  /** What serde and the platform provide: parsing to a tree, the version probe, the typed decoders, the
      encoder, the printer, the parser's nesting limit, the number literals that come back exactly when
      printed and parsed, the iteration over an object and the absolute-path test. */
  datatype Serde = Serde(parse: string -> Option<Json>,
                         probe: string -> Option<nat>,
                         decode: string -> Option<Settings>,
                         fromValue: Json -> Option<Settings>,
                         toValue: Settings -> Json,
                         pretty: Json -> string,
                         nesting: nat,
                         exact: string -> bool,
                         fields: map<string, Json> -> seq<(string, Json)>,
                         isAbsolute: string -> bool,
                         defaults: Settings,
                         legacyLight: string,
                         legacyDark: string)

  /** A tree whose known members are those of `settings`. */
  predicate Shows(serde: Serde, settings: Settings, value: Json) {
    Project(serde.toValue(settings), value) == serde.toValue(settings)
  }

  /** What serde promises. Trees within the nesting limit are printed as text that is not blank; with exact
      numbers that text parses back; and decoding it reads the known members only. Parsed texts and encoded
      settings are within the limit. */
  ghost predicate Faithful(serde: Serde) {
    && serde.nesting > 0
    && (forall text: string | serde.parse(text).Some? :: Fits(AnyNumber, serde.parse(text).value, serde.nesting))
    && (forall settings: Settings :: Fits(AnyNumber, serde.toValue(settings), serde.nesting))
    && (forall value: Json | Fits(AnyNumber, value, serde.nesting) :: Trim(serde.pretty(value)) != "")
    && (forall value: Json | Fits(serde.exact, value, serde.nesting) :: serde.parse(serde.pretty(value)) == Some(value))
    && (forall settings: Settings, value: Json
          | Fits(AnyNumber, value, serde.nesting) && Shows(serde, settings, value) ::
          && serde.probe(serde.pretty(value)) == Some(settings.version)
          && serde.decode(serde.pretty(value)) == serde.fromValue(serde.toValue(settings)))
  }

  datatype LoadOutcome =
    | Loaded
    | Missing
    | PermissionDenied
    | IoError
    | NoPath
    | Empty
    | Corrupt
    | CorruptQuarantineFailed
    | UnsupportedVersion

  datatype Load = Load(settings: Settings, outcome: LoadOutcome)

  datatype ReadFault = Reads | Denied | Breaks

  /** How the environment of one operation behaves. */
  datatype Faults = Faults(located: bool, read: ReadFault, renameFails: bool, copyFails: bool, writeFails: bool,
                           stamp: string)

  // ---- values ----

  /** `migrate`: before schema 2 the old default palettes give way to the new ones. */
  function Migrate(serde: Serde, s: Settings): Settings {
    if s.version < SETTINGS_SCHEMA_VERSION then
      s.(paletteLight := if s.paletteLight == serde.legacyLight then serde.defaults.paletteLight else s.paletteLight,
         paletteDark := if s.paletteDark == serde.legacyDark then serde.defaults.paletteDark else s.paletteDark,
         version := SETTINGS_SCHEMA_VERSION)
    else s
  }

  /** `normalize_loaded`: a relative weight path is dropped. */
  function NormalizeLoaded(serde: Serde, s: Settings): Settings {
    if s.weightPath != "" && !serde.isAbsolute(s.weightPath) then s.(weightPath := "") else s
  }

  function Settle(serde: Serde, s: Settings): Settings {
    NormalizeLoaded(serde, Migrate(serde, s))
  }

  /** Settings that loading leaves as they are. */
  predicate Settled(serde: Serde, s: Settings) {
    s.version >= SETTINGS_SCHEMA_VERSION && (s.weightPath == "" || serde.isAbsolute(s.weightPath))
  }

  /** Settling is a projection: its results are exactly the settled values, which it fixes. A palette of an
      older file changes exactly from the old default to the new one, a weight path is dropped exactly when it is
      relative, and other fields do not change. */
  lemma SettleIsProjection(serde: Serde, s: Settings)
    ensures Settled(serde, Settle(serde, s))
    ensures Settle(serde, s) == s <==> Settled(serde, s)
    ensures var (t, older) := (Settle(serde, s), s.version < SETTINGS_SCHEMA_VERSION);
            && t.rest == s.rest && t.version == Max(s.version, SETTINGS_SCHEMA_VERSION)
            && (older && s.paletteLight == serde.legacyLight ==> t.paletteLight == serde.defaults.paletteLight)
            && (!older || s.paletteLight != serde.legacyLight ==> t.paletteLight == s.paletteLight)
            && (older && s.paletteDark == serde.legacyDark ==> t.paletteDark == serde.defaults.paletteDark)
            && (!older || s.paletteDark != serde.legacyDark ==> t.paletteDark == s.paletteDark)
            && t.weightPath == if serde.isAbsolute(s.weightPath) then s.weightPath else ""
  {
  }

  // ---- a newer file, read as far as it goes ----

  /** Take over, one after the other, each known field that keeps the whole decodable. */
  function Accept(serde: Serde, accepted: map<string, Json>, fields: seq<(string, Json)>): map<string, Json>
    decreases |fields|
  {
    if fields == [] then accepted
    else
      var candidate := accepted[fields[0].0 := fields[0].1];
      Accept(serde,
             if fields[0].0 in accepted && serde.fromValue(Object(candidate)).Some? then candidate else accepted,
             fields[1..])
  }

  /** `read_compatible_future_settings` */
  function CompatibleFuture(serde: Serde, text: string): Settings {
    var future := serde.parse(text);
    var known := serde.toValue(serde.defaults);
    if future.None? || !future.value.Object? || !known.Object? then serde.defaults
    else
      match serde.fromValue(Object(Accept(serde, known.members, serde.fields(future.value.members))))
      case Some(s) => Settle(serde, s)
      case None => serde.defaults
  }

  method ReadCompatibleFutureSettings(serde: Serde, text: string) returns (settings: Settings)
    ensures settings == CompatibleFuture(serde, text)
  {
    var future := serde.parse(text);
    var known := serde.toValue(serde.defaults);
    if future.None? || !future.value.Object? || !known.Object? {
      return serde.defaults;
    }
    var fields := serde.fields(future.value.members);
    var accepted := known.members;
    for i := 0 to |fields|
      invariant Accept(serde, accepted, fields[i..]) == Accept(serde, known.members, fields)
    {
      var (field, value) := fields[i];
      assert fields[i..][0] == fields[i] && fields[i..][1..] == fields[i + 1..];
      if field in accepted {
        var candidate := accepted[field := value];
        if serde.fromValue(Object(candidate)).Some? {
          accepted := candidate;
        }
      }
    }
    match serde.fromValue(Object(accepted))
    case Some(s) => settings := Settle(serde, s);
    case None => settings := serde.defaults;
  }

  /** Object iteration visits each member once. */
  predicate Visits(fields: seq<(string, Json)>, members: map<string, Json>) {
    && (forall i, j :: 0 <= i < j < |fields| ==> fields[i].0 != fields[j].0)
    && (forall i | 0 <= i < |fields| :: fields[i].0 in members && members[fields[i].0] == fields[i].1)
    && (forall k | k in members :: exists i :: 0 <= i < |fields| && fields[i].0 == k)
  }

  /** Decoding succeeds exactly when each field alone is acceptable. */
  ghost predicate Fieldwise(serde: Serde, base: map<string, Json>, acceptable: (string, Json) -> bool) {
    && (forall k | k in base :: acceptable(k, base[k]))
    && forall members: map<string, Json> | members.Keys == base.Keys ::
         serde.fromValue(Object(members)).Some? <==> forall k | k in members :: acceptable(k, members[k])
  }

  lemma {:induction false} AcceptTakesEach(serde: Serde, base: map<string, Json>, acceptable: (string, Json) -> bool,
                                           accepted: map<string, Json>, fields: seq<(string, Json)>)
    requires Fieldwise(serde, base, acceptable) && accepted.Keys == base.Keys
    requires forall k | k in accepted :: acceptable(k, accepted[k])
    requires forall i, j :: 0 <= i < j < |fields| ==> fields[i].0 != fields[j].0
    ensures var r := Accept(serde, accepted, fields);
            && r.Keys == base.Keys
            && (forall k | k in r :: acceptable(k, r[k]))
            && (forall k | k in r && (forall i | 0 <= i < |fields| :: fields[i].0 != k) :: r[k] == accepted[k])
            && (forall i | 0 <= i < |fields| && fields[i].0 in r ::
                  r[fields[i].0] == if acceptable(fields[i].0, fields[i].1) then fields[i].1 else accepted[fields[i].0])
    decreases |fields|
  {
    if fields != [] {
      var (field, value) := fields[0];
      var candidate := accepted[field := value];
      if field in accepted {
        assert candidate.Keys == base.Keys;
        assert serde.fromValue(Object(candidate)).Some? <==> acceptable(field, value) by {
          assert forall k | k in candidate && k != field :: candidate[k] == accepted[k];
        }
      }
      var next := if field in accepted && serde.fromValue(Object(candidate)).Some? then candidate else accepted;
      AcceptTakesEach(serde, base, acceptable, next, fields[1..]);
      var r := Accept(serde, accepted, fields);
      assert forall i | 0 <= i < |fields| - 1 :: fields[1..][i] == fields[i + 1];
      forall i | 0 <= i < |fields| && fields[i].0 in r
        ensures r[fields[i].0] == if acceptable(fields[i].0, fields[i].1) then fields[i].1 else accepted[fields[i].0]
      {
        if i > 0 {
          assert fields[1..][i - 1] == fields[i];
        }
      }
    }
  }

  /** Each known field from the file when it is acceptable, and the default otherwise. */
  function Preferred(base: map<string, Json>, future: map<string, Json>, acceptable: (string, Json) -> bool)
    : map<string, Json>
  {
    map k | k in base :: if k in future && acceptable(k, future[k]) then future[k] else base[k]
  }

  lemma AcceptPrefersAt(serde: Serde, base: map<string, Json>, future: map<string, Json>, fields: seq<(string, Json)>,
                        acceptable: (string, Json) -> bool, k: string)
    requires Visits(fields, future) && Fieldwise(serde, base, acceptable) && k in base
    ensures var r := Accept(serde, base, fields);
            k in r && r[k] == Preferred(base, future, acceptable)[k] && acceptable(k, r[k])
  {
    AcceptTakesEach(serde, base, acceptable, base, fields);
    if k in future {
      var i :| 0 <= i < |fields| && fields[i].0 == k;
    }
  }

  lemma AcceptPrefers(serde: Serde, base: map<string, Json>, future: map<string, Json>, fields: seq<(string, Json)>,
                      acceptable: (string, Json) -> bool)
    requires Visits(fields, future) && Fieldwise(serde, base, acceptable)
    ensures Accept(serde, base, fields) == Preferred(base, future, acceptable)
    ensures serde.fromValue(Object(Preferred(base, future, acceptable))).Some?
  {
    var r, preferred := Accept(serde, base, fields), Preferred(base, future, acceptable);
    AcceptTakesEach(serde, base, acceptable, base, fields);
    assert r.Keys == preferred.Keys;
    forall k | k in base ensures r[k] == preferred[k] && acceptable(k, preferred[k]) {
      AcceptPrefersAt(serde, base, future, fields, acceptable, k);
    }
    assert r == preferred;
  }

  /** A newer file is read field by field, whatever the order of its fields. */
  lemma FutureIsReadFieldwise(serde: Serde, text: string, acceptable: (string, Json) -> bool)
    requires serde.parse(text).Some? && serde.parse(text).value.Object? && serde.toValue(serde.defaults).Object?
    requires Visits(serde.fields(serde.parse(text).value.members), serde.parse(text).value.members)
    requires Fieldwise(serde, serde.toValue(serde.defaults).members, acceptable)
    ensures var read := serde.fromValue(Object(Preferred(serde.toValue(serde.defaults).members,
                                                         serde.parse(text).value.members, acceptable)));
            read.Some? && CompatibleFuture(serde, text) == Settle(serde, read.value)
  {
    var future := serde.parse(text).value.members;
    AcceptPrefers(serde, serde.toValue(serde.defaults).members, future, serde.fields(future), acceptable);
  }

  // ---- loading ----

  /** `parse_settings_text`: the version is looked at before the typed decoder. */
  function ParseSettingsText(serde: Serde, text: string): Load {
    if Trim(text) == "" then Load(serde.defaults, Empty)
    else if serde.probe(text).Some? && serde.probe(text).value > SETTINGS_SCHEMA_VERSION then
      Load(CompatibleFuture(serde, text), UnsupportedVersion)
    else
      match serde.decode(text)
      case Some(s) => Load(Settle(serde, s), Loaded)
      case None => Load(serde.defaults, Corrupt)
  }

  /** `read_to_string` with `classify_read_error`. */
  function ReadText(s: Store, f: Faults): Result<string, LoadOutcome> {
    if f.read == Denied then Err(PermissionDenied)
    else if f.read == Breaks then Err(IoError)
    else if s.file.None? then Err(Missing)
    else
      match DecodeUtf8(s.file.value)
      case Some(text) => Ok(text)
      case None => Err(IoError)
  }

  /** `load_reporting_read_only` */
  function ReadOnlySpec(serde: Serde, s: Store, f: Faults): Load {
    if !f.located then Load(serde.defaults, NoPath)
    else
      match ReadText(s, f)
      case Ok(text) => ParseSettingsText(serde, text)
      case Err(outcome) => Load(serde.defaults, outcome)
  }

  /** `load_reporting`: a corrupt file is quarantined. */
  function LoadSpec(serde: Serde, s: Store, f: Faults): (Load, Store) {
    var load := ReadOnlySpec(serde, s, f);
    if load.outcome != Corrupt || s.file.None? then (load, s)
    else
      var (done, s1) := PutAwaySpec(s, s.file.value, f.stamp, f.renameFails, f.copyFails);
      (Load(serde.defaults, if done then Corrupt else CorruptQuarantineFailed), s1)
  }

  predicate MayMutate(outcome: LoadOutcome) {
    outcome == Loaded || outcome == Missing || outcome == Empty || outcome == Corrupt
  }

  // ---- saving ----

  /** The tree that a save starts from. */
  function Destination(serde: Serde, s: Store, f: Faults): Option<Json> {
    if !f.located then None
    else
      match ReadText(s, f)
      case Err(outcome) => if outcome == Missing then Some(Object(map[])) else None
      case Ok(text) =>
        if Trim(text) == "" then Some(Object(map[]))
        else if ParseSettingsText(serde, text).outcome == Loaded then serde.parse(text)
        else None
  }

  /** `save` */
  function SaveSpec(serde: Serde, s: Store, f: Faults, settings: Settings): (bool, Store) {
    match Destination(serde, s, f)
    case None => (false, s)
    case Some(destination) =>
      if f.writeFails then (false, s)
      else (true, s.(file := Some(EncodeUtf8(serde.pretty(MergeKnown(destination, serde.toValue(settings)))))))
  }

  // ---- nothing is lost ----

  /** What the content at the path means. */
  function Meaning(serde: Serde, s: Store): LoadOutcome {
    if s.file.None? then Missing
    else
      match DecodeUtf8(s.file.value)
      case Some(text) => ParseSettingsText(serde, text).outcome
      case None => IoError
  }

  /** Nothing but white space. */
  predicate IsBlank(text: string) {
    forall c | c in text :: IsWhitespace(c)
  }

  /** The version in the text is one that this schema does not know. */
  predicate IsNewer(serde: Serde, text: string) {
    serde.probe(text).Some? && serde.probe(text).value > SETTINGS_SCHEMA_VERSION
  }

  /** What each content means. */
  lemma MeaningExactly(serde: Serde, s: Store)
    requires s.file.Some?
    ensures var (text, m) := (DecodeUtf8(s.file.value), Meaning(serde, s));
            && (m == IoError <==> text.None?)
            && (m == Empty <==> text.Some? && IsBlank(text.value))
            && (m == UnsupportedVersion <==> text.Some? && !IsBlank(text.value) && IsNewer(serde, text.value))
            && (m == Loaded <==> text.Some? && !IsBlank(text.value) && !IsNewer(serde, text.value)
                                 && serde.decode(text.value).Some?)
            && (m == Corrupt <==> text.Some? && !IsBlank(text.value) && !IsNewer(serde, text.value)
                                  && serde.decode(text.value).None?)
  {
    if DecodeUtf8(s.file.value).Some? {
      TrimsAwayExactly(DecodeUtf8(s.file.value).value);
    }
  }

  /** A load reports what the content means, unless the path, the read or the quarantine fails; the defaults stand
      in for whatever was not read. Mutation is allowed exactly when nothing could be lost by it. */
  lemma LoadExactly(serde: Serde, s: Store, f: Faults)
    ensures var (load, m) := (LoadSpec(serde, s, f).0, Meaning(serde, s));
            var stuck := m == Corrupt && f.renameFails && f.copyFails;
            && load.outcome == (if !f.located then NoPath
                                else if f.read == Denied then PermissionDenied
                                else if f.read == Breaks then IoError
                                else if stuck then CorruptQuarantineFailed
                                else m)
            && (load.outcome != Loaded && load.outcome != UnsupportedVersion ==> load.settings == serde.defaults)
            && (load.outcome == Loaded ==>
                  load.settings == Settle(serde, serde.decode(DecodeUtf8(s.file.value).value).value))
            && (load.outcome == UnsupportedVersion ==>
                  load.settings == CompatibleFuture(serde, DecodeUtf8(s.file.value).value))
            && (MayMutate(load.outcome) <==>
                  f.located && f.read == Reads && !stuck && (m == Missing || m == Empty || m == Loaded || m == Corrupt))
  {
  }

  datatype Operation = ReadOnly | LoadReporting | LoadForMutation | Save(settings: Settings)

  datatype Step = Step(faults: Faults, operation: Operation)

  function Perform(serde: Serde, s: Store, step: Step): Store {
    match step.operation
    case ReadOnly => s
    case LoadReporting => LoadSpec(serde, s, step.faults).1
    case LoadForMutation => LoadSpec(serde, s, step.faults).1
    case Save(settings) => SaveSpec(serde, s, step.faults, settings).1
  }

  function Run(serde: Serde, s: Store, steps: seq<Step>): Store
    decreases |steps|
  {
    if steps == [] then s else Run(serde, Perform(serde, s, steps[0]), steps[1..])
  }

  /** A save writes exactly when the path is empty, blank or holds a readable settings object. */
  lemma SaveReplacesOnly(serde: Serde, s: Store, f: Faults, settings: Settings)
    ensures var (saved, s1) := SaveSpec(serde, s, f, settings);
            && (saved <==> f.located && f.read == Reads && !f.writeFails
                           && (|| Meaning(serde, s) == Missing
                               || Meaning(serde, s) == Empty
                               || (Meaning(serde, s) == Loaded && serde.parse(DecodeUtf8(s.file.value).value).Some?)))
            && (!saved ==> s1 == s)
            && s1.backups == s.backups
  {
  }

  /** One operation: backups stay, corrupt content is at the path or in a new backup, and newer or
      unreadable content is at the path. */
  lemma StepLosesNothing(serde: Serde, s: Store, step: Step)
    ensures var s1 := Perform(serde, s, step);
            && KeepsBackups(s, s1)
            && (Meaning(serde, s) == Corrupt ==> s1.file == s.file || PutAside(s, s1))
            && (Meaning(serde, s) == UnsupportedVersion || Meaning(serde, s) == IoError ==> s1.file == s.file)
  {
    match step.operation
    case ReadOnly =>
    case Save(settings) => SaveReplacesOnly(serde, s, step.faults, settings);
    case _ =>
      if s.file.Some? {
        PutAwayKeeps(s, step.faults.stamp, step.faults.renameFails, step.faults.copyFails);
      }
  }

  /** Over any run of loads and saves with arbitrary failures, the same holds for the content that is
      at the path when the run starts. */
  lemma {:induction false} RunLosesNothing(serde: Serde, s: Store, steps: seq<Step>)
    ensures var end := Run(serde, s, steps);
            && KeepsBackups(s, end)
            && (Meaning(serde, s) == Corrupt ==> end.file == s.file || PutAside(s, end))
            && (Meaning(serde, s) == UnsupportedVersion || Meaning(serde, s) == IoError ==> end.file == s.file)
    decreases |steps|
  {
    if steps != [] {
      var s1 := Perform(serde, s, steps[0]);
      var end := Run(serde, s, steps);
      StepLosesNothing(serde, s, steps[0]);
      RunLosesNothing(serde, s1, steps[1..]);
      if Meaning(serde, s) == Corrupt {
        if s1.file == s.file {
          if end.file != s.file {
            var name :| name in end.backups && name !in s1.backups && end.backups[name] == s1.file.value;
            assert name !in s.backups;
          }
        } else {
          PutAsideStays(s, s1, end);
        }
      }
    }
  }

  lemma {:induction false} RunAppend(serde: Serde, s: Store, before: seq<Step>, after: seq<Step>)
    ensures Run(serde, s, before + after) == Run(serde, Run(serde, s, before), after)
    decreases |before|
  {
    if before == [] {
      assert before + after == after;
    } else {
      assert (before + after)[1..] == before[1..] + after;
      RunAppend(serde, Perform(serde, s, before[0]), before[1..], after);
    }
  }

  /** Whatever corrupt or newer content is seen at any point of a run is, at its end, still at the path
      or in a backup made since. */
  lemma SeenContentSurvives(serde: Serde, s: Store, steps: seq<Step>, at: nat)
    requires at <= |steps|
    ensures var seen := Run(serde, s, steps[..at]);
            var end := Run(serde, s, steps);
            && (Meaning(serde, seen) == Corrupt ==> end.file == seen.file || PutAside(seen, end))
            && (Meaning(serde, seen) == UnsupportedVersion ==> end.file == seen.file)
  {
    assert steps[..at] + steps[at..] == steps;
    RunAppend(serde, s, steps[..at], steps[at..]);
    RunLosesNothing(serde, Run(serde, s, steps[..at]), steps[at..]);
  }

  // ---- a save can be read back ----

  /** The tree a save writes, and that it fits and shows the settings. */
  lemma SavedTree(serde: Serde, s: Store, f: Faults, settings: Settings) returns (merged: Json)
    requires Faithful(serde) && SaveSpec(serde, s, f, settings).0
    ensures merged == MergeKnown(Destination(serde, s, f).value, serde.toValue(settings))
    ensures Fits(AnyNumber, merged, serde.nesting) && Shows(serde, settings, merged)
    ensures (&& Fits(serde.exact, Destination(serde, s, f).value, serde.nesting)
             && Fits(serde.exact, serde.toValue(settings), serde.nesting)) ==> Fits(serde.exact, merged, serde.nesting)
    ensures var file := SaveSpec(serde, s, f, settings).1.file;
            file.Some? && DecodeUtf8(file.value) == Some(serde.pretty(merged))
  {
    var destination := Destination(serde, s, f).value;
    merged := MergeKnown(destination, serde.toValue(settings));
    MergeFits(AnyNumber, destination, serde.toValue(settings), serde.nesting);
    MergedShowsKnown(destination, serde.toValue(settings));
    if Fits(serde.exact, destination, serde.nesting) && Fits(serde.exact, serde.toValue(settings), serde.nesting) {
      MergeFits(serde.exact, destination, serde.toValue(settings), serde.nesting);
    }
    Utf8RoundTrip(serde.pretty(merged));
  }

  /** What any save leaves is read back as follows: settings of a newer schema are recognised as such; others
      are settled, and are exactly those saved when they were settled and survive their own encoding; and
      settings whose encoding cannot be decoded leave a corrupt file. */
  lemma SaveThenLoad(serde: Serde, s: Store, f: Faults, settings: Settings, g: Faults)
    requires Faithful(serde) && SaveSpec(serde, s, f, settings).0
    requires g.located && g.read == Reads
    ensures var load := ReadOnlySpec(serde, SaveSpec(serde, s, f, settings).1, g);
            var decoded := serde.fromValue(serde.toValue(settings));
            && (load.outcome == UnsupportedVersion <==> settings.version > SETTINGS_SCHEMA_VERSION)
            && (settings.version <= SETTINGS_SCHEMA_VERSION ==>
                  load == match decoded case Some(t) => Load(Settle(serde, t), Loaded)
                                        case None => Load(serde.defaults, Corrupt))
            && (settings.version <= SETTINGS_SCHEMA_VERSION && decoded == Some(settings) ==>
                  (load.settings == settings <==> Settled(serde, settings)))
  {
    var merged := SavedTree(serde, s, f, settings);
  }

  /** The tree of readable settings; any other file that a save replaces holds no members. */
  function HeldTree(serde: Serde, s: Store): Json {
    if Meaning(serde, s) == Loaded && serde.parse(DecodeUtf8(s.file.value).value).Some? then
      serde.parse(DecodeUtf8(s.file.value).value).value
    else Object(map[])
  }

  lemma SaveStartsFromHeld(serde: Serde, s: Store, f: Faults, settings: Settings)
    requires SaveSpec(serde, s, f, settings).0
    ensures Destination(serde, s, f) == Some(HeldTree(serde, s))
  {
    SaveReplacesOnly(serde, s, f, settings);
  }

  /** A save keeps every member of the file that it does not know, at every depth; its numbers too, as far as
      they survive printing at all. */
  lemma SaveKeepsUnknownMembers(serde: Serde, s: Store, f: Faults, settings: Settings, path: seq<string>)
    requires Faithful(serde) && SaveSpec(serde, s, f, settings).0
    requires Fits(serde.exact, HeldTree(serde, s), serde.nesting)
    requires Fits(serde.exact, serde.toValue(settings), serde.nesting)
    requires Unknown(serde.toValue(settings), path)
    ensures var written := SaveSpec(serde, s, f, settings).1.file.value;
            && DecodeUtf8(written).Some? && serde.parse(DecodeUtf8(written).value).Some?
            && Lookup(serde.parse(DecodeUtf8(written).value).value, path) == Lookup(HeldTree(serde, s), path)
  {
    SaveStartsFromHeld(serde, s, f, settings);
    var merged := SavedTree(serde, s, f, settings);
    UnknownMembersAreKept(HeldTree(serde, s), serde.toValue(settings), path);
  }

  /** A save right after another succeeds exactly when the first left a file that can be read, and then
      leaves the file of the second save alone if its encoding covers the first one's. */
  lemma SecondSaveWinsOnDisk(serde: Serde, s: Store, f: Faults, first: Settings, second: Settings)
    requires Faithful(serde) && SaveSpec(serde, s, f, first).0
    requires Fits(serde.exact, Destination(serde, s, f).value, serde.nesting)
    requires Fits(serde.exact, serde.toValue(first), serde.nesting)
    ensures var (saved, end) := SaveSpec(serde, SaveSpec(serde, s, f, first).1, f, second);
            && (saved <==> first.version <= SETTINGS_SCHEMA_VERSION && serde.fromValue(serde.toValue(first)).Some?)
            && (saved && Covered(serde.toValue(first), serde.toValue(second)) ==>
                  (saved, end) == SaveSpec(serde, s, f, second))
  {
    var merged := SavedTree(serde, s, f, first);
    var s1 := SaveSpec(serde, s, f, first).1;
    SaveThenLoad(serde, s, f, first, f);
    assert ReadText(s1, f) == Ok(serde.pretty(merged));
    if SaveSpec(serde, s1, f, second).0 && Covered(serde.toValue(first), serde.toValue(second)) {
      assert Destination(serde, s1, f) == Some(merged);
      CoveredSecondWins(Destination(serde, s, f).value, serde.toValue(first), serde.toValue(second));
    }
  }

  /** After a load that allows mutation, a save without failures is refused in exactly two cases: the
      file was corrupt and could only be copied, so it is still in the way, or the typed decoder
      accepted a text that is no JSON tree. */
  lemma SaveAfterLoadForMutation(serde: Serde, s: Store, f: Faults, g: Faults, settings: Settings)
    requires MayMutate(LoadSpec(serde, s, f).0.outcome)
    requires g.located && g.read == Reads && !g.writeFails
    ensures var (load, s1) := LoadSpec(serde, s, f);
            SaveSpec(serde, s1, g, settings).0 <==>
              && !(load.outcome == Corrupt && f.renameFails)
              && (load.outcome == Loaded ==> serde.parse(DecodeUtf8(s.file.value).value).Some?)
  {
    var (load, s1) := LoadSpec(serde, s, f);
    SaveReplacesOnly(serde, s1, g, settings);
    if s.file.Some? {
      PutAwayKeeps(s, f.stamp, f.renameFails, f.copyFails);
    }
  }

  /** It happens: the corrupt text `x` that cannot be renamed but copied. */
  lemma CopiedCorruptionBlocksSave(serde: Serde, backups: map<Name, Bytes>, stamp: string, settings: Settings)
    requires serde.probe("x") == None && serde.decode("x") == None
    ensures var s := Store(Some(EncodeUtf8("x")), backups);
            var (load, s1) := LoadSpec(serde, s, Faults(true, Reads, true, false, false, stamp));
            && load == Load(serde.defaults, Corrupt) && MayMutate(load.outcome) && PutAside(s, s1)
            && !SaveSpec(serde, s1, Faults(true, Reads, false, false, false, stamp), settings).0
  {
    var s := Store(Some(EncodeUtf8("x")), backups);
    Utf8RoundTrip("x");
    assert Trim("x") == "x";
    PutAwayKeeps(s, stamp, true, false);
  }

  // ---- the file ----

  class SettingsFile {
    const serde: Serde
    var file: Option<Bytes>
    var backups: map<Name, Bytes>

    function State(): Store
      reads this
    {
      Store(file, backups)
    }

    constructor (serde: Serde, file: Option<Bytes>)
      ensures this.serde == serde && State() == Store(file, map[])
    {
      this.serde := serde;
      this.file := file;
      this.backups := map[];
    }

    method LoadReportingReadOnly(f: Faults) returns (load: Load)
      ensures load == ReadOnlySpec(serde, State(), f)
    {
      if !f.located {
        return Load(serde.defaults, NoPath);
      }
      var text := ReadText(State(), f);
      if text.Err? {
        return Load(serde.defaults, text.error);
      }
      load := ParseSettingsText(serde, text.value);
    }

    method LoadReporting(f: Faults) returns (load: Load)
      modifies this
      ensures (load, State()) == LoadSpec(serde, old(State()), f)
    {
      load := LoadReportingReadOnly(f);
      if load.outcome != Corrupt || file.None? {
        return;
      }
      var destination := QuarantineDestPath(backups, f.stamp);
      if !f.renameFails {
        backups := backups[destination := file.value];
        file := None;
      } else if !f.copyFails {
        backups := backups[destination := file.value];
      } else {
        load := Load(serde.defaults, CorruptQuarantineFailed);
        return;
      }
      load := Load(serde.defaults, Corrupt);
    }

    method LoadForMutation(f: Faults) returns (r: Result<Settings, LoadOutcome>)
      modifies this
      ensures var (load, s1) := LoadSpec(serde, old(State()), f);
              State() == s1 && r == if MayMutate(load.outcome) then Ok(load.settings) else Err(load.outcome)
    {
      var load := LoadReporting(f);
      r := if MayMutate(load.outcome) then Ok(load.settings) else Err(load.outcome);
    }

    method Save(f: Faults, settings: Settings) returns (saved: bool)
      modifies this
      ensures (saved, State()) == SaveSpec(serde, old(State()), f, settings)
    {
      if !f.located {
        return false;
      }
      var text := ReadText(State(), f);
      var destination := Object(map[]);
      if text.Err? && text.error != Missing {
        return false;
      }
      if text.Ok? && Trim(text.value) != "" {
        var load := ParseSettingsText(serde, text.value);
        var parsed := serde.parse(text.value);
        if load.outcome != Loaded || parsed.None? {
          return false;
        }
        destination := parsed.value;
      }
      var merged := MergeKnownFields(destination, serde.toValue(settings));
      if f.writeFails {
        return false;
      }
      file := Some(EncodeUtf8(serde.pretty(merged)));
      saved := true;
    }
  }
}
