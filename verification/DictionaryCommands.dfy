/** The dictionary commands over a file that can fail: they refine a finite map from entry keys. */
module DictionaryCommands {
  import opened Prelude
  import opened Backups
  import opened KeyedList
  import opened UserDictionary
  import opened Encoding
  import opened Sorting
  import opened DictionaryTsv

  datatype Contents = Blank | Entries(entries: seq<UserDictEntry>) | Corrupt

  /** The serializer of the dictionary file, the JSON parser that encoding detection uses, and what they
      make of the bytes at the dictionary path. */
  datatype Serde = Serde(write: seq<UserDictEntry> -> string,
                         parse: string -> Option<seq<UserDictEntry>>,
                         json: JsonParser,
                         classify: Bytes -> Contents)

  /** What the bytes at the dictionary path mean. */
  function Classify(parse: string -> Option<seq<UserDictEntry>>, json: JsonParser, bytes: Bytes): Contents {
    if bytes == [] then Blank
    else
      match DecodeBytes(json, bytes)
      case None => Corrupt
      case Some(text) =>
        if Trim(text) == "" then Blank
        else
          match parse(text)
          case None => Corrupt
          case Some(es) => Entries(es)
  }

  function Using(write: seq<UserDictEntry> -> string, parse: string -> Option<seq<UserDictEntry>>,
                 json: JsonParser): Serde {
    Serde(write, parse, json, bytes => Classify(parse, json, bytes))
  }

  /** What serde promises: a printed list is a JSON array without NUL that parses back. */
  ghost predicate Faithful(serde: Serde) {
    && serde == Using(serde.write, serde.parse, serde.json)
    && ContainersAreDelimited(serde.json)
    && forall es: seq<UserDictEntry> ::
         var text := serde.write(es);
         serde.parse(text) == Some(es) && '\0' !in text && text != "" && text[0] == '['
  }

  /** How the I/O of one command ends. */
  datatype Faults = Faults(readFails: bool, renameFails: bool, copyFails: bool, saveFails: bool, stamp: string)

  datatype DictCmdError =
    | NotFound
    | Duplicate
    | Invalid(field: string)
    | Unreadable
    | QuarantineFailed
    | Io

  predicate IsCorrupt(serde: Serde, s: Store) {
    s.file.Some? && serde.classify(s.file.value) == Corrupt
  }

  /** The entries a load finds. */
  function Stored(serde: Serde, s: Store): seq<UserDictEntry> {
    if s.file.None? then []
    else
      match serde.classify(s.file.value)
      case Entries(es) => FirstOccurrences(EntryKey, es)
      case _ => []
  }

  /** The finite map the dictionary file stands for. */
  function Dict(serde: Serde, s: Store): map<Key, UserDictEntry> {
    AsMap(EntryKey, Stored(serde, s))
  }

  /** How many entries of the file repeat an earlier key. */
  function Deduped(serde: Serde, s: Store): nat {
    if s.file.Some? && serde.classify(s.file.value).Entries? then
      var es := serde.classify(s.file.value).entries;
      DedupProperties(EntryKey, es);
      |es| - |FirstOccurrences(EntryKey, es)|
    else 0
  }

  // ---- loading ----

  function QuarantineSpec(s: Store, bytes: Bytes, f: Faults): (Result<seq<UserDictEntry>, DictCmdError>, Store) {
    var (done, s1) := PutAwaySpec(s, bytes, f.stamp, f.renameFails, f.copyFails);
    (if done then Ok([]) else Err(QuarantineFailed), s1)
  }

  function LoadSpec(serde: Serde, s: Store, f: Faults): (Result<seq<UserDictEntry>, DictCmdError>, Store) {
    if f.readFails then (Err(Unreadable), s)
    else if IsCorrupt(serde, s) then QuarantineSpec(s, s.file.value, f)
    else (Ok(Stored(serde, s)), s)
  }

  function SaveSpec(serde: Serde, s: Store, f: Faults, entries: seq<UserDictEntry>): (Result<(), DictCmdError>, Store) {
    if f.saveFails then (Err(Io), s) else (Ok(()), s.(file := Some(EncodeUtf8(serde.write(entries)))))
  }

  /** `invalid_field`: the ruby alone decides which field is blamed. */
  function InvalidField(ruby: string): string {
    if ValidateEntry(ruby, "x").Err? then "ruby" else "word"
  }

  /** The entries in the file, before repetitions are dropped. */
  function Read(serde: Serde, s: Store): seq<UserDictEntry> {
    if s.file.Some? && serde.classify(s.file.value).Entries? then serde.classify(s.file.value).entries else []
  }

  /** The map holds exactly the stored entries, each under its own key; the others in the file are repetitions. */
  lemma DictHoldsStored(serde: Serde, s: Store)
    ensures Dict(serde, s).Keys == Keys(EntryKey, Stored(serde, s))
    ensures forall e | e in Stored(serde, s) :: EntryKey(e) in Dict(serde, s) && Dict(serde, s)[EntryKey(e)] == e
    ensures |Dict(serde, s)| == |Stored(serde, s)|
    ensures |Stored(serde, s)| + Deduped(serde, s) == |Read(serde, s)|
  {
    var entries := Stored(serde, s);
    StoredIsDistinct(serde, s);
    AsMapKeys(EntryKey, entries);
    AsMapSize(EntryKey, entries);
    forall e | e in entries ensures EntryKey(e) in Dict(serde, s) && Dict(serde, s)[EntryKey(e)] == e {
      var i :| 0 <= i < |entries| && entries[i] == e;
      AsMapAt(EntryKey, entries, i);
    }
  }

  // ---- commands ----

  datatype Command =
    | Add(ruby: string, word: string, pos: string)
    | Update(oldRuby: string, oldWord: string, ruby: string, word: string, pos: string)
    | Delete(ruby: string, word: string)
    | Import(bytes: Bytes)
    | List

  /** The map operation of a command; `None` when the command does not apply to the map. */
  function MapOp(serde: Serde, m: map<Key, UserDictEntry>, command: Command): Option<map<Key, UserDictEntry>> {
    match command
    case Add(ruby, word, pos) =>
      var e := UserDictEntry(ruby, word, Some(pos));
      if !ValidRow(e) || EntryKey(e) in m then None else Some(m[EntryKey(e) := e])
    case Update(oldRuby, oldWord, ruby, word, pos) =>
      var e := UserDictEntry(ruby, word, Some(pos));
      var oldKey := (Kana.NormalizeKey(oldRuby), Kana.NormalizeWord(oldWord));
      if !ValidRow(e) || oldKey !in m || (EntryKey(e) != oldKey && EntryKey(e) in m) then None
      else Some((m - {oldKey})[EntryKey(e) := e])
    case Delete(ruby, word) =>
      var key := (Kana.NormalizeKey(ruby), Kana.NormalizeWord(word));
      if key !in m then None else Some(m - {key})
    case Import(bytes) => Some(MergeRows(EntryKey, ValidRow, m, Parsed(serde.json, bytes).rows))
    case List => Some(m)
  }

  function OldKey(ruby: string, word: string): Key {
    EntryKey(UserDictEntry(ruby, word, None))
  }

  /** The list edit of a command on the loaded entries. */
  function Edit(serde: Serde, entries: seq<UserDictEntry>, command: Command): Result<seq<UserDictEntry>, DictCmdError> {
    match command
    case Add(ruby, word, pos) =>
      var e := UserDictEntry(ruby, word, Some(pos));
      if Position(EntryKey, entries, EntryKey(e)).Some? then Err(Duplicate) else Ok(entries + [e])
    case Update(oldRuby, oldWord, ruby, word, pos) =>
      var e := UserDictEntry(ruby, word, Some(pos));
      var at := Position(EntryKey, entries, OldKey(oldRuby, oldWord));
      if at.None? then Err(NotFound)
      else if OtherHasKey(EntryKey, entries, at.value, EntryKey(e)) then Err(Duplicate)
      else Ok(entries[at.value := e])
    case Delete(ruby, word) =>
      var at := Position(EntryKey, entries, OldKey(ruby, word));
      if at.None? then Err(NotFound) else Ok(RemoveAt(entries, at.value))
    case Import(bytes) => Ok(entries + NewRows(EntryKey, ValidRow, entries, Parsed(serde.json, bytes).rows))
    case List => Ok(entries)
  }

  /** The check before the file is touched. */
  function Precheck(command: Command): Option<DictCmdError> {
    match command
    case Add(ruby, word, _) => if ValidateEntry(ruby, word).Err? then Some(Invalid(InvalidField(ruby))) else None
    case Update(_, _, ruby, word, _) =>
      if ValidateEntry(ruby, word).Err? then Some(Invalid(InvalidField(ruby))) else None
    case _ => None
  }

  /** The edit-and-save half of a command, on the entries a load found. */
  function Finish(serde: Serde, s: Store, f: Faults, entries: seq<UserDictEntry>, command: Command)
    : (Result<(), DictCmdError>, Store)
  {
    match Edit(serde, entries, command)
    case Err(error) => (Err(error), s)
    case Ok(edited) => SaveSpec(serde, s, f, edited)
  }

  /** A command from start to end: check, load (perhaps quarantining), edit, save. */
  function Execute(serde: Serde, s: Store, f: Faults, command: Command): (Result<(), DictCmdError>, Store) {
    if Precheck(command).Some? then (Err(Precheck(command).value), s)
    else
      var (loaded, s1) := LoadSpec(serde, s, f);
      if command == List then (if loaded == Err(Unreadable) then Err(Unreadable) else Ok(()), s1)
      else if loaded.Err? then (Err(loaded.error), s1)
      else Finish(serde, s1, f, loaded.value, command)
  }

  // ---- the edits are map operations ----

  /** On lists with distinct keys an edit succeeds exactly when the map operation applies, performs
      it, and keeps the keys distinct. */
  lemma EditIsMapOp(serde: Serde, entries: seq<UserDictEntry>, command: Command)
    requires KeysDistinct(EntryKey, entries) && Precheck(command).None?
    ensures var m := AsMap(EntryKey, entries);
            var r := Edit(serde, entries, command);
            && (r.Ok? <==> MapOp(serde, m, command).Some?)
            && (r.Ok? ==> AsMap(EntryKey, r.value) == MapOp(serde, m, command).value && KeysDistinct(EntryKey, r.value))
            && (r.Err? ==> r.error == NotFound || r.error == Duplicate)
  {
    match command
    case Add(ruby, word, pos) => AddIsMapOp(serde, entries, command);
    case Update(oldRuby, oldWord, ruby, word, pos) => UpdateIsMapOp(serde, entries, command);
    case Delete(ruby, word) => DeleteIsMapOp(serde, entries, command);
    case Import(bytes) =>
      var rows := Parsed(serde.json, bytes).rows;
      ImportIsMapMerge(EntryKey, ValidRow, entries, rows);
      ImportKeepsKeysDistinct(EntryKey, ValidRow, entries, rows);
    case List =>
  }

  lemma AddIsMapOp(serde: Serde, entries: seq<UserDictEntry>, command: Command)
    requires KeysDistinct(EntryKey, entries) && command.Add? && Precheck(command).None?
    ensures var m := AsMap(EntryKey, entries);
            var r := Edit(serde, entries, command);
            && (r.Ok? <==> MapOp(serde, m, command).Some?)
            && (r.Ok? ==> AsMap(EntryKey, r.value) == MapOp(serde, m, command).value && KeysDistinct(EntryKey, r.value))
            && (r.Err? ==> r.error == Duplicate)
  {
    var e := UserDictEntry(command.ruby, command.word, Some(command.pos));
    KeyHasPosition(EntryKey, entries, EntryKey(e));
    AsMapKeys(EntryKey, entries);
    if Position(EntryKey, entries, EntryKey(e)).None? {
      DistinctSnoc(EntryKey, entries, e);
      assert (entries + [e])[..|entries|] == entries;
    }
  }

  lemma UpdateIsMapOp(serde: Serde, entries: seq<UserDictEntry>, command: Command)
    requires KeysDistinct(EntryKey, entries) && command.Update? && Precheck(command).None?
    ensures var m := AsMap(EntryKey, entries);
            var r := Edit(serde, entries, command);
            && (r.Ok? <==> MapOp(serde, m, command).Some?)
            && (r.Ok? ==> AsMap(EntryKey, r.value) == MapOp(serde, m, command).value && KeysDistinct(EntryKey, r.value))
            && (r.Err? ==> r.error == NotFound || r.error == Duplicate)
  {
    var e := UserDictEntry(command.ruby, command.word, Some(command.pos));
    var oldKey := OldKey(command.oldRuby, command.oldWord);
    KeyHasPosition(EntryKey, entries, oldKey);
    KeyHasPosition(EntryKey, entries, EntryKey(e));
    var at := Position(EntryKey, entries, oldKey);
    if at.Some? && Edit(serde, entries, command).Ok? {
      ReplaceAtIsMapUpdate(EntryKey, entries, at.value, e);
    }
  }

  lemma DeleteIsMapOp(serde: Serde, entries: seq<UserDictEntry>, command: Command)
    requires KeysDistinct(EntryKey, entries) && command.Delete?
    ensures var m := AsMap(EntryKey, entries);
            var r := Edit(serde, entries, command);
            && (r.Ok? <==> MapOp(serde, m, command).Some?)
            && (r.Ok? ==> AsMap(EntryKey, r.value) == MapOp(serde, m, command).value && KeysDistinct(EntryKey, r.value))
            && (r.Err? ==> r.error == NotFound)
  {
    var key := OldKey(command.ruby, command.word);
    KeyHasPosition(EntryKey, entries, key);
    var at := Position(EntryKey, entries, key);
    if at.Some? {
      RemoveAtIsMapRemove(EntryKey, entries, at.value);
      RemoveAtKeepsDistinct(EntryKey, entries, at.value);
    }
  }

  // ---- refinement ----

  /** What is at the path was written by a save: a list with distinct keys. */
  predicate SavedDistinct(serde: Serde, s: Store) {
    s.file.Some? && serde.classify(s.file.value).Entries?
    && FirstOccurrences(EntryKey, serde.classify(s.file.value).entries) == serde.classify(s.file.value).entries
  }

  /** No backup is touched, and corrupt content is still at the path or in a backup with a new name. */
  predicate NothingLost(serde: Serde, s: Store, s1: Store) {
    KeepsBackups(s, s1) && (IsCorrupt(serde, s) ==> s1.file == s.file || PutAside(s, s1))
  }

  /** The file system as it was, except that a corrupt file may have been put aside. */
  predicate OnlyQuarantined(serde: Serde, s: Store, s1: Store) {
    s1 == s || (IsCorrupt(serde, s) && KeepsBackups(s, s1) && PutAside(s, s1) && Stored(serde, s1) == [])
  }

  /** A saved list is what the next load classifies. */
  lemma SavedIsClassified(serde: Serde, entries: seq<UserDictEntry>)
    requires Faithful(serde)
    ensures serde.classify(EncodeUtf8(serde.write(entries))) == Entries(entries)
  {
    var text := serde.write(entries);
    Utf8TextIsReadBack(serde.json, text);
    TrimKeepsFirst(text);
    assert EncodeUtf8(text) != [];
  }

  lemma StoredIsDistinct(serde: Serde, s: Store)
    ensures KeysDistinct(EntryKey, Stored(serde, s))
  {
    if s.file.Some? && serde.classify(s.file.value).Entries? {
      DedupProperties(EntryKey, serde.classify(s.file.value).entries);
    }
  }

  /** Loading does not change the map; it changes the files only by quarantine. */
  lemma LoadKeepsMap(serde: Serde, s: Store, f: Faults)
    ensures var (loaded, s1) := LoadSpec(serde, s, f);
            && OnlyQuarantined(serde, s, s1) && KeepsBackups(s, s1)
            && Stored(serde, s1) == Stored(serde, s)
            && (loaded.Ok? ==> loaded.value == Stored(serde, s))
            && (loaded.Ok? && IsCorrupt(serde, s) ==> PutAside(s, s1))
  {
    if !f.readFails && IsCorrupt(serde, s) {
      PutAwayKeeps(s, f.stamp, f.renameFails, f.copyFails);
    }
  }

  lemma SaveStores(serde: Serde, s: Store, f: Faults, entries: seq<UserDictEntry>)
    requires Faithful(serde) && KeysDistinct(EntryKey, entries) && !f.saveFails
    ensures var s1 := SaveSpec(serde, s, f, entries).1;
            SavedDistinct(serde, s1) && Stored(serde, s1) == entries && s1.backups == s.backups
  {
    SavedIsClassified(serde, entries);
    DedupOfDistinct(EntryKey, entries);
  }

  /** The dictionary file can be loaded and saved in this command. */
  predicate Healthy(serde: Serde, s: Store, f: Faults) {
    !f.readFails && !f.saveFails && (IsCorrupt(serde, s) ==> !f.renameFails || !f.copyFails)
  }

  lemma FinishRefinesMap(serde: Serde, s: Store, f: Faults, entries: seq<UserDictEntry>, command: Command)
    requires Faithful(serde) && KeysDistinct(EntryKey, entries)
    requires Precheck(command).None? && command != List
    ensures var (r, s1) := Finish(serde, s, f, entries, command);
            var op := MapOp(serde, AsMap(EntryKey, entries), command);
            && (r.Ok? ==> op == Some(Dict(serde, s1)) && SavedDistinct(serde, s1))
            && (!f.saveFails ==> (r.Ok? <==> op.Some?))
  {
    EditIsMapOp(serde, entries, command);
    var edited := Edit(serde, entries, command);
    if edited.Ok? && !f.saveFails {
      SaveStores(serde, s, f, edited.value);
    }
  }

  /** It never touches the backups, and leaves the file alone when it fails. */
  lemma FinishKeepsFiles(serde: Serde, s: Store, f: Faults, entries: seq<UserDictEntry>, command: Command)
    ensures var (r, s1) := Finish(serde, s, f, entries, command);
            s1.backups == s.backups && (r.Err? ==> s1 == s)
  {
  }

  lemma RejectedHasNoMapOp(serde: Serde, m: map<Key, UserDictEntry>, command: Command)
    requires Precheck(command).Some?
    ensures MapOp(serde, m, command) == None
  {
  }

  lemma HealthyLoads(serde: Serde, s: Store, f: Faults)
    requires Healthy(serde, s, f)
    ensures LoadSpec(serde, s, f).0.Ok?
  {
  }

  /** Listing is the map operation that changes nothing. */
  lemma ListIsMapOp(serde: Serde, s: Store, f: Faults)
    ensures var (r, s1) := Execute(serde, s, f, List);
            && Dict(serde, s1) == Dict(serde, s)
            && (Healthy(serde, s, f) ==> r.Ok?)
  {
    LoadKeepsMap(serde, s, f);
  }

  /** The other accepted commands, once the file is loaded. */
  lemma LoadedIsMapOp(serde: Serde, s: Store, f: Faults, command: Command)
    requires Faithful(serde) && Precheck(command).None? && command != List && LoadSpec(serde, s, f).0.Ok?
    ensures var (loaded, s1) := LoadSpec(serde, s, f);
            var (r, s2) := Finish(serde, s1, f, loaded.value, command);
            && (r.Ok? ==> MapOp(serde, Dict(serde, s), command) == Some(Dict(serde, s2)) && SavedDistinct(serde, s2))
            && (!f.saveFails ==> (r.Ok? <==> MapOp(serde, Dict(serde, s), command).Some?))
  {
    var (loaded, s1) := LoadSpec(serde, s, f);
    LoadKeepsMap(serde, s, f);
    StoredIsDistinct(serde, s);
    FinishRefinesMap(serde, s1, f, loaded.value, command);
  }

  /** Success performs exactly the map operation and stores a list with distinct keys; on healthy
      files the command succeeds exactly when the operation applies to the map. */
  lemma ExecuteIsMapOp(serde: Serde, s: Store, f: Faults, command: Command)
    requires Faithful(serde)
    ensures var (r, s1) := Execute(serde, s, f, command);
            && (r.Ok? ==> MapOp(serde, Dict(serde, s), command) == Some(Dict(serde, s1)))
            && (r.Ok? && command != List ==> SavedDistinct(serde, s1))
            && (Healthy(serde, s, f) ==> (r.Ok? <==> MapOp(serde, Dict(serde, s), command).Some?))
  {
    if Precheck(command).Some? {
      RejectedHasNoMapOp(serde, Dict(serde, s), command);
    } else if command == List {
      ListIsMapOp(serde, s, f);
    } else {
      if Healthy(serde, s, f) {
        HealthyLoads(serde, s, f);
      }
      if LoadSpec(serde, s, f).0.Ok? {
        LoadedIsMapOp(serde, s, f, command);
      }
    }
  }

  /** Steps after a load that keep its backups lose nothing of what the load kept. */
  lemma SameBackupsLoseNothing(serde: Serde, s: Store, s1: Store, s2: Store)
    requires KeepsBackups(s, s1) && s2.backups == s1.backups
    requires IsCorrupt(serde, s) ==> PutAside(s, s1)
    ensures NothingLost(serde, s, s2)
  {
    if IsCorrupt(serde, s) {
      PutAsideStays(s, s1, s2);
    }
  }

  /** What a command leaves: everything as it was when it stops before or while loading; otherwise the
      backups of the load, and after a failure its file too. */
  lemma ExecuteLeaves(serde: Serde, s: Store, f: Faults, command: Command)
    ensures var (loaded, s1) := LoadSpec(serde, s, f);
            var (r, s2) := Execute(serde, s, f, command);
            || s2 == s
            || (loaded.Ok? && s2.backups == s1.backups && (r.Err? ==> s2 == s1))
  {
    var (loaded, s1) := LoadSpec(serde, s, f);
    if loaded.Ok? {
      FinishKeepsFiles(serde, s1, f, loaded.value, command);
    }
  }

  /** Failure leaves the map and the files alone except for quarantine, and nothing is ever lost. */
  lemma ExecuteKeepsFiles(serde: Serde, s: Store, f: Faults, command: Command)
    ensures var (r, s1) := Execute(serde, s, f, command);
            && (r.Err? ==> Dict(serde, s1) == Dict(serde, s) && OnlyQuarantined(serde, s, s1))
            && NothingLost(serde, s, s1)
  {
    var (loaded, s1) := LoadSpec(serde, s, f);
    var s2 := Execute(serde, s, f, command).1;
    ExecuteLeaves(serde, s, f, command);
    if s2 != s {
      LoadKeepsMap(serde, s, f);
      SameBackupsLoseNothing(serde, s, s1, s2);
    }
  }

  // ---- how commands fail ----

  /** The key of the entry that a command looks up, and of the one it stores. */
  function SoughtKey(command: Command): Option<Key> {
    match command
    case Update(oldRuby, oldWord, _, _, _) => Some(OldKey(oldRuby, oldWord))
    case Delete(ruby, word) => Some(OldKey(ruby, word))
    case _ => None
  }

  function NewEntry(command: Command): Option<UserDictEntry> {
    match command
    case Add(ruby, word, pos) => Some(UserDictEntry(ruby, word, Some(pos)))
    case Update(_, _, ruby, word, pos) => Some(UserDictEntry(ruby, word, Some(pos)))
    case _ => None
  }

  predicate HasNoEntry(m: map<Key, UserDictEntry>, command: Command) {
    SoughtKey(command).Some? && SoughtKey(command).value !in m
  }

  /** Storing would give two entries the same key. */
  predicate Collides(m: map<Key, UserDictEntry>, command: Command) {
    && NewEntry(command).Some? && EntryKey(NewEntry(command).value) in m
    && SoughtKey(command) != Some(EntryKey(NewEntry(command).value))
  }

  /** What is at a position and what collides, on the list and on the map. */
  lemma PositionIsMembership(entries: seq<UserDictEntry>, key: Key)
    requires KeysDistinct(EntryKey, entries)
    ensures Position(EntryKey, entries, key).Some? <==> key in AsMap(EntryKey, entries)
  {
    KeyHasPosition(EntryKey, entries, key);
  }

  lemma EditErrors(serde: Serde, entries: seq<UserDictEntry>, command: Command)
    requires KeysDistinct(EntryKey, entries) && Precheck(command).None?
    ensures var (m, r) := (AsMap(EntryKey, entries), Edit(serde, entries, command));
            && (r == Err(NotFound) <==> HasNoEntry(m, command))
            && (r == Err(Duplicate) <==> !HasNoEntry(m, command) && Collides(m, command))
  {
    var m := AsMap(EntryKey, entries);
    match command
    case Add(ruby, word, pos) => PositionIsMembership(entries, EntryKey(UserDictEntry(ruby, word, Some(pos))));
    case Update(oldRuby, oldWord, ruby, word, pos) =>
      PositionIsMembership(entries, OldKey(oldRuby, oldWord));
      UpdateIsMapOp(serde, entries, command);
      assert MapOp(serde, m, command).Some? <==> !HasNoEntry(m, command) && !Collides(m, command);
    case Delete(ruby, word) => PositionIsMembership(entries, OldKey(ruby, word));
    case _ =>
  }

  /** Each way to fail, exactly, and in the order of precedence: an invalid entry, a file that cannot be read, a
      corrupt one that cannot be put aside, no entry to change, a key taken, a failed save. */
  lemma FailuresExactly(serde: Serde, s: Store, f: Faults, command: Command)
    ensures var (r, m) := (Execute(serde, s, f, command).0, Dict(serde, s));
            var invalid := NewEntry(command).Some? && !ValidRow(NewEntry(command).value);
            var stuck := IsCorrupt(serde, s) && f.renameFails && f.copyFails;
            && (r.Err? && r.error.Invalid? <==> invalid)
            && (r == Err(Unreadable) <==> !invalid && f.readFails)
            && (r == Err(QuarantineFailed) <==> !invalid && !f.readFails && stuck && command != List)
            && (!invalid && !f.readFails && !stuck && command != List ==>
                  && (r == Err(NotFound) <==> HasNoEntry(m, command))
                  && (r == Err(Duplicate) <==> !HasNoEntry(m, command) && Collides(m, command))
                  && (r == Err(Io) <==> !HasNoEntry(m, command) && !Collides(m, command) && f.saveFails))
            && (command == List && !f.readFails ==> r == Ok(()))
  {
    if Precheck(command).None? && command != List && LoadSpec(serde, s, f).0.Ok? {
      LoadKeepsMap(serde, s, f);
      StoredIsDistinct(serde, s);
      EditErrors(serde, Stored(serde, s), command);
    }
  }

  /** The field that is blamed is the ruby exactly when the shown ruby breaks a rule. */
  lemma BlamedField(command: Command)
    requires NewEntry(command).Some? && !ValidRow(NewEntry(command).value)
    ensures var shown := Kana.ComposeKana(Kana.TrimWs(NewEntry(command).value.ruby));
            Precheck(command) ==
              Some(Invalid(if 0 < |shown| <= 300 && AllRubyChars(shown) then "word" else "ruby"))
  {
    assert Kana.TrimWs("x") == "x" && Kana.ComposeKana("x") == "x";
  }

  /** On a readable file that is not corrupt, adding a valid entry is refused as a duplicate exactly when its key is
      stored. */
  lemma AddIsDuplicate(serde: Serde, s: Store, f: Faults, e: UserDictEntry)
    requires ValidRow(e) && e.pos.Some? && !f.readFails && !IsCorrupt(serde, s)
    ensures Execute(serde, s, f, Add(e.ruby, e.word, e.pos.value)) == (Err(Duplicate), s) <==>
              exists known <- Stored(serde, s) :: EntryKey(known) == EntryKey(e)
  {
    var entries := Stored(serde, s);
    KeyHasPosition(EntryKey, entries, EntryKey(e));
    if known :| known in entries && EntryKey(known) == EntryKey(e) {
      assert EntryKey(e) in Keys(EntryKey, entries);
    }
  }

  /** Adding any respelling of a stored entry is refused as a duplicate and changes nothing; and nothing else is
      refused so, when what is stored is valid. */
  lemma RespellingIsDuplicate(serde: Serde, s: Store, f: Faults, e: UserDictEntry)
    requires ValidRow(e) && e.pos.Some? && !f.readFails && !IsCorrupt(serde, s)
    ensures var refused := Execute(serde, s, f, Add(e.ruby, e.word, e.pos.value)) == (Err(Duplicate), s);
            && ((exists known <- Stored(serde, s) :: SameSpelling(known, e)) ==> refused)
            && ((forall known <- Stored(serde, s) :: ValidRow(known)) && refused ==>
                  exists known <- Stored(serde, s) :: SameSpelling(known, e))
  {
    AddIsDuplicate(serde, s, f, e);
    forall known <- Stored(serde, s)
      ensures SameSpelling(known, e) ==> EntryKey(known) == EntryKey(e)
      ensures ValidRow(known) && EntryKey(known) == EntryKey(e) ==> SameSpelling(known, e)
    {
      SameKeyExactly(known, e);
    }
  }

  datatype Attempt = Attempt(faults: Faults, command: Command)

  function RunStore(serde: Serde, s: Store, attempts: seq<Attempt>): Store
    decreases |attempts|
  {
    if attempts == [] then s
    else RunStore(serde, Execute(serde, s, attempts[0].faults, attempts[0].command).1, attempts[1..])
  }

  /** The same run on the map alone: only the successful commands count. */
  function RunMap(serde: Serde, s: Store, m: map<Key, UserDictEntry>, attempts: seq<Attempt>)
    : Option<map<Key, UserDictEntry>>
    decreases |attempts|
  {
    if attempts == [] then Some(m)
    else
      var (r, s1) := Execute(serde, s, attempts[0].faults, attempts[0].command);
      if r.Err? then RunMap(serde, s1, m, attempts[1..])
      else
        var m1 := MapOp(serde, m, attempts[0].command);
        if m1.None? then None else RunMap(serde, s1, m1.value, attempts[1..])
  }

  /** Over every run with arbitrary faults the file stands for the map that the successful commands
      build, and no backup ever disappears or changes. */
  lemma {:induction false} RunRefinesMap(serde: Serde, s: Store, attempts: seq<Attempt>)
    requires Faithful(serde)
    ensures var end := RunStore(serde, s, attempts);
            && RunMap(serde, s, Dict(serde, s), attempts) == Some(Dict(serde, end))
            && forall name | name in s.backups :: name in end.backups && end.backups[name] == s.backups[name]
    decreases |attempts|
  {
    if attempts != [] {
      ExecuteIsMapOp(serde, s, attempts[0].faults, attempts[0].command);
      ExecuteKeepsFiles(serde, s, attempts[0].faults, attempts[0].command);
      RunRefinesMap(serde, Execute(serde, s, attempts[0].faults, attempts[0].command).1, attempts[1..]);
    }
  }

  // ---- the commands ----

  /** A loaded dictionary, with the number of dropped repetitions and the mark of a quarantine. */
  datatype LoadedDict = LoadedDict(entries: seq<UserDictEntry>, deduped: nat, quarantined: bool)

  /** A load with everything it reports. */
  function LoadedSpec(serde: Serde, s: Store, f: Faults): (Result<LoadedDict, DictCmdError>, Store) {
    var (loaded, s1) := LoadSpec(serde, s, f);
    if loaded.Err? then (Err(loaded.error), s1)
    else (Ok(LoadedDict(loaded.value, Deduped(serde, s), IsCorrupt(serde, s))), s1)
  }

  /** An entry as it is listed, with the part of speech to show. */
  datatype DictEntryDto = DictEntryDto(ruby: string, word: string, pos: Option<string>, posDisplay: string)

  function ToDto(e: UserDictEntry): DictEntryDto {
    DictEntryDto(e.ruby, e.word, e.pos, CanonicalPos(e.pos))
  }

  datatype ListReport = ListReport(entries: seq<DictEntryDto>, deduped: nat, corrupt: string)

  /** The report of an import: what was added, what was skipped and why, and whether the text may have
      been decoded with the wrong encoding. */
  predicate ReportOk(existing: seq<UserDictEntry>, parsed: ParsedTsv, report: MergeReport) {
    && report.added == |NewRows(EntryKey, ValidRow, existing, parsed.rows)|
    && report.skippedInvalid == InvalidRows(ValidRow, parsed.rows)
    && report.added + report.skippedDup + report.skippedInvalid == |parsed.rows|
    && (report.encodingHint <==>
          parsed.hadReplacement || exists i | 0 <= i < |parsed.rows| ::
              !ValidRow(parsed.rows[i]) && HasReplacement(parsed.rows[i]))
  }

  /** The dictionary path with its backups; every command runs under the dictionary lock. */
  class DictionaryFile {
    const serde: Serde
    var file: Option<Bytes>
    var backups: map<Name, Bytes>

    function State(): Store
      reads this
    {
      Store(file, backups)
    }

    constructor (write: seq<UserDictEntry> -> string, parse: string -> Option<seq<UserDictEntry>>, json: JsonParser,
                 file: Option<Bytes>)
      ensures serde == Using(write, parse, json) && State() == Store(file, map[])
    {
      this.serde := Using(write, parse, json);
      this.file := file;
      this.backups := map[];
    }

    /** Rename, else copy, else refuse. */
    method Quarantine(bytes: Bytes, f: Faults) returns (r: Result<seq<UserDictEntry>, DictCmdError>)
      modifies this
      ensures (r, State()) == QuarantineSpec(old(State()), bytes, f)
    {
      var dest := QuarantineDestPath(backups, f.stamp);
      if !f.renameFails {
        backups := backups[dest := bytes];
        file := None;
        return Ok([]);
      }
      if !f.copyFails {
        backups := backups[dest := bytes];
        return Ok([]);
      }
      r := Err(QuarantineFailed);
    }

    method Load(f: Faults) returns (r: Result<LoadedDict, DictCmdError>)
      modifies this
      ensures (r, State()) == LoadedSpec(serde, old(State()), f)
    {
      if f.readFails {
        return Err(Unreadable);
      }
      if file.None? {
        return Ok(LoadedDict([], 0, false));
      }
      match serde.classify(file.value)
      case Blank => r := Ok(LoadedDict([], 0, false));
      case Entries(es) =>
        var entries, dropped := DedupEntries(es);
        r := Ok(LoadedDict(entries, dropped, false));
      case Corrupt =>
        var quarantined := Quarantine(file.value, f);
        if quarantined.Ok? {
          r := Ok(LoadedDict(quarantined.value, 0, true));
        } else {
          r := Err(quarantined.error);
        }
    }

    method Save(entries: seq<UserDictEntry>, f: Faults) returns (r: Result<(), DictCmdError>)
      modifies this
      ensures (r, State()) == SaveSpec(serde, old(State()), f, entries)
    {
      if f.saveFails {
        return Err(Io);
      }
      file := Some(EncodeUtf8(serde.write(entries)));
      r := Ok(());
    }

    method DictAdd(f: Faults, ruby: string, word: string, pos: string) returns (r: Result<(), DictCmdError>)
      modifies this
      ensures (r, State()) == Execute(serde, old(State()), f, Add(ruby, word, pos))
    {
      if ValidateEntry(ruby, word).Err? {
        return Err(Invalid(InvalidField(ruby)));
      }
      var loaded := Load(f);
      if loaded.Err? {
        return Err(loaded.error);
      }
      var entry := UserDictEntry(ruby, word, Some(pos));
      var entries := loaded.value.entries;
      if Position(EntryKey, entries, EntryKey(entry)).Some? {
        return Err(Duplicate);
      }
      r := Save(entries + [entry], f);
    }

    method DictUpdate(f: Faults, oldRuby: string, oldWord: string, ruby: string, word: string, pos: string)
      returns (r: Result<(), DictCmdError>)
      modifies this
      ensures (r, State()) == Execute(serde, old(State()), f, Update(oldRuby, oldWord, ruby, word, pos))
    {
      if ValidateEntry(ruby, word).Err? {
        return Err(Invalid(InvalidField(ruby)));
      }
      var loaded := Load(f);
      if loaded.Err? {
        return Err(loaded.error);
      }
      var entries := loaded.value.entries;
      var at := Position(EntryKey, entries, OldKey(oldRuby, oldWord));
      if at.None? {
        return Err(NotFound);
      }
      var entry := UserDictEntry(ruby, word, Some(pos));
      if OtherHasKey(EntryKey, entries, at.value, EntryKey(entry)) {
        return Err(Duplicate);
      }
      r := Save(entries[at.value := entry], f);
    }

    method DictDelete(f: Faults, ruby: string, word: string) returns (r: Result<(), DictCmdError>)
      modifies this
      ensures (r, State()) == Execute(serde, old(State()), f, Delete(ruby, word))
    {
      var loaded := Load(f);
      if loaded.Err? {
        return Err(loaded.error);
      }
      var entries := loaded.value.entries;
      var at := Position(EntryKey, entries, OldKey(ruby, word));
      if at.None? {
        return Err(NotFound);
      }
      r := Save(RemoveAt(entries, at.value), f);
    }

    method DictImport(f: Faults, bytes: Bytes) returns (r: Result<MergeReport, DictCmdError>)
      modifies this
      ensures var (outcome, s1) := Execute(serde, old(State()), f, Import(bytes));
              && State() == s1
              && (outcome.Err? ==> r == Err(outcome.error))
              && (outcome.Ok? ==> r.Ok? && ReportOk(Stored(serde, old(State())), Parsed(serde.json, bytes), r.value))
    {
      LoadKeepsMap(serde, State(), f);
      var parsed := ParseTsv(serde.json, bytes);
      var loaded := Load(f);
      if loaded.Err? {
        return Err(loaded.error);
      }
      var merged, report := MergeImported(loaded.value.entries, parsed.rows, parsed.hadReplacement);
      var saved := Save(merged, f);
      if saved.Err? {
        return Err(saved.error);
      }
      r := Ok(report);
    }

    /** `dict_list`: reading may quarantine, and a dictionary that cannot be quarantined still lists. */
    method DictList(f: Faults) returns (r: Result<ListReport, DictCmdError>)
      modifies this
      ensures var (outcome, s1) := Execute(serde, old(State()), f, List);
              && State() == s1
              && (outcome.Err? <==> r == Err(Unreadable)) && (outcome.Ok? <==> r.Ok?)
              && (r.Ok? ==> r.value == ListReport(Map(ToDto, StableSort(EntryLe, Stored(serde, old(State())))),
                                                  Deduped(serde, old(State())),
                                                  if !IsCorrupt(serde, old(State())) then "none"
                                                  else if LoadSpec(serde, old(State()), f).0.Ok? then "quarantined"
                                                  else "quarantine_failed"))
    {
      LoadKeepsMap(serde, State(), f);
      var loaded := Load(f);
      match loaded
      case Ok(dict) =>
        var sorted := StableSort(EntryLe, dict.entries);
        r := Ok(ListReport(Map(ToDto, sorted), dict.deduped, if dict.quarantined then "quarantined" else "none"));
      case Err(error) =>
        if error == Unreadable {
          r := Err(Unreadable);
        } else {
          r := Ok(ListReport([], 0, "quarantine_failed"));
        }
    }
  }
}
