# Models of the IME's Rust side

This project models the stateful core of the input method's Rust crates in Dafny and proves what
those crates promise about it. `dafny verify dfyconfig.toml` checks everything.

| files | what they model |
|---|---|
| `Framing`, `Wire`, `EngineClient`, `ClientRuns`, `RequestOutcomes` | the engine client over a byte pipe: frames, resumable reads and writes with deadlines, the pending and poisoned states, every run of its calls against an engine that answers in turn, and what becomes of each request |
| `Prelude`, `Decimal` | shared vocabulary and numerals |
| `Kana`, `UserDictionary`, `KeyedList`, `Sorting`, `Utf8Order` | dictionary keys, validation, deduplication, import merging and export order |
| `Json`, `Encoding`, `Utf16Detection`, `DictionaryTsv` | encoding detection, UTF-8 and UTF-16 decoding, TSV export and import |
| `Backups`, `DictionaryCommands` | the dictionary file with quarantine and its five commands, over I/O that can fail |
| `Clause`, `ClauseRequests` | the validators of clause tilings, conversion exchanges, candidates, snapshots and commit receipts |
| `SettingsMerge`, `SettingsStore` | laying known settings over a JSON file; loading, quarantining and saving it |
| `PlainSerde` | concrete serializers, which show that what the models assume of serde can be met |
| `AutomaticCheck`, `CheckTranscripts` | the transaction over settings, scheduled task and checker lease, and start-up reconciliation; the exact log of operations of each |
| `Activation`, `ModelPlacement` | enabling a model after its download while patches and cancellations interleave; placing it with a backup |
| `Keymap`, `KeyConflicts`, `KeyDispatch` | chord texts, conflict detection, and the dispatch that it protects |
| `DocState` | the test bench's document with caret and composition |

Each method that changes state is proved equal to a function of the old state; the lemmas about those
functions are the results. Outside operations are scripts of outcomes: a run is quantified over every
script, so over every way to cut the bytes, every deadline and every failure.

## What the proofs brought out

Behaviour that is easy to miss when reading the code. Each item names the lemma with its exact condition
and, except for the last, one that exhibits it.

- After a corrupt settings file could only be copied to its backup, `load_for_mutation` answers Ok but
  the corrupt original is still at the path, so the next `save` is refused
  (`SettingsStore.SaveAfterLoadForMutation`, `SettingsStore.CopiedCorruptionBlocksSave`). The dictionary's
  `save_to` overwrites in the same situation.
- Turning the automatic check on, with a save and then a task deletion that both fail, leaves the task
  registered while OFF is on disk and no repair is marked (`AutomaticCheck.ChangeVerdict`,
  `AutomaticCheck.ExceptionsHappen`).
- A repair of a persisted ON whose registration fails sets the force-off flag although ON stays on disk;
  the comments keep that flag for start-up failures whose OFF was saved (the same two lemmas).
- A change that starts from a stale OFF writes OFF over ON without the lease
  (`AutomaticCheck.UnleasedOffExactly`, `AutomaticCheck.UnleasedOffHappens`).
- An install of the prediction model that fails loses the old model when it cannot be restored, and also
  when the new one cannot be removed: its backup directory is dropped on return
  (`ModelPlacement.PlacementOutcome`, `ModelPlacement.PreviousModelIsLost`).
- Dictionary text in UTF-16 without a mark whose only ASCII character is its last is taken for UTF-8
  (`Utf16Detection.SniffExactly`, `Utf16Detection.LowAtTheEndIsUtf8`).
- Undo of a commit is checked first and, as its comment says, without regard to the idle state, while the
  conflict check lets it share a key with a composing function (`KeyDispatch.DispatchIsUnambiguous`,
  `KeyDispatch.UndoShadowsWithoutConflict`).
- A second save leaves no trace of the first, whatever is on disk, exactly when the second value covers the
  first: `null` followed by an object loses what the file had below (`SettingsMerge.SecondSaveWinsExactly`,
  `SettingsMerge.UncoveredLeavesTraces`).
- Settings whose own encoding cannot be decoded, such as a NaN font size, are saved and leave a file that
  counts as corrupt (`SettingsStore.SaveThenLoad`).

## Model

| member | source | states |
|---|---|---|
| `Framing.SerializeFrame` | crates/ipc/src/framing.rs:17-29 | a body is handed out only within the limit; the oversize error is reported exactly for oversized bodies |
| `Framing.WriteFrame` | crates/ipc/src/framing.rs:31-48 | success appends exactly one frame, an error writes nothing |
| `Framing.ReadFrame` | crates/ipc/src/framing.rs:50-64 | takes one frame off the front of the bytes, rejecting an oversized length before the body |
| `Framing.ParseStream` | crates/ipc/src/framing.rs:31-64 | whole frames followed by an incomplete one parse to exactly the whole frames |
| `Framing.CutFrame` | crates/ipc/src/framing.rs:50-64 | a frame cut short anywhere is an unexpected end; an oversized one is rejected as soon as its header is complete |
| `Framing.ReadInvertsWrite` | crates/ipc/src/framing.rs:31-64 | reading gives back every sequence of in-limit messages, whatever follows them |
| `Wire.ClassifyCancelledCompletion` | crates/ipc/src/client.rs:599-615 | a completion that won the race counts as progress; only a confirmed abort after a real timeout is a timeout |
| `Wire.ReadStep` | crates/ipc/src/client.rs:626-740 | one read moves bytes from the front of the inbox or none; without a deadline it cannot time out |
| `Wire.WriteStep` | crates/ipc/src/client.rs:626-753 | one write puts a prefix on the wire or nothing |
| `Wire.FrameCompletes` | crates/ipc/src/client.rs:755-775 | an engine that answers in turn answers a request only with the last byte of its frame |
| `Wire.WriteRequestPuts` | crates/ipc/src/client.rs:755-775 | a completed request is exactly one frame and brings exactly one answer; an oversized or unserializable one writes nothing |
| `Wire.ReadExactTakes` | crates/ipc/src/client.rs:722-740 | reading moves bytes from the inbox to the buffer and loses none, whatever fails |
| `Wire.ReadResponseRefines` | crates/ipc/src/client.rs:777-812 | resuming at any offset gives the verdict of one-shot reading or stops inside the frame with all bytes accounted for |
| `EngineClient.Pipe.ReadExactProgress` | crates/ipc/src/client.rs:722-740 | the loop fills the buffer as specified and keeps its offset on failure |
| `EngineClient.Pipe.WriteAllBytes` | crates/ipc/src/client.rs:741-753 | the loop writes what the specification says and no more |
| `EngineClient.Pipe.WriteRequestFrame` | crates/ipc/src/client.rs:755-775 | prefix, then body, stopping at the first error |
| `EngineClient.PendingResponseFrame.Read` | crates/ipc/src/client.rs:777-812 | header and body are resumed at their exact offsets, and a timeout keeps them |
| `EngineClient.Client.EnsureReady` | crates/ipc/src/client.rs:496-510 | passes exactly when the connection is ready; the two refusals tell a poisoned connection from an owed response, and every request then ends with that refusal and changes nothing |
| `EngineClient.Client.Request` | crates/ipc/src/client.rs:334-382 | the new client state and result of a request without deadline |
| `EngineClient.Client.RequestWithin` | crates/ipc/src/client.rs:384-411 | the same with a deadline; a late response poisons |
| `EngineClient.Client.RequestWithinKeep` | crates/ipc/src/client.rs:413-456 | the same, keeping a late response with its offsets |
| `EngineClient.Client.DrainPending` | crates/ipc/src/client.rs:458-482 | resumes the owed frame, or does nothing when none is owed |
| `EngineClient.Client.IsPending` | crates/ipc/src/client.rs:484-494 | whether a frame is owed |
| `ClientRuns.RequestIsSafe` | crates/ipc/src/client.rs:334-456 | a request returns the answer to itself, keeps exactly on a timeout, and never breaks the pairing |
| `ClientRuns.DrainIsSafe` | crates/ipc/src/client.rs:458-482 | a drain returns the answer to the last request or keeps the exact prefix |
| `ClientRuns.EveryRunIsSafe` | crates/ipc/src/client.rs:334-510 | in every run every call is safe: each returned response is the one for the last request, a ready client is at a frame boundary, a pending one holds the consumed prefix of the one owed frame |
| `ClientRuns.FreshIsAlternating` | crates/ipc/src/client.rs:283-315 | a new connection satisfies the invariant |
| `ClientRuns.AnswersAreConserved` | crates/ipc/src/client.rs:334-482 | while usable, every request sent is answered to the caller or owed |
| `ClientRuns.PoisonedForever` | crates/ipc/src/client.rs:496-510 | a poisoned client never touches the connection again |
| `ClientRuns.DrainingRefinesOneShot` | crates/ipc/src/client.rs:458-482 | however the response is cut, draining to the end gives the one-shot verdict and consumes exactly the frame |
| `ClientRuns.KeepThenDrainRefinesOneShot` | crates/ipc/src/client.rs:413-482 | a keeping request followed by drains refines reading the answer at once |
| `ClientRuns.EnoughDrainsFinish` | crates/ipc/src/client.rs:458-482 | without faults and with enough moving attempts draining ends with the verdict |
| `RequestOutcomes.RequestSucceeds` | crates/ipc/src/client.rs:334-456 | through all three entry points a request that meets no failure is sent exactly once and answered with the decoded response to it; the client is ready afterwards exactly when that succeeded |
| `RequestOutcomes.FailureInResponse` | crates/ipc/src/client.rs:384-456 | a deadline or failure after any number of response bytes ends the request with its own error; only the keeping entry point's deadline leaves the connection usable, with exactly those bytes saved |
| `RequestOutcomes.FailureInDrain` | crates/ipc/src/client.rs:458-482 | the same while draining, wherever it resumes: only another deadline lets the rest be drained later |
| `RequestOutcomes.FailureInRequest` | crates/ipc/src/client.rs:384-456 | a deadline or failure inside the request leaves exactly the bytes before it on the wire and gives the connection up; the keeping entry point does not call that a timeout |
| `RequestOutcomes.RejectedRequests` | crates/ipc/src/client.rs:496-510 | what never reaches the wire, with each reason; only a body that cannot be serialized ends the connection |
| `Kana.ComposeKanaScan` | crates/settings/src/user_dictionary.rs:39-53 | the scan composes each pair once, from the left |
| `Kana.ComposedIsNoBase` | crates/settings/src/user_dictionary.rs:55-120 | a composed character never composes again |
| `Kana.PairKatakana` | crates/settings/src/user_dictionary.rs:55-137 | the table commutes with the katakana map |
| `Kana.TableByCodePoint` | crates/settings/src/user_dictionary.rs:55-118 | the composition table by code point: a voiced character is one place after its base but for u and the katakana w row, a half-voiced one two places |
| `Kana.KanaMapsExactly` | crates/settings/src/user_dictionary.rs:127-137 | the two kana maps move characters by the distance of the blocks, exactly where both blocks have them, and undo each other there |
| `Kana.ComposeIsCanonical` | crates/settings/src/user_dictionary.rs:39-53 | composing changes the spelling only: taken apart again the text is what it was, no pair is left, and composing twice is composing once |
| `Kana.TrimTakesOnlyWs` | crates/settings/src/user_dictionary.rs:23-37 | trimming takes trimmable characters off both ends and nothing else |
| `Kana.ComposeKatakana` | crates/settings/src/user_dictionary.rs:39-137 | composing before the katakana map makes no difference after it |
| `Kana.TrimCompose` | crates/settings/src/user_dictionary.rs:23-53 | trimming and composing commute |
| `Kana.KeyIsBlindToSpelling` | crates/settings/src/user_dictionary.rs:122-137 | the key is the same for a reading, its composed, katakana and hiragana forms |
| `Kana.KeyIsIdempotent` | crates/settings/src/user_dictionary.rs:122-125 | the key of a key is the key |
| `Kana.KeyIgnoresBlanks` | crates/settings/src/user_dictionary.rs:122-125 | the key does not depend on blanks around the reading |
| `Kana.WordIsBlindToSpelling` | crates/settings/src/user_dictionary.rs:139-141 | the normal form of a word is the same for the trimmed and the composed word, its own normal form, fully composed and without a trimmable end |
| `UserDictionary.ValidateEntry` | crates/settings/src/user_dictionary.rs:160-189 | accepted exactly when both normal forms have 1 to 300 characters, the ruby is kana and the word has no control character |
| `UserDictionary.ValidationErrors` | crates/settings/src/user_dictionary.rs:160-189 | which error an entry gets: the first rule broken, of the ruby before the word |
| `UserDictionary.SameKeyExactly` | crates/settings/src/user_dictionary.rs:143-145 | two accepted entries have the same key exactly when their shown rubies are equal in katakana and their shown words are equal |
| `UserDictionary.RespellingKeepsKey` | crates/settings/src/user_dictionary.rs:122-145 | blanks, composition and the kind of kana make no difference to the key of an entry |
| `UserDictionary.KeyOfValidRuby` | crates/settings/src/user_dictionary.rs:122-189 | the key of an accepted ruby is the katakana image of its shown form, with only katakana and ー |
| `UserDictionary.CanonicalPosIsStable` | crates/settings/src/user_dictionary.rs:191-224 | every part of speech maps to a canonical name, and those are fixed points |
| `UserDictionary.PosExactly` | crates/settings/src/user_dictionary.rs:191-224 | each canonical name by what occurs in the part of speech, a given name only outside the word for a person's name |
| `UserDictionary.DedupEntries` | crates/settings/src/user_dictionary.rs:322-334 | keeps the first entry of each key and counts the rest |
| `UserDictionary.MergeImported` | crates/settings/src/user_dictionary.rs:642-674 | existing entries stay as a prefix, exactly the new first valid rows follow, and the three counters add up |
| `KeyedList.DedupProperties` | crates/settings/src/user_dictionary.rs:322-334 | deduplication loses no key, repeats none and keeps first entries |
| `KeyedList.AsMapAt` | crates/settings/src/user_dictionary.rs:322-334 | in a list with distinct keys every entry is what the map has under its key |
| `KeyedList.Dedup` | crates/settings/src/user_dictionary.rs:322-334 | the loop computes the first occurrences |
| `KeyedList.Merge` | crates/settings/src/user_dictionary.rs:642-674 | the import loop, its counters and the encoding hint |
| `KeyedList.NewRowsKeys` | crates/settings/src/user_dictionary.rs:642-674 | after an import there are the old keys and those of valid rows, no others |
| `KeyedList.ImportKeepsKeysDistinct` | crates/settings/src/user_dictionary.rs:642-674 | imports keep keys distinct |
| `KeyedList.ImportingAgainAddsNothing` | crates/settings/src/user_dictionary.rs:642-674 | the same rows a second time add nothing |
| `KeyedList.ImportIsMapMerge` | crates/settings/src/user_dictionary.rs:642-674 | importing into the list is merging into the map of keys |
| `KeyedList.ReplaceAtIsMapUpdate` | crates/config/src/logic.rs:556-599 | replacing an entry under a free key is removing the old key and setting the new one |
| `KeyedList.RemoveAtIsMapRemove` | crates/config/src/logic.rs:601-623 | removing an entry removes its key |
| `Encoding.Utf8RoundTrip` | crates/settings/src/user_dictionary.rs:516-541 | decoding undoes encoding on all Unicode scalars |
| `Encoding.Utf8Exactly` | crates/settings/src/user_dictionary.rs:516-541 | strict decoding accepts exactly the encodings: no overlong form, no surrogate, nothing cut short |
| `Encoding.Utf16RoundTrip` | crates/settings/src/user_dictionary.rs:550-590 | the same for UTF-16 in both byte orders |
| `Encoding.Utf16Exactly` | crates/settings/src/user_dictionary.rs:550-573 | strict decoding accepts exactly the encodings: no unpaired surrogate, no odd byte |
| `Encoding.TrimsAwayExactly` | crates/settings/src/user_dictionary.rs:272-311 | only white space counts as a blank file |
| `Encoding.Utf16ScoresZero` | crates/settings/src/user_dictionary.rs:464-511 | no UTF-16 reading of bytes without zeros scores above zero |
| `Encoding.NoZeroByteMeansUtf8` | crates/settings/src/user_dictionary.rs:388-451 | bytes without a zero and without a UTF-16 mark are taken for UTF-8 |
| `Encoding.Utf8TextIsReadBack` | crates/settings/src/user_dictionary.rs:516-548 | UTF-8 text without NUL is read back up to one leading mark |
| `Encoding.MarkedUtf16IsReadBack` | crates/settings/src/user_dictionary.rs:388-548 | marked UTF-16 text is read back exactly |
| `Utf16Detection.SniffExactly` | crates/settings/src/user_dictionary.rs:388-451 | without a mark, exactly when bytes are taken for UTF-16 of either order: the positive and strictly highest score decides, and zero bytes decide between the two orders |
| `Utf16Detection.ZeroParitySnoc` | crates/settings/src/user_dictionary.rs:432-445 | the count of zero bytes at even and odd offsets |
| `Utf16Detection.ScoreExactly` | crates/settings/src/user_dictionary.rs:464-491 | what each piece of evidence weighs, as long as the penalty fits 32 bits |
| `Utf16Detection.UnmarkedUtf16IsReadBack` | crates/settings/src/user_dictionary.rs:388-548 | dictionary text in UTF-16 without a mark, in either byte order, is recognised and read back exactly, when a low character stands inside and the swapped text has no TAB or opening delimiter |
| `Utf16Detection.LowAtTheEndIsUtf8` | crates/settings/src/user_dictionary.rs:429-458 | a text whose only low character is at the end is taken for UTF-8, so that condition is needed |
| `Sorting.SortSorts` | crates/settings/src/user_dictionary.rs:686-711 | the export order is sorted and loses nothing |
| `Sorting.SortIsStable` | crates/settings/src/user_dictionary.rs:686-711 | entries with equal sort keys keep their order |
| `Utf8Order.StringLeIsByteOrder` | crates/settings/src/user_dictionary.rs:686-711 | comparing strings by code point is comparing their UTF-8 bytes |
| `DictionaryTsv.ExportableExactly` | crates/settings/src/user_dictionary.rs:686-718 | an entry is written exactly when its ruby and word are free of control characters |
| `DictionaryTsv.ToGoogleTsv` | crates/settings/src/user_dictionary.rs:686-711 | writes the control-free entries in order; written and skipped add up to the input |
| `DictionaryTsv.ParseTsv` | crates/settings/src/user_dictionary.rs:608-640 | the loop yields the rows of the decoded lines and whether anything was replaced |
| `DictionaryTsv.ParseLineExactly` | crates/settings/src/user_dictionary.rs:608-635 | which lines of columns become which entries: at least two columns, no comment mark, columns after the third ignored |
| `DictionaryTsv.JoinUndoesSplit` | crates/settings/src/user_dictionary.rs:617-617 | every line is one of columns without a TAB |
| `DictionaryTsv.LinesExactly` | crates/settings/src/user_dictionary.rs:612-612 | lines end with LF or CR LF, each as it has it, and the last may have no ending |
| `DictionaryTsv.EncodingsAgree` | crates/settings/src/user_dictionary.rs:608-640 | the same text gives the same rows as UTF-8, as marked UTF-16, and as unmarked UTF-16 that can be told by its structure |
| `DictionaryTsv.ExportedExactly` | crates/settings/src/user_dictionary.rs:686-711 | an export has each control-free entry as often as it is there, ordered by key and then by word in byte order |
| `DictionaryTsv.ParseRenderedLine` | crates/settings/src/user_dictionary.rs:608-711 | a written line of a valid entry parses to that entry with its canonical part of speech |
| `DictionaryTsv.ExportThenImport` | crates/settings/src/user_dictionary.rs:608-711 | importing an export gives exactly the control-free entries in export order |
| `DictionaryTsv.ExportIsAFixedPoint` | crates/settings/src/user_dictionary.rs:686-711 | exporting the imported rows again is byte-identical |
| `Backups.FreshFrom` | crates/settings/src/user_dictionary.rs:358-372 | the first unused name: an existing backup is never overwritten |
| `Backups.QuarantineDestPath` | crates/settings/src/lib.rs:1003-1020 | the counting loop finds that name |
| `Backups.PutAwayKeeps` | crates/settings/src/user_dictionary.rs:339-356 | quarantine touches no backup and on success has put the content in a new one |
| `DictionaryCommands.DictHoldsStored` | crates/settings/src/user_dictionary.rs:272-334 | the map of a file holds exactly the stored entries, each under its own key |
| `DictionaryCommands.EditIsMapOp` | crates/config/src/logic.rs:525-651 | a list edit succeeds exactly when its map operation applies, performs it and keeps keys distinct |
| `DictionaryCommands.LoadKeepsMap` | crates/settings/src/user_dictionary.rs:272-320 | loading does not change the map and changes files only by quarantine |
| `DictionaryCommands.ExecuteIsMapOp` | crates/config/src/logic.rs:503-651 | a successful command performs exactly its map operation and stores distinct keys; on healthy files it succeeds exactly when the operation applies |
| `DictionaryCommands.ExecuteKeepsFiles` | crates/config/src/logic.rs:458-651 | a failed command changes nothing but perhaps quarantines a corrupt file, and nothing is ever lost |
| `DictionaryCommands.FailuresExactly` | crates/config/src/logic.rs:503-651 | each error exactly, in the order of precedence, in terms of the faults and the map |
| `DictionaryCommands.BlamedField` | crates/config/src/logic.rs:448-456 | the ruby is blamed exactly when it breaks a rule |
| `DictionaryCommands.RespellingIsDuplicate` | crates/config/src/logic.rs:525-554 | adding any respelling of a stored entry is refused as a duplicate, and nothing else is |
| `DictionaryCommands.RunRefinesMap` | crates/config/src/logic.rs:503-651 | over every run with arbitrary faults the file stands for the map that the successful commands build |
| `DictionaryCommands.DictionaryFile.Quarantine` | crates/settings/src/user_dictionary.rs:339-356 | rename, else copy, else refuse |
| `DictionaryCommands.DictionaryFile.Load` | crates/settings/src/user_dictionary.rs:272-320 | missing, blank, corrupt and valid files: entries, count of dropped repetitions, quarantine mark and the files left |
| `DictionaryCommands.DictionaryFile.DictAdd` | crates/config/src/logic.rs:525-554 | the result and new files of an add |
| `DictionaryCommands.DictionaryFile.DictUpdate` | crates/config/src/logic.rs:556-599 | the result and new files of an update |
| `DictionaryCommands.DictionaryFile.DictDelete` | crates/config/src/logic.rs:601-623 | the result and new files of a delete |
| `DictionaryCommands.DictionaryFile.DictImport` | crates/config/src/logic.rs:625-653 | the result and new files of an import, with its report: added, duplicate and invalid rows and the encoding hint |
| `DictionaryCommands.DictionaryFile.DictList` | crates/config/src/logic.rs:479-523 | the sorted entries with their shown part of speech, the dropped count and which of the three corruption marks applies |
| `Clause.LegalBoundaries` | crates/ipc/src/clause.rs:417-429 | exactly the legal positions, strictly increasing |
| `Clause.LegalCutsCompose` | crates/ipc/src/clause.rs:417-437 | a cut at a legal position takes no character apart |
| `Clause.NormalisedExactly` | crates/ipc/src/clause.rs:403-415 | a reading is normalised exactly when it has no katakana with a hiragana counterpart |
| `Clause.Found` | crates/ipc/src/clause.rs:455-516 | binary search over them finds exactly the members |
| `Clause.ClauseFault` | crates/ipc/src/clause.rs:455-516 | a clause passes exactly when its id is new, it starts at the cursor, ends legally inside and its state rules hold |
| `Clause.ValidateClauses` | crates/ipc/src/clause.rs:455-516 | the loop returns the first error in checking order |
| `Clause.FirstFaultIsReported` | crates/ipc/src/clause.rs:455-512 | the error reported is that of the reading, of the range, or of the first clause with a fault after those before it |
| `Clause.EndErrors` | crates/ipc/src/clause.rs:509-516 | clauses without a fault are refused exactly for ending too early or not spelling the text |
| `Clause.ValidateAcceptsExactlyTilings` | crates/ipc/src/clause.rs:455-516 | accepted exactly when the clauses are a well-formed tiling, stated without a cursor |
| `Clause.TilesPartition` | crates/ipc/src/clause.rs:455-516 | in a tiling every position lies in exactly one range |
| `ClauseRequests.ValidatePreceding` | crates/ipc/src/clause.rs:518-548 | the loop returns the first error in checking order |
| `ClauseRequests.PrecedingAcceptsExactly` | crates/ipc/src/clause.rs:518-548 | accepted exactly when the preceding parts tile up to the target |
| `ClauseRequests.PrecedingErrors` | crates/ipc/src/clause.rs:518-549 | the error of the first surface with one, after surfaces in order, and that of a target which is not their end |
| `ClauseRequests.ReadingErrors` | crates/ipc/src/clause.rs:518-530 | a reading that is not normalised is reported before anything else, and a too long one next |
| `ClauseRequests.ValidateRequest` | crates/ipc/src/clause.rs:194-220 | the loop returns the first error in checking order |
| `ClauseRequests.RequestAcceptsExactly` | crates/ipc/src/clause.rs:194-220 | accepted exactly when preceding parts and ranges tile an initial part of the reading with distinct ids |
| `ClauseRequests.RequestErrors` | crates/ipc/src/clause.rs:194-220 | refused for nothing to convert, then for the surfaces before, then for its first clause |
| `ClauseRequests.RangeErrors` | crates/ipc/src/clause.rs:194-220 | and then for the first range with an error, after ranges in order |
| `ClauseRequests.ValidateResult` | crates/ipc/src/clause.rs:222-244 | checks the result against request and tiling |
| `ClauseRequests.ResultAcceptsExactly` | crates/ipc/src/clause.rs:222-244 | accepted exactly when the request is and the result is a well-formed tiling of its ranges |
| `ClauseRequests.AcceptedExchangeTiles` | crates/ipc/src/clause.rs:193-244 | request and result together tile [0, end) with distinct ids |
| `ClauseRequests.ValidateCandidates` | crates/ipc/src/clause.rs:142-184 | accepted exactly when the request is, every candidate has an allowed range, and none is empty |
| `ClauseRequests.CandidatesAcceptExactly` | crates/ipc/src/clause.rs:142-184 | accepted exactly when the surfaces before tile up to the clause, the clause is a new nonempty legal range, and there are candidates, each standing for it or, when asked for, for an initial part |
| `ClauseRequests.CandidateTiles` | crates/ipc/src/clause.rs:142-184 | an accepted candidate and the surfaces before it tile an initial part of the reading |
| `ClauseRequests.CandidateErrors` | crates/ipc/src/clause.rs:156-184 | the error of the first candidate with one, after candidates without |
| `ClauseRequests.CandidatesRequestErrors` | crates/ipc/src/clause.rs:142-184 | refused for the surfaces before, then for the range, then for having no candidates |
| `ClauseRequests.FromReadingIsAccepted` | crates/ipc/src/clause.rs:34-69 | the snapshot of a reading is accepted exactly when the reading is normalised |
| `ClauseRequests.ValidateReceipt` | crates/ipc/src/clause.rs:326-373 | the loop returns the first error in checking order |
| `ClauseRequests.ReceiptAcceptsExactly` | crates/ipc/src/clause.rs:326-373 | accepted exactly when the intervals tile the reading, spell the text and obey the learning rules |
| `ClauseRequests.ReceiptErrors` | crates/ipc/src/clause.rs:326-373 | refused for the reading, then for the first interval with an error, then for where the intervals end or what they spell |
| `ClauseRequests.AllReadingMeansTextIsReading` | crates/ipc/src/clause.rs:326-373 | a receipt of readings only has the reading as its text |
| `ClauseRequests.MergingReadingsKeepsReceipt` | crates/ipc/src/clause.rs:326-373 | merging adjacent reading intervals keeps it valid with the same text |
| `SettingsMerge.MergeKnownFields` | crates/settings/src/lib.rs:1069-1082 | laying the known members over the file one by one, in any order, gives the recursive merge |
| `SettingsMerge.KnownLeavesAreWritten` | crates/settings/src/lib.rs:1069-1082 | every known leaf is written |
| `SettingsMerge.UnknownMembersAreKept` | crates/settings/src/lib.rs:1069-1082 | every unknown member at every depth is kept, and none is invented |
| `SettingsMerge.MergedShowsKnown` | crates/settings/src/lib.rs:1069-1082 | seen through the known members, the merged file is the saved value |
| `SettingsMerge.MergeFits` | crates/settings/src/lib.rs:1069-1082 | a merge neither nests deeper than its parts nor makes up numbers |
| `SettingsMerge.MergeIsIdempotent` | crates/settings/src/lib.rs:1069-1082 | merging the same value twice is merging it once |
| `SettingsMerge.SecondSaveWins` | crates/settings/src/lib.rs:1069-1082 | for values of the same shape the second save wins completely |
| `SettingsMerge.SecondSaveWinsExactly` | crates/settings/src/lib.rs:1069-1082 | whatever is on disk, that holds exactly when the second value covers the first |
| `SettingsStore.SettleIsProjection` | crates/settings/src/lib.rs:497-523 | migrating and normalising is a projection onto the settled values; the legacy palettes of older files, relative weight paths and the version change, and nothing else |
| `SettingsStore.MeaningExactly` | crates/settings/src/lib.rs:978-1001 | which content is blank, newer, readable, corrupt or no text |
| `SettingsStore.LoadExactly` | crates/settings/src/lib.rs:813-927 | the outcome and settings of every load; mutation is allowed exactly when nothing could be lost by it |
| `SettingsStore.ReadCompatibleFutureSettings` | crates/settings/src/lib.rs:929-952 | the loop keeps each known field that leaves the whole decodable |
| `SettingsStore.FutureIsReadFieldwise` | crates/settings/src/lib.rs:929-952 | with field-wise decoding a newer file is read field by field whatever the order, with defaults elsewhere |
| `SettingsStore.SaveReplacesOnly` | crates/settings/src/lib.rs:1026-1067 | a save writes exactly when path, read and write work and the content is missing, blank or readable settings |
| `SettingsStore.StepLosesNothing` | crates/settings/src/lib.rs:863-927 | one load or save keeps backups, puts corrupt content aside at most, and leaves newer or unreadable content in place |
| `SettingsStore.RunLosesNothing` | crates/settings/src/lib.rs:863-1067 | the same over every run with arbitrary failures |
| `SettingsStore.SeenContentSurvives` | crates/settings/src/lib.rs:863-1067 | corrupt or newer content seen at any point of a run is at its end at the path or in a backup made since |
| `SettingsStore.SaveThenLoad` | crates/settings/src/lib.rs:978-1067 | what any save leaves is read back: a newer version is recognised, other settings come back settled, exactly as saved when they were settled, and an encoding that cannot be decoded counts as corrupt |
| `SettingsStore.SaveKeepsUnknownMembers` | crates/settings/src/lib.rs:1041-1067 | the written file keeps every unknown member of the old one |
| `SettingsStore.SecondSaveWinsOnDisk` | crates/settings/src/lib.rs:1026-1082 | a save after another succeeds exactly when the first is readable, and then leaves the file of the second alone if it covers the first |
| `SettingsStore.SaveAfterLoadForMutation` | crates/settings/src/lib.rs:863-1067 | after a load that allows mutation, exactly when a save without failures is refused |
| `SettingsStore.CopiedCorruptionBlocksSave` | crates/settings/src/lib.rs:901-1067 | a corrupt file that can only be copied: the load allows mutation and the save is refused |
| `SettingsStore.SettingsFile.LoadReportingReadOnly` | crates/settings/src/lib.rs:853-899 | the outcome of a read, which changes nothing |
| `SettingsStore.SettingsFile.LoadReporting` | crates/settings/src/lib.rs:901-927 | the outcome and the files after quarantine |
| `SettingsStore.SettingsFile.LoadForMutation` | crates/settings/src/lib.rs:863-886 | Ok exactly for the four outcomes that allow mutation |
| `SettingsStore.SettingsFile.Save` | crates/settings/src/lib.rs:1026-1067 | whether the save succeeded and the file it leaves |
| `AutomaticCheck.UnleasedOffExactly` | crates/config/src/commands.rs:526-640 | the lease is given back, the checker runs only with ON persisted, and OFF over ON without the lease happens in exactly one case |
| `AutomaticCheck.UnleasedOffHappens` | crates/config/src/commands.rs:526-640 | concrete inputs for that case |
| `AutomaticCheck.ApplyOutcome` | crates/config/src/commands.rs:526-689 | an error leaves the disk alone; success stores the desired fields, or OFF after a failed run; other fields stay |
| `AutomaticCheck.RollbackOutcome` | crates/config/src/commands.rs:645-689 | the message of a rollback says exactly what was undone |
| `AutomaticCheck.StartupReconciles` | crates/config/src/commands.rs:829-1040 | after start-up no error means agreement, and force-off stands exactly for an error with OFF persisted |
| `AutomaticCheck.RetriedLease` | crates/config/src/commands.rs:931-976 | the retry ends with the lease or with a warning that does not force OFF |
| `AutomaticCheck.ChangeVerdict` | crates/config/src/commands.rs:373-424 | one change: what the result says about disk and task, and the exact exceptions |
| `AutomaticCheck.EverySessionIsSafe` | crates/config/src/commands.rs:526-1040 | over every session with arbitrary replies the log stays safe and the lease is given back |
| `AutomaticCheck.StepIsHonest` | crates/config/src/commands.rs:373-424 | a step keeps mark, flag, disk and task consistent exactly when it is not one of the exceptions |
| `AutomaticCheck.OrdinarySessionsAreHonest` | crates/config/src/commands.rs:373-1040 | sessions without an exceptional step keep them consistent |
| `AutomaticCheck.ExceptionsHappen` | crates/config/src/commands.rs:607-622 | concrete replies for both exceptions |
| `AutomaticCheck.UpdateTask.Apply` | crates/config/src/commands.rs:526-640 | result, state and event log of the transaction; what the log holds is in the rows of `CheckTranscripts` |
| `AutomaticCheck.UpdateTask.RollbackApplyAfterRunFailure` | crates/config/src/commands.rs:645-689 | result, state and event log of the rollback |
| `AutomaticCheck.UpdateTask.SetAutomaticCheck` | crates/config/src/commands.rs:373-424 | result, state and event log of the command, also when the settings cannot be loaded |
| `AutomaticCheck.UpdateTask.AcquireStartupLeaseWithRetry` | crates/config/src/commands.rs:931-947 | the bounded retry loop |
| `AutomaticCheck.UpdateTask.SaveReconcileOff` | crates/config/src/commands.rs:983-1040 | OFF is saved before the task is deleted |
| `AutomaticCheck.UpdateTask.Reconcile` | crates/config/src/commands.rs:829-924 | state and event log of start-up reconciliation |
| `CheckTranscripts.TurningOnRuns` | crates/config/src/commands.rs:606-640 | turning ON answers Ok without a message exactly when the task is registered, ON saved and the checker run, which is then all that was done; each failed step has its own error and undoing |
| `CheckTranscripts.FailedRunRollsBack` | crates/config/src/commands.rs:627-689 | after a failed run the message starts with it and the rollback follows: lease, deletion, OFF saved |
| `CheckTranscripts.TurningOffWithLease` | crates/config/src/commands.rs:545-605 | under the lease OFF is saved before the task is deleted, and only a saved OFF lets it be deleted |
| `CheckTranscripts.TurningOffWithoutLease` | crates/config/src/commands.rs:545-560 | without the lease turning OFF does nothing and says why |
| `CheckTranscripts.SavingTranscript` | crates/config/src/commands.rs:560-605 | any other change is a single save |
| `CheckTranscripts.ChangeNotice` | crates/config/src/commands.rs:373-424 | a finished change clears the notice, and one with a message leaves it as a warning |
| `CheckTranscripts.StartupOffTranscript` | crates/config/src/commands.rs:829-924 | with OFF on disk the task is deleted under the lease once the user is known; any failure becomes the error |
| `CheckTranscripts.StartupOnRuns` | crates/config/src/commands.rs:829-924 | with ON on disk no error after start-up means exactly that the user was known, the task registered and the checker run, and nothing else was done |
| `CheckTranscripts.UnknownUserFallsBack` | crates/config/src/commands.rs:829-1040 | what is done, stored and reported when the user is unknown: at most two attempts at the lease, and under it OFF is saved and the task kept |
| `CheckTranscripts.RefusedTaskFallsBack` | crates/config/src/commands.rs:829-1040 | the same when the task is refused: OFF is saved and then the task deleted |
| `CheckTranscripts.FailedRunFallsBack` | crates/config/src/commands.rs:829-1040 | the same when the run fails, with one attempt at the lease |
| `CheckTranscripts.RetryOutcome` | crates/config/src/commands.rs:931-976 | the lease is held exactly when the last attempt got it; otherwise that attempt's failure is the error |
| `CheckTranscripts.UnreadableSettingsDecideNothing` | crates/config/src/commands.rs:762-827 | settings that cannot be read leave disk and task alone |
| `CheckTranscripts.StepWrites` | crates/config/src/commands.rs:373-1040 | a step leaves the settings alone or writes one of three values of the two fields |
| `CheckTranscripts.SessionKeepsOthers` | crates/config/src/commands.rs:373-1040 | in every session the other fields stay and an answered question stays answered |
| `Activation.RunKeepsInv` | crates/config/src/settings_service.rs:485-577 | over every interleaving the lock, generation, intent and saved value are what the actions that happened say |
| `Activation.PatchesWin` | crates/config/src/prediction_download.rs:253-275 | in every interleaving an install writes ON only if it was asked to, its check approved and no patch was saved since it began; the last such patch decides the final value |
| `Activation.CheckVerdict` | crates/config/src/prediction_download.rs:294-405 | the locked check says yes exactly when the install was asked to enable and nothing withdrew that since, and ON can be written exactly after such a check |
| `Activation.CancellationWithdraws` | crates/config/src/prediction_download.rs:151-163 | a cancellation is possible at any time, withdraws the intent of the install under way, and an install that has yet to check then does not write ON |
| `Activation.UndisturbedInstall` | crates/config/src/prediction_download.rs:278-430 | an install that nothing disturbs enables exactly when it was asked to, step by step |
| `Activation.UndisturbedPatch` | crates/config/src/settings_service.rs:485-577 | a patch that finds the lock free saves the last of its values and moves the generation once for each |
| `ModelPlacement.PlacementOutcome` | crates/config/src/prediction_download.rs:366-424 | for every combination of failures which result there is, what is at the destination, and when an error leaves the previous model |
| `ModelPlacement.PreviousModelIsLost` | crates/config/src/prediction_download.rs:241-424 | concrete steps for both ways to lose it |
| `ModelPlacement.ModelFolder.RollbackInstall` | crates/config/src/prediction_download.rs:241-251 | remove the new model, then restore the old one |
| `ModelPlacement.ModelFolder.PlaceAndEnable` | crates/config/src/prediction_download.rs:366-424 | result and destination of the placement |
| `Keymap.KeyNamesAreVks` | crates/settings/src/keymap.rs:21-96 | the two key tables are inverse to each other |
| `Keymap.ParseChord` | crates/settings/src/keymap.rs:98-124 | the loop, with all four errors |
| `Keymap.ParseExactly` | crates/settings/src/keymap.rs:98-124 | a text is accepted as a chord exactly when its parts are the chord's modifiers and key name in any order |
| `Keymap.ErrorsExactly` | crates/settings/src/keymap.rs:98-124 | a missing key, an unknown key and a part too many are told apart exactly |
| `Keymap.FirstExcess` | crates/settings/src/keymap.rs:98-124 | the first part too many decides between the repeated modifier and the second key |
| `Keymap.SameChordIffPermuted` | crates/settings/src/keymap.rs:98-124 | accepted texts mean the same chord exactly when their parts are permutations |
| `Keymap.FormatChord` | crates/settings/src/keymap.rs:127-139 | prints the normal form |
| `Keymap.FormatThenParse` | crates/settings/src/keymap.rs:98-139 | printing is read back exactly for named keys, and so for everything the parser accepts |
| `KeyConflicts.FindConflictsIn` | crates/settings/src/keymap.rs:478-539 | both loop nests, tied to the pairs that clash |
| `KeyConflicts.ConflictsExactly` | crates/settings/src/keymap.rs:508-537 | a conflict is reported exactly for two positions that share a chord and clash |
| `KeyConflicts.MayShareExactly` | crates/settings/src/keymap.rs:245-262 | two functions may share a chord exactly when one is for compositions and the other yields: by name, and for reconversion and the mode toggle by key |
| `KeyConflicts.SpecialKeysByName` | crates/settings/src/keymap.rs:260-262 | the keys that the system may refuse to reserve, by name |
| `KeyConflicts.DefaultsByName` | crates/settings/src/keymap.rs:265-340 | the default chords by the names they are printed with, with the old trigger setting |
| `KeyConflicts.ReportIgnoresOrder` | crates/settings/src/keymap.rs:478-539 | the unordered pairs do not depend on the order of the entries |
| `KeyConflicts.NoConflictsInSettings` | crates/settings/src/keymap.rs:478-539 | an empty answer means exactly that each chord has at most one function while idle and while composing |
| `KeyDispatch.ChosenIsCandidate` | crates/tip/src/keymap.rs:170-237 | the action chosen is one whose own conditions hold, none only if there is none, and the mode toggle only after all composing ones |
| `KeyDispatch.CandidateExactly` | crates/tip/src/keymap.rs:63-237 | a function could take a key exactly when the key is one of its effective chords and it listens in that state |
| `KeyDispatch.SetChordFires` | crates/tip/src/keymap.rs:170-237 | a chord that is set for a function starts it, where there is no conflict and no armed undo in the way |
| `KeyDispatch.DefaultsHaveNoConflict` | crates/settings/src/keymap.rs:1080-1086 | the default settings have no conflict, whatever the features and the old trigger |
| `KeyDispatch.TwoCandidates` | crates/tip/src/keymap.rs:170-237 | without conflicts two candidates are a composing function with the yielding mode toggle or an armed undo |
| `KeyDispatch.DispatchIsUnambiguous` | crates/tip/src/keymap.rs:170-237 | without conflicts the order of the checks is immaterial exactly when no armed undo shadows a composing function |
| `KeyDispatch.UndoShadowsWithoutConflict` | crates/tip/src/keymap.rs:170-178 | settings without conflict for which it does |
| `DocState.RunKeepsWellFormed` | crates/testbench/src/doc_state.rs:53-203 | over every run selection and composition stay ordered and inside the text, as long as explicit selections do |
| `DocState.CaretAfterEnd` | crates/testbench/src/doc_state.rs:126-142 | after any run the end of a composition moves the caret to its start exactly when no selection was set since the last edit |
| `DocState.EditInsideComposition` | crates/testbench/src/doc_state.rs:70-125 | an edit that starts inside the composition keeps the committed text exactly when it ends where the composition ends |
| `DocState.ReplacingComposition` | crates/testbench/src/doc_state.rs:70-179 | replacing exactly the composition makes the new text the preedit and keeps the committed text |
| `DocState.CaretKeepsItsPlace` | crates/testbench/src/doc_state.rs:70-124 | an edit leaves each selection end at its place in the text, and an insertion moves the caret behind the new text |
| `DocState.CommitInsertsAtCaret` | crates/testbench/src/doc_state.rs:70-142 | however it was composed, a word goes in at the caret, which ends where the last selection put it or in front of the word |
| `DocState.WordsGoIn` | crates/testbench/src/doc_state.rs:70-142 | the text after any sequence of words, followed or not |
| `DocState.OrderOfCommittedWords` | crates/testbench/src/doc_state.rs:70-142 | words stand in order when the caret follows each, and in reverse when it never does |
| `DocState.DocState.SetText` | crates/testbench/src/doc_state.rs:70-101 | the whole new state of a clamped replacement |
| `DocState.DocState.InsertAtSelection` | crates/testbench/src/doc_state.rs:107-124 | the whole new state of a clamped insertion |
| `DocState.DocState.EndComposition` | crates/testbench/src/doc_state.rs:134-142 | the caret goes back to the start of the composition unless it was set |

## Left out

- Win32 plumbing: handles, overlapped events, pipe names, DPAPI, access lists, mutexes and session enumeration. Each I/O attempt is one outcome, and a failed attempt moves no bytes and changes no file.
- Time: deadlines, sleeps and retry delays are only the number and order of attempts; `rename_with_retry` is one rename.
- `wait_for_full_frame`, `connect_verified_to` and the engine identity checks: one-branch checks beside the request loop.
- The client without Win32 and the message types of `protocol.rs`: a message is a value with a faithful serializer. `Framing.ReadFrame` therefore takes the decoder as a parameter.
- ClientRuns.EveryRunIsSafe: assumes an engine that answers each complete request with one frame in turn; the Swift engine is not part of this model.
- RequestOutcomes.FailureInResponse: the attempts before the stop move one byte each; how the bytes are cut otherwise is immaterial by `Wire.ReadResponseRefines`. The same holds for `RequestOutcomes.FailureInDrain` and `RequestOutcomes.FailureInRequest`.
- Encoding.StructureScore: the JSON grammar is a parser parameter of which only the delimiters of containers are assumed, and for unmarked UTF-16 that it has no place for a NUL.
- Utf16Detection.UnmarkedUtf16IsReadBack: for up to 100 million bytes, so that the 32-bit penalty for control characters does not wrap; which texts are recognised at all is `Utf16Detection.SniffExactly`.
- DictionaryCommands.Execute: the reload message to the engine after a save and `dict_export_logic` are left out; they do not touch the file.
- SettingsStore.SaveThenLoad: assumes that decoding reads known members only.
- SettingsStore.SaveKeepsUnknownMembers: asks that the numbers in the file and in the settings survive printing and parsing; which ones do is a parameter.
- SettingsStore.SecondSaveWinsOnDisk: asks the same of the file and the first settings.
- The other fields of `Settings`, its DTOs, `validate`, `apply_changes` and `reload_payload`: field copying and range checks. The recovery ledger and `latest_corrupt_backup_in` are notices beside the quarantine.
- `SettingsService::previous` and `remember`: replay of at most 64 results.
- AutomaticCheck.UpdateTask.SetAutomaticCheck: one change at a time; what concurrent changes can do is the stale view in `AutomaticCheck.UnleasedOffExactly`. The completion state that `get_settings` waits for, and the wording of messages, are left out.
- Activation.Next: one saved toggle and one install at a time, as the download flag enforces; the 64-bit generation does not wrap. Revision conflicts and rejected patches are patches that save nothing.
- ModelPlacement.PlaceSpec: the prediction model's directory; the Zenzai model differs in that its restore is tried even when removal fails. Download streams, hashes and cancellation before placement are left out.
- `validate_binding` and `build_preserved_regs`: vocabulary rules per function and the registration of reserved keys.
- DocState.EditInsideComposition: an edit that starts before the composition moves its start to the edit; only its well-formedness is stated. Texts are UTF-16 units, before the lossy decoding of `full`, `preedit` and `committed`; lengths beyond 32 bits are not wrapped.
- Mutex poisoning and other programs that write the same files.
