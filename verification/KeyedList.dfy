/** Lists of entries identified by a key: deduplication and merging of imported rows. */
module KeyedList {
  import opened Prelude

  // ---- deduplication ----

  function Keys<E(==), K(==)>(key: E -> K, entries: seq<E>): set<K> {
    set e | e in entries :: key(e)
  }

  /** No two entries share a key. */
  ghost predicate KeysDistinct<E, K>(key: E -> K, entries: seq<E>) {
    forall i, j :: 0 <= i < j < |entries| ==> key(entries[i]) != key(entries[j])
  }

  /** The entries whose key does not occur earlier, in order. */
  function FirstOccurrences<E(==), K(==)>(key: E -> K, entries: seq<E>): seq<E> {
    if entries == [] then []
    else
      var front, last := entries[..|entries| - 1], entries[|entries| - 1];
      FirstOccurrences(key, front) + if key(last) in Keys(key, front) then [] else [last]
  }

  lemma KeysConcat<E, K>(key: E -> K, a: seq<E>, b: seq<E>)
    ensures Keys(key, a + b) == Keys(key, a) + Keys(key, b)
  {
    forall k | k in Keys(key, a) + Keys(key, b) ensures k in Keys(key, a + b) {
      if k in Keys(key, a) {
        var e :| e in a && key(e) == k;
        assert e in a + b;
      } else {
        var e :| e in b && key(e) == k;
        assert e in a + b;
      }
    }
  }

  lemma KeysSnoc<E, K>(key: E -> K, a: seq<E>, e: E)
    ensures Keys(key, a + [e]) == Keys(key, a) + {key(e)}
  {
    KeysConcat(key, a, [e]);
    assert e in [e];
  }

  lemma DistinctSnoc<E, K>(key: E -> K, a: seq<E>, e: E)
    requires KeysDistinct(key, a) && key(e) !in Keys(key, a)
    ensures KeysDistinct(key, a + [e])
  {
    forall i | 0 <= i < |a| ensures key(a[i]) != key(e) {
      assert a[i] in a;
    }
  }

  lemma NotInPart<E, K>(key: E -> K, part: seq<E>, k: K)
    requires forall j :: 0 <= j < |part| ==> key(part[j]) != k
    ensures k !in Keys(key, part)
  {
  }

  lemma {:induction false} DedupKeepsKeys<E, K>(key: E -> K, entries: seq<E>)
    ensures Keys(key, FirstOccurrences(key, entries)) == Keys(key, entries)
    ensures KeysDistinct(key, FirstOccurrences(key, entries))
    ensures |FirstOccurrences(key, entries)| <= |entries|
  {
    if entries != [] {
      var front, last := entries[..|entries| - 1], entries[|entries| - 1];
      DedupKeepsKeys(key, front);
      assert entries == front + [last];
      KeysSnoc(key, front, last);
      if key(last) !in Keys(key, front) {
        KeysSnoc(key, FirstOccurrences(key, front), last);
        DistinctSnoc(key, FirstOccurrences(key, front), last);
      }
    }
  }

  lemma {:induction false} DedupKeepsFirst<E, K>(key: E -> K, entries: seq<E>, i: nat)
    requires i < |entries| && key(entries[i]) !in Keys(key, entries[..i])
    ensures entries[i] in FirstOccurrences(key, entries)
  {
    var front := entries[..|entries| - 1];
    if i < |front| {
      assert front[..i] == entries[..i];
      DedupKeepsFirst(key, front, i);
    }
  }

  /** Deduplication loses no key, leaves no key twice, and keeps the first entry of every key. */
  lemma DedupProperties<E, K>(key: E -> K, entries: seq<E>)
    ensures Keys(key, FirstOccurrences(key, entries)) == Keys(key, entries)
    ensures KeysDistinct(key, FirstOccurrences(key, entries))
    ensures forall i :: 0 <= i < |entries| && key(entries[i]) !in Keys(key, entries[..i]) ==>
              entries[i] in FirstOccurrences(key, entries)
    ensures |FirstOccurrences(key, entries)| <= |entries|
  {
    DedupKeepsKeys(key, entries);
    forall i | 0 <= i < |entries| && key(entries[i]) !in Keys(key, entries[..i])
      ensures entries[i] in FirstOccurrences(key, entries)
    {
      DedupKeepsFirst(key, entries, i);
    }
  }

  /** A list without repeated keys is left alone. */
  lemma {:induction false} DedupOfDistinct<E, K>(key: E -> K, entries: seq<E>)
    requires KeysDistinct(key, entries)
    ensures FirstOccurrences(key, entries) == entries
  {
    if entries != [] {
      var front, last := entries[..|entries| - 1], entries[|entries| - 1];
      DedupOfDistinct(key, front);
      NotInPart(key, front, key(last));
      assert entries == front + [last];
    }
  }

  method Dedup<E(==), K(==)>(key: E -> K, entries: seq<E>) returns (out: seq<E>, deduped: nat)
    ensures out == FirstOccurrences(key, entries)
    ensures |out| + deduped == |entries|
  {
    var seen: set<K> := {};
    out := [];
    deduped := 0;
    for i := 0 to |entries|
      invariant seen == Keys(key, entries[..i])
      invariant out == FirstOccurrences(key, entries[..i])
      invariant |out| + deduped == i
    {
      var k := key(entries[i]);
      assert entries[..i + 1] == entries[..i] + [entries[i]];
      KeysSnoc(key, entries[..i], entries[i]);
      if k !in seen {
        seen := seen + {k};
        out := out + [entries[i]];
      } else {
        deduped := deduped + 1;
      }
    }
    assert entries[..|entries|] == entries;
  }

  // ---- import ----

  datatype MergeReport = MergeReport(added: nat, skippedDup: nat, skippedInvalid: nat, encodingHint: bool)

  /** Row `i` is the first valid row of its key, and the dictionary does not have the key yet. */
  predicate IsNew<E(==), K(==)>(key: E -> K, valid: E -> bool, existing: seq<E>, rows: seq<E>, i: nat)
    requires i < |rows|
  {
    && valid(rows[i])
    && key(rows[i]) !in Keys(key, existing)
    && !HasValidRow(key, valid, rows[..i], key(rows[i]))
  }

  /** The rows an import appends, in order. */
  function NewRows<E(==), K(==)>(key: E -> K, valid: E -> bool, existing: seq<E>, rows: seq<E>): seq<E> {
    if rows == [] then []
    else
      NewRows(key, valid, existing, rows[..|rows| - 1])
      + if IsNew(key, valid, existing, rows, |rows| - 1) then [rows[|rows| - 1]] else []
  }

  function InvalidRows<E>(valid: E -> bool, rows: seq<E>): nat {
    if rows == [] then 0
    else InvalidRows(valid, rows[..|rows| - 1]) + if valid(rows[|rows| - 1]) then 0 else 1
  }

  /** Some valid row has the key. */
  predicate HasValidRow<E, K(==)>(key: E -> K, valid: E -> bool, rows: seq<E>, k: K) {
    exists i :: 0 <= i < |rows| && valid(rows[i]) && key(rows[i]) == k
  }

  lemma HasValidRowSnoc<E, K>(key: E -> K, valid: E -> bool, rows: seq<E>, row: E, k: K)
    ensures HasValidRow(key, valid, rows + [row], k) <==>
            HasValidRow(key, valid, rows, k) || (valid(row) && key(row) == k)
  {
    var all := rows + [row];
    if HasValidRow(key, valid, rows, k) {
      var i :| 0 <= i < |rows| && valid(rows[i]) && key(rows[i]) == k;
      assert all[i] == rows[i];
    }
    if valid(row) && key(row) == k {
      assert all[|rows|] == row;
    }
  }

  /** After an import the dictionary has exactly its old keys and those of the valid rows. */
  lemma {:induction false} NewRowsKeys<E, K>(key: E -> K, valid: E -> bool, existing: seq<E>, rows: seq<E>, k: K)
    ensures k in Keys(key, existing + NewRows(key, valid, existing, rows)) <==>
            k in Keys(key, existing) || HasValidRow(key, valid, rows, k)
  {
    if rows == [] {
      assert existing + NewRows(key, valid, existing, rows) == existing;
    } else {
      var front, last := rows[..|rows| - 1], rows[|rows| - 1];
      var before := existing + NewRows(key, valid, existing, front);
      NewRowsKeys(key, valid, existing, front, k);
      assert rows == front + [last];
      HasValidRowSnoc(key, valid, front, last, k);
      if IsNew(key, valid, existing, rows, |rows| - 1) {
        assert existing + NewRows(key, valid, existing, rows) == before + [last];
        KeysSnoc(key, before, last);
      } else {
        assert existing + NewRows(key, valid, existing, rows) == before;
      }
    }
  }

  /** Imports keep keys distinct, whatever is imported. */
  lemma {:induction false} ImportKeepsKeysDistinct<E, K>(key: E -> K, valid: E -> bool, existing: seq<E>, rows: seq<E>)
    requires KeysDistinct(key, existing)
    ensures KeysDistinct(key, existing + NewRows(key, valid, existing, rows))
  {
    if rows == [] {
      assert existing + NewRows(key, valid, existing, rows) == existing;
    } else {
      var front, last := rows[..|rows| - 1], rows[|rows| - 1];
      var before := existing + NewRows(key, valid, existing, front);
      ImportKeepsKeysDistinct(key, valid, existing, front);
      if IsNew(key, valid, existing, rows, |rows| - 1) {
        NewRowsKeys(key, valid, existing, front, key(last));
        assert key(last) !in Keys(key, before);
        DistinctSnoc(key, before, last);
        assert existing + NewRows(key, valid, existing, rows) == before + [last];
      } else {
        assert existing + NewRows(key, valid, existing, rows) == before;
      }
    }
  }

  /** Importing rows whose keys are all there already adds nothing. */
  lemma {:induction false} NothingNew<E, K>(key: E -> K, valid: E -> bool, existing: seq<E>, rows: seq<E>)
    requires forall i :: 0 <= i < |rows| && valid(rows[i]) ==> key(rows[i]) in Keys(key, existing)
    ensures NewRows(key, valid, existing, rows) == []
  {
    if rows != [] {
      NothingNew(key, valid, existing, rows[..|rows| - 1]);
    }
  }

  /** Importing the same rows a second time adds nothing. */
  lemma ImportingAgainAddsNothing<E, K>(key: E -> K, valid: E -> bool, existing: seq<E>, rows: seq<E>)
    ensures NewRows(key, valid, existing + NewRows(key, valid, existing, rows), rows) == []
  {
    forall i | 0 <= i < |rows| && valid(rows[i])
      ensures key(rows[i]) in Keys(key, existing + NewRows(key, valid, existing, rows))
    {
      NewRowsKeys(key, valid, existing, rows, key(rows[i]));
    }
    NothingNew(key, valid, existing + NewRows(key, valid, existing, rows), rows);
  }

  method Merge<E(==), K(==)>(key: E -> K, valid: E -> bool, suspect: E -> bool,
                         existing: seq<E>, rows: seq<E>, hadReplacement: bool)
    returns (merged: seq<E>, report: MergeReport)
    ensures merged == existing + NewRows(key, valid, existing, rows)
    ensures report.added == |NewRows(key, valid, existing, rows)|
    ensures report.skippedInvalid == InvalidRows(valid, rows)
    ensures report.added + report.skippedDup + report.skippedInvalid == |rows|
    ensures report.encodingHint <==>
            hadReplacement || exists i :: 0 <= i < |rows| && !valid(rows[i]) && suspect(rows[i])
  {
    var seen := Keys(key, existing);
    merged := existing;
    var added, skippedDup, skippedInvalid := 0, 0, 0;
    var invalidHadReplacement := false;
    for i := 0 to |rows|
      invariant merged == existing + NewRows(key, valid, existing, rows[..i])
      invariant seen == Keys(key, merged)
      invariant added == |NewRows(key, valid, existing, rows[..i])|
      invariant skippedInvalid == InvalidRows(valid, rows[..i])
      invariant added + skippedDup + skippedInvalid == i
      invariant invalidHadReplacement <==> exists j :: 0 <= j < i && !valid(rows[j]) && suspect(rows[j])
    {
      var row := rows[i];
      assert rows[..i + 1][..i] == rows[..i];
      assert IsNew(key, valid, existing, rows[..i + 1], i) <==> valid(row) && key(row) !in seen by {
        NewRowsKeys(key, valid, existing, rows[..i], key(row));
      }
      if !valid(row) {
        skippedInvalid := skippedInvalid + 1;
        if suspect(row) {
          invalidHadReplacement := true;
        }
      } else if key(row) in seen {
        skippedDup := skippedDup + 1;
      } else {
        KeysSnoc(key, merged, row);
        seen := seen + {key(row)};
        merged := merged + [row];
        added := added + 1;
      }
    }
    assert rows[..|rows|] == rows;
    report := MergeReport(added, skippedDup, skippedInvalid, hadReplacement || invalidHadReplacement);
  }

  // ---- the finite map a list stands for ----

  function AsMap<E, K(==)>(key: E -> K, entries: seq<E>): map<K, E> {
    if entries == [] then map[]
    else AsMap(key, entries[..|entries| - 1])[key(entries[|entries| - 1]) := entries[|entries| - 1]]
  }

  lemma {:induction false} AsMapKeys<E, K>(key: E -> K, entries: seq<E>)
    ensures AsMap(key, entries).Keys == Keys(key, entries)
  {
    if entries != [] {
      var front, last := entries[..|entries| - 1], entries[|entries| - 1];
      AsMapKeys(key, front);
      assert entries == front + [last];
      KeysSnoc(key, front, last);
    }
  }

  lemma {:induction false} AsMapAt<E, K>(key: E -> K, entries: seq<E>, i: nat)
    requires KeysDistinct(key, entries) && i < |entries|
    ensures key(entries[i]) in AsMap(key, entries) && AsMap(key, entries)[key(entries[i])] == entries[i]
  {
    if i < |entries| - 1 {
      AsMapAt(key, entries[..|entries| - 1], i);
    }
  }

  lemma {:induction false} AsMapSize<E, K>(key: E -> K, entries: seq<E>)
    requires KeysDistinct(key, entries)
    ensures |AsMap(key, entries)| == |entries|
  {
    if entries != [] {
      var front, last := entries[..|entries| - 1], entries[|entries| - 1];
      AsMapSize(key, front);
      AsMapKeys(key, front);
      NotInPart(key, front, key(last));
      assert AsMap(key, entries).Keys == AsMap(key, front).Keys + {key(last)};
    }
  }

  /** Appending entries overrides the map by the map of the appended entries. */
  lemma {:induction false} AppendIsMapMerge<E, K>(key: E -> K, a: seq<E>, b: seq<E>)
    ensures AsMap(key, a + b) == AsMap(key, a) + AsMap(key, b)
  {
    if b == [] {
      assert a + b == a;
    } else {
      var front, last := b[..|b| - 1], b[|b| - 1];
      AppendIsMapMerge(key, a, front);
      assert (a + b)[..|a + b| - 1] == a + front;
    }
  }

  lemma AroundIsMapMerge<E, K>(key: E -> K, a: seq<E>, x: E, b: seq<E>)
    requires key(x) !in Keys(key, b)
    ensures AsMap(key, a + [x] + b) == (AsMap(key, a) + AsMap(key, b))[key(x) := x]
  {
    AppendIsMapMerge(key, a + [x], b);
    AppendIsMapMerge(key, a, [x]);
    assert AsMap(key, [x]) == map[key(x) := x];
    AsMapKeys(key, b);
  }

  function RemoveAt<E>(entries: seq<E>, i: nat): seq<E>
    requires i < |entries|
  {
    entries[..i] + entries[i + 1..]
  }

  lemma RemoveAtKeepsDistinct<E, K>(key: E -> K, entries: seq<E>, i: nat)
    requires KeysDistinct(key, entries) && i < |entries|
    ensures KeysDistinct(key, RemoveAt(entries, i))
  {
    var rest := RemoveAt(entries, i);
    assert forall j :: 0 <= j < |rest| ==> rest[j] == entries[if j < i then j else j + 1];
  }

  lemma RemoveInserted<K, V>(m: map<K, V>, k: K, v: V)
    requires k !in m
    ensures m[k := v] - {k} == m
  {
  }

  /** The key at a position occurs neither before nor after it. */
  lemma KeyOnlyHere<E, K>(key: E -> K, entries: seq<E>, i: nat)
    requires KeysDistinct(key, entries) && i < |entries|
    ensures key(entries[i]) !in Keys(key, entries[..i]) && key(entries[i]) !in Keys(key, entries[i + 1..])
  {
    NotInPart(key, entries[..i], key(entries[i]));
    NotInPart(key, entries[i + 1..], key(entries[i]));
  }

  lemma RemoveAtIsMapRemove<E, K>(key: E -> K, entries: seq<E>, i: nat)
    requires KeysDistinct(key, entries) && i < |entries|
    ensures AsMap(key, RemoveAt(entries, i)) == AsMap(key, entries) - {key(entries[i])}
  {
    var a, x, b := entries[..i], entries[i], entries[i + 1..];
    KeyOnlyHere(key, entries, i);
    assert entries == a + [x] + b;
    AroundIsMapMerge(key, a, x, b);
    AppendIsMapMerge(key, a, b);
    AsMapKeys(key, a);
    AsMapKeys(key, b);
    RemoveInserted(AsMap(key, a) + AsMap(key, b), key(x), x);
  }

  lemma ReplaceAtIsMapUpdate<E, K>(key: E -> K, entries: seq<E>, i: nat, e: E)
    requires KeysDistinct(key, entries) && i < |entries|
    requires forall j :: 0 <= j < |entries| && j != i ==> key(entries[j]) != key(e)
    ensures KeysDistinct(key, entries[i := e])
    ensures AsMap(key, entries[i := e]) == (AsMap(key, entries) - {key(entries[i])})[key(e) := e]
  {
    var a, b := entries[..i], entries[i + 1..];
    NotInPart(key, b, key(e));
    RemoveAtIsMapRemove(key, entries, i);
    assert entries[i := e] == a + [e] + b;
    AroundIsMapMerge(key, a, e, b);
    AppendIsMapMerge(key, a, b);
  }

  /** In a list with distinct keys, position and map entry determine each other. */
  lemma KeyHasPosition<E, K>(key: E -> K, entries: seq<E>, k: K)
    ensures k in AsMap(key, entries) <==> exists i :: 0 <= i < |entries| && key(entries[i]) == k
  {
    AsMapKeys(key, entries);
    if k in Keys(key, entries) {
      var e :| e in entries && key(e) == k;
      var i :| 0 <= i < |entries| && entries[i] == e;
    }
    if i :| 0 <= i < |entries| && key(entries[i]) == k {
      assert entries[i] in entries;
    }
  }

  /** An entry other than the one at `at` has the key. */
  predicate OtherHasKey<E, K(==)>(key: E -> K, entries: seq<E>, at: nat, k: K) {
    exists i | 0 <= i < |entries| :: i != at && key(entries[i]) == k
  }

  /** The first position of a key. */
  function Position<E, K(==)>(key: E -> K, entries: seq<E>, k: K): (r: Option<nat>)
    ensures r.None? ==> forall i :: 0 <= i < |entries| ==> key(entries[i]) != k
    ensures r.Some? ==> r.value < |entries| && key(entries[r.value]) == k
    ensures r.Some? ==> forall i :: 0 <= i < r.value ==> key(entries[i]) != k
    decreases |entries|
  {
    if entries == [] then None
    else if key(entries[0]) == k then Some(0)
    else
      var rest := Position(key, entries[1..], k);
      assert forall i :: 1 <= i < |entries| ==> entries[i] == entries[1..][i - 1];
      if rest.None? then None else Some(rest.value + 1)
  }

  /** Merging rows into a map one by one: the first valid row of a new key wins. */
  function MergeRows<E, K(==)>(key: E -> K, valid: E -> bool, m: map<K, E>, rows: seq<E>): map<K, E> {
    if rows == [] then m
    else
      var before, row := MergeRows(key, valid, m, rows[..|rows| - 1]), rows[|rows| - 1];
      if valid(row) && key(row) !in before then before[key(row) := row] else before
  }

  lemma AsMapSnoc<E, K>(key: E -> K, entries: seq<E>, e: E)
    ensures AsMap(key, entries + [e]) == AsMap(key, entries)[key(e) := e]
  {
    assert (entries + [e])[..|entries|] == entries;
  }

  lemma NewMeansAbsent<E, K>(key: E -> K, valid: E -> bool, existing: seq<E>, rows: seq<E>)
    requires rows != []
    ensures var before := existing + NewRows(key, valid, existing, rows[..|rows| - 1]);
            var row := rows[|rows| - 1];
            var isNew := valid(row) && key(row) !in AsMap(key, before);
            existing + NewRows(key, valid, existing, rows) == if isNew then before + [row] else before
  {
    var front, row := rows[..|rows| - 1], rows[|rows| - 1];
    var before := existing + NewRows(key, valid, existing, front);
    NewRowsKeys(key, valid, existing, front, key(row));
    AsMapKeys(key, before);
  }

  /** Importing into the list is merging into the map. */
  lemma {:induction false} ImportIsMapMerge<E, K>(key: E -> K, valid: E -> bool, entries: seq<E>, rows: seq<E>)
    ensures AsMap(key, entries + NewRows(key, valid, entries, rows)) == MergeRows(key, valid, AsMap(key, entries), rows)
  {
    if rows == [] {
      assert entries + NewRows(key, valid, entries, rows) == entries;
    } else {
      var front, row := rows[..|rows| - 1], rows[|rows| - 1];
      ImportIsMapMerge(key, valid, entries, front);
      NewMeansAbsent(key, valid, entries, rows);
      AsMapSnoc(key, entries + NewRows(key, valid, entries, front), row);
    }
  }
}
