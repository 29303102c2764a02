/** Laying the known settings fields over the JSON that is on disk. */
module SettingsMerge {
  import opened Prelude
  import opened Json

  /** Known members win, unknown members stay, and anything that is not two objects is replaced. */
  function MergeKnown(destination: Json, known: Json): Json
    decreases known
  {
    if destination.Object? && known.Object? then
      Object(map key | key in destination.members.Keys + known.members.Keys ::
               if key !in known.members then destination.members[key]
               else if key !in destination.members then known.members[key]
               else MergeKnown(destination.members[key], known.members[key]))
    else known
  }

  /** The members after those of `known` outside `todo` have been laid over `start`. */
  ghost predicate LaidOver(start: map<string, Json>, known: map<string, Json>, todo: set<string>,
                           now: map<string, Json>, result: map<string, Json>)
    requires result.Keys == start.Keys + known.Keys
  {
    forall key ::
      && (key in now <==> key in start || (key in known && key !in todo))
      && (key in now ==> now[key] == if key in known && key !in todo then result[key] else start[key])
  }

  lemma LayOver(start: map<string, Json>, known: map<string, Json>, todo: set<string>,
                now: map<string, Json>, result: map<string, Json>, key: string)
    requires result.Keys == start.Keys + known.Keys
    requires key in todo && key in known
    requires LaidOver(start, known, todo, now, result)
    ensures LaidOver(start, known, todo - {key}, now[key := result[key]], result)
  {
  }

  lemma AllLaidOver(start: map<string, Json>, known: map<string, Json>, now: map<string, Json>,
                    result: map<string, Json>)
    requires result.Keys == start.Keys + known.Keys
    requires forall key | key in start && key !in known :: result[key] == start[key]
    requires LaidOver(start, known, {}, now, result)
    ensures now == result
  {
    assert now.Keys == result.Keys;
  }

  /** `merge_known_fields`: the members of `known` are laid over the destination one by one. */
  method MergeKnownFields(destination: Json, known: Json) returns (merged: Json)
    ensures merged == MergeKnown(destination, known)
    decreases known
  {
    if !destination.Object? || !known.Object? {
      return known;
    }
    var start, fields := destination.members, known.members;
    ghost var result := MergeKnown(destination, known).members;
    var members := start;
    var todo := fields.Keys;
    while todo != {}
      invariant todo <= fields.Keys
      invariant LaidOver(start, fields, todo, members, result)
      decreases |todo|
    {
      var key :| key in todo;
      var value := fields[key];
      if key in members {
        value := MergeKnownFields(members[key], value);
      }
      LayOver(start, fields, todo, members, result, key);
      members := members[key := value];
      todo := todo - {key};
    }
    AllLaidOver(start, fields, members, result);
    merged := Object(members);
  }

  // ---- paths ----

  /** The value at a path of member names. */
  function Lookup(value: Json, path: seq<string>): Option<Json>
    decreases |path|
  {
    if path == [] then Some(value)
    else if value.Object? && path[0] in value.members then Lookup(value.members[path[0]], path[1..])
    else None
  }

  /** The path reaches, inside the objects of `known`, a member that `known` does not have. */
  predicate Unknown(known: Json, path: seq<string>)
    decreases |path|
  {
    known.Object? && path != [] &&
    (path[0] in known.members ==> Unknown(known.members[path[0]], path[1..]))
  }

  /** A save writes every known leaf. */
  lemma {:induction false} KnownLeavesAreWritten(destination: Json, known: Json, path: seq<string>)
    requires Lookup(known, path).Some? && !Lookup(known, path).value.Object?
    ensures Lookup(MergeKnown(destination, known), path) == Lookup(known, path)
    decreases |path|
  {
    if path != [] && destination.Object? && path[0] in destination.members {
      KnownLeavesAreWritten(destination.members[path[0]], known.members[path[0]], path[1..]);
    }
  }

  /** A save preserves every unknown member, at every depth, and invents none. */
  lemma {:induction false} UnknownMembersAreKept(destination: Json, known: Json, path: seq<string>)
    requires Unknown(known, path)
    ensures Lookup(MergeKnown(destination, known), path) == Lookup(destination, path)
    decreases |path|
  {
    if destination.Object? {
      if path[0] in known.members && path[0] in destination.members {
        UnknownMembersAreKept(destination.members[path[0]], known.members[path[0]], path[1..]);
      } else if path[0] in known.members {
        UnknownIsAbsent(known.members[path[0]], path[1..]);
      }
    } else {
      UnknownIsAbsent(known, path);
    }
  }

  lemma {:induction false} UnknownIsAbsent(known: Json, path: seq<string>)
    requires Unknown(known, path)
    ensures Lookup(known, path) == None
    decreases |path|
  {
    if path[0] in known.members {
      UnknownIsAbsent(known.members[path[0]], path[1..]);
    }
  }

  // ---- reading back ----

  /** The part of `value` that has the members of `shape`. */
  function Project(shape: Json, value: Json): Json
    decreases shape
  {
    if shape.Object? && value.Object? then
      Object(map key | key in shape.members.Keys * value.members.Keys ::
          Project(shape.members[key], value.members[key]))
    else value
  }

  lemma {:induction false} ProjectSelf(value: Json)
    ensures Project(value, value) == value
    decreases value
  {
    if value.Object? {
      forall key | key in value.members ensures Project(value.members[key], value.members[key]) == value.members[key] {
        ProjectSelf(value.members[key]);
      }
      assert Project(value, value).members == value.members;
    }
  }

  /** Looking only at the known members, the merged file is the saved value. */
  lemma {:induction false} MergedShowsKnown(destination: Json, known: Json)
    ensures Project(known, MergeKnown(destination, known)) == known
    decreases known
  {
    if destination.Object? && known.Object? {
      var merged := MergeKnown(destination, known);
      forall key | key in known.members ensures Project(known.members[key], merged.members[key]) == known.members[key] {
        if key in destination.members {
          MergedShowsKnown(destination.members[key], known.members[key]);
        } else {
          ProjectSelf(known.members[key]);
        }
      }
      assert Project(known, merged).members == known.members;
    } else {
      ProjectSelf(known);
    }
  }

  /** Merging neither nests deeper nor makes up numbers. */
  lemma {:induction false} MergeFits(numbers: string -> bool, destination: Json, known: Json, depth: nat)
    requires Fits(numbers, destination, depth) && Fits(numbers, known, depth)
    ensures Fits(numbers, MergeKnown(destination, known), depth)
    decreases known
  {
    if destination.Object? && known.Object? {
      var merged := MergeKnown(destination, known);
      forall key | key in merged.members ensures Fits(numbers, merged.members[key], depth - 1) {
        if key in destination.members && key in known.members {
          MergeFits(numbers, destination.members[key], known.members[key], depth - 1);
        }
      }
    }
  }

  // ---- saving twice ----

  /** Whatever `first` writes, `second` overwrites. */
  predicate Covered(first: Json, second: Json)
    decreases second
  {
    second.Object? ==>
      && first.Object? && first.members.Keys <= second.members.Keys
      && forall key | key in first.members :: Covered(first.members[key], second.members[key])
  }

  /** Objects with the same member names at every depth, and leaves at the same places. */
  predicate SameShape(first: Json, second: Json)
    decreases second
  {
    && (first.Object? <==> second.Object?)
    && (first.Object? ==>
          && first.members.Keys == second.members.Keys
          && forall key | key in first.members :: SameShape(first.members[key], second.members[key]))
  }

  lemma {:induction false} SameShapeIsCovered(first: Json, second: Json)
    requires SameShape(first, second)
    ensures Covered(first, second)
    decreases second
  {
    if second.Object? {
      forall key | key in first.members ensures Covered(first.members[key], second.members[key]) {
        SameShapeIsCovered(first.members[key], second.members[key]);
      }
    }
  }

  lemma {:induction false} SameShapeReflexive(value: Json)
    ensures SameShape(value, value)
    decreases value
  {
    if value.Object? {
      forall key | key in value.members ensures SameShape(value.members[key], value.members[key]) {
        SameShapeReflexive(value.members[key]);
      }
    }
  }

  lemma {:induction false} MergeIntoCovered(first: Json, second: Json)
    requires Covered(first, second)
    ensures MergeKnown(first, second) == second
    decreases second
  {
    if second.Object? {
      forall key | key in first.members
        ensures MergeKnown(first.members[key], second.members[key]) == second.members[key]
      {
        MergeIntoCovered(first.members[key], second.members[key]);
      }
      assert MergeKnown(first, second).members == second.members;
    }
  }

  lemma {:induction false} CoveredSecondWins(destination: Json, first: Json, second: Json)
    requires Covered(first, second)
    ensures MergeKnown(MergeKnown(destination, first), second) == MergeKnown(destination, second)
    decreases second
  {
    if second.Object? {
      var once := MergeKnown(destination, first);
      if destination.Object? {
        forall key | key in second.members && key in once.members
          ensures MergeKnown(once.members[key], second.members[key]) == MergeKnown(destination, second).members[key]
        {
          if key in first.members {
            if key in destination.members {
              CoveredSecondWins(destination.members[key], first.members[key], second.members[key]);
            } else {
              MergeIntoCovered(first.members[key], second.members[key]);
            }
          }
        }
        assert MergeKnown(once, second).members == MergeKnown(destination, second).members;
      } else {
        MergeIntoCovered(first, second);
      }
    }
  }

  /** Saving the same settings twice is saving them once. */
  lemma MergeIsIdempotent(destination: Json, known: Json)
    ensures MergeKnown(MergeKnown(destination, known), known) == MergeKnown(destination, known)
  {
    SameShapeReflexive(known);
    SameShapeIsCovered(known, known);
    CoveredSecondWins(destination, known, known);
  }

  /** For values with the same members at every depth a second save wins completely. */
  lemma SecondSaveWins(destination: Json, first: Json, second: Json)
    requires SameShape(first, second)
    ensures MergeKnown(MergeKnown(destination, first), second) == MergeKnown(destination, second)
  {
    SameShapeIsCovered(first, second);
    CoveredSecondWins(destination, first, second);
  }

  /** Some name that is not among the given ones. */
  lemma FreshName(names: set<string>) returns (name: string)
    ensures name !in names
    ensures forall n | n in names :: |n| < |name|
    decreases |names|
  {
    if names == {} {
      name := "";
    } else {
      var n :| n in names;
      var rest := FreshName(names - {n});
      name := seq(|rest| + |n| + 1, _ => 'x');
      forall m | m in names ensures |m| < |name| {
        assert m == n || m in names - {n};
      }
    }
  }

  /** A file on which the first save leaves something that the second does not overwrite. */
  lemma {:induction false} UncoveredLeavesTraces(first: Json, second: Json) returns (destination: Json)
    requires !Covered(first, second)
    ensures MergeKnown(MergeKnown(destination, first), second) != MergeKnown(destination, second)
    decreases second
  {
    if !first.Object? {
      var name := FreshName(second.members.Keys);
      destination := Object(map[name := Null]);
      assert name in MergeKnown(destination, second).members;
      assert name !in MergeKnown(first, second).members;
    } else if key :| key in first.members && key !in second.members {
      destination := Object(map[]);
      assert key in MergeKnown(MergeKnown(destination, first), second).members;
      assert key !in MergeKnown(destination, second).members;
    } else {
      var key :| key in first.members && !Covered(first.members[key], second.members[key]);
      var below := UncoveredLeavesTraces(first.members[key], second.members[key]);
      destination := Object(map[key := below]);
      var once := MergeKnown(destination, first);
      assert once.members[key] == MergeKnown(below, first.members[key]);
      assert MergeKnown(once, second).members[key] == MergeKnown(once.members[key], second.members[key]);
      assert MergeKnown(destination, second).members[key] == MergeKnown(below, second.members[key]);
    }
  }

  /** Exactly when a second save leaves no trace of the first, whatever is on disk. */
  lemma SecondSaveWinsExactly(first: Json, second: Json)
    ensures (forall destination: Json ::
               MergeKnown(MergeKnown(destination, first), second) == MergeKnown(destination, second))
            <==> Covered(first, second)
  {
    if Covered(first, second) {
      forall destination: Json
        ensures MergeKnown(MergeKnown(destination, first), second) == MergeKnown(destination, second)
      {
        CoveredSecondWins(destination, first, second);
      }
    } else {
      var destination := UncoveredLeavesTraces(first, second);
    }
  }
}
