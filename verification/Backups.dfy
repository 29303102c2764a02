/** A file with the backups that quarantine puts beside it. */
module Backups {
  import opened Prelude

  /** A backup name: the time and process part, and the collision counter. */
  type Name = (string, nat)

  /** The content of the path and of the backups. */
  datatype Store = Store(file: Option<Bytes>, backups: map<Name, Bytes>)

  ghost function Taken(backups: map<Name, Bytes>, stamp: string, n: nat): set<Name> {
    set k | k in backups && k.0 == stamp && k.1 >= n
  }

  /** The first unused counter for a stamp: an existing backup is never overwritten. */
  function FreshFrom(backups: map<Name, Bytes>, stamp: string, n: nat): (r: nat)
    ensures r >= n && (stamp, r) !in backups
    ensures forall i :: n <= i < r ==> (stamp, i) in backups
    decreases Taken(backups, stamp, n)
  {
    if (stamp, n) in backups then
      assert (stamp, n) in Taken(backups, stamp, n) - Taken(backups, stamp, n + 1);
      FreshFrom(backups, stamp, n + 1)
    else n
  }

  /** `quarantine_dest_path`: count up until the name is free. */
  method QuarantineDestPath(backups: map<Name, Bytes>, stamp: string) returns (name: Name)
    ensures name == (stamp, FreshFrom(backups, stamp, 0))
  {
    var n := 0;
    while (stamp, n) in backups
      invariant FreshFrom(backups, stamp, n) == FreshFrom(backups, stamp, 0)
      decreases Taken(backups, stamp, n)
    {
      assert (stamp, n) in Taken(backups, stamp, n) - Taken(backups, stamp, n + 1);
      n := n + 1;
    }
    name := (stamp, n);
  }

  /** Quarantine: rename the file to a fresh name, else copy it there, else fail and change nothing. */
  function PutAwaySpec(s: Store, bytes: Bytes, stamp: string, renameFails: bool, copyFails: bool): (bool, Store) {
    var backups := s.backups[(stamp, FreshFrom(s.backups, stamp, 0)) := bytes];
    if !renameFails then (true, Store(None, backups))
    else if !copyFails then (true, Store(s.file, backups))
    else (false, s)
  }

  predicate KeepsBackups(s: Store, s1: Store) {
    forall name | name in s.backups :: name in s1.backups && s1.backups[name] == s.backups[name]
  }

  /** The content at the path of `s` is in a backup that `s` did not have. */
  predicate PutAside(s: Store, s1: Store) {
    s.file.Some? && exists name | name in s1.backups :: name !in s.backups && s1.backups[name] == s.file.value
  }

  /** Quarantine touches no backup, and success means that the content is in a new one. */
  lemma PutAwayKeeps(s: Store, stamp: string, renameFails: bool, copyFails: bool)
    requires s.file.Some?
    ensures var (done, s1) := PutAwaySpec(s, s.file.value, stamp, renameFails, copyFails);
            && KeepsBackups(s, s1)
            && (if done then PutAside(s, s1) else s1 == s)
            && (s1.file == if renameFails then s.file else None)
  {
    var (done, s1) := PutAwaySpec(s, s.file.value, stamp, renameFails, copyFails);
    if done {
      assert (stamp, FreshFrom(s.backups, stamp, 0)) in s1.backups;
    }
  }

  /** Later steps that keep the backups do not undo putting aside. */
  lemma PutAsideStays(s: Store, s1: Store, s2: Store)
    requires PutAside(s, s1) && KeepsBackups(s1, s2)
    ensures PutAside(s, s2)
  {
    var name :| name in s1.backups && name !in s.backups && s1.backups[name] == s.file.value;
    assert name in s2.backups;
  }
}
