/** Stable sorting by a total preorder, and the byte order of strings. */
module Sorting {
  import opened Prelude

  ghost predicate TotalPreorder<E(!new)>(le: (E, E) -> bool) {
    && (forall a, b :: le(a, b) || le(b, a))
    && (forall a, b, c :: le(a, b) && le(b, c) ==> le(a, c))
  }

  predicate Sorted<E>(le: (E, E) -> bool, s: seq<E>) {
    forall i, j :: 0 <= i < j < |s| ==> le(s[i], s[j])
  }

  /** Puts `x` before the first element it may precede. */
  function Insert<E>(le: (E, E) -> bool, x: E, s: seq<E>): seq<E> {
    if s == [] || le(x, s[0]) then [x] + s else [s[0]] + Insert(le, x, s[1..])
  }

  function StableSort<E>(le: (E, E) -> bool, s: seq<E>): seq<E> {
    if s == [] then [] else Insert(le, s[0], StableSort(le, s[1..]))
  }

  function Filter<E>(p: E -> bool, s: seq<E>): seq<E> {
    if s == [] then [] else (if p(s[0]) then [s[0]] else []) + Filter(p, s[1..])
  }

  lemma {:induction false} InsertKeepsElements<E>(le: (E, E) -> bool, x: E, s: seq<E>)
    ensures multiset(Insert(le, x, s)) == multiset(s) + multiset{x}
    ensures forall e | e in Insert(le, x, s) :: e == x || e in s
  {
    if s != [] && !le(x, s[0]) {
      InsertKeepsElements(le, x, s[1..]);
      assert s == [s[0]] + s[1..];
    }
  }

  lemma {:induction false} InsertSorts<E(!new)>(le: (E, E) -> bool, x: E, s: seq<E>)
    requires TotalPreorder(le) && Sorted(le, s)
    ensures Sorted(le, Insert(le, x, s))
  {
    if s != [] {
      if le(x, s[0]) {
        assert forall i :: 0 <= i < |s| ==> le(x, s[i]);
      } else {
        InsertSorts(le, x, s[1..]);
        InsertKeepsElements(le, x, s[1..]);
        var rest := Insert(le, x, s[1..]);
        forall i | 0 <= i < |rest| ensures le(s[0], rest[i]) {
          assert rest[i] in rest;
        }
      }
    }
  }

  /** The result is ordered and has the same elements. */
  lemma {:induction false} SortSorts<E(!new)>(le: (E, E) -> bool, s: seq<E>)
    requires TotalPreorder(le)
    ensures Sorted(le, StableSort(le, s))
    ensures multiset(StableSort(le, s)) == multiset(s) && |StableSort(le, s)| == |s|
  {
    if s != [] {
      SortSorts(le, s[1..]);
      InsertSorts(le, s[0], StableSort(le, s[1..]));
      InsertKeepsElements(le, s[0], StableSort(le, s[1..]));
      assert s == [s[0]] + s[1..];
      assert |StableSort(le, s)| == |multiset(StableSort(le, s))| == |multiset(s)| == |s|;
    }
  }

  lemma FilterCons<E>(p: E -> bool, x: E, s: seq<E>)
    ensures Filter(p, [x] + s) == (if p(x) then [x] else []) + Filter(p, s)
  {
    assert ([x] + s)[1..] == s;
  }

  lemma {:induction false} FilterSnoc<E>(p: E -> bool, s: seq<E>, x: E)
    ensures Filter(p, s + [x]) == Filter(p, s) + if p(x) then [x] else []
  {
    if s == [] {
      FilterCons(p, x, []);
      assert [] + [x] == [x] + [];
    } else {
      assert s == [s[0]] + s[1..] && s + [x] == [s[0]] + (s[1..] + [x]);
      FilterCons(p, s[0], s[1..]);
      FilterCons(p, s[0], s[1..] + [x]);
      FilterSnoc(p, s[1..], x);
      Reassociate(if p(s[0]) then [s[0]] else [], Filter(p, s[1..]), if p(x) then [x] else []);
    }
  }

  lemma {:induction false} InsertIsStable<E(!new)>(le: (E, E) -> bool, x: E, s: seq<E>, p: E -> bool)
    requires forall a, b :: p(a) && p(b) ==> le(a, b)
    ensures Filter(p, Insert(le, x, s)) == (if p(x) then [x] else []) + Filter(p, s)
  {
    if s == [] || le(x, s[0]) {
      FilterCons(p, x, s);
    } else {
      InsertIsStable(le, x, s[1..], p);
      FilterCons(p, s[0], Insert(le, x, s[1..]));
      assert !(p(x) && p(s[0]));
    }
  }

  /** Elements that are equal for the order keep their relative positions. */
  lemma {:induction false} SortIsStable<E(!new)>(le: (E, E) -> bool, s: seq<E>, p: E -> bool)
    requires forall a, b :: p(a) && p(b) ==> le(a, b)
    ensures Filter(p, StableSort(le, s)) == Filter(p, s)
  {
    if s != [] {
      SortIsStable(le, s[1..], p);
      InsertIsStable(le, s[0], StableSort(le, s[1..]), p);
    }
  }

  /** Sorting changes nothing that is already in order. */
  lemma {:induction false} SortFixesSorted<E>(le: (E, E) -> bool, s: seq<E>)
    requires Sorted(le, s)
    ensures StableSort(le, s) == s
  {
    if s != [] {
      SortFixesSorted(le, s[1..]);
      assert s == [s[0]] + s[1..];
    }
  }

  lemma {:induction false} FilterKeepsSorted<E>(le: (E, E) -> bool, p: E -> bool, s: seq<E>)
    requires Sorted(le, s)
    ensures Sorted(le, Filter(p, s))
    ensures forall e | e in Filter(p, s) :: e in s && p(e)
  {
    if s != [] {
      FilterKeepsSorted(le, p, s[1..]);
      var rest := Filter(p, s[1..]);
      forall i | 0 <= i < |rest| ensures le(s[0], rest[i]) {
        assert rest[i] in s[1..];
        var j :| 0 <= j < |s[1..]| && s[1..][j] == rest[i];
        assert le(s[0], s[j + 1]);
      }
    }
  }

  // ---- strings by code point, which is the byte order of their UTF-8 form ----

  predicate StringLe(a: string, b: string) {
    a == "" || (b != "" && (a[0] < b[0] || (a[0] == b[0] && StringLe(a[1..], b[1..]))))
  }

  lemma {:induction false} StringLeTotal(a: string, b: string)
    ensures StringLe(a, b) || StringLe(b, a)
    ensures StringLe(a, b) && StringLe(b, a) ==> a == b
  {
    if a != "" && b != "" && a[0] == b[0] {
      StringLeTotal(a[1..], b[1..]);
      assert a == [a[0]] + a[1..] && b == [b[0]] + b[1..];
    }
  }

  lemma {:induction false} StringLeTransitive(a: string, b: string, c: string)
    requires StringLe(a, b) && StringLe(b, c)
    ensures StringLe(a, c)
  {
    if a != "" && a[0] == b[0] && b[0] == c[0] {
      StringLeTransitive(a[1..], b[1..], c[1..]);
    }
  }

  /** The lexicographic order of pairs of strings. */
  predicate PairLe(a: (string, string), b: (string, string)) {
    if a.0 == b.0 then StringLe(a.1, b.1) else StringLe(a.0, b.0)
  }

  lemma PairLeTotal(a: (string, string), b: (string, string))
    ensures PairLe(a, b) || PairLe(b, a)
  {
    StringLeTotal(a.0, b.0);
    StringLeTotal(a.1, b.1);
  }

  lemma PairLeTransitive(a: (string, string), b: (string, string), c: (string, string))
    requires PairLe(a, b) && PairLe(b, c)
    ensures PairLe(a, c)
  {
    StringLeTotal(a.0, b.0);
    StringLeTotal(b.0, c.0);
    if a.0 == b.0 == c.0 {
      StringLeTransitive(a.1, b.1, c.1);
    } else if a.0 != b.0 && b.0 != c.0 {
      StringLeTransitive(a.0, b.0, c.0);
    }
  }
}
