/** The orders the listings use: ascending identifiers (`ORDER BY <id>`), a sort by a
    total relation (`ORDER BY <date> DESC`, `ORDER BY <name>`), and the order of names. */
module Ordering {

  /** Every pair of values is related one way or the other. */
  ghost predicate Total<T(!new)>(leq: (T, T) -> bool)
  {
    forall a: T, b: T :: leq(a, b) || leq(b, a)
  }

  ghost predicate Transitive<T(!new)>(leq: (T, T) -> bool)
  {
    forall a: T, b: T, c: T :: leq(a, b) && leq(b, c) ==> leq(a, c)
  }

  /** Each element is related to the next one. */
  ghost predicate Sorted<T>(s: seq<T>, leq: (T, T) -> bool)
  {
    forall i :: 0 < i < |s| ==> leq(s[i - 1], s[i])
  }

  /** Each element is related to every later one. */
  ghost predicate SortedPairwise<T>(s: seq<T>, leq: (T, T) -> bool)
  {
    forall i, j :: 0 <= i < j < |s| ==> leq(s[i], s[j])
  }

  /** For a transitive relation, neighbours in order means every pair in order. */
  lemma {:induction false} SortedIsPairwise<T(!new)>(s: seq<T>, leq: (T, T) -> bool)
    requires Transitive(leq) && Sorted(s, leq)
    ensures SortedPairwise(s, leq)
  {
    if |s| > 1 {
      SortedIsPairwise(s[1..], leq);
      forall j | 1 <= j < |s| ensures leq(s[0], s[j]) {
        if j > 1 { assert leq(s[1], s[j]) by { assert s[1..][0] == s[1] && s[1..][j - 1] == s[j]; } }
      }
      forall i, j | 0 <= i < j < |s| ensures leq(s[i], s[j]) {
        if i > 0 { assert s[1..][i - 1] == s[i] && s[1..][j - 1] == s[j]; }
      }
    }
  }

  /** Puts x in front of the first element it is related to. */
  function Insert<T>(x: T, s: seq<T>, leq: (T, T) -> bool): (r: seq<T>)
    ensures multiset(r) == multiset(s) + multiset{x}
    ensures r[0] == x || (s != [] && r[0] == s[0])
  {
    if s == [] || leq(x, s[0]) then [x] + s
    else
      assert s == [s[0]] + s[1..];
      [s[0]] + Insert(x, s[1..], leq)
  }

  lemma {:induction false} InsertSorted<T(!new)>(x: T, s: seq<T>, leq: (T, T) -> bool)
    requires Total(leq) && Sorted(s, leq)
    ensures Sorted(Insert(x, s, leq), leq)
  {
    if s != [] && !leq(x, s[0]) {
      assert leq(s[0], x);
      assert Sorted(s[1..], leq) by {
        forall i | 0 < i < |s[1..]| ensures leq(s[1..][i - 1], s[1..][i]) { assert s[1..][i - 1] == s[i]; }
      }
      InsertSorted(x, s[1..], leq);
    }
  }

  /** Insertion sort: a permutation of s in which each element is related to the next
      whenever the relation is total. */
  function SortBy<T(!new)>(s: seq<T>, leq: (T, T) -> bool): (r: seq<T>)
    ensures multiset(r) == multiset(s)
    ensures Total(leq) ==> Sorted(r, leq)
  {
    if s == [] then []
    else
      var rest := SortBy(s[1..], leq);
      assert s == [s[0]] + s[1..];
      assert Total(leq) ==> Sorted(Insert(s[0], rest, leq), leq) by {
        if Total(leq) { InsertSorted(s[0], rest, leq); }
      }
      Insert(s[0], rest, leq)
  }

  /** The least element of a non-empty set of integers. */
  function Least(s: set<int>): (m: int)
    requires s != {}
    ensures m in s && forall k :: k in s ==> m <= k
  {
    LeastExists(s);
    var m :| m in s && forall k :: k in s ==> m <= k;
    m
  }

  /** A non-empty set has an element. */
  lemma NonEmptyHasElement(s: set<int>)
    requires s != {}
    ensures exists x :: x in s
  {
    if forall x :: x !in s { assert false; }
  }

  lemma {:induction false} LeastExists(s: set<int>)
    requires s != {}
    ensures exists m :: m in s && forall k :: k in s ==> m <= k
  {
    NonEmptyHasElement(s);
    var x :| x in s;
    if s != {x} {
      var others := s - {x};
      LeastExists(others);
      var m :| m in others && forall k :: k in others ==> m <= k;
      var least := if x < m then x else m;
      forall k | k in s ensures least <= k {
        if k != x { assert k in others; }
      }
    } else {
      assert forall k :: k in s ==> x <= k;
    }
  }

  /** The elements of a set of identifiers in strictly ascending order, each once. */
  function Ascending(s: set<int>): (r: seq<int>)
    ensures multiset(r) == multiset(s)
    ensures forall i :: 0 <= i < |r| ==> r[i] in s
    ensures forall i, j :: 0 <= i < j < |r| ==> r[i] < r[j]
    decreases |s|
  {
    if s == {} then []
    else
      var m := Least(s);
      var rest := Ascending(s - {m});
      LeastFirst(s, m, rest);
      [m] + rest
  }

  /** Putting the least element m of s before the elements of s - {m} gives the elements
      of s, with m below every later one. */
  lemma LeastFirst(s: set<int>, m: int, rest: seq<int>)
    requires m in s && forall k :: k in s ==> m <= k
    requires multiset(rest) == multiset(s - {m})
    ensures multiset([m] + rest) == multiset(s)
    ensures forall j :: 0 <= j < |rest| ==> rest[j] in s && m < rest[j]
  {
    assert multiset(s) == multiset{m} + multiset(s - {m}) by {
      assert s == {m} + (s - {m});
    }
    forall j | 0 <= j < |rest| ensures rest[j] in s && m < rest[j] {
      assert rest[j] in multiset(rest);
    }
  }

  /** The identifiers in keys, latest first (`ORDER BY <date> DESC`); identifiers with the
      same date come in no particular order. */
  function LatestFirst(keys: set<int>, date: int -> int): (ids: seq<int>)
    ensures multiset(ids) == multiset(keys)
    ensures forall i :: 0 <= i < |ids| ==> ids[i] in keys
    ensures forall i, j :: 0 <= i < j < |ids| ==> date(ids[i]) >= date(ids[j])
  {
    var later := (a: int, b: int) => date(a) >= date(b);
    assert Total(later) && Transitive(later);
    var ids := SortBy(Ascending(keys), later);
    SortedIsPairwise(ids, later);
    assert forall i :: 0 <= i < |ids| ==> ids[i] in keys by {
      forall i | 0 <= i < |ids| ensures ids[i] in keys { assert ids[i] in multiset(ids); }
    }
    ids
  }

  /** Lexicographic order of names by character code: the empty name comes first. */
  predicate NameLeq(a: string, b: string)
  {
    a == [] || (b != [] && (a[0] < b[0] || (a[0] == b[0] && NameLeq(a[1..], b[1..]))))
  }

  lemma {:induction false} NameLeqTotal(a: string, b: string)
    ensures NameLeq(a, b) || NameLeq(b, a)
  {
    if a != [] && b != [] && a[0] == b[0] {
      NameLeqTotal(a[1..], b[1..]);
    }
  }

  lemma {:induction false} NameLeqTransitive(a: string, b: string, c: string)
    requires NameLeq(a, b) && NameLeq(b, c)
    ensures NameLeq(a, c)
  {
    if a != [] && a[0] == b[0] && b[0] == c[0] {
      NameLeqTransitive(a[1..], b[1..], c[1..]);
    }
  }

  lemma {:induction false} NameLeqAntisymmetric(a: string, b: string)
    requires NameLeq(a, b) && NameLeq(b, a)
    ensures a == b
  {
    if a != [] {
      NameLeqAntisymmetric(a[1..], b[1..]);
      assert a == [a[0]] + a[1..] && b == [b[0]] + b[1..];
    }
  }

  /** The identifiers in keys, in order of their names (`ORDER BY <name>`); identifiers
      with the same name come in no particular order. */
  function ByName(keys: set<int>, name: int -> string): (ids: seq<int>)
    ensures multiset(ids) == multiset(keys)
    ensures forall i :: 0 <= i < |ids| ==> ids[i] in keys
    ensures forall i, j :: 0 <= i < j < |ids| ==> NameLeq(name(ids[i]), name(ids[j]))
  {
    var before := (a: int, b: int) => NameLeq(name(a), name(b));
    assert Total(before) by {
      forall a: int, b: int ensures before(a, b) || before(b, a) { NameLeqTotal(name(a), name(b)); }
    }
    assert Transitive(before) by {
      forall a: int, b: int, c: int | before(a, b) && before(b, c) ensures before(a, c) {
        NameLeqTransitive(name(a), name(b), name(c));
      }
    }
    var ids := SortBy(Ascending(keys), before);
    SortedIsPairwise(ids, before);
    assert forall i :: 0 <= i < |ids| ==> ids[i] in keys by {
      forall i | 0 <= i < |ids| ensures ids[i] in keys { assert ids[i] in multiset(ids); }
    }
    ids
  }

  /** The key of each row of a listing, in listing order. */
  function Keys<R>(rows: seq<R>, key: R -> int): (ks: seq<int>)
    ensures |ks| == |rows| && forall i :: 0 <= i < |rows| ==> ks[i] == key(rows[i])
  {
    seq(|rows|, i requires 0 <= i < |rows| => key(rows[i]))
  }
}
