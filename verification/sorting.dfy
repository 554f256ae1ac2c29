/**
 * Stable sorting by a comparator, and the orders pandas uses: numbers, strings compared
 * character by character, missing values placed last, and lexicographic combinations
 * for multi-column `sort_values`.
 */
module Sorting {
  import opened Wrappers
  import Seqs

  ghost predicate TotalPreorder<T(!new)>(le: (T, T) -> bool)
  {
    && (forall a, b :: le(a, b) || le(b, a))
    && (forall a, b, c :: le(a, b) && le(b, c) ==> le(a, c))
  }

  predicate Sorted<T>(s: seq<T>, le: (T, T) -> bool)
  {
    forall i, j :: 0 <= i < j < |s| ==> le(s[i], s[j])
  }

  /** Places `x` before the first element it does not exceed, so before its equals. */
  function Insert<T>(x: T, s: seq<T>, le: (T, T) -> bool): (r: seq<T>)
    ensures |r| == |s| + 1
    ensures multiset(r) == multiset(s) + multiset{x}
  {
    if s == [] then [x]
    else if le(x, s[0]) then [x] + s
    else
      assert s == [s[0]] + s[1..];
      [s[0]] + Insert(x, s[1..], le)
  }

  /**
   * Insertion sort. An element is inserted in front of the elements equal to it that
   * follow it in the input, so equal elements keep their input order (a stable sort,
   * like pandas' multi-column `sort_values`).
   */
  function SortBy<T>(s: seq<T>, le: (T, T) -> bool): (r: seq<T>)
    ensures |r| == |s|
    ensures multiset(r) == multiset(s)
  {
    if s == [] then []
    else
      assert s == [s[0]] + s[1..];
      Insert(s[0], SortBy(s[1..], le), le)
  }

  lemma {:induction false} InsertSorted<T(!new)>(x: T, s: seq<T>, le: (T, T) -> bool)
    requires TotalPreorder(le)
    requires Sorted(s, le)
    ensures Sorted(Insert(x, s, le), le)
  {
    if s != [] && !le(x, s[0]) {
      InsertSorted(x, s[1..], le);
      var r := Insert(x, s, le);
      var t := Insert(x, s[1..], le);
      assert r == [s[0]] + t;
      forall k | 0 <= k < |t| ensures le(s[0], t[k]) {
        assert t[k] in multiset(s[1..]) + multiset{x};
        if t[k] != x {
          assert t[k] in s[1..];
        }
      }
    }
  }

  lemma {:induction false} SortBySorted<T(!new)>(s: seq<T>, le: (T, T) -> bool)
    requires TotalPreorder(le)
    ensures Sorted(SortBy(s, le), le)
  {
    if s != [] {
      SortBySorted(s[1..], le);
      InsertSorted(s[0], SortBy(s[1..], le), le);
    }
  }

  /** The elements `le` ranks equal to `z`. */
  function EquivTo<T>(le: (T, T) -> bool, z: T): T -> bool
  {
    (y: T) => le(y, z) && le(z, y)
  }

  /** Inserting `x` never moves it past an element ranked equal to it. */
  lemma {:induction false} InsertStable<T(!new)>(x: T, s: seq<T>, le: (T, T) -> bool, z: T)
    requires TotalPreorder(le)
    ensures Seqs.Filter(Insert(x, s, le), EquivTo(le, z)) ==
            (if EquivTo(le, z)(x) then [x] else []) + Seqs.Filter(s, EquivTo(le, z))
  {
    if s == [] || le(x, s[0]) {
      InsertFront(x, s, le, z);
    } else {
      InsertStable(x, s[1..], le, z);
      NotBothEquiv(x, s[0], le, z);
      assert Insert(x, s, le) == [s[0]] + Insert(x, s[1..], le);
      assert s == [s[0]] + s[1..];
      FilterPast(s[0], s[1..], Insert(x, s[1..], le), x, EquivTo(le, z));
    }
  }

  /** Where `x` goes in front, the elements ranked equal to `z` are `x` (if it is one) and then those of `s`. */
  lemma InsertFront<T>(x: T, s: seq<T>, le: (T, T) -> bool, z: T)
    requires s == [] || le(x, s[0])
    ensures Seqs.Filter(Insert(x, s, le), EquivTo(le, z)) ==
            (if EquivTo(le, z)(x) then [x] else []) + Seqs.Filter(s, EquivTo(le, z))
  {
    assert Insert(x, s, le) == [x] + s;
    Seqs.FilterCons(x, s, EquivTo(le, z));
  }

  /**
   * Putting `y` in front of both sides keeps `u` and `t` related as `x` inserted somewhere in
   * `t`, when `x` and `y` are not both kept.
   */
  lemma FilterPast<T>(y: T, t: seq<T>, u: seq<T>, x: T, e: T -> bool)
    requires !(e(x) && e(y))
    requires Seqs.Filter(u, e) == (if e(x) then [x] else []) + Seqs.Filter(t, e)
    ensures Seqs.Filter([y] + u, e) == (if e(x) then [x] else []) + Seqs.Filter([y] + t, e)
  {
    Seqs.FilterCons(y, u, e);
    Seqs.FilterCons(y, t, e);
    SwapEmpty(if e(y) then [y] else [], if e(x) then [x] else [], Seqs.Filter(t, e));
  }

  lemma SwapEmpty<T>(a: seq<T>, b: seq<T>, rest: seq<T>)
    requires a == [] || b == []
    ensures a + (b + rest) == b + (a + rest)
  {
  }

  /** An element ranked strictly above another cannot rank equal to `z` together with it. */
  lemma NotBothEquiv<T(!new)>(x: T, y: T, le: (T, T) -> bool, z: T)
    requires TotalPreorder(le) && !le(x, y)
    ensures !(EquivTo(le, z)(x) && EquivTo(le, z)(y))
  {
  }

  /**
   * The sort is stable: the elements ranked equal to any `z` come out in the order they came
   * in.
   */
  lemma {:induction false} SortByStable<T(!new)>(s: seq<T>, le: (T, T) -> bool, z: T)
    requires TotalPreorder(le)
    ensures Seqs.Filter(SortBy(s, le), EquivTo(le, z)) == Seqs.Filter(s, EquivTo(le, z))
  {
    if s != [] {
      SortByStable(s[1..], le, z);
      InsertStable(s[0], SortBy(s[1..], le), le, z);
    }
  }

  /** Sorting a sequence that is already in order leaves it unchanged. */
  lemma {:induction false} SortBySortedIsIdentity<T(!new)>(s: seq<T>, le: (T, T) -> bool)
    requires Sorted(s, le)
    ensures SortBy(s, le) == s
  {
    if s != [] {
      SortBySortedIsIdentity(s[1..], le);
      assert s == [s[0]] + s[1..];
    }
  }

  /** A mask applied to a sorted sequence leaves it sorted. */
  lemma {:induction false} FilterSorted<T>(s: seq<T>, p: T -> bool, le: (T, T) -> bool)
    requires Sorted(s, le)
    ensures Sorted(Seqs.Filter(s, p), le)
  {
    if s != [] {
      FilterSorted(s[1..], p, le);
      var rest := Seqs.Filter(s[1..], p);
      forall k | 0 <= k < |rest| ensures le(s[0], rest[k]) {
        var i :| 0 <= i < |s[1..]| && s[1..][i] == rest[k];
      }
    }
  }

  /** Ordering rows by a key inherits the key order's totality and transitivity. */
  lemma ByKeyTotal<T(!new), K(!new)>(key: T -> K, le: (K, K) -> bool)
    requires TotalPreorder(le)
    ensures TotalPreorder((a: T, b: T) => le(key(a), key(b)))
  {
  }

  lemma {:induction false} DistinctSorted<T>(s: seq<T>, le: (T, T) -> bool)
    requires Sorted(s, le)
    ensures Sorted(Seqs.Distinct(s), le)
  {
    if s != [] {
      var init := s[..|s| - 1];
      DistinctSorted(init, le);
      var d := Seqs.Distinct(init);
      forall k | 0 <= k < |d| ensures le(d[k], s[|s| - 1]) {
        var p :| 0 <= p < |init| && init[p] == d[k];
      }
    }
  }

  /**
   * The distinct values of `s` in ascending order: the group keys of a pandas `groupby`
   * (which sorts its keys) when every value is present.
   */
  function SortedDistinct<T(==,!new)>(s: seq<T>, le: (T, T) -> bool): (r: seq<T>)
    ensures Seqs.NoDuplicates(r)
    ensures forall x :: x in r <==> x in s
  {
    var sorted := SortBy(s, le);
    assert forall x :: x in sorted <==> x in s by {
      forall x ensures x in sorted <==> x in s {
        assert x in sorted <==> x in multiset(sorted);
        assert x in s <==> x in multiset(s);
      }
    }
    var r := Seqs.Distinct(sorted);
    assert forall x :: x in r <==> x in sorted by {
      forall x ensures x in r <==> x in sorted {
        if x in sorted {
          var i :| 0 <= i < |sorted| && sorted[i] == x;
        }
      }
    }
    r
  }

  lemma SortedDistinctSorted<T(!new)>(s: seq<T>, le: (T, T) -> bool)
    requires TotalPreorder(le)
    ensures Sorted(SortedDistinct(s, le), le)
  {
    SortBySorted(s, le);
    DistinctSorted(SortBy(s, le), le);
  }

  /** Sorted and without repeats, a sequence of numbers is strictly increasing. */
  lemma SortedDistinctIncreasing(s: seq<int>)
    requires Sorted(s, IntLe) && Seqs.NoDuplicates(s)
    ensures forall i, j :: 0 <= i < j < |s| ==> s[i] < s[j]
  {
  }

  // ---- The concrete orders ----

  function IntLe(a: int, b: int): bool { a <= b }

  /** Python's string order: code point by code point, a proper prefix first. */
  function StrLe(a: string, b: string): bool
  {
    a == [] || (b != [] && (a[0] < b[0] || (a[0] == b[0] && StrLe(a[1..], b[1..]))))
  }

  /** pandas' default `na_position='last'`: present values in order, missing ones after them. */
  function OptLe<T>(le: (T, T) -> bool, a: Option<T>, b: Option<T>): bool
  {
    match (a, b)
    case (Some(x), Some(y)) => le(x, y)
    case (Some(_), None) => true
    case (None, Some(_)) => false
    case (None, None) => true
  }

  function OptIntLe(a: Option<int>, b: Option<int>): bool { OptLe(IntLe, a, b) }

  /** Two sort columns: the first decides unless it ties; ties go to the second. */
  function LexLe<A, B>(leA: (A, A) -> bool, leB: (B, B) -> bool, x: (A, B), y: (A, B)): bool
  {
    (leA(x.0, y.0) && !leA(y.0, x.0)) || (leA(x.0, y.0) && leA(y.0, x.0) && leB(x.1, y.1))
  }

  lemma IntLeTotal()
    ensures TotalPreorder(IntLe)
  {
  }

  lemma {:induction false} StrLeTotalAt(a: string, b: string)
    ensures StrLe(a, b) || StrLe(b, a)
  {
    if a != [] && b != [] && a[0] == b[0] {
      StrLeTotalAt(a[1..], b[1..]);
    }
  }

  lemma {:induction false} StrLeTransitiveAt(a: string, b: string, c: string)
    requires StrLe(a, b) && StrLe(b, c)
    ensures StrLe(a, c)
  {
    if a != [] && b != [] && c != [] && a[0] == b[0] && b[0] == c[0] {
      StrLeTransitiveAt(a[1..], b[1..], c[1..]);
    }
  }

  lemma {:induction false} StrLeAntisymmetric(a: string, b: string)
    requires StrLe(a, b) && StrLe(b, a)
    ensures a == b
  {
    if a != [] && b != [] {
      StrLeAntisymmetric(a[1..], b[1..]);
      assert a == [a[0]] + a[1..];
      assert b == [b[0]] + b[1..];
    }
  }

  lemma StrLeTotal()
    ensures TotalPreorder(StrLe)
  {
    forall a, b ensures StrLe(a, b) || StrLe(b, a) {
      StrLeTotalAt(a, b);
    }
    forall a, b, c | StrLe(a, b) && StrLe(b, c) ensures StrLe(a, c) {
      StrLeTransitiveAt(a, b, c);
    }
  }

  lemma OptLeTotal<T(!new)>(le: (T, T) -> bool)
    requires TotalPreorder(le)
    ensures TotalPreorder((a, b) => OptLe(le, a, b))
  {
  }

  lemma OptIntLeTotal()
    ensures TotalPreorder(OptIntLe)
  {
    OptLeTotal(IntLe);
    assert forall a, b :: OptIntLe(a, b) == OptLe(IntLe, a, b);
  }

  lemma LexLeTotal<A(!new), B(!new)>(leA: (A, A) -> bool, leB: (B, B) -> bool)
    requires TotalPreorder(leA) && TotalPreorder(leB)
    ensures TotalPreorder((x, y) => LexLe(leA, leB, x, y))
  {
  }
}
