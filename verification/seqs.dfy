/** Sequence helpers that read pandas row selections as sequence operations. */
module Seqs {

  /** Boolean-mask selection `df[mask]`: the rows satisfying `p`, in their original order. */
  function Filter<T>(s: seq<T>, p: T -> bool): (r: seq<T>)
    ensures |r| <= |s|
    ensures forall i :: 0 <= i < |r| ==> r[i] in s && p(r[i])
    ensures forall i :: 0 <= i < |s| && p(s[i]) ==> s[i] in r
    ensures multiset(r) <= multiset(s)
  {
    if s == [] then []
    else
      assert s == [s[0]] + s[1..];
      (if p(s[0]) then [s[0]] else []) + Filter(s[1..], p)
  }

  /** Selecting from a concatenation selects from each part: a mask never reorders rows. */
  lemma {:induction false} FilterConcat<T>(a: seq<T>, b: seq<T>, p: T -> bool)
    ensures Filter(a + b, p) == Filter(a, p) + Filter(b, p)
  {
    if a == [] {
      assert a + b == b;
    } else {
      assert (a + b)[1..] == a[1..] + b;
      FilterConcat(a[1..], b, p);
    }
  }

  /** Selecting from a sequence with a first element. */
  lemma FilterCons<T>(x: T, s: seq<T>, p: T -> bool)
    ensures Filter([x] + s, p) == (if p(x) then [x] else []) + Filter(s, p)
  {
    assert ([x] + s)[1..] == s;
  }

  /** Number of elements satisfying `p`. */
  function Count<T>(s: seq<T>, p: T -> bool): (n: nat)
    ensures n <= |s|
  {
    if s == [] then 0 else (if p(s[0]) then 1 else 0) + Count(s[1..], p)
  }

  lemma {:induction false} FilterCount<T>(s: seq<T>, p: T -> bool)
    ensures |Filter(s, p)| == Count(s, p)
  {
    if s != [] {
      FilterCount(s[1..], p);
    }
  }

  /** `x` occurs in `s` only once. */
  predicate NoDuplicates<T(==)>(s: seq<T>)
  {
    forall i, j :: 0 <= i < j < |s| ==> s[i] != s[j]
  }

  /** The distinct elements of `s`, each at its first occurrence. */
  function Distinct<T(==)>(s: seq<T>): (r: seq<T>)
    ensures NoDuplicates(r)
    ensures forall i :: 0 <= i < |r| ==> r[i] in s
    ensures forall i :: 0 <= i < |s| ==> s[i] in r
    ensures |r| <= |s|
  {
    if s == [] then []
    else
      var rest := Distinct(s[..|s| - 1]);
      if s[|s| - 1] in rest then rest else rest + [s[|s| - 1]]
  }

  /** Sum of a sequence of reals. */
  function Sum(s: seq<real>): real
  {
    if s == [] then 0.0 else s[0] + Sum(s[1..])
  }

  lemma {:induction false} SumConcat(a: seq<real>, b: seq<real>)
    ensures Sum(a + b) == Sum(a) + Sum(b)
  {
    if a == [] {
      assert a + b == b;
    } else {
      assert (a + b)[1..] == a[1..] + b;
      SumConcat(a[1..], b);
    }
  }

  /** Selecting twice is selecting by the conjunction. */
  lemma {:induction false} FilterFilter<T>(s: seq<T>, p: T -> bool, q: T -> bool)
    ensures Filter(Filter(s, p), q) == Filter(s, x => p(x) && q(x))
  {
    if s != [] {
      FilterFilter(s[1..], p, q);
      var fp := Filter(s, p);
      if p(s[0]) {
        assert fp == [s[0]] + Filter(s[1..], p);
        assert fp[1..] == Filter(s[1..], p);
        assert Filter(fp, q) == (if q(s[0]) then [s[0]] else []) + Filter(fp[1..], q);
      } else {
        assert fp == Filter(s[1..], p);
      }
    }
  }

  /** Some element of `s` has key `k`. */
  predicate HasKey<T, K(==)>(s: seq<T>, key: T -> K, k: K)
  {
    exists i :: 0 <= i < |s| && key(s[i]) == k
  }

  /** `drop_duplicates(subset=key, keep='first')`: each key at its first occurrence, in order. */
  function DedupFirst<T, K(==)>(s: seq<T>, key: T -> K): (r: seq<T>)
    ensures |r| <= |s|
    ensures forall i :: 0 <= i < |r| ==> r[i] in s
  {
    if s == [] then []
    else
      var init := s[..|s| - 1];
      var last := s[|s| - 1];
      var rest := DedupFirst(init, key);
      if HasKey(init, key, key(last)) then rest else rest + [last]
  }

  /** De-duplication that keeps as many elements as it is given changes nothing. */
  lemma {:induction false} DedupFirstSameLength<T, K>(s: seq<T>, key: T -> K)
    ensures |DedupFirst(s, key)| == |s| ==> DedupFirst(s, key) == s
  {
    if s != [] {
      var init := s[..|s| - 1];
      DedupFirstSameLength(init, key);
      assert s == init + [s[|s| - 1]];
    }
  }

  /** `drop_duplicates(subset=key, keep='last')`: each key at its last occurrence, in order. */
  function DedupLast<T, K(==)>(s: seq<T>, key: T -> K): (r: seq<T>)
    ensures |r| <= |s|
    ensures forall i :: 0 <= i < |r| ==> r[i] in s
  {
    if s == [] then []
    else
      var rest := DedupLast(s[1..], key);
      assert forall i :: 0 <= i < |rest| ==> rest[i] in s by {
        forall i | 0 <= i < |rest| ensures rest[i] in s {
          assert rest[i] in s[1..];
        }
      }
      if HasKey(s[1..], key, key(s[0])) then rest else [s[0]] + rest
  }

  /** No two elements of `r` share a key. */
  ghost predicate KeysDistinct<T, K>(r: seq<T>, key: T -> K)
  {
    forall i, j :: 0 <= i < j < |r| ==> key(r[i]) != key(r[j])
  }

  lemma {:induction false} DedupFirstDistinct<T, K>(s: seq<T>, key: T -> K)
    ensures KeysDistinct(DedupFirst(s, key), key)
  {
    if s != [] {
      var init, last := s[..|s| - 1], s[|s| - 1];
      DedupFirstDistinct(init, key);
      var rest := DedupFirst(init, key);
      if !HasKey(init, key, key(last)) {
        var r := DedupFirst(s, key);
        assert r == rest + [last];
        assert KeysDistinct(rest, key);
        forall i | 0 <= i < |rest| ensures key(rest[i]) != key(last) {
          var p :| 0 <= p < |init| && init[p] == rest[i];
          assert key(init[p]) == key(rest[i]);
        }
        forall i, j | 0 <= i < j < |r| ensures key(r[i]) != key(r[j]) {
          assert r[i] == rest[i];
          if j < |rest| {
            assert r[j] == rest[j];
          }
        }
      }
    }
  }

  lemma {:induction false} DedupFirstCovers<T, K>(s: seq<T>, key: T -> K)
    ensures forall i :: 0 <= i < |s| ==> HasKey(DedupFirst(s, key), key, key(s[i]))
  {
    if s != [] {
      var init, last := s[..|s| - 1], s[|s| - 1];
      DedupFirstCovers(init, key);
      var rest := DedupFirst(init, key);
      var r := DedupFirst(s, key);
      assert rest <= r;
      forall i | 0 <= i < |s| ensures HasKey(r, key, key(s[i])) {
        if i < |s| - 1 {
          assert key(init[i]) == key(s[i]);
          var j :| 0 <= j < |rest| && key(rest[j]) == key(init[i]);
          assert r[j] == rest[j];
        } else if HasKey(init, key, key(last)) {
          var q :| 0 <= q < |init| && key(init[q]) == key(last);
          var j :| 0 <= j < |rest| && key(rest[j]) == key(init[q]);
          assert r[j] == rest[j];
        } else {
          assert r[|r| - 1] == last;
        }
      }
    }
  }

  /** `x` stands in `s` at a position with no earlier element of the same key. */
  ghost predicate FirstOfKey<T, K>(s: seq<T>, key: T -> K, x: T)
  {
    exists p :: 0 <= p < |s| && s[p] == x && !HasKey(s[..p], key, key(x))
  }

  /** `x` stands in `s` at a position with no later element of the same key. */
  ghost predicate LastOfKey<T, K>(s: seq<T>, key: T -> K, x: T)
  {
    exists p :: 0 <= p < |s| && s[p] == x && !HasKey(s[p + 1..], key, key(x))
  }

  /** Every row keep-first keeps has no earlier row with the same key. */
  lemma {:induction false} DedupFirstKeepsFirst<T, K>(s: seq<T>, key: T -> K)
    ensures forall x :: x in DedupFirst(s, key) ==> FirstOfKey(s, key, x)
  {
    if s != [] {
      var init, last := s[..|s| - 1], s[|s| - 1];
      DedupFirstKeepsFirst(init, key);
      var rest := DedupFirst(init, key);
      var r := DedupFirst(s, key);
      forall x | x in r ensures FirstOfKey(s, key, x) {
        if x in rest {
          assert FirstOfKey(init, key, x);
          var p :| 0 <= p < |init| && init[p] == x && !HasKey(init[..p], key, key(x));
          assert s[..p] == init[..p];
          assert s[p] == x;
        } else {
          assert x == last && s[..|s| - 1] == init;
          assert s[|s| - 1] == x;
        }
      }
    }
  }

  lemma {:induction false} DedupLastDistinct<T, K>(s: seq<T>, key: T -> K)
    ensures KeysDistinct(DedupLast(s, key), key)
  {
    if s != [] {
      var tail := s[1..];
      DedupLastDistinct(tail, key);
      var rest := DedupLast(tail, key);
      var r := DedupLast(s, key);
      if !HasKey(tail, key, key(s[0])) {
        assert r == [s[0]] + rest;
        assert KeysDistinct(rest, key);
        forall j | 0 <= j < |rest| ensures key(rest[j]) != key(s[0]) {
          var p :| 0 <= p < |tail| && tail[p] == rest[j];
          assert key(tail[p]) == key(rest[j]);
        }
        forall i, j | 0 <= i < j < |r| ensures key(r[i]) != key(r[j]) {
          assert r[j] == rest[j - 1];
          if i > 0 {
            assert r[i] == rest[i - 1];
          }
        }
      }
    }
  }

  lemma {:induction false} DedupLastCovers<T, K>(s: seq<T>, key: T -> K)
    ensures forall i :: 0 <= i < |s| ==> HasKey(DedupLast(s, key), key, key(s[i]))
  {
    if s != [] {
      var tail := s[1..];
      DedupLastCovers(tail, key);
      var rest := DedupLast(tail, key);
      var r := DedupLast(s, key);
      forall i | 0 <= i < |s| ensures HasKey(r, key, key(s[i])) {
        if i > 0 {
          assert key(tail[i - 1]) == key(s[i]);
          var j :| 0 <= j < |rest| && key(rest[j]) == key(tail[i - 1]);
          assert r[|r| - |rest| + j] == rest[j];
        } else if HasKey(tail, key, key(s[0])) {
          var q :| 0 <= q < |tail| && key(tail[q]) == key(s[0]);
          var j :| 0 <= j < |rest| && key(rest[j]) == key(tail[q]);
          assert r[j] == rest[j];
        } else {
          assert r[0] == s[0];
        }
      }
    }
  }

  /** Every row keep-last keeps has no later row with the same key. */
  lemma {:induction false} DedupLastKeepsLast<T, K>(s: seq<T>, key: T -> K)
    ensures forall x :: x in DedupLast(s, key) ==> LastOfKey(s, key, x)
  {
    if s != [] {
      var tail := s[1..];
      DedupLastKeepsLast(tail, key);
      var rest := DedupLast(tail, key);
      var r := DedupLast(s, key);
      forall x | x in r ensures LastOfKey(s, key, x) {
        if x in rest {
          assert LastOfKey(tail, key, x);
          var p :| 0 <= p < |tail| && tail[p] == x && !HasKey(tail[p + 1..], key, key(x));
          assert s[p + 1 + 1..] == tail[p + 1..];
          assert s[p + 1] == x;
        } else {
          assert x == s[0] && s[0 + 1..] == tail;
        }
      }
    }
  }

  /** Selecting by two predicates that agree everywhere selects the same rows. */
  lemma {:induction false} FilterExt<T>(s: seq<T>, p: T -> bool, q: T -> bool)
    requires forall x :: p(x) == q(x)
    ensures Filter(s, p) == Filter(s, q)
  {
    if s != [] {
      FilterExt(s[1..], p, q);
    }
  }

  /** A mask that holds everywhere selects every row. */
  lemma {:induction false} FilterAll<T>(s: seq<T>, p: T -> bool)
    requires forall i :: 0 <= i < |s| ==> p(s[i])
    ensures Filter(s, p) == s
  {
    if s != [] {
      FilterAll(s[1..], p);
      assert s == [s[0]] + s[1..];
    }
  }

  /** A mask that holds nowhere selects no row. */
  lemma {:induction false} FilterNone<T>(s: seq<T>, p: T -> bool)
    requires forall i :: 0 <= i < |s| ==> !p(s[i])
    ensures Filter(s, p) == []
  {
    if s != [] {
      FilterNone(s[1..], p);
    }
  }

  /** A mask keeps as many rows as it is given exactly when it holds for every row. */
  lemma {:induction false} FilterKeepsAll<T>(s: seq<T>, p: T -> bool)
    ensures |Filter(s, p)| == |s| <==> forall i :: 0 <= i < |s| ==> p(s[i])
  {
    if s != [] {
      FilterKeepsAll(s[1..], p);
      assert forall i :: 1 <= i < |s| ==> s[i] == s[1..][i - 1];
      if forall i :: 0 <= i < |s[1..]| ==> p(s[1..][i]) {
        assert forall i :: 1 <= i < |s| ==> p(s[i]);
      }
    }
  }

  lemma {:induction false} NoDuplicatesCount<T>(s: seq<T>, x: T)
    requires NoDuplicates(s)
    ensures multiset(s)[x] <= 1
  {
    if s != [] {
      assert s == [s[0]] + s[1..];
      NoDuplicatesCount(s[1..], x);
      if s[0] == x {
        assert x !in s[1..];
      }
    }
  }

  lemma TwiceCounted<T>(s: seq<T>, i: nat, j: nat)
    requires i < j < |s| && s[i] == s[j]
    ensures multiset(s)[s[i]] >= 2
  {
    assert s == s[..j] + [s[j]] + s[j + 1..];
    assert s[i] in s[..j];
  }

  /** Reordering rows keeps their keys distinct. */
  lemma KeysDistinctPermutation<T, K>(s: seq<T>, t: seq<T>, key: T -> K)
    requires KeysDistinct(s, key) && multiset(s) == multiset(t)
    ensures KeysDistinct(t, key)
  {
    forall i, j | 0 <= i < j < |t| ensures key(t[i]) != key(t[j]) {
      assert t[i] in multiset(s) && t[j] in multiset(s);
      var p :| 0 <= p < |s| && s[p] == t[i];
      var q :| 0 <= q < |s| && s[q] == t[j];
      if t[i] == t[j] {
        TwiceCounted(t, i, j);
        NoDuplicatesCount(s, t[i]);
      } else {
        assert p != q;
      }
    }
  }

  /** Two selections in a row select by any predicate equivalent to their conjunction. */
  lemma FilterTwice<T>(s: seq<T>, p: T -> bool, q: T -> bool, both: T -> bool)
    requires forall x :: both(x) == (p(x) && q(x))
    ensures Filter(Filter(s, p), q) == Filter(s, both)
  {
    FilterFilter(s, p, q);
    FilterExt(s, x => p(x) && q(x), both);
  }

  lemma {:induction false} FilterMultiset<T>(s: seq<T>, p: T -> bool)
    ensures forall x :: multiset(Filter(s, p))[x] == if p(x) then multiset(s)[x] else 0
  {
    if s != [] {
      FilterMultiset(s[1..], p);
      assert s == [s[0]] + s[1..];
    }
  }

  /** Selecting from a reordering selects as many rows. */
  lemma FilterPermutation<T>(s: seq<T>, t: seq<T>, p: T -> bool)
    requires multiset(s) == multiset(t)
    ensures |Filter(s, p)| == |Filter(t, p)|
  {
    FilterMultiset(s, p);
    FilterMultiset(t, p);
    assert multiset(Filter(s, p)) == multiset(Filter(t, p));
    assert |multiset(Filter(s, p))| == |multiset(Filter(t, p))|;
  }

  /** Some selected element satisfies `q` exactly when some element satisfies both `p` and `q`. */
  lemma FilterExists<T>(s: seq<T>, p: T -> bool, q: T -> bool)
    ensures (exists i :: 0 <= i < |Filter(s, p)| && q(Filter(s, p)[i])) <==>
            (exists i :: 0 <= i < |s| && p(s[i]) && q(s[i]))
  {
    var r := Filter(s, p);
    if exists i :: 0 <= i < |s| && p(s[i]) && q(s[i]) {
      var i :| 0 <= i < |s| && p(s[i]) && q(s[i]);
      assert s[i] in r;
      var j :| 0 <= j < |r| && r[j] == s[i];
      assert q(r[j]);
    }
    if exists i :: 0 <= i < |r| && q(r[i]) {
      var i :| 0 <= i < |r| && q(r[i]);
      assert r[i] in s && p(r[i]);
      var j :| 0 <= j < |s| && s[j] == r[i];
      assert p(s[j]) && q(s[j]);
      assert exists k :: 0 <= k < |s| && p(s[k]) && q(s[k]);
      assert exists k :: 0 <= k < |Filter(s, p)| && q(Filter(s, p)[k]);
    } else {
      assert !exists i :: 0 <= i < |Filter(s, p)| && q(Filter(s, p)[i]);
      forall i | 0 <= i < |s| && p(s[i])
        ensures !q(s[i])
      {
        assert s[i] in r;
        var j :| 0 <= j < |r| && r[j] == s[i];
      }
    }
  }

  /** Reordering does not change whether some element satisfies `q`. */
  lemma PermutationExists<T>(s: seq<T>, t: seq<T>, q: T -> bool)
    requires multiset(s) == multiset(t)
    ensures (exists i :: 0 <= i < |s| && q(s[i])) <==> (exists i :: 0 <= i < |t| && q(t[i]))
  {
    if exists i :: 0 <= i < |s| && q(s[i]) {
      var i :| 0 <= i < |s| && q(s[i]);
      assert s[i] in multiset(t);
      var j :| 0 <= j < |t| && t[j] == s[i];
    }
    if exists i :: 0 <= i < |t| && q(t[i]) {
      var i :| 0 <= i < |t| && q(t[i]);
      assert t[i] in multiset(s);
      var j :| 0 <= j < |s| && s[j] == t[i];
    }
  }

  /** `pd.concat` of a list of row sequences: the rows of each, one after another. */
  function Flatten<T>(xs: seq<seq<T>>): seq<T>
  {
    if xs == [] then [] else xs[0] + Flatten(xs[1..])
  }

  /** The concatenation holds exactly the rows of the parts. */
  lemma {:induction false} FlattenMembers<T>(xs: seq<seq<T>>)
    ensures forall x :: x in Flatten(xs) <==> exists k :: 0 <= k < |xs| && x in xs[k]
  {
    if xs != [] {
      FlattenMembers(xs[1..]);
      forall x ensures x in Flatten(xs) <==> exists k :: 0 <= k < |xs| && x in xs[k] {
        if x in xs[0] {
          assert 0 < |xs| && x in xs[0];
        } else if x in Flatten(xs[1..]) {
          var k :| 0 <= k < |xs[1..]| && x in xs[1..][k];
          assert x in xs[k + 1];
        }
        if exists k :: 0 <= k < |xs| && x in xs[k] {
          var k :| 0 <= k < |xs| && x in xs[k];
          if k > 0 {
            assert x in xs[1..][k - 1];
          }
        }
      }
    }
  }
}
