/** Sequence operations shared by the pandas pipelines of the attendance
    engine: filtering rows, and `drop_duplicates(subset=..., keep="first")`. */
module Collections {

  datatype Option<T> = None | Some(value: T)

  /** The identity, used as the key when a column is its own key. */
  function Id<T>(x: T): T { x }

  /** The rows of `s` that satisfy `p`, in their original order. */
  function Filter<T>(p: T -> bool, s: seq<T>): seq<T>
  {
    if s == [] then [] else (if p(s[0]) then [s[0]] else []) + Filter(p, s[1..])
  }

  /** Filtering keeps exactly the rows that satisfy `p`: every kept row is
      a row of `s` satisfying `p`, and every such row is kept. */
  lemma {:induction false} FilterSpec<T>(p: T -> bool, s: seq<T>)
    ensures |Filter(p, s)| <= |s|
    ensures forall i :: 0 <= i < |Filter(p, s)| ==> Filter(p, s)[i] in s && p(Filter(p, s)[i])
    ensures forall i :: 0 <= i < |s| && p(s[i]) ==> s[i] in Filter(p, s)
  {
    if s != [] {
      FilterSpec(p, s[1..]);
      assert forall x :: x in s[1..] ==> x in s;
      assert forall i :: 1 <= i < |s| ==> s[i] == s[1..][i - 1];
    }
  }

  lemma FilterCons<T>(p: T -> bool, x: T, t: seq<T>)
    ensures Filter(p, [x] + t) == (if p(x) then [x] else []) + Filter(p, t)
  {
    assert ([x] + t)[0] == x && ([x] + t)[1..] == t;
  }

  /** Filtering distributes over concatenation. */
  lemma {:induction false} FilterAppend<T>(p: T -> bool, a: seq<T>, b: seq<T>)
    ensures Filter(p, a + b) == Filter(p, a) + Filter(p, b)
  {
    if a == [] {
      assert a + b == b;
    } else {
      var x, t := a[0], a[1..];
      assert a == [x] + t && a + b == [x] + (t + b);
      FilterAppend(p, t, b);
      FilterCons(p, x, t + b);
      FilterCons(p, x, t);
    }
  }

  /** A row of the filtered rows that is the first of its key there is also
      the first of its key among the rows of `s` that satisfy `p`. */
  lemma {:induction false} FilterFirstOfKey<T, K>(p: T -> bool, key: T -> K, s: seq<T>, m: nat) returns (i: nat)
    requires m < |Filter(p, s)|
    requires forall n :: 0 <= n < m ==> key(Filter(p, s)[n]) != key(Filter(p, s)[m])
    ensures i < |s| && s[i] == Filter(p, s)[m] && p(s[i])
    ensures forall j :: 0 <= j < i && p(s[j]) ==> key(s[j]) != key(s[i])
    decreases |s|
  {
    var x, t := s[0], s[1..];
    assert s == [x] + t;
    FilterCons(p, x, t);
    var f := Filter(p, t);
    if p(x) && m == 0 {
      i := 0;
    } else if p(x) {
      assert forall n :: 0 <= n < m - 1 ==> key(f[n]) != key(f[m - 1]) by {
        forall n | 0 <= n < m - 1 ensures key(f[n]) != key(f[m - 1]) {
          assert Filter(p, s)[n + 1] == f[n];
        }
      }
      var i' := FilterFirstOfKey(p, key, t, m - 1);
      i := i' + 1;
      assert Filter(p, s)[0] == x;
    } else {
      assert Filter(p, s) == f;
      var i' := FilterFirstOfKey(p, key, t, m);
      i := i' + 1;
    }
  }

  /** Rows of `s` with pairwise distinct keys still have them after filtering. */
  lemma {:induction false} FilterDistinct<T, K>(p: T -> bool, key: T -> K, s: seq<T>)
    requires forall i, j :: 0 <= i < j < |s| ==> key(s[i]) != key(s[j])
    ensures forall i, j :: 0 <= i < j < |Filter(p, s)| ==> key(Filter(p, s)[i]) != key(Filter(p, s)[j])
    decreases |s|
  {
    if s != [] {
      var x, t := s[0], s[1..];
      assert s == [x] + t;
      assert forall i, j :: 0 <= i < j < |t| ==> key(t[i]) != key(t[j]) by {
        forall i, j | 0 <= i < j < |t| ensures key(t[i]) != key(t[j]) {
          assert t[i] == s[i + 1] && t[j] == s[j + 1];
        }
      }
      FilterDistinct(p, key, t);
      FilterSpec(p, t);
      FilterCons(p, x, t);
      var f := Filter(p, t);
      forall n | 0 <= n < |f| ensures key(f[n]) != key(x) {
        var j :| 0 <= j < |t| && t[j] == f[n];
        assert s[j + 1] == f[n];
      }
    }
  }

  /** Apply `f` to every row. */
  function MapSeq<T, U>(f: T -> U, s: seq<T>): (r: seq<U>)
    ensures |r| == |s|
    ensures forall i :: 0 <= i < |s| ==> r[i] == f(s[i])
  {
    seq(|s|, i requires 0 <= i < |s| => f(s[i]))
  }

  /** Some row of `s` has key `k`. */
  predicate HasKey<T, K(==)>(key: T -> K, k: K, s: seq<T>)
  {
    exists i :: 0 <= i < |s| && key(s[i]) == k
  }

  /** Position of the first row of `s` whose key is `k`. */
  function FirstIndex<T, K(==)>(key: T -> K, k: K, s: seq<T>): (i: nat)
    requires HasKey(key, k, s)
    ensures i < |s| && key(s[i]) == k
    ensures forall j :: 0 <= j < i ==> key(s[j]) != k
  {
    if key(s[0]) == k then 0
    else
      assert HasKey(key, k, s[1..]) by {
        var j :| 0 <= j < |s| && key(s[j]) == k;
        assert s[1..][j - 1] == s[j];
      }
      1 + FirstIndex(key, k, s[1..])
  }

  /** `drop_duplicates(subset=key, keep="first")`: a row is kept exactly when
      no earlier row has the same key; kept rows stay in input order. */
  function DropDuplicates<T, K(==)>(key: T -> K, s: seq<T>): (r: seq<T>)
    decreases |s|
  {
    if s == [] then []
    else
      var init := s[..|s| - 1];
      var last := s[|s| - 1];
      if HasKey(key, key(last), init) then DropDuplicates(key, init)
      else DropDuplicates(key, init) + [last]
  }

  lemma FirstIndexOfPrefix<T, K>(key: T -> K, k: K, s: seq<T>, n: nat)
    requires n <= |s| && HasKey(key, k, s[..n])
    ensures HasKey(key, k, s) && FirstIndex(key, k, s) == FirstIndex(key, k, s[..n])
  {
    var f := FirstIndex(key, k, s[..n]);
    assert s[f] == s[..n][f];
  }

  /** A row of `s` has key `k` exactly when a row of its prefix without the
      last row has it, or the last row has it. */
  lemma HasKeySnoc<T, K>(key: T -> K, k: K, s: seq<T>)
    requires s != []
    ensures HasKey(key, k, s) <==> HasKey(key, k, s[..|s| - 1]) || key(s[|s| - 1]) == k
  {
    var init := s[..|s| - 1];
    if HasKey(key, k, s) && key(s[|s| - 1]) != k {
      var i :| 0 <= i < |s| && key(s[i]) == k;
      assert init[i] == s[i];
    }
    if HasKey(key, k, init) {
      var i :| 0 <= i < |init| && key(init[i]) == k;
      assert s[i] == init[i];
    }
  }

  /** `DropDuplicates` keeps only rows of its input, and no more of them. */
  lemma {:induction false} DropDuplicatesSubset<T, K>(key: T -> K, s: seq<T>)
    ensures |DropDuplicates(key, s)| <= |s|
    ensures forall j :: 0 <= j < |DropDuplicates(key, s)| ==> DropDuplicates(key, s)[j] in s
    decreases |s|
  {
    if s != [] {
      var init := s[..|s| - 1];
      DropDuplicatesSubset(key, init);
      assert forall x :: x in init ==> x in s;
    }
  }

  /** `DropDuplicates` loses no key. */
  lemma {:induction false} DropDuplicatesKeepsKeys<T, K>(key: T -> K, s: seq<T>)
    ensures forall k :: HasKey(key, k, DropDuplicates(key, s)) <==> HasKey(key, k, s)
    decreases |s|
  {
    if s != [] {
      var init, last := s[..|s| - 1], s[|s| - 1];
      var d := DropDuplicates(key, init);
      DropDuplicatesKeepsKeys(key, init);
      forall k ensures HasKey(key, k, DropDuplicates(key, s)) <==> HasKey(key, k, s) {
        HasKeySnoc(key, k, s);
        if !HasKey(key, key(last), init) {
          HasKeySnoc(key, k, d + [last]);
          assert (d + [last])[..|d|] == d;
        }
      }
    }
  }

  /** A row of the input has a kept row with its key. */
  lemma DropDuplicatesRepresents<T, K>(key: T -> K, s: seq<T>, x: T) returns (k: nat)
    requires x in s
    ensures k < |DropDuplicates(key, s)| && key(DropDuplicates(key, s)[k]) == key(x)
  {
    var i :| 0 <= i < |s| && s[i] == x;
    assert HasKey(key, key(x), s);
    DropDuplicatesKeepsKeys(key, s);
    k :| 0 <= k < |DropDuplicates(key, s)| && key(DropDuplicates(key, s)[k]) == key(x);
  }

  /** `DropDuplicates` keeps at most one row per key. */
  lemma {:induction false} DropDuplicatesDistinct<T, K>(key: T -> K, s: seq<T>)
    ensures forall i, j :: 0 <= i < j < |DropDuplicates(key, s)| ==>
      key(DropDuplicates(key, s)[i]) != key(DropDuplicates(key, s)[j])
    decreases |s|
  {
    if s != [] {
      var init, last := s[..|s| - 1], s[|s| - 1];
      var d := DropDuplicates(key, init);
      DropDuplicatesDistinct(key, init);
      if !HasKey(key, key(last), init) {
        DropDuplicatesKeepsKeys(key, init);
        forall j | 0 <= j < |d| ensures key(d[j]) != key(last) {
          assert HasKey(key, key(d[j]), d);
        }
      }
    }
  }

  /** Each kept row is the first row of the input with its key. */
  lemma {:induction false} DropDuplicatesFirst<T, K>(key: T -> K, s: seq<T>)
    ensures forall j :: 0 <= j < |DropDuplicates(key, s)| ==>
      && HasKey(key, key(DropDuplicates(key, s)[j]), s)
      && s[FirstIndex(key, key(DropDuplicates(key, s)[j]), s)] == DropDuplicates(key, s)[j]
    decreases |s|
  {
    if s != [] {
      var n := |s| - 1;
      var init, last := s[..n], s[n];
      var d := DropDuplicates(key, init);
      DropDuplicatesFirst(key, init);
      forall j | 0 <= j < |d|
        ensures HasKey(key, key(d[j]), s) && s[FirstIndex(key, key(d[j]), s)] == d[j]
      {
        FirstIndexOfPrefix(key, key(d[j]), s, n);
        assert s[FirstIndex(key, key(d[j]), init)] == init[FirstIndex(key, key(d[j]), init)];
      }
      if !HasKey(key, key(last), init) {
        assert key(s[n]) == key(last);
        var f := FirstIndex(key, key(last), s);
        if f < n {
          assert key(init[f]) == key(last);
        }
      }
    }
  }

  /** Kept rows are listed in the order in which their keys first occur. */
  lemma {:induction false} DropDuplicatesOrder<T, K>(key: T -> K, s: seq<T>)
    ensures forall j :: 0 <= j < |DropDuplicates(key, s)| ==> HasKey(key, key(DropDuplicates(key, s)[j]), s)
    ensures forall i, j :: 0 <= i < j < |DropDuplicates(key, s)| ==>
      FirstIndex(key, key(DropDuplicates(key, s)[i]), s) < FirstIndex(key, key(DropDuplicates(key, s)[j]), s)
    decreases |s|
  {
    DropDuplicatesFirst(key, s);
    if s != [] {
      var n := |s| - 1;
      var init, last := s[..n], s[n];
      var d := DropDuplicates(key, init);
      DropDuplicatesOrder(key, init);
      forall j | 0 <= j < |d|
        ensures FirstIndex(key, key(d[j]), s) == FirstIndex(key, key(d[j]), init)
      {
        FirstIndexOfPrefix(key, key(d[j]), s, n);
      }
    }
  }

  /** What `DropDuplicates` keeps: exactly one row per key of the input
      (no key lost, none repeated), each the first row of the input with
      its key, listed in the order in which the keys are first seen. */
  lemma DropDuplicatesSpec<T, K>(key: T -> K, s: seq<T>)
    ensures |DropDuplicates(key, s)| <= |s|
    ensures forall j :: 0 <= j < |DropDuplicates(key, s)| ==> DropDuplicates(key, s)[j] in s
    ensures forall k :: HasKey(key, k, DropDuplicates(key, s)) <==> HasKey(key, k, s)
    ensures forall i, j :: 0 <= i < j < |DropDuplicates(key, s)| ==>
      key(DropDuplicates(key, s)[i]) != key(DropDuplicates(key, s)[j])
    ensures forall j :: 0 <= j < |DropDuplicates(key, s)| ==>
      && HasKey(key, key(DropDuplicates(key, s)[j]), s)
      && s[FirstIndex(key, key(DropDuplicates(key, s)[j]), s)] == DropDuplicates(key, s)[j]
    ensures forall i, j :: 0 <= i < j < |DropDuplicates(key, s)| ==>
      FirstIndex(key, key(DropDuplicates(key, s)[i]), s) < FirstIndex(key, key(DropDuplicates(key, s)[j]), s)
  {
    DropDuplicatesSubset(key, s);
    DropDuplicatesKeepsKeys(key, s);
    DropDuplicatesDistinct(key, s);
    DropDuplicatesFirst(key, s);
    DropDuplicatesOrder(key, s);
  }

  lemma {:induction false} CountAtMostOne<T, K>(key: T -> K, a: seq<T>, x: T)
    requires forall i, j :: 0 <= i < j < |a| ==> key(a[i]) != key(a[j])
    ensures multiset(a)[x] <= 1
  {
    if a != [] {
      assert a == [a[0]] + a[1..];
      CountAtMostOne(key, a[1..], x);
    }
  }

  lemma CountAtLeastTwo<T>(b: seq<T>, i: nat, j: nat)
    requires i < j < |b| && b[i] == b[j]
    ensures multiset(b)[b[i]] >= 2
  {
    assert b == b[..i] + [b[i]] + b[i + 1..j] + [b[j]] + b[j + 1..];
  }

  /** No row occurs twice. */
  predicate Distinct<T(==)>(s: seq<T>)
  {
    forall i, j :: 0 <= i < j < |s| ==> s[i] != s[j]
  }

  /** Rows with pairwise distinct keys keep that property under any permutation. */
  lemma DistinctKeysPermutation<T, K>(key: T -> K, a: seq<T>, b: seq<T>)
    requires multiset(a) == multiset(b)
    requires forall i, j :: 0 <= i < j < |a| ==> key(a[i]) != key(a[j])
    ensures forall i, j :: 0 <= i < j < |b| ==> key(b[i]) != key(b[j])
  {
    forall i, j | 0 <= i < j < |b| ensures key(b[i]) != key(b[j]) {
      if key(b[i]) == key(b[j]) {
        assert b[i] in multiset(a) && b[j] in multiset(a);
        var p :| 0 <= p < |a| && a[p] == b[i];
        var q :| 0 <= q < |a| && a[q] == b[j];
        assert p == q;
        CountAtLeastTwo(b, i, j);
        CountAtMostOne(key, a, b[i]);
      }
    }
  }

  /** A permutation of rows without repeats has no repeats. */
  lemma DistinctPermutation<T>(a: seq<T>, b: seq<T>)
    requires multiset(a) == multiset(b) && Distinct(a)
    ensures Distinct(b)
  {
    DistinctKeysPermutation(Id, a, b);
  }

  /** Two row lists without repeats and without common rows concatenate to
      one without repeats. */
  lemma DistinctAppend<T>(a: seq<T>, b: seq<T>)
    requires Distinct(a) && Distinct(b)
    requires forall x :: x in a ==> x !in b
    ensures Distinct(a + b)
  {
    var c := a + b;
    forall i, j | 0 <= i < j < |c| ensures c[i] != c[j] {
      if i < |a| && |a| <= j {
        assert c[i] in a && c[j] == b[j - |a|];
      } else if |a| <= i {
        assert c[i] == b[i - |a|] && c[j] == b[j - |a|];
      }
    }
  }

  /** A row kept by `drop_duplicates` after a mask and a column mapping comes
      from the first masked input row with its key. */
  lemma DropDuplicatesOfMaskedFirst<T, U, K>(p: T -> bool, f: T -> U, key: U -> K, s: seq<T>, y: U) returns (i: nat)
    requires y in DropDuplicates(key, MapSeq(f, Filter(p, s)))
    ensures i < |s| && p(s[i]) && f(s[i]) == y
    ensures forall j :: 0 <= j < i && p(s[j]) ==> key(f(s[j])) != key(y)
  {
    var at := Filter(p, s);
    var rows := MapSeq(f, at);
    var d := DropDuplicates(key, rows);
    DropDuplicatesFirst(key, rows);
    var k :| 0 <= k < |d| && d[k] == y;
    var m := FirstIndex(key, key(y), rows);
    var fk := (x: T) => key(f(x));
    assert forall n :: 0 <= n < m ==> fk(at[n]) != fk(at[m]) by {
      forall n | 0 <= n < m ensures fk(at[n]) != fk(at[m]) {
        assert key(rows[n]) == fk(at[n]);
      }
    }
    i := FilterFirstOfKey(p, fk, s, m);
  }
}
