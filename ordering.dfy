/** The orders that the engine's `sort_values` calls use: Python's code-point
    order on strings, numeric order on integers and timestamps, and the
    lexicographic order on a row's tuple of sort columns; and the stable sort
    by such a tuple (pandas sorts on several columns with a stable lexsort). */
module Ordering {

  /** One sort-column cell. A column holds one kind of value; the order
      between the kinds (numbers first) is needed only in the attendance
      table, where a formatted time sorts before the placeholder text. */
  datatype Value = Num(n: int) | Text(s: string)

  /** No extra sort columns. */
  function NoColumns<T>(x: T): seq<Value> { [] }

  /** Python's `<` on `str`: lexicographic by code point, a proper prefix first. */
  predicate StrLt(a: string, b: string)
    decreases |a|
  {
    if a == [] then b != []
    else if b == [] then false
    else a[0] < b[0] || (a[0] == b[0] && StrLt(a[1..], b[1..]))
  }

  lemma {:induction false} StrLtIrreflexive(a: string)
    ensures !StrLt(a, a)
    decreases |a|
  {
    if a != [] {
      StrLtIrreflexive(a[1..]);
    }
  }

  lemma {:induction false} StrLtTransitive(a: string, b: string, c: string)
    requires StrLt(a, b) && StrLt(b, c)
    ensures StrLt(a, c)
    decreases |a|
  {
    if a != [] && a[0] == b[0] && b[0] == c[0] {
      StrLtTransitive(a[1..], b[1..], c[1..]);
    }
  }

  lemma {:induction false} StrLtTotal(a: string, b: string)
    ensures StrLt(a, b) || a == b || StrLt(b, a)
    decreases |a|
  {
    if a != [] && b != [] && a[0] == b[0] {
      StrLtTotal(a[1..], b[1..]);
      assert a == [a[0]] + a[1..] && b == [b[0]] + b[1..];
    }
  }

  predicate ValueLt(x: Value, y: Value)
  {
    match (x, y)
    case (Num(m), Num(n)) => m < n
    case (Text(s), Text(t)) => StrLt(s, t)
    case (Num(_), Text(_)) => true
    case (Text(_), Num(_)) => false
  }

  /** Lexicographic order on tuples of sort columns, earlier columns first. */
  predicate KeyLt(a: seq<Value>, b: seq<Value>)
    decreases |a|
  {
    if a == [] then b != []
    else if b == [] then false
    else ValueLt(a[0], b[0]) || (a[0] == b[0] && KeyLt(a[1..], b[1..]))
  }

  predicate KeyLe(a: seq<Value>, b: seq<Value>)
  {
    a == b || KeyLt(a, b)
  }

  lemma ValueLtIrreflexive(x: Value)
    ensures !ValueLt(x, x)
  {
    if x.Text? {
      StrLtIrreflexive(x.s);
    }
  }

  lemma ValueLtTransitive(x: Value, y: Value, z: Value)
    requires ValueLt(x, y) && ValueLt(y, z)
    ensures ValueLt(x, z)
  {
    if x.Text? {
      StrLtTransitive(x.s, y.s, z.s);
    }
  }

  lemma ValueLtTotal(x: Value, y: Value)
    ensures ValueLt(x, y) || x == y || ValueLt(y, x)
  {
    if x.Text? && y.Text? {
      StrLtTotal(x.s, y.s);
    }
  }

  lemma {:induction false} KeyLtIrreflexive(a: seq<Value>)
    ensures !KeyLt(a, a)
    decreases |a|
  {
    if a != [] {
      ValueLtIrreflexive(a[0]);
      KeyLtIrreflexive(a[1..]);
    }
  }

  lemma {:induction false} KeyLtTransitive(a: seq<Value>, b: seq<Value>, c: seq<Value>)
    requires KeyLt(a, b) && KeyLt(b, c)
    ensures KeyLt(a, c)
    decreases |a|
  {
    if a != [] {
      if ValueLt(a[0], b[0]) && ValueLt(b[0], c[0]) {
        ValueLtTransitive(a[0], b[0], c[0]);
      } else if a[0] == b[0] && b[0] == c[0] {
        KeyLtTransitive(a[1..], b[1..], c[1..]);
      }
    }
  }

  lemma {:induction false} KeyLtTotal(a: seq<Value>, b: seq<Value>)
    ensures KeyLt(a, b) || a == b || KeyLt(b, a)
    decreases |a|
  {
    if a != [] && b != [] {
      ValueLtTotal(a[0], b[0]);
      if a[0] == b[0] {
        KeyLtTotal(a[1..], b[1..]);
        assert a == [a[0]] + a[1..] && b == [b[0]] + b[1..];
      }
    }
  }

  lemma KeyLeTransitive(a: seq<Value>, b: seq<Value>, c: seq<Value>)
    requires KeyLe(a, b) && KeyLe(b, c)
    ensures KeyLe(a, c)
  {
    if a != b && b != c {
      KeyLtTransitive(a, b, c);
    }
  }

  /** Keys compare by their first column, and by the rest when the first columns agree. */
  lemma KeyLeCons(v: Value, a: seq<Value>, w: Value, b: seq<Value>)
    ensures KeyLe([v] + a, [w] + b) <==> ValueLt(v, w) || (v == w && KeyLe(a, b))
  {
    ValueLtIrreflexive(v);
    assert ([v] + a)[0] == v && ([v] + a)[1..] == a;
    assert ([w] + b)[0] == w && ([w] + b)[1..] == b;
    if [v] + a == [w] + b {
      assert v == w && a == b;
    }
  }

  /** `s` is in ascending order of `key`. */
  predicate SortedByKey<T>(key: T -> seq<Value>, s: seq<T>)
  {
    forall i, j :: 0 <= i < j < |s| ==> KeyLe(key(s[i]), key(s[j]))
  }

  /** Insert `x` before the first row whose key is not smaller than its own. */
  function Insert<T>(key: T -> seq<Value>, x: T, s: seq<T>): (r: seq<T>)
    requires SortedByKey(key, s)
    ensures multiset(r) == multiset(s) + multiset{x}
    ensures SortedByKey(key, r)
  {
    if s == [] then [x]
    else if KeyLe(key(x), key(s[0])) then
      assert forall j :: 0 < j < |s| ==> KeyLe(key(x), key(s[j])) by {
        forall j | 0 < j < |s| ensures KeyLe(key(x), key(s[j])) {
          KeyLeTransitive(key(x), key(s[0]), key(s[j]));
        }
      }
      [x] + s
    else
      assert s == [s[0]] + s[1..];
      var t := Insert(key, x, s[1..]);
      assert forall j :: 0 <= j < |t| ==> KeyLe(key(s[0]), key(t[j])) by {
        forall j | 0 <= j < |t| ensures KeyLe(key(s[0]), key(t[j])) {
          assert t[j] in multiset(t);
          if t[j] == x {
            KeyLtTotal(key(x), key(s[0]));
          } else {
            assert t[j] in multiset(s[1..]);
            var k :| 0 <= k < |s[1..]| && s[1..][k] == t[j];
            assert s[k + 1] == t[j];
          }
        }
      }
      [s[0]] + t
  }

  /** A stable sort of `s` by `key`: the result is a permutation of `s` in
      ascending key order. */
  function SortByKey<T>(key: T -> seq<Value>, s: seq<T>): (r: seq<T>)
    ensures multiset(r) == multiset(s)
    ensures |r| == |s|
    ensures SortedByKey(key, r)
  {
    if s == [] then []
    else
      assert s == [s[0]] + s[1..];
      Insert(key, s[0], SortByKey(key, s[1..]))
  }
}
