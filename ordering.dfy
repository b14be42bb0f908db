/** ORDER BY over a table: the lexicographic order on strings, a generic
    insertion sort by a string key, and the enumeration of a table's rows in
    ascending key order. */
module Ordering {

  /** Lexicographic order by character code, the collation this model
      assumes for `asc(...)` on text columns and for ISO day strings. */
  predicate StrLe(a: string, b: string) {
    if a == [] then true
    else if b == [] then false
    else if a[0] != b[0] then a[0] < b[0]
    else StrLe(a[1..], b[1..])
  }

  lemma {:induction false} StrLeTotal(a: string, b: string)
    ensures StrLe(a, b) || StrLe(b, a)
  {
    if a != [] && b != [] && a[0] == b[0] {
      StrLeTotal(a[1..], b[1..]);
    }
  }

  lemma {:induction false} StrLeTransitive(a: string, b: string, c: string)
    requires StrLe(a, b) && StrLe(b, c)
    ensures StrLe(a, c)
  {
    if a != [] && b != [] && c != [] && a[0] == b[0] && b[0] == c[0] {
      StrLeTransitive(a[1..], b[1..], c[1..]);
    }
  }

  lemma {:induction false} StrLeAntisymmetric(a: string, b: string)
    requires StrLe(a, b) && StrLe(b, a)
    ensures a == b
  {
    if a != [] && b != [] {
      StrLeAntisymmetric(a[1..], b[1..]);
      assert a == [a[0]] + a[1..] && b == [b[0]] + b[1..];
    }
  }

  datatype Direction = Ascending | Descending

  predicate InOrder(x: string, y: string, dir: Direction) {
    if dir == Ascending then StrLe(x, y) else StrLe(y, x)
  }

  lemma InOrderTotal(x: string, y: string, dir: Direction)
    ensures InOrder(x, y, dir) || InOrder(y, x, dir)
  {
    StrLeTotal(x, y);
  }

  lemma InOrderTransitive(x: string, y: string, z: string, dir: Direction)
    requires InOrder(x, y, dir) && InOrder(y, z, dir)
    ensures InOrder(x, z, dir)
  {
    if dir == Ascending { StrLeTransitive(x, y, z); } else { StrLeTransitive(z, y, x); }
  }

  predicate SortedBy<T>(s: seq<T>, key: T -> string, dir: Direction) {
    forall i, j | 0 <= i < j < |s| :: InOrder(key(s[i]), key(s[j]), dir)
  }

  /** Places `x` before the first element it may precede. */
  function Insert<T>(x: T, s: seq<T>, key: T -> string, dir: Direction): (r: seq<T>)
    ensures multiset(r) == multiset(s) + multiset{x}
    ensures SortedBy(s, key, dir) ==> SortedBy(r, key, dir)
  {
    if s == [] then [x]
    else if InOrder(key(x), key(s[0]), dir) then
      var r := [x] + s;
      assert SortedBy(s, key, dir) ==> SortedBy(r, key, dir) by {
        if SortedBy(s, key, dir) {
          forall j | 1 <= j < |r| ensures InOrder(key(r[0]), key(r[j]), dir) {
            if j > 1 { InOrderTransitive(key(x), key(s[0]), key(s[j - 1]), dir); }
          }
        }
      }
      r
    else
      var rest := Insert(x, s[1..], key, dir);
      var r := [s[0]] + rest;
      assert s == [s[0]] + s[1..];
      assert SortedBy(s, key, dir) ==> SortedBy(r, key, dir) by {
        if SortedBy(s, key, dir) {
          assert SortedBy(s[1..], key, dir);
          InOrderTotal(key(x), key(s[0]), dir);
          forall j | 1 <= j < |r| ensures InOrder(key(r[0]), key(r[j]), dir) {
            assert r[j] in multiset(rest);
            assert r[j] == x || r[j] in s[1..];
          }
        }
      }
      r
  }

  /** Insertion sort; the result is ordered by `key` and is a permutation of
      the input. */
  function SortBy<T>(s: seq<T>, key: T -> string, dir: Direction): (r: seq<T>)
    ensures multiset(r) == multiset(s)
    ensures |r| == |s|
    ensures SortedBy(r, key, dir)
  {
    if s == [] then []
    else
      assert s == [s[0]] + s[1..];
      Insert(s[0], SortBy(s[1..], key, dir), key, dir)
  }

  ghost function KeysUnder<T>(m: map<int, T>, n: int): set<int> {
    set k | k in m && 0 <= k < n
  }

  /** The keys of `m` in [0, n), ascending. */
  function KeysBelow<T>(m: map<int, T>, n: int): (r: seq<int>)
    decreases n
    ensures forall i | 0 <= i < |r| :: r[i] in m && 0 <= r[i] < n
    ensures forall i, j | 0 <= i < j < |r| :: r[i] < r[j]
    ensures forall k | k in m && 0 <= k < n :: k in r
  {
    if n <= 0 then []
    else KeysBelow(m, n - 1) + if n - 1 in m then [n - 1] else []
  }

  lemma KeysUnderStep<T>(m: map<int, T>, n: int)
    requires n > 0
    ensures n - 1 in m ==> KeysUnder(m, n) == KeysUnder(m, n - 1) + {n - 1} && n - 1 !in KeysUnder(m, n - 1)
    ensures n - 1 !in m ==> KeysUnder(m, n) == KeysUnder(m, n - 1)
  {
  }

  lemma {:induction false} KeysBelowCount<T>(m: map<int, T>, n: int)
    decreases n
    ensures |KeysBelow(m, n)| == |KeysUnder(m, n)|
  {
    if n <= 0 {
      assert KeysUnder(m, n) == {};
    } else {
      KeysBelowCount(m, n - 1);
      KeysUnderStep(m, n);
    }
  }

  /** When every key of `m` lies in [0, n), the enumeration lists them all. */
  lemma KeysBelowAll<T>(m: map<int, T>, n: int)
    requires forall k | k in m :: 0 <= k < n
    ensures |KeysBelow(m, n)| == |m|
  {
    KeysBelowCount(m, n);
    assert KeysUnder(m, n) == m.Keys;
    assert |m.Keys| == |m|;
  }

  /** The rows of `m` at the keys `ks`, in that order. */
  function RowsAt<T>(m: map<int, T>, ks: seq<int>): (r: seq<T>)
    requires forall i | 0 <= i < |ks| :: ks[i] in m
    ensures |r| == |ks|
    ensures forall i | 0 <= i < |ks| :: r[i] == m[ks[i]]
  {
    seq(|ks|, i requires 0 <= i < |ks| => m[ks[i]])
  }

  /** The rows of a table whose keys all lie in [0, n), in ascending key
      order: each row exactly once. */
  function RowsBelow<T(==)>(m: map<int, T>, n: int): (r: seq<T>)
    requires forall k | k in m :: 0 <= k < n
    ensures |r| == |m|
    ensures forall i | 0 <= i < |r| :: r[i] in m.Values
    ensures forall k | k in m :: m[k] in r
  {
    var ks := KeysBelow(m, n);
    KeysBelowAll(m, n);
    var r := RowsAt(m, ks);
    assert forall i | 0 <= i < |r| :: r[i] in m.Values by {
      forall i | 0 <= i < |r| ensures r[i] in m.Values {
        assert ks[i] in m && r[i] == m[ks[i]];
      }
    }
    assert forall k | k in m :: m[k] in r by {
      forall k | k in m ensures m[k] in r {
        var i :| 0 <= i < |ks| && ks[i] == k;
        assert r[i] == m[k];
      }
    }
    r
  }

  /** `findMany` with one `orderBy` column: every row of the table, each
      exactly once, ordered by `key`. */
  function SortedRows<T(==)>(m: map<int, T>, n: int, key: T -> string, dir: Direction): (r: seq<T>)
    requires forall k | k in m :: 0 <= k < n
    ensures SortedBy(r, key, dir)
    ensures |r| == |m|
    ensures forall i | 0 <= i < |r| :: r[i] in m.Values
    ensures forall k | k in m :: m[k] in r
  {
    var rows := RowsBelow(m, n);
    var r := SortBy(rows, key, dir);
    assert forall i | 0 <= i < |r| :: r[i] in multiset(rows);
    assert forall k | k in m :: m[k] in multiset(r);
    r
  }
}
