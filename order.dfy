/**
 * Python's ordering of strings (code point by code point, a proper prefix
 * first) and `sorted(xs, key=...)` over it.
 */
module Order {
  import opened Seqs

  /** `a <= b` on Python strings. */
  predicate StrLe(a: string, b: string)
    decreases |a|
  {
    |a| == 0 || (|b| > 0 && (a[0] < b[0] || (a[0] == b[0] && StrLe(a[1..], b[1..]))))
  }

  lemma {:induction false} StrLeTotal(a: string, b: string)
    ensures StrLe(a, b) || StrLe(b, a)
    decreases |a|
  {
    if |a| > 0 && |b| > 0 && a[0] == b[0] {
      StrLeTotal(a[1..], b[1..]);
    }
  }

  lemma {:induction false} StrLeTransitive(a: string, b: string, c: string)
    requires StrLe(a, b) && StrLe(b, c)
    ensures StrLe(a, c)
    decreases |a|
  {
    if |a| > 0 && a[0] == b[0] && b[0] == c[0] {
      StrLeTransitive(a[1..], b[1..], c[1..]);
    }
  }

  lemma {:induction false} StrLeAntisymmetric(a: string, b: string)
    requires StrLe(a, b) && StrLe(b, a)
    ensures a == b
    decreases |a|
  {
    if |a| > 0 {
      StrLeAntisymmetric(a[1..], b[1..]);
      assert a == [a[0]] + a[1..] && b == [b[0]] + b[1..];
    }
  }

  /** The key of `sorted(names)`: a string is its own key. */
  function Identity(s: string): string {
    s
  }

  /** Every earlier element's key is at most every later element's key. */
  ghost predicate SortedBy<T>(s: seq<T>, key: T -> string) {
    forall i, j :: 0 <= i < j < |s| ==> StrLe(key(s[i]), key(s[j]))
  }

  /** No two elements share a key. */
  ghost predicate DistinctBy<T>(s: seq<T>, key: T -> string) {
    forall i, j :: 0 <= i < j < |s| ==> key(s[i]) != key(s[j])
  }

  /** Distinct keys stay distinct past the first element, whose key no later one shares. */
  lemma DistinctByTail<T>(s: seq<T>, key: T -> string)
    requires s != []
    ensures DistinctBy(s, key) ==> DistinctBy(s[1..], key) && forall x :: x in s[1..] ==> key(x) != key(s[0])
  {
    if DistinctBy(s, key) {
      forall i, j | 0 <= i < j < |s| - 1 ensures key(s[1..][i]) != key(s[1..][j]) {
        assert s[1..][i] == s[i + 1] && s[1..][j] == s[j + 1];
      }
    }
  }

  /** An element whose key no element of `t` shares keeps the keys distinct in front of `t`. */
  lemma DistinctByCons<T>(x: T, t: seq<T>, key: T -> string)
    ensures DistinctBy(t, key) && (forall y :: y in t ==> key(y) != key(x)) ==> DistinctBy([x] + t, key)
  {
    if DistinctBy(t, key) && (forall y :: y in t ==> key(y) != key(x)) {
      var s := [x] + t;
      forall i, j | 0 <= i < j < |s| ensures key(s[i]) != key(s[j]) {
        assert s[j] == t[j - 1];
        if i > 0 { assert s[i] == t[i - 1]; }
      }
    }
  }

  /** Rearranging a sequence keeps its keys distinct. */
  lemma DistinctByPerm<T>(a: seq<T>, b: seq<T>, key: T -> string)
    requires multiset(a) == multiset(b)
    ensures DistinctBy(a, key) ==> DistinctBy(b, key)
  {
    if DistinctBy(a, key) {
      forall i, j | 0 <= i < j < |b| ensures key(b[i]) != key(b[j]) {
        if b[i] == b[j] {
          OccursTwice(b, i, j);
          var p, q := TwiceOccurs(a, b[i]);
          assert false;
        } else {
          assert b[i] in multiset(a) && b[j] in multiset(a);
          var p :| 0 <= p < |a| && a[p] == b[i];
          var q :| 0 <= q < |a| && a[q] == b[j];
        }
      }
    }
  }

  /** Inserts `x` in front of the first element whose key is at least `x`'s. */
  function Insert<T(==)>(x: T, s: seq<T>, key: T -> string): (r: seq<T>)
    requires SortedBy(s, key)
    ensures multiset(r) == multiset(s) + multiset{x}
    ensures SortedBy(r, key)
    ensures r != [] && (r[0] == x || (s != [] && r[0] == s[0]))
  {
    if s == [] || StrLe(key(x), key(s[0])) then
      var r := [x] + s;
      forall j | 0 < j < |r| ensures StrLe(key(r[0]), key(r[j])) {
        if j > 1 { StrLeTransitive(key(x), key(s[0]), key(s[j - 1])); }
      }
      r
    else
      var t := Insert(x, s[1..], key);
      var r := [s[0]] + t;
      StrLeTotal(key(x), key(s[0]));
      forall j | 0 < j < |r| ensures StrLe(key(r[0]), key(r[j])) {
        assert r[j] in multiset(t);
        assert r[j] == x || r[j] in s[1..];
      }
      assert s == [s[0]] + s[1..];
      r
  }

  /** Python's `sorted(s, key=key)`: the elements of `s`, rearranged in key order. */
  function SortBy<T(==)>(s: seq<T>, key: T -> string): (r: seq<T>)
    ensures multiset(r) == multiset(s)
    ensures SortedBy(r, key)
  {
    if s == [] then []
    else
      assert s == [s[0]] + s[1..];
      Insert(s[0], SortBy(s[1..], key), key)
  }
}
