/**
 * Ordering strings as Rust's `Ord for str` does (lexicographically by code
 * point, a proper prefix first) and the stable `sort_by_key` over such keys,
 * as insertion into a sorted sequence.
 */
module Sorting {

  /** `a <= b` for Rust strings. */
  predicate NameLe(a: string, b: string)
    decreases |a|
  {
    |a| == 0 || (|b| > 0 && (a[0] < b[0] || (a[0] == b[0] && NameLe(a[1..], b[1..]))))
  }

  lemma {:induction false} NameLeTotal(a: string, b: string)
    ensures NameLe(a, b) || NameLe(b, a)
    decreases |a|
  {
    if |a| > 0 && |b| > 0 && a[0] == b[0] {
      NameLeTotal(a[1..], b[1..]);
    }
  }

  lemma {:induction false} NameLeTrans(a: string, b: string, c: string)
    requires NameLe(a, b) && NameLe(b, c)
    ensures NameLe(a, c)
    decreases |a|
  {
    if |a| > 0 && a[0] == b[0] && b[0] == c[0] {
      NameLeTrans(a[1..], b[1..], c[1..]);
    }
  }

  lemma {:induction false} NameLeAntisymmetric(a: string, b: string)
    requires NameLe(a, b) && NameLe(b, a)
    ensures a == b
    decreases |a|
  {
    if |a| > 0 {
      NameLeAntisymmetric(a[1..], b[1..]);
      assert a == [a[0]] + a[1..] && b == [b[0]] + b[1..];
    }
  }

  /** The keys of `xs` never decrease. */
  predicate SortedBy<T>(xs: seq<T>, key: T -> string)
  {
    forall i, j :: 0 <= i < j < |xs| ==> NameLe(key(xs[i]), key(xs[j]))
  }

  /** `x` placed after every element whose key is not greater than its own. */
  function InsertBy<T>(x: T, xs: seq<T>, key: T -> string): (r: seq<T>)
    requires SortedBy(xs, key)
    ensures multiset(r) == multiset(xs) + multiset{x}
    ensures SortedBy(r, key)
    decreases |xs|
  {
    if |xs| == 0 then [x]
    else if !NameLe(key(xs[0]), key(x)) then
      NameLeTotal(key(xs[0]), key(x));
      forall j | 0 <= j < |xs| ensures NameLe(key(x), key(xs[j])) {
        if j > 0 { NameLeTrans(key(x), key(xs[0]), key(xs[j])); }
      }
      [x] + xs
    else
      var rest := InsertBy(x, xs[1..], key);
      assert SortedBy(xs[1..], key) by {
        forall i, j | 0 <= i < j < |xs| - 1 ensures NameLe(key(xs[1..][i]), key(xs[1..][j])) {
          assert xs[1..][i] == xs[i + 1] && xs[1..][j] == xs[j + 1];
        }
      }
      assert xs == [xs[0]] + xs[1..];
      forall k | 0 <= k < |rest| ensures NameLe(key(xs[0]), key(rest[k])) {
        assert rest[k] in multiset(rest);
        if rest[k] != x {
          assert rest[k] in multiset(xs[1..]);
          var j :| 0 <= j < |xs[1..]| && xs[1..][j] == rest[k];
          assert xs[j + 1] == rest[k];
        }
      }
      [xs[0]] + rest
  }

  /**
   * `sort_by_key`: each element inserted, in order, into the sorted
   * prefix; an element goes after the equal keys already placed, so the
   * sort is stable.
   */
  function SortBy<T>(xs: seq<T>, key: T -> string): (r: seq<T>)
    ensures multiset(r) == multiset(xs)
    ensures |r| == |xs|
    ensures SortedBy(r, key)
    decreases |xs|
  {
    if |xs| == 0 then []
    else
      var sorted := SortBy(xs[..|xs| - 1], key);
      assert xs == xs[..|xs| - 1] + [xs[|xs| - 1]];
      var r := InsertBy(xs[|xs| - 1], sorted, key);
      assert |r| == |multiset(r)|;
      r
  }
}
