/** Sorting by a string key in byte order, the order of Rust's `str::cmp`
    that `sort_unstable` and `sort_unstable_by` use in src/matrix.rs. */
module Sorting {
  import opened Text

  predicate SortedBy<T>(s: seq<T>, key: T -> string) {
    forall i, j :: 0 <= i < j < |s| ==> LexLe(key(s[i]), key(s[j]))
  }

  /** A key at most the first one extends a sorted sequence at the front. */
  lemma PrependSorted<T>(x: T, s: seq<T>, key: T -> string)
    requires SortedBy(s, key) && s != [] && LexLe(key(x), key(s[0]))
    ensures SortedBy([x] + s, key)
  {
    forall j | 0 <= j < |s|
      ensures LexLe(key(x), key(s[j]))
    {
      if j > 0 {
        LexLeTransitive(key(x), key(s[0]), key(s[j]));
      }
    }
  }

  /** Every key in `rest` is at least `key(y)` when `rest` holds `x` and the
      elements of the sorted `y :: tail`, and `key(y)` does not exceed key(x). */
  lemma PrependHead<T>(y: T, x: T, tail: seq<T>, rest: seq<T>, key: T -> string)
    requires SortedBy([y] + tail, key) && SortedBy(rest, key)
    requires multiset(rest) == multiset(tail) + multiset{x}
    requires LexLe(key(y), key(x))
    ensures SortedBy([y] + rest, key)
  {
    forall j | 0 <= j < |rest|
      ensures LexLe(key(y), key(rest[j]))
    {
      assert rest[j] in multiset(rest);
      if rest[j] != x {
        assert rest[j] in multiset(tail);
        var k :| 0 <= k < |tail| && tail[k] == rest[j];
        var ys := [y] + tail;
        assert ys[0] == y && ys[k + 1] == rest[j];
        assert LexLe(key(ys[0]), key(ys[k + 1]));
      }
    }
  }

  /** Inserts `x` before the first element whose key is not below its own. */
  function InsertBy<T>(x: T, s: seq<T>, key: T -> string): (r: seq<T>)
    requires SortedBy(s, key)
    ensures SortedBy(r, key)
    ensures multiset(r) == multiset(s) + multiset{x}
  {
    if s == [] then [x]
    else if LexLe(key(x), key(s[0])) then
      PrependSorted(x, s, key);
      [x] + s
    else
      assert s == [s[0]] + s[1..];
      var rest := InsertBy(x, s[1..], key);
      LexLeTotal(key(x), key(s[0]));
      PrependHead(s[0], x, s[1..], rest, key);
      [s[0]] + rest
  }

  /** A sorted permutation of `s`. Only this contract is used elsewhere; the
      insertion sort in the body stands for the library's sort. */
  function SortBy<T>(s: seq<T>, key: T -> string): (r: seq<T>)
    ensures SortedBy(r, key)
    ensures multiset(r) == multiset(s)
  {
    if s == [] then [] else
      assert s == [s[0]] + s[1..];
      InsertBy(s[0], SortBy(s[1..], key), key)
  }
}
