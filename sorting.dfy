/**
 * Sorting by a string key, standing in for `Array.prototype.sort` with a
 * `localeCompare` comparator. The locale's collation is replaced by the
 * lexicographic order on Unicode code points: a total preorder on strings, which
 * is all the file tree relies on.
 */
module Sorting {

  /** Lexicographic order on code points. */
  predicate StrLe(a: string, b: string)
    decreases |a|
  {
    |a| == 0 || (|b| > 0 && (a[0] < b[0] || (a[0] == b[0] && StrLe(a[1..], b[1..]))))
  }

  lemma {:induction false} StrLeTotal(a: string, b: string)
    ensures StrLe(a, b) || StrLe(b, a)
    decreases |a|
  {
    if |a| > 0 && |b| > 0 && a[0] == b[0] {
      StrLeTotal(a[1..], b[1..]);
    }
  }

  lemma {:induction false} StrLeTransitive(a: string, b: string, c: string)
    requires StrLe(a, b) && StrLe(b, c)
    ensures StrLe(a, c)
    decreases |a|
  {
    if |a| > 0 && a[0] == b[0] && b[0] == c[0] {
      StrLeTransitive(a[1..], b[1..], c[1..]);
    }
  }

  /** `xs` is in ascending order of `key`. */
  ghost predicate SortedBy<T>(xs: seq<T>, key: T -> string) {
    forall i, j :: 0 <= i < j < |xs| ==> StrLe(key(xs[i]), key(xs[j]))
  }

  /** Inserts `x` before the first element whose key is not below it. */
  function InsertBy<T>(x: T, xs: seq<T>, key: T -> string): (r: seq<T>)
    ensures multiset(r) == multiset(xs) + multiset{x}
    decreases |xs|
  {
    if |xs| == 0 || StrLe(key(x), key(xs[0])) then [x] + xs
    else
      assert xs == [xs[0]] + xs[1..];
      [xs[0]] + InsertBy(x, xs[1..], key)
  }

  /** Insertion sort of `xs` by `key`: the same elements, in ascending key order. */
  function SortBy<T>(xs: seq<T>, key: T -> string): (r: seq<T>)
    ensures multiset(r) == multiset(xs)
    ensures |r| == |xs|
    decreases |xs|
  {
    if |xs| == 0 then []
    else
      assert xs == [xs[0]] + xs[1..];
      InsertBy(xs[0], SortBy(xs[1..], key), key)
  }

  lemma {:induction false} InsertBySorted<T>(x: T, xs: seq<T>, key: T -> string)
    requires SortedBy(xs, key)
    ensures SortedBy(InsertBy(x, xs, key), key)
    decreases |xs|
  {
    var r := InsertBy(x, xs, key);
    if |xs| == 0 {
    } else if StrLe(key(x), key(xs[0])) {
      forall i, j | 0 <= i < j < |r| ensures StrLe(key(r[i]), key(r[j])) {
        if i == 0 && j > 1 {
          StrLeTransitive(key(x), key(xs[0]), key(xs[j - 1]));
        }
      }
    } else {
      StrLeTotal(key(x), key(xs[0]));
      var rest := InsertBy(x, xs[1..], key);
      InsertBySorted(x, xs[1..], key);
      forall j | 0 <= j < |rest| ensures StrLe(key(xs[0]), key(rest[j])) {
        assert rest[j] in multiset(rest);
        if rest[j] != x {
          assert rest[j] in multiset(xs[1..]);
          var m :| 0 <= m < |xs[1..]| && xs[1..][m] == rest[j];
          assert xs[m + 1] == rest[j];
        }
      }
    }
  }

  /** The result of `SortBy` is in ascending key order. */
  lemma {:induction false} SortBySorted<T>(xs: seq<T>, key: T -> string)
    ensures SortedBy(SortBy(xs, key), key)
    decreases |xs|
  {
    if |xs| > 0 {
      SortBySorted(xs[1..], key);
      InsertBySorted(xs[0], SortBy(xs[1..], key), key);
    }
  }

  /** Sorting keeps exactly the elements: membership is unchanged. */
  lemma SortByMembers<T>(xs: seq<T>, key: T -> string, x: T)
    ensures x in SortBy(xs, key) <==> x in xs
  {
    var r := SortBy(xs, key);
    assert x in r <==> x in multiset(r);
    assert x in xs <==> x in multiset(xs);
  }

  /** Each element of the sorted sequence is an element of the input. */
  lemma SortByElements<T>(xs: seq<T>, key: T -> string)
    ensures forall j :: 0 <= j < |SortBy(xs, key)| ==> SortBy(xs, key)[j] in xs
  {
    forall j | 0 <= j < |SortBy(xs, key)| ensures SortBy(xs, key)[j] in xs {
      SortByMembers(xs, key, SortBy(xs, key)[j]);
    }
  }

  /** A string used as its own key. */
  function Id(s: string): string {
    s
  }

  /** The keys of `xs`, in order. */
  function KeysOf<T>(xs: seq<T>, key: T -> string): seq<string> {
    seq(|xs|, i requires 0 <= i < |xs| => key(xs[i]))
  }

  lemma {:induction false} InsertByKeys<T>(x: T, xs: seq<T>, key: T -> string)
    ensures KeysOf(InsertBy(x, xs, key), key) == InsertBy(key(x), KeysOf(xs, key), Id)
    decreases |xs|
  {
    var ks := KeysOf(xs, key);
    if |xs| == 0 || StrLe(key(x), key(xs[0])) {
      assert KeysOf([x] + xs, key) == [key(x)] + ks;
    } else {
      InsertByKeys(x, xs[1..], key);
      assert KeysOf(xs[1..], key) == ks[1..];
      assert ks == [ks[0]] + ks[1..];
      assert KeysOf([xs[0]] + InsertBy(x, xs[1..], key), key) == [key(xs[0])] + KeysOf(InsertBy(x, xs[1..], key), key);
    }
  }

  lemma KeysOfTail<T>(xs: seq<T>, key: T -> string)
    requires |xs| > 0
    ensures KeysOf(xs, key)[0] == key(xs[0]) && KeysOf(xs, key)[1..] == KeysOf(xs[1..], key)
  {
  }

  lemma SortByFirst<T>(xs: seq<T>, key: T -> string)
    requires |xs| > 0
    ensures SortBy(xs, key) == InsertBy(xs[0], SortBy(xs[1..], key), key)
  {
  }

  /** Sorting by a key and then reading the keys is sorting the keys. */
  lemma {:induction false} SortByKeys<T>(xs: seq<T>, key: T -> string)
    ensures KeysOf(SortBy(xs, key), key) == SortBy(KeysOf(xs, key), Id)
    decreases |xs|
  {
    if |xs| > 0 {
      var rest := SortBy(xs[1..], key);
      SortByKeys(xs[1..], key);
      InsertByKeys(xs[0], rest, key);
      KeysOfTail(xs, key);
      SortByFirst(KeysOf(xs, key), Id);
    }
  }
}
