/**
 * The array sorts of the tool (`Array.prototype.sort`, which is stable, with a
 * `localeCompare` comparator). The locale's collation is not visible here, so
 * the order used is the code-point lexicographic order on strings.
 */
module Sorting {

  /** `a` sorts before or together with `b`: lexicographic order on code points. */
  predicate StrLe(a: string, b: string)
    decreases |a|
  {
    |a| == 0 || (|b| > 0 && (a[0] < b[0] || (a[0] == b[0] && StrLe(a[1..], b[1..]))))
  }

  lemma {:induction false} StrLeTotal(a: string, b: string)
    ensures StrLe(a, b) || StrLe(b, a)
    decreases |a|
  {
    if |a| > 0 && |b| > 0 && a[0] == b[0] {
      StrLeTotal(a[1..], b[1..]);
    }
  }

  lemma {:induction false} StrLeTransitive(a: string, b: string, c: string)
    requires StrLe(a, b) && StrLe(b, c)
    ensures StrLe(a, c)
    decreases |a|
  {
    if |a| > 0 && a[0] == b[0] && b[0] == c[0] {
      StrLeTransitive(a[1..], b[1..], c[1..]);
    }
  }

  lemma {:induction false} StrLeAntisymmetric(a: string, b: string)
    requires StrLe(a, b) && StrLe(b, a)
    ensures a == b
    decreases |a|
  {
    if |a| > 0 {
      StrLeAntisymmetric(a[1..], b[1..]);
      assert a == [a[0]] + a[1..];
      assert b == [b[0]] + b[1..];
    }
  }

  lemma {:induction false} StrLeReflexive(a: string)
    ensures StrLe(a, a)
    decreases |a|
  {
    if |a| > 0 {
      StrLeReflexive(a[1..]);
    }
  }

  predicate SortedBy<T>(s: seq<T>, key: T -> string) {
    forall i, j :: 0 <= i < j < |s| ==> StrLe(key(s[i]), key(s[j]))
  }

  /** Insert `x` after every element whose key does not exceed its own (keeps equal keys in order). */
  function Insert<T>(x: T, s: seq<T>, key: T -> string): (r: seq<T>)
    requires SortedBy(s, key)
    ensures |r| == |s| + 1
    ensures multiset(r) == multiset(s) + multiset{x}
    ensures SortedBy(r, key)
  {
    if s == [] then [x]
    else if !StrLe(key(s[0]), key(x)) then
      BelowAll(x, s, key);
      ConsSorted(x, s, key);
      [x] + s
    else
      var rest := Insert(x, s[1..], key);
      HeadBelowRest(s[0], s[1..], x, rest, key);
      ConsSorted(s[0], rest, key);
      assert s == [s[0]] + s[1..];
      [s[0]] + rest
  }

  /** An element sorting strictly before the head of a sorted sequence sorts before all of it. */
  lemma BelowAll<T>(x: T, s: seq<T>, key: T -> string)
    requires SortedBy(s, key) && |s| > 0 && !StrLe(key(s[0]), key(x))
    ensures forall j :: 0 <= j < |s| ==> StrLe(key(x), key(s[j]))
  {
    StrLeTotal(key(s[0]), key(x));
    forall j | 0 <= j < |s| ensures StrLe(key(x), key(s[j])) {
      if j > 0 { StrLeTransitive(key(x), key(s[0]), key(s[j])); }
    }
  }

  /** A head at or below every element of `s` and below `x` stays below every element of `s` with `x` added. */
  lemma HeadBelowRest<T>(h: T, s: seq<T>, x: T, rest: seq<T>, key: T -> string)
    requires StrLe(key(h), key(x))
    requires forall j :: 0 <= j < |s| ==> StrLe(key(h), key(s[j]))
    requires multiset(rest) == multiset(s) + multiset{x}
    ensures forall j :: 0 <= j < |rest| ==> StrLe(key(h), key(rest[j]))
  {
    forall j | 0 <= j < |rest| ensures StrLe(key(h), key(rest[j])) {
      assert rest[j] in multiset(rest);
      if rest[j] != x {
        assert rest[j] in multiset(s);
        var m :| 0 <= m < |s| && s[m] == rest[j];
      }
    }
  }

  /** Putting an element at or below all of a sorted sequence in front keeps it sorted. */
  lemma ConsSorted<T>(h: T, s: seq<T>, key: T -> string)
    requires SortedBy(s, key)
    requires forall j :: 0 <= j < |s| ==> StrLe(key(h), key(s[j]))
    ensures SortedBy([h] + s, key)
  {
    var r := [h] + s;
    forall i, j | 0 <= i < j < |r| ensures StrLe(key(r[i]), key(r[j])) {
      assert r[j] == s[j - 1];
      if i > 0 { assert r[i] == s[i - 1]; }
    }
  }

  /** A stable sort of `s` by `key`: the result is a sorted permutation of `s`. */
  function SortBy<T>(s: seq<T>, key: T -> string): (r: seq<T>)
    ensures |r| == |s|
    ensures multiset(r) == multiset(s)
    ensures SortedBy(r, key)
  {
    if s == [] then []
    else
      assert s == s[..|s| - 1] + [s[|s| - 1]];
      Insert(s[|s| - 1], SortBy(s[..|s| - 1], key), key)
  }

  /** The elements of `s` whose key is `k`, in the order of `s`. */
  function WithKey<T>(s: seq<T>, key: T -> string, k: string): seq<T> {
    if s == [] then []
    else (if key(s[0]) == k then [s[0]] else []) + WithKey(s[1..], key, k)
  }

  lemma {:induction false} WithKeyAppend<T>(a: seq<T>, b: seq<T>, key: T -> string, k: string)
    ensures WithKey(a + b, key, k) == WithKey(a, key, k) + WithKey(b, key, k)
  {
    if a == [] {
      assert a + b == b;
    } else {
      var t := a[1..];
      assert a == [a[0]] + t;
      assert a + b == [a[0]] + (t + b);
      WithKeyCons(a[0], t + b, key, k);
      WithKeyCons(a[0], t, key, k);
      WithKeyAppend(t, b, key, k);
    }
  }

  lemma {:induction false} WithKeyNone<T>(s: seq<T>, key: T -> string, k: string)
    requires forall j :: 0 <= j < |s| ==> key(s[j]) != k
    ensures WithKey(s, key, k) == []
  {
    if s != [] {
      WithKeyNone(s[1..], key, k);
    }
  }

  lemma WithKeyCons<T>(h: T, t: seq<T>, key: T -> string, k: string)
    ensures WithKey([h] + t, key, k) == (if key(h) == k then [h] else []) + WithKey(t, key, k)
  {
    assert ([h] + t)[1..] == t;
  }

  /** `Insert` puts `x` after every element sharing its key, so it comes last among them. */
  lemma {:induction false} InsertStable<T>(x: T, s: seq<T>, key: T -> string, k: string)
    requires SortedBy(s, key)
    ensures WithKey(Insert(x, s, key), key, k)
         == WithKey(s, key, k) + (if key(x) == k then [x] else [])
  {
    if s == [] {
      WithKeyCons(x, [], key, k);
    } else if !StrLe(key(s[0]), key(x)) {
      InsertFront(x, s, key, k);
    } else {
      var rest := Insert(x, s[1..], key);
      assert Insert(x, s, key) == [s[0]] + rest;
      InsertStable(x, s[1..], key, k);
      WithKeyCons(s[0], rest, key, k);
    }
  }

  /** When `x` goes in front, no element of `s` shares its key. */
  lemma InsertFront<T>(x: T, s: seq<T>, key: T -> string, k: string)
    requires SortedBy(s, key) && s != [] && !StrLe(key(s[0]), key(x))
    ensures WithKey([x] + s, key, k) == WithKey(s, key, k) + (if key(x) == k then [x] else [])
  {
    forall j | 0 <= j < |s| ensures key(s[j]) != key(x) {
      if j == 0 {
        StrLeReflexive(key(s[0]));
      } else {
        assert StrLe(key(s[0]), key(s[j]));
      }
    }
    if key(x) == k {
      WithKeyNone(s, key, k);
    }
    WithKeyCons(x, s, key, k);
  }

  lemma SortByLast<T>(s: seq<T>, key: T -> string)
    requires s != []
    ensures SortBy(s, key) == Insert(s[|s| - 1], SortBy(s[..|s| - 1], key), key)
  {}

  /** The elements of `init + [x]` with key `k`: those of `init`, then `x` if its key is `k`. */
  lemma WithKeySnoc<T>(init: seq<T>, x: T, key: T -> string, k: string)
    ensures WithKey(init + [x], key, k) == WithKey(init, key, k) + (if key(x) == k then [x] else [])
  {
    WithKeyAppend(init, [x], key, k);
    WithKeyCons(x, [], key, k);
  }

  /** Sorting one more element keeps the elements of each key in input order, if sorting the rest did. */
  lemma SortByStableStep<T>(init: seq<T>, x: T, key: T -> string, k: string)
    requires WithKey(SortBy(init, key), key, k) == WithKey(init, key, k)
    ensures WithKey(SortBy(init + [x], key), key, k) == WithKey(init + [x], key, k)
  {
    var s := init + [x];
    assert s[..|s| - 1] == init;
    SortByLast(s, key);
    InsertStable(x, SortBy(init, key), key, k);
    WithKeySnoc(init, x, key, k);
  }

  lemma PrefixSnoc<T>(s: seq<T>, n: nat)
    requires 0 < n <= |s|
    ensures s[..n] == s[..n - 1] + [s[n - 1]]
  {}

  /** `SortByStableStep` on the prefixes of `s`. */
  lemma SortByStableSnoc<T>(s: seq<T>, key: T -> string, k: string, n: nat)
    requires 0 < n <= |s|
    requires WithKey(SortBy(s[..n - 1], key), key, k) == WithKey(s[..n - 1], key, k)
    ensures WithKey(SortBy(s[..n], key), key, k) == WithKey(s[..n], key, k)
  {
    PrefixSnoc(s, n);
    SortByStableStep(s[..n - 1], s[n - 1], key, k);
  }

  /** `SortBy` is stable: the elements sharing a key keep their input order. */
  lemma SortByStable<T>(s: seq<T>, key: T -> string, k: string)
    ensures WithKey(SortBy(s, key), key, k) == WithKey(s, key, k)
  {
    SortPrefixStable(s, key, k, |s|);
    assert s[..|s|] == s;
  }

  lemma {:induction false} SortPrefixStable<T>(s: seq<T>, key: T -> string, k: string, n: nat)
    requires n <= |s|
    ensures WithKey(SortBy(s[..n], key), key, k) == WithKey(s[..n], key, k)
  {
    if n == 0 {
      assert s[..n] == [];
    } else {
      SortPrefixStable(s, key, k, n - 1);
      SortByStableSnoc(s, key, k, n);
    }
  }
}
