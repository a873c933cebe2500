/** Small failure-compatible wrappers used across the model. */
module Basics {

  datatype Option<+T> = None | Some(value: T)

  /** The outcome of an operation that the source can abandon by throwing. */
  datatype Result<+T, +E> = Ok(value: T) | Err(error: E)

  /** Number of elements of `s` that satisfy `p`. */
  function CountWhere<T>(s: seq<T>, p: T -> bool): (n: nat)
    ensures n <= |s|
    ensures n == 0 <==> forall k :: 0 <= k < |s| ==> !p(s[k])
  {
    if s == [] then 0
    else CountWhere(s[..|s| - 1], p) + (if p(s[|s| - 1]) then 1 else 0)
  }

  /** Counting over one more element adds one exactly when it satisfies `p`. */
  lemma CountWhereSnoc<T>(s: seq<T>, x: T, p: T -> bool)
    ensures CountWhere(s + [x], p) == CountWhere(s, p) + (if p(x) then 1 else 0)
  {
    assert (s + [x])[..|s|] == s;
  }

  /** No element occurs twice. */
  predicate NoDuplicates<T(==)>(s: seq<T>) {
    forall a, b :: 0 <= a < b < |s| ==> s[a] != s[b]
  }

  /** `set.add(x)` on a JavaScript `Set` (or `map.set(x, x)` on a `Map`): insertion order, no repeats. */
  function AddToSet<T(==)>(s: seq<T>, x: T): (r: seq<T>)
    ensures x in r && forall y :: y in s ==> y in r
    ensures forall y :: y in r ==> y in s || y == x
    ensures NoDuplicates(s) ==> NoDuplicates(r)
  {
    if x in s then s else s + [x]
  }

  /** Adding every element of `xs` in turn. */
  function AddAll<T(==)>(s: seq<T>, xs: seq<T>): seq<T> {
    if xs == [] then s else AddToSet(AddAll(s, xs[..|xs| - 1]), xs[|xs| - 1])
  }

  /** The set built by adding `xs` holds exactly what was there and what was added, each once. */
  lemma {:induction false} AddAllContents<T>(s: seq<T>, xs: seq<T>)
    ensures forall y :: y in AddAll(s, xs) <==> y in s || y in xs
    ensures NoDuplicates(s) ==> NoDuplicates(AddAll(s, xs))
  {
    if xs != [] {
      var init := xs[..|xs| - 1];
      AddAllContents(s, init);
      assert xs == init + [xs[|xs| - 1]];
    }
  }

  /** One more element added at the end is one more `add`. */
  lemma AddAllSnoc<T>(s: seq<T>, xs: seq<T>, x: T)
    ensures AddAll(s, xs + [x]) == AddToSet(AddAll(s, xs), x)
  {
    assert (xs + [x])[..|xs|] == xs;
  }

  /** Adding two runs one after the other is adding their concatenation. */
  lemma {:induction false} AddAllAppend<T>(s: seq<T>, xs: seq<T>, ys: seq<T>)
    ensures AddAll(AddAll(s, xs), ys) == AddAll(s, xs + ys)
  {
    if ys != [] {
      var init := ys[..|ys| - 1];
      AddAllAppend(s, xs, init);
      assert (xs + ys)[..|xs + ys| - 1] == xs + init;
      assert (xs + ys)[|xs + ys| - 1] == ys[|ys| - 1];
      assert AddAll(s, xs + ys) == AddToSet(AddAll(s, xs + init), ys[|ys| - 1]);
    } else {
      assert xs + ys == xs;
    }
  }
}
