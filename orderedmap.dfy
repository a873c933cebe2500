/**
 * A string-keyed table that remembers insertion order, as a JavaScript plain
 * object (`obj[k] = v`, `Object.entries`) or a `Map` (`set`, `get`, `values`)
 * behaves: setting a key that is already present replaces its value in place,
 * a new key goes to the end.
 */
module OrderedMap {
  import opened Basics

  type Table<V> = seq<(string, V)>

  function Keys<V>(t: Table<V>): (ks: seq<string>)
    ensures |ks| == |t|
    ensures forall k :: 0 <= k < |t| ==> ks[k] == t[k].0
  {
    if t == [] then [] else Keys(t[..|t| - 1]) + [t[|t| - 1].0]
  }

  predicate HasKey<V>(t: Table<V>, key: string) {
    exists k :: 0 <= k < |t| && t[k].0 == key
  }

  predicate DistinctKeys<V>(t: Table<V>) {
    forall a, b :: 0 <= a < b < |t| ==> t[a].0 != t[b].0
  }

  /** Index of the entry for `key`, or -1. */
  function Find<V>(t: Table<V>, key: string): (r: int)
    ensures -1 <= r < |t|
    ensures r == -1 <==> !HasKey(t, key)
    ensures r >= 0 ==> t[r].0 == key && forall k :: 0 <= k < r ==> t[k].0 != key
  {
    if t == [] then -1
    else if t[0].0 == key then 0
    else
      var r := Find(t[1..], key);
      assert forall k :: 1 <= k < |t| ==> t[k] == t[1..][k - 1];
      if r == -1 then -1 else r + 1
  }

  /** `obj[key]` / `map.get(key)`: the value stored under `key`, if any. */
  function Get<V>(t: Table<V>, key: string): (r: Option<V>)
    ensures r.None? <==> !HasKey(t, key)
  {
    var k := Find(t, key);
    if k < 0 then None else Some(t[k].1)
  }

  /** `obj[key] = v` / `map.set(key, v)`. */
  function Put<V>(t: Table<V>, key: string, v: V): (r: Table<V>)
    ensures HasKey(t, key) ==> |r| == |t| && Keys(r) == Keys(t)
    ensures !HasKey(t, key) ==> r == t + [(key, v)]
    ensures Get(r, key) == Some(v)
    ensures forall other :: other != key ==> Get(r, other) == Get(t, other)
    ensures DistinctKeys(t) ==> DistinctKeys(r)
  {
    var k := Find(t, key);
    var r := if k < 0 then t + [(key, v)] else t[k := (key, v)];
    PutKeys(t, key, v, k, r);
    FindAt(r, key, if k < 0 then |t| else k);
    forall other | other != key ensures Get(r, other) == Get(t, other) {
      PutOther(t, key, v, k, r, other);
    }
    r
  }

  /** Putting keeps every existing key in its place. */
  lemma PutKeys<V>(t: Table<V>, key: string, v: V, k: int, r: Table<V>)
    requires k == Find(t, key)
    requires r == if k < 0 then t + [(key, v)] else t[k := (key, v)]
    ensures forall i :: 0 <= i < |t| ==> r[i].0 == t[i].0
    ensures r[if k < 0 then |t| else k] == (key, v)
    ensures forall i :: 0 <= i < (if k < 0 then |t| else k) ==> r[i].0 != key
    ensures HasKey(t, key) ==> |r| == |t| && Keys(r) == Keys(t)
    ensures DistinctKeys(t) ==> DistinctKeys(r)
  {
    assert forall i :: 0 <= i < |t| ==> r[i].0 == t[i].0;
  }

  /** Putting leaves the lookup of every other key as it was. */
  lemma PutOther<V>(t: Table<V>, key: string, v: V, k: int, r: Table<V>, other: string)
    requires k == Find(t, key) && other != key
    requires r == if k < 0 then t + [(key, v)] else t[k := (key, v)]
    ensures Get(r, other) == Get(t, other)
  {
    PutKeys(t, key, v, k, r);
    var j := Find(t, other);
    if j >= 0 {
      FindAt(r, other, j);
    } else {
      assert !HasKey(r, other);
    }
  }
  /** The index of the first entry for `key` is `j` when `key` sits at `j` and nowhere before. */
  lemma FindAt<V>(t: Table<V>, key: string, j: int)
    requires 0 <= j < |t| && t[j].0 == key
    requires forall i :: 0 <= i < j ==> t[i].0 != key
    ensures Find(t, key) == j
  {
    var f := Find(t, key);
    assert HasKey(t, key);
  }

  /** The value of the last pair in `ps` whose key is `key`. */
  function LastValue<V>(ps: seq<(string, V)>, key: string): Option<V>
  {
    if ps == [] then None
    else if ps[|ps| - 1].0 == key then Some(ps[|ps| - 1].1)
    else LastValue(ps[..|ps| - 1], key)
  }

  /** `for (const [k, v] of ps) obj[k] = v`. */
  function PutAll<V>(t: Table<V>, ps: seq<(string, V)>): Table<V>
  {
    if ps == [] then t else Put(PutAll(t, ps[..|ps| - 1]), ps[|ps| - 1].0, ps[|ps| - 1].1)
  }

  /** Last write wins: after a run of assignments a key holds the value it was last given. */
  lemma {:induction false} GetPutAll<V>(t: Table<V>, ps: seq<(string, V)>, key: string)
    ensures Get(PutAll(t, ps), key) == match LastValue(ps, key)
                                        case Some(v) => Some(v)
                                        case None => Get(t, key)
  {
    if ps != [] {
      GetPutAll(t, ps[..|ps| - 1], key);
    }
  }

  /** Assignments never create two entries for one key. */
  lemma {:induction false} PutAllDistinct<V>(t: Table<V>, ps: seq<(string, V)>)
    requires DistinctKeys(t)
    ensures DistinctKeys(PutAll(t, ps))
  {
    if ps != [] {
      PutAllDistinct(t, ps[..|ps| - 1]);
    }
  }

  /** Assigning one pair first and then the rest is the same run of assignments. */
  lemma {:induction false} PutAllCons<V>(t: Table<V>, p: (string, V), rest: seq<(string, V)>)
    ensures PutAll(Put(t, p.0, p.1), rest) == PutAll(t, [p] + rest)
  {
    if rest == [] {
      assert PutAll(t, [p]) == Put(PutAll(t, []), p.0, p.1);
    } else {
      var init := rest[..|rest| - 1];
      PutAllCons(t, p, init);
      assert ([p] + rest)[..|[p] + rest| - 1] == [p] + init;
    }
  }

  /** In a table without repeated keys, the last value given to a key is the one a lookup finds. */
  lemma {:induction false} LastValueIsGet<V>(t: Table<V>, key: string)
    requires DistinctKeys(t)
    ensures LastValue(t, key) == Get(t, key)
  {
    if t != [] {
      var init := t[..|t| - 1];
      assert forall i :: 0 <= i < |init| ==> init[i] == t[i];
      LastValueIsGet(init, key);
      if t[|t| - 1].0 == key {
        FindAt(t, key, |t| - 1);
      } else if HasKey(init, key) {
        FindAt(t, key, Find(init, key));
      } else {
        assert !HasKey(t, key);
      }
    }
  }

  /** Putting adds the one entry `(key, v)` and keeps or overwrites the others. */
  lemma PutEntries<V>(t: Table<V>, key: string, v: V)
    ensures forall e :: e in Put(t, key, v) ==> e in t || e == (key, v)
  {
    var k := Find(t, key);
    var r := Put(t, key, v);
    if k >= 0 {
      assert r == t[k := (key, v)];
      forall e | e in r ensures e in t || e == (key, v) {
        var i :| 0 <= i < |r| && r[i] == e;
        if i != k {
          assert e == t[i];
        }
      }
    }
  }

  /** Every entry after a run of assignments was in the table before or is one of the assignments. */
  lemma {:induction false} PutAllEntries<V>(t: Table<V>, ps: seq<(string, V)>)
    ensures forall e :: e in PutAll(t, ps) ==> e in t || e in ps
  {
    if ps != [] {
      var init := ps[..|ps| - 1];
      PutAllEntries(t, init);
      PutEntries(PutAll(t, init), ps[|ps| - 1].0, ps[|ps| - 1].1);
      assert forall e :: e in init ==> e in ps;
    }
  }
}
