/**
 * `rowsToMapping`: turns the rows of a mapping spreadsheet into the old-IRI to
 * new-IRI table. The two header columns are found by name, every cell is
 * trimmed, rows without an old IRI are skipped and a later row for the same
 * old IRI overrides an earlier one. The same function appears in both the
 * ontology page and the SPARQL page.
 */
module MappingTable {
  import opened Basics
  import opened JsString
  import opened OrderedMap

  /**
   * A mapping entry is in effect for `k` when `k` maps to a non-empty IRI that
   * differs from `k` (the source's `mapped && mapped !== k`).
   */
  predicate Effective(mapping: map<string, string>, k: string) {
    k in mapping && mapping[k] != "" && mapping[k] != k
  }

  /** No entry of the mapping would change anything. */
  predicate NoEffectiveEntry(mapping: map<string, string>) {
    forall k :: k in mapping ==> mapping[k] == "" || mapping[k] == k
  }

  /** One decoded spreadsheet row: its column headers in order, each with its cell text. */
  type Record = Table<string>

  datatype Meta = Meta(rows: nat, uniqueOld: nat, dupOld: nat)

  datatype MappingError =
    | NoRows                              // the sheet has no rows at all
    | HeadersNotFound(found: seq<string>) // the headers of the first row, none of them usable

  /** `String(s || "").trim().toLowerCase()`. */
  function Norm(s: string): string {
    ToLowerAscii(Trim(s))
  }

  /** The last header that normalises to exactly `target`. */
  function LastExact(keys: seq<string>, target: string): (r: Option<string>)
    ensures r.Some? ==> r.value in keys && Norm(r.value) == target
    ensures r.None? ==> forall k :: k in keys ==> Norm(k) != target
  {
    if keys == [] then None
    else if Norm(keys[|keys| - 1]) == target then Some(keys[|keys| - 1])
    else LastExact(keys[..|keys| - 1], target)
  }

  predicate Fuzzy(k: string, word: string) {
    Includes(Norm(k), word) && Includes(Norm(k), "iri")
  }

  /** The first header whose normal form contains both `word` and `iri`. */
  function FirstFuzzy(keys: seq<string>, word: string): (r: Option<string>)
    ensures r.Some? ==> r.value in keys && Fuzzy(r.value, word)
    ensures r.None? ==> forall k :: k in keys ==> !Fuzzy(k, word)
  {
    if keys == [] then None
    else match FirstFuzzy(keys[..|keys| - 1], word)
      case Some(k) => Some(k)
      case None => if Fuzzy(keys[|keys| - 1], word) then Some(keys[|keys| - 1]) else None
  }

  /** An exact header wins; otherwise the first header that mentions `word` and `iri`. */
  function ResolveColumn(keys: seq<string>, exact: string, word: string): Option<string> {
    match LastExact(keys, exact)
    case Some(k) => Some(k)
    case None => FirstFuzzy(keys, word)
  }

  /** `String(r[key] || "")`: the cell under `key`, or empty when the row has no such column. */
  function Cell(r: Record, key: string): string {
    match Get(r, key)
    case Some(v) => v
    case None => ""
  }

  /** The trimmed (old, new) pair of every row whose trimmed old IRI is not empty, in row order. */
  function Pairs(rows: seq<Record>, oldKey: string, newKey: string): (ps: seq<(string, string)>)
    ensures |ps| <= |rows|
    ensures forall k :: 0 <= k < |ps| ==> ps[k].0 != ""
  {
    if rows == [] then []
    else
      var r := rows[|rows| - 1];
      var o := Trim(Cell(r, oldKey));
      Pairs(rows[..|rows| - 1], oldKey, newKey) + (if o == "" then [] else [(o, Trim(Cell(r, newKey)))])
  }

  /** Setting each pair in turn into a `Map`. */
  function MappingOf(ps: seq<(string, string)>): map<string, string> {
    if ps == [] then map[] else MappingOf(ps[..|ps| - 1])[ps[|ps| - 1].0 := ps[|ps| - 1].1]
  }

  /** The number of pairs whose old IRI was already seen. */
  function DupCount(ps: seq<(string, string)>): nat {
    if ps == [] then 0
    else DupCount(ps[..|ps| - 1]) + (if ps[|ps| - 1].0 in MappingOf(ps[..|ps| - 1]) then 1 else 0)
  }

  /** `rowsToMapping(rows)`: the table and its counters, or the header error it throws. */
  method RowsToMapping(rows: seq<Record>) returns (r: Result<(map<string, string>, Meta), MappingError>)
    ensures |rows| == 0 ==> r == Err(NoRows)
    ensures |rows| > 0 ==>
      var keys := Keys(rows[0]);
      var oldCol := ResolveColumn(keys, "old iri", "old");
      var newCol := ResolveColumn(keys, "new iri", "new");
      if oldCol.None? || newCol.None? then r == Err(HeadersNotFound(keys))
      else
        var ps := Pairs(rows, oldCol.value, newCol.value);
        r == Ok((MappingOf(ps), Meta(|rows|, |MappingOf(ps)|, DupCount(ps))))
  {
    if |rows| == 0 {
      return Err(NoRows);
    }
    var keys := Keys(rows[0]);
    var oldKey, newKey := ResolveHeaders(keys);
    if oldKey.None? || newKey.None? {
      return Err(HeadersNotFound(keys));
    }
    var mapping, dupOld := FillMapping(rows, oldKey.value, newKey.value);
    return Ok((mapping, Meta(|rows|, |mapping|, dupOld)));
  }

  /** The header loops of `rowsToMapping`: exact names first, then the fuzzy fallback. */
  method ResolveHeaders(keys: seq<string>) returns (oldKey: Option<string>, newKey: Option<string>)
    ensures oldKey == ResolveColumn(keys, "old iri", "old")
    ensures newKey == ResolveColumn(keys, "new iri", "new")
  {
    oldKey, newKey := ExactHeaders(keys);
    oldKey, newKey := FuzzyHeaders(keys, oldKey, newKey);
  }

  /** The first header loop: the last header whose normalised name is exactly `old iri` / `new iri`. */
  method ExactHeaders(keys: seq<string>) returns (oldKey: Option<string>, newKey: Option<string>)
    ensures oldKey == LastExact(keys, "old iri")
    ensures newKey == LastExact(keys, "new iri")
  {
    oldKey, newKey := None, None;
    for n := 0 to |keys|
      invariant oldKey == LastExact(keys[..n], "old iri")
      invariant newKey == LastExact(keys[..n], "new iri")
    {
      assert keys[..n + 1][..n] == keys[..n] && keys[..n + 1][n] == keys[n];
      var nk := Norm(keys[n]);
      if nk == "old iri" { oldKey := Some(keys[n]); }
      if nk == "new iri" { newKey := Some(keys[n]); }
    }
    assert keys[..|keys|] == keys;
  }

  /** The second header loop: a column still unresolved takes the first header mentioning its word. */
  method FuzzyHeaders(keys: seq<string>, exactOld: Option<string>, exactNew: Option<string>)
    returns (oldKey: Option<string>, newKey: Option<string>)
    ensures oldKey == if exactOld.Some? then exactOld else FirstFuzzy(keys, "old")
    ensures newKey == if exactNew.Some? then exactNew else FirstFuzzy(keys, "new")
  {
    oldKey, newKey := exactOld, exactNew;
    for n := 0 to |keys|
      invariant oldKey == if exactOld.Some? then exactOld else FirstFuzzy(keys[..n], "old")
      invariant newKey == if exactNew.Some? then exactNew else FirstFuzzy(keys[..n], "new")
    {
      assert keys[..n + 1][..n] == keys[..n] && keys[..n + 1][n] == keys[n];
      if oldKey.None? && Fuzzy(keys[n], "old") { oldKey := Some(keys[n]); }
      if newKey.None? && Fuzzy(keys[n], "new") { newKey := Some(keys[n]); }
    }
    assert keys[..|keys|] == keys;
  }

  /** The row loop of `rowsToMapping`: fills the `Map` and counts repeated old IRIs. */
  method FillMapping(rows: seq<Record>, oldKey: string, newKey: string) returns (mapping: map<string, string>, dupOld: nat)
    ensures mapping == MappingOf(Pairs(rows, oldKey, newKey))
    ensures dupOld == DupCount(Pairs(rows, oldKey, newKey))
  {
    mapping, dupOld := map[], 0;
    var seen: set<string> := {};
    for n := 0 to |rows|
      invariant mapping == MappingOf(Pairs(rows[..n], oldKey, newKey))
      invariant forall x :: x in seen <==> x in mapping
      invariant dupOld == DupCount(Pairs(rows[..n], oldKey, newKey))
    {
      var oldIri := Trim(Cell(rows[n], oldKey));
      var newIri := Trim(Cell(rows[n], newKey));
      PairsNext(rows, n, oldKey, newKey);
      if oldIri != "" {
        if oldIri in seen { dupOld := dupOld + 1; }
        seen := seen + {oldIri};
        mapping := mapping[oldIri := newIri];
      }
    }
    assert rows[..|rows|] == rows;
  }

  /** One more row adds its pair, unless its old IRI is empty. */
  lemma PairsNext(rows: seq<Record>, n: nat, oldKey: string, newKey: string)
    requires n < |rows|
    ensures var ps := Pairs(rows[..n], oldKey, newKey);
            var o := Trim(Cell(rows[n], oldKey));
            var p := (o, Trim(Cell(rows[n], newKey)));
            Pairs(rows[..n + 1], oldKey, newKey) == if o == "" then ps else ps + [p]
    ensures var ps := Pairs(rows[..n], oldKey, newKey);
            var o := Trim(Cell(rows[n], oldKey));
            var p := (o, Trim(Cell(rows[n], newKey)));
            o != "" ==> MappingOf(ps + [p]) == MappingOf(ps)[o := p.1]
                        && DupCount(ps + [p]) == DupCount(ps) + (if o in MappingOf(ps) then 1 else 0)
  {
    assert rows[..n + 1][..n] == rows[..n] && rows[..n + 1][n] == rows[n];
    var ps := Pairs(rows[..n], oldKey, newKey);
    var p := (Trim(Cell(rows[n], oldKey)), Trim(Cell(rows[n], newKey)));
    assert (ps + [p])[..|ps|] == ps;
  }

  /** Last write wins: an old IRI maps to the new IRI of the last pair that names it. */
  lemma {:induction false} MappingLastWins(ps: seq<(string, string)>, k: string)
    ensures k in MappingOf(ps) <==> LastValue(ps, k).Some?
    ensures k in MappingOf(ps) ==> MappingOf(ps)[k] == LastValue(ps, k).value
  {
    if ps != [] {
      MappingLastWins(ps[..|ps| - 1], k);
    }
  }

  /** Rows with an empty old IRI never reach the table, and every other row yields one pair. */
  lemma {:induction false} SkippedRows(rows: seq<Record>, oldKey: string, newKey: string)
    ensures "" !in MappingOf(Pairs(rows, oldKey, newKey))
    ensures |Pairs(rows, oldKey, newKey)| == CountWhere(rows, (r: Record) => Trim(Cell(r, oldKey)) != "")
  {
    var ps := Pairs(rows, oldKey, newKey);
    if "" in MappingOf(ps) {
      MappingLastWins(ps, "");
      LastValueFrom(ps, "");
    }
    if rows != [] {
      SkippedRows(rows[..|rows| - 1], oldKey, newKey);
    }
  }

  /** A key that has a last value occurs as the key of some pair. */
  lemma {:induction false} LastValueFrom(ps: seq<(string, string)>, k: string)
    requires LastValue(ps, k).Some?
    ensures exists n :: 0 <= n < |ps| && ps[n].0 == k
  {
    if ps[|ps| - 1].0 != k {
      LastValueFrom(ps[..|ps| - 1], k);
      var n :| 0 <= n < |ps| - 1 && ps[..|ps| - 1][n].0 == k;
      assert ps[n].0 == k;
    }
  }

  /** `uniqueOld + dupOld` is the number of rows that were not skipped. */
  lemma {:induction false} CountersAddUp(ps: seq<(string, string)>)
    ensures |MappingOf(ps)| + DupCount(ps) == |ps|
  {
    if ps != [] {
      var init := ps[..|ps| - 1];
      var (k, v) := ps[|ps| - 1];
      CountersAddUp(init);
      if k !in MappingOf(init) {
        assert MappingOf(ps).Keys == MappingOf(init).Keys + {k};
      } else {
        assert MappingOf(ps).Keys == MappingOf(init).Keys;
      }
    }
  }
}
