/**
 * `buildRowsFromQuads` and `computeStatsFromQuads`: the distinct IRIs of the
 * named nodes in subject, predicate or object position, the label chosen for
 * each, and the preview rows against a mapping. Both functions share the same
 * collection loop; `computeStatsFromQuads` also counts the quads.
 */
module RdfPreview {
  import opened Basics
  import opened OrderedMap
  import opened Sorting
  import opened MappingTable
  import opened RdfTerms

  /** The IRIs of the named nodes among a quad's subject, predicate and object, in that order. */
  function NamedIris(q: Quad): (r: seq<string>)
    ensures forall x :: x in r <==>
      (q.subject.NamedNode? && x == q.subject.value) || (q.pred.NamedNode? && x == q.pred.value)
      || (q.obj.NamedNode? && x == q.obj.value)
  {
    (if q.subject.NamedNode? then [q.subject.value] else [])
    + (if q.pred.NamedNode? then [q.pred.value] else [])
    + (if q.obj.NamedNode? then [q.obj.value] else [])
  }

  /** The `iris` set after the loop: every such IRI, once, in order of first appearance. */
  function Iris(quads: seq<Quad>): seq<string> {
    if quads == [] then [] else AddAll(Iris(quads[..|quads| - 1]), NamedIris(quads[|quads| - 1]))
  }

  /** An IRI occurs as a named node in subject, predicate or object position of some quad. */
  predicate Occurs(quads: seq<Quad>, x: string) {
    exists k :: 0 <= k < |quads| && x in NamedIris(quads[k])
  }

  /** The collected IRIs are exactly those that occur, each once; graph names are ignored. */
  lemma {:induction false} IrisExactly(quads: seq<Quad>)
    ensures NoDuplicates(Iris(quads))
    ensures forall x :: x in Iris(quads) <==> Occurs(quads, x)
  {
    if quads != [] {
      var init := quads[..|quads| - 1];
      var q := quads[|quads| - 1];
      IrisExactly(init);
      AddAllContents(Iris(init), NamedIris(q));
      OccursSnoc(quads);
    }
  }

  /** An IRI occurs in the quads when it occurs before the last one or in the last one. */
  lemma OccursSnoc(quads: seq<Quad>)
    requires quads != []
    ensures forall x :: Occurs(quads, x) <==> Occurs(quads[..|quads| - 1], x) || x in NamedIris(quads[|quads| - 1])
  {
    var init := quads[..|quads| - 1];
    forall x ensures Occurs(quads, x) <==> Occurs(init, x) || x in NamedIris(quads[|quads| - 1]) {
      if Occurs(quads, x) {
        var k :| 0 <= k < |quads| && x in NamedIris(quads[k]);
        if k < |init| { assert quads[k] == init[k]; }
      }
      if Occurs(init, x) {
        var k :| 0 <= k < |init| && x in NamedIris(init[k]);
        assert quads[k] == init[k];
      }
    }
  }

  // --------------------------------------------------------------------- labels

  datatype Label = Label(value: string, lang: string)

  /** The quad states an `rdfs:label` literal of a named-node subject. */
  predicate LabelQuad(q: Quad) {
    q.pred == NamedNode(RdfsLabel) && q.subject.NamedNode? && q.obj.Literal?
  }

  /** One turn of the label bookkeeping: keep the first label, upgrade to the first English one. */
  function LabelStep(labels: Table<Label>, q: Quad): Table<Label> {
    if !LabelQuad(q) then labels
    else
      var lang := q.obj.language;
      match Get(labels, q.subject.value)
      case None => Put(labels, q.subject.value, Label(q.obj.value, lang))
      case Some(cur) =>
        if cur.lang != "en" && lang == "en" then Put(labels, q.subject.value, Label(q.obj.value, "en"))
        else labels
  }

  /** The `labelMap` after the loop. */
  function Labels(quads: seq<Quad>): Table<Label> {
    if quads == [] then [] else LabelStep(Labels(quads[..|quads| - 1]), quads[|quads| - 1])
  }

  /** The labels stated for `iri`, in quad order. */
  function LabelsFor(quads: seq<Quad>, iri: string): seq<Label> {
    if quads == [] then []
    else
      var q := quads[|quads| - 1];
      LabelsFor(quads[..|quads| - 1], iri)
        + (if LabelQuad(q) && q.subject.value == iri then [Label(q.obj.value, q.obj.language)] else [])
  }

  /** The first English label, if any. */
  function FirstEnglish(ls: seq<Label>): (r: Option<Label>)
    ensures r.Some? ==> r.value in ls && r.value.lang == "en"
    ensures r.None? ==> forall l :: l in ls ==> l.lang != "en"
  {
    if ls == [] then None
    else if ls[0].lang == "en" then Some(ls[0])
    else FirstEnglish(ls[1..])
  }

  /** The label an IRI ends up with: its first English label, or else its first label. */
  function PreferredLabel(ls: seq<Label>): Option<Label> {
    if ls == [] then None
    else match FirstEnglish(ls)
      case Some(l) => Some(l)
      case None => Some(ls[0])
  }

  lemma {:induction false} FirstEnglishSnoc(ls: seq<Label>, l: Label)
    ensures FirstEnglish(ls + [l]) == match FirstEnglish(ls)
                                       case Some(e) => Some(e)
                                       case None => if l.lang == "en" then Some(l) else None
  {
    if ls != [] {
      assert (ls + [l])[1..] == ls[1..] + [l];
      FirstEnglishSnoc(ls[1..], l);
    } else {
      assert ls + [l] == [l];
    }
  }

  /** What one turn does to the label of `iri`. */
  lemma LabelStepAt(labels: Table<Label>, q: Quad, iri: string)
    ensures Get(LabelStep(labels, q), iri) ==
      if LabelQuad(q) && q.subject.value == iri then
        var l := Label(q.obj.value, q.obj.language);
        match Get(labels, iri)
        case None => Some(l)
        case Some(cur) => if cur.lang != "en" && l.lang == "en" then Some(l) else Some(cur)
      else Get(labels, iri)
  {}

  /**
   * Label preference: an IRI keeps the first label stated for it, unless an
   * English-tagged label is stated, in which case it has the first English
   * one; an IRI without any label has none.
   */
  lemma {:induction false} LabelChoice(quads: seq<Quad>, iri: string)
    ensures Get(Labels(quads), iri) == PreferredLabel(LabelsFor(quads, iri))
  {
    if quads != [] {
      var init := quads[..|quads| - 1];
      var q := quads[|quads| - 1];
      LabelChoice(init, iri);
      LabelStepAt(Labels(init), q, iri);
      var ls := LabelsFor(init, iri);
      if LabelQuad(q) && q.subject.value == iri {
        var l := Label(q.obj.value, q.obj.language);
        FirstEnglishSnoc(ls, l);
        assert LabelsFor(quads, iri) == ls + [l];
        if ls != [] {
          assert (ls + [l])[0] == ls[0];
        } else {
          assert ls + [l] == [l];
        }
      } else {
        assert LabelsFor(quads, iri) == ls;
      }
    }
  }

  // -------------------------------------------------------------- preview rows

  datatype Status = NoChange | Change

  /** A preview row; `label` is a reserved word in Dafny, hence `labelText`. */
  datatype IriRow = IriRow(iri: string, labelText: string, newIri: string, status: Status)

  datatype RowsResult = RowsResult(rows: seq<IriRow>, proposedChanges: nat, uniqueIris: nat)

  /** `mapping?.has(iri) ? (mapping.get(iri) || "") : ""`: the mapping may be missing altogether. */
  function MappedOf(mapping: Option<map<string, string>>, iri: string): string {
    if mapping.Some? && iri in mapping.value then mapping.value[iri] else ""
  }

  function LabelText(labels: Table<Label>, iri: string): string {
    match Get(labels, iri)
    case Some(l) => l.value
    case None => ""
  }

  function RowOf(iri: string, labels: Table<Label>, mapping: Option<map<string, string>>): (r: IriRow)
    ensures r.iri == iri && r.labelText == LabelText(labels, iri)
    ensures r.status == Change <==> r.newIri != ""
    ensures r.status == Change <==> mapping.Some? && Effective(mapping.value, iri)
    ensures r.status == Change ==> r.newIri == mapping.value[iri]
  {
    var mapped := MappedOf(mapping, iri);
    var isChange := mapped != "" && mapped != iri;
    IriRow(iri, LabelText(labels, iri), if isChange then mapped else "", if isChange then Change else NoChange)
  }

  function RowsOf(iris: seq<string>, labels: Table<Label>, mapping: Option<map<string, string>>): (r: seq<IriRow>)
    ensures |r| == |iris|
    ensures forall k :: 0 <= k < |r| ==> r[k] == RowOf(iris[k], labels, mapping)
  {
    if iris == [] then []
    else
      var init := RowsOf(iris[..|iris| - 1], labels, mapping);
      var r := init + [RowOf(iris[|iris| - 1], labels, mapping)];
      assert forall k :: 0 <= k < |init| ==> r[k] == init[k];
      r
  }

  predicate IsChange(r: IriRow) { r.status == Change }

  function Identity(s: string): string { s }

  /** What `buildRowsFromQuads` returns. */
  function RowsFromQuads(quads: seq<Quad>, mapping: Option<map<string, string>>): RowsResult {
    var iris := Iris(quads);
    var rows := RowsOf(SortBy(iris, Identity), Labels(quads), mapping);
    RowsResult(rows, CountWhere(rows, IsChange), |iris|)
  }

  /** The collection loop shared by both functions: the distinct IRIs and the chosen labels. */
  method CollectIrisAndLabels(quads: seq<Quad>) returns (iris: seq<string>, labelMap: Table<Label>, total: nat)
    ensures iris == Iris(quads) && labelMap == Labels(quads) && total == |quads|
  {
    iris, labelMap, total := [], [], 0;
    for n := 0 to |quads|
      invariant iris == Iris(quads[..n]) && labelMap == Labels(quads[..n]) && total == n
    {
      total := total + 1;
      var q := quads[n];
      assert quads[..n + 1][..n] == quads[..n] && quads[..n + 1][n] == q;
      ghost var before := iris;
      if q.subject.NamedNode? { iris := AddToSet(iris, q.subject.value); }
      if q.pred.NamedNode? { iris := AddToSet(iris, q.pred.value); }
      if q.obj.NamedNode? { iris := AddToSet(iris, q.obj.value); }
      IrisTurn(before, q);
      if q.pred.NamedNode? && q.pred.value == RdfsLabel {
        if q.subject.NamedNode? && q.obj.Literal? {
          var cur := Get(labelMap, q.subject.value);
          var lang := q.obj.language;
          if cur.None? {
            labelMap := Put(labelMap, q.subject.value, Label(q.obj.value, lang));
          } else if cur.value.lang != "en" && lang == "en" {
            labelMap := Put(labelMap, q.subject.value, Label(q.obj.value, "en"));
          }
        }
      }
    }
    assert quads[..|quads|] == quads;
  }

  /** Adding a quad's named-node IRIs one position at a time is adding `NamedIris`. */
  lemma IrisTurn(before: seq<string>, q: Quad)
    ensures AddAll(before, NamedIris(q)) ==
      var a := if q.subject.NamedNode? then AddToSet(before, q.subject.value) else before;
      var b := if q.pred.NamedNode? then AddToSet(a, q.pred.value) else a;
      if q.obj.NamedNode? then AddToSet(b, q.obj.value) else b
  {
    var s := if q.subject.NamedNode? then [q.subject.value] else [];
    var p := if q.pred.NamedNode? then [q.pred.value] else [];
    var o := if q.obj.NamedNode? then [q.obj.value] else [];
    AddAllAppend(before, s, p);
    AddAllAppend(before, s + p, o);
    assert AddAll(before, []) == before;
  }

  /** `buildRowsFromQuads(quads, mapping)`. */
  method BuildRowsFromQuads(quads: seq<Quad>, mapping: Option<map<string, string>>) returns (result: RowsResult)
    ensures result == RowsFromQuads(quads, mapping)
  {
    var iris, labelMap, _ := CollectIrisAndLabels(quads);
    var sorted := SortBy(iris, Identity);
    var rows, proposedChanges := IriRows(sorted, labelMap, mapping);
    result := RowsResult(rows, proposedChanges, |iris|);
  }

  /** The row loop of `buildRowsFromQuads`. */
  method IriRows(sorted: seq<string>, labelMap: Table<Label>, mapping: Option<map<string, string>>)
    returns (rows: seq<IriRow>, proposedChanges: nat)
    ensures rows == RowsOf(sorted, labelMap, mapping)
    ensures proposedChanges == CountWhere(rows, IsChange)
  {
    proposedChanges := 0;
    rows := [];
    for n := 0 to |sorted|
      invariant rows == RowsOf(sorted[..n], labelMap, mapping)
      invariant proposedChanges == CountWhere(rows, IsChange)
    {
      var row, isChange := MakeRow(sorted[n], labelMap, mapping);
      if isChange { proposedChanges := proposedChanges + 1; }
      RowsOfSnoc(sorted, n, labelMap, mapping);
      CountWhereSnoc(rows, row, IsChange);
      rows := rows + [row];
    }
    assert sorted[..|sorted|] == sorted;
  }

  lemma RowsOfSnoc(iris: seq<string>, n: nat, labels: Table<Label>, mapping: Option<map<string, string>>)
    requires n < |iris|
    ensures RowsOf(iris[..n + 1], labels, mapping) == RowsOf(iris[..n], labels, mapping) + [RowOf(iris[n], labels, mapping)]
  {
    assert iris[..n + 1][..n] == iris[..n];
  }

  /** One pass of the row loop: the label, the mapped IRI and the change flag of `iri`. */
  method MakeRow(iri: string, labelMap: Table<Label>, mapping: Option<map<string, string>>)
    returns (row: IriRow, isChange: bool)
    ensures row == RowOf(iri, labelMap, mapping)
    ensures isChange == (row.status == Change)
  {
    var lbl := match Get(labelMap, iri) case Some(l) => l.value case None => "";
    var mapped := if mapping.Some? && iri in mapping.value then mapping.value[iri] else "";
    isChange := mapped != "" && mapped != iri;
    row := IriRow(iri, lbl, if isChange then mapped else "", if isChange then Change else NoChange);
  }

  /** Sorting keeps exactly the IRIs that occur, each once. */
  lemma SortedIris(quads: seq<Quad>)
    ensures NoDuplicates(Iris(quads))
    ensures |SortBy(Iris(quads), Identity)| == |Iris(quads)|
    ensures forall x :: x in SortBy(Iris(quads), Identity) <==> Occurs(quads, x)
  {
    var iris := Iris(quads);
    var sorted := SortBy(iris, Identity);
    IrisExactly(quads);
    forall x ensures x in sorted <==> x in iris {
      assert x in sorted <==> x in multiset(sorted);
      assert x in iris <==> x in multiset(iris);
    }
  }

  /**
   * One row per distinct IRI that occurs in the quads, so `uniqueIris` is the
   * row count.
   */
  lemma RowsCoverIris(quads: seq<Quad>, mapping: Option<map<string, string>>)
    ensures var res := RowsFromQuads(quads, mapping);
      && |res.rows| == res.uniqueIris
      && NoDuplicates(Iris(quads))
      && (forall k :: 0 <= k < |res.rows| ==> Occurs(quads, res.rows[k].iri))
      && (forall x :: Occurs(quads, x) ==> exists k :: 0 <= k < |res.rows| && res.rows[k].iri == x)
  {
    var sorted := SortBy(Iris(quads), Identity);
    var rows := RowsOf(sorted, Labels(quads), mapping);
    SortedIris(quads);
    RowIris(sorted, Labels(quads), mapping);
    forall x | Occurs(quads, x) ensures exists k :: 0 <= k < |rows| && rows[k].iri == x {
      var k :| 0 <= k < |sorted| && sorted[k] == x;
      assert rows[k].iri == x;
    }
  }

  /** The rows carry the IRIs they were built from, in order. */
  lemma RowIris(iris: seq<string>, labels: Table<Label>, mapping: Option<map<string, string>>)
    ensures forall k :: 0 <= k < |iris| ==> RowsOf(iris, labels, mapping)[k].iri == iris[k]
  {
  }

  /**
   * Rows come in sorted IRI order; a row is a change exactly when the mapping
   * (if any) maps its IRI to a different, non-empty IRI, which is then its new
   * IRI, and otherwise its new IRI is empty; `proposedChanges` counts the
   * changes.
   */
  lemma RowsOrderAndStatus(quads: seq<Quad>, mapping: Option<map<string, string>>)
    ensures var res := RowsFromQuads(quads, mapping);
      && (forall k, m :: 0 <= k < m < |res.rows| ==> StrLe(res.rows[k].iri, res.rows[m].iri))
      && (forall k :: 0 <= k < |res.rows| ==>
            (res.rows[k].status == Change <==> mapping.Some? && Effective(mapping.value, res.rows[k].iri))
            && (res.rows[k].status == Change ==> res.rows[k].newIri == mapping.value[res.rows[k].iri])
            && (res.rows[k].status == NoChange ==> res.rows[k].newIri == ""))
      && res.proposedChanges == CountWhere(res.rows, IsChange)
  {
    var sorted := SortBy(Iris(quads), Identity);
    var rows := RowsFromQuads(quads, mapping).rows;
    forall k, m | 0 <= k < m < |rows| ensures StrLe(rows[k].iri, rows[m].iri) {
      assert Identity(sorted[k]) == rows[k].iri && Identity(sorted[m]) == rows[m].iri;
    }
  }

  // -------------------------------------------------------------------- stats

  datatype QuadStats = QuadStats(totalQuads: nat, uniqueIris: nat, labelCount: nat)

  /** `computeStatsFromQuads(quads)`. */
  method ComputeStatsFromQuads(quads: seq<Quad>) returns (stats: QuadStats)
    ensures stats == QuadStats(|quads|, |Iris(quads)|, |Labels(quads)|)
  {
    var iris, labelMap, total := CollectIrisAndLabels(quads);
    stats := QuadStats(total, |iris|, |labelMap|);
  }

  /** `labelCount` is the number of named-node subjects that have at least one `rdfs:label` literal. */
  lemma {:induction false} LabelCount(quads: seq<Quad>)
    ensures DistinctKeys(Labels(quads))
    ensures forall iri :: HasKey(Labels(quads), iri) <==> LabelsFor(quads, iri) != []
  {
    forall iri ensures HasKey(Labels(quads), iri) <==> LabelsFor(quads, iri) != [] {
      LabelChoice(quads, iri);
    }
    LabelsDistinct(quads);
  }

  lemma {:induction false} LabelsDistinct(quads: seq<Quad>)
    ensures DistinctKeys(Labels(quads))
  {
    if quads != [] {
      LabelsDistinct(quads[..|quads| - 1]);
    }
  }
}
