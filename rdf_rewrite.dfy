/**
 * `replaceIfMapped` and `rewriteQuads`: every named node whose IRI the
 * mapping changes is replaced, every output quad is placed in the graph named
 * by the output run, and the changes are counted.
 */
module RdfRewrite {
  import opened Basics
  import opened MappingTable
  import opened RdfTerms

  /** A term the mapping replaces: a named node whose IRI is mapped to a different, non-empty IRI. */
  predicate Replaced(t: Term, mapping: map<string, string>) {
    t.NamedNode? && Effective(mapping, t.value)
  }

  /**
   * `replaceIfMapped(term, mapping)`: a named node with a mapping in effect
   * becomes the named node of the mapped IRI; every other term is returned as
   * it is.
   */
  function ReplaceIfMapped(t: Term, mapping: map<string, string>): (r: Term)
    ensures Replaced(t, mapping) ==> r == NamedNode(mapping[t.value])
    ensures !Replaced(t, mapping) ==> r == t
    ensures r != t <==> Replaced(t, mapping)
    ensures r.NamedNode? <==> t.NamedNode?
  {
    if !t.NamedNode? then t
    else if t.value in mapping && mapping[t.value] != "" && mapping[t.value] != t.value then NamedNode(mapping[t.value])
    else t
  }

  datatype ChangeStats = ChangeStats(totalQuads: nat, quadsTouched: nat, termReplacements: nat)

  /** The output quad: the three terms replaced where mapped, in the graph `outGraph`. */
  function RewriteQuad(q: Quad, mapping: map<string, string>, outGraph: string): Quad {
    Quad(ReplaceIfMapped(q.subject, mapping), ReplaceIfMapped(q.pred, mapping),
         ReplaceIfMapped(q.obj, mapping), NamedNode(outGraph))
  }

  /** How many of a quad's subject, predicate and object the mapping replaces. */
  function ChangedTerms(q: Quad, mapping: map<string, string>): (n: nat)
    ensures n <= 3
  {
    (if Replaced(q.subject, mapping) then 1 else 0)
    + (if Replaced(q.pred, mapping) then 1 else 0)
    + (if Replaced(q.obj, mapping) then 1 else 0)
  }

  function Rewritten(quads: seq<Quad>, mapping: map<string, string>, outGraph: string): (r: seq<Quad>)
    ensures |r| == |quads|
    ensures forall k :: 0 <= k < |quads| ==> r[k] == RewriteQuad(quads[k], mapping, outGraph)
  {
    if quads == [] then []
    else
      var init := Rewritten(quads[..|quads| - 1], mapping, outGraph);
      var r := init + [RewriteQuad(quads[|quads| - 1], mapping, outGraph)];
      assert forall k :: 0 <= k < |init| ==> r[k] == init[k];
      r
  }

  /** The number of terms replaced across `quads`. */
  function Replacements(quads: seq<Quad>, mapping: map<string, string>): nat {
    if quads == [] then 0
    else Replacements(quads[..|quads| - 1], mapping) + ChangedTerms(quads[|quads| - 1], mapping)
  }

  /** The statistics `rewriteQuads` reports for `quads`. */
  function StatsOf(quads: seq<Quad>, mapping: map<string, string>): ChangeStats {
    ChangeStats(|quads|, CountWhere(quads, (q: Quad) => ChangedTerms(q, mapping) > 0), Replacements(quads, mapping))
  }

  /** `rewriteQuads(inputQuads, mapping, outputRunId)`. */
  method RewriteQuads(inputQuads: seq<Quad>, mapping: map<string, string>, outputRunId: string)
    returns (outputQuads: seq<Quad>, changeStats: ChangeStats)
    ensures outputQuads == Rewritten(inputQuads, mapping, outputRunId)
    ensures changeStats == StatsOf(inputQuads, mapping)
  {
    var totalQuads, quadsTouched, termReplacements := 0, 0, 0;
    outputQuads := [];
    for n := 0 to |inputQuads|
      invariant outputQuads == Rewritten(inputQuads[..n], mapping, outputRunId)
      invariant totalQuads == n
      invariant quadsTouched == CountWhere(inputQuads[..n], (q: Quad) => ChangedTerms(q, mapping) > 0)
      invariant termReplacements == Replacements(inputQuads[..n], mapping)
    {
      var q := inputQuads[n];
      totalQuads := totalQuads + 1;
      var out, touched, replaced := RewriteOne(q, mapping, outputRunId);
      if touched {
        quadsTouched := quadsTouched + 1;
        termReplacements := termReplacements + replaced;
      }
      RewrittenSnoc(inputQuads, n, mapping, outputRunId);
      outputQuads := outputQuads + [out];
    }
    assert inputQuads[..|inputQuads|] == inputQuads;
    changeStats := ChangeStats(totalQuads, quadsTouched, termReplacements);
  }

  /** The body of the loop of `rewriteQuads` for one quad: its rewrite, whether it was touched, and how many terms changed. */
  method RewriteOne(q: Quad, mapping: map<string, string>, outputRunId: string)
    returns (out: Quad, touched: bool, replaced: nat)
    ensures out == RewriteQuad(q, mapping, outputRunId)
    ensures touched <==> ChangedTerms(q, mapping) > 0
    ensures replaced == ChangedTerms(q, mapping)
  {
    touched := false;
    var s := ReplaceIfMapped(q.subject, mapping);
    if s != q.subject { touched := true; }
    var p := ReplaceIfMapped(q.pred, mapping);
    if p != q.pred { touched := true; }
    var o := ReplaceIfMapped(q.obj, mapping);
    if o != q.obj { touched := true; }
    replaced := 0;
    if s != q.subject { replaced := replaced + 1; }
    if p != q.pred { replaced := replaced + 1; }
    if o != q.obj { replaced := replaced + 1; }
    out := Quad(s, p, o, NamedNode(outputRunId));
  }

  /** One more quad extends the rewritten prefix, the touched count and the replacement count by that quad's share. */
  lemma RewrittenSnoc(quads: seq<Quad>, n: nat, mapping: map<string, string>, outGraph: string)
    requires n < |quads|
    ensures Rewritten(quads[..n + 1], mapping, outGraph) == Rewritten(quads[..n], mapping, outGraph) + [RewriteQuad(quads[n], mapping, outGraph)]
    ensures Replacements(quads[..n + 1], mapping) == Replacements(quads[..n], mapping) + ChangedTerms(quads[n], mapping)
    ensures CountWhere(quads[..n + 1], (q: Quad) => ChangedTerms(q, mapping) > 0)
            == CountWhere(quads[..n], (q: Quad) => ChangedTerms(q, mapping) > 0) + (if ChangedTerms(quads[n], mapping) > 0 then 1 else 0)
  {
    assert quads[..n + 1] == quads[..n] + [quads[n]];
    assert quads[..n + 1][..n] == quads[..n];
    CountWhereSnoc(quads[..n], quads[n], (q: Quad) => ChangedTerms(q, mapping) > 0);
  }

  /**
   * Every touched quad has between one and three replaced terms, so the
   * number of replacements lies between the number of touched quads and three
   * times that number; neither exceeds what the input allows.
   */
  lemma {:induction false} StatsBounds(quads: seq<Quad>, mapping: map<string, string>)
    ensures var st := StatsOf(quads, mapping);
      st.quadsTouched <= st.termReplacements <= 3 * st.quadsTouched
      && st.quadsTouched <= st.totalQuads && st.termReplacements <= 3 * st.totalQuads
  {
    if quads != [] {
      StatsBounds(quads[..|quads| - 1], mapping);
    }
  }

  /** A quad is touched exactly when it differs from its rewrite in subject, predicate or object. */
  lemma TouchedMeansChanged(q: Quad, mapping: map<string, string>, outGraph: string)
    ensures var r := RewriteQuad(q, mapping, outGraph);
      ChangedTerms(q, mapping) > 0 <==> (r.subject, r.pred, r.obj) != (q.subject, q.pred, q.obj)
  {}

  /**
   * With no mapping entry in effect, every quad keeps its subject, predicate
   * and object, only moves into the output graph, and nothing is counted as
   * changed.
   */
  lemma {:induction false} RewriteNoOp(quads: seq<Quad>, mapping: map<string, string>, outGraph: string)
    requires NoEffectiveEntry(mapping)
    ensures forall k :: 0 <= k < |quads| ==>
              Rewritten(quads, mapping, outGraph)[k] == quads[k].(graph := NamedNode(outGraph))
    ensures StatsOf(quads, mapping) == ChangeStats(|quads|, 0, 0)
  {
    if quads != [] {
      RewriteNoOp(quads[..|quads| - 1], mapping, outGraph);
    }
  }
}
