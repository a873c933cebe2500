/**
 * The staged tokens of a SPARQL run (`extractTokens`) and the preview table
 * built from them against a mapping (`buildPreviewRows`).
 *
 * `extractTokens` keys its staging `Map` by kind, token and expansion joined
 * with `|`. For every token it can stage that string determines the triple
 * (a prefix label and a prefixed name hold no `|`, and an IRI reference key
 * holds its IRI twice), so the staging is modelled as a set of the token
 * records themselves, in first-insertion order.
 */
module SparqlPreview {
  import opened Basics
  import opened JsString
  import opened OrderedMap
  import opened MappingTable
  import opened Sorting
  import opened SparqlScanner
  import opened SparqlDecls
  import opened SparqlRewrite

  datatype TokenKind = PrefixDeclToken | BaseDeclToken | IriRefToken | PrefixedNameToken

  /** One staged token: its text, its kind and the IRI it stands for. */
  datatype Token = Token(token: string, kind: TokenKind, expanded: string)

  function DeclToken(entry: (string, string)): Token {
    Token("PREFIX " + entry.0 + ":", PrefixDeclToken, entry.1)
  }

  function IriToken(iri: string): Token {
    Token("<" + iri + ">", IriRefToken, iri)
  }

  /** One token per declared prefix, in declaration order. */
  function DeclTokens(prefixes: Table<string>): (r: seq<Token>)
    ensures |r| == |prefixes|
    ensures forall k :: 0 <= k < |r| ==> r[k] == DeclToken(prefixes[k])
  {
    if prefixes == [] then [] else DeclTokens(prefixes[..|prefixes| - 1]) + [DeclToken(prefixes[|prefixes| - 1])]
  }

  function BaseTokens(baseIri: string): seq<Token> {
    if baseIri != "" then [Token("BASE", BaseDeclToken, baseIri)] else []
  }

  function IriTokens(iris: seq<string>): (r: seq<Token>)
    ensures |r| == |iris|
    ensures forall k :: 0 <= k < |r| ==> r[k] == IriToken(iris[k])
  {
    if iris == [] then [] else IriTokens(iris[..|iris| - 1]) + [IriToken(iris[|iris| - 1])]
  }

  /** The names that expand under `prefixes`, each with its expansion; the others are dropped. */
  function NameTokens(names: seq<string>, prefixes: Table<string>): seq<Token> {
    if names == [] then []
    else
      var x := names[|names| - 1];
      var e := ExpandPrefixedName(x, prefixes);
      NameTokens(names[..|names| - 1], prefixes) + (if e != "" then [Token(x, PrefixedNameToken, e)] else [])
  }

  /** The name tokens are the collected names that expand, each paired with its expansion. */
  lemma {:induction false} NameTokensMembers(names: seq<string>, prefixes: Table<string>)
    ensures forall t :: t in NameTokens(names, prefixes) ==>
              t.kind == PrefixedNameToken && t.token in names
              && t.expanded == ExpandPrefixedName(t.token, prefixes) && t.expanded != ""
    ensures forall x :: x in names && ExpandPrefixedName(x, prefixes) != "" ==>
              Token(x, PrefixedNameToken, ExpandPrefixedName(x, prefixes)) in NameTokens(names, prefixes)
  {
    if names != [] {
      NameTokensMembers(names[..|names| - 1], prefixes);
      assert names == names[..|names| - 1] + [names[|names| - 1]];
    }
  }

  /** Everything `extractTokens` stages, in staging order (with repeats). */
  function Candidates(queryText: string, prefixes: Table<string>): seq<Token> {
    var scan := Scan(queryText);
    DeclTokens(prefixes) + BaseTokens(BaseOf(queryText)) + IriTokens(scan.iriRefs)
      + NameTokens(scan.prefixedNames, prefixes)
  }

  function ByExpanded(t: Token): string { t.expanded }

  /** The staged tokens, each once, sorted by expansion (ties keep staging order). */
  function Tokens(queryText: string, prefixes: Table<string>): seq<Token> {
    SortBy(AddAll([], Candidates(queryText, prefixes)), ByExpanded)
  }

  /** `extractTokens(queryText, prefixes)`. */
  method ExtractTokens(queryText: string, prefixes: Table<string>) returns (tokens: seq<Token>)
    ensures tokens == Tokens(queryText, prefixes)
  {
    var staged := StagePrefixDecls([], prefixes);
    var _, baseIri := ParsePrefixesAndBase(queryText);
    if baseIri != "" {
      staged := AddToSet(staged, Token("BASE", BaseDeclToken, baseIri));
    }
    var iriRefs, prefixedNames := ScanSparql(queryText);
    staged := StageIriRefs(staged, iriRefs);
    staged := StagePrefixedNames(staged, prefixedNames, prefixes);
    tokens := SortBy(staged, ByExpanded);
    ghost var d, b, i, n := DeclTokens(prefixes), BaseTokens(baseIri), IriTokens(iriRefs),
                            NameTokens(prefixedNames, prefixes);
    assert b == [] || b == [Token("BASE", BaseDeclToken, baseIri)];
    AddAllAppend([], d, b);
    AddAllAppend([], d + b, i);
    AddAllAppend([], d + b + i, n);
  }

  /** The first loop of `extractTokens`: one token per prefix declaration. */
  method StagePrefixDecls(staged0: seq<Token>, prefixes: Table<string>) returns (staged: seq<Token>)
    ensures staged == AddAll(staged0, DeclTokens(prefixes))
  {
    staged := staged0;
    for n := 0 to |prefixes|
      invariant staged == AddAll(staged0, DeclTokens(prefixes[..n]))
    {
      assert prefixes[..n + 1][..n] == prefixes[..n];
      AddAllSnoc(staged0, DeclTokens(prefixes[..n]), DeclToken(prefixes[n]));
      staged := AddToSet(staged, Token("PREFIX " + prefixes[n].0 + ":", PrefixDeclToken, prefixes[n].1));
    }
    assert prefixes[..|prefixes|] == prefixes;
  }

  /** The loop of `extractTokens` over the collected IRI references. */
  method StageIriRefs(staged0: seq<Token>, iriRefs: seq<string>) returns (staged: seq<Token>)
    ensures staged == AddAll(staged0, IriTokens(iriRefs))
  {
    staged := staged0;
    for n := 0 to |iriRefs|
      invariant staged == AddAll(staged0, IriTokens(iriRefs[..n]))
    {
      assert iriRefs[..n + 1][..n] == iriRefs[..n];
      AddAllSnoc(staged0, IriTokens(iriRefs[..n]), IriToken(iriRefs[n]));
      staged := AddToSet(staged, Token("<" + iriRefs[n] + ">", IriRefToken, iriRefs[n]));
    }
    assert iriRefs[..|iriRefs|] == iriRefs;
  }

  /** The loop of `extractTokens` over the collected prefixed names, skipping those that do not expand. */
  method StagePrefixedNames(staged0: seq<Token>, names: seq<string>, prefixes: Table<string>)
    returns (staged: seq<Token>)
    ensures staged == AddAll(staged0, NameTokens(names, prefixes))
  {
    staged := staged0;
    for n := 0 to |names|
      invariant staged == AddAll(staged0, NameTokens(names[..n], prefixes))
    {
      assert names[..n + 1][..n] == names[..n];
      var pn := names[n];
      var expanded := ExpandPrefixedName(pn, prefixes);
      if expanded != "" {
        var t := Token(pn, PrefixedNameToken, expanded);
        assert NameTokens(names[..n + 1], prefixes) == NameTokens(names[..n], prefixes) + [t];
        AddAllSnoc(staged0, NameTokens(names[..n], prefixes), t);
        staged := AddToSet(staged, t);
      } else {
        assert NameTokens(names[..n + 1], prefixes) == NameTokens(names[..n], prefixes);
      }
    }
    assert names[..|names|] == names;
  }

  /** Where a staged token comes from, by kind. */
  ghost predicate Staged(queryText: string, prefixes: Table<string>, t: Token) {
    match t.kind
    case PrefixDeclToken => exists k :: 0 <= k < |prefixes| && t == DeclToken(prefixes[k])
    case BaseDeclToken => t.token == "BASE" && t.expanded == BaseOf(queryText) && t.expanded != ""
    case IriRefToken => t.token == "<" + t.expanded + ">" && IriRefTaken(queryText, t.expanded)
    case PrefixedNameToken =>
      t.expanded == ExpandPrefixedName(t.token, prefixes) && t.expanded != ""
      && PrefixedNameTaken(queryText, t.token)
  }

  /** The result holds each staged token once, sorted by expansion, and every one has a known origin. */
  lemma TokensSound(queryText: string, prefixes: Table<string>)
    ensures var r := Tokens(queryText, prefixes);
      && SortedBy(r, ByExpanded) && NoDuplicates(r)
      && (forall t :: t in r ==> Staged(queryText, prefixes, t))
  {
    var cands := Candidates(queryText, prefixes);
    var r := Tokens(queryText, prefixes);
    TokensAreCandidates(queryText, prefixes);
    ScanOrigins(queryText);
    var scan := Scan(queryText);
    NameTokensMembers(scan.prefixedNames, prefixes);
    forall t | t in r ensures Staged(queryText, prefixes, t) {
      assert t in cands;
      if t in DeclTokens(prefixes) {
        var k :| 0 <= k < |DeclTokens(prefixes)| && DeclTokens(prefixes)[k] == t;
        assert t == DeclToken(prefixes[k]);
      } else if t in IriTokens(scan.iriRefs) {
        var k :| 0 <= k < |scan.iriRefs| && IriTokens(scan.iriRefs)[k] == t;
        assert t == IriToken(scan.iriRefs[k]);
      }
    }
  }

  /** The result holds exactly the candidates, each once. */
  lemma TokensAreCandidates(queryText: string, prefixes: Table<string>)
    ensures var r := Tokens(queryText, prefixes);
      NoDuplicates(r) && forall t :: t in r <==> t in Candidates(queryText, prefixes)
  {
    var cands := Candidates(queryText, prefixes);
    var staged := AddAll([], cands);
    AddAllContents([], cands);
    SameElements(staged, Tokens(queryText, prefixes));
    NoDuplicatesPermutation(staged, Tokens(queryText, prefixes));
  }

  /**
   * Nothing is lost: every declared prefix, the BASE IRI when there is one,
   * every collected IRI reference, and every collected prefixed name whose
   * expansion is not empty is in the result.
   */
  lemma TokensComplete(queryText: string, prefixes: Table<string>)
    ensures var r := Tokens(queryText, prefixes);
      && (forall k :: 0 <= k < |prefixes| ==> DeclToken(prefixes[k]) in r)
      && (BaseOf(queryText) != "" ==> Token("BASE", BaseDeclToken, BaseOf(queryText)) in r)
      && (forall x :: x in Scan(queryText).iriRefs ==> IriToken(x) in r)
      && (forall x :: x in Scan(queryText).prefixedNames && ExpandPrefixedName(x, prefixes) != "" ==>
                        Token(x, PrefixedNameToken, ExpandPrefixedName(x, prefixes)) in r)
  {
    var cands := Candidates(queryText, prefixes);
    var r := Tokens(queryText, prefixes);
    TokensAreCandidates(queryText, prefixes);
    var scan := Scan(queryText);
    NameTokensMembers(scan.prefixedNames, prefixes);
    forall k | 0 <= k < |prefixes| ensures DeclToken(prefixes[k]) in r {
      assert DeclTokens(prefixes)[k] == DeclToken(prefixes[k]);
      assert DeclToken(prefixes[k]) in cands;
    }
    forall x | x in scan.iriRefs ensures IriToken(x) in r {
      var k :| 0 <= k < |scan.iriRefs| && scan.iriRefs[k] == x;
      assert IriTokens(scan.iriRefs)[k] == IriToken(x);
      assert IriToken(x) in cands;
    }
    forall x | x in scan.prefixedNames && ExpandPrefixedName(x, prefixes) != ""
      ensures Token(x, PrefixedNameToken, ExpandPrefixedName(x, prefixes)) in r
    {
      assert Token(x, PrefixedNameToken, ExpandPrefixedName(x, prefixes)) in cands;
    }
    if BaseOf(queryText) != "" {
      assert Token("BASE", BaseDeclToken, BaseOf(queryText)) in cands;
    }
  }

  /** A permutation has the same elements. */
  lemma SameElements<T>(s: seq<T>, r: seq<T>)
    requires multiset(s) == multiset(r)
    ensures forall x :: x in r <==> x in s
  {
    forall x ensures x in r <==> x in s {
      assert x in r <==> x in multiset(r);
      assert x in s <==> x in multiset(s);
    }
  }

  /** A sequence without repeats holds each element at most once. */
  lemma {:induction false} NoDuplicatesCount<T>(s: seq<T>, x: T)
    requires NoDuplicates(s)
    ensures multiset(s)[x] <= 1
  {
    if s != [] {
      var init := s[..|s| - 1];
      assert s == init + [s[|s| - 1]];
      NoDuplicatesCount(init, x);
      if s[|s| - 1] == x {
        assert x !in init;
      }
    }
  }

  /** A permutation of a sequence without repeats has none either. */
  lemma NoDuplicatesPermutation<T>(s: seq<T>, r: seq<T>)
    requires multiset(s) == multiset(r) && NoDuplicates(s)
    ensures NoDuplicates(r)
  {
    forall a, b | 0 <= a < b < |r| ensures r[a] != r[b] {
      if r[a] == r[b] {
        var x := r[a];
        assert r == r[..b] + [x] + r[b + 1..];
        assert x in r[..b];
        assert multiset(r)[x] >= 2;
        NoDuplicatesCount(s, x);
      }
    }
  }

  // ------------------------------------------------------------ buildPreviewRows

  datatype Status = NoChange | Change

  datatype PreviewRow = PreviewRow(token: string, kind: TokenKind, expanded: string, toBe: string, status: Status)

  datatype Preview = Preview(rows: seq<PreviewRow>, proposed: nat, total: nat)

  /** The (label, new namespace) pairs for the declared namespaces the mapping changes, in declaration order. */
  function ChangedNamespaces(prefixes: Table<string>, mapping: map<string, string>): seq<(string, string)> {
    if prefixes == [] then []
    else
      var (pfx, ns) := prefixes[|prefixes| - 1];
      ChangedNamespaces(prefixes[..|prefixes| - 1], mapping)
        + (if Effective(mapping, ns) then [(pfx, mapping[ns])] else [])
  }

  /** The `prefixNsToBe` object: each label whose namespace the mapping changes, with the new namespace. */
  function NsToBe(prefixes: Table<string>, mapping: map<string, string>): Table<string> {
    PutAll([], ChangedNamespaces(prefixes, mapping))
  }

  /** The label of a token: the text before its first `:` (empty when it has none). */
  function LabelOf(token: string): string {
    var idx := IndexOfChar(token, ':', 0);
    if idx >= 0 then token[..idx] else ""
  }

  /** The local part of a token: the text after its first `:` (empty when it has none). */
  function LocalOf(token: string): string {
    var idx := IndexOfChar(token, ':', 0);
    if idx >= 0 then token[idx + 1..] else ""
  }

  /**
   * The proposed new IRI of a token: the mapped value of its expansion when
   * that is in effect; for a prefixed name otherwise the changed namespace of
   * its label followed by its local part, when that differs from the
   * expansion; empty when nothing changes.
   */
  function ToBe(t: Token, mapping: map<string, string>, nsToBe: Table<string>): (r: string)
    ensures r != "" ==> r != t.expanded
    ensures Effective(mapping, t.expanded) ==> r == mapping[t.expanded]
  {
    if Effective(mapping, t.expanded) then mapping[t.expanded]
    else if t.kind != PrefixedNameToken then ""
    else match Get(nsToBe, LabelOf(t.token))
      case Some(ns) =>
        var implied := ns + LocalOf(t.token);
        if ns != "" && implied != t.expanded then implied else ""
      case None => ""
  }

  function RowOf(t: Token, mapping: map<string, string>, nsToBe: Table<string>): (r: PreviewRow)
    ensures r.token == t.token && r.kind == t.kind && r.expanded == t.expanded
    ensures r.status == Change <==> r.toBe != ""
  {
    var toBe := ToBe(t, mapping, nsToBe);
    PreviewRow(t.token, t.kind, t.expanded, toBe, if toBe != "" then Change else NoChange)
  }

  function RowsOf(tokens: seq<Token>, mapping: map<string, string>, nsToBe: Table<string>): (r: seq<PreviewRow>)
    ensures |r| == |tokens|
    ensures forall k :: 0 <= k < |r| ==> r[k] == RowOf(tokens[k], mapping, nsToBe)
  {
    if tokens == [] then []
    else
      var init := RowsOf(tokens[..|tokens| - 1], mapping, nsToBe);
      var r := init + [RowOf(tokens[|tokens| - 1], mapping, nsToBe)];
      assert forall k :: 0 <= k < |init| ==> r[k] == init[k];
      r
  }

  predicate IsChange(r: PreviewRow) { r.status == Change }

  /** The preview of a run with `prefixes` and `tokens` against `mapping`. */
  function PreviewOf(prefixes: Table<string>, tokens: seq<Token>, mapping: map<string, string>): Preview {
    var rows := RowsOf(tokens, mapping, NsToBe(prefixes, mapping));
    Preview(rows, CountWhere(rows, IsChange), |rows|)
  }

  /** `buildPreviewRows({ prefixes, tokens }, mapping)`. */
  method BuildPreviewRows(prefixes: Table<string>, tokens: seq<Token>, mapping: map<string, string>)
    returns (preview: Preview)
    ensures preview == PreviewOf(prefixes, tokens, mapping)
  {
    var prefixNsToBe := NamespaceChanges(prefixes, mapping);
    var rows, proposed := PreviewRows(tokens, mapping, prefixNsToBe);
    preview := Preview(rows, proposed, |rows|);
  }

  /** The first loop of `buildPreviewRows`: fills `prefixNsToBe`. */
  method NamespaceChanges(prefixes: Table<string>, mapping: map<string, string>) returns (prefixNsToBe: Table<string>)
    ensures prefixNsToBe == NsToBe(prefixes, mapping)
  {
    prefixNsToBe := [];
    for n := 0 to |prefixes|
      invariant prefixNsToBe == PutAll([], ChangedNamespaces(prefixes[..n], mapping))
    {
      assert prefixes[..n + 1][..n] == prefixes[..n];
      var (pfx, ns) := prefixes[n];
      var ps := ChangedNamespaces(prefixes[..n], mapping);
      if ns in mapping && mapping[ns] != "" && mapping[ns] != ns {
        assert ChangedNamespaces(prefixes[..n + 1], mapping) == ps + [(pfx, mapping[ns])];
        assert (ps + [(pfx, mapping[ns])])[..|ps|] == ps;
        prefixNsToBe := Put(prefixNsToBe, pfx, mapping[ns]);
      } else {
        assert ChangedNamespaces(prefixes[..n + 1], mapping) == ps;
      }
    }
    assert prefixes[..|prefixes|] == prefixes;
  }

  /** The row loop of `buildPreviewRows`: one row per token, counting the proposed changes. */
  method PreviewRows(tokens: seq<Token>, mapping: map<string, string>, prefixNsToBe: Table<string>)
    returns (rows: seq<PreviewRow>, proposed: nat)
    ensures rows == RowsOf(tokens, mapping, prefixNsToBe)
    ensures proposed == CountWhere(rows, IsChange)
  {
    rows, proposed := [], 0;
    for n := 0 to |tokens|
      invariant rows == RowsOf(tokens[..n], mapping, prefixNsToBe)
      invariant proposed == CountWhere(rows, IsChange)
    {
      var row, isChange := MakeRow(tokens[n], mapping, prefixNsToBe);
      if isChange {
        proposed := proposed + 1;
      }
      RowsOfSnoc(tokens, n, mapping, prefixNsToBe);
      CountWhereSnoc(rows, row, IsChange);
      rows := rows + [row];
    }
    assert tokens[..|tokens|] == tokens;
  }

  /** One turn of the row loop: the row for token `t`, and whether it proposes a change. */
  method MakeRow(t: Token, mapping: map<string, string>, prefixNsToBe: Table<string>)
    returns (row: PreviewRow, isChange: bool)
    ensures row == RowOf(t, mapping, prefixNsToBe)
    ensures isChange == (row.status == Change)
  {
    var toBe := ToBe(t, mapping, prefixNsToBe);
    var status := NoChange;
    if toBe != "" {
      status := Change;
    }
    row := PreviewRow(t.token, t.kind, t.expanded, toBe, status);
    isChange := toBe != "";
  }

  lemma RowsOfSnoc(tokens: seq<Token>, n: nat, mapping: map<string, string>, nsToBe: Table<string>)
    requires n < |tokens|
    ensures RowsOf(tokens[..n + 1], mapping, nsToBe) == RowsOf(tokens[..n], mapping, nsToBe) + [RowOf(tokens[n], mapping, nsToBe)]
  {
    assert tokens[..n + 1][..n] == tokens[..n];
  }

  /**
   * `prefixNsToBe[pfx]`: for a table of distinct labels, a label has a new
   * namespace exactly when its declared namespace is mapped to a different,
   * non-empty IRI, and that IRI is the new namespace.
   */
  lemma NsToBeLookup(prefixes: Table<string>, mapping: map<string, string>, pfx: string)
    requires DistinctKeys(prefixes)
    ensures Get(NsToBe(prefixes, mapping), pfx) ==
              match Get(prefixes, pfx)
              case Some(ns) => if Effective(mapping, ns) then Some(mapping[ns]) else None
              case None => None
  {
    GetPutAll([], ChangedNamespaces(prefixes, mapping), pfx);
    LastValueIsGet(prefixes, pfx);
    ChangedLast(prefixes, mapping, pfx);
  }

  lemma {:induction false} ChangedLast(prefixes: Table<string>, mapping: map<string, string>, pfx: string)
    requires DistinctKeys(prefixes)
    ensures LastValue(ChangedNamespaces(prefixes, mapping), pfx) ==
              match LastValue(prefixes, pfx)
              case Some(ns) => if Effective(mapping, ns) then Some(mapping[ns]) else None
              case None => None
  {
    if prefixes != [] {
      var init := prefixes[..|prefixes| - 1];
      assert forall i :: 0 <= i < |init| ==> init[i] == prefixes[i];
      ChangedLast(init, mapping, pfx);
      var ps := ChangedNamespaces(init, mapping);
      var (l, ns) := prefixes[|prefixes| - 1];
      if l == pfx {
        LastValueIsGet(init, pfx);
        assert !HasKey(init, pfx);
      }
      if Effective(mapping, ns) {
        assert ChangedNamespaces(prefixes, mapping) == ps + [(l, mapping[ns])];
        assert (ps + [(l, mapping[ns])])[..|ps|] == ps;
      } else {
        assert ChangedNamespaces(prefixes, mapping) == ps;
      }
    }
  }

  /**
   * The preview has one row per token, in order, with the token's text, kind
   * and expansion; `total` is the token count, and `proposed` the number of
   * rows marked Change, which are exactly the rows with a non-empty proposal.
   */
  lemma PreviewShape(prefixes: Table<string>, tokens: seq<Token>, mapping: map<string, string>)
    ensures var p := PreviewOf(prefixes, tokens, mapping);
      && |p.rows| == |tokens| && p.total == |tokens|
      && (forall k :: 0 <= k < |tokens| ==>
            p.rows[k].token == tokens[k].token && p.rows[k].kind == tokens[k].kind
            && p.rows[k].expanded == tokens[k].expanded
            && (p.rows[k].status == Change <==> p.rows[k].toBe != "")
            && (p.rows[k].toBe != "" ==> p.rows[k].toBe != tokens[k].expanded))
      && p.proposed == CountWhere(p.rows, IsChange)
      && (p.proposed == 0 <==> forall k :: 0 <= k < |tokens| ==> p.rows[k].toBe == "")
  {
    var p := PreviewOf(prefixes, tokens, mapping);
    forall k | 0 <= k < |tokens| ensures p.rows[k].toBe != "" ==> p.rows[k].toBe != tokens[k].expanded {
      assert p.rows[k] == RowOf(tokens[k], mapping, NsToBe(prefixes, mapping));
    }
  }

  /**
   * The proposal for a prefixed name whose own expansion is not mapped comes
   * from its label's changed namespace: that namespace followed by the local
   * part, unless this equals the expansion.
   */
  lemma ImpliedByNamespace(prefixes: Table<string>, t: Token, mapping: map<string, string>)
    requires DistinctKeys(prefixes)
    requires t.kind == PrefixedNameToken && !Effective(mapping, t.expanded)
    ensures var r := ToBe(t, mapping, NsToBe(prefixes, mapping));
            match Get(prefixes, LabelOf(t.token))
            case Some(ns) =>
              r == (if Effective(mapping, ns) && mapping[ns] + LocalOf(t.token) != t.expanded
                    then mapping[ns] + LocalOf(t.token) else "")
            case None => r == ""
  {
    NsToBeLookup(prefixes, mapping, LabelOf(t.token));
  }
}
