# IRI swapper: a Dafny model of the mapping core

IRI swapper is a browser tool with two pages. The **query page**
(`docs/scripts/sparql.js`) takes a SPARQL query and a spreadsheet of
"Old IRI" / "New IRI" pairs. It lists every IRI-bearing token of the query
with the IRI it would change to, then rewrites the query. The **ontology page**
(`docs/scripts/app.js`) does the same for an RDF ontology held as quads.

This project models the logic behind both pages and proves what that logic
promises:

- **The mapping table** (`MappingTable`, `rowsToMapping`) works out the old and
  new columns from the header row. Exact names win; otherwise the first header
  that mentions the word is used. It fills a `Map` in which the last row wins,
  skips rows with an empty old IRI, and counts unique and repeated old IRIs.
  A mapping entry is *in effect* for `k` when it maps `k` to a non-empty IRI
  other than `k`; everything below replaces only on such entries.
- **Query scanning** (`SparqlLexer`, `SparqlScanner`, `scanSparql`) is a
  character loop that skips `#` comments and the four kinds of string literal.
  It collects `<...>` references and prefixed names.
- **Declarations** (`SparqlDecls`, `parsePrefixesAndBase` and the two
  declaration `replace` calls of `rewriteSparqlQuery`). The line-anchored,
  case-insensitive PREFIX and BASE patterns are modelled as deterministic
  matchers, including the backtracking of the trailing `\s*$`.
- **Token staging and the preview** (`SparqlPreview`, `extractTokens`,
  `buildPreviewRows`).
- **Query rewriting** (`SparqlRewrite`, `rewriteBody`, `chooseQNameOrIri`,
  `expandPrefixedName`, `rewriteSparqlQuery`).
- **Quad rewriting** (`RdfRewrite`, `replaceIfMapped`, `rewriteQuads`) and the
  ontology preview and statistics (`RdfPreview`, `buildRowsFromQuads`,
  `computeStatsFromQuads`), over RDF terms (`RdfTerms`).
- **Naming helpers** (`FileNames`): output file names, `ensureRqExtension`,
  `ensureExt`, `contentTypeToExt`, `detectOntologyFormat` and `makeRunId`.
- **Where the query rewrite misses its intent** (`SparqlFindings`). The
  code as written is shown on concrete queries. Next to it are corrected
  definitions with the intended property proved (see "## Findings"). The
  other modules keep the code as written.

Shared models of JavaScript behaviour:

- `JsString`: `trim` and `\s`, `indexOf`, `startsWith`, `replace` with a
  string pattern and its `$` substitutions, and ASCII case folding.
- `OrderedMap`: plain objects and `Map`s. A key keeps its first position and a
  new key goes to the end.
- `Basics`: `Set`s as sequences without repeats, kept in insertion order.
- `Sorting`: a stable sort.

The loops of the source are Dafny methods with loop invariants. Each method is
proved equal to a specification function, and the properties are lemmas about
those functions.

Behaviour the model keeps as the code has it:

- **A comment in the body runs to the end of the query.** In `rewriteBody` the
  line-break branch comes before the comment branch. Once a `#` opens a
  comment, the flag is therefore never cleared. Every later character is
  copied unchanged, on later lines too (`CommentRestVerbatim`).
  `scanSparql` ends a comment at the line break, so the preview can list a
  change that the rewrite does not make.
- **A file name without a dot is all extension.** `detectOntologyFormat`
  takes the text after the last `.`, which is the whole name when there is no
  dot. So a file called `ttl` is read as Turtle.
- **A query name without an extension is treated as `.rq`.** The query page's
  `outputFileName` gives `query` and `query.rq` the same output name
  (`SparqlDotlessLikeRq`).
- **The declaration callback searches for `<` + trimmed IRI + `>`.** When
  blanks pad the IRI inside its brackets (`< a >`), the search finds nothing
  and the declaration is kept (`DeclReplacementPadded`). The mapped IRI is a
  `replace` template, so `$&` and the other `$` patterns in it are expanded
  (`DeclReplacementDollar`).
- **The body pass maps the IRIs of PREFIX and BASE lines again.** On those
  lines it leaves only prefixed names alone. A declaration already rewritten
  to `b` is rewritten once more when `b` itself has an entry in effect
  (`BaseLineMappedTwice`).
- **A blank IRI declares the empty namespace.** `PREFIX p: < >` records `p`
  with `""`. `chooseQNameOrIri` does not skip such an entry, while
  `expandPrefixedName` treats it as unknown (`BlankPrefixBreaksRoundTrip`).
- **Tokens are staged under the whole token.** `extractTokens` keys staged
  tokens by the string `Kind|token|expanded`. The model keys them by the
  token record itself. On the tokens the scanner can produce, the two keys
  tell the same tokens apart.

## Model

| member | source | states |
|---|---|---|
| `MappingTable.LastExact` | docs/scripts/app.js:464-468 | the header kept is one that normalises to the exact name; when none is kept, no header does |
| `MappingTable.FirstFuzzy` | docs/scripts/app.js:470-474 | the fallback header contains both the word and "iri" after normalising; when none is chosen, no header does |
| `MappingTable.ResolveHeaders` | docs/scripts/app.js:462-475 | the two header loops choose the exact match, and the fuzzy one only when there is no exact match |
| `MappingTable.ExactHeaders` | docs/scripts/app.js:464-468 | the first header loop keeps, for each column, the last header whose normalised name is the exact column name |
| `MappingTable.FuzzyHeaders` | docs/scripts/app.js:470-474 | the second header loop fills only a column still unresolved, with the first header that mentions its word |
| `MappingTable.FillMapping` | docs/scripts/app.js:481-495 | the row loop builds the map of the non-skipped (old, new) pairs and counts the old IRIs already seen |
| `MappingTable.RowsToMapping` | docs/scripts/app.js:455-505 | zero rows, or a missing old or new column, is the header error; otherwise the map and `rows`/`uniqueOld`/`dupOld` are as built by the loops |
| `MappingTable.MappingLastWins` | docs/scripts/app.js:493-494 | an old IRI is in the map exactly when some pair names it, and it maps to the new IRI of the last such pair |
| `MappingTable.SkippedRows` | docs/scripts/app.js:486-488 | rows whose trimmed old IRI is empty never reach the map; every other row yields exactly one pair |
| `MappingTable.CountersAddUp` | docs/scripts/app.js:490-502 | `uniqueOld + dupOld` equals the number of rows that were not skipped |
| `OrderedMap.Put` | docs/scripts/sparql.js:254 | assigning a key makes it read back the new value and leaves every other key as it was; a new key is appended |
| `OrderedMap.GetPutAll` | docs/scripts/sparql.js:251-255 | after a run of assignments, each key holds the value it was given last |
| `Sorting.SortBy` | docs/scripts/sparql.js:314 | the sorted output is a permutation of the input and ordered by the key |
| `Sorting.SortByStable` | docs/scripts/sparql.js:313-314 | the sort is stable: for every key, the elements with that key come out in their input order |
| `SparqlLexer.PrefixedNameEnd` | docs/scripts/sparql.js:379-397 | a found token spans at least a `:` and one local character, and its local part is maximal: it stops at the end of the text or before a character that cannot continue it |
| `SparqlLexer.PrefixedNameEndSound` | docs/scripts/sparql.js:379-397 | a found token has the prefixed-name shape: an optional label, the first `:`, then a local part |
| `SparqlLexer.PrefixedNameEndComplete` | docs/scripts/sparql.js:379-397 | whenever the text at a position begins with a prefixed-name shape, a token is found there |
| `SparqlScanner.ScanSparql` | docs/scripts/sparql.js:328-413 | the scanning loop collects exactly what the step-by-step specification of the scan collects |
| `SparqlScanner.ScanToken` | docs/scripts/sparql.js:367-409 | outside comments and strings, a turn takes a `<...>` reference, a prefixed name, or one character, as the specified turn does |
| `SparqlScanner.ScanStepCollects` | docs/scripts/sparql.js:347-407 | one turn keeps everything collected so far and adds only a token taken at its own position, outside comments and strings |
| `SparqlScanner.IriRefsOrigin` | docs/scripts/sparql.js:368-375 | every collected IRI reference is the trimmed, non-empty text between a `<` and the next `>`, at a position reached outside comments and strings |
| `SparqlScanner.PrefixedNamesOrigin` | docs/scripts/sparql.js:379-404 | every collected prefixed name is a whole token of the prefixed-name shape, outside comments and strings, that starts with neither `http:` nor `https:` |
| `SparqlScanner.ScanOrigins` | docs/scripts/sparql.js:347-404 | over the whole scan, an IRI reference or prefixed name is collected exactly when it is taken at a position the scan reaches outside comments and strings; every prefixed name holds a `:` |
| `SparqlScanner.CommentToEndCollectsNothing` | docs/scripts/sparql.js:348-355 | a `#` comment that runs to the end of the text contributes no token |
| `SparqlDecls.LastLineEnd` | docs/scripts/sparql.js:247 | the trailing `\s*$` backs off to the last line end within the blank run, or fails when there is none |
| `SparqlDecls.MatchDeclAt` | docs/scripts/sparql.js:247-248 | a match at a position has the keyword (in any case) after leading blanks, a bracketed IRI of at least one non-`>` character and only blanks up to a line end; BASE has no label |
| `SparqlDecls.NextDecl` | docs/scripts/sparql.js:251 | the global search finds the first match at or after the resume position, and there is none in between |
| `SparqlDecls.ParsePrefixesAndBase` | docs/scripts/sparql.js:243-261 | the PREFIX loop and the BASE lookup build exactly the specified prefix table and base IRI |
| `SparqlDecls.BaseOf` | docs/scripts/sparql.js:257-258 | the base IRI comes from the first BASE line only, trimmed, and is empty when there is none |
| `SparqlDecls.PrefixLastWins` | docs/scripts/sparql.js:251-255 | a later PREFIX line for a label overrides an earlier one, and the table has no repeated labels |
| `SparqlDecls.PrefixPairsTrimmed` | docs/scripts/sparql.js:252-253 | every recorded label and namespace is trimmed |
| `SparqlDecls.DeclReplacement` | docs/scripts/sparql.js:637-649 | a declaration whose IRI has no entry in effect is returned as matched |
| `SparqlDecls.DeclReplacementHit` | docs/scripts/sparql.js:637-643 | when the bracketed IRI has no padding, has an entry in effect and its mapped IRI holds no `$`, the callback puts the mapped IRI between the brackets and keeps the rest of the line |
| `SparqlDecls.DeclReplacementDollar` | docs/scripts/sparql.js:641 | a mapped IRI `$&` is read as a template: the brackets end up holding `<ns>` itself |
| `SparqlDecls.DeclReplacementPadded` | docs/scripts/sparql.js:637-643 | when blanks pad the IRI inside its brackets, the callback returns the line unchanged, whatever the mapping |
| `SparqlDecls.MatchLabelPlain` | docs/scripts/sparql.js:247-252 | the label group of a PREFIX match is made of name characters and holds no `:` |
| `SparqlDecls.PrefixPairsPlain` | docs/scripts/sparql.js:250-255 | no label recorded from a PREFIX line holds a `:` |
| `SparqlDecls.PrefixTableWellKeyed` | docs/scripts/sparql.js:243-261 | the parsed prefix table has one entry per label, and no label holds a `:` |
| `OrderedMap.PutAllEntries` | docs/scripts/sparql.js:251-255 | every entry of the table after the assignments was there before or is one of the assigned pairs |
| `SparqlDecls.ReplaceDeclsKeeps` | docs/scripts/sparql.js:637-650 | when no matched declaration has an entry in effect, the `replace` pass returns its input |
| `SparqlDecls.ReplaceDeclsNoOp` | docs/scripts/sparql.js:637-650 | with no entry in effect, both declaration passes change nothing |
| `SparqlRewrite.ExpandPrefixedName` | docs/scripts/sparql.js:317-325 | no `:` gives ""; an unknown or empty namespace for the label before the first `:` gives ""; otherwise the namespace followed by the text after the first `:` |
| `SparqlRewrite.FirstCompacting` | docs/scripts/sparql.js:778-785 | the search returns the first prefix entry with a non-empty label whose namespace starts the IRI and leaves a safe local part, or -1 when there is none |
| `SparqlRewrite.ChooseQNameOrIri` | docs/scripts/sparql.js:774-787 | with compaction off the result is `<newIri>`; otherwise it is `label:local` for the first compacting entry, falling back to `<newIri>` |
| `SparqlRewrite.ChooseThenExpand` | docs/scripts/sparql.js:774-787 | a compacted name expands back, under the same prefixes, to the IRI it stands for, given distinct colon-free labels and non-empty namespaces |
| `SparqlRewrite.ChooseThenExpandParsed` | docs/scripts/sparql.js:652-656 | on the prefixes a query declares, when none was declared with a blank IRI, a compacted name expands back to its IRI |
| `SparqlRewrite.LiteralStep` | docs/scripts/sparql.js:694-710 | the comment and string branches copy what they consume, and keep the line flags; inside a comment the step stays in the comment |
| `SparqlRewrite.TokenStepCases` | docs/scripts/sparql.js:713-768 | outside comments and strings a step copies its text, or replaces a `<...>` span by its mapped IRI, or replaces a prefixed name mapped through the original prefixes; on a PREFIX/BASE line no prefixed name is replaced |
| `SparqlRewrite.IriCase` | docs/scripts/sparql.js:713-726 | a `<...>` span becomes `<mapped>` only when the trimmed content has an entry in effect, and is copied otherwise |
| `SparqlRewrite.BodyStepCases` | docs/scripts/sparql.js:674-769 | every turn of the rewrite loop copies, rewrites an IRI or rewrites a prefixed name; inside a comment it copies; on a PREFIX/BASE line it never rewrites a prefixed name |
| `SparqlRewrite.RewriteBody` | docs/scripts/sparql.js:659-772 | the rewrite loop produces exactly the output of the step-by-step specification |
| `SparqlRewrite.BodyTurn` | docs/scripts/sparql.js:674-769 | one turn of the rewrite loop (line start, line break, comment, string or token) gives the specified next state |
| `SparqlRewrite.CopyTurn` | docs/scripts/sparql.js:693-710 | the comment and string branches of a turn give the specified state, and report when none of them applies |
| `SparqlRewrite.RewriteToken` | docs/scripts/sparql.js:713-768 | the IRI and prefixed-name branches produce the specified output and resume position |
| `SparqlRewrite.IriReplacement` | docs/scripts/sparql.js:716-722 | the text emitted for a `<...>` span is the specified piece |
| `SparqlRewrite.NameReplacement` | docs/scripts/sparql.js:748-761 | the text emitted for a prefixed name is the specified piece |
| `SparqlRewrite.StepCopies` | docs/scripts/sparql.js:686-768 | with no entry in effect, or inside a comment, a turn copies exactly the characters it consumes |
| `SparqlRewrite.BodyVerbatim` | docs/scripts/sparql.js:659-772 | with no entry in effect, the body comes out character for character as it went in |
| `SparqlRewrite.CommentRestVerbatim` | docs/scripts/sparql.js:686-700 | once a comment has begun, the rest of the text is copied unchanged |
| `SparqlRewrite.RewriteSparqlQuery` | docs/scripts/sparql.js:633-657 | the query rewrite is the two declaration passes, then a re-parse of the prefixes, then the body rewrite with the original and updated prefixes |
| `SparqlRewrite.RewriteNoOp` | docs/scripts/sparql.js:633-657 | a mapping with no entry in effect leaves the query unchanged |
| `SparqlPreview.DeclTokens` | docs/scripts/sparql.js:274-281 | one PREFIX token per prefix entry, in table order, carrying its namespace |
| `SparqlPreview.NameTokensMembers` | docs/scripts/sparql.js:303-311 | exactly the collected prefixed names that expand to a non-empty IRI are staged, each with its expansion |
| `SparqlPreview.ExtractTokens` | docs/scripts/sparql.js:270-315 | the staging loops and the sort produce exactly the specified token list |
| `SparqlPreview.StagePrefixDecls` | docs/scripts/sparql.js:274-281 | the PREFIX loop stages the declaration tokens in order, without repeats |
| `SparqlPreview.StageIriRefs` | docs/scripts/sparql.js:295-301 | the IRI loop stages one token per collected reference, without repeats |
| `SparqlPreview.StagePrefixedNames` | docs/scripts/sparql.js:303-311 | the name loop stages the expandable names, without repeats |
| `SparqlPreview.TokensSound` | docs/scripts/sparql.js:270-315 | the tokens are sorted by expanded IRI and have no repeats, and each comes from a PREFIX entry, the BASE line, a collected IRI or an expandable name |
| `SparqlPreview.TokensAreCandidates` | docs/scripts/sparql.js:270-315 | the sorted output holds exactly the staged tokens, each once |
| `SparqlPreview.TokensComplete` | docs/scripts/sparql.js:274-311 | every PREFIX entry, a non-empty base IRI, every collected IRI and every expandable name is in the output |
| `SparqlPreview.ToBe` | docs/scripts/sparql.js:542-567 | a proposed IRI is never the current one, and an entry in effect for the expanded IRI always wins |
| `SparqlPreview.RowOf` | docs/scripts/sparql.js:569-580 | a row copies the token, kind and expanded IRI, and its status is "Change" exactly when it proposes an IRI |
| `SparqlPreview.MakeRow` | docs/scripts/sparql.js:542-580 | the loop body builds the specified row for a token and reports whether it is a change |
| `SparqlPreview.BuildPreviewRows` | docs/scripts/sparql.js:527-584 | the preview is the specified one: namespace changes first, then one row per token |
| `SparqlPreview.NamespaceChanges` | docs/scripts/sparql.js:532-536 | the loop records the mapped namespace of every label whose namespace has an entry in effect |
| `SparqlPreview.PreviewRows` | docs/scripts/sparql.js:538-581 | the row loop builds one specified row per token and counts the changes |
| `SparqlPreview.NsToBeLookup` | docs/scripts/sparql.js:532-536 | a label has a new namespace exactly when its namespace has an entry in effect, and that entry is the new namespace |
| `SparqlPreview.ChangedLast` | docs/scripts/sparql.js:533-535 | the last namespace change recorded for a label is the mapped namespace of its last declaration, when that namespace has an entry in effect, and there is none otherwise |
| `SparqlPreview.PreviewShape` | docs/scripts/sparql.js:538-583 | one row per token in input order, `total` is the token count, a row is "Change" iff it proposes an IRI, which is then never its current one; `proposed` counts those rows and is 0 iff no row proposes anything |
| `SparqlPreview.ImpliedByNamespace` | docs/scripts/sparql.js:557-566 | without a direct entry, a prefixed name is proposed the new namespace plus its local part, provided that differs from its expansion |
| `RdfRewrite.ReplaceIfMapped` | docs/scripts/app.js:659-664 | only a named node with an entry in effect is replaced, by the named node of the mapped IRI; every other term comes back unchanged |
| `RdfRewrite.RewriteOne` | docs/scripts/app.js:638-651 | one quad is rewritten to the specified quad; it counts as touched exactly when some term changed, and the replacement count is the number of changed terms |
| `RdfRewrite.RewriteQuads` | docs/scripts/app.js:628-657 | the output has one quad per input quad, in order, with subject/predicate/object replaced where mapped and the graph set to the output run; the counters are the specified statistics |
| `RdfRewrite.StatsBounds` | docs/scripts/app.js:645-651 | `quadsTouched <= termReplacements <= 3 * quadsTouched`, and neither exceeds what the input count allows |
| `RdfRewrite.RewriteNoOp` | docs/scripts/app.js:636-656 | with no entry in effect, every quad only moves into the output graph and nothing is counted as changed |
| `RdfPreview.NamedIris` | docs/scripts/app.js:539-541 | the IRIs a quad contributes are the values of its named-node subject, predicate and object, never the graph |
| `RdfPreview.IrisExactly` | docs/scripts/app.js:538-541 | the IRI set has no repeats and holds exactly the IRIs that occur as a named node in subject, predicate or object |
| `RdfPreview.LabelStepAt` | docs/scripts/app.js:543-549 | one quad sets a label only for its own rdfs:label subject: the first one, or an English one over a non-English one |
| `RdfPreview.LabelChoice` | docs/scripts/app.js:543-549 | an IRI's label is its first English-tagged rdfs:label if there is one, else its first rdfs:label, else none |
| `RdfPreview.RowOf` | docs/scripts/app.js:558-569 | a row is "Change" exactly when the mapping exists and has an entry in effect for the IRI, which is then its new IRI; otherwise its new IRI is empty |
| `RdfPreview.MakeRow` | docs/scripts/app.js:558-569 | the loop body builds the specified row for an IRI and reports whether it is a change |
| `RdfPreview.CollectIrisAndLabels` | docs/scripts/app.js:538-551 | the quad loop builds exactly the specified IRI set and label table, and counts the quads as `computeStatsFromQuads` does (app.js:384) |
| `RdfPreview.BuildRowsFromQuads` | docs/scripts/app.js:533-573 | the result is the specified one: sorted distinct IRIs, one row each, and the counts |
| `RdfPreview.IriRows` | docs/scripts/app.js:553-570 | the row loop builds one specified row per sorted IRI and counts the changes |
| `RdfPreview.RowsCoverIris` | docs/scripts/app.js:538-572 | one row per distinct IRI that occurs, so `uniqueIris` equals the row count |
| `RdfPreview.RowsOrderAndStatus` | docs/scripts/app.js:555-572 | rows are in sorted IRI order; a row is "Change" iff its IRI has an entry in effect, with that new IRI, and `proposedChanges` counts these rows |
| `RdfPreview.ComputeStatsFromQuads` | docs/scripts/app.js:377-409 | the totals are the quad count, the number of distinct IRIs and the number of labelled IRIs |
| `RdfPreview.LabelCount` | docs/scripts/app.js:392-407 | `labelCount` counts exactly the named-node subjects with at least one rdfs:label literal |
| `FileNames.OutputFileName` | docs/scripts/app.js:666-670 | the output name is the input with `.mapped` inserted, so exactly seven characters longer |
| `FileNames.Extension` | docs/scripts/app.js:667-668 | the kept extension starts at the last `.` and holds no other `.`; there is none when the only `.` opens the name |
| `FileNames.OutputFileNameRoundTrip` | docs/scripts/app.js:666-670 | `.mapped` goes in before the extension, or at the end, and can be taken back out, so no two inputs share an output name |
| `FileNames.OutputKeepsExtension` | docs/scripts/app.js:666-670 | the output keeps the input's extension; a name without one gets the extension `.mapped` |
| `FileNames.SparqlOutputFileName` | docs/scripts/sparql.js:800-804 | the query page names outputs like the ontology page, plus `.rq` when the input has no extension |
| `FileNames.SparqlOutputHasExtension` | docs/scripts/sparql.js:800-804 | a query output always has an extension: its input's, or `.rq` |
| `FileNames.SparqlDotlessLikeRq` | docs/scripts/sparql.js:800-804 | a non-empty query name without an extension is named as if it ended in `.rq` |
| `FileNames.EnsureRqExtension` | docs/scripts/sparql.js:942-945 | the result ends in `.rq` or `.sparql` (any case); such a name is kept, any other gets `.rq` appended |
| `FileNames.Sanitize` | docs/scripts/app.js:808 | the sanitized name holds only `[A-Za-z0-9_.-]`, is no longer than the input, and is the input when that already holds only those characters |
| `FileNames.SanitizeAppend` | docs/scripts/app.js:808 | sanitizing works piece by piece when the cut does not fall inside a run of replaced characters |
| `FileNames.SanitizeRun` | docs/scripts/app.js:808 | a maximal run of other characters becomes exactly one `_` |
| `FileNames.MakeRunId` | docs/scripts/app.js:807-810 | a run id is `urn:myna:`, the kind, `:`, a file part of `[A-Za-z0-9_.-]` only, `:`, and the timestamp |
| `FileNames.SparqlMakeRunId` | docs/scripts/sparql.js:808-811 | a query-page run id is `urn:myna:sparql:`, the kind, `:`, a file part of `[A-Za-z0-9_.-]` only, `:`, and the timestamp |
| `FileNames.MakeRunIdParts` | docs/scripts/app.js:807-810 | a run id determines its kind, its sanitized file name and its timestamp, for kinds without `:` |
| `FileNames.RunIdsDisjoint` | docs/scripts/sparql.js:808-811 | an ontology-page run id whose kind is not "sparql" never equals a query-page run id |
| `FileNames.DetectOntologyFormat` | docs/scripts/app.js:250-258 | a file is of unknown type exactly when its last segment, in lower case, is none of the ten known extensions; the format is read from that segment alone |
| `FileNames.ContentTypeToExt` | docs/scripts/app.js:706-712 | every extension is a `.` followed by lower-case, dot-free text; `.txt` exactly for the types the export cannot write |
| `FileNames.EnsureExt` | docs/scripts/app.js:714-719 | a name whose lower-cased form ends with the extension is kept, and the result always ends, in lower case, with a lower-case extension |
| `FileNames.EnsureExtSwaps` | docs/scripts/app.js:714-719 | a name ending in a known RDF extension, in any case, has that extension swapped for the new one, not added to |
| `FileNames.ExportReopens` | docs/scripts/app.js:686-692 | a downloaded export's name is detected as the content type it was written in |
| `SparqlFindings.DeclPhaseOnBaseLine` | docs/scripts/sparql.js:637-649 | on `BASE <a>`, the PREFIX pass changes nothing and the BASE pass writes the mapped IRI of `a` |
| `SparqlFindings.BodyOnBaseLineOf` | docs/scripts/sparql.js:674-726 | the body pass on `BASE <b>` copies `BASE ` and maps `<b>` when `b` has an entry in effect |
| `SparqlFindings.BaseLineMappedTwice` | docs/scripts/sparql.js:633-657 | as written, `BASE <a>` with `a -> b` comes out with the mapped IRI of `b` when there is one: the IRI is mapped twice |
| `SparqlFindings.SwapLeavesBaseLine` | docs/scripts/sparql.js:633-657 | as written, the swap `a -> b`, `b -> a` leaves `BASE <a>` unchanged |
| `SparqlFindings.DeclReplacementIntended` | docs/scripts/sparql.js:637-649 | corrected callback: an unmapped declaration is kept; a mapped one keeps the text around its brackets |
| `SparqlFindings.DeclIntendedAgrees` | docs/scripts/sparql.js:637-649 | the corrected callback equals the one as written wherever no entry is in effect, or the IRI is unpadded and its mapped IRI holds no `$` |
| `SparqlFindings.DeclIntendedBrackets` | docs/scripts/sparql.js:637-652 | after the corrected callback, the first `>` after the declaration's `<` closes exactly the mapped IRI, so a re-parse reads that IRI |
| `SparqlFindings.DeclLineTurnCopies` | docs/scripts/sparql.js:678-684 | corrected body pass (the "skip PREFIX/BASE lines" of sparql.js:655): on a PREFIX or BASE line a turn copies exactly what it consumes |
| `SparqlFindings.DeclLineKept` | docs/scripts/sparql.js:655 | corrected body pass: a line that is a PREFIX or BASE line, to the end of the text, comes out unchanged |
| `SparqlFindings.BaseLineMappedOnce` | docs/scripts/sparql.js:633-657 | with both corrections, `BASE <a>` comes out as `BASE <m>` for the mapped IRI `m` of `a`, mapped once |
| `SparqlFindings.SwapMapsBaseLineOnce` | docs/scripts/sparql.js:633-657 | with both corrections, the swap `a -> b`, `b -> a` turns `BASE <a>` into `BASE <b>` |
| `SparqlFindings.BlankPrefixRecorded` | docs/scripts/sparql.js:247-254 | `PREFIX p: < >` records the label `p` with the empty namespace |
| `SparqlFindings.BlankPrefixBreaksRoundTrip` | docs/scripts/sparql.js:774-787 | with that table, `abc` is abbreviated to `p:abc`, which expands to no IRI |
| `SparqlFindings.WithNamespace` | docs/scripts/sparql.js:778-779 | the kept entries are exactly those with a non-empty namespace |
| `SparqlFindings.WithNamespaceDistinct` | docs/scripts/sparql.js:778-779 | dropping entries keeps labels distinct |
| `SparqlFindings.ChooseQNameOrIriIntended` | docs/scripts/sparql.js:774-787 | corrected abbreviation: with compaction off the result is `<newIri>` |
| `SparqlFindings.ChooseThenExpandIntended` | docs/scripts/sparql.js:774-787 | with distinct colon-free labels, the corrected abbreviation expands back to its IRI; empty namespaces need not be ruled out |
| `SparqlFindings.ChooseThenExpandIntendedParsed` | docs/scripts/sparql.js:774-787 | on any table a query declares, the corrected abbreviation expands back to its IRI |

## Left out

- The DOM and UI, IndexedDB run storage, file reading and Blob downloads. These are presentation and asynchronous I/O. Timestamps (`new Date().toISOString()`) are a parameter of `makeRunId`.
- Calls into the N3, jsonld, rdflib, Papa Parse and SheetJS libraries, and `DOMParser`/`JSON.parse`. Their behaviour is not part of this model. Quads come in as values; spreadsheet rows come in as ordered (header, cell) records of strings.
- `docs/sw.js`: service-worker cache handling, which is network plumbing.
- `localeCompare` is locale-dependent. `Sorting.SortBy` sorts by code-point order with a stable insertion sort. The proved facts hold for any total order: the output is a permutation, it is sorted, it keeps elements with equal keys in input order, and it has no repeats.
- KPI percentages (`Math.round` of a division). They are floating point.
- `countAppliedChanges` reads the global session object.
- `parseTurtlePrefixes` in the ontology page is an unanchored regular-expression scan that feeds only the display.
- Lookups of inherited object keys such as `constructor` or `__proto__` on plain objects. Tables hold only the keys that were assigned. So `PREFIX __proto__: <x>` is recorded here as the label `__proto__`. The plain-object assignment at docs/scripts/sparql.js:254 ignores it, because setting `__proto__` to a string does nothing.
- Case folding is ASCII only. `toLowerCase` on non-ASCII letters can change the length of a string, and that is not modelled. The `i` flag of the patterns has no `u` flag, so it never folds a non-ASCII character to an ASCII one. Every letter of these patterns is ASCII, so for them the `i` flag matches exactly what ASCII folding matches.
- Strings are sequences of Unicode scalar values, not UTF-16 code units. A character outside the Basic Multilingual Plane counts as one position, not two. No branch of the core tests for such characters.
- The text of thrown error messages. `RowsToMapping` reports the missing-header case as a value that carries the header list.
- Non-string spreadsheet cells (numbers, dates) and the `|| ""` of a falsy cell are modelled as the empty string.
- The `Variable` and `DefaultGraph` term kinds are carried but never mapped, as in the code.
- `SparqlRewrite.TokenStepCases`: says which of the three outcomes a step has. For a rewritten name it does not restate how `chooseQNameOrIri` chose the text; that is `ChooseQNameOrIri`'s contract.
- `RdfPreview.ComputeStatsFromQuads`: its label table is the one `buildRowsFromQuads` builds. The two loops differ only in how they write the language default, which gives the same table.

## Findings

| source | as written | input that shows it | evidently intended | confidence | as-written member | corrected member |
|---|---|---|---|---|---|---|
| docs/scripts/sparql.js:637-649 | the callback searches the matched line for `<` + trimmed IRI + `>`, so a padded IRI is never found and the declaration is kept | `PREFIX ex: < a >` with `a` mapped to `b`: the line is kept, so the prefixes re-parsed for abbreviation still give `ex` the IRI `a` | the declaration gets its mapped IRI ("update PREFIX/BASE declarations") | medium, not executed | `SparqlDecls.DeclReplacementPadded` | `SparqlFindings.DeclIntendedBrackets` |
| docs/scripts/sparql.js:641,648 | the mapped IRI is a `replace` template, so `$` patterns in it are expanded | a declaration `<a>` with `a` mapped to `$&` keeps `<<a>>` between the line's ends instead of `<$&>` | the mapped IRI is written literally | medium, not executed | `SparqlDecls.DeclReplacementDollar` | `SparqlFindings.DeclIntendedBrackets` |
| docs/scripts/sparql.js:655,678-726 | the body pass skips only prefixed names on PREFIX and BASE lines, so their `<...>` is mapped a second time | `BASE <a>` with `a -> b`, `b -> a` comes out as `BASE <a>` | PREFIX and BASE lines are skipped, so the IRI is mapped once: `BASE <b>` | high, not executed | `SparqlFindings.SwapLeavesBaseLine` | `SparqlFindings.SwapMapsBaseLineOnce` |
| docs/scripts/sparql.js:774-787 | `chooseQNameOrIri` abbreviates with an entry whose namespace is empty, which `expandPrefixedName` treats as unknown | `PREFIX p: < >` and the new IRI `abc` give `p:abc`, which expands to no IRI | entries with an empty namespace are passed over, as in `expandPrefixedName` | low, not executed | `SparqlFindings.BlankPrefixBreaksRoundTrip` | `SparqlFindings.ChooseThenExpandIntendedParsed` |
