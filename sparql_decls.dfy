/**
 * The PREFIX and BASE declaration lines of a SPARQL query, as the two
 * multiline, case-insensitive, global regular expressions of the tool find
 * them:
 *
 *   PREFIX: `^\s*PREFIX\s+([A-Za-z_][\w-]*)?:\s*<([^>]+)>\s*$`
 *   BASE:   `^\s*BASE\s+<([^>]+)>\s*$`
 *
 * Every part of these patterns but the last is followed by a character that
 * its class cannot hold, so backtracking never changes its extent; the final
 * `\s*$` backs off to the last line terminator (or the end of the text) inside
 * the run of white space after `>`. A match is therefore computed directly
 * (`MatchDeclAt`), and the engine's left-to-right search over the positions
 * where `^` holds is `NextDecl`.
 *
 * On top of the matcher: `parsePrefixesAndBase`, and the declaration-rewriting
 * phase of `rewriteSparqlQuery` (a global `replace` with a callback).
 */
module SparqlDecls {
  import opened Basics
  import opened JsString
  import opened OrderedMap
  import opened MappingTable
  import opened SparqlLexer

  datatype DeclKind = PrefixDecl | BaseDecl

  /**
   * One match: the matched text is `text[start..end]`, the bracketed IRI is
   * `text[nsStart..nsEnd]`, and `pfx` is the prefix label (empty when the
   * group did not take part, and always empty for BASE).
   */
  datatype DeclMatch = DeclMatch(start: nat, end: nat, pfx: string, nsStart: nat, nsEnd: nat)

  function Keyword(kind: DeclKind): string {
    if kind == PrefixDecl then "PREFIX" else "BASE"
  }

  /** `^` in multiline mode. */
  predicate LineStartAt(text: string, s: nat)
    requires s <= |text|
  {
    s == 0 || IsLineTerminator(text[s - 1])
  }

  /** `$` in multiline mode. */
  predicate LineEndAt(text: string, k: nat)
    requires k <= |text|
  {
    k == |text| || IsLineTerminator(text[k])
  }

  /** The backtracking of the final `\s*$`: the last position in `[lo, k]` where `$` holds. */
  function LastLineEnd(text: string, lo: nat, k: nat): (r: Option<nat>)
    requires lo <= k <= |text|
    ensures r.Some? ==> lo <= r.value <= k && LineEndAt(text, r.value)
                        && forall m :: r.value < m <= k ==> !LineEndAt(text, m)
    ensures r.None? ==> forall m :: lo <= m <= k ==> !LineEndAt(text, m)
    decreases k - lo
  {
    if LineEndAt(text, k) then Some(k)
    else if k == lo then None
    else LastLineEnd(text, lo, k - 1)
  }

  /**
   * What every match satisfies: `<`, one or more characters other than `>`, `>`,
   * then nothing but white space up to a line end.
   */
  predicate DeclShape(text: string, d: DeclMatch) {
    && d.start < d.nsStart < d.nsEnd < d.end <= |text|
    && text[d.nsStart - 1] == '<' && text[d.nsEnd] == '>'
    && (forall k :: d.nsStart <= k < d.nsEnd ==> text[k] != '>')
    && (forall k :: d.nsEnd < k < d.end ==> IsJsSpace(text[k]))
    && LineEndAt(text, d.end)
  }

  /** After leading white space, the keyword of `kind` in any letter case. */
  predicate KeywordAt(text: string, kind: DeclKind, s: nat)
    requires s <= |text|
  {
    var a := SpacesEnd(text, s);
    a + |Keyword(kind)| <= |text| && EqualsIgnoreCaseAscii(text[a..a + |Keyword(kind)|], Keyword(kind))
  }

  /** The text from `f` on is `<`, one or more non-`>` characters, `>`, then blanks up to a line end. */
  function MatchIriTail(text: string, s: nat, pfx: string, f: nat): (r: Option<DeclMatch>)
    requires s <= f <= |text|
    ensures r.Some? ==> r.value.start == s && r.value.pfx == pfx && r.value.nsStart == f + 1
                        && DeclShape(text, r.value)
  {
    if f == |text| || text[f] != '<' then None
    else
      var h := IndexOfChar(text, '>', f + 1);
      IndexOfCharFirst(text, '>', f + 1);
      if h <= f + 1 then None
      else
        SpacesSkipped(text, h + 1);
        match LastLineEnd(text, h + 1, SpacesEnd(text, h + 1))
        case None => None
        case Some(e) => Some(DeclMatch(s, e, pfx, f + 1, h))
  }

  /** The one way the pattern for `kind` can match at `s`, if it matches there at all. */
  function MatchDeclAt(text: string, kind: DeclKind, s: nat): (r: Option<DeclMatch>)
    requires s <= |text|
    ensures r.Some? ==> r.value.start == s && DeclShape(text, r.value) && KeywordAt(text, kind, s)
    ensures r.Some? && kind == BaseDecl ==> r.value.pfx == ""
  {
    var a := SpacesEnd(text, s);
    var kw := Keyword(kind);
    if !(a + |kw| <= |text| && EqualsIgnoreCaseAscii(text[a..a + |kw|], kw)) then None
    else
      var b := SpacesEnd(text, a + |kw|);
      if b == a + |kw| then None
      else if kind == BaseDecl then MatchIriTail(text, s, "", b)
      else MatchLabelTail(text, s, b)
  }

  /** The text from `b` on is an optional label `[A-Za-z_][\w-]*`, `:`, blanks, then the bracketed IRI and the line end. */
  function MatchLabelTail(text: string, s: nat, b: nat): (r: Option<DeclMatch>)
    requires s <= b <= |text|
    ensures r.Some? ==> r.value.start == s && DeclShape(text, r.value)
  {
    var c := if b < |text| && IsNameStart(text[b]) then SkipWhile(text, b + 1, IsNameChar) else b;
    if c == |text| || text[c] != ':' then None
    else MatchIriTail(text, s, text[b..c], SpacesEnd(text, c + 1))
  }

  /** The pattern for `kind` matches at `s`, where `^` holds. */
  predicate MatchesAt(text: string, kind: DeclKind, s: nat)
    requires s <= |text|
  {
    LineStartAt(text, s) && MatchDeclAt(text, kind, s).Some?
  }

  /** The match `exec` or `replace` finds when the search resumes at `pos`: the first one starting there or later. */
  function NextDecl(text: string, kind: DeclKind, pos: nat): (r: Option<DeclMatch>)
    requires pos <= |text|
    ensures r.Some? ==> pos <= r.value.start <= |text| && MatchesAt(text, kind, r.value.start)
                        && MatchDeclAt(text, kind, r.value.start) == r
    ensures r.Some? ==> forall s :: pos <= s < r.value.start ==> !MatchesAt(text, kind, s)
    ensures r.None? ==> forall s :: pos <= s <= |text| ==> !MatchesAt(text, kind, s)
    decreases |text| - pos
  {
    if MatchesAt(text, kind, pos) then MatchDeclAt(text, kind, pos)
    else if pos == |text| then None
    else
      var r := NextDecl(text, kind, pos + 1);
      ExtendNoMatch(text, kind, pos, if r.Some? then r.value.start else |text| + 1);
      r
  }

  /** A search that fails at `pos` and finds nothing in `(pos, e)` finds nothing in `[pos, e)`. */
  lemma ExtendNoMatch(text: string, kind: DeclKind, pos: nat, e: nat)
    requires pos < |text| && !MatchesAt(text, kind, pos)
    requires forall s :: pos + 1 <= s < e && s <= |text| ==> !MatchesAt(text, kind, s)
    ensures forall s :: pos <= s < e && s <= |text| ==> !MatchesAt(text, kind, s)
  {
  }

  /** The trimmed bracketed IRI of a match. */
  function DeclIri(text: string, d: DeclMatch): string
    requires d.nsStart <= d.nsEnd <= |text|
  {
    Trim(text[d.nsStart..d.nsEnd])
  }

  /** The (label, namespace) pairs of all PREFIX matches from `pos` on, in order. */
  function PrefixPairs(text: string, pos: nat): seq<(string, string)>
    requires pos <= |text|
    decreases |text| - pos
  {
    match NextDecl(text, PrefixDecl, pos)
    case None => []
    case Some(d) => [(Trim(d.pfx), DeclIri(text, d))] + PrefixPairs(text, d.end)
  }

  /** The prefix object `parsePrefixesAndBase` builds: one assignment per PREFIX line, in order. */
  function PrefixesOf(text: string): Table<string> {
    PutAll([], PrefixPairs(text, 0))
  }

  /** The base IRI: from the first BASE line only, or empty. */
  function BaseOf(text: string): (r: string)
    ensures NextDecl(text, BaseDecl, 0).None? ==> r == ""
    ensures NextDecl(text, BaseDecl, 0).Some? ==> r == DeclIri(text, NextDecl(text, BaseDecl, 0).value)
  {
    match NextDecl(text, BaseDecl, 0)
    case None => ""
    case Some(d) => DeclIri(text, d)
  }

  /** `parsePrefixesAndBase(queryText)`. */
  method ParsePrefixesAndBase(text: string) returns (prefixes: Table<string>, baseIri: string)
    ensures prefixes == PrefixesOf(text) && baseIri == BaseOf(text)
  {
    prefixes := [];
    var pos := 0;
    var m := NextDecl(text, PrefixDecl, pos);
    while m.Some?
      invariant pos <= |text| && m == NextDecl(text, PrefixDecl, pos)
      invariant PutAll(prefixes, PrefixPairs(text, pos)) == PrefixesOf(text)
      decreases |text| - pos
    {
      var d := m.value;
      PutAllCons(prefixes, (Trim(d.pfx), DeclIri(text, d)), PrefixPairs(text, d.end));
      prefixes := Put(prefixes, Trim(d.pfx), DeclIri(text, d));
      pos := d.end;
      m := NextDecl(text, PrefixDecl, pos);
    }
    baseIri := "";
    var b := NextDecl(text, BaseDecl, 0);
    if b.Some? && b.value.nsStart < b.value.nsEnd {
      baseIri := DeclIri(text, b.value);
    }
  }

  /** A later PREFIX line for a label overrides an earlier one; a label never seen has no namespace. */
  lemma PrefixLastWins(text: string, pfx: string)
    ensures Get(PrefixesOf(text), pfx) == LastValue(PrefixPairs(text, 0), pfx)
    ensures DistinctKeys(PrefixesOf(text))
  {
    GetPutAll([], PrefixPairs(text, 0), pfx);
    PutAllDistinct([], PrefixPairs(text, 0));
  }

  /** Every label and namespace recorded comes from a PREFIX line and is trimmed. */
  lemma {:induction false} PrefixPairsTrimmed(text: string, pos: nat)
    requires pos <= |text|
    ensures forall p :: p in PrefixPairs(text, pos) ==> IsTrimmed(p.0) && IsTrimmed(p.1)
    decreases |text| - pos
  {
    match NextDecl(text, PrefixDecl, pos)
    case None =>
    case Some(d) =>
      PrefixPairsTrimmed(text, d.end);
  }

  /** The label of a PREFIX match is made of name characters, so it holds no `:`. */
  lemma MatchLabelPlain(text: string, s: nat)
    requires s <= |text| && MatchDeclAt(text, PrefixDecl, s).Some?
    ensures ':' !in MatchDeclAt(text, PrefixDecl, s).value.pfx
  {
    var a := SpacesEnd(text, s);
    var b := SpacesEnd(text, a + |Keyword(PrefixDecl)|);
    assert MatchDeclAt(text, PrefixDecl, s) == MatchLabelTail(text, s, b);
    LabelPlain(text, s, b);
  }

  lemma LabelPlain(text: string, s: nat, b: nat)
    requires s <= b <= |text| && MatchLabelTail(text, s, b).Some?
    ensures ':' !in MatchLabelTail(text, s, b).value.pfx
  {
    var c := if b < |text| && IsNameStart(text[b]) then SkipWhile(text, b + 1, IsNameChar) else b;
    if b < |text| && IsNameStart(text[b]) {
      SkipWhileHolds(text, b + 1, IsNameChar);
    }
    var pfx := text[b..c];
    assert MatchLabelTail(text, s, b).value.pfx == pfx;
    forall k | 0 <= k < |pfx| ensures pfx[k] != ':' {
      assert pfx[k] == text[b + k];
    }
  }

  /** Trimming takes a slice, so it adds no character. */
  lemma TrimWithout(x: string, ch: char)
    requires ch !in x
    ensures ch !in Trim(x)
  {
    var a := SpacesEnd(x, 0);
    var r := Trim(x);
    assert r == x[a..SpacesStart(x, a, |x|)];
    forall k | 0 <= k < |r| ensures r[k] != ch {
      assert r[k] == x[a + k];
    }
  }

  /** No label recorded from a PREFIX line holds a `:`. */
  lemma {:induction false} PrefixPairsPlain(text: string, pos: nat)
    requires pos <= |text|
    ensures forall p :: p in PrefixPairs(text, pos) ==> ':' !in p.0
    decreases |text| - pos
  {
    match NextDecl(text, PrefixDecl, pos)
    case None =>
    case Some(d) =>
      MatchLabelPlain(text, d.start);
      TrimWithout(d.pfx, ':');
      PrefixPairsPlain(text, d.end);
  }

  /** The prefix table a query declares has one entry per label, and no label holds a `:`. */
  lemma PrefixTableWellKeyed(text: string)
    ensures DistinctKeys(PrefixesOf(text))
    ensures forall k :: 0 <= k < |PrefixesOf(text)| ==> ':' !in PrefixesOf(text)[k].0
  {
    var t := PrefixesOf(text);
    PutAllDistinct([], PrefixPairs(text, 0));
    PutAllEntries([], PrefixPairs(text, 0));
    PrefixPairsPlain(text, 0);
    forall k | 0 <= k < |t| ensures ':' !in t[k].0 {
      assert t[k] in t;
    }
  }

  /**
   * What the `replace` callback returns for one match: the matched text, with
   * its first `<ns>` replaced by `<mapped>` when the trimmed IRI has an
   * entry in effect.
   */
  function DeclReplacement(text: string, d: DeclMatch, mapping: map<string, string>): (r: string)
    requires d.start <= d.end <= |text| && d.nsStart <= d.nsEnd <= |text|
    ensures !Effective(mapping, DeclIri(text, d)) ==> r == text[d.start..d.end]
  {
    var full := text[d.start..d.end];
    var ns := DeclIri(text, d);
    if Effective(mapping, ns) then ReplaceFirst(full, "<" + ns + ">", "<" + mapping[ns] + ">")
    else full
  }

  /** A keyword, in any letter case, holds no `>`. */
  lemma KeywordNoClose(text: string, kind: DeclKind, a: nat)
    requires a + |Keyword(kind)| <= |text|
    requires EqualsIgnoreCaseAscii(text[a..a + |Keyword(kind)|], Keyword(kind))
    ensures forall k :: a <= k < a + |Keyword(kind)| ==> text[k] != '>'
  {
    var kw := Keyword(kind);
    forall k | a <= k < a + |kw| ensures text[k] != '>' {
      assert ToLowerAsciiChar(text[a..a + |kw|][k - a]) == ToLowerAsciiChar(kw[k - a]);
      assert IsAsciiLower(ToLowerAsciiChar(kw[k - a]));
    }
  }

  /** A run of white space holds no `>`. */
  lemma SpacesNoClose(text: string, p: nat)
    requires p <= |text|
    ensures forall k :: p <= k < SpacesEnd(text, p) ==> text[k] != '>'
  {
    SpacesSkipped(text, p);
  }

  /** The optional label of a PREFIX line holds no `>`. */
  lemma LabelNoClose(text: string, b: nat)
    requires b <= |text|
    ensures var c := if b < |text| && IsNameStart(text[b]) then SkipWhile(text, b + 1, IsNameChar) else b;
      forall k :: b <= k < c ==> text[k] != '>'
  {
    if b < |text| && IsNameStart(text[b]) {
      SkipWhileHolds(text, b + 1, IsNameChar);
    }
  }

  /**
   * Before the `<` of a match there is no `>`: only blanks, the keyword,
   * blanks, and for PREFIX an optional label, `:` and blanks.
   */
  lemma BeforeOpenNoClose(text: string, kind: DeclKind, s: nat, k: nat)
    requires s <= |text| && MatchDeclAt(text, kind, s).Some?
    requires s <= k < MatchDeclAt(text, kind, s).value.nsStart - 1
    ensures text[k] != '>'
  {
    var a := SpacesEnd(text, s);
    var b := SpacesEnd(text, a + |Keyword(kind)|);
    if k < b {
      KeywordPartNoClose(text, kind, s);
    } else {
      assert kind == PrefixDecl;
      assert MatchDeclAt(text, kind, s) == MatchLabelTail(text, s, b);
      LabelPartNoClose(text, s, b, k);
    }
  }

  /** Blanks, the keyword and blanks hold no `>`. */
  lemma KeywordPartNoClose(text: string, kind: DeclKind, s: nat)
    requires s <= |text| && KeywordAt(text, kind, s)
    ensures var a := SpacesEnd(text, s);
      forall k :: s <= k < SpacesEnd(text, a + |Keyword(kind)|) ==> text[k] != '>'
  {
    var a := SpacesEnd(text, s);
    SpacesNoClose(text, s);
    KeywordNoClose(text, kind, a);
    SpacesNoClose(text, a + |Keyword(kind)|);
  }

  /** `BeforeOpenNoClose` from the label of a PREFIX line on. */
  lemma LabelPartNoClose(text: string, s: nat, b: nat, k: nat)
    requires s <= b <= |text| && MatchLabelTail(text, s, b).Some?
    requires b <= k < MatchLabelTail(text, s, b).value.nsStart - 1
    ensures text[k] != '>'
  {
    var c := if b < |text| && IsNameStart(text[b]) then SkipWhile(text, b + 1, IsNameChar) else b;
    assert c < |text| && text[c] == ':';
    if k < c {
      LabelNoClose(text, b);
    } else if k > c {
      SpacesNoClose(text, c + 1);
    }
  }

  /**
   * A match holds exactly one `>`, the one that closes its IRI: before it come
   * blanks, the keyword, blanks, an optional label, `:`, blanks, `<` and the
   * IRI, and after it only blanks.
   */
  lemma OneCloseInMatch(text: string, kind: DeclKind, s: nat)
    requires s <= |text| && MatchDeclAt(text, kind, s).Some?
    ensures var d := MatchDeclAt(text, kind, s).value;
      forall k :: s <= k < d.end && k != d.nsEnd ==> text[k] != '>'
  {
    var d := MatchDeclAt(text, kind, s).value;
    forall k | s <= k < d.end && k != d.nsEnd ensures text[k] != '>' {
      if k < d.nsStart - 1 {
        BeforeOpenNoClose(text, kind, s, k);
      } else if d.nsEnd < k {
        assert IsJsSpace(text[k]);
      }
    }
  }

  /**
   * The callback in the mapped case, when the IRI between the brackets carries
   * no blanks and the mapped IRI no `$`: the first `<ns>` of the line is the
   * bracketed IRI itself, so the mapped IRI takes its place and the rest of the
   * line is kept.
   */
  lemma DeclReplacementHit(text: string, kind: DeclKind, s: nat, mapping: map<string, string>)
    requires s <= |text| && MatchDeclAt(text, kind, s).Some?
    requires var d := MatchDeclAt(text, kind, s).value;
      var ns := DeclIri(text, d);
      ns == text[d.nsStart..d.nsEnd] && Effective(mapping, ns) && '$' !in mapping[ns]
    ensures var d := MatchDeclAt(text, kind, s).value;
      DeclReplacement(text, d, mapping)
        == text[d.start..d.nsStart] + mapping[DeclIri(text, d)] + text[d.nsEnd..d.end]
  {
    var d := MatchDeclAt(text, kind, s).value;
    OneCloseInMatch(text, kind, s);
    FirstIriOccurrence(text, d);
    ReplacementAtIri(text, d, mapping);
  }

  /** The callback once the searched `<ns>` is known to be found where the bracketed IRI is. */
  lemma ReplacementAtIri(text: string, d: DeclMatch, mapping: map<string, string>)
    requires d.start < d.nsStart <= d.nsEnd < d.end <= |text|
    requires text[d.nsStart - 1] == '<' && text[d.nsEnd] == '>'
    requires var ns := DeclIri(text, d);
      ns == text[d.nsStart..d.nsEnd] && Effective(mapping, ns) && '$' !in mapping[ns]
    requires IndexOf(text[d.start..d.end], "<" + DeclIri(text, d) + ">", 0) == d.nsStart - 1 - d.start
    ensures DeclReplacement(text, d, mapping)
        == text[d.start..d.nsStart] + mapping[DeclIri(text, d)] + text[d.nsEnd..d.end]
  {
    var ns := DeclIri(text, d);
    var m := mapping[ns];
    assert '$' !in "<" + m + ">";
    Rebracket(text, d, m);
  }

  /** Cutting out `<...>` and putting `<m>` in its place is putting `m` between the brackets. */
  lemma Rebracket(text: string, d: DeclMatch, m: string)
    requires d.start < d.nsStart <= d.nsEnd < d.end <= |text|
    requires text[d.nsStart - 1] == '<' && text[d.nsEnd] == '>'
    ensures var full := text[d.start..d.end];
      full[..d.nsStart - 1 - d.start] + ("<" + m + ">") + full[d.nsEnd + 1 - d.start..]
        == text[d.start..d.nsStart] + m + text[d.nsEnd..d.end]
  {
    var full := text[d.start..d.end];
    assert full[..d.nsStart - 1 - d.start] + "<" == text[d.start..d.nsStart];
    assert ">" + full[d.nsEnd + 1 - d.start..] == text[d.nsEnd..d.end];
  }

  /** In such a span, the first `<` + IRI + `>` is the bracketed IRI itself. */
  lemma FirstIriOccurrence(text: string, d: DeclMatch)
    requires d.start < d.nsStart <= d.nsEnd < d.end <= |text|
    requires text[d.nsStart - 1] == '<' && text[d.nsEnd] == '>'
    requires forall k :: d.start <= k < d.end && k != d.nsEnd ==> text[k] != '>'
    requires DeclIri(text, d) == text[d.nsStart..d.nsEnd]
    ensures IndexOf(text[d.start..d.end], "<" + DeclIri(text, d) + ">", 0) == d.nsStart - 1 - d.start
  {
    var full := text[d.start..d.end];
    var pat := "<" + DeclIri(text, d) + ">";
    var k0 := d.nsStart - 1 - d.start;
    IriOccursAt(text, d);
    forall j | 0 <= j < k0 + |pat| - 1 ensures full[j] != '>' {
      assert full[j] == text[d.start + j];
    }
    NoEarlierOccurrence(full, pat, k0);
    IndexOfIs(full, pat, k0);
  }

  /** The bracketed IRI, brackets included, sits where the match put it. */
  lemma IriOccursAt(text: string, d: DeclMatch)
    requires d.start < d.nsStart <= d.nsEnd < d.end <= |text|
    requires text[d.nsStart - 1] == '<' && text[d.nsEnd] == '>'
    requires DeclIri(text, d) == text[d.nsStart..d.nsEnd]
    ensures OccursAt(text[d.start..d.end], "<" + DeclIri(text, d) + ">", d.nsStart - 1 - d.start)
  {
    var full := text[d.start..d.end];
    var pat := "<" + DeclIri(text, d) + ">";
    var k0 := d.nsStart - 1 - d.start;
    assert pat == text[d.nsStart - 1..d.nsEnd + 1] by {
      assert text[d.nsStart - 1..d.nsEnd + 1]
          == [text[d.nsStart - 1]] + text[d.nsStart..d.nsEnd] + [text[d.nsEnd]];
    }
    assert full[k0..k0 + |pat|] == text[d.nsStart - 1..d.nsEnd + 1];
  }

  /** A pattern ending in `>` cannot start before `k0` when no `>` comes before its end at `k0`. */
  lemma NoEarlierOccurrence(full: string, pat: string, k0: nat)
    requires |pat| > 0 && pat[|pat| - 1] == '>' && k0 + |pat| <= |full|
    requires forall j :: 0 <= j < k0 + |pat| - 1 ==> full[j] != '>'
    ensures forall k :: 0 <= k < k0 ==> !OccursAt(full, pat, k)
  {
    forall k | 0 <= k < k0 ensures !OccursAt(full, pat, k) {
      CharMismatch(full, pat, k, |pat| - 1);
    }
  }

  /**
   * The mapped IRI is a `replace` template, not literal text: a mapped IRI
   * `$&` stands for the matched `<ns>`, so the brackets end up holding `<ns>`
   * itself instead of a new IRI.
   */
  lemma DeclReplacementDollar(text: string, kind: DeclKind, s: nat, mapping: map<string, string>)
    requires s <= |text| && MatchDeclAt(text, kind, s).Some?
    requires var d := MatchDeclAt(text, kind, s).value;
      var ns := DeclIri(text, d);
      ns == text[d.nsStart..d.nsEnd] && Effective(mapping, ns) && mapping[ns] == "$&"
    ensures var d := MatchDeclAt(text, kind, s).value;
      DeclReplacement(text, d, mapping)
        == text[d.start..d.nsStart] + ("<" + DeclIri(text, d) + ">") + text[d.nsEnd..d.end]
  {
    var d := MatchDeclAt(text, kind, s).value;
    OneCloseInMatch(text, kind, s);
    FirstIriOccurrence(text, d);
    DollarAtIri(text, d, mapping);
  }

  /** `DeclReplacementDollar` once the searched `<ns>` is known to be found where the bracketed IRI is. */
  lemma DollarAtIri(text: string, d: DeclMatch, mapping: map<string, string>)
    requires d.start < d.nsStart <= d.nsEnd < d.end <= |text|
    requires text[d.nsStart - 1] == '<' && text[d.nsEnd] == '>'
    requires var ns := DeclIri(text, d);
      ns == text[d.nsStart..d.nsEnd] && Effective(mapping, ns) && mapping[ns] == "$&"
    requires IndexOf(text[d.start..d.end], "<" + DeclIri(text, d) + ">", 0) == d.nsStart - 1 - d.start
    ensures DeclReplacement(text, d, mapping)
        == text[d.start..d.nsStart] + ("<" + DeclIri(text, d) + ">") + text[d.nsEnd..d.end]
  {
    var ns := DeclIri(text, d);
    var full := text[d.start..d.end];
    var pat := "<" + ns + ">";
    var k0 := d.nsStart - 1 - d.start;
    MatchedTemplate(pat, full[..k0], full[k0 + |pat|..]);
    assert "<" + mapping[ns] + ">" == "<$&>";
    assert DeclReplacement(text, d, mapping) == full[..k0] + ("<" + pat + ">") + full[k0 + |pat|..];
    Rebracket(text, d, pat);
  }

  /** The template `<$&>` gives the matched text between brackets. */
  lemma MatchedTemplate(matched: string, before: string, after: string)
    ensures Substitution("<$&>", matched, before, after) == "<" + matched + ">"
  {
    assert "<$&>"[1..] == "$&>" && "$&>"[2..] == ">" && ">"[1..] == [];
    assert Substitution(">", matched, before, after) == ">";
  }

  /**
   * The callback when blanks surround the IRI inside the brackets (`< ns >`):
   * the searched `<ns>` cannot occur in the line, so the line is kept whatever
   * the mapping says.
   */
  lemma DeclReplacementPadded(text: string, kind: DeclKind, s: nat, mapping: map<string, string>)
    requires s <= |text| && MatchDeclAt(text, kind, s).Some?
    requires var d := MatchDeclAt(text, kind, s).value;
      DeclIri(text, d) != text[d.nsStart..d.nsEnd]
    ensures var d := MatchDeclAt(text, kind, s).value;
      DeclReplacement(text, d, mapping) == text[d.start..d.end]
  {
    var d := MatchDeclAt(text, kind, s).value;
    OneCloseInMatch(text, kind, s);
    PaddedIriAbsent(text, d);
  }

  /** In a span bracketed like a match whose IRI is padded with blanks, `<` + trimmed IRI + `>` occurs nowhere. */
  lemma PaddedIriAbsent(text: string, d: DeclMatch)
    requires d.start < d.nsStart <= d.nsEnd < d.end <= |text|
    requires text[d.nsStart - 1] == '<' && text[d.nsEnd] == '>'
    requires forall k :: d.start <= k < d.end && k != d.nsEnd ==> text[k] != '>'
    requires DeclIri(text, d) != text[d.nsStart..d.nsEnd]
    ensures IndexOf(text[d.start..d.end], "<" + DeclIri(text, d) + ">", 0) == -1
  {
    var raw := text[d.nsStart..d.nsEnd];
    var ns := DeclIri(text, d);
    var full := text[d.start..d.end];
    var pat := "<" + ns + ">";
    var o, n := d.nsStart - d.start, d.nsEnd - d.nsStart;
    var i := SpacesEnd(raw, 0);
    var j := SpacesStart(raw, i, |raw|);
    TrimPadding(raw);
    assert |pat| == j - i + 2 && pat[0] == '<' && pat[|pat| - 1] == '>';
    assert !IsJsSpace(pat[|pat| - 2]) by {
      if ns != [] {
        assert pat[|pat| - 2] == ns[|ns| - 1];
      }
    }
    forall k | 0 <= k < |full| && k != o + n ensures full[k] != '>' {
      assert full[k] == text[d.start + k];
    }
    assert 0 < i ==> full[o + i - 1] == raw[i - 1];
    assert j < n ==> full[o + n - 1] == raw[n - 1];
    NoBracketedTrim(full, o, n, i, j, pat);
    assert IndexOf(full, pat, 0) == -1;
  }

  /** Trimming cuts `raw` to `raw[i..j]`; when that changes it, a blank goes at one end at least. */
  lemma TrimPadding(raw: string)
    ensures var i := SpacesEnd(raw, 0);
      var j := SpacesStart(raw, i, |raw|);
      && Trim(raw) == raw[i..j]
      && (0 < i ==> IsJsSpace(raw[i - 1]))
      && (j < |raw| ==> IsJsSpace(raw[|raw| - 1]))
      && (Trim(raw) != raw ==> 0 < i || j < |raw|)
  {
    var i := SpacesEnd(raw, 0);
    var j := SpacesStart(raw, i, |raw|);
    assert raw[0..|raw|] == raw;
    SpacesSkipped(raw, 0);
    SpacesStartSkipped(raw, i, |raw|);
  }

  /**
   * With one `>` in `full`, at `o + n`, the pattern `<` + (a trimmed part of
   * `full[o..o + n]` that drops a blank at one end at least) + `>` occurs
   * nowhere.
   */
  lemma NoBracketedTrim(full: string, o: nat, n: nat, i: nat, j: nat, pat: string)
    requires 0 < o && o + n < |full| && full[o + n] == '>'
    requires forall k :: 0 <= k < |full| && k != o + n ==> full[k] != '>'
    requires i <= j <= n && (0 < i || j < n)
    requires 0 < i ==> IsJsSpace(full[o + i - 1])
    requires j < n ==> IsJsSpace(full[o + n - 1])
    requires |pat| == j - i + 2 && pat[0] == '<' && pat[|pat| - 1] == '>' && !IsJsSpace(pat[|pat| - 2])
    ensures forall k :: 0 <= k ==> !OccursAt(full, pat, k)
  {
    forall k | 0 <= k ensures !OccursAt(full, pat, k) {
      if k + |pat| <= |full| {
        var e := k + |pat| - 1;
        if e != o + n {
          CharMismatch(full, pat, k, |pat| - 1);
        } else if j < n {
          CharMismatch(full, pat, k, |pat| - 2);
        } else {
          assert k == o + i - 1;
          CharMismatch(full, pat, k, 0);
        }
      }
    }
  }

  /** `text.replace(re, callback)` from `pos` on: unmatched text is kept, each match becomes its replacement. */
  function ReplaceDeclsFrom(text: string, kind: DeclKind, mapping: map<string, string>, pos: nat): string
    requires pos <= |text|
    decreases |text| - pos
  {
    match NextDecl(text, kind, pos)
    case None => text[pos..]
    case Some(d) => text[pos..d.start] + DeclReplacement(text, d, mapping) + ReplaceDeclsFrom(text, kind, mapping, d.end)
  }

  function ReplaceDecls(text: string, kind: DeclKind, mapping: map<string, string>): string {
    ReplaceDeclsFrom(text, kind, mapping, 0)
  }

  /** Declarations whose IRI has no entry in effect come out as they went in. */
  lemma {:induction false} ReplaceDeclsKeeps(text: string, kind: DeclKind, mapping: map<string, string>, pos: nat)
    requires pos <= |text|
    requires forall s :: pos <= s <= |text| && MatchesAt(text, kind, s) ==>
               !Effective(mapping, DeclIri(text, MatchDeclAt(text, kind, s).value))
    ensures ReplaceDeclsFrom(text, kind, mapping, pos) == text[pos..]
    decreases |text| - pos
  {
    match NextDecl(text, kind, pos)
    case None =>
    case Some(d) =>
      ReplaceDeclsKeeps(text, kind, mapping, d.end);
      assert DeclReplacement(text, d, mapping) == text[d.start..d.end];
      SplitThree(text, pos, d.start, d.end);
  }

  /** With no entry in effect, the declaration phase changes nothing. */
  lemma ReplaceDeclsNoOp(text: string, kind: DeclKind, mapping: map<string, string>)
    requires NoEffectiveEntry(mapping)
    ensures ReplaceDecls(text, kind, mapping) == text
  {
    ReplaceDeclsKeeps(text, kind, mapping, 0);
  }

  lemma SplitThree(text: string, a: nat, b: nat, c: nat)
    requires a <= b <= c <= |text|
    ensures text[a..] == text[a..b] + text[b..c] + text[c..]
  {}
}
