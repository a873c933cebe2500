/**
 * The SPARQL rewriting path: `expandPrefixedName`, `chooseQNameOrIri`,
 * `rewriteBody` (the scanner's state machine again, now copying every
 * character it consumes to an output string and substituting mapped IRIs and
 * prefixed names) and `rewriteSparqlQuery` (declaration lines first, then the
 * body).
 */
module SparqlRewrite {
  import opened Basics
  import opened JsString
  import opened OrderedMap
  import opened MappingTable
  import opened SparqlLexer
  import opened SparqlDecls

  /**
   * `expandPrefixedName(token, prefixes)`: the namespace of the label before the
   * first `:` followed by the text after it, or empty when the token has no
   * `:` or the label has no non-empty namespace.
   */
  function ExpandPrefixedName(token: string, prefixes: Table<string>): (r: string)
    ensures ':' !in token ==> r == ""
    ensures ':' in token ==>
      var idx := IndexOfChar(token, ':', 0);
      0 <= idx < |token| && token[idx] == ':' && ':' !in token[..idx]
      && match Get(prefixes, token[..idx])
         case None => r == ""
         case Some(ns) => r == (if ns == "" then "" else ns + token[idx + 1..])
  {
    var idx := IndexOfChar(token, ':', 0);
    IndexOfCharFirst(token, ':', 0);
    if idx < 0 then ""
    else
      assert token[idx] == ':';
      match Get(prefixes, token[..idx])
      case None => ""
      case Some(ns) => if ns == "" then "" else ns + token[idx + 1..]
  }

  /** `/^[A-Za-z0-9_\-\.]+$/`: a local part that is safe to print after `prefix:`. */
  predicate SafeLocal(local: string) {
    |local| > 0 && forall k :: 0 <= k < |local| ==> IsLocalChar(local[k])
  }

  /** Entry `k` can abbreviate `iri`: a non-empty label whose namespace starts `iri` and leaves a safe local part. */
  predicate Compacts(prefixes: Table<string>, k: nat, iri: string)
    requires k < |prefixes|
  {
    prefixes[k].0 != "" && StartsWith(iri, prefixes[k].1) && SafeLocal(iri[|prefixes[k].1|..])
  }

  /** The first entry at or after `from` that can abbreviate `iri`, or -1. */
  function FirstCompacting(prefixes: Table<string>, iri: string, from: nat): (r: int)
    requires from <= |prefixes|
    ensures r == -1 || (from <= r < |prefixes| && Compacts(prefixes, r, iri))
    ensures forall k :: from <= k < |prefixes| && (r == -1 || k < r) ==> !Compacts(prefixes, k, iri)
    decreases |prefixes| - from
  {
    if from == |prefixes| then -1
    else if Compacts(prefixes, from, iri) then from
    else FirstCompacting(prefixes, iri, from + 1)
  }

  /**
   * `chooseQNameOrIri(newIri, prefixes, allowQName)`: `<newIri>`, or, when
   * abbreviation is allowed and some entry can abbreviate it, `label:local`
   * from the first such entry in insertion order.
   */
  function ChooseQNameOrIri(newIri: string, prefixes: Table<string>, allowQName: bool): (r: string)
    ensures !allowQName ==> r == "<" + newIri + ">"
    ensures r == "<" + newIri + ">" <==> !allowQName || FirstCompacting(prefixes, newIri, 0) == -1
    ensures r != "<" + newIri + ">" ==>
      var k := FirstCompacting(prefixes, newIri, 0);
      r == prefixes[k].0 + ":" + newIri[|prefixes[k].1|..]
  {
    if !allowQName then "<" + newIri + ">"
    else
      var k := FirstCompacting(prefixes, newIri, 0);
      if k < 0 then "<" + newIri + ">"
      else
        var r := prefixes[k].0 + ":" + newIri[|prefixes[k].1|..];
        assert r[|r| - 1] != '>' by {
          var local := newIri[|prefixes[k].1|..];
          assert r[|r| - 1] == local[|local| - 1];
          assert !IsLocalChar('>');
        }
        r
  }

  /**
   * Distinct labels without `:`, each with a non-empty namespace. A table parsed
   * from PREFIX lines always has the first two (`PrefixTableWellKeyed`) but
   * not the third: `PREFIX p: < >` records the empty namespace.
   */
  predicate WellFormedPrefixes(prefixes: Table<string>) {
    DistinctKeys(prefixes)
    && (forall k :: 0 <= k < |prefixes| ==> ':' !in prefixes[k].0 && prefixes[k].1 != "")
  }

  /** An abbreviation expands back to the IRI it abbreviates. */
  lemma ChooseThenExpand(newIri: string, prefixes: Table<string>, allowQName: bool)
    requires WellFormedPrefixes(prefixes)
    ensures var r := ChooseQNameOrIri(newIri, prefixes, allowQName);
            r == "<" + newIri + ">" || ExpandPrefixedName(r, prefixes) == newIri
  {
    var r := ChooseQNameOrIri(newIri, prefixes, allowQName);
    if r != "<" + newIri + ">" {
      var k := FirstCompacting(prefixes, newIri, 0);
      var (l, ns) := prefixes[k];
      assert r == l + ":" + newIri[|ns|..];
      assert r[|l|] == ':';
      assert IndexOfChar(r, ':', 0) == |l| by {
        forall m | 0 <= m < |l| ensures r[m] != ':' {
          assert r[m] == l[m];
        }
        IndexOfCharIs(r, ':', 0, |l|);
      }
      assert r[..|l|] == l;
      FindAt(prefixes, l, k);
      assert r[|l| + 1..] == newIri[|ns|..];
      assert ns + newIri[|ns|..] == newIri;
    }
  }

  /**
   * The round trip on the prefixes a query declares: as long as none of them
   * was declared with a blank IRI, an abbreviation written with them expands
   * back, with them, to the IRI it abbreviates.
   */
  lemma ChooseThenExpandParsed(newIri: string, text: string, allowQName: bool)
    requires forall k :: 0 <= k < |PrefixesOf(text)| ==> PrefixesOf(text)[k].1 != ""
    ensures var r := ChooseQNameOrIri(newIri, PrefixesOf(text), allowQName);
            r == "<" + newIri + ">" || ExpandPrefixedName(r, PrefixesOf(text)) == newIri
  {
    PrefixTableWellKeyed(text);
    ChooseThenExpand(newIri, PrefixesOf(text), allowQName);
  }

  // ---------------------------------------------------------------- rewriteBody

  /** The inputs `rewriteBody` reads besides the text. */
  datatype Env = Env(
    originalPrefixes: Table<string>,  // expand names with these
    updatedPrefixes: Table<string>,   // abbreviate new IRIs with these
    mapping: map<string, string>,
    useNativePrefixes: bool)

  datatype BodyState = BodyState(
    i: nat,
    atLineStart: bool,
    skipQNames: bool,           // the current line's first word is PREFIX or BASE
    inComment: bool,
    inS: bool, inD: bool,
    inLS: bool, inLD: bool,
    out: string)

  const BodyStart := BodyState(0, true, false, false, false, false, false, false, "")

  predicate Outside(st: BodyState) {
    !st.inComment && !st.inS && !st.inD && !st.inLS && !st.inLD
  }

  /** `rest` starts with the word `kw` in any letter case, followed by a word boundary. */
  predicate StartsWithWord(rest: string, kw: string) {
    |kw| <= |rest| && EqualsIgnoreCaseAscii(rest[..|kw|], kw)
    && (|rest| == |kw| || !IsWordChar(rest[|kw|]))
  }

  /** `/^PREFIX\b/i` or `/^BASE\b/i` on the text from `i` with leading white space removed. */
  predicate LineSkip(text: string, i: nat)
    requires i <= |text|
  {
    var rest := TrimStart(text[i..]);
    StartsWithWord(rest, "PREFIX") || StartsWithWord(rest, "BASE")
  }

  /** The `<...>` at `st.i` was written out as `<mapped>`. */
  predicate IriRewritten(text: string, env: Env, st: BodyState, r: BodyState)
    requires st.i < |text|
  {
    Outside(st) && text[st.i] == '<'
    && var j := IndexOfChar(text, '>', st.i + 1);
    j >= 0 && r.i == j + 1
    && var iri := Trim(text[st.i + 1..j]);
    Effective(env.mapping, iri) && r.out == st.out + ("<" + env.mapping[iri] + ">")
  }

  /** The prefixed name at `st.i` was written out as the mapped IRI, abbreviated if possible. */
  predicate NameRewritten(text: string, env: Env, st: BodyState, r: BodyState)
    requires st.i < r.i <= |text|
  {
    Outside(st) && PrefixedNameEnd(text, st.i) == Some(r.i)
    && var tok := text[st.i..r.i];
    !StartsWith(tok, "http:") && !StartsWith(tok, "https:")
    && var e := ExpandPrefixedName(tok, env.originalPrefixes);
    e != "" && Effective(env.mapping, e)
    && r.out == st.out + ChooseQNameOrIri(env.mapping[e], env.updatedPrefixes, env.useNativePrefixes)
  }

  /** The copying turns: inside a comment or a string, or at a quote that opens or closes one. */
  function LiteralStep(text: string, st: BodyState): (r: Option<BodyState>)
    requires st.i < |text| && !IsNL(text[st.i])
    ensures r.Some? ==> st.i < r.value.i <= |text| && r.value.out == st.out + text[st.i..r.value.i]
    ensures r.Some? ==> r.value.atLineStart == st.atLineStart && r.value.skipQNames == st.skipQNames
    ensures st.inComment ==> r.Some? && r.value.inComment
    ensures r.None? ==> Outside(st)
  {
    var i := st.i;
    var c := text[i];
    assert text[i..i + 1] == [c];
    var inComment := st.inComment || (!st.inS && !st.inD && !st.inLS && !st.inLD && c == '#');
    if inComment then
      Some(st.(inComment := !IsNL(c), out := st.out + [c], i := i + 1))
    else if !st.inS && !st.inD && OccursAt(text, "'''", i) then
      Some(st.(inLS := !st.inLS, out := st.out + text[i..i + 3], i := i + 3))
    else if !st.inS && !st.inD && OccursAt(text, "\"\"\"", i) then
      Some(st.(inLD := !st.inLD, out := st.out + text[i..i + 3], i := i + 3))
    else if st.inLS || st.inLD then
      Some(st.(out := st.out + [c], i := i + 1))
    else if !st.inD && c == '\'' && !EscapedAt(text, i) then
      Some(st.(inS := !st.inS, out := st.out + [c], i := i + 1))
    else if !st.inS && c == '"' && !EscapedAt(text, i) then
      Some(st.(inD := !st.inD, out := st.out + [c], i := i + 1))
    else if st.inS || st.inD then
      Some(st.(out := st.out + [c], i := i + 1))
    else
      None
  }

  /** What a `<...>` reference from `i` to the `>` at `j` is written as: `<mapped>` when its trimmed text is mapped. */
  function IriPiece(text: string, mapping: map<string, string>, i: nat, j: nat): string
    requires i < j < |text|
  {
    var iri := Trim(text[i + 1..j]);
    if Effective(mapping, iri) then "<" + mapping[iri] + ">" else text[i..j + 1]
  }

  /** What a prefixed-name token is written as: the mapped IRI of its expansion, abbreviated if possible. */
  function NamePiece(env: Env, tok: string): string {
    if StartsWith(tok, "http:") || StartsWith(tok, "https:") then tok
    else
      var e := ExpandPrefixedName(tok, env.originalPrefixes);
      if e != "" && Effective(env.mapping, e)
      then ChooseQNameOrIri(env.mapping[e], env.updatedPrefixes, env.useNativePrefixes)
      else tok
  }

  /** Where a turn outside comments and strings stops: after a `<...>` reference, a prefixed name, or one other character. */
  function TokenEnd(text: string, i: nat, skipQNames: bool): (e: nat)
    requires i < |text|
    ensures i < e <= |text|
  {
    if text[i] == '<' && IndexOfChar(text, '>', i + 1) >= 0 then IndexOfChar(text, '>', i + 1) + 1
    else if !skipQNames && PrefixedNameEnd(text, i).Some? then PrefixedNameEnd(text, i).value
    else i + 1
  }

  /** What such a turn writes. */
  function TokenOut(text: string, env: Env, i: nat, skipQNames: bool): string
    requires i < |text|
  {
    if text[i] == '<' && IndexOfChar(text, '>', i + 1) >= 0 then IriPiece(text, env.mapping, i, IndexOfChar(text, '>', i + 1))
    else if !skipQNames && PrefixedNameEnd(text, i).Some? then NamePiece(env, text[i..PrefixedNameEnd(text, i).value])
    else [text[i]]
  }

  /** The turns outside comments and strings: a `<...>` reference, a prefixed name, or one other character. */
  function TokenStep(text: string, env: Env, st: BodyState): (r: BodyState)
    requires st.i < |text|
    ensures st.i < r.i <= |text|
    ensures r == st.(out := r.out, i := r.i)
  {
    st.(out := st.out + TokenOut(text, env, st.i, st.skipQNames), i := TokenEnd(text, st.i, st.skipQNames))
  }

  /** The line-start check of `rewriteBody`: at the start of a line, decide whether its names are left alone. */
  function AtLine(text: string, st: BodyState): (r: BodyState)
    requires st.i <= |text|
  {
    if st.atLineStart then st.(skipQNames := LineSkip(text, st.i), atLineStart := false) else st
  }

  /** One turn of the rewriting loop. */
  function BodyStep(text: string, env: Env, st0: BodyState): (r: BodyState)
    requires st0.i < |text|
    ensures st0.i < r.i <= |text|
  {
    var st := AtLine(text, st0);
    if IsNL(text[st.i]) then
      st.(atLineStart := true, out := st.out + [text[st.i]], i := st.i + 1)
    else match LiteralStep(text, st)
      case Some(r) => r
      case None => TokenStep(text, env, st)
  }

  /** A token turn copies what it consumed unless it substitutes a mapped `<...>` or prefixed name. */
  lemma TokenStepCases(text: string, env: Env, st: BodyState)
    requires st.i < |text| && Outside(st)
    ensures var r := TokenStep(text, env, st);
      && (r.out == st.out + text[st.i..r.i] || IriRewritten(text, env, st, r) || NameRewritten(text, env, st, r))
      && (st.skipQNames ==> r.out == st.out + text[st.i..r.i] || IriRewritten(text, env, st, r))
  {
    var i := st.i;
    TokenStepShape(text, env, st);
    if text[i] == '<' && IndexOfChar(text, '>', i + 1) >= 0 {
      IriCase(text, env, st, IndexOfChar(text, '>', i + 1));
    } else if !st.skipQNames && PrefixedNameEnd(text, i).Some? {
      NameCase(text, env, st, PrefixedNameEnd(text, i).value);
    } else {
      assert text[i..i + 1] == [text[i]];
    }
  }

  lemma IriCase(text: string, env: Env, st: BodyState, j: nat)
    requires st.i < j < |text| && Outside(st) && text[st.i] == '<' && j == IndexOfChar(text, '>', st.i + 1)
    ensures var r := st.(out := st.out + IriPiece(text, env.mapping, st.i, j), i := j + 1);
            r.out == st.out + text[st.i..r.i] || IriRewritten(text, env, st, r)
  {
    var r := st.(out := st.out + IriPiece(text, env.mapping, st.i, j), i := j + 1);
    if Effective(env.mapping, Trim(text[st.i + 1..j])) {
      IriMapped(text, env, st, j);
      assert IriRewritten(text, env, st, r);
    } else {
      IriKept(text, env.mapping, st.i, j);
      assert r.out == st.out + text[st.i..r.i];
    }
  }

  lemma IriMapped(text: string, env: Env, st: BodyState, j: nat)
    requires st.i < j < |text| && Outside(st) && text[st.i] == '<' && j == IndexOfChar(text, '>', st.i + 1)
    requires Effective(env.mapping, Trim(text[st.i + 1..j]))
    ensures IriRewritten(text, env, st, st.(out := st.out + IriPiece(text, env.mapping, st.i, j), i := j + 1))
  {}

  lemma IriKept(text: string, mapping: map<string, string>, i: nat, j: nat)
    requires i < j < |text| && !Effective(mapping, Trim(text[i + 1..j]))
    ensures IriPiece(text, mapping, i, j) == text[i..j + 1]
  {}

  lemma NameCase(text: string, env: Env, st: BodyState, p: nat)
    requires st.i < |text| && Outside(st) && PrefixedNameEnd(text, st.i) == Some(p)
    ensures var r := st.(out := st.out + NamePiece(env, text[st.i..p]), i := p);
            r.out == st.out + text[st.i..r.i] || NameRewritten(text, env, st, r)
  {}

  /**
   * What one turn writes: the characters it consumed, unchanged, unless it is
   * the substitution of a mapped `<...>` or of a mapped prefixed name. Inside
   * a comment it always copies and the comment never ends, and on a line whose
   * first word is PREFIX or BASE only `<...>` references may be substituted and
   * the line stays marked until the next line break.
   */
  lemma BodyStepCases(text: string, env: Env, st: BodyState)
    requires st.i < |text|
    ensures var r := BodyStep(text, env, st);
      && (r.out == st.out + text[st.i..r.i] || IriRewritten(text, env, st, r) || NameRewritten(text, env, st, r))
      && (st.inComment ==> r.inComment && r.out == st.out + text[st.i..r.i])
      && ((st.atLineStart && LineSkip(text, st.i)) || (!st.atLineStart && st.skipQNames) ==>
            (r.out == st.out + text[st.i..r.i] || IriRewritten(text, env, st, r)) && (r.atLineStart || r.skipQNames))
  {
    var s1 := AtLine(text, st);
    if IsNL(text[st.i]) {
      LineBreakTurn(text, env, st);
    } else if LiteralStep(text, s1).None? {
      TokenTurn(text, env, st, s1);
    } else {
      LiteralTurn(text, env, st, s1);
    }
  }

  /** The line-break turn of `BodyStepCases`. */
  lemma LineBreakTurn(text: string, env: Env, st: BodyState)
    requires st.i < |text| && IsNL(text[st.i])
    ensures var r := BodyStep(text, env, st);
      r.out == st.out + text[st.i..r.i] && r.inComment == st.inComment && r.atLineStart
  {
    assert text[st.i..st.i + 1] == [text[st.i]];
  }

  /** The copying turn of `BodyStepCases`, on the state after the line-start check. */
  lemma LiteralTurn(text: string, env: Env, st: BodyState, s1: BodyState)
    requires st.i < |text| && s1 == AtLine(text, st) && !IsNL(text[st.i]) && LiteralStep(text, s1).Some?
    ensures var r := BodyStep(text, env, st);
      && r.out == st.out + text[st.i..r.i]
      && (st.inComment ==> r.inComment)
      && ((st.atLineStart && LineSkip(text, st.i)) || (!st.atLineStart && st.skipQNames) ==> r.skipQNames)
  {
    assert BodyStep(text, env, st) == LiteralStep(text, s1).value;
  }

  /** The token turn of `BodyStepCases`, on the state after the line-start check. */
  lemma TokenTurn(text: string, env: Env, st: BodyState, s1: BodyState)
    requires st.i < |text| && s1 == AtLine(text, st) && !IsNL(text[st.i]) && LiteralStep(text, s1).None?
    ensures var r := BodyStep(text, env, st);
      && (r.out == st.out + text[st.i..r.i] || IriRewritten(text, env, st, r) || NameRewritten(text, env, st, r))
      && ((st.atLineStart && LineSkip(text, st.i)) || (!st.atLineStart && st.skipQNames) ==>
            (r.out == st.out + text[st.i..r.i] || IriRewritten(text, env, st, r)) && r.skipQNames)
  {
    var r := TokenStep(text, env, s1);
    assert BodyStep(text, env, st) == r;
    TokenStepCases(text, env, s1);
    assert IriRewritten(text, env, s1, r) == IriRewritten(text, env, st, r);
    assert NameRewritten(text, env, s1, r) == NameRewritten(text, env, st, r);
  }

  /** The loop run to the end of the text: the final output. */
  function BodyFrom(text: string, env: Env, st: BodyState): string
    requires st.i <= |text|
    decreases |text| - st.i
  {
    if st.i == |text| then st.out else BodyFrom(text, env, BodyStep(text, env, st))
  }

  /**
   * `rewriteBody(text, originalPrefixes, updatedPrefixes, mapping, useNativePrefixes)`.
   * The loop's variables (`i`, `out`, the line-start flags and the five
   * comment and string flags) are kept together in one `BodyState`.
   */
  method RewriteBody(text: string, originalPrefixes: Table<string>, updatedPrefixes: Table<string>,
                     mapping: map<string, string>, useNativePrefixes: bool) returns (out: string)
    ensures out == BodyFrom(text, Env(originalPrefixes, updatedPrefixes, mapping, useNativePrefixes), BodyStart)
  {
    ghost var env := Env(originalPrefixes, updatedPrefixes, mapping, useNativePrefixes);
    var st := BodyStart;
    while st.i < |text|
      invariant st.i <= |text|
      invariant BodyFrom(text, env, st) == BodyFrom(text, env, BodyStart)
      decreases |text| - st.i
    {
      st := BodyTurn(text, originalPrefixes, updatedPrefixes, mapping, useNativePrefixes, st);
    }
    out := st.out;
  }

  /** One pass of the loop body. */
  method BodyTurn(text: string, originalPrefixes: Table<string>, updatedPrefixes: Table<string>,
                  mapping: map<string, string>, useNativePrefixes: bool, st0: BodyState) returns (r: BodyState)
    requires st0.i < |text|
    ensures r == BodyStep(text, Env(originalPrefixes, updatedPrefixes, mapping, useNativePrefixes), st0)
  {
    var st := st0;
    if st.atLineStart {
      st := st.(skipQNames := LineSkip(text, st.i), atLineStart := false);
    }
    var c := text[st.i];
    if IsNL(c) {
      r := st.(atLineStart := true, out := st.out + [c], i := st.i + 1);
    } else {
      BodyStepVia(text, Env(originalPrefixes, updatedPrefixes, mapping, useNativePrefixes), st0, st);
      var lit := CopyTurn(text, st);
      if lit.Some? {
        r := lit.value;
      } else {
        var out, i := RewriteToken(text, originalPrefixes, updatedPrefixes, mapping, useNativePrefixes,
                                   st.skipQNames, st.i, st.out);
        r := st.(out := out, i := i);
      }
    }
  }

  /** A turn that is not at a line break is the copying turn if there is one, and the token turn otherwise. */
  lemma BodyStepVia(text: string, env: Env, st0: BodyState, st: BodyState)
    requires st0.i < |text| && st == AtLine(text, st0) && !IsNL(text[st0.i])
    ensures BodyStep(text, env, st0) == if LiteralStep(text, st).Some? then LiteralStep(text, st).value else TokenStep(text, env, st)
  {}

  /** The part of the loop body that copies comments and strings and tracks the quotes. */
  method CopyTurn(text: string, st: BodyState) returns (r: Option<BodyState>)
    requires st.i < |text| && !IsNL(text[st.i])
    ensures r == LiteralStep(text, st)
  {
    var i, c := st.i, text[st.i];
    var inComment := st.inComment;
    if !st.inS && !st.inD && !st.inLS && !st.inLD && c == '#' { inComment := true; }
    if inComment {
      r := Some(st.(inComment := !IsNL(c), out := st.out + [c], i := i + 1));
    } else if !st.inS && !st.inD && OccursAt(text, "'''", i) {
      r := Some(st.(inLS := !st.inLS, out := st.out + text[i..i + 3], i := i + 3));
    } else if !st.inS && !st.inD && OccursAt(text, "\"\"\"", i) {
      r := Some(st.(inLD := !st.inLD, out := st.out + text[i..i + 3], i := i + 3));
    } else if st.inLS || st.inLD {
      r := Some(st.(out := st.out + [c], i := i + 1));
    } else if !st.inD && c == '\'' && !EscapedAt(text, i) {
      r := Some(st.(inS := !st.inS, out := st.out + [c], i := i + 1));
    } else if !st.inS && c == '"' && !EscapedAt(text, i) {
      r := Some(st.(inD := !st.inD, out := st.out + [c], i := i + 1));
    } else if st.inS || st.inD {
      r := Some(st.(out := st.out + [c], i := i + 1));
    } else {
      r := None;
    }
  }

  /** The part of the loop body that handles `<...>` references and prefixed names. */
  method RewriteToken(text: string, originalPrefixes: Table<string>, updatedPrefixes: Table<string>,
                      mapping: map<string, string>, useNativePrefixes: bool,
                      skipQNames: bool, i: nat, out: string) returns (out': string, i': nat)
    requires i < |text|
    ensures var st := BodyState(i, false, skipQNames, false, false, false, false, false, out);
            var r := TokenStep(text, Env(originalPrefixes, updatedPrefixes, mapping, useNativePrefixes), st);
            out' == r.out && i' == r.i
  {
    ghost var env := Env(originalPrefixes, updatedPrefixes, mapping, useNativePrefixes);
    ghost var st := BodyState(i, false, skipQNames, false, false, false, false, false, out);
    var c := text[i];
    if c == '<' && IndexOfChar(text, '>', i + 1) >= 0 {
      var j := IndexOfChar(text, '>', i + 1);
      var piece := IriReplacement(text, mapping, i, j);
      out' := out + piece;
      i' := j + 1;
      TokenStepShape(text, env, st);
    } else if !skipQNames && PrefixedNameEnd(text, i).Some? {
      var p := PrefixedNameEnd(text, i).value;
      var tok := text[i..p];
      var piece := NameReplacement(tok, originalPrefixes, updatedPrefixes, mapping, useNativePrefixes);
      out' := out + piece;
      i' := p;
      TokenStepShape(text, env, st);
    } else {
      out' := out + [c];
      i' := i + 1;
      TokenStepShape(text, env, st);
    }
  }

  /** `TokenStep` branch by branch, so that callers need not unfold it. */
  lemma TokenStepShape(text: string, env: Env, st: BodyState)
    requires st.i < |text|
    ensures var i := st.i;
      var r := TokenStep(text, env, st);
      if text[i] == '<' && IndexOfChar(text, '>', i + 1) >= 0 then
        r.out == st.out + IriPiece(text, env.mapping, i, IndexOfChar(text, '>', i + 1))
        && r.i == IndexOfChar(text, '>', i + 1) + 1
      else if !st.skipQNames && PrefixedNameEnd(text, i).Some? then
        r.out == st.out + NamePiece(env, text[i..PrefixedNameEnd(text, i).value])
        && r.i == PrefixedNameEnd(text, i).value
      else r.out == st.out + [text[i]] && r.i == i + 1
  {
  }

  /** The `<...>` part of the loop body: the text written for the reference from `i` to the `>` at `j`. */
  method IriReplacement(text: string, mapping: map<string, string>, i: nat, j: nat) returns (piece: string)
    requires i < j < |text|
    ensures piece == IriPiece(text, mapping, i, j)
  {
    var iri := Trim(text[i + 1..j]);
    if iri in mapping && mapping[iri] != "" && mapping[iri] != iri {
      piece := "<" + mapping[iri] + ">";
    } else {
      piece := text[i..j + 1];
    }
  }

  /** The prefixed-name part of the loop body: the text written for the token `tok`. */
  method NameReplacement(tok: string, originalPrefixes: Table<string>, updatedPrefixes: Table<string>,
                         mapping: map<string, string>, useNativePrefixes: bool) returns (piece: string)
    ensures piece == NamePiece(Env(originalPrefixes, updatedPrefixes, mapping, useNativePrefixes), tok)
  {
    if StartsWith(tok, "http:") || StartsWith(tok, "https:") {
      return tok;
    }
    var expanded := ExpandPrefixedName(tok, originalPrefixes);
    if expanded != "" && expanded in mapping && mapping[expanded] != "" && mapping[expanded] != expanded {
      piece := ChooseQNameOrIri(mapping[expanded], updatedPrefixes, useNativePrefixes);
    } else {
      piece := tok;
    }
  }

  /** With no entry in effect, a turn copies exactly what it consumed. */
  lemma StepCopies(text: string, env: Env, st: BodyState)
    requires st.i < |text| && (NoEffectiveEntry(env.mapping) || st.inComment)
    ensures var r := BodyStep(text, env, st);
            r.out == st.out + text[st.i..r.i] && (st.inComment ==> r.inComment)
  {
    BodyStepCases(text, env, st);
  }

  /** Copying what one turn consumed and then the rest is copying the rest. */
  lemma CopyOn(text: string, out: string, i: nat, j: nat)
    requires i <= j <= |text|
    ensures out + text[i..j] + text[j..] == out + text[i..]
  {
    assert text[i..] == text[i..j] + text[j..];
  }

  /** With no entry in effect every turn copies exactly what it consumed, so the body comes out unchanged. */
  lemma {:induction false} BodyVerbatim(text: string, env: Env, st: BodyState)
    requires st.i <= |text| && NoEffectiveEntry(env.mapping)
    ensures BodyFrom(text, env, st) == st.out + text[st.i..]
    decreases |text| - st.i
  {
    if st.i < |text| {
      var r := BodyStep(text, env, st);
      assert BodyFrom(text, env, st) == BodyFrom(text, env, r);
      StepCopies(text, env, st);
      BodyVerbatim(text, env, r);
      CopyOn(text, st.out, st.i, r.i);
    }
  }

  /**
   * Once a `#` opens a comment outside strings, the rest of the text is copied
   * unchanged, across line breaks: the line-break turn comes before the turn
   * that would close the comment, so the comment never closes.
   */
  lemma {:induction false} CommentRestVerbatim(text: string, env: Env, st: BodyState)
    requires st.i <= |text| && st.inComment
    ensures BodyFrom(text, env, st) == st.out + text[st.i..]
    decreases |text| - st.i
  {
    if st.i < |text| {
      var r := BodyStep(text, env, st);
      assert BodyFrom(text, env, st) == BodyFrom(text, env, r);
      StepCopies(text, env, st);
      CommentRestVerbatim(text, env, r);
      CopyOn(text, st.out, st.i, r.i);
    }
  }

  // ---------------------------------------------------------- rewriteSparqlQuery

  /**
   * `rewriteSparqlQuery(queryText, prefixes, mapping, useNativePrefixes)`: the
   * PREFIX lines, then the BASE lines, go through the declaration callback
   * (`DeclReplacement`: only an unpadded `<ns>` whose trimmed IRI has an entry
   * in effect is rewritten, and `$` patterns in the mapped value are
   * interpreted); the prefixes are parsed again from the result; then the
   * body pass runs, expanding names with the prefixes the query came with and
   * abbreviating new IRIs with the re-parsed ones. The body pass leaves only
   * the prefixed names of PREFIX and BASE lines alone: their `<...>`
   * references are mapped again.
   */
  function RewriteQuery(queryText: string, prefixes: Table<string>, mapping: map<string, string>,
                        useNativePrefixes: bool): string
  {
    var t1 := ReplaceDecls(queryText, PrefixDecl, mapping);
    var t2 := ReplaceDecls(t1, BaseDecl, mapping);
    BodyFrom(t2, Env(prefixes, PrefixesOf(t2), mapping, useNativePrefixes), BodyStart)
  }

  method RewriteSparqlQuery(queryText: string, prefixes: Table<string>, mapping: map<string, string>,
                            useNativePrefixes: bool) returns (out: string)
    ensures out == RewriteQuery(queryText, prefixes, mapping, useNativePrefixes)
  {
    var text := ReplaceDecls(queryText, PrefixDecl, mapping);
    text := ReplaceDecls(text, BaseDecl, mapping);
    var updatedPrefixes, _ := ParsePrefixesAndBase(text);
    out := RewriteBody(text, prefixes, updatedPrefixes, mapping, useNativePrefixes);
  }

  /** A mapping with no entry in effect leaves every query exactly as it was. */
  lemma RewriteNoOp(queryText: string, prefixes: Table<string>, mapping: map<string, string>, useNativePrefixes: bool)
    requires NoEffectiveEntry(mapping)
    ensures RewriteQuery(queryText, prefixes, mapping, useNativePrefixes) == queryText
  {
    ReplaceDeclsNoOp(queryText, PrefixDecl, mapping);
    ReplaceDeclsNoOp(queryText, BaseDecl, mapping);
    BodyVerbatim(queryText, Env(prefixes, PrefixesOf(queryText), mapping, useNativePrefixes), BodyStart);
  }
}
