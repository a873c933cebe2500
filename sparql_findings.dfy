/**
 * Where `rewriteSparqlQuery` does not do what its comments and its callers
 * evidently intend, each case twice: the behaviour of the code as written,
 * shown on a concrete query, and a corrected definition with the intended
 * property proved. The modules `SparqlDecls` and `SparqlRewrite` keep the
 * code as written; nothing else uses the corrected definitions.
 */
module SparqlFindings {
  import opened Basics
  import opened JsString
  import opened OrderedMap
  import opened MappingTable
  import opened SparqlLexer
  import opened SparqlDecls
  import opened SparqlRewrite

  // ------------------------------------------------- a one-line BASE query

  /** The query `BASE <c>`, whose IRI is the one letter `c`. */
  function BaseLine(c: char): string {
    "BASE <" + [c] + ">"
  }

  /** The matcher on `BASE <c>`: one BASE match covering the whole line, and no PREFIX match. */
  lemma BaseLineMatches(c: char)
    requires IsAsciiLower(c)
    ensures NextDecl(BaseLine(c), BaseDecl, 0) == Some(DeclMatch(0, 8, "", 6, 7))
    ensures NextDecl(BaseLine(c), BaseDecl, 8) == None
    ensures NextDecl(BaseLine(c), PrefixDecl, 0) == None
    ensures DeclIri(BaseLine(c), DeclMatch(0, 8, "", 6, 7)) == [c]
  {
    BaseLineBase(c);
    BaseLineNoPrefix(c);
    assert !LineStartAt(BaseLine(c), 8);
    assert BaseLine(c)[6..7] == [c];
    assert SpacesEnd([c], 0) == 0 && SpacesStart([c], 0, 1) == 1;
  }

  lemma BaseLineBase(c: char)
    requires IsAsciiLower(c)
    ensures MatchDeclAt(BaseLine(c), BaseDecl, 0) == Some(DeclMatch(0, 8, "", 6, 7))
  {
    var t := BaseLine(c);
    assert SpacesEnd(t, 0) == 0;
    assert SpacesEnd(t, 4) == 5 by {
      assert SpacesEnd(t, 5) == 5;
    }
    IndexOfCharIs(t, '>', 6, 7);
    assert SpacesEnd(t, 8) == 8;
    assert t[0..4] == "BASE";
  }

  lemma BaseLineNoPrefix(c: char)
    requires IsAsciiLower(c)
    ensures forall s :: 0 <= s <= |BaseLine(c)| ==> !MatchesAt(BaseLine(c), PrefixDecl, s)
  {
    var t := BaseLine(c);
    forall s | 0 <= s <= |t| ensures !MatchesAt(t, PrefixDecl, s) {
      if s == 0 {
        assert SpacesEnd(t, 0) == 0;
        assert t[0..6][0] == 'B';
      } else {
        assert t[s - 1] in "BASE <>" || t[s - 1] == c;
      }
    }
  }

  /** The declaration phase on `BASE <a>`: the BASE line's IRI gets its mapped IRI. */
  lemma DeclPhaseOnBaseLine(a: char, mapping: map<string, string>)
    requires IsAsciiLower(a) && Effective(mapping, [a]) && '$' !in mapping[[a]]
    ensures ReplaceDecls(BaseLine(a), PrefixDecl, mapping) == BaseLine(a)
    ensures ReplaceDecls(BaseLine(a), BaseDecl, mapping) == "BASE <" + mapping[[a]] + ">"
  {
    var t := BaseLine(a);
    var d := DeclMatch(0, 8, "", 6, 7);
    BaseLineMatches(a);
    BaseLineBase(a);
    assert ReplaceDeclsFrom(t, PrefixDecl, mapping, 0) == t[0..];
    DeclReplacementHit(t, BaseDecl, 0, mapping);
    assert ReplaceDeclsFrom(t, BaseDecl, mapping, 8) == t[8..];
    assert ReplaceDeclsFrom(t, BaseDecl, mapping, 0) == t[0..0] + DeclReplacement(t, d, mapping) + t[8..];
    assert t[0..6] == "BASE <" && t[7..8] == ">";
  }

  // ------------------------------------------- turns of the body pass on it

  /** On a PREFIX or BASE line, outside comments and strings, an upper-case letter or a space is copied. */
  lemma PlainTurn(text: string, env: Env, st: BodyState)
    requires st.i < |text| && Outside(st) && AtLine(text, st).skipQNames
    requires IsAsciiUpper(text[st.i]) || text[st.i] == ' '
    ensures BodyStep(text, env, st) == AtLine(text, st).(out := st.out + [text[st.i]], i := st.i + 1)
  {
    var s1 := AtLine(text, st);
    var i := st.i;
    FirstCharMismatch(text, "\'\'\'", i);
    FirstCharMismatch(text, "\"\"\"", i);
    assert LiteralStep(text, s1).None?;
    TokenStepShape(text, env, s1);
  }

  /** Outside comments and strings, a `<...>` reference is written as `IriPiece` says. */
  lemma IriTurn(text: string, env: Env, st: BodyState, j: nat)
    requires st.i < j < |text| && Outside(st) && !st.atLineStart
    requires text[st.i] == '<' && j == IndexOfChar(text, '>', st.i + 1)
    ensures BodyStep(text, env, st) == st.(out := st.out + IriPiece(text, env.mapping, st.i, j), i := j + 1)
  {
    var i := st.i;
    FirstCharMismatch(text, "\'\'\'", i);
    FirstCharMismatch(text, "\"\"\"", i);
    assert LiteralStep(text, st).None?;
    TokenStepShape(text, env, st);
  }

  /** `BASE` followed by a space starts a line whose names are left alone. */
  lemma BaseLineSkips(c: char)
    requires IsAsciiLower(c)
    ensures LineSkip(BaseLine(c), 0)
  {
    var t := BaseLine(c);
    assert SpacesEnd(t, 0) == 0;
    assert TrimStart(t[0..]) == t;
    assert t[..4] == "BASE";
  }

  /** The body pass on `BASE <c>`: everything is copied but the reference, which is written as `IriPiece` says. */
  lemma BodyOnBaseLine(c: char, env: Env)
    requires IsAsciiLower(c)
    ensures BodyFrom(BaseLine(c), env, BodyStart) == "BASE " + IriPiece(BaseLine(c), env.mapping, 5, 7)
  {
    BaseLineKeywordCopied(c, env);
    BaseLineIriWritten(c, env);
  }

  /** The state after `BASE ` on the line `BASE <c>`. */
  function AfterBase(): BodyState {
    BodyState(5, false, true, false, false, false, false, false, "BASE ")
  }

  /** The first five turns on `BASE <c>` copy `BASE `. */
  lemma BaseLineKeywordCopied(c: char, env: Env)
    requires IsAsciiLower(c)
    ensures BodyFrom(BaseLine(c), env, BodyStart) == BodyFrom(BaseLine(c), env, AfterBase())
  {
    BaseLineFirstTurns(c, env);
    BaseLineLaterTurns(c, env);
  }

  /** The state after `BA` on the line `BASE <c>`. */
  function AfterBa(): BodyState {
    BodyState(2, false, true, false, false, false, false, false, "BA")
  }

  lemma BaseLineFirstTurns(c: char, env: Env)
    requires IsAsciiLower(c)
    ensures BodyFrom(BaseLine(c), env, BodyStart) == BodyFrom(BaseLine(c), env, AfterBa())
  {
    var t := BaseLine(c);
    BaseLineSkips(c);
    BaseLineChars(c);
    var s1 := AfterBa().(i := 1, out := "B");
    PlainStep(t, env, BodyStart, s1);
    PlainStep(t, env, s1, AfterBa());
  }

  lemma BaseLineLaterTurns(c: char, env: Env)
    requires IsAsciiLower(c)
    ensures BodyFrom(BaseLine(c), env, AfterBa()) == BodyFrom(BaseLine(c), env, AfterBase())
  {
    var t := BaseLine(c);
    var s4 := AfterBa().(i := 4, out := "BASE");
    BaseLineSeTurns(c, env, s4);
    BaseLineChars(c);
    PlainStep(t, env, s4, AfterBase());
  }

  lemma BaseLineSeTurns(c: char, env: Env, s4: BodyState)
    requires IsAsciiLower(c) && s4 == AfterBa().(i := 4, out := "BASE")
    ensures BodyFrom(BaseLine(c), env, AfterBa()) == BodyFrom(BaseLine(c), env, s4)
  {
    var t := BaseLine(c);
    BaseLineChars(c);
    var s3 := AfterBa().(i := 3, out := "BAS");
    PlainStep(t, env, AfterBa(), s3);
    PlainStep(t, env, s3, s4);
  }

  /** The last turn on `BASE <c>` writes the reference. */
  lemma BaseLineIriWritten(c: char, env: Env)
    requires IsAsciiLower(c)
    ensures BodyFrom(BaseLine(c), env, AfterBase()) == "BASE " + IriPiece(BaseLine(c), env.mapping, 5, 7)
  {
    var t := BaseLine(c);
    BaseLineChars(c);
    var s6 := AfterBase().(i := 8, out := "BASE " + IriPiece(t, env.mapping, 5, 7));
    IndexOfCharIs(t, '>', 6, 7);
    IriTurn(t, env, AfterBase(), 7);
    StepTo(t, env, AfterBase(), s6);
  }

  /** `PlainTurn` as a step of the run. */
  lemma PlainStep(text: string, env: Env, st: BodyState, r: BodyState)
    requires st.i < |text| && Outside(st) && AtLine(text, st).skipQNames
    requires IsAsciiUpper(text[st.i]) || text[st.i] == ' '
    requires r == AtLine(text, st).(out := st.out + [text[st.i]], i := st.i + 1)
    ensures BodyFrom(text, env, st) == BodyFrom(text, env, r)
  {
    PlainTurn(text, env, st);
  }

  lemma BaseLineChars(c: char)
    ensures var t := BaseLine(c);
      |t| == 8 && t[0] == 'B' && t[1] == 'A' && t[2] == 'S' && t[3] == 'E' && t[4] == ' '
      && t[5] == '<' && t[6] == c && t[7] == '>'
  {}

  /** The run from a state is the run from the state its turn leads to. */
  lemma StepTo(text: string, env: Env, st: BodyState, r: BodyState)
    requires st.i < |text| && BodyStep(text, env, st) == r
    ensures BodyFrom(text, env, st) == BodyFrom(text, env, r)
  {}

  // ------------------------------------------- the query as written, end to end

  /**
   * As written, the IRI of a BASE line is mapped twice: the declaration phase
   * writes the mapped IRI `b` between the brackets, and the body pass, which
   * leaves only the names of such a line alone, maps `b` again if it has an
   * entry in effect.
   */
  lemma BaseLineMappedTwice(a: char, b: char, prefixes: Table<string>, mapping: map<string, string>,
                            useNativePrefixes: bool)
    requires IsAsciiLower(a) && IsAsciiLower(b) && a != b
    requires [a] in mapping && mapping[[a]] == [b]
    ensures RewriteQuery(BaseLine(a), prefixes, mapping, useNativePrefixes)
         == "BASE <" + (if Effective(mapping, [b]) then mapping[[b]] else [b]) + ">"
  {
    DeclPhaseOnBaseLine(a, mapping);
    assert ReplaceDecls(BaseLine(a), BaseDecl, mapping) == BaseLine(b) by {
      assert "BASE <" + mapping[[a]] + ">" == BaseLine(b);
    }
    BodyOnBaseLineOf(b, prefixes, mapping, useNativePrefixes);
  }

  /** The body pass over `BASE <b>` maps `b` if it has an entry in effect. */
  lemma BodyOnBaseLineOf(b: char, prefixes: Table<string>, mapping: map<string, string>, useNativePrefixes: bool)
    requires IsAsciiLower(b)
    ensures BodyFrom(BaseLine(b), Env(prefixes, PrefixesOf(BaseLine(b)), mapping, useNativePrefixes), BodyStart)
         == "BASE <" + (if Effective(mapping, [b]) then mapping[[b]] else [b]) + ">"
  {
    var env := Env(prefixes, PrefixesOf(BaseLine(b)), mapping, useNativePrefixes);
    BodyOnBaseLine(b, env);
    IriPieceOnBaseLine(b, mapping);
  }

  lemma IriPieceOnBaseLine(b: char, mapping: map<string, string>)
    requires IsAsciiLower(b)
    ensures IriPiece(BaseLine(b), mapping, 5, 7) == "<" + (if Effective(mapping, [b]) then mapping[[b]] else [b]) + ">"
  {
    BaseLineMatches(b);
    assert Trim(BaseLine(b)[6..7]) == [b];
    assert BaseLine(b)[5..8] == "<" + [b] + ">";
  }

  /** With the swap `a -> b`, `b -> a`, the line `BASE <a>` comes out unchanged. */
  lemma SwapLeavesBaseLine(prefixes: Table<string>, useNativePrefixes: bool)
    ensures RewriteQuery("BASE <a>", prefixes, map["a" := "b", "b" := "a"], useNativePrefixes) == "BASE <a>"
  {
    var mapping := map["a" := "b", "b" := "a"];
    assert BaseLine('a') == "BASE <a>";
    BaseLineMappedTwice('a', 'b', prefixes, mapping, useNativePrefixes);
  }

  // ------------------------------------------- the body pass as intended

  /**
   * One turn of the body pass as the comment on its call intends ("skip
   * PREFIX/BASE lines"): on such a line nothing is substituted; elsewhere the
   * turn is the one of the code as written.
   */
  function BodyStepKeepingDecls(text: string, env: Env, st0: BodyState): (r: BodyState)
    requires st0.i < |text|
    ensures st0.i < r.i <= |text|
  {
    BodyStep(text, if AtLine(text, st0).skipQNames then env.(mapping := map[]) else env, st0)
  }

  /** The corrected loop run to the end of the text. */
  function BodyFromKeepingDecls(text: string, env: Env, st: BodyState): string
    requires st.i <= |text|
    decreases |text| - st.i
  {
    if st.i == |text| then st.out else BodyFromKeepingDecls(text, env, BodyStepKeepingDecls(text, env, st))
  }

  /** On a PREFIX or BASE line, the corrected turn copies what it consumes and the line stays marked. */
  lemma DeclLineTurnCopies(text: string, env: Env, st: BodyState)
    requires st.i < |text| && !IsNL(text[st.i])
    requires (st.atLineStart && LineSkip(text, st.i)) || (!st.atLineStart && st.skipQNames)
    ensures var r := BodyStepKeepingDecls(text, env, st);
      r.out == st.out + text[st.i..r.i] && !r.atLineStart && r.skipQNames
  {
    var env' := env.(mapping := map[]);
    StepCopies(text, env', st);
    BodyStepCases(text, env', st);
    var s1 := AtLine(text, st);
    if LiteralStep(text, s1).None? {
      assert BodyStep(text, env', st) == TokenStep(text, env', s1);
    } else {
      assert BodyStep(text, env', st) == LiteralStep(text, s1).value;
    }
  }

  /**
   * A one-line query whose line is a PREFIX or BASE line comes out of the
   * corrected body pass exactly as the declaration phase left it.
   */
  lemma {:induction false} DeclLineKept(text: string, env: Env, st: BodyState)
    requires st.i <= |text| && forall k :: st.i <= k < |text| ==> !IsNL(text[k])
    requires (st.atLineStart && st.i < |text| && LineSkip(text, st.i)) || (!st.atLineStart && st.skipQNames)
    ensures BodyFromKeepingDecls(text, env, st) == st.out + text[st.i..]
    decreases |text| - st.i
  {
    if st.i < |text| {
      var r := BodyStepKeepingDecls(text, env, st);
      DeclLineTurnCopies(text, env, st);
      DeclLineKept(text, env, r);
      CopyOn(text, st.out, st.i, r.i);
    }
  }

  // ------------------------------------------- the declaration phase as intended

  /**
   * The callback as intended: when the trimmed IRI of the declaration has an
   * entry in effect, the text between the brackets (padding included) becomes
   * the mapped IRI, taken literally.
   */
  function DeclReplacementIntended(text: string, d: DeclMatch, mapping: map<string, string>): (r: string)
    requires DeclShape(text, d)
    ensures !Effective(mapping, DeclIri(text, d)) ==> r == text[d.start..d.end]
    ensures |r| >= d.nsStart - d.start + d.end - d.nsEnd
    ensures r[..d.nsStart - d.start] == text[d.start..d.nsStart]
    ensures r[|r| - (d.end - d.nsEnd)..] == text[d.nsEnd..d.end]
  {
    var ns := DeclIri(text, d);
    if Effective(mapping, ns) then text[d.start..d.nsStart] + mapping[ns] + text[d.nsEnd..d.end]
    else text[d.start..d.end]
  }

  /**
   * Wherever the callback as written finds `<ns>` in the match and the mapped
   * IRI holds no `$`, and wherever no entry is in effect, it agrees with the
   * intended one.
   */
  lemma DeclIntendedAgrees(text: string, kind: DeclKind, s: nat, mapping: map<string, string>)
    requires s <= |text| && MatchDeclAt(text, kind, s).Some?
    requires var d := MatchDeclAt(text, kind, s).value;
      var ns := DeclIri(text, d);
      !Effective(mapping, ns) || (ns == text[d.nsStart..d.nsEnd] && '$' !in mapping[ns])
    ensures var d := MatchDeclAt(text, kind, s).value;
      DeclReplacementIntended(text, d, mapping) == DeclReplacement(text, d, mapping)
  {
    var d := MatchDeclAt(text, kind, s).value;
    if Effective(mapping, DeclIri(text, d)) {
      DeclReplacementHit(text, kind, s, mapping);
    }
  }

  /**
   * A declaration whose IRI is mapped to one without `>` reads back, after the
   * intended rewrite, as the mapped IRI: the first `>` after its `<` closes
   * exactly the mapped text.
   */
  lemma DeclIntendedBrackets(text: string, d: DeclMatch, mapping: map<string, string>)
    requires DeclShape(text, d)
    requires Effective(mapping, DeclIri(text, d)) && '>' !in mapping[DeclIri(text, d)]
    ensures var m := mapping[DeclIri(text, d)];
      var r := DeclReplacementIntended(text, d, mapping);
      var p := d.nsStart - 1 - d.start;
      p + 1 + |m| < |r| && r[p] == '<' && IndexOfChar(r, '>', p + 1) == p + 1 + |m| && r[p + 1..p + 1 + |m|] == m
  {
    var m := mapping[DeclIri(text, d)];
    var before, after := text[d.start..d.nsStart], text[d.nsEnd..d.end];
    assert before[|before| - 1] == '<' && after[0] == '>';
    Bracketed(before, m, after);
  }

  /** In `before + m + after`, with `before` ending in `<`, `after` opening with `>` and no `>` in `m`, the brackets hold `m`. */
  lemma Bracketed(before: string, m: string, after: string)
    requires |before| > 0 && before[|before| - 1] == '<' && |after| > 0 && after[0] == '>' && '>' !in m
    ensures var r := before + m + after;
      var p := |before| - 1;
      p + 1 + |m| < |r| && r[p] == '<' && IndexOfChar(r, '>', p + 1) == p + 1 + |m| && r[p + 1..p + 1 + |m|] == m
  {
    var r := before + m + after;
    var p := |before| - 1;
    assert r[p + 1 + |m|] == after[0];
    forall k | p + 1 <= k < p + 1 + |m| ensures r[k] != '>' {
      assert r[k] == m[k - p - 1];
    }
    IndexOfCharIs(r, '>', p + 1, p + 1 + |m|);
  }

  /** The declaration phase with the intended callback. */
  function ReplaceDeclsIntendedFrom(text: string, kind: DeclKind, mapping: map<string, string>, pos: nat): string
    requires pos <= |text|
    decreases |text| - pos
  {
    match NextDecl(text, kind, pos)
    case None => text[pos..]
    case Some(d) =>
      text[pos..d.start] + DeclReplacementIntended(text, d, mapping) + ReplaceDeclsIntendedFrom(text, kind, mapping, d.end)
  }

  /** `rewriteSparqlQuery` with both corrections: declarations rewritten as intended, their lines then left alone. */
  function RewriteQueryIntended(queryText: string, prefixes: Table<string>, mapping: map<string, string>,
                                useNativePrefixes: bool): string
  {
    var t1 := ReplaceDeclsIntendedFrom(queryText, PrefixDecl, mapping, 0);
    var t2 := ReplaceDeclsIntendedFrom(t1, BaseDecl, mapping, 0);
    BodyFromKeepingDecls(t2, Env(prefixes, PrefixesOf(t2), mapping, useNativePrefixes), BodyStart)
  }

  /** Any text opening with `BASE ` is a line the body pass is meant to skip. */
  lemma BaseOpenerSkips(y: string)
    ensures LineSkip("BASE <" + y + ">", 0)
  {
    var t := "BASE <" + y + ">";
    assert SpacesEnd(t, 0) == 0;
    assert TrimStart(t[0..]) == t;
    assert t[..4] == "BASE";
  }

  /** The intended declaration phase on `BASE <a>` writes the mapped IRI once, whatever it holds. */
  lemma IntendedDeclPhaseOnBaseLine(a: char, mapping: map<string, string>)
    requires IsAsciiLower(a) && Effective(mapping, [a])
    ensures ReplaceDeclsIntendedFrom(BaseLine(a), PrefixDecl, mapping, 0) == BaseLine(a)
    ensures ReplaceDeclsIntendedFrom(BaseLine(a), BaseDecl, mapping, 0) == "BASE <" + mapping[[a]] + ">"
  {
    var t := BaseLine(a);
    BaseLineMatches(a);
    assert ReplaceDeclsIntendedFrom(t, PrefixDecl, mapping, 0) == t[0..];
    IntendedBaseReplacement(a, mapping);
    assert ReplaceDeclsIntendedFrom(t, BaseDecl, mapping, 8) == t[8..];
  }

  lemma IntendedBaseReplacement(a: char, mapping: map<string, string>)
    requires IsAsciiLower(a) && Effective(mapping, [a])
    ensures DeclShape(BaseLine(a), DeclMatch(0, 8, "", 6, 7))
    ensures DeclReplacementIntended(BaseLine(a), DeclMatch(0, 8, "", 6, 7), mapping) == "BASE <" + mapping[[a]] + ">"
  {
    var t := BaseLine(a);
    BaseLineMatches(a);
    assert t[0..6] == "BASE <" && t[6..7] == [a] && t[7..8] == ">";
  }

  /** A one-line query `BASE <y>`, with no line break in `y`, passes the corrected body pass unchanged. */
  lemma BaseOpenerKept(y: string, env: Env)
    requires forall k :: 0 <= k < |y| ==> !IsNL(y[k])
    ensures BodyFromKeepingDecls("BASE <" + y + ">", env, BodyStart) == "BASE <" + y + ">"
  {
    var t := "BASE <" + y + ">";
    BaseOpenerSkips(y);
    forall k | 0 <= k < |t| ensures !IsNL(t[k]) {
      if 6 <= k < |t| - 1 {
        assert t[k] == y[k - 6];
      }
    }
    DeclLineKept(t, env, BodyStart);
  }

  /**
   * With both corrections, `BASE <a>` comes out with the mapped IRI of `a`,
   * mapped exactly once (a swap `a -> b`, `b -> a` gives `BASE <b>`).
   */
  lemma BaseLineMappedOnce(a: char, prefixes: Table<string>, mapping: map<string, string>, useNativePrefixes: bool)
    requires IsAsciiLower(a) && Effective(mapping, [a])
    requires forall k :: 0 <= k < |mapping[[a]]| ==> !IsNL(mapping[[a]][k])
    ensures RewriteQueryIntended(BaseLine(a), prefixes, mapping, useNativePrefixes) == "BASE <" + mapping[[a]] + ">"
  {
    IntendedDeclPhaseOnBaseLine(a, mapping);
    var t := "BASE <" + mapping[[a]] + ">";
    BaseOpenerKept(mapping[[a]], Env(prefixes, PrefixesOf(t), mapping, useNativePrefixes));
  }

  /** With the swap `a -> b`, `b -> a`, the corrected rewrite turns `BASE <a>` into `BASE <b>`. */
  lemma SwapMapsBaseLineOnce(prefixes: Table<string>, useNativePrefixes: bool)
    ensures RewriteQueryIntended("BASE <a>", prefixes, map["a" := "b", "b" := "a"], useNativePrefixes) == "BASE <b>"
  {
    var mapping := map["a" := "b", "b" := "a"];
    assert BaseLine('a') == "BASE <a>" && ['a'] == "a";
    assert mapping["a"] == "b" && Effective(mapping, "a");
    assert !IsNL('b');
    BaseLineMappedOnce('a', prefixes, mapping, useNativePrefixes);
  }

  // ------------------------------------------- a PREFIX line with a blank IRI

  /** `PREFIX p: < >` records the label `p` with the empty namespace. */
  lemma BlankPrefixRecorded()
    ensures PrefixesOf("PREFIX p: < >") == [("p", "")]
  {
    BlankPrefixPairs();
    assert PutAll([], [("p", "")]) == Put([], "p", "");
  }

  lemma BlankPrefixPairs()
    ensures PrefixPairs("PREFIX p: < >", 0) == [("p", "")]
  {
    var t := "PREFIX p: < >";
    var d := DeclMatch(0, 13, "p", 11, 12);
    BlankPrefixMatch();
    BlankPrefixEnd();
    assert PrefixPairs(t, 0) == [(Trim(d.pfx), DeclIri(t, d))] + PrefixPairs(t, 13);
    BlankPrefixTrims();
    assert t[11..12] == " ";
  }

  lemma BlankPrefixEnd()
    ensures PrefixPairs("PREFIX p: < >", 13) == []
  {
    var t := "PREFIX p: < >";
    assert !LineStartAt(t, 13);
    assert NextDecl(t, PrefixDecl, 13) == None;
  }

  lemma BlankPrefixTrims()
    ensures Trim(" ") == "" && Trim("p") == "p"
  {
    assert SpacesEnd(" ", 0) == 1;
    assert SpacesEnd("p", 0) == 0 && SpacesStart("p", 0, 1) == 1;
  }

  lemma BlankPrefixMatch()
    ensures NextDecl("PREFIX p: < >", PrefixDecl, 0) == Some(DeclMatch(0, 13, "p", 11, 12))
  {
    var t := "PREFIX p: < >";
    assert SpacesEnd(t, 0) == 0;
    assert t[0..6] == "PREFIX";
    assert SpacesEnd(t, 6) == 7 by {
      assert SpacesEnd(t, 7) == 7;
    }
    BlankPrefixLabel();
    assert MatchDeclAt(t, PrefixDecl, 0) == MatchLabelTail(t, 0, 7);
  }

  lemma BlankPrefixLabel()
    ensures MatchLabelTail("PREFIX p: < >", 0, 7) == Some(DeclMatch(0, 13, "p", 11, 12))
  {
    var t := "PREFIX p: < >";
    assert SkipWhile(t, 8, IsNameChar) == 8;
    assert t[7..8] == "p";
    assert SpacesEnd(t, 9) == 10 by {
      assert SpacesEnd(t, 10) == 10;
    }
    BlankPrefixIri();
  }

  lemma BlankPrefixIri()
    ensures MatchIriTail("PREFIX p: < >", 0, "p", 10) == Some(DeclMatch(0, 13, "p", 11, 12))
  {
    var t := "PREFIX p: < >";
    IndexOfCharIs(t, '>', 11, 12);
    assert SpacesEnd(t, 13) == 13;
  }

  /**
   * With that table, `chooseQNameOrIri` abbreviates any IRI made of local-name
   * characters (here `abc`) to `p:abc`, which `expandPrefixedName` reads back
   * as no IRI at all.
   */
  lemma BlankPrefixBreaksRoundTrip()
    ensures var t := PrefixesOf("PREFIX p: < >");
      ChooseQNameOrIri("abc", t, true) == "p:abc" && ExpandPrefixedName("p:abc", t) == ""
  {
    BlankPrefixRecorded();
    BlankTableCompacts();
    BlankTableExpands();
  }

  lemma BlankTableCompacts()
    ensures ChooseQNameOrIri("abc", [("p", "")], true) == "p:abc"
  {
    var t := [("p", "")];
    assert Compacts(t, 0, "abc") by {
      assert "abc"[0..] == "abc";
      assert IsLocalChar('a') && IsLocalChar('b') && IsLocalChar('c');
    }
    assert FirstCompacting(t, "abc", 0) == 0;
  }

  lemma BlankTableExpands()
    ensures ExpandPrefixedName("p:abc", [("p", "")]) == ""
  {
    assert "p:abc"[..1] == "p";
    IndexOfCharIs("p:abc", ':', 0, 1);
    FindAt([("p", "")], "p", 0);
  }

  /** The entries of a table whose namespace is not empty, in order. */
  function WithNamespace(prefixes: Table<string>): (r: Table<string>)
    ensures forall e :: e in r <==> e in prefixes && e.1 != ""
  {
    if prefixes == [] then []
    else
      assert forall e :: e in prefixes <==> e == prefixes[0] || e in prefixes[1..];
      if prefixes[0].1 != "" then [prefixes[0]] + WithNamespace(prefixes[1..]) else WithNamespace(prefixes[1..])
  }

  /** Dropping entries keeps labels distinct. */
  lemma {:induction false} WithNamespaceDistinct(prefixes: Table<string>)
    requires DistinctKeys(prefixes)
    ensures DistinctKeys(WithNamespace(prefixes))
  {
    if prefixes != [] {
      var tail := prefixes[1..];
      assert DistinctKeys(tail) by {
        forall a, b | 0 <= a < b < |tail| ensures tail[a].0 != tail[b].0 {
          assert tail[a] == prefixes[a + 1] && tail[b] == prefixes[b + 1];
        }
      }
      WithNamespaceDistinct(tail);
      var rest := WithNamespace(tail);
      forall k | 0 <= k < |rest| ensures rest[k].0 != prefixes[0].0 {
        assert rest[k] in rest;
        var j :| 0 <= j < |tail| && tail[j] == rest[k];
        assert prefixes[j + 1] == rest[k];
      }
    }
  }

  /**
   * `chooseQNameOrIri` as intended: like `expandPrefixedName`, it passes over
   * an entry whose namespace is empty (the loop with `if (!ns) continue;`).
   */
  function ChooseQNameOrIriIntended(newIri: string, prefixes: Table<string>, allowQName: bool): (r: string)
    ensures !allowQName ==> r == "<" + newIri + ">"
  {
    ChooseQNameOrIri(newIri, WithNamespace(prefixes), allowQName)
  }

  /** In a table with distinct labels, an entry's label looks up its namespace. */
  lemma GetEntry(prefixes: Table<string>, e: (string, string))
    requires DistinctKeys(prefixes) && e in prefixes
    ensures Get(prefixes, e.0) == Some(e.1)
  {
    var i :| 0 <= i < |prefixes| && prefixes[i] == e;
    FindAt(prefixes, e.0, i);
  }

  /**
   * The intended abbreviation expands back, with the whole table, to the IRI
   * it abbreviates: blank namespaces need no longer be ruled out.
   */
  lemma ChooseThenExpandIntended(newIri: string, prefixes: Table<string>, allowQName: bool)
    requires DistinctKeys(prefixes) && forall k :: 0 <= k < |prefixes| ==> ':' !in prefixes[k].0
    ensures var r := ChooseQNameOrIriIntended(newIri, prefixes, allowQName);
            r == "<" + newIri + ">" || ExpandPrefixedName(r, prefixes) == newIri
  {
    var w := WithNamespace(prefixes);
    WithNamespaceDistinct(prefixes);
    forall k | 0 <= k < |w| ensures ':' !in w[k].0 && w[k].1 != "" {
      assert w[k] in w;
      var j :| 0 <= j < |prefixes| && prefixes[j] == w[k];
    }
    ChooseThenExpand(newIri, w, allowQName);
    var r := ChooseQNameOrIri(newIri, w, allowQName);
    if r != "<" + newIri + ">" {
      var k := FirstCompacting(w, newIri, 0);
      assert w[k] in w;
      GetEntry(prefixes, w[k]);
      GetEntry(w, w[k]);
      QNameParts(w[k].0, newIri[|w[k].1|..]);
    }
  }

  /** `pfx:rest` splits at its first `:` back into the label and the local part. */
  lemma QNameParts(pfx: string, rest: string)
    requires ':' !in pfx
    ensures var r := pfx + ":" + rest;
      IndexOfChar(r, ':', 0) == |pfx| && r[..|pfx|] == pfx && r[|pfx| + 1..] == rest
  {
    var r := pfx + ":" + rest;
    forall m | 0 <= m < |pfx| ensures r[m] != ':' {
      assert r[m] == pfx[m];
    }
    IndexOfCharIs(r, ':', 0, |pfx|);
  }

  /** For the prefixes a query declares, the intended abbreviation always reads back. */
  lemma ChooseThenExpandIntendedParsed(newIri: string, text: string, allowQName: bool)
    ensures var r := ChooseQNameOrIriIntended(newIri, PrefixesOf(text), allowQName);
            r == "<" + newIri + ">" || ExpandPrefixedName(r, PrefixesOf(text)) == newIri
  {
    PrefixTableWellKeyed(text);
    ChooseThenExpandIntended(newIri, PrefixesOf(text), allowQName);
  }
}
