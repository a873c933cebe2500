/**
 * `scanSparql`: a single pass over query text that tracks whether it is in a
 * `#` comment, a short `'`/`"` string or a long `'''`/`"""` string, and
 * collects `<...>` IRI references and `prefix:local` names found outside them.
 *
 * The specification is the step function `ScanStep` and its iteration
 * `ScanFrom`; the method `ScanSparql` is the loop, proved equal to it. The
 * source also keeps an `inIri` flag that is never set, so every guard on it is
 * true and it is omitted here.
 */
module SparqlScanner {
  import opened Basics
  import opened JsString
  import opened SparqlLexer

  datatype ScanState = ScanState(
    i: nat,
    inComment: bool,
    inS: bool, inD: bool,       // inside a '...' or "..." string
    inLS: bool, inLD: bool,     // inside a '''...''' or """...""" string
    iriRefs: seq<string>,
    prefixedNames: seq<string>)

  const Start := ScanState(0, false, false, false, false, false, [], [])

  /** Outside every comment and string: the only state in which tokens are taken. */
  predicate Normal(st: ScanState) {
    !st.inComment && !st.inS && !st.inD && !st.inLS && !st.inLD
  }

  /** An IRI reference is taken at `st`: the text strictly between this `<` and the next `>`, trimmed. */
  predicate IriRefAt(text: string, st: ScanState, iri: string) {
    st.i < |text| && Normal(st) && text[st.i] == '<'
    && var j := IndexOfChar(text, '>', st.i + 1);
    j >= 0 && iri == Trim(text[st.i + 1..j]) && iri != ""
  }

  /** A prefixed name is taken at `st`: a whole token of `PNameShape` that is not an `http:`/`https:` one. */
  predicate PrefixedNameAt(text: string, st: ScanState, tok: string) {
    st.i < |text| && Normal(st) && text[st.i] != '<' && text[st.i] != '#'
    && PrefixedNameEnd(text, st.i).Some?
    && tok == text[st.i..PrefixedNameEnd(text, st.i).value]
    && !StartsWith(tok, "http:") && !StartsWith(tok, "https:")
  }

  /** One turn of the scanning loop. */
  function ScanStep(text: string, st: ScanState): (r: ScanState)
    requires st.i < |text|
    ensures st.i < r.i <= |text|
  {
    var i := st.i;
    var c := text[i];
    var inComment := st.inComment || (!st.inS && !st.inD && !st.inLS && !st.inLD && c == '#');
    if inComment then
      st.(i := i + 1, inComment := !IsNL(c))
    else if !st.inS && !st.inD && OccursAt(text, "'''", i) then
      st.(i := i + 3, inLS := !st.inLS)
    else if !st.inS && !st.inD && OccursAt(text, "\"\"\"", i) then
      st.(i := i + 3, inLD := !st.inLD)
    else if st.inLS || st.inLD then
      st.(i := i + 1)
    else if !st.inD && c == '\'' && !EscapedAt(text, i) then
      st.(i := i + 1, inS := !st.inS)
    else if !st.inS && c == '"' && !EscapedAt(text, i) then
      st.(i := i + 1, inD := !st.inD)
    else if st.inS || st.inD then
      st.(i := i + 1)
    else
      TakeToken(text, st)
  }

  /** The turn outside every comment and string: a `<...>` reference, a prefixed name, or one character. */
  function TakeToken(text: string, st: ScanState): (r: ScanState)
    requires st.i < |text|
    ensures st.i < r.i <= |text|
  {
    var i := st.i;
    if text[i] == '<' && IndexOfChar(text, '>', i + 1) >= 0 then
      var j := IndexOfChar(text, '>', i + 1);
      var iri := Trim(text[i + 1..j]);
      st.(i := j + 1, iriRefs := if iri != "" then AddToSet(st.iriRefs, iri) else st.iriRefs)
    else
      match PrefixedNameEnd(text, i)
      case None => st.(i := i + 1)
      case Some(p) =>
        var tok := text[i..p];
        var keep := !StartsWith(tok, "http:") && !StartsWith(tok, "https:");
        st.(i := p, prefixedNames := if keep then AddToSet(st.prefixedNames, tok) else st.prefixedNames)
  }

  /** A turn keeps what was collected and adds only what is taken at its own state. */
  lemma ScanStepCollects(text: string, st: ScanState)
    requires st.i < |text|
    ensures var r := ScanStep(text, st);
      && (forall x :: x in r.iriRefs && x !in st.iriRefs ==> IriRefAt(text, st, x))
      && (forall x :: x in r.prefixedNames && x !in st.prefixedNames ==> PrefixedNameAt(text, st, x))
      && (forall x :: x in st.iriRefs ==> x in r.iriRefs)
      && (forall x :: x in st.prefixedNames ==> x in r.prefixedNames)
  {}

  /** The loop run to the end of the text from `st`. */
  function ScanFrom(text: string, st: ScanState): (r: ScanState)
    requires st.i <= |text|
    decreases |text| - st.i
  {
    if st.i == |text| then st else ScanFrom(text, ScanStep(text, st))
  }

  function Scan(text: string): ScanState {
    ScanFrom(text, Start)
  }

  /** The state after `n` turns of the loop (or at the end of the text, if that comes first). */
  function Steps(text: string, st: ScanState, n: nat): (r: ScanState)
    requires st.i <= |text|
    ensures r.i <= |text|
    decreases n
  {
    if n == 0 || st.i == |text| then st else Steps(text, ScanStep(text, st), n - 1)
  }

  /** `scanSparql(text)`. */
  method ScanSparql(text: string) returns (iriRefs: seq<string>, prefixedNames: seq<string>)
    ensures iriRefs == Scan(text).iriRefs && prefixedNames == Scan(text).prefixedNames
  {
    iriRefs, prefixedNames := [], [];
    var i: nat := 0;
    var inComment := false;
    var inS, inD := false, false;
    var inLS, inLD := false, false;
    while i < |text|
      invariant i <= |text|
      invariant ScanFrom(text, ScanState(i, inComment, inS, inD, inLS, inLD, iriRefs, prefixedNames))
             == Scan(text)
      decreases |text| - i
    {
      ghost var st := ScanState(i, inComment, inS, inD, inLS, inLD, iriRefs, prefixedNames);
      var c := text[i];
      if !inS && !inD && !inLS && !inLD && c == '#' {
        inComment := true;
      }
      if inComment {
        if IsNL(c) { inComment := false; }
        i := i + 1;
      } else if !inS && !inD && OccursAt(text, "'''", i) {
        inLS := !inLS;
        i := i + 3;
      } else if !inS && !inD && OccursAt(text, "\"\"\"", i) {
        inLD := !inLD;
        i := i + 3;
      } else if inLS || inLD {
        i := i + 1;
      } else if !inD && c == '\'' && !EscapedAt(text, i) {
        inS := !inS;
        i := i + 1;
      } else if !inS && c == '"' && !EscapedAt(text, i) {
        inD := !inD;
        i := i + 1;
      } else if inS || inD {
        i := i + 1;
      } else {
        i, iriRefs, prefixedNames := ScanToken(text, i, iriRefs, prefixedNames);
      }
      assert ScanState(i, inComment, inS, inD, inLS, inLD, iriRefs, prefixedNames) == ScanStep(text, st);
    }
  }

  /** The token branch of the loop, on the loop's own variables. */
  method ScanToken(text: string, i0: nat, iris0: seq<string>, names0: seq<string>)
    returns (i: nat, iriRefs: seq<string>, prefixedNames: seq<string>)
    requires i0 < |text|
    ensures var r := TakeToken(text, ScanState(i0, false, false, false, false, false, iris0, names0));
      i == r.i && iriRefs == r.iriRefs && prefixedNames == r.prefixedNames
  {
    iriRefs, prefixedNames := iris0, names0;
    if text[i0] == '<' && IndexOfChar(text, '>', i0 + 1) >= 0 {
      var j := IndexOfChar(text, '>', i0 + 1);
      var iri := Trim(text[i0 + 1..j]);
      if iri != "" { iriRefs := AddToSet(iriRefs, iri); }
      i := j + 1;
    } else {
      var end := PrefixedNameEnd(text, i0);
      if end.None? {
        i := i0 + 1;
      } else {
        var tok := text[i0..end.value];
        if !StartsWith(tok, "http:") && !StartsWith(tok, "https:") {
          prefixedNames := AddToSet(prefixedNames, tok);
        }
        i := end.value;
      }
    }
  }

  /**
   * Every collected IRI reference was taken at a state the scan reaches, outside
   * comments and strings, and is the trimmed, non-empty text between a `<` and
   * the next `>`.
   */
  lemma {:induction false} IriRefsOrigin(text: string, st: ScanState, x: string)
    requires st.i <= |text|
    requires x in ScanFrom(text, st).iriRefs && x !in st.iriRefs
    ensures exists n: nat :: IriRefAt(text, Steps(text, st, n), x)
    decreases |text| - st.i
  {
    var next := ScanStep(text, st);
    ScanStepCollects(text, st);
    if x in next.iriRefs {
      assert Steps(text, st, 0) == st;
    } else {
      IriRefsOrigin(text, next, x);
      var n: nat :| IriRefAt(text, Steps(text, next, n), x);
      assert Steps(text, st, n + 1) == Steps(text, next, n);
    }
  }

  /**
   * Every collected prefixed name was taken at a state the scan reaches, outside
   * comments and strings; it has the token shape (so it holds a `:`) and starts
   * with neither `http:` nor `https:`.
   */
  lemma {:induction false} PrefixedNamesOrigin(text: string, st: ScanState, x: string)
    requires st.i <= |text|
    requires x in ScanFrom(text, st).prefixedNames && x !in st.prefixedNames
    ensures exists n: nat :: PrefixedNameAt(text, Steps(text, st, n), x)
    decreases |text| - st.i
  {
    var next := ScanStep(text, st);
    ScanStepCollects(text, st);
    if x in next.prefixedNames {
      assert Steps(text, st, 0) == st;
    } else {
      PrefixedNamesOrigin(text, next, x);
      var n: nat :| PrefixedNameAt(text, Steps(text, next, n), x);
      assert Steps(text, st, n + 1) == Steps(text, next, n);
    }
  }

  /** `x` is taken as an IRI reference at some state the scan from the start reaches. */
  ghost predicate IriRefTaken(text: string, x: string) {
    exists n: nat :: IriRefAt(text, Steps(text, Start, n), x)
  }

  /** `x` is taken as a prefixed name at some state the scan from the start reaches. */
  ghost predicate PrefixedNameTaken(text: string, x: string) {
    exists n: nat :: PrefixedNameAt(text, Steps(text, Start, n), x)
  }

  /** A turn collects whatever is taken at its own state. */
  lemma ScanStepTakes(text: string, st: ScanState)
    requires st.i < |text|
    ensures forall x :: IriRefAt(text, st, x) ==> x in ScanStep(text, st).iriRefs
    ensures forall x :: PrefixedNameAt(text, st, x) ==> x in ScanStep(text, st).prefixedNames
  {
    if Normal(st) && PrefixedNameEnd(text, st.i).Some? {
      assert IsNameStart(text[st.i]) || text[st.i] == ':';
    }
  }

  /** Running the loop on loses nothing already collected. */
  lemma {:induction false} ScanFromKeeps(text: string, st: ScanState)
    requires st.i <= |text|
    ensures forall x :: x in st.iriRefs ==> x in ScanFrom(text, st).iriRefs
    ensures forall x :: x in st.prefixedNames ==> x in ScanFrom(text, st).prefixedNames
    decreases |text| - st.i
  {
    if st.i < |text| {
      ScanStepCollects(text, st);
      ScanFromKeeps(text, ScanStep(text, st));
    }
  }

  /** Running the loop to the end from a state it reaches is running it to the end. */
  lemma {:induction false} ScanFromSteps(text: string, st: ScanState, n: nat)
    requires st.i <= |text|
    ensures ScanFrom(text, Steps(text, st, n)) == ScanFrom(text, st)
    decreases n
  {
    if n > 0 && st.i < |text| {
      ScanFromSteps(text, ScanStep(text, st), n - 1);
    }
  }

  /** What is taken at a state the scan reaches ends up collected. */
  lemma TakenCollected(text: string, n: nat)
    ensures forall x :: IriRefAt(text, Steps(text, Start, n), x) ==> x in Scan(text).iriRefs
    ensures forall x :: PrefixedNameAt(text, Steps(text, Start, n), x) ==> x in Scan(text).prefixedNames
  {
    var st := Steps(text, Start, n);
    ScanFromSteps(text, Start, n);
    if st.i < |text| {
      ScanStepTakes(text, st);
      ScanFromKeeps(text, ScanStep(text, st));
    }
  }

  /**
   * The whole scan collects exactly what it takes outside comments and strings:
   * nothing from inside a comment or a string, and every `<...>` reference and
   * prefixed name taken outside them. Every prefixed name holds a `:`.
   */
  lemma ScanOrigins(text: string)
    ensures forall x :: x in Scan(text).iriRefs ==> IriRefTaken(text, x)
    ensures forall x :: x in Scan(text).prefixedNames ==> ':' in x && PrefixedNameTaken(text, x)
    ensures forall x :: IriRefTaken(text, x) ==> x in Scan(text).iriRefs
    ensures forall x :: PrefixedNameTaken(text, x) ==> x in Scan(text).prefixedNames
  {
    forall x | IriRefTaken(text, x)
      ensures x in Scan(text).iriRefs
    {
      var n: nat :| IriRefAt(text, Steps(text, Start, n), x);
      TakenCollected(text, n);
    }
    forall x | PrefixedNameTaken(text, x)
      ensures x in Scan(text).prefixedNames
    {
      var n: nat :| PrefixedNameAt(text, Steps(text, Start, n), x);
      TakenCollected(text, n);
    }
    forall x | x in Scan(text).iriRefs
      ensures IriRefTaken(text, x)
    {
      IriRefsOrigin(text, Start, x);
    }
    forall x | x in Scan(text).prefixedNames
      ensures ':' in x && PrefixedNameTaken(text, x)
    {
      PrefixedNamesOrigin(text, Start, x);
      var n: nat :| PrefixedNameAt(text, Steps(text, Start, n), x);
      NameHasColon(text, Steps(text, Start, n), x);
    }
  }

  /** A taken prefixed name holds a `:`. */
  lemma NameHasColon(text: string, st: ScanState, x: string)
    requires PrefixedNameAt(text, st, x)
    ensures ':' in x
  {
    PrefixedNameEndSound(text, st.i);
    var c := IndexOfChar(x, ':', 0);
    assert x[c] == ':';
  }

  /** A `#` comment that runs to the end of the text contributes nothing. */
  lemma {:induction false} CommentToEndCollectsNothing(text: string, st: ScanState)
    requires st.i <= |text| && st.inComment
    requires forall k :: st.i <= k < |text| ==> !IsNL(text[k])
    ensures ScanFrom(text, st).iriRefs == st.iriRefs
    ensures ScanFrom(text, st).prefixedNames == st.prefixedNames
    decreases |text| - st.i
  {
    if st.i < |text| {
      CommentToEndCollectsNothing(text, ScanStep(text, st));
    }
  }
}
