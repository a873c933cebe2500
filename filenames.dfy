/**
 * The small naming helpers of both pages: the file name given to a mapped
 * output, the extension a download is forced to carry, run identifiers, and
 * the ontology format guessed from a file name.
 */
module FileNames {
  import opened JsString

  // ------------------------------------------------------------ the last dot

  /** `LastIndexOfChar(s, '.')` is the one position holding a `.` with none after it. */
  lemma LastDotAt(s: string, j: int)
    requires -1 <= j < |s|
    requires j >= 0 ==> s[j] == '.'
    requires forall k :: j < k < |s| ==> s[k] != '.'
    ensures LastIndexOfChar(s, '.') == j
  {
    LastIndexOfCharLast(s, '.');
  }

  /**
   * The extension `outputFileName` keeps: the text from the last `.` on, or
   * nothing when there is no `.` or the only one opens the name.
   */
  function Extension(name: string): (e: string)
    ensures e == "" <==> LastIndexOfChar(name, '.') <= 0
    ensures e != "" ==> 0 < |name| - |e| && name[|name| - |e|..] == e && e[0] == '.'
    ensures forall k :: 0 < k < |e| ==> e[k] != '.'
  {
    var idx := LastIndexOfChar(name, '.');
    LastIndexOfCharLast(name, '.');
    if idx <= 0 then "" else name[idx..]
  }

  // -------------------------------------------------------- outputFileName

  /** `outputFileName(inputName)` of the ontology page (app.js). */
  function OutputFileName(inputName: string): (r: string)
    ensures |r| == |inputName| + 7
  {
    var idx := LastIndexOfChar(inputName, '.');
    if idx <= 0 then inputName + ".mapped"
    else inputName[..idx] + ".mapped" + inputName[idx..]
  }

  /** `outputFileName(inputName)` of the query page (sparql.js): a name without extension gets `.mapped.rq`. */
  function SparqlOutputFileName(inputName: string): (r: string)
    ensures Extension(inputName) == "" ==> r == OutputFileName(inputName) + ".rq"
    ensures Extension(inputName) != "" ==> r == OutputFileName(inputName)
  {
    var idx := LastIndexOfChar(inputName, '.');
    if idx <= 0 then inputName + ".mapped.rq"
    else inputName[..idx] + ".mapped" + inputName[idx..]
  }

  /** Takes `.mapped` back out: just before the extension, or else from the end. */
  function Unmapped(r: string): string {
    var j := LastIndexOfChar(r, '.');
    if j > 7 && r[j - 7..j] == ".mapped" then r[..j - 7] + r[j..]
    else if |r| >= 7 && r[|r| - 7..] == ".mapped" then r[..|r| - 7]
    else r
  }

  /** No two input names share an output name: `Unmapped` recovers the input. */
  lemma OutputFileNameRoundTrip(inputName: string)
    ensures Unmapped(OutputFileName(inputName)) == inputName
  {
    if LastIndexOfChar(inputName, '.') <= 0 {
      AppendedRoundTrip(inputName);
    } else {
      InsertedRoundTrip(inputName);
    }
  }

  /** A name without extension had `.mapped` appended; `Unmapped` drops it again. */
  lemma AppendedRoundTrip(inputName: string)
    requires LastIndexOfChar(inputName, '.') <= 0
    ensures Unmapped(inputName + ".mapped") == inputName
  {
    var r := inputName + ".mapped";
    var n := |inputName|;
    LastIndexOfCharLast(inputName, '.');
    LastDotAt(r, n);
    assert r[..n] == inputName;
    if n > 7 && r[n - 7..n] == ".mapped" {
      assert false;
    }
    assert r[|r| - 7..] == ".mapped";
  }

  /** A name with extension had `.mapped` put before it; `Unmapped` takes it out again. */
  lemma InsertedRoundTrip(inputName: string)
    requires LastIndexOfChar(inputName, '.') > 0
    ensures var idx := LastIndexOfChar(inputName, '.');
      Unmapped(inputName[..idx] + ".mapped" + inputName[idx..]) == inputName
  {
    var idx := LastIndexOfChar(inputName, '.');
    var r := inputName[..idx] + ".mapped" + inputName[idx..];
    LastIndexOfCharLast(inputName, '.');
    LastDotAt(r, idx + 7);
    assert r[idx..idx + 7] == ".mapped";
    assert r[..idx] == inputName[..idx];
    assert r[idx + 7..] == inputName[idx..];
    assert inputName[..idx] + inputName[idx..] == inputName;
  }

  /**
   * The output keeps the input's extension; an input with a name but no
   * extension comes out with the extension `.mapped`.
   */
  lemma OutputKeepsExtension(inputName: string)
    ensures Extension(inputName) != "" ==> Extension(OutputFileName(inputName)) == Extension(inputName)
    ensures Extension(inputName) == "" && inputName != "" ==> Extension(OutputFileName(inputName)) == ".mapped"
  {
    var idx := LastIndexOfChar(inputName, '.');
    var r := OutputFileName(inputName);
    LastIndexOfCharLast(inputName, '.');
    if idx <= 0 {
      LastDotAt(r, |inputName|);
      assert r[|inputName|..] == ".mapped";
    } else {
      LastDotAt(r, idx + 7);
      assert r[idx + 7..] == inputName[idx..];
    }
  }

  /** A query file always comes out with an extension: its own, or `.rq`. */
  lemma SparqlOutputHasExtension(inputName: string)
    ensures Extension(inputName) != "" ==> Extension(SparqlOutputFileName(inputName)) == Extension(inputName)
    ensures Extension(inputName) == "" ==> Extension(SparqlOutputFileName(inputName)) == ".rq"
  {
    var idx := LastIndexOfChar(inputName, '.');
    var r := SparqlOutputFileName(inputName);
    if idx <= 0 {
      LastDotAt(r, |inputName| + 7);
      assert r[|inputName| + 7..] == ".rq";
    } else {
      OutputKeepsExtension(inputName);
    }
  }

  /** A query name without extension is named as if it ended in `.rq`. */
  lemma SparqlDotlessLikeRq(inputName: string)
    requires inputName != "" && Extension(inputName) == ""
    ensures SparqlOutputFileName(inputName) == SparqlOutputFileName(inputName + ".rq")
  {
    var s := inputName + ".rq";
    LastDotAt(s, |inputName|);
    assert s[..|inputName|] == inputName && s[|inputName|..] == ".rq";
  }

  // ---------------------------------------------------- ensureRqExtension

  /** `s` ends with `suffix`, ASCII letters compared without case (a regular expression's `i` flag). */
  predicate EndsWithIgnoreCase(s: string, suffix: string) {
    |suffix| <= |s| && EqualsIgnoreCaseAscii(s[|s| - |suffix|..], suffix)
  }

  /** The test `/\.(rq|sparql)$/i`. */
  predicate HasQueryExtension(name: string) {
    EndsWithIgnoreCase(name, ".rq") || EndsWithIgnoreCase(name, ".sparql")
  }

  /** `ensureRqExtension(name)`: a name ending in `.rq` or `.sparql` (any case) is kept, any other gets `.rq`. */
  function EnsureRqExtension(name: string): (r: string)
    ensures HasQueryExtension(r)
    ensures HasQueryExtension(name) ==> r == name
    ensures !HasQueryExtension(name) ==> |r| == |name| + 3 && r[..|name|] == name
  {
    if HasQueryExtension(name) then name
    else
      var r := name + ".rq";
      assert r[|r| - 3..] == ".rq";
      r
  }

  /** Ensuring the extension twice is ensuring it once. */
  lemma EnsureRqExtensionIdempotent(name: string)
    ensures EnsureRqExtension(EnsureRqExtension(name)) == EnsureRqExtension(name)
  {}

  // ---------------------------------------------------------------- makeRunId

  /** The characters `makeRunId` keeps in a file name: `[\w.-]`. */
  predicate IsIdChar(c: char) {
    IsWordChar(c) || c == '.' || c == '-'
  }

  /**
   * `replace(/[^\w.-]+/g, "_")` read from left to right; `inRun` says that a
   * run of other characters is already open and its `_` already written.
   */
  function SanitizeFrom(s: string, inRun: bool): (r: string)
    ensures |r| <= |s|
    ensures forall k :: 0 <= k < |r| ==> IsIdChar(r[k])
    ensures (forall k :: 0 <= k < |s| ==> IsIdChar(s[k])) ==> r == s
    decreases |s|
  {
    if s == [] then []
    else
      assert forall k :: 0 <= k < |s[1..]| ==> s[1..][k] == s[k + 1];
      if IsIdChar(s[0]) then [s[0]] + SanitizeFrom(s[1..], false)
      else if inRun then SanitizeFrom(s[1..], true)
      else
        assert IsIdChar('_');
        "_" + SanitizeFrom(s[1..], true)
  }

  /** `fileName.replace(/[^\w.-]+/g, "_")`: every maximal run of other characters becomes one `_`. */
  function Sanitize(s: string): (r: string)
    ensures |r| <= |s|
    ensures forall k :: 0 <= k < |r| ==> IsIdChar(r[k])
    ensures (forall k :: 0 <= k < |s| ==> IsIdChar(s[k])) ==> r == s
  {
    SanitizeFrom(s, false)
  }

  /** Whether a run of other characters is open after reading `a` from state `inRun`. */
  function RunAfter(a: string, inRun: bool): bool {
    if a == [] then inRun else !IsIdChar(a[|a| - 1])
  }

  /** What reading one character `c` writes in state `inRun`. */
  function StepOut(c: char, inRun: bool): string {
    if IsIdChar(c) then [c] else if inRun then "" else "_"
  }

  /** One character at a time: what the first character writes, then the rest in the new state. */
  lemma SanitizeStep(s: string, inRun: bool)
    requires s != []
    ensures SanitizeFrom(s, inRun) == StepOut(s[0], inRun) + SanitizeFrom(s[1..], !IsIdChar(s[0]))
  {}

  /** Sanitizing splits at any point, carrying the run state across the cut. */
  lemma {:induction false} SanitizeFromAppend(a: string, b: string, inRun: bool)
    ensures SanitizeFrom(a + b, inRun) == SanitizeFrom(a, inRun) + SanitizeFrom(b, RunAfter(a, inRun))
    decreases |a|
  {
    if a == [] {
      assert a + b == b;
    } else {
      var next := !IsIdChar(a[0]);
      var rest := a[1..];
      assert (a + b)[0] == a[0];
      assert (a + b)[1..] == rest + b;
      assert RunAfter(rest, next) == RunAfter(a, inRun) by {
        if |a| > 1 {
          assert rest[|rest| - 1] == a[|a| - 1];
        }
      }
      calc {
        SanitizeFrom(a + b, inRun);
        { SanitizeStep(a + b, inRun); }
        StepOut(a[0], inRun) + SanitizeFrom(rest + b, next);
        { SanitizeFromAppend(rest, b, next); }
        StepOut(a[0], inRun) + (SanitizeFrom(rest, next) + SanitizeFrom(b, RunAfter(a, inRun)));
        (StepOut(a[0], inRun) + SanitizeFrom(rest, next)) + SanitizeFrom(b, RunAfter(a, inRun));
        { SanitizeStep(a, inRun); }
        SanitizeFrom(a, inRun) + SanitizeFrom(b, RunAfter(a, inRun));
      }
    }
  }

  /** A text that opens with a kept character sanitizes the same whatever the run state. */
  lemma KeptStartForgetsRun(b: string)
    requires b != [] && IsIdChar(b[0])
    ensures SanitizeFrom(b, true) == SanitizeFrom(b, false)
  {}

  /**
   * Sanitizing works piece by piece, as long as the cut does not fall inside
   * a run of replaced characters.
   */
  lemma SanitizeAppend(a: string, b: string)
    requires a == [] || b == [] || IsIdChar(a[|a| - 1]) || IsIdChar(b[0])
    ensures Sanitize(a + b) == Sanitize(a) + Sanitize(b)
  {
    SanitizeFromAppend(a, b, false);
    if b != [] && IsIdChar(b[0]) {
      KeptStartForgetsRun(b);
    }
  }

  /** A run made only of other characters writes a single `_`, or nothing when a run is already open. */
  lemma {:induction false} RunWritesOne(u: string, inRun: bool)
    requires u != [] && forall k :: 0 <= k < |u| ==> !IsIdChar(u[k])
    ensures SanitizeFrom(u, inRun) == if inRun then "" else "_"
    decreases |u|
  {
    if |u| > 1 {
      assert forall k :: 0 <= k < |u[1..]| ==> !IsIdChar(u[1..][k]) by {
        forall k | 0 <= k < |u[1..]| ensures !IsIdChar(u[1..][k]) {
          assert u[1..][k] == u[k + 1];
        }
      }
      RunWritesOne(u[1..], true);
    }
  }

  /** A whole run of replaced characters, between kept ones, becomes a single `_`. */
  lemma SanitizeRun(a: string, u: string, b: string)
    requires u != [] && forall k :: 0 <= k < |u| ==> !IsIdChar(u[k])
    requires a == [] || IsIdChar(a[|a| - 1])
    requires b == [] || IsIdChar(b[0])
    ensures Sanitize(a + u + b) == Sanitize(a) + "_" + Sanitize(b)
  {
    assert RunAfter(a, false) == false;
    assert RunAfter(u, false) == true;
    calc {
      Sanitize(a + u + b);
      { assert a + u + b == a + (u + b); }
      SanitizeFrom(a + (u + b), false);
      { SanitizeFromAppend(a, u + b, false); }
      SanitizeFrom(a, false) + SanitizeFrom(u + b, false);
      { SanitizeFromAppend(u, b, false); }
      SanitizeFrom(a, false) + (SanitizeFrom(u, false) + SanitizeFrom(b, true));
      { RunWritesOne(u, false); }
      SanitizeFrom(a, false) + ("_" + SanitizeFrom(b, true));
      { if b != [] { KeptStartForgetsRun(b); } }
      SanitizeFrom(a, false) + ("_" + SanitizeFrom(b, false));
      Sanitize(a) + "_" + Sanitize(b);
    }
  }

  /** Two parts joined by a `:`. */
  function Colon(a: string, b: string): string {
    a + ":" + b
  }

  /** `makeRunId(kind, fileName, iso)` of the ontology page; the timestamp `iso` is a parameter. */
  function MakeRunId(kind: string, fileName: string, iso: string): (r: string)
    ensures var head := "urn:myna:" + kind + ":";
      && |head| + 1 + |iso| <= |r| && r[..|head|] == head && r[|r| - |iso|..] == iso && r[|r| - |iso| - 1] == ':'
      && forall k :: |head| <= k < |r| - |iso| - 1 ==> IsIdChar(r[k])
  {
    var r := "urn:myna:" + Colon(kind, Colon(Sanitize(fileName), iso));
    RunIdShape("urn:myna:" + kind + ":", Sanitize(fileName), iso, r);
    r
  }

  /** `makeRunId(kind, fileName, iso)` of the query page. */
  function SparqlMakeRunId(kind: string, fileName: string, iso: string): (r: string)
    ensures var head := "urn:myna:sparql:" + kind + ":";
      && |head| + 1 + |iso| <= |r| && r[..|head|] == head && r[|r| - |iso|..] == iso && r[|r| - |iso| - 1] == ':'
      && forall k :: |head| <= k < |r| - |iso| - 1 ==> IsIdChar(r[k])
  {
    var r := "urn:myna:sparql:" + kind + ":" + Sanitize(fileName) + ":" + iso;
    RunIdShape("urn:myna:sparql:" + kind + ":", Sanitize(fileName), iso, r);
    r
  }

  /** `head + safe + ":" + iso` read back from its ends. */
  lemma RunIdShape(head: string, safe: string, iso: string, r: string)
    requires forall k :: 0 <= k < |safe| ==> IsIdChar(safe[k])
    requires r == head + safe + ":" + iso
    ensures |head| + 1 + |iso| <= |r| && r[..|head|] == head && r[|r| - |iso|..] == iso && r[|r| - |iso| - 1] == ':'
    ensures forall k :: |head| <= k < |r| - |iso| - 1 ==> IsIdChar(r[k])
  {
    forall k | |head| <= k < |r| - |iso| - 1 ensures IsIdChar(r[k]) {
      assert r[k] == safe[k - |head|];
    }
  }

  /** Two strings cut at their first `:` agree piece by piece. */
  lemma ColonSplit(a: string, b: string, c: string, d: string)
    requires ':' !in a && ':' !in c
    requires Colon(a, b) == Colon(c, d)
    ensures a == c && b == d
  {
    var x := Colon(a, b);
    FirstColon(a, b);
    FirstColon(c, d);
    assert a == x[..|a|] == c;
    assert b == x[|a| + 1..] == d;
  }

  /** The first `:` of `Colon(a, b)` is the joining one when `a` has none. */
  lemma FirstColon(a: string, b: string)
    requires ':' !in a
    ensures IndexOfChar(Colon(a, b), ':', 0) == |a|
  {
    var x := Colon(a, b);
    assert forall k :: 0 <= k < |a| ==> x[k] == a[k];
    IndexOfCharIs(x, ':', 0, |a|);
  }

  /** The same prefix followed by two texts gives one string only when the texts agree. */
  lemma PrefixCancel(p: string, x: string, y: string)
    requires p + x == p + y
    ensures x == y
  {
    assert x == (p + x)[|p|..];
  }

  /** A sanitized file name holds no `:`, so it cannot be confused with a separator. */
  lemma SanitizedHasNoColon(fileName: string)
    ensures ':' !in Sanitize(fileName)
  {
    assert !IsIdChar(':');
  }

  /**
   * A run id determines its kind, its sanitized file name and its timestamp,
   * for kinds without `:` (the pages use "input" and "output").
   */
  lemma MakeRunIdParts(kind1: string, file1: string, iso1: string, kind2: string, file2: string, iso2: string)
    requires ':' !in kind1 && ':' !in kind2
    requires MakeRunId(kind1, file1, iso1) == MakeRunId(kind2, file2, iso2)
    ensures kind1 == kind2 && Sanitize(file1) == Sanitize(file2) && iso1 == iso2
  {
    PrefixCancel("urn:myna:", Colon(kind1, Colon(Sanitize(file1), iso1)), Colon(kind2, Colon(Sanitize(file2), iso2)));
    ColonSplit(kind1, Colon(Sanitize(file1), iso1), kind2, Colon(Sanitize(file2), iso2));
    SanitizedHasNoColon(file1);
    SanitizedHasNoColon(file2);
    ColonSplit(Sanitize(file1), iso1, Sanitize(file2), iso2);
  }

  /** A run id of the ontology page with a kind other than "sparql" is never one of the query page. */
  lemma RunIdsDisjoint(kind1: string, file1: string, iso1: string, kind2: string, file2: string, iso2: string)
    requires ':' !in kind1 && kind1 != "sparql"
    ensures MakeRunId(kind1, file1, iso1) != SparqlMakeRunId(kind2, file2, iso2)
  {
    var r1, r2 := MakeRunId(kind1, file1, iso1), SparqlMakeRunId(kind2, file2, iso2);
    var n := |kind1|;
    var head2 := "urn:myna:sparql:" + kind2 + ":";
    assert r2[..|head2|] == head2;
    if n < 6 {
      assert r1[9 + n] == ':';
      assert r2[9 + n] == head2[9 + n] != ':';
    } else if n == 6 {
      assert r1[9..15] == kind1;
      assert r2[9..15] == head2[9..15] == "sparql";
    } else {
      assert r1[15] == kind1[6] != ':';
      assert r2[15] == head2[15] == ':';
    }
  }

  // ------------------------------------------------------- formats and extensions

  const TurtleType := "text/turtle"
  const NTriplesType := "application/n-triples"
  const NQuadsType := "application/n-quads"
  const JsonLdType := "application/ld+json"
  const RdfXmlType := "application/rdf+xml"
  const UnknownType := "application/octet-stream"

  /** The content types `serializeRun` can write. */
  predicate IsExportType(ct: string) {
    ct == TurtleType || ct == NTriplesType || ct == RdfXmlType || ct == JsonLdType
  }

  datatype OntologyFormat = OntologyFormat(contentType: string, labelText: string)

  /** `fileName.split(".").pop()`: the text after the last `.`, or the whole name when it has none. */
  function LastSegment(name: string): (r: string)
    ensures |r| <= |name| && name[|name| - |r|..] == r
    ensures forall k :: 0 <= k < |r| ==> r[k] != '.'
    ensures |r| < |name| ==> name[|name| - |r| - 1] == '.'
  {
    LastIndexOfCharLast(name, '.');
    name[LastIndexOfChar(name, '.') + 1..]
  }

  /** The extensions `detectOntologyFormat` knows. */
  const KnownExtensions: seq<string> := ["ttl", "turtle", "trig", "nt", "nq", "jsonld", "json", "rdf", "owl", "xml"]

  /** The format `detectOntologyFormat` names for a lower-cased extension. */
  function FormatOfExt(ext: string): (f: OntologyFormat)
    ensures f.contentType == UnknownType <==> ext !in KnownExtensions
  {
    if ext == "ttl" || ext == "turtle" || ext == "trig" then OntologyFormat(TurtleType, "Turtle")
    else if ext == "nt" then OntologyFormat(NTriplesType, "N-Triples")
    else if ext == "nq" then OntologyFormat(NQuadsType, "N-Quads")
    else if ext == "jsonld" || ext == "json" then OntologyFormat(JsonLdType, "JSON-LD")
    else if ext == "rdf" || ext == "owl" || ext == "xml" then OntologyFormat(RdfXmlType, "RDF/XML (or .owl as RDF/XML)")
    else OntologyFormat(UnknownType, "Unknown (will attempt parsing)")
  }

  /** `detectOntologyFormat(fileName)`: the format named by the last segment, compared in lower case. */
  function DetectOntologyFormat(fileName: string): (f: OntologyFormat)
    ensures f.contentType == UnknownType <==> ToLowerAscii(LastSegment(fileName)) !in KnownExtensions
  {
    FormatOfExt(ToLowerAscii(LastSegment(fileName)))
  }

  /** `contentTypeToExt(ct)`: the download extension of a content type, `.txt` for any other. */
  function ContentTypeToExt(ct: string): (e: string)
    ensures |e| > 1 && e[0] == '.' && forall k :: 1 <= k < |e| ==> e[k] != '.' && !IsAsciiUpper(e[k])
    ensures e == ".txt" <==> !IsExportType(ct)
  {
    if ct == TurtleType then ".ttl"
    else if ct == NTriplesType then ".nt"
    else if ct == RdfXmlType then ".rdf"
    else if ct == JsonLdType then ".jsonld"
    else ".txt"
  }

  const RdfExtensions: seq<string> := ["ttl", "nt", "nq", "trig", "rdf", "owl", "xml", "jsonld", "json"]

  /** Drops `.x` from the end of `name` for the first `x` in `exts` it ends with (any case). */
  function StripFirst(name: string, exts: seq<string>): (r: string)
    ensures r == name || exists x :: x in exts && EndsWithIgnoreCase(name, "." + x) && r == name[..|name| - |x| - 1]
    ensures (exists x :: x in exts && EndsWithIgnoreCase(name, "." + x)) ==> |r| < |name|
  {
    if exts == [] then name
    else if EndsWithIgnoreCase(name, "." + exts[0]) then name[..|name| - |exts[0]| - 1]
    else StripFirst(name, exts[1..])
  }

  /** `name.replace(/\.(ttl|nt|nq|trig|rdf|owl|xml|jsonld|json)$/i, "")`. */
  function StripRdfExtension(name: string): (r: string)
    ensures r == name || exists x :: x in RdfExtensions && EndsWithIgnoreCase(name, "." + x) && r == name[..|name| - |x| - 1]
    ensures (exists x :: x in RdfExtensions && EndsWithIgnoreCase(name, "." + x)) ==> |r| < |name|
  {
    StripFirst(name, RdfExtensions)
  }

  /** `ensureExt(name, ext)`: kept when its lower-cased form ends with `ext`, else a known RDF extension is swapped for `ext`. */
  function EnsureExt(name: string, ext: string): (r: string)
    ensures EndsWith(ToLowerAscii(name), ext) ==> r == name
    ensures (forall k :: 0 <= k < |ext| ==> !IsAsciiUpper(ext[k])) ==> EndsWith(ToLowerAscii(r), ext)
  {
    if EndsWith(ToLowerAscii(name), ext) then name
    else
      var r := StripRdfExtension(name) + ext;
      LowerSuffix(StripRdfExtension(name), ext);
      r
  }

  /** Lower-casing a name whose tail has no upper-case letters keeps that tail. */
  lemma LowerSuffix(a: string, ext: string)
    ensures (forall k :: 0 <= k < |ext| ==> !IsAsciiUpper(ext[k])) ==> EndsWith(ToLowerAscii(a + ext), ext)
  {
    var l := ToLowerAscii(a + ext);
    if forall k :: 0 <= k < |ext| ==> !IsAsciiUpper(ext[k]) {
      assert forall k :: 0 <= k < |ext| ==> l[|a| + k] == ext[k];
      assert l[|l| - |ext|..] == ext;
    }
  }

  /** Forcing the same lower-case extension twice is forcing it once. */
  lemma EnsureExtIdempotent(name: string, ext: string)
    requires forall k :: 0 <= k < |ext| ==> !IsAsciiUpper(ext[k])
    ensures EnsureExt(EnsureExt(name, ext), ext) == EnsureExt(name, ext)
  {}

  /** A file whose name ends in a known RDF extension (any case) has that extension swapped, not added to. */
  lemma EnsureExtSwaps(base: string, x: string, ext: string)
    requires ToLowerAscii(x) in RdfExtensions
    requires !EndsWith(ToLowerAscii(base + "." + x), ext)
    ensures EnsureExt(base + "." + x, ext) == base + ext
  {
    StripKnownExtension(base, x);
  }

  /** Stripping the extension of `base.x`, for a known RDF extension `x` in any case, leaves `base`. */
  lemma StripKnownExtension(base: string, x: string)
    requires ToLowerAscii(x) in RdfExtensions
    ensures StripRdfExtension(base + "." + x) == base
  {
    RdfExtensionsDotless();
    StripListedExtension(base, x, RdfExtensions);
  }

  /** Stripping the first matching extension of `exts` from `base.x`, for an `x` listed there in any case, leaves `base`. */
  lemma StripListedExtension(base: string, x: string, exts: seq<string>)
    requires ToLowerAscii(x) in exts
    requires forall j :: 0 <= j < |exts| ==> '.' !in exts[j]
    ensures StripFirst(base + "." + x, exts) == base
  {
    var name := base + "." + x;
    var i := IndexIn(exts, ToLowerAscii(x));
    NoDotBeforeLower(x);
    EndsWithOwnLower(base, x);
    DotBeforeSuffix(base, x);
    StripFirstAt(name, exts, |x|, i);
  }

  /** Lower-casing never makes a `.`, so a text whose lower-case form has none has none either. */
  lemma NoDotBeforeLower(x: string)
    requires '.' !in ToLowerAscii(x)
    ensures forall k :: 0 <= k < |x| ==> x[k] != '.'
  {
    forall k | 0 <= k < |x| ensures x[k] != '.' {
      assert ToLowerAscii(x)[k] == ToLowerAsciiChar(x[k]);
    }
  }

  /** In `base.x` the `.` sits just before `x`, and the characters of `x` follow it. */
  lemma DotBeforeSuffix(base: string, x: string)
    ensures var name := base + "." + x;
      && name[|name| - |x| - 1] == '.' && name[..|name| - |x| - 1] == base
      && forall k :: |name| - |x| <= k < |name| ==> name[k] == x[k - (|name| - |x|)]
  {}

  /** Where `x` sits in `s`. */
  lemma IndexIn(s: seq<string>, x: string) returns (i: nat)
    requires x in s
    ensures i < |s| && s[i] == x
  {
    i :| 0 <= i < |s| && s[i] == x;
  }

  /** No known RDF extension holds a `.`. */
  lemma RdfExtensionsDotless()
    ensures forall j :: 0 <= j < |RdfExtensions| ==> '.' !in RdfExtensions[j]
  {}

  /**
   * When the name's last `.` opens its last `n + 1` characters and the
   * extension at `i` matches, the match found is the one of length `n`.
   */
  lemma {:induction false} StripFirstAt(name: string, exts: seq<string>, n: nat, i: nat)
    requires n < |name| && name[|name| - n - 1] == '.'
    requires forall k :: |name| - n <= k < |name| ==> name[k] != '.'
    requires forall j :: 0 <= j < |exts| ==> '.' !in exts[j]
    requires i < |exts| && EndsWithIgnoreCase(name, "." + exts[i])
    ensures StripFirst(name, exts) == name[..|name| - n - 1]
    decreases i
  {
    if EndsWithIgnoreCase(name, "." + exts[0]) {
      DotInMatch(name, n, exts[0]);
    } else {
      assert exts[1..][i - 1] == exts[i];
      StripFirstAt(name, exts[1..], n, i - 1);
    }
  }

  /** A name ending in `.x` ends, ignoring case, in `.x` lower-cased. */
  lemma EndsWithOwnLower(base: string, x: string)
    ensures EndsWithIgnoreCase(base + "." + x, "." + ToLowerAscii(x))
  {
    var name := base + "." + x;
    var t := name[|name| - |x| - 1..];
    var lx := ToLowerAscii(x);
    assert t == "." + x;
    forall k | 0 <= k < |t| ensures ToLowerAsciiChar(t[k]) == ToLowerAsciiChar(("." + lx)[k]) {
      if k > 0 {
        assert t[k] == x[k - 1] && ("." + lx)[k] == lx[k - 1];
      }
    }
  }

  /**
   * A name whose only `.` in its last `n + 1` characters opens them can end
   * (any case) in `.y` for a `y` without `.` only when `y` has length `n`.
   */
  lemma DotInMatch(name: string, n: nat, y: string)
    requires n < |name| && name[|name| - n - 1] == '.'
    requires forall k :: |name| - n <= k < |name| ==> name[k] != '.'
    requires '.' !in y
    requires EndsWithIgnoreCase(name, "." + y)
    ensures |y| == n
  {
    var t := name[|name| - |y| - 1..];
    assert ToLowerAsciiChar(t[0]) == ToLowerAsciiChar('.');
  }

  /** The last segment of a name ending (any case) in `.e`, for an `e` without `.`, reads `e` in lower case. */
  lemma LastSegmentOfSuffix(name: string, e: string)
    requires forall k :: 0 <= k < |e| ==> e[k] != '.'
    requires EndsWith(ToLowerAscii(name), "." + e)
    ensures ToLowerAscii(LastSegment(name)) == e
  {
    SuffixChars(name, e);
    LastSegmentAt(name, |name| - |e|);
    LowerOfTail(name, e);
  }

  /** The last segment starts right after a `.` with no `.` after it. */
  lemma LastSegmentAt(name: string, q: nat)
    requires 0 < q <= |name| && name[q - 1] == '.'
    requires forall k :: q <= k < |name| ==> name[k] != '.'
    ensures LastSegment(name) == name[q..]
  {
    LastDotAt(name, q - 1);
  }

  /** The last `|e|` characters of `name` lower-case to `e` when each one does. */
  lemma LowerOfTail(name: string, e: string)
    requires |e| <= |name|
    requires forall k :: 0 <= k < |e| ==> ToLowerAsciiChar(name[|name| - |e| + k]) == e[k]
    ensures ToLowerAscii(name[|name| - |e|..]) == e
  {
    var ls := ToLowerAscii(name[|name| - |e|..]);
    forall k | 0 <= k < |e| ensures ls[k] == e[k] {
      assert name[|name| - |e|..][k] == name[|name| - |e| + k];
    }
  }

  /** Read character by character, a name whose lower-case form ends in `.e` has its `.` and then `e` up to case. */
  lemma SuffixChars(name: string, e: string)
    requires forall k :: 0 <= k < |e| ==> e[k] != '.'
    requires EndsWith(ToLowerAscii(name), "." + e)
    ensures |e| < |name|
    ensures name[|name| - |e| - 1] == '.'
    ensures forall k :: 0 <= k < |e| ==> ToLowerAsciiChar(name[|name| - |e| + k]) == e[k]
    ensures forall k :: |name| - |e| <= k < |name| ==> name[k] != '.'
  {
    var l := ToLowerAscii(name);
    var p := |name| - |e| - 1;
    var tail := l[p..];
    assert tail == "." + e;
    assert l[p] == tail[0] == '.';
    forall k | 0 <= k < |e| ensures ToLowerAsciiChar(name[|name| - |e| + k]) == e[k] {
      var j := |name| - |e| + k;
      calc {
        ToLowerAsciiChar(name[j]);
        l[j];
        tail[k + 1];
        ("." + e)[k + 1];
        e[k];
      }
    }
    forall k | |name| - |e| <= k < |name| ensures name[k] != '.' {
      assert ToLowerAsciiChar(name[|name| - |e| + (k - (|name| - |e|))]) == e[k - (|name| - |e|)];
    }
  }

  /**
   * A downloaded export re-opens as what it was written as: the name
   * `ensureExt` gives it for its content type is detected as that type.
   */
  lemma ExportReopens(name: string, ct: string)
    requires IsExportType(ct)
    ensures DetectOntologyFormat(EnsureExt(name, ContentTypeToExt(ct))).contentType == ct
  {
    var ext := ContentTypeToExt(ct);
    var r := EnsureExt(name, ext);
    assert ext == "." + ext[1..];
    LastSegmentOfSuffix(r, ext[1..]);
    ExportExtensionNamesType(ct);
  }

  /** The extension an export is given names its content type again. */
  lemma ExportExtensionNamesType(ct: string)
    requires IsExportType(ct)
    ensures FormatOfExt(ContentTypeToExt(ct)[1..]).contentType == ct
  {
    if ct == TurtleType {
      assert ContentTypeToExt(ct)[1..] == "ttl";
    } else if ct == NTriplesType {
      assert ContentTypeToExt(ct)[1..] == "nt";
    } else if ct == RdfXmlType {
      assert ContentTypeToExt(ct)[1..] == "rdf";
    } else {
      assert ContentTypeToExt(ct)[1..] == "jsonld";
    }
  }
}
