/**
 * The character rules shared by the SPARQL scanner and the SPARQL body
 * rewriter: line breaks, the single-character escape test, and the loose
 * `prefix:local` token shape (a practical subset of PNAME_NS / PNAME_LN).
 */
module SparqlLexer {
  import opened Basics
  import opened JsString

  /** The scanner's own line-break test: only `\n` and `\r`. */
  predicate IsNL(c: char) { c == '\n' || c == '\r' }

  predicate IsNameStart(c: char) { IsAsciiUpper(c) || IsAsciiLower(c) || c == '_' }
  predicate IsNameChar(c: char) { IsNameStart(c) || IsAsciiDigit(c) || c == '-' }
  predicate IsLocalChar(c: char) { IsNameChar(c) || c == '.' }
  /** A local part may begin with a name start or a digit (`_` is already a name start). */
  predicate IsLocalStart(c: char) { IsNameStart(c) || IsAsciiDigit(c) }

  /** The quote at `i` counts as escaped when the one character before it is a backslash. */
  predicate EscapedAt(text: string, i: nat)
    requires i < |text|
  {
    i > 0 && text[i - 1] == '\\'
  }

  /**
   * The token shape the scanner accepts: an optional prefix label
   * `[A-Za-z_][A-Za-z0-9_-]*`, a colon, and a local part `[A-Za-z0-9_][A-Za-z0-9_.-]*`.
   */
  predicate PNameShape(tok: string) {
    var c := IndexOfChar(tok, ':', 0);
    0 <= c < |tok| - 1
    && (c == 0 || (IsNameStart(tok[0]) && forall k :: 1 <= k < c ==> IsNameChar(tok[k])))
    && IsLocalStart(tok[c + 1])
    && forall k :: c + 1 < k < |tok| ==> IsLocalChar(tok[k])
  }

  /**
   * End of the prefixed-name token that starts at `i`, or `None` when the text
   * at `i` does not start one. The local part is taken greedily.
   */
  function PrefixedNameEnd(text: string, i: nat): (r: Option<nat>)
    requires i < |text|
    ensures r.Some? ==> i + 2 <= r.value <= |text|
    ensures r.Some? ==> r.value == |text| || !IsLocalChar(text[r.value])
  {
    var c := text[i];
    if !(IsNameStart(c) || c == ':') then None
    else
      var q := if c == ':' then i else SkipWhile(text, i + 1, IsNameChar);
      if q == |text| || text[q] != ':' then None
      else if q + 1 >= |text| || !IsLocalStart(text[q + 1]) then None
      else
        Some(SkipWhile(text, q + 2, IsLocalChar))
  }

  /** A found token has the prefixed-name shape. */
  lemma PrefixedNameEndSound(text: string, i: nat)
    requires i < |text| && PrefixedNameEnd(text, i).Some?
    ensures PNameShape(text[i..PrefixedNameEnd(text, i).value])
  {
    if text[i] != ':' {
      SkipWhileHolds(text, i + 1, IsNameChar);
    }
    var q := if text[i] == ':' then i else SkipWhile(text, i + 1, IsNameChar);
    SkipWhileHolds(text, q + 2, IsLocalChar);
    FoundShape(text, i, q, SkipWhile(text, q + 2, IsLocalChar));
  }

  /** The pieces `PrefixedNameEnd` checks one by one make up the token shape. */
  lemma FoundShape(text: string, i: nat, q: nat, e: nat)
    requires i <= q && q + 2 <= e <= |text|
    requires text[q] == ':' && IsLocalStart(text[q + 1])
    requires q == i || (IsNameStart(text[i]) && forall k :: i < k < q ==> IsNameChar(text[k]))
    requires forall k :: q + 2 <= k < e ==> IsLocalChar(text[k])
    ensures PNameShape(text[i..e])
  {
    var tok := text[i..e];
    forall k | 0 <= k < q - i
      ensures tok[k] != ':'
    {
      assert tok[k] == text[i + k];
    }
    IndexOfCharIs(tok, ':', 0, q - i);
  }

  /** No token start is missed: when no end is found, no prefix of the rest has the token shape. */
  lemma PrefixedNameEndComplete(text: string, i: nat, e: nat)
    requires i < e <= |text|
    requires PNameShape(text[i..e])
    ensures PrefixedNameEnd(text, i).Some?
  {
    var tok := text[i..e];
    var c := IndexOfChar(tok, ':', 0);
    assert forall k :: 0 <= k < c ==> tok[k] == text[i + k];
    if c > 0 {
      var q := SkipWhile(text, i + 1, IsNameChar);
      SkipWhileHolds(text, i + 1, IsNameChar);
      assert q == i + c;
    }
    assert text[i + c + 1] == tok[c + 1];
  }
}
