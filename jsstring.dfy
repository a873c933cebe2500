/**
 * The JavaScript string primitives the browser tool relies on, stated over
 * `seq<char>`: the `\s` character class and `String.prototype.trim`, `indexOf`,
 * `lastIndexOf`, `startsWith`, `endsWith`, `includes`, ASCII `toLowerCase`, and
 * `replace` with a string pattern (including its `$`-substitution patterns).
 */
module JsString {

  /** ECMAScript WhiteSpace or LineTerminator: the class `\s`, and what `trim` removes. */
  predicate IsJsSpace(c: char) {
    c == '\t' || c == '\n' || c == '\U{B}' || c == '\U{C}' || c == '\r' || c == ' '
    || c == '\U{A0}' || c == '\U{1680}' || ('\U{2000}' <= c <= '\U{200A}')
    || c == '\U{2028}' || c == '\U{2029}' || c == '\U{202F}' || c == '\U{205F}'
    || c == '\U{3000}' || c == '\U{FEFF}'
  }

  /** ECMAScript LineTerminator: where `^` and `$` match in a multiline regular expression. */
  predicate IsLineTerminator(c: char) {
    c == '\n' || c == '\r' || c == '\U{2028}' || c == '\U{2029}'
  }

  lemma LineTerminatorIsSpace(c: char)
    ensures IsLineTerminator(c) ==> IsJsSpace(c)
  {}

  predicate IsAsciiUpper(c: char) { 'A' <= c <= 'Z' }
  predicate IsAsciiLower(c: char) { 'a' <= c <= 'z' }
  predicate IsAsciiDigit(c: char) { '0' <= c <= '9' }

  /** The regular-expression class `\w` (no `u` flag): `[A-Za-z0-9_]`. */
  predicate IsWordChar(c: char) {
    IsAsciiUpper(c) || IsAsciiLower(c) || IsAsciiDigit(c) || c == '_'
  }

  /** First index at or after `p` that does not hold a `\s` character (`|s|` if none). */
  function SpacesEnd(s: string, p: nat): (r: nat)
    requires p <= |s|
    ensures p <= r <= |s|
    ensures r == |s| || !IsJsSpace(s[r])
    decreases |s| - p
  {
    if p == |s| || !IsJsSpace(s[p]) then p else SpacesEnd(s, p + 1)
  }

  /** Everything `SpacesEnd` skips is white space. */
  lemma {:induction false} SpacesSkipped(s: string, p: nat)
    requires p <= |s|
    ensures forall k :: p <= k < SpacesEnd(s, p) ==> IsJsSpace(s[k])
    decreases |s| - p
  {
    if p < |s| && IsJsSpace(s[p]) {
      SpacesSkipped(s, p + 1);
    }
  }

  /** First index at or after `p` whose character fails `f` (`|s|` if none): a greedy `[...]*` run. */
  function SkipWhile(s: string, p: nat, f: char -> bool): (r: nat)
    requires p <= |s|
    ensures p <= r <= |s|
    ensures r == |s| || !f(s[r])
    decreases |s| - p
  {
    if p == |s| || !f(s[p]) then p else SkipWhile(s, p + 1, f)
  }

  /** Every character `SkipWhile` skips passes `f`. */
  lemma {:induction false} SkipWhileHolds(s: string, p: nat, f: char -> bool)
    requires p <= |s|
    ensures forall k :: p <= k < SkipWhile(s, p, f) ==> f(s[k])
    decreases |s| - p
  {
    if p < |s| && f(s[p]) {
      SkipWhileHolds(s, p + 1, f);
    }
  }

  /** Start of the run of white space that ends at `e` and begins no earlier than `p` (`e` if `s[e - 1]` is not space). */
  function SpacesStart(s: string, p: nat, e: nat): (r: nat)
    requires p <= e <= |s|
    ensures p <= r <= e
    ensures r == p || !IsJsSpace(s[r - 1])
    decreases e
  {
    if e == p || !IsJsSpace(s[e - 1]) then e else SpacesStart(s, p, e - 1)
  }

  /** Everything between `SpacesStart` and the end of the run is white space. */
  lemma {:induction false} SpacesStartSkipped(s: string, p: nat, e: nat)
    requires p <= e <= |s|
    ensures forall k :: SpacesStart(s, p, e) <= k < e ==> IsJsSpace(s[k])
    decreases e
  {
    if e != p && IsJsSpace(s[e - 1]) {
      SpacesStartSkipped(s, p, e - 1);
    }
  }

  /** `s.replace(/^\s+/, "")`. */
  function TrimStart(s: string): (r: string)
    ensures |r| <= |s|
    ensures r == [] || !IsJsSpace(r[0])
  {
    s[SpacesEnd(s, 0)..]
  }

  /** Neither end of `s` is white space. */
  predicate IsTrimmed(s: string) {
    s == [] || (!IsJsSpace(s[0]) && !IsJsSpace(s[|s| - 1]))
  }

  /** `String.prototype.trim`: the text between the leading and the trailing white space. */
  function Trim(s: string): (r: string)
    ensures |r| <= |s|
    ensures IsTrimmed(r)
  {
    var a := SpacesEnd(s, 0);
    s[a..SpacesStart(s, a, |s|)]
  }

  /** `s.indexOf(c, from)` for a one-character pattern, with `0 <= from <= |s|`. */
  function IndexOfChar(s: string, c: char, from: nat): (r: int)
    requires from <= |s|
    ensures -1 <= r < |s|
    ensures r >= 0 ==> from <= r && s[r] == c
    decreases |s| - from
  {
    if from == |s| then -1
    else if s[from] == c then from
    else IndexOfChar(s, c, from + 1)
  }

  /** No `c` lies between `from` and the index `indexOf` returns (the end of `s` when it returns -1). */
  lemma {:induction false} IndexOfCharFirst(s: string, c: char, from: nat)
    requires from <= |s|
    ensures var r := IndexOfChar(s, c, from);
      forall k :: from <= k < (if r < 0 then |s| else r) ==> s[k] != c
    decreases |s| - from
  {
    if from < |s| && s[from] != c {
      IndexOfCharFirst(s, c, from + 1);
    }
  }

  /** The first `c` at or after `from` is the index `indexOf` returns. */
  lemma IndexOfCharIs(s: string, c: char, from: nat, r: nat)
    requires from <= r < |s| && s[r] == c
    requires forall k :: from <= k < r ==> s[k] != c
    ensures IndexOfChar(s, c, from) == r
  {
    IndexOfCharFirst(s, c, from);
  }

  /** `s.lastIndexOf(c)` for a one-character pattern. */
  function LastIndexOfChar(s: string, c: char): (r: int)
    ensures -1 <= r < |s|
    ensures r >= 0 ==> s[r] == c
  {
    LastIndexBefore(s, c, |s|)
  }

  /** The last index below `e` holding `c`, or -1. */
  function LastIndexBefore(s: string, c: char, e: nat): (r: int)
    requires e <= |s|
    ensures -1 <= r < e
    ensures r >= 0 ==> s[r] == c
    decreases e
  {
    if e == 0 then -1
    else if s[e - 1] == c then e - 1
    else LastIndexBefore(s, c, e - 1)
  }

  /** No `c` lies after the index `lastIndexOf` returns (anywhere in `s` when it returns -1). */
  lemma LastIndexOfCharLast(s: string, c: char)
    ensures forall k :: LastIndexOfChar(s, c) < k < |s| ==> s[k] != c
  {
    LastIndexBeforeMisses(s, c, |s|);
  }

  lemma {:induction false} LastIndexBeforeMisses(s: string, c: char, e: nat)
    requires e <= |s|
    ensures forall k :: LastIndexBefore(s, c, e) < k < e ==> s[k] != c
    decreases e
  {
    if e > 0 && s[e - 1] != c {
      LastIndexBeforeMisses(s, c, e - 1);
    }
  }

  predicate StartsWith(s: string, prefix: string) {
    |prefix| <= |s| && s[..|prefix|] == prefix
  }

  predicate EndsWith(s: string, suffix: string) {
    |suffix| <= |s| && s[|s| - |suffix|..] == suffix
  }

  /** `s` holds `pat` starting at index `k`. */
  predicate OccursAt(s: string, pat: string, k: nat) {
    k + |pat| <= |s| && s[k..k + |pat|] == pat
  }

  /** `s.indexOf(pat, from)`: the first occurrence of `pat` at or after `from`, or -1. */
  function IndexOf(s: string, pat: string, from: nat): (r: int)
    requires from <= |s|
    ensures -1 <= r <= |s|
    ensures r == -1 ==> forall k :: from <= k <= |s| ==> !OccursAt(s, pat, k)
    ensures r >= 0 ==> from <= r && OccursAt(s, pat, r)
                       && forall k :: from <= k < r ==> !OccursAt(s, pat, k)
    decreases |s| - from
  {
    if OccursAt(s, pat, from) then from
    else if from == |s| then -1
    else IndexOf(s, pat, from + 1)
  }

  /** An occurrence with none before it is the one `indexOf` finds. */
  lemma IndexOfIs(s: string, pat: string, k: nat)
    requires OccursAt(s, pat, k) && forall m :: 0 <= m < k ==> !OccursAt(s, pat, m)
    ensures IndexOf(s, pat, 0) == k
  {}

  /** One differing character rules out an occurrence. */
  lemma CharMismatch(s: string, pat: string, k: nat, m: nat)
    requires k + |pat| <= |s| && m < |pat| && s[k + m] != pat[m]
    ensures !OccursAt(s, pat, k)
  {
    assert s[k..k + |pat|][m] == s[k + m];
  }

  /** A pattern whose first character differs from `s[k]` does not occur at `k`. */
  lemma FirstCharMismatch(s: string, pat: string, k: nat)
    requires k < |s| && |pat| > 0 && s[k] != pat[0]
    ensures !OccursAt(s, pat, k)
  {
    if k + |pat| <= |s| {
      CharMismatch(s, pat, k, 0);
    }
  }

  /** `s.includes(pat)`. */
  predicate Includes(s: string, pat: string) {
    IndexOf(s, pat, 0) >= 0
  }

  function ToLowerAsciiChar(c: char): char {
    if IsAsciiUpper(c) then (c as int + 32) as char else c
  }

  /** `toLowerCase`, on ASCII letters only. */
  function ToLowerAscii(s: string): (r: string)
    ensures |r| == |s|
    ensures forall k :: 0 <= k < |s| ==> r[k] == ToLowerAsciiChar(s[k])
  {
    seq(|s|, k requires 0 <= k < |s| => ToLowerAsciiChar(s[k]))
  }

  /** Character equality under a regular expression's `i` flag without `u`: ASCII letters only. */
  predicate EqualsIgnoreCaseAscii(a: string, b: string) {
    |a| == |b| && forall k :: 0 <= k < |a| ==> ToLowerAsciiChar(a[k]) == ToLowerAsciiChar(b[k])
  }

  /**
   * GetSubstitution for a string pattern (no capture groups): `$$` gives `$`,
   * `$&` the matched text, `` $` `` the text before the match and `$'` the text
   * after it; every other character, `$` included, stands for itself.
   */
  function Substitution(template: string, matched: string, before: string, after: string): (r: string)
    ensures '$' !in template ==> r == template
  {
    if template == [] then []
    else if template[0] == '$' && |template| >= 2 && template[1] == '$' then
      "$" + Substitution(template[2..], matched, before, after)
    else if template[0] == '$' && |template| >= 2 && template[1] == '&' then
      matched + Substitution(template[2..], matched, before, after)
    else if template[0] == '$' && |template| >= 2 && template[1] == '`' then
      before + Substitution(template[2..], matched, before, after)
    else if template[0] == '$' && |template| >= 2 && template[1] == '\'' then
      after + Substitution(template[2..], matched, before, after)
    else
      [template[0]] + Substitution(template[1..], matched, before, after)
  }

  /** `s.replace(pat, template)` with a string pattern: only the first occurrence is replaced. */
  function ReplaceFirst(s: string, pat: string, template: string): (r: string)
    ensures IndexOf(s, pat, 0) == -1 ==> r == s
    ensures '$' !in template && IndexOf(s, pat, 0) >= 0 ==>
      var k := IndexOf(s, pat, 0); r == s[..k] + template + s[k + |pat|..]
  {
    var k := IndexOf(s, pat, 0);
    if k < 0 then s
    else s[..k] + Substitution(template, pat, s[..k], s[k + |pat|..]) + s[k + |pat|..]
  }
}
