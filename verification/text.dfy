/** String utilities shared by the markdown converter and the navigation
    rules: JavaScript's character classes, substring search, `trim` and
    `join`. Strings are sequences of characters; the regular expressions of
    blog.js have no `u` flag, but every pattern character they use lies in
    the Basic Multilingual Plane, so working on characters rather than on
    UTF-16 code units changes nothing they match. */
module Text {

  datatype Option<T> = None | Some(value: T)

  /** The ECMAScript LineTerminator characters: the ones `.` does not match
      and that `^`/`$` recognise under the `m` flag. */
  predicate IsLineTerminator(c: char) {
    c == '\n' || c == '\r' || c == '\U{2028}' || c == '\U{2029}'
  }

  /** ECMAScript WhiteSpace (tab, vertical tab, form feed, BOM and every
      space separator) together with LineTerminator: what `String.prototype.trim`
      removes. */
  predicate IsJsWhitespace(c: char) {
    || IsLineTerminator(c)
    || c == '\t' || c == '\U{000B}' || c == '\U{000C}' || c == ' '
    || c == '\U{00A0}' || c == '\U{1680}' || ('\U{2000}' <= c <= '\U{200A}')
    || c == '\U{202F}' || c == '\U{205F}' || c == '\U{3000}' || c == '\U{FEFF}'
  }

  /** `\d` without the `u` flag. */
  predicate IsDigit(c: char) { '0' <= c <= '9' }

  /** `pat` occurs in `s` starting at index `k`. */
  predicate StartsAt(s: string, pat: string, k: nat) {
    k + |pat| <= |s| && s[k..k + |pat|] == pat
  }

  predicate StartsWith(s: string, pat: string) {
    StartsAt(s, pat, 0)
  }

  /** A text that starts with `pat` starts with `pat`'s first character. */
  lemma HeadOf(x: string, pat: string)
    ensures pat != [] && StartsWith(x, pat) ==> x[0] == pat[0]
  {
    if pat != [] && StartsWith(x, pat) {
      assert x[0] == x[..|pat|][0];
    }
  }

  predicate EndsWith(s: string, pat: string) {
    |pat| <= |s| && s[|s| - |pat|..] == pat
  }

  /** `pat` occurs somewhere in `s`. */
  predicate Contains(s: string, pat: string) {
    exists k: nat | k <= |s| :: StartsAt(s, pat, k)
  }

  predicate TerminatorFree(s: string) {
    forall c | c in s :: !IsLineTerminator(c)
  }

  /** Index of the first `c` at or after `k`, or `|s|` when there is none. */
  function IndexOfFrom(s: string, c: char, k: nat): (r: nat)
    requires k <= |s|
    ensures k <= r <= |s|
    ensures forall m :: k <= m < r ==> s[m] != c
    ensures r < |s| ==> s[r] == c
    decreases |s| - k
  {
    if k == |s| || s[k] == c then k else IndexOfFrom(s, c, k + 1)
  }

  /** Index of the first line terminator at or after `k`, or `|s|`: the end
      of the line `k` lies on. */
  function LineEnd(s: string, k: nat): (r: nat)
    requires k <= |s|
    ensures k <= r <= |s|
    ensures forall m :: k <= m < r ==> !IsLineTerminator(s[m])
    ensures r < |s| ==> IsLineTerminator(s[r])
    decreases |s| - k
  {
    if k == |s| || IsLineTerminator(s[k]) then k else LineEnd(s, k + 1)
  }

  /** First occurrence of `pat` starting at or after `k`. */
  function Find(s: string, pat: string, k: nat): (r: Option<nat>)
    requires k <= |s|
    ensures r.Some? ==> k <= r.value && StartsAt(s, pat, r.value)
    ensures r.Some? ==> forall m :: k <= m < r.value ==> !StartsAt(s, pat, m)
    ensures r.None? ==> forall m :: k <= m ==> !StartsAt(s, pat, m)
    decreases |s| - k
  {
    if StartsAt(s, pat, k) then Some(k)
    else if k == |s| then None
    else Find(s, pat, k + 1)
  }

  /** Last occurrence of `pat` lying entirely inside `s[lo..hi]`. */
  function FindLast(s: string, pat: string, lo: nat, hi: nat): (r: Option<nat>)
    requires hi <= |s|
    ensures r.Some? ==> lo <= r.value && r.value + |pat| <= hi && StartsAt(s, pat, r.value)
    ensures r.Some? ==> forall m :: r.value < m && m + |pat| <= hi ==> !StartsAt(s, pat, m)
    ensures r.None? ==> forall m :: lo <= m && m + |pat| <= hi ==> !StartsAt(s, pat, m)
    decreases hi
  {
    if hi < lo + |pat| then None
    else if StartsAt(s, pat, hi - |pat|) then Some(hi - |pat|)
    else FindLast(s, pat, lo, hi - 1)
  }

  /** `String.prototype.trimStart`. */
  function TrimStart(s: string): (r: string)
    ensures |r| <= |s| && r == s[|s| - |r|..]
    ensures r == [] || !IsJsWhitespace(r[0])
    ensures forall i :: 0 <= i < |s| - |r| ==> IsJsWhitespace(s[i])
  {
    if s != [] && IsJsWhitespace(s[0]) then TrimStart(s[1..]) else s
  }

  /** `String.prototype.trimEnd`. */
  function TrimEnd(s: string): (r: string)
    ensures |r| <= |s| && r == s[..|r|]
    ensures r == [] || !IsJsWhitespace(r[|r| - 1])
    ensures forall i :: |r| <= i < |s| ==> IsJsWhitespace(s[i])
  {
    if s != [] && IsJsWhitespace(s[|s| - 1]) then TrimEnd(s[..|s| - 1]) else s
  }

  /** `String.prototype.trim`: the longest infix of `s` that neither starts
      nor ends with whitespace, everything cut away being whitespace. */
  function Trim(s: string): (r: string)
    ensures r == [] || (!IsJsWhitespace(r[0]) && !IsJsWhitespace(r[|r| - 1]))
    ensures exists a: nat | a <= |s| :: CutAt(s, r, a)
  {
    var t := TrimStart(s);
    var r := TrimEnd(t);
    SuffixCut(s, t, |s| - |t|, r);
    assert CutAt(s, r, |s| - |t|);
    r
  }

  /** Cutting `r` from the front of the suffix `t` of `s` that starts at `a`. */
  lemma SuffixCut(s: string, t: string, a: nat, r: string)
    requires a <= |s| && t == s[a..] && |r| <= |t| && r == t[..|r|]
    requires forall i :: |r| <= i < |t| ==> IsJsWhitespace(t[i])
    ensures r == s[a..a + |r|]
    ensures forall i :: a + |r| <= i < |s| ==> IsJsWhitespace(s[i])
  {
    forall i | a + |r| <= i < |s| ensures IsJsWhitespace(s[i]) {
      assert s[i] == t[i - a];
    }
  }

  /** `r` is `s[a..a + |r|]` and every character of `s` outside it is
      whitespace. */
  predicate CutAt(s: string, r: string, a: nat) {
    && a + |r| <= |s| && r == s[a..a + |r|]
    && (forall i :: 0 <= i < a ==> IsJsWhitespace(s[i]))
    && (forall i :: a + |r| <= i < |s| ==> IsJsWhitespace(s[i]))
  }

  /** Trimming a string whose ends are not whitespace changes nothing. */
  lemma TrimNoop(s: string)
    requires s == [] || (!IsJsWhitespace(s[0]) && !IsJsWhitespace(s[|s| - 1]))
    ensures Trim(s) == s
  {
  }

  /** `Array.prototype.join(sep)`. */
  function Join(parts: seq<string>, sep: string): string {
    if |parts| == 0 then []
    else if |parts| == 1 then parts[0]
    else parts[0] + sep + Join(parts[1..], sep)
  }
}
