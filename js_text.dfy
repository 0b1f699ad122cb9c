/** The two `String.prototype` built-ins the page applies to user input:
    `trim` (exact, over ECMAScript's WhiteSpace and LineTerminator code points)
    and `toLowerCase` (ASCII letters only). */
module JsText {

  /** A code point that `String.prototype.trim` strips: ECMAScript's WhiteSpace
      (tab, vertical tab, form feed, space, no-break space, zero width no-break
      space and the Unicode "Space_Separator" category) or LineTerminator
      (line feed, carriage return, line and paragraph separators). */
  predicate IsTrimmable(c: char)
  {
    c == '\t' || c == '\n' || c == '\U{000B}' || c == '\U{000C}' || c == '\r' || c == ' '
    || c == '\U{00A0}' || c == '\U{1680}' || ('\U{2000}' <= c <= '\U{200A}')
    || c == '\U{2028}' || c == '\U{2029}' || c == '\U{202F}' || c == '\U{205F}'
    || c == '\U{3000}' || c == '\U{FEFF}'
  }

  predicate AllTrimmable(s: string)
  {
    forall i :: 0 <= i < |s| ==> IsTrimmable(s[i])
  }

  /** The first position at or after `i` that does not hold a trimmable
      code point (`|s|` when there is none). */
  function SkipForward(s: string, i: nat): (k: nat)
    requires i <= |s|
    ensures i <= k <= |s|
    ensures forall j :: i <= j < k ==> IsTrimmable(s[j])
    ensures k == |s| || !IsTrimmable(s[k])
    decreases |s| - i
  {
    if i < |s| && IsTrimmable(s[i]) then SkipForward(s, i + 1) else i
  }

  /** The end of `s[lo..hi]` once its trailing trimmable code points are
      dropped (`lo` when all of them are trimmable). */
  function SkipBackward(s: string, lo: nat, hi: nat): (k: nat)
    requires lo <= hi <= |s|
    ensures lo <= k <= hi
    ensures forall j :: k <= j < hi ==> IsTrimmable(s[j])
    ensures k == lo || !IsTrimmable(s[k - 1])
  {
    if lo < hi && IsTrimmable(s[hi - 1]) then SkipBackward(s, lo, hi - 1) else hi
  }

  /** `String.prototype.trim`: the result neither starts nor ends with a
      trimmable code point, and it is empty exactly when the whole input is
      trimmable. TrimCutsInput says what was cut away. */
  function Trim(s: string): (r: string)
    ensures |r| <= |s|
    ensures r == [] || (!IsTrimmable(r[0]) && !IsTrimmable(r[|r| - 1]))
    ensures r == [] <==> AllTrimmable(s)
  {
    var lo := SkipForward(s, 0);
    var hi := SkipBackward(s, lo, |s|);
    assert hi == lo ==> forall j :: 0 <= j < |s| ==> IsTrimmable(s[j]);
    s[lo..hi]
  }

  /** The input is the trimmed string surrounded by two runs of trimmable
      code points: trimming removes only leading and trailing white space. */
  lemma TrimCutsInput(s: string)
    ensures var r := Trim(s);
      exists k :: 0 <= k <= |s| - |r| && s[k..k + |r|] == r
                  && AllTrimmable(s[..k]) && AllTrimmable(s[k + |r|..])
  {
    var lo := SkipForward(s, 0);
    var hi := SkipBackward(s, lo, |s|);
    var r := Trim(s);
    assert r == s[lo..hi];
    assert forall j :: 0 <= j < lo ==> s[..lo][j] == s[j];
    assert forall j :: 0 <= j < |s| - hi ==> s[hi..][j] == s[hi + j];
    assert 0 <= lo <= |s| - |r| && s[lo..lo + |r|] == r
           && AllTrimmable(s[..lo]) && AllTrimmable(s[lo + |r|..]);
  }

  /** A string that neither starts nor ends with a trimmable code point is
      left as it is. */
  lemma TrimKeepsTrimmed(r: string)
    requires r == [] || (!IsTrimmable(r[0]) && !IsTrimmable(r[|r| - 1]))
    ensures Trim(r) == r
  {
    assert SkipForward(r, 0) == 0;
    assert SkipBackward(r, 0, |r|) == |r|;
    assert r[0..|r|] == r;
  }

  /** Trimming twice is trimming once. */
  lemma TrimIdempotent(s: string)
    ensures Trim(Trim(s)) == Trim(s)
  {
    TrimKeepsTrimmed(Trim(s));
  }

  /** `toLowerCase` on one code point, restricted to ASCII: 'A'..'Z' map to
      'a'..'z', every other code point is kept. */
  function LowerChar(c: char): (d: char)
    ensures !('A' <= d <= 'Z')
    ensures d == c || ('A' <= c <= 'Z' && d as int == c as int + 32)
  {
    if 'A' <= c <= 'Z' then (c as int + 32) as char else c
  }

  /** `String.prototype.toLowerCase`, restricted to ASCII: a code-point-wise
      map that keeps the length. */
  function Lower(s: string): (r: string)
    ensures |r| == |s|
    ensures forall i :: 0 <= i < |s| ==> r[i] == LowerChar(s[i])
  {
    if s == [] then [] else [LowerChar(s[0])] + Lower(s[1..])
  }
}
