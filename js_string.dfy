/**
 * The two JavaScript string operations the converter applies:
 * `String.prototype.slice` and `String.prototype.trim`.
 */
module JsString {

  /**
   * The code points ECMAScript counts as WhiteSpace or LineTerminator,
   * which is exactly what `trim` strips (ECMA-262, sections 12.2 and 12.3).
   */
  predicate IsWhiteSpace(c: char) {
    || c == '\t' || c == '\U{000B}' || c == '\U{000C}' || c == ' '
    || c == '\U{00A0}' || c == '\U{FEFF}'
    || c == '\n' || c == '\r' || c == '\U{2028}' || c == '\U{2029}'
    // the remaining members of the Unicode category Zs
    || c == '\U{1680}' || ('\U{2000}' <= c <= '\U{200A}')
    || c == '\U{202F}' || c == '\U{205F}' || c == '\U{3000}'
  }

  predicate AllWhiteSpace(s: string) {
    forall i | 0 <= i < |s| :: IsWhiteSpace(s[i])
  }

  /** Neither end of `s` is white space. */
  predicate IsTrimmed(s: string) {
    s == [] || (!IsWhiteSpace(s[0]) && !IsWhiteSpace(s[|s| - 1]))
  }

  /** The index of the first character at or after `k` that is not white space (`|s|` when there is none). */
  function SkipForward(s: string, k: nat): (n: nat)
    requires k <= |s|
    ensures k <= n <= |s|
    ensures forall i | k <= i < n :: IsWhiteSpace(s[i])
    ensures n < |s| ==> !IsWhiteSpace(s[n])
    decreases |s| - k
  {
    if k < |s| && IsWhiteSpace(s[k]) then SkipForward(s, k + 1) else k
  }

  /** The index just after the last character before `k` and at or after `lo` that is not white space (`lo` when there is none). */
  function SkipBackward(s: string, lo: nat, k: nat): (n: nat)
    requires lo <= k <= |s|
    ensures lo <= n <= k
    ensures forall i | n <= i < k :: IsWhiteSpace(s[i])
    ensures n > lo ==> !IsWhiteSpace(s[n - 1])
    decreases k
  {
    if k > lo && IsWhiteSpace(s[k - 1]) then SkipBackward(s, lo, k - 1) else k
  }

  /** Where the text of `s` starts and ends once the white space on both sides is cut off. */
  function TrimBounds(s: string): (b: (nat, nat))
    ensures b.0 <= b.1 <= |s|
  {
    var start := SkipForward(s, 0);
    (start, SkipBackward(s, start, |s|))
  }

  /**
   * `s.trim()`. The result is the slice of `s` between the trim bounds;
   * everything cut off on either side is white space, and the result has
   * white space at neither end.
   */
  function Trim(s: string): (r: string)
    ensures IsTrimmed(r)
    ensures var (i, j) := TrimBounds(s);
      && r == s[i..j] && AllWhiteSpace(s[..i]) && AllWhiteSpace(s[j..])
  {
    var (i, j) := TrimBounds(s);
    assert forall k | 0 <= k < |s[j..]| :: s[j..][k] == s[j + k];
    s[i..j]
  }

  /** `trim` has exactly one answer: whatever white space surrounds a trimmed string, trimming gives back that string. */
  lemma TrimUnique(w1: string, t: string, w2: string)
    requires AllWhiteSpace(w1) && AllWhiteSpace(w2) && IsTrimmed(t)
    ensures Trim(w1 + t + w2) == t
  {
    var s := w1 + t + w2;
    var (i, j) := TrimBounds(s);
    assert forall k | 0 <= k < |w1| :: s[k] == w1[k];
    assert forall k | 0 <= k < |w2| :: s[|w1| + |t| + k] == w2[k];
    if t == [] {
      assert forall k | 0 <= k < |s| :: IsWhiteSpace(s[k]);
      assert i == |s|;
    } else {
      assert s[|w1|] == t[0] && s[|w1| + |t| - 1] == t[|t| - 1];
      assert i == |w1|;
      assert j == |w1| + |t|;
      assert s[i..j] == t;
    }
  }

  /** Trimming twice changes nothing. */
  lemma TrimIdempotent(s: string)
    ensures Trim(Trim(s)) == Trim(s)
  {
    var t := Trim(s);
    assert [] + t + [] == t;
    TrimUnique([], t, []);
  }

  /** ECMAScript's relative index of `slice`: a negative index counts from the end, and both are clamped into the string. */
  function RelativeIndex(x: int, len: nat): (r: nat)
    ensures r <= len
  {
    if x < 0 then (if len + x < 0 then 0 else len + x)
    else if x > len then len
    else x
  }

  /** `s.slice(start, end)`. */
  function Slice(s: string, start: int, end: int): (r: string)
    ensures var from, to := RelativeIndex(start, |s|), RelativeIndex(end, |s|);
      && |r| == (if from < to then to - from else 0)
      && forall i | 0 <= i < |r| :: r[i] == s[from + i]
  {
    var from, to := RelativeIndex(start, |s|), RelativeIndex(end, |s|);
    if from < to then s[from..to] else []
  }

  /** `s.slice(0, -k)` drops the last `k` characters, and gives the empty string when `s` has no more than `k`. */
  lemma SliceDropsLast(s: string, k: nat)
    requires k > 0
    ensures |s| <= k ==> Slice(s, 0, -(k as int)) == []
    ensures |s| > k ==> Slice(s, 0, -(k as int)) == s[..|s| - k]
  {
  }
}
