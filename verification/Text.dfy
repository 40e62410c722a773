/** Text helpers of the Rust standard library that several models share. */
module Text {

  /** `char::is_whitespace`: the Unicode White_Space property. */
  predicate IsWhitespace(code: int) {
    || 0x09 <= code <= 0x0D || code == 0x20 || code == 0x85 || code == 0xA0 || code == 0x1680
    || 0x2000 <= code <= 0x200A || code == 0x2028 || code == 0x2029 || code == 0x202F
    || code == 0x205F || code == 0x3000
  }

  /** The first position from `i` on that is not white space, or the end. */
  function FirstVisible(s: string, i: nat): (k: nat)
    requires i <= |s|
    ensures i <= k <= |s| && forall m :: i <= m < k ==> IsWhitespace(s[m] as int)
    ensures k < |s| ==> !IsWhitespace(s[k] as int)
    decreases |s| - i
  {
    if i < |s| && IsWhitespace(s[i] as int) then FirstVisible(s, i + 1) else i
  }

  /** The end of `s[i..j]` without the white space behind it. */
  function LastVisible(s: string, i: nat, j: nat): (k: nat)
    requires i <= j <= |s|
    ensures i <= k <= j && forall m :: k <= m < j ==> IsWhitespace(s[m] as int)
    ensures i < k ==> !IsWhitespace(s[k - 1] as int)
  {
    if i < j && IsWhitespace(s[j - 1] as int) then LastVisible(s, i, j - 1) else j
  }

  /** `str::trim`. */
  function Trim(s: string): string {
    var i := FirstVisible(s, 0);
    s[i..LastVisible(s, i, |s|)]
  }

  /** Only white space is cut off, at both ends, and all of it. */
  lemma {:induction false} TrimMeans(s: string) returns (i: nat, j: nat)
    ensures i <= j <= |s| && Trim(s) == s[i..j]
    ensures forall k :: 0 <= k < i || j <= k < |s| ==> IsWhitespace(s[k] as int)
    ensures i < j ==> !IsWhitespace(s[i] as int) && !IsWhitespace(s[j - 1] as int)
  {
    i := FirstVisible(s, 0);
    j := LastVisible(s, i, |s|);
  }
}
