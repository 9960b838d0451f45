/**
 * The JavaScript string built-ins the autofill engine relies on:
 * `toLowerCase`, `includes` and `trim`, on strings of characters.
 */
module JsStrings {

  predicate IsUpper(c: char) {
    'A' <= c <= 'Z'
  }

  /** The lower-case ASCII letters in alphabetical order. */
  const LowerLetters: string := "abcdefghijklmnopqrstuvwxyz"

  /** The lower-case letter at the position of the upper-case letter `c` in the alphabet. */
  function LowerOf(c: char): char
    requires IsUpper(c)
  {
    LowerLetters[c as int - 'A' as int]
  }

  /** `toLowerCase` on one character; only ASCII letters are folded. */
  function LowerChar(c: char): (d: char)
    ensures !IsUpper(d)
    ensures IsUpper(c) ==> d == LowerOf(c)
    ensures !IsUpper(c) ==> d == c
  {
    if IsUpper(c) then (c as int + 32) as char else c
  }

  predicate IsLowerCase(s: string) {
    forall i | 0 <= i < |s| :: !IsUpper(s[i])
  }

  /** `String.prototype.toLowerCase`, ASCII letters only. */
  function ToLowerCase(s: string): (r: string)
    ensures |r| == |s| && IsLowerCase(r)
    ensures forall i | 0 <= i < |s| :: IsUpper(s[i]) ==> r[i] == LowerOf(s[i])
    ensures forall i | 0 <= i < |s| :: !IsUpper(s[i]) ==> r[i] == s[i]
  {
    seq(|s|, i requires 0 <= i < |s| => LowerChar(s[i]))
  }

  /** Lower-casing changes exactly the strings that hold an upper-case letter. */
  lemma ToLowerCaseFixesLowerCase(s: string)
    ensures ToLowerCase(s) == s <==> IsLowerCase(s)
  {
    if IsLowerCase(s) {
      assert forall i | 0 <= i < |s| :: ToLowerCase(s)[i] == s[i];
    }
  }

  /** The two characters are equal, or one is an upper-case letter and the other its lower case. */
  predicate SameLetterUpToCase(a: char, b: char) {
    || a == b
    || (IsUpper(a) && b == LowerOf(a))
    || (IsUpper(b) && a == LowerOf(b))
  }

  /** The strings differ at most in the case of ASCII letters. */
  predicate SameUpToCase(a: string, b: string) {
    |a| == |b| && forall i | 0 <= i < |a| :: SameLetterUpToCase(a[i], b[i])
  }

  /** Strings that differ only in letter case lower-case to the same string. */
  lemma SameUpToCaseLowersEqual(a: string, b: string)
    requires SameUpToCase(a, b)
    ensures ToLowerCase(a) == ToLowerCase(b)
  {
    forall i | 0 <= i < |a| ensures ToLowerCase(a)[i] == ToLowerCase(b)[i] {
      assert SameLetterUpToCase(a[i], b[i]);
      if IsUpper(a[i]) {
        LowerOfIsLower(a[i]);
      }
      if IsUpper(b[i]) {
        LowerOfIsLower(b[i]);
      }
    }
  }

  lemma LowerOfIsLower(c: char)
    requires IsUpper(c)
    ensures !IsUpper(LowerOf(c))
  {
    var k := c as int - 'A' as int;
    assert 0 <= k < 26;
    assert forall j | 0 <= j < 26 :: 'a' <= LowerLetters[j] <= 'z';
  }

  /** `t` occurs in `s` starting at position `k`. */
  predicate OccursAt(s: string, t: string, k: nat) {
    k + |t| <= |s| && s[k..k + |t|] == t
  }

  /** `String.prototype.includes`: `t` occurs in `s` as a contiguous substring. */
  predicate Includes(s: string, t: string) {
    exists k | 0 <= k <= |s| :: OccursAt(s, t, k)
  }

  /**
   * The characters `trim` removes: the white-space characters (tab, vertical
   * tab, form feed, space, no-break space, byte-order mark and the other
   * space separators) and the line terminators.
   */
  predicate IsSpace(c: char) {
    || c == '\t' || c == '\n' || c == '\U{B}' || c == '\U{C}' || c == '\r'
    || c == ' ' || c == '\U{A0}' || c == '\U{1680}'
    || ('\U{2000}' <= c <= '\U{200A}')
    || c == '\U{2028}' || c == '\U{2029}' || c == '\U{202F}' || c == '\U{205F}'
    || c == '\U{3000}' || c == '\U{FEFF}'
  }

  /** Every character of `s` in `[lo, hi)` is white space. */
  predicate SpaceBetween(s: string, lo: nat, hi: nat)
    requires lo <= hi <= |s|
  {
    forall k | lo <= k < hi :: IsSpace(s[k])
  }

  /** The first index at or after `i` that is not white space, or `|s|`. */
  function SkipSpace(s: string, i: nat): (r: nat)
    requires i <= |s|
    decreases |s| - i
    ensures i <= r <= |s| && SpaceBetween(s, i, r)
    ensures r < |s| ==> !IsSpace(s[r])
  {
    if i < |s| && IsSpace(s[i]) then SkipSpace(s, i + 1) else i
  }

  /** The index just past the last character in `[lo, j)` that is not white space, or `lo`. */
  function SkipSpaceBack(s: string, lo: nat, j: nat): (r: nat)
    requires lo <= j <= |s|
    decreases j
    ensures lo <= r <= j && SpaceBetween(s, r, j)
    ensures r > lo ==> !IsSpace(s[r - 1])
  {
    if j > lo && IsSpace(s[j - 1]) then SkipSpaceBack(s, lo, j - 1) else j
  }

  /** `r` is the slice `s[i..j]` and only white space lies outside it. */
  predicate TrimmedAt(s: string, r: string, i: nat, j: nat) {
    i <= j <= |s| && r == s[i..j] && SpaceBetween(s, 0, i) && SpaceBetween(s, j, |s|)
  }

  /** `String.prototype.trim`. */
  function Trim(s: string): (r: string)
    ensures exists i: nat, j: nat :: TrimmedAt(s, r, i, j)
    ensures r != [] ==> !IsSpace(r[0]) && !IsSpace(r[|r| - 1])
  {
    var i := SkipSpace(s, 0);
    var j := SkipSpaceBack(s, i, |s|);
    assert TrimmedAt(s, s[i..j], i, j);
    s[i..j]
  }
}
