/**
 * Character classes and string operations of JavaScript that the checklist
 * code relies on through its regular expressions: `\s`, `\S`, `.`, `\w`,
 * `[0-9]`, `String.prototype.trim`, `startsWith`, `endsWith`, `includes`.
 * Characters are Unicode scalar values; the source's UTF-16 code units differ
 * only outside the Basic Multilingual Plane, where none of these classes has members.
 */
module JsText {

  /** `\s` in a JavaScript regular expression: WhiteSpace and LineTerminator. */
  predicate IsWhite(c: char) {
    var n := c as int;
    n == 0x09 || n == 0x0A || n == 0x0B || n == 0x0C || n == 0x0D || n == 0x20 ||
    n == 0xA0 || n == 0x1680 || (0x2000 <= n <= 0x200A) || n == 0x2028 || n == 0x2029 ||
    n == 0x202F || n == 0x205F || n == 0x3000 || n == 0xFEFF
  }

  /** The characters that `.` does not match (without the `s` flag). */
  predicate IsLineTerminator(c: char) {
    c == '\n' || c == '\r' || c as int == 0x2028 || c as int == 0x2029
  }

  lemma LineTerminatorIsWhite(c: char)
    ensures IsLineTerminator(c) ==> IsWhite(c)
  {}

  predicate IsDigit(c: char) { '0' <= c <= '9' }
  predicate IsUpper(c: char) { 'A' <= c <= 'Z' }
  predicate IsLower(c: char) { 'a' <= c <= 'z' }
  predicate IsAlnum(c: char) { IsUpper(c) || IsLower(c) || IsDigit(c) }

  /** `\w`: ASCII letters, digits and underscore. */
  predicate IsWordChar(c: char) { IsAlnum(c) || c == '_' }

  /** `toLowerCase` on the characters where it matters here (ASCII letters). */
  function ToLowerAscii(c: char): (r: char)
    ensures IsUpper(c) ==> IsLower(r)
    ensures !IsUpper(c) ==> r == c
  {
    if IsUpper(c) then (c as int + 32) as char else c
  }

  predicate AllWhite(s: string) { forall i :: 0 <= i < |s| ==> IsWhite(s[i]) }
  predicate NoLineTerminator(s: string) { forall i :: 0 <= i < |s| ==> !IsLineTerminator(s[i]) }
  predicate NoWhite(s: string) { forall i :: 0 <= i < |s| ==> !IsWhite(s[i]) }
  predicate AllDigits(s: string) { forall i :: 0 <= i < |s| ==> IsDigit(s[i]) }

  predicate StartsWith(s: string, p: string) { |p| <= |s| && s[..|p|] == p }
  predicate EndsWith(s: string, p: string) { |p| <= |s| && s[|s| - |p|..] == p }

  /** `s.includes(p)`. */
  predicate Contains(s: string, p: string) {
    exists i | 0 <= i <= |s| :: OccursAt(s, p, i)
  }

  predicate OccursAt(s: string, p: string, i: int) {
    0 <= i && i + |p| <= |s| && s[i..i + |p|] == p
  }

  /**
   * The end of the longest run of characters satisfying `p` that starts at `i`:
   * what a greedy `p*` consumes, and the only place where a following atom that
   * `p` rejects can start.
   */
  function RunEnd(s: string, i: nat, p: char -> bool): (e: nat)
    requires i <= |s|
    ensures i <= e <= |s|
    ensures forall k :: i <= k < e ==> p(s[k])
    ensures e == |s| || !p(s[e])
    decreases |s| - i
  {
    if i < |s| && p(s[i]) then RunEnd(s, i + 1, p) else i
  }

  /** A run that is followed by a character `p` rejects ends exactly at RunEnd. */
  lemma RunEndUnique(s: string, i: nat, e: nat, p: char -> bool)
    requires i <= e <= |s|
    requires forall k :: i <= k < e ==> p(s[k])
    requires e == |s| || !p(s[e])
    ensures RunEnd(s, i, p) == e
  {
  }

  /** `String.prototype.trim`: drops white space (and line terminators) at both ends. */
  function Trim(s: string): (r: string)
    ensures exists a, b :: 0 <= a <= b <= |s| && r == s[a..b] && AllWhite(s[..a]) && AllWhite(s[b..])
    ensures r == [] || (!IsWhite(r[0]) && !IsWhite(r[|r| - 1]))
  {
    var a := RunEnd(s, 0, IsWhite);
    var b := TrimEndIndex(s, a);
    assert AllWhite(s[..a]);
    s[a..b]
  }

  /** The end index that `trimEnd` keeps of `s[a..]`, where `s[a]` is not white when it exists. */
  function TrimEndIndex(s: string, a: nat): (b: nat)
    requires a <= |s|
    requires a == |s| || !IsWhite(s[a])
    ensures a <= b <= |s|
    ensures AllWhite(s[b..])
    ensures b == a || !IsWhite(s[b - 1])
    ensures a < |s| ==> a < b
    decreases |s|
  {
    if |s| > a && IsWhite(s[|s| - 1]) then
      var b := TrimEndIndex(s[..|s| - 1], a);
      assert s[b..] == s[..|s| - 1][b..] + [s[|s| - 1]];
      b
    else |s|
  }

  lemma ContainsSlice(s: string, a: nat, b: nat, p: string)
    requires a <= b <= |s|
    requires Contains(s[a..b], p)
    ensures Contains(s, p)
  {
    var t := s[a..b];
    var i :| 0 <= i <= |t| && OccursAt(t, p, i);
    var j := a + i;
    var u := s[j..j + |p|];
    forall k | 0 <= k < |p| ensures u[k] == p[k] {
      assert u[k] == s[j + k];
      assert p[k] == t[i + k];
    }
    assert OccursAt(s, p, j);
  }
}
