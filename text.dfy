/**
 * The string operations the backend (.NET) and the frontend (JavaScript)
 * rely on: white-space tests, trimming, prefix and substring search, and an
 * ordinal case-insensitive comparison.
 */
module Text {
  import opened Wrappers

  /** The two runtimes whose notions of white space the model needs. */
  datatype Runtime = DotNet | JavaScript

  /**
   * `char.IsWhiteSpace` for DotNet: categories Zs, Zl, Zp, U+0009..U+000D
   * and U+0085. The WhiteSpace and LineTerminator code points that
   * `String.prototype.trim` strips for JavaScript: the same set without
   * U+0085 and with U+FEFF.
   */
  predicate IsWhiteSpace(rt: Runtime, c: char) {
    || ('\t' <= c <= '\r')
    || c == ' ' || c == '\U{00A0}' || c == '\U{1680}'
    || ('\U{2000}' <= c <= '\U{200A}')
    || c == '\U{2028}' || c == '\U{2029}' || c == '\U{202F}'
    || c == '\U{205F}' || c == '\U{3000}'
    || (rt == DotNet && c == '\U{0085}')
    || (rt == JavaScript && c == '\U{FEFF}')
  }

  /** Every character of `s` is white space (the empty string included). */
  predicate IsBlank(rt: Runtime, s: string) {
    forall i :: 0 <= i < |s| ==> IsWhiteSpace(rt, s[i])
  }

  /** `string.IsNullOrWhiteSpace`. */
  predicate IsNullOrWhiteSpace(s: Option<string>) {
    s.None? || IsBlank(DotNet, s.value)
  }

  /** Drops the leading white space. */
  function TrimStart(rt: Runtime, s: string): (r: string)
    ensures |r| <= |s| && r == s[|s| - |r|..]
    ensures forall i :: 0 <= i < |s| - |r| ==> IsWhiteSpace(rt, s[i])
    ensures r != [] ==> !IsWhiteSpace(rt, r[0])
  {
    if s != [] && IsWhiteSpace(rt, s[0]) then TrimStart(rt, s[1..]) else s
  }

  /** Drops the trailing white space. */
  function TrimEnd(rt: Runtime, s: string): (r: string)
    ensures |r| <= |s| && r == s[..|r|]
    ensures forall i :: |r| <= i < |s| ==> IsWhiteSpace(rt, s[i])
    ensures r != [] ==> !IsWhiteSpace(rt, r[|r| - 1])
  {
    if s != [] && IsWhiteSpace(rt, s[|s| - 1]) then TrimEnd(rt, s[..|s| - 1]) else s
  }

  /**
   * `r` is what is left of `s` after cutting, at offset `i`, a white-space
   * prefix and a white-space suffix.
   */
  predicate IsPaddedAt(rt: Runtime, s: string, r: string, i: int) {
    && 0 <= i <= |s| - |r|
    && s[i..i + |r|] == r
    && (forall k :: 0 <= k < i ==> IsWhiteSpace(rt, s[k]))
    && (forall k :: i + |r| <= k < |s| ==> IsWhiteSpace(rt, s[k]))
  }

  /** `string.Trim()` (DotNet) and `String.prototype.trim()` (JavaScript). */
  function Trim(rt: Runtime, s: string): (r: string)
    ensures exists i :: IsPaddedAt(rt, s, r, i)
    ensures r != [] ==> !IsWhiteSpace(rt, r[0]) && !IsWhiteSpace(rt, r[|r| - 1])
    ensures r == [] <==> IsBlank(rt, s)
  {
    var t := TrimStart(rt, s);
    var r := TrimEnd(rt, t);
    assert IsPaddedAt(rt, s, r, |s| - |t|) by {
      assert s[|s| - |t|..][..|r|] == s[|s| - |t|..|s| - |t| + |r|];
      forall k | |s| - |t| + |r| <= k < |s| ensures IsWhiteSpace(rt, s[k]) {
        assert s[k] == t[k - (|s| - |t|)];
      }
    }
    r
  }

  /** A string with no white space at either end is its own trim. */
  lemma TrimIdempotent(rt: Runtime, s: string)
    ensures Trim(rt, Trim(rt, s)) == Trim(rt, s)
  {
    var r := Trim(rt, s);
    assert TrimStart(rt, r) == r;
    assert TrimEnd(rt, r) == r;
  }

  /** `sub` occurs in `s` starting at index `i`. */
  predicate OccursAt(s: string, sub: string, i: int) {
    0 <= i <= |s| - |sub| && s[i..i + |sub|] == sub
  }

  /** Ordinal substring search (`string.Contains`, `String.prototype.includes`). */
  function Contains(s: string, sub: string): (r: bool)
    ensures r <==> exists i :: OccursAt(s, sub, i)
    decreases |s|
  {
    if sub <= s then
      assert OccursAt(s, sub, 0);
      true
    else if s == [] then
      false
    else
      var r := Contains(s[1..], sub);
      assert forall i :: OccursAt(s[1..], sub, i) ==> OccursAt(s, sub, i + 1) by {
        forall i | OccursAt(s[1..], sub, i) ensures OccursAt(s, sub, i + 1) {
          assert s[i + 1..i + 1 + |sub|] == s[1..][i..i + |sub|];
        }
      }
      assert forall i :: OccursAt(s, sub, i) ==> i > 0 && OccursAt(s[1..], sub, i - 1) by {
        forall i | OccursAt(s, sub, i) ensures i > 0 && OccursAt(s[1..], sub, i - 1) {
          assert s[1..][i - 1..i - 1 + |sub|] == s[i..i + |sub|];
        }
      }
      r
  }

  /** ASCII upper-case letters to lower case; everything else unchanged. */
  function ToLowerAscii(c: char): char {
    if 'A' <= c <= 'Z' then (c as int + 32) as char else c
  }

  function FoldCase(s: string): string {
    seq(|s|, i requires 0 <= i < |s| => ToLowerAscii(s[i]))
  }

  /** `s.Contains(sub, StringComparison.OrdinalIgnoreCase)`, folding ASCII letters only. */
  predicate ContainsIgnoreCase(s: string, sub: string) {
    Contains(FoldCase(s), FoldCase(sub))
  }

  /** From index `i` on, `s` spells `sub` up to the case of ASCII letters. */
  predicate MatchesIgnoringCaseAt(s: string, sub: string, i: int) {
    && 0 <= i <= |s| - |sub|
    && forall j :: 0 <= j < |sub| ==> ToLowerAscii(s[i + j]) == ToLowerAscii(sub[j])
  }

  /** An ordinal occurrence is also a case-insensitive one. */
  lemma ContainsImpliesContainsIgnoreCase(s: string, sub: string)
    requires Contains(s, sub)
    ensures ContainsIgnoreCase(s, sub)
  {
    var i :| OccursAt(s, sub, i);
    assert FoldCase(s)[i..i + |sub|] == FoldCase(sub);
    assert OccursAt(FoldCase(s), FoldCase(sub), i);
  }

  /** `IsNullOrWhiteSpace` holds exactly of null and of what `Trim` empties. */
  lemma NullOrWhiteSpaceTrimsToEmpty(s: Option<string>)
    ensures IsNullOrWhiteSpace(s) <==> s.None? || Trim(DotNet, s.value) == []
  {
  }

  /** The case-insensitive search finds `sub` iff it is spelled, up to ASCII case, at some index of `s`. */
  lemma ContainsIgnoreCaseMatchesAt(s: string, sub: string)
    ensures ContainsIgnoreCase(s, sub) <==> exists i :: MatchesIgnoringCaseAt(s, sub, i)
  {
    forall i | MatchesIgnoringCaseAt(s, sub, i) ensures OccursAt(FoldCase(s), FoldCase(sub), i) {
      var w := FoldCase(s)[i..i + |sub|];
      assert forall j :: 0 <= j < |sub| ==> w[j] == FoldCase(s)[i + j];
    }
    forall i | OccursAt(FoldCase(s), FoldCase(sub), i) ensures MatchesIgnoringCaseAt(s, sub, i) {
      forall j | 0 <= j < |sub| ensures ToLowerAscii(s[i + j]) == ToLowerAscii(sub[j]) {
        assert FoldCase(s)[i..i + |sub|][j] == FoldCase(sub)[j];
      }
    }
  }
}
