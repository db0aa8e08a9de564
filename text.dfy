// String helpers the lookup relies on from the JavaScript runtime:
// String.prototype.trim, the regular-expression class \s, toLowerCase and
// indexOf(...) > -1.

module Text {

  /** The ECMAScript WhiteSpace and LineTerminator code points: what `\s`
      matches and what `trim` strips. */
  predicate IsWhitespace(ch: char)
  {
    ch == '\t' || ch == '\n' || ch == '\U{B}' || ch == '\U{C}' || ch == '\r' || ch == ' '
    || ch == '\U{A0}' || ch == '\U{1680}' || ('\U{2000}' <= ch <= '\U{200A}')
    || ch == '\U{2028}' || ch == '\U{2029}' || ch == '\U{202F}' || ch == '\U{205F}'
    || ch == '\U{3000}' || ch == '\U{FEFF}'
  }

  /** Empty, or made of whitespace only: `!s || s.match(/^\s+$/)`. */
  predicate IsBlank(s: string)
  {
    forall i :: 0 <= i < |s| ==> IsWhitespace(s[i])
  }

  /** Drops leading whitespace. */
  function TrimStart(s: string): string
  {
    if s != [] && IsWhitespace(s[0]) then TrimStart(s[1..]) else s
  }

  /** Drops trailing whitespace. */
  function TrimEnd(s: string): string
  {
    if s != [] && IsWhitespace(s[|s| - 1]) then TrimEnd(s[..|s| - 1]) else s
  }

  /** String.prototype.trim. */
  function Trim(s: string): string
  {
    TrimEnd(TrimStart(s))
  }

  /** What TrimStart leaves is a suffix of `s` that does not start with
      whitespace, and everything it dropped was whitespace. */
  lemma {:induction false} TrimStartDropsBlankPrefix(s: string)
    ensures |TrimStart(s)| <= |s| && TrimStart(s) == s[|s| - |TrimStart(s)|..]
    ensures IsBlank(s[..|s| - |TrimStart(s)|])
    ensures TrimStart(s) == [] || !IsWhitespace(TrimStart(s)[0])
  {
    if s != [] && IsWhitespace(s[0]) {
      TrimStartDropsBlankPrefix(s[1..]);
      var k := |s| - |TrimStart(s)|;
      assert s[..k] == [s[0]] + s[1..][..k - 1];
    }
  }

  /** What TrimEnd leaves is a prefix of `s` that does not end with
      whitespace, and everything it dropped was whitespace. */
  lemma {:induction false} TrimEndDropsBlankSuffix(s: string)
    ensures |TrimEnd(s)| <= |s| && TrimEnd(s) == s[..|TrimEnd(s)|]
    ensures IsBlank(s[|TrimEnd(s)|..])
    ensures TrimEnd(s) == [] || !IsWhitespace(TrimEnd(s)[|TrimEnd(s)| - 1])
  {
    if s != [] && IsWhitespace(s[|s| - 1]) {
      var s' := s[..|s| - 1];
      TrimEndDropsBlankSuffix(s');
      var k := |TrimEnd(s)|;
      assert s[k..] == s'[k..] + [s[|s| - 1]];
      assert s'[..k] == s[..k];
    }
  }

  /** Trimming leaves nothing exactly when the string is blank; otherwise
      the result neither starts nor ends with whitespace. It never grows. */
  lemma TrimProperties(s: string)
    ensures Trim(s) == [] <==> IsBlank(s)
    ensures Trim(s) != [] ==> !IsWhitespace(Trim(s)[0]) && !IsWhitespace(Trim(s)[|Trim(s)| - 1])
    ensures |Trim(s)| <= |s|
  {
    var t := TrimStart(s);
    var r := TrimEnd(t);
    TrimStartDropsBlankPrefix(s);
    TrimEndDropsBlankSuffix(t);
    assert r != [] ==> r[0] == t[0];
    assert IsBlank(t) ==> t == [];
    assert s == s[..|s| - |t|] + t;
    if r == [] { assert t[|r|..] == t; }
  }

  /** A string with no whitespace at either end is left as it is by `trim`. */
  lemma TrimmedIsFixed(s: string)
    requires s == [] || (!IsWhitespace(s[0]) && !IsWhitespace(s[|s| - 1]))
    ensures Trim(s) == s
  {
  }

  /** Trimming twice is trimming once. */
  lemma TrimIdempotent(s: string)
    ensures Trim(Trim(s)) == Trim(s)
  {
    TrimProperties(s);
    TrimmedIsFixed(Trim(s));
  }

  /** toLowerCase, on the ASCII letters. */
  function LowerChar(ch: char): char
  {
    if 'A' <= ch <= 'Z' then (ch as int + 32) as char else ch
  }

  /** String.prototype.toLowerCase, character by character. */
  function Lower(s: string): (r: string)
    ensures |r| == |s|
    ensures forall i :: 0 <= i < |s| ==> r[i] == LowerChar(s[i])
  {
    if s == [] then [] else [LowerChar(s[0])] + Lower(s[1..])
  }

  /** Lower-casing leaves no upper-case ASCII letter and changes nothing
      that is already lower case, so applying it twice is applying it once. */
  lemma {:induction false} LowerIdempotent(s: string)
    ensures forall i :: 0 <= i < |Lower(s)| ==> !('A' <= Lower(s)[i] <= 'Z')
    ensures Lower(Lower(s)) == Lower(s)
  {
    if s != [] {
      LowerIdempotent(s[1..]);
      assert Lower(s) == [LowerChar(s[0])] + Lower(s[1..]);
      assert Lower(Lower(s)) == [LowerChar(LowerChar(s[0]))] + Lower(Lower(s)[1..]);
      assert Lower(s)[1..] == Lower(s[1..]);
    }
  }

  /** Lower-casing commutes with taking a suffix. */
  lemma {:induction false} LowerSuffix(s: string, k: nat)
    requires k <= |s|
    ensures Lower(s[k..]) == Lower(s)[k..]
  {
    if k > 0 {
      assert s[k..] == s[1..][k - 1..];
      LowerSuffix(s[1..], k - 1);
    }
  }

  /** Lower-casing commutes with taking a prefix. */
  lemma {:induction false} LowerPrefix(s: string, k: nat)
    requires k <= |s|
    ensures Lower(s[..k]) == Lower(s)[..k]
  {
    if k > 0 {
      assert s[..k][1..] == s[1..][..k - 1];
      LowerPrefix(s[1..], k - 1);
    }
  }

  /** Lower-casing both sides keeps every occurrence: whatever `indexOf`
      finds in the original text it also finds after `toLowerCase`. */
  lemma LowerPreservesContains(s: string, sub: string)
    requires Contains(s, sub)
    ensures Contains(Lower(s), Lower(sub))
  {
    var k :| 0 <= k <= |s| && sub <= s[k..];
    LowerSuffix(s, k);
    LowerPrefix(s[k..], |sub|);
    assert s[k..][..|sub|] == sub;
    assert Lower(sub) <= Lower(s)[k..];
  }

  /** `s.indexOf(sub) > -1`: `sub` occurs in `s` at some position (the empty
      string occurs everywhere). */
  predicate Contains(s: string, sub: string)
  {
    exists k :: 0 <= k <= |s| && sub <= s[k..]
  }

  /** Every string contains itself, and the empty string. */
  lemma ContainsSelf(s: string)
    ensures Contains(s, s) && Contains(s, [])
  {
    assert s <= s[0..];
  }
}
