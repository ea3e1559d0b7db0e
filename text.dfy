/**
 * The string handling the serializers and the user manager rely on:
 * Python's `str.strip()` with no argument, which removes the characters
 * `str.isspace()` accepts from both ends, and ASCII case folding.
 */
module Text {

  /** `str.isspace()` for one character: the ASCII and Unicode whitespace Python strips. */
  predicate IsSpace(c: char)
  {
    c == ' ' || '\t' <= c <= '\r' || '\U{1C}' <= c <= '\U{1F}'
    || c == '\U{85}' || c == '\U{A0}' || c == '\U{1680}' || '\U{2000}' <= c <= '\U{200A}'
    || c == '\U{2028}' || c == '\U{2029}' || c == '\U{202F}' || c == '\U{205F}' || c == '\U{3000}'
  }

  predicate AllSpace(s: string)
  {
    forall i :: 0 <= i < |s| ==> IsSpace(s[i])
  }

  /** The number of whitespace characters at the start of `s`. */
  function LeadingSpace(s: string): (n: nat)
    ensures n <= |s| && forall i :: 0 <= i < n ==> IsSpace(s[i])
    ensures n < |s| ==> !IsSpace(s[n])
  {
    if s == [] || !IsSpace(s[0]) then 0
    else
      var n := 1 + LeadingSpace(s[1..]);
      assert forall i :: 1 <= i < n ==> s[i] == s[1..][i - 1];
      n
  }

  /** The number of whitespace characters at the end of `s`. */
  function TrailingSpace(s: string): (n: nat)
    ensures n <= |s| && forall i :: |s| - n <= i < |s| ==> IsSpace(s[i])
    ensures n < |s| ==> !IsSpace(s[|s| - n - 1])
  {
    if s == [] || !IsSpace(s[|s| - 1]) then 0
    else
      var init := s[..|s| - 1];
      var n := 1 + TrailingSpace(init);
      assert forall i :: |s| - n <= i < |s| - 1 ==> s[i] == init[i];
      n
  }

  /**
   * `s.strip()`: the part of `s` between its leading and trailing
   * whitespace. Everything outside the result is whitespace, and a
   * non-empty result neither starts nor ends with whitespace.
   */
  function Strip(s: string): (r: string)
    ensures var a := LeadingSpace(s);
            a + |r| <= |s| && s[a..a + |r|] == r
            && forall i :: 0 <= i < |s| && !(a <= i < a + |r|) ==> IsSpace(s[i])
    ensures r != [] ==> !IsSpace(r[0]) && !IsSpace(r[|r| - 1])
  {
    var a := LeadingSpace(s);
    var rest := s[a..];
    var m := |rest| - TrailingSpace(rest);
    var r := rest[..m];
    assert s[a..a + m] == r;
    assert forall i :: a + m <= i < |s| ==> s[i] == rest[i - a];
    assert m > 0 ==> r[0] == s[a] && r[m - 1] == rest[m - 1];
    r
  }

  /** A string strips to nothing exactly when it is all whitespace (what DRF calls blank). */
  lemma StripEmpty(s: string)
    ensures Strip(s) == [] <==> AllSpace(s)
  {
    var a := LeadingSpace(s);
    if Strip(s) == [] {
      assert s[..a] == s;
    } else {
      assert s[a] == Strip(s)[0];
    }
  }

  /** Stripping removes only whitespace, so it keeps every other character. */
  lemma StripKeepsChar(s: string, c: char)
    requires !IsSpace(c)
    ensures c in Strip(s) <==> c in s
  {
    var a := LeadingSpace(s);
    var r := Strip(s);
    if c in r {
      var j :| 0 <= j < |r| && r[j] == c;
      assert s[a + j] == s[a..a + |r|][j];
    }
    if c in s {
      var i :| 0 <= i < |s| && s[i] == c;
      assert r[i - a] == s[a..a + |r|][i - a];
    }
  }

  /** Stripping twice strips nothing more. */
  lemma StripIdempotent(s: string)
    ensures Strip(Strip(s)) == Strip(s)
  {
    var r := Strip(s);
    if r != [] {
      assert LeadingSpace(r) == 0;
      var r2 := Strip(r);
      assert r[..|r2|] == r2;
    }
  }

  /** `str.lower()` on one character, for the ASCII letters. */
  function LowerChar(c: char): (d: char)
    ensures 'A' <= c <= 'Z' ==> d as int == c as int + 32
    ensures !('A' <= c <= 'Z') ==> d == c
  {
    if 'A' <= c <= 'Z' then (c as int + 32) as char else c
  }

  /** `s.lower()` for the ASCII letters: the same length, each character lowered. */
  function Lower(s: string): (r: string)
    ensures |r| == |s| && forall i :: 0 <= i < |s| ==> r[i] == LowerChar(s[i])
  {
    if s == [] then [] else Lower(s[..|s| - 1]) + [LowerChar(s[|s| - 1])]
  }
}
