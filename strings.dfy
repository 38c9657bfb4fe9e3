/** Python string operations used by the scraper, over ASCII. */
module Strings {

  /** `str.isspace()` on one character, restricted to ASCII: space, `\t`..`\r`, `\x1c`..`\x1f`. */
  predicate IsSpace(c: char)
  {
    c == ' ' || ('\t' <= c <= '\r') || ('\U{1C}' <= c <= '\U{1F}')
  }

  /** The ASCII part of the regex class `\w`: letters, digits and underscore. */
  predicate IsWordChar(c: char)
  {
    ('a' <= c <= 'z') || ('A' <= c <= 'Z') || ('0' <= c <= '9') || c == '_'
  }

  /** `str.lstrip()`: drops leading whitespace. */
  function StripLeft(s: string): (r: string)
    ensures |r| <= |s|
    ensures r == [] || !IsSpace(r[0])
  {
    if s != [] && IsSpace(s[0]) then StripLeft(s[1..]) else s
  }

  /** `str.rstrip()`: drops trailing whitespace. */
  function StripRight(s: string): (r: string)
    ensures |r| <= |s|
    ensures r == [] || !IsSpace(r[|r| - 1])
  {
    if s != [] && IsSpace(s[|s| - 1]) then StripRight(s[..|s| - 1]) else s
  }

  /** `rstrip` keeps a prefix and drops only whitespace. */
  lemma {:induction false} StripRightPrefix(s: string)
    ensures var r := StripRight(s);
            r == s[..|r|] && forall i :: |r| <= i < |s| ==> IsSpace(s[i])
  {
    if s != [] && IsSpace(s[|s| - 1]) {
      var p := s[..|s| - 1];
      StripRightPrefix(p);
      var r := StripRight(p);
      assert p[..|r|] == s[..|r|];
    }
  }

  /** `str.strip()`: a slice of `s` with no whitespace at either end. */
  function Strip(s: string): (r: string)
    ensures |r| <= |s|
    ensures r == [] || (!IsSpace(r[0]) && !IsSpace(r[|r| - 1]))
  {
    StripRightPrefix(StripLeft(s));
    StripRight(StripLeft(s))
  }

  /** `lstrip` keeps a suffix and drops only whitespace. */
  lemma {:induction false} StripLeftSuffix(s: string)
    ensures var r := StripLeft(s);
            r == s[|s| - |r|..] && forall i :: 0 <= i < |s| - |r| ==> IsSpace(s[i])
  {
    if s != [] && IsSpace(s[0]) {
      StripLeftSuffix(s[1..]);
    }
  }

  /** `strip` keeps the slice of `s` that starts after the leading whitespace. */
  lemma StripSlice(s: string)
    ensures var k := |s| - |StripLeft(s)|;
            var r := Strip(s);
            k + |r| <= |s| && r == s[k..k + |r|]
  {
    StripLeftSuffix(s);
    var left := StripLeft(s);
    StripRightPrefix(left);
  }

  /** Text made of whitespace only strips to nothing. */
  lemma StripAllSpace(s: string)
    requires forall i :: 0 <= i < |s| ==> IsSpace(s[i])
    ensures Strip(s) == []
  {
    StripLeftSuffix(s);
  }

  /** `lstrip` stops at the first non-whitespace character. */
  lemma {:induction false} StripLeftFrom(s: string, k: nat)
    requires k < |s| && !IsSpace(s[k])
    requires forall j :: 0 <= j < k ==> IsSpace(s[j])
    ensures StripLeft(s) == s[k..]
  {
    if k > 0 {
      StripLeftFrom(s[1..], k - 1);
      assert s[1..][k - 1..] == s[k..];
    }
  }

  /** When `s[k]` is the first non-whitespace character, `strip` keeps a non-empty slice starting at `k` and drops only whitespace after it. */
  lemma StripFrom(s: string, k: nat)
    requires k < |s| && !IsSpace(s[k])
    requires forall j :: 0 <= j < k ==> IsSpace(s[j])
    ensures var r := Strip(s);
            r != [] && k + |r| <= |s| && r == s[k..k + |r|] &&
            forall j :: k + |r| <= j < |s| ==> IsSpace(s[j])
  {
    StripLeftFrom(s, k);
    var left := s[k..];
    var r := StripRight(left);
    StripRightPrefix(left);
    assert !IsSpace(left[0]);
    assert r == left[..|r|];
    assert left[..|r|] == s[k..k + |r|];
    forall j | k + |r| <= j < |s| ensures IsSpace(s[j]) {
      assert s[j] == left[j - k];
    }
  }

  /** `str.lower()` on one ASCII character. */
  function LowerChar(c: char): char
  {
    if 'A' <= c <= 'Z' then (c as int - 'A' as int + 'a' as int) as char else c
  }

  /** `str.lower()`, ASCII only. */
  function Lower(s: string): (r: string)
    ensures |r| == |s|
    ensures forall i :: 0 <= i < |s| ==> r[i] == LowerChar(s[i])
  {
    if s == [] then [] else [LowerChar(s[0])] + Lower(s[1..])
  }

  /** `t` occurs in `s` starting at index `i`. */
  predicate OccursAt(s: string, t: string, i: int)
  {
    0 <= i && i + |t| <= |s| && s[i..i + |t|] == t
  }

  /** Python's `t in s` for strings. */
  predicate Contains(s: string, t: string)
  {
    exists i | 0 <= i <= |s| - |t| :: OccursAt(s, t, i)
  }

  /** A string occurs in anything that ends with it. */
  lemma ContainsSuffix(a: string, b: string)
    ensures Contains(a + b, b)
  {
    assert (a + b)[|a|..|a| + |b|] == b;
    assert OccursAt(a + b, b, |a|);
  }

  /** `t` does not occur in `s` when no possible start position holds the first character of `t`. */
  lemma NotContainsByFirst(s: string, t: string)
    requires t != []
    requires forall i :: 0 <= i <= |s| - |t| ==> s[i] != t[0]
    ensures !Contains(s, t)
  {
    forall i | 0 <= i <= |s| - |t| ensures !OccursAt(s, t, i) {
      assert s[i..i + |t|][0] == s[i];
    }
  }

  /** Python's `s.endswith(suffix)`. */
  predicate EndsWith(s: string, suffix: string)
  {
    |suffix| <= |s| && s[|s| - |suffix|..] == suffix
  }
}
