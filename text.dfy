/**
 * The two string operations the request handlers apply to form input:
 * Python's `str.strip()` (no arguments) and `str.lower()`.
 */
module Text {

  /** The characters for which Python's `str.isspace()` holds; `strip()` removes exactly these. */
  predicate IsSpace(c: char) {
    || ('\t' <= c <= '\r')             // tab, line feed, vertical tab, form feed, carriage return
    || ('\U{1C}' <= c <= '\U{1F}')     // information separators
    || c == ' ' || c == '\U{85}' || c == '\U{A0}' || c == '\U{1680}'
    || ('\U{2000}' <= c <= '\U{200A}')
    || c == '\U{2028}' || c == '\U{2029}' || c == '\U{202F}' || c == '\U{205F}' || c == '\U{3000}'
  }

  /** Every character of `s` from index `lo` up to `hi` is white space. */
  predicate SpaceBetween(s: string, lo: int, hi: int)
    requires 0 <= lo <= hi <= |s|
  {
    forall k :: lo <= k < hi ==> IsSpace(s[k])
  }

  /** `s` is nothing but white space. */
  predicate AllSpace(s: string) {
    SpaceBetween(s, 0, |s|)
  }

  /** A string that `strip()` leaves as it is: no white space at either end. */
  predicate Trimmed(s: string) {
    s == [] || (!IsSpace(s[0]) && !IsSpace(s[|s| - 1]))
  }

  /**
   * `s.strip()`: `s` without its leading and trailing white space. The result
   * has no white space at either end, and is empty exactly when `s` is nothing
   * but white space.
   */
  function Strip(s: string): (r: string)
    ensures |r| <= |s|
    ensures Trimmed(r)
    ensures r == [] <==> AllSpace(s)
    decreases |s|
  {
    if s != [] && IsSpace(s[0]) then
      AllSpaceDrop(s, 1, 0);
      Strip(s[1..])
    else if s != [] && IsSpace(s[|s| - 1]) then
      AllSpaceDrop(s, 0, 1);
      Strip(s[..|s| - 1])
    else
      s
  }

  /** Dropping white space from either end does not change whether a string is all white space. */
  lemma AllSpaceDrop(s: string, front: nat, back: nat)
    requires front + back <= |s|
    requires forall i :: 0 <= i < front ==> IsSpace(s[i])
    requires forall i :: |s| - back <= i < |s| ==> IsSpace(s[i])
    ensures AllSpace(s[front..|s| - back]) <==> AllSpace(s)
  {
  }

  /** `strip()` is idempotent: stripping stripped input changes nothing. */
  lemma StripIdempotent(s: string)
    ensures Strip(Strip(s)) == Strip(s)
  {
  }

  /**
   * `strip()` removes white space at the ends and nothing else: its result is
   * the piece of `s` between a white-space prefix and a white-space suffix.
   */
  lemma {:induction false} StripKeepsMiddle(s: string) returns (i: nat)
    ensures i + |Strip(s)| <= |s| && Strip(s) == s[i..i + |Strip(s)|]
    ensures SpaceBetween(s, 0, i) && SpaceBetween(s, i + |Strip(s)|, |s|)
    decreases |s|
  {
    var r := Strip(s);
    if s != [] && IsSpace(s[0]) {
      var t := s[1..];
      var j := StripKeepsMiddle(t);
      i := j + 1;
      assert r == t[j..j + |r|];
      assert t[j..j + |r|] == s[i..i + |r|];
      forall k | 0 < k < i ensures IsSpace(s[k]) { assert s[k] == t[k - 1]; }
      forall k | i + |r| <= k < |s| ensures IsSpace(s[k]) { assert s[k] == t[k - 1]; }
    } else if s != [] && IsSpace(s[|s| - 1]) {
      var t := s[..|s| - 1];
      i := StripKeepsMiddle(t);
      if t != [] {
        assert t[0] == s[0];
      }
      assert i == 0;
      assert r == t[i..i + |r|];
      assert t[i..i + |r|] == s[i..i + |r|];
      forall k | i + |r| <= k < |s| - 1 ensures IsSpace(s[k]) { assert s[k] == t[k]; }
    } else {
      i := 0;
      assert r == s[0..|s|];
    }
  }

  /**
   * `c.lower()` for one character, restricted to ASCII: no letter A-Z is left,
   * and only A-Z change, each into a letter a-z.
   */
  function LowerChar(c: char): (d: char)
    ensures !('A' <= d <= 'Z')
    ensures d != c ==> 'A' <= c <= 'Z' && 'a' <= d <= 'z'
  {
    if 'A' <= c <= 'Z' then (c as int - 'A' as int + 'a' as int) as char else c
  }

  /** `s.lower()`: `s` with every letter replaced by its lower-case form, character by character. */
  function Lower(s: string): (r: string)
    ensures |r| == |s|
    ensures forall i :: 0 <= i < |s| ==> r[i] == LowerChar(s[i])
  {
    if s == [] then [] else [LowerChar(s[0])] + Lower(s[1..])
  }

  /** Lower-casing twice is lower-casing once. */
  lemma LowerIdempotent(s: string)
    ensures Lower(Lower(s)) == Lower(s)
  {
  }

  /** Lower-casing keeps a string empty or non-empty, so `not email` may be tested after `lower()`. */
  lemma LowerEmpty(s: string)
    ensures Lower(s) == [] <==> s == []
  {
  }
}
