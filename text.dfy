/**
 * The string operations of Python that the codecs and the server helpers
 * apply: `str.lower` and `str.strip` with no argument.
 */
module Text {

  /**
   * `str.lower` on one character, for the characters whose lower case is
   * ASCII: the capitals A to Z and the Kelvin sign, which lowers to `k`.
   * Every other character is left as it is.
   */
  function Lower(c: char): char
  {
    if 'A' <= c <= 'Z' then (c as int + 32) as char
    else if c == '\U{212A}' then 'k'
    else c
  }

  /** `str.lower` on a string, character by character. */
  function LowerString(s: string): (r: string)
    ensures |r| == |s|
  {
    seq(|s|, i requires 0 <= i < |s| => Lower(s[i]))
  }

  /** The characters `str.isspace` accepts, which `str.strip()` removes. */
  predicate IsSpace(c: char)
  {
    c == ' ' || '\t' <= c <= '\r' || '\U{1C}' <= c <= '\U{1F}' || c == '\U{85}' || c == '\U{A0}'
    || c == '\U{1680}' || '\U{2000}' <= c <= '\U{200A}' || c == '\U{2028}' || c == '\U{2029}'
    || c == '\U{202F}' || c == '\U{205F}' || c == '\U{3000}'
  }

  /** Drops leading whitespace. */
  function StripLeft(s: string): string
  {
    if s != [] && IsSpace(s[0]) then StripLeft(s[1..]) else s
  }

  /** Drops trailing whitespace. */
  function StripRight(s: string): string
  {
    if s != [] && IsSpace(s[|s| - 1]) then StripRight(s[..|s| - 1]) else s
  }

  /** `str.strip()`. */
  function Strip(s: string): string
  {
    StripRight(StripLeft(s))
  }

  /**
   * `r` is `s[a..b]`, everything cut off is whitespace, and `r` neither
   * starts nor ends with whitespace.
   */
  predicate StripCut(r: string, s: string, a: int, b: int)
  {
    0 <= a <= b <= |s| && r == s[a..b]
    && (forall i :: 0 <= i < a ==> IsSpace(s[i]))
    && (forall i :: b <= i < |s| ==> IsSpace(s[i]))
    && (r != [] ==> !IsSpace(r[0]) && !IsSpace(r[|r| - 1]))
  }

  lemma {:induction false} StripLeftSlice(s: string) returns (a: nat)
    ensures a <= |s| && StripLeft(s) == s[a..]
    ensures forall i :: 0 <= i < a ==> IsSpace(s[i])
    ensures StripLeft(s) != [] ==> !IsSpace(StripLeft(s)[0])
  {
    if s != [] && IsSpace(s[0]) {
      var a' := StripLeftSlice(s[1..]);
      assert s[1..][a'..] == s[a' + 1..];
      assert forall i :: 1 <= i < a' + 1 ==> s[i] == s[1..][i - 1];
      a := a' + 1;
    } else {
      assert s == s[0..];
      a := 0;
    }
  }

  lemma {:induction false} StripRightSlice(s: string) returns (b: nat)
    ensures b <= |s| && StripRight(s) == s[..b]
    ensures forall i :: b <= i < |s| ==> IsSpace(s[i])
    ensures StripRight(s) != [] ==> !IsSpace(StripRight(s)[|StripRight(s)| - 1])
  {
    if s != [] && IsSpace(s[|s| - 1]) {
      var t := s[..|s| - 1];
      b := StripRightSlice(t);
      assert t[..b] == s[..b];
    } else {
      assert s == s[..|s|];
      b := |s|;
    }
  }

  /** `strip()` cuts only whitespace, from both ends, and leaves no whitespace at either end. */
  lemma StripIsStrip(s: string)
    ensures exists a, b :: StripCut(Strip(s), s, a, b)
  {
    var a := StripLeftSlice(s);
    var t := s[a..];
    var b := StripRightSlice(t);
    assert Strip(s) == s[a..a + b];
    assert forall i :: a + b <= i < |s| ==> s[i] == t[i - a];
    if Strip(s) != [] {
      assert Strip(s)[0] == t[0];
    }
    assert StripCut(Strip(s), s, a, a + b);
  }

  /** Stripping a string with no whitespace at its ends changes nothing. */
  lemma StripUnchanged(s: string)
    requires s != [] ==> !IsSpace(s[0]) && !IsSpace(s[|s| - 1])
    ensures Strip(s) == s
  {
  }

  /** `strip()` is idempotent. */
  lemma StripIdempotent(s: string)
    ensures Strip(Strip(s)) == Strip(s)
  {
    StripIsStrip(s);
    StripUnchanged(Strip(s));
  }

  /** Lower case never turns a character into whitespace or whitespace into something else. */
  lemma LowerKeepsSpace(c: char)
    ensures IsSpace(Lower(c)) <==> IsSpace(c)
  {
  }

  lemma {:induction false} StripLeftLower(s: string)
    ensures StripLeft(LowerString(s)) == LowerString(StripLeft(s))
  {
    if s != [] {
      LowerKeepsSpace(s[0]);
      if IsSpace(s[0]) {
        StripLeftLower(s[1..]);
        assert LowerString(s)[1..] == LowerString(s[1..]);
      }
    }
  }

  lemma {:induction false} StripRightLower(s: string)
    ensures StripRight(LowerString(s)) == LowerString(StripRight(s))
  {
    if s != [] {
      LowerKeepsSpace(s[|s| - 1]);
      if IsSpace(s[|s| - 1]) {
        StripRightLower(s[..|s| - 1]);
        assert LowerString(s)[..|s| - 1] == LowerString(s[..|s| - 1]);
      }
    }
  }

  /** Lowering and stripping can be done in either order. */
  lemma StripLowerCommute(s: string)
    ensures Strip(LowerString(s)) == LowerString(Strip(s))
  {
    StripLeftLower(s);
    StripRightLower(StripLeft(s));
  }

  /** Lowering twice is lowering once. */
  lemma LowerIdempotent(s: string)
    ensures LowerString(LowerString(s)) == LowerString(s)
  {
    assert forall i :: 0 <= i < |s| ==> Lower(Lower(s[i])) == Lower(s[i]);
  }
}
