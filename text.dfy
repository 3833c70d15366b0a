/**
 * The few string operations of Python's `str` that the model relies on:
 * ASCII lower-casing, substring containment, `replace` of a fixed pattern
 * by the empty string, and `replace` of one character by another.
 */
module Text {

  predicate IsAsciiUpper(c: char) { 'A' <= c <= 'Z' }
  predicate IsAsciiLower(c: char) { 'a' <= c <= 'z' }
  predicate IsDigit(c: char) { '0' <= c <= '9' }

  /** `c.lower()` for ASCII letters; every other character is left as it is. */
  function LowerChar(c: char): (d: char)
    ensures IsAsciiUpper(c) ==> IsAsciiLower(d)
    ensures !IsAsciiUpper(c) ==> d == c
  {
    if IsAsciiUpper(c) then (c as int - 'A' as int + 'a' as int) as char else c
  }

  /** `s.lower()`, restricted to ASCII case mapping. */
  function Lower(s: string): (r: string)
    ensures |r| == |s|
    ensures forall i :: 0 <= i < |s| ==> r[i] == LowerChar(s[i])
  {
    if s == [] then [] else [LowerChar(s[0])] + Lower(s[1..])
  }

  /** `needle in hay` for strings: `needle` occurs at some position of `hay`. */
  predicate Contains(hay: string, needle: string)
  {
    needle <= hay || (hay != [] && Contains(hay[1..], needle))
  }

  lemma {:induction false} ContainsAt(hay: string, needle: string, i: nat)
    requires i + |needle| <= |hay| && hay[i..i + |needle|] == needle
    ensures Contains(hay, needle)
  {
    if i > 0 {
      assert hay[1..][i - 1..i - 1 + |needle|] == hay[i..i + |needle|];
      ContainsAt(hay[1..], needle, i - 1);
    } else {
      assert needle <= hay;
    }
  }

  /**
   * `s.replace(pat, '')`: scanning left to right, every non-overlapping
   * occurrence of `pat` is removed (not only a leading one).
   */
  function RemoveAll(s: string, pat: string): (r: string)
    requires pat != []
    ensures |r| <= |s|
    decreases |s|
  {
    if |s| < |pat| then s
    else if s[..|pat|] == pat then RemoveAll(s[|pat|..], pat)
    else [s[0]] + RemoveAll(s[1..], pat)
  }

  /** No proper prefix of `pat` is also a suffix of it, so two occurrences can never overlap. */
  predicate SelfOverlapFree(pat: string)
  {
    forall k :: 0 < k < |pat| ==> pat[k..] != pat[..|pat| - k]
  }

  /** A pattern whose first character does not recur cannot overlap itself. */
  lemma FirstCharUniqueSelfOverlapFree(pat: string)
    requires pat != [] && pat[0] !in pat[1..]
    ensures SelfOverlapFree(pat)
  {
    forall k | 0 < k < |pat| ensures pat[k..] != pat[..|pat| - k] {
      assert pat[k] == pat[1..][k - 1];
      assert pat[k..][0] != pat[..|pat| - k][0];
    }
  }

  /** A window that starts inside a shorter `x` cannot match a self-overlap-free `pat` that follows it. */
  lemma NoMatchAcross(x: string, y: string, pat: string)
    requires 0 < |x| < |pat| && SelfOverlapFree(pat)
    ensures (x + pat + y)[..|pat|] != pat
  {
    var w := (x + pat + y)[..|pat|];
    assert w[|x|..] == pat[..|pat| - |x|];
    assert pat[|x|..] != pat[..|pat| - |x|];
  }

  /**
   * For a pattern that cannot overlap itself, an occurrence of it splits the
   * removal: no occurrence can straddle either edge of the one in the middle.
   */
  lemma {:induction false} RemoveAllAround(x: string, y: string, pat: string)
    requires pat != [] && SelfOverlapFree(pat)
    ensures RemoveAll(x + pat + y, pat) == RemoveAll(x, pat) + RemoveAll(y, pat)
    decreases |x|
  {
    var s := x + pat + y;
    if x == [] {
      assert s[..|pat|] == pat && s[|pat|..] == y;
    } else if |x| >= |pat| {
      assert s[..|pat|] == x[..|pat|];
      if x[..|pat|] == pat {
        assert s[|pat|..] == x[|pat|..] + pat + y;
        RemoveAllAround(x[|pat|..], y, pat);
      } else {
        assert s[1..] == x[1..] + pat + y;
        RemoveAllAround(x[1..], y, pat);
      }
    } else {
      NoMatchAcross(x, y, pat);
      assert s[0] == x[0] && s[1..] == x[1..] + pat + y;
      RemoveAllAround(x[1..], y, pat);
      assert RemoveAll(x[1..], pat) == x[1..];
      assert [x[0]] + x[1..] == x;
    }
  }

  /** Removing a pattern that does not occur leaves the string as it is. */
  lemma {:induction false} RemoveAllAbsent(s: string, pat: string)
    requires pat != [] && !Contains(s, pat)
    ensures RemoveAll(s, pat) == s
    decreases |s|
  {
    if |s| >= |pat| {
      RemoveAllAbsent(s[1..], pat);
    }
  }

  /** `s.replace(c, d)` for single characters `c` and `d`. */
  function ReplaceChar(s: string, c: char, d: char): (r: string)
    ensures |r| == |s|
    ensures forall i :: 0 <= i < |s| ==> r[i] == if s[i] == c then d else s[i]
  {
    if s == [] then [] else [if s[0] == c then d else s[0]] + ReplaceChar(s[1..], c, d)
  }

  /** The strings of `ts` that are not empty, in order: the `if member.text` filter. */
  function NonEmptyTexts(ts: seq<string>): (r: seq<string>)
    ensures forall i :: 0 <= i < |r| ==> r[i] != ""
    ensures forall t :: t in r <==> t in ts && t != ""
    ensures |r| <= |ts|
  {
    if ts == [] then []
    else NonEmptyTexts(ts[..|ts| - 1]) + if ts[|ts| - 1] != "" then [ts[|ts| - 1]] else []
  }

  /** The filter works element by element, so it distributes over concatenation. */
  lemma {:induction false} NonEmptyTextsAppend(a: seq<string>, b: seq<string>)
    ensures NonEmptyTexts(a + b) == NonEmptyTexts(a) + NonEmptyTexts(b)
    decreases |b|
  {
    if b == [] {
      assert a + b == a;
    } else {
      var ab := a + b;
      assert ab[..|ab| - 1] == a + b[..|b| - 1] && ab[|ab| - 1] == b[|b| - 1];
      NonEmptyTextsAppend(a, b[..|b| - 1]);
    }
  }
}
