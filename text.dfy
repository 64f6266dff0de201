/** Case folding and substring search on strings, as the match engine uses them:
    `term.lower() in ingredient.lower()`. Lower-casing is modelled on ASCII letters only. */
module Text {

  predicate IsAsciiUpper(c: char) {
    'A' <= c <= 'Z'
  }

  /** The lower-case form of one character: ASCII capitals become their lower-case letters,
      32 code points up; everything else stays. */
  function LowerChar(c: char): (d: char)
    ensures !IsAsciiUpper(d)
    ensures IsAsciiUpper(c) ==> 'a' <= d <= 'z' && d as int - c as int == 'a' as int - 'A' as int
    ensures !IsAsciiUpper(c) ==> d == c
  {
    if IsAsciiUpper(c) then (c as int + ('a' as int - 'A' as int)) as char else c
  }

  /** `str.lower()` restricted to ASCII. */
  function Lower(s: string): (t: string)
    ensures |t| == |s|
    ensures forall i :: 0 <= i < |t| ==> !IsAsciiUpper(t[i])
    ensures forall i :: 0 <= i < |s| && !IsAsciiUpper(s[i]) ==> t[i] == s[i]
    ensures forall i :: 0 <= i < |s| && IsAsciiUpper(s[i]) ==> t[i] as int == s[i] as int + ('a' as int - 'A' as int)
  {
    seq(|s|, i requires 0 <= i < |s| => LowerChar(s[i]))
  }

  /** Lower-casing twice is lower-casing once. */
  lemma LowerIdempotent(s: string)
    ensures Lower(Lower(s)) == Lower(s)
  {
    var t := Lower(s);
    assert forall i :: 0 <= i < |t| ==> Lower(t)[i] == t[i];
  }

  predicate IsPrefix(p: string, s: string) {
    |p| <= |s| && s[..|p|] == p
  }

  /** Python's `needle in hay` on strings: some window of `hay` equals `needle`. */
  predicate Contains(hay: string, needle: string)
    decreases |hay|
  {
    IsPrefix(needle, hay) || (|hay| > 0 && Contains(hay[1..], needle))
  }

  /** `needle` occurs in `hay` starting at position i. */
  predicate WindowAt(hay: string, needle: string, i: nat) {
    i + |needle| <= |hay| && hay[i..i + |needle|] == needle
  }

  /** The recursive search agrees with the window definition of a substring, in both directions. */
  lemma {:induction false} ContainsIffWindow(hay: string, needle: string)
    ensures Contains(hay, needle) <==> exists i: nat :: WindowAt(hay, needle, i)
  {
    if IsPrefix(needle, hay) {
      assert WindowAt(hay, needle, 0);
    } else if |hay| == 0 {
    } else {
      ContainsIffWindow(hay[1..], needle);
      if Contains(hay[1..], needle) {
        var i: nat :| WindowAt(hay[1..], needle, i);
        assert hay[1..][i..i + |needle|] == hay[i + 1..i + 1 + |needle|];
        assert WindowAt(hay, needle, i + 1);
      }
      if exists i: nat :: WindowAt(hay, needle, i) {
        var i: nat :| WindowAt(hay, needle, i);
        if i == 0 {
          assert false;
        }
        assert hay[1..][i - 1..i - 1 + |needle|] == hay[i..i + |needle|];
        assert WindowAt(hay[1..], needle, i - 1);
      }
    }
  }

  /** The empty string is contained in every string, as `'' in s` is true in Python. */
  lemma {:induction false} EmptyContained(hay: string)
    ensures Contains(hay, "")
  {
    assert IsPrefix("", hay);
  }

  /** A contained string is never longer than the string that contains it. */
  lemma {:induction false} ContainsBounded(hay: string, needle: string)
    requires Contains(hay, needle)
    ensures |needle| <= |hay|
  {
    if !IsPrefix(needle, hay) {
      ContainsBounded(hay[1..], needle);
    }
  }
}
