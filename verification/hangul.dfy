/** The precomposed Hangul syllable block, the only script the generator accepts. */
module Hangul {
  import opened PyStr

  /** `ord('가') <= ord(c) <= ord('힣')`: `c` lies in U+AC00 .. U+D7A3. */
  predicate IsSyllable(c: char) {
    '가' <= c <= '힣'
  }

  /** `all(ord('가') <= ord(c) <= ord('힣') for c in s)`, true of the empty string. */
  predicate AllSyllables(s: string) {
    forall i :: 0 <= i < |s| ==> IsSyllable(s[i])
  }

  /** A string of syllables has nothing for `strip()` to remove. */
  lemma StripSyllables(s: string)
    requires AllSyllables(s)
    ensures Strip(s) == s
  {
    if s != [] {
      assert IsSyllable(s[0]) && IsSyllable(s[|s| - 1]);
      StripNoEdgeSpace(s);
    }
  }
}
