/** Character classes and maximal runs, from which the source's regular expressions are matched.
    Ranges such as [A-z] are read in the POSIX locale, by character code. */
module TextMatch {
  predicate IsSpace(c: char) { c == ' ' }

  predicate IsDigit(c: char) { '0' <= c <= '9' }

  /** [A-z]: the letters and the six characters between 'Z' and 'a'. */
  predicate IsAz(c: char) { 'A' <= c <= 'z' }

  /** [A-z0-9\_]: one part of an attribute name. */
  predicate IsWord(c: char) { IsAz(c) || IsDigit(c) || c == '_' }

  ghost predicate All(s: string, p: char -> bool)
  {
    forall i :: 0 <= i < |s| ==> p(s[i])
  }

  /** The end of the longest run of p-characters that starts at i. */
  function RunEnd(s: string, i: nat, p: char -> bool): (e: nat)
    requires i <= |s|
    ensures i <= e <= |s|
    ensures forall k :: i <= k < e ==> p(s[k])
    ensures e < |s| ==> !p(s[e])
    decreases |s| - i
  {
    if i < |s| && p(s[i]) then RunEnd(s, i + 1, p) else i
  }

  /** A run that is followed by something else, or by nothing, is the longest one. */
  lemma RunEndIs(s: string, i: nat, e: nat, p: char -> bool)
    requires i <= e <= |s|
    requires forall k :: i <= k < e ==> p(s[k])
    requires e < |s| ==> !p(s[e])
    ensures RunEnd(s, i, p) == e
  {
  }
}
