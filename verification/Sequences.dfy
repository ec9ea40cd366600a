/** Facts about sequences that several modules need. */
module Sequences {
  /** Taking out element m + 1 is keeping the first and taking out element m of the rest. */
  lemma FirstAndRest<T>(s: seq<T>, m: nat)
    requires m < |s|
    ensures s == [s[0]] + s[1..]
    ensures m + 1 < |s| ==> s[..m + 1] + s[m + 2..] == [s[0]] + (s[1..][..m] + s[1..][m + 1..])
  {
  }
}
