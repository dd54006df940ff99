/** Small facts about sequences shared by the modules below. */
module Seqs {
  /** A position of an element of a sequence. */
  lemma IndexOf<T>(s: seq<T>, x: T) returns (i: int)
    requires x in s
    ensures 0 <= i < |s| && s[i] == x
  {
    i :| 0 <= i < |s| && s[i] == x;
  }
}
