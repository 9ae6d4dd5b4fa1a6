/** Sequences of numbers. */
module Sequences {
  predicate StrictlySorted(s: seq<nat>) {
    forall i, j :: 0 <= i < j < |s| ==> s[i] < s[j]
  }

  /** The sequence with `w` put in before position `j`. */
  function InsertedAt(s: seq<nat>, j: nat, w: nat): seq<nat>
    requires j <= |s|
  {
    s[..j] + [w] + s[j..]
  }

  function Min(a: nat, b: nat): nat { if a < b then a else b }
}
