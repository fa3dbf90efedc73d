/** Facts about sequences that the verifier has to be told. */
module Sequences {
  lemma Assoc<T>(x: seq<T>, y: seq<T>, z: seq<T>)
    ensures x + (y + z) == (x + y) + z
  {
  }

  lemma Around<T>(s: seq<T>, i: nat)
    requires i < |s|
    ensures (s[..i] + [s[i]]) + s[i + 1..] == s
  {
  }
}
