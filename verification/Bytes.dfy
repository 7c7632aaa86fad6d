/** Bytes as numbers, for the codecs and frames. */
module Bytes {

  predicate AreBytes(b: seq<nat>) {
    forall i :: 0 <= i < |b| ==> b[i] < 256
  }
}
