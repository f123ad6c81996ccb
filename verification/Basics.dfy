/** Definitions that several parts share. */
module Basics {

  /** Unsigned 32-bit numbers wrap here. */
  const TWO_TO_THE_32: nat := 0x1_0000_0000

  function Min(a: int, b: int): int {
    if a <= b then a else b
  }

  ghost predicate Distinct(s: seq<nat>) {
    forall i, j :: 0 <= i < j < |s| ==> s[i] != s[j]
  }
}
