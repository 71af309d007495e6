/** The group-number test of `ajouterSynonyme` and `supprimerSynonyme`
    (DicoSynonymes.cpp lines 160 and 277): the `int` group number is compared
    with `groupesSynonymes.size() - 1`, a 64-bit `size_t`, so both sides are
    taken modulo 2^64 before the comparison. */
module Unsigned {

  const SizeModulus: int := 0x1_0000_0000_0000_0000

  /** A 32-bit `int`. */
  predicate IsInt32(x: int) {
    -0x8000_0000 <= x < 0x8000_0000
  }

  /** The conversion of an integer to `size_t`, wrapping around. */
  function AsSize(x: int): (r: nat)
    ensures r < SizeModulus
    ensures 0 <= x < SizeModulus ==> r == x
    ensures -SizeModulus <= x < 0 ==> r == x + SizeModulus
  {
    x % SizeModulus
  }

  /** `numGroupe > groupesSynonymes.size() - 1` for a table of `n` groups. */
  predicate ExceedsLastIndex(g: int, n: nat)
    ensures 0 <= g < n < SizeModulus ==> !ExceedsLastIndex(g, n)
    ensures n == 0 ==> !ExceedsLastIndex(g, n)
  {
    AsSize(g) > AsSize(n - 1)
  }

  /** For a table that is not empty the unsigned test rejects exactly the
      numbers that are not group indices, negative ones included. */
  lemma ExceedsIffOutOfRange(g: int, n: nat)
    requires IsInt32(g) && 0 < n < 0x8000_0000
    ensures ExceedsLastIndex(g, n) <==> !(0 <= g < n)
  {
  }

  /** For an empty table `size() - 1` wraps to the largest `size_t`, so the
      test lets every group number through. */
  lemma EmptyTableAcceptsAll(g: int)
    requires IsInt32(g)
    ensures !ExceedsLastIndex(g, 0)
  {
  }
}
