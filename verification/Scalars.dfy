/** Scalars: numbers below the order of the secp256k1 group. */
module Scalars {

  /** The group order, section 2.7.1 of SEC 2. */
  const N: nat := 0xFFFFFFFF_FFFFFFFF_FFFFFFFF_FFFFFFFE_BAAEDCE6_AF48A03B_BFD25E8C_D0364141

  function ScalarNegate(s: nat): (r: nat)
    requires s < N
    ensures r < N
  {
    if s == 0 then 0 else N - s
  }

  /** Negation turns odd into even and even into odd, and adds up to 0 modulo the order. */
  lemma NegateParity(s: nat)
    requires 0 < s < N
    ensures ScalarNegate(s) % 2 == 1 - s % 2 && (ScalarNegate(s) + s) % N == 0
  {
    var half := N / 2;
    assert N == 2 * half + 1;
    if s % 2 == 1 {
      assert N - s == 2 * (half - s / 2);
    } else {
      assert N - s == 2 * (half - s / 2) + 1;
    }
  }
}
