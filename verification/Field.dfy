/** The secp256k1 base field on five 64-bit limbs in base 2^52. */
module Field {

  newtype uint64 = x: int | 0 <= x < 0x1_0000_0000_0000_0000
  newtype uint128 = x: int | 0 <= x < 0x1_0000_0000_0000_0000_0000_0000_0000_0000

  /** The field prime, section 2.7.1 of SEC 2. */
  const P: int := 0xFFFFFFFF_FFFFFFFF_FFFFFFFF_FFFFFFFF_FFFFFFFF_FFFFFFFF_FFFFFFFE_FFFFFC2F

  const B1: int := 0x10_0000_0000_0000                                   // 2^52
  const B2: int := 0x100_0000_0000_0000_0000_0000_0000                   // 2^104
  const B3: int := 0x1000_0000_0000_0000_0000_0000_0000_0000_0000_0000   // 2^156
  const B4: int := B2 * B2                                               // 2^208

  const BITS48: int := 0x1_0000_0000_0000
  const BITS56: int := 0x100_0000_0000_0000

  const R: int := 0x10_0000_3D10
  const R4: int := 0x1_0000_03D1  // R >> 4

  /** A field element: five limbs in base 2^52, not necessarily reduced. */
  datatype Limbs = Limbs(n0: uint64, n1: uint64, n2: uint64, n3: uint64, n4: uint64)

  function Value(a: Limbs): int {
    a.n0 as int + a.n1 as int * B1 + a.n2 as int * B2 + a.n3 as int * B3 + a.n4 as int * B4
  }

  /** A magnitude-`m` element: limbs up to `2 m (2^52 - 1)`, the top one up to `2 m (2^48 - 1)`. */
  predicate Magnitude(a: Limbs, m: nat) {
    && a.n0 as int <= 2 * m * (B1 - 1) && a.n1 as int <= 2 * m * (B1 - 1)
    && a.n2 as int <= 2 * m * (B1 - 1) && a.n3 as int <= 2 * m * (B1 - 1)
    && a.n4 as int <= 2 * m * (BITS48 - 1)
  }

  predicate Congruent(x: int, y: int) {
    (x - y) % P == 0
  }

  /** The limbs as a tuple of naturals. */
  ghost function Five(r: Limbs): (nat, nat, nat, nat, nat) {
    (r.n0 as int, r.n1 as int, r.n2 as int, r.n3 as int, r.n4 as int)
  }
}
