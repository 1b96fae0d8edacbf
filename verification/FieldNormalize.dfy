/**
Bringing five-limb field elements to canonical form, testing them for zero, and
comparing them.  Limbs are machine words; `t >> 52` and `t & (2^52 - 1)` are written
as quotient and remainder, other bitwise operators come from `Bits`.
 */
module FieldNormalize {
  import opened Bits
  import opened Field

  /** `2^256` modulo the prime. */
  const C: int := 0x1_0000_03D1
  const ONES52: int := 0xF_FFFF_FFFF_FFFF
  const ONES48: int := 0xFFFF_FFFF_FFFF
  /** The lowest limb of the prime; the next three are all ones, the top one 48 ones. */
  const P0: int := 0xF_FFFE_FFFF_FC2F

  /** The largest magnitude for which the first pass fits 64 bits. */
  const MAX_MAGNITUDE: nat := 2047

  function BitAnd(x: uint64, y: uint64): uint64 {
    And(x as nat, y as nat) as uint64
  }

  /** Limbs of 52 bits, the top one of any size. */
  predicate Carried(a: Limbs) {
    a.n0 as int < B1 && a.n1 as int < B1 && a.n2 as int < B1 && a.n3 as int < B1
  }

  /** The unique representation of a residue. */
  predicate Canonical(a: Limbs) {
    Carried(a) && a.n4 as int < BITS48 && Value(a) < P
  }

  /** Moves the part of each limb above 52 bits into the next one. */
  method CarryPass(t: Limbs) returns (u: Limbs)
    requires t.n0 as int < 0xFFF * B1 + B1 && t.n1 as int <= 0xFFE * B1 && t.n2 as int <= 0xFFE * B1
             && t.n3 as int <= 0xFFE * B1
    requires t.n4 as int < 2 * BITS48
    ensures Value(u) == Value(t) && Carried(u)
    ensures t.n4 <= u.n4 && u.n4 as int <= t.n4 as int + 0x1000
    ensures u.n0 as int == t.n0 as int % B1
  {
    var t0, t1, t2, t3, t4 := t.n0, t.n1, t.n2, t.n3, t.n4;
    t1 := t1 + t0 / B1 as uint64;
    t0 := t0 % B1 as uint64;
    t2 := t2 + t1 / B1 as uint64;
    t1 := t1 % B1 as uint64;
    t3 := t3 + t2 / B1 as uint64;
    t2 := t2 % B1 as uint64;
    t4 := t4 + t3 / B1 as uint64;
    t3 := t3 % B1 as uint64;
    u := Limbs(t0, t1, t2, t3, t4);
  }

  /** The first pass: the value modulo `2^256`, plus what `2^256` is worth per overflow. */
  method FirstPass(a: Limbs, ghost m: nat) returns (u: Limbs)
    requires Magnitude(a, m) && m <= MAX_MAGNITUDE
    ensures Carried(u) && u.n4 as int < BITS48 + 0x1000
    ensures Congruent(Value(u), Value(a))
    ensures u.n0 as int == (a.n0 as int + a.n4 as int / BITS48 * C) % B1
  {
    var x := a.n4 / BITS48 as uint64;
    u := CarryPass(Limbs(a.n0 + x * C as uint64, a.n1, a.n2, a.n3, a.n4 % BITS48 as uint64));
    assert Value(u) == Value(a) - x as int * P;
  }

  /** Whether a final reduction is needed, decided by the bits alone. */
  method Overflows(u: Limbs) returns (x: uint64)
    requires Carried(u) && u.n4 as int < BITS48 + 0x1000
    ensures x == if Value(u) >= P then 1 else 0
  {
    var m := u.n1;
    m := BitAnd(m, u.n2);
    m := BitAnd(m, u.n3);
    AllOnes(u);
    x := BitOr(u.n4 / BITS48 as uint64,
               if u.n4 as int == ONES48 && m as int == ONES52 && u.n0 as int >= P0 then 1 else 0);
    CompareWithPrime(u);
  }

  function BitOr(x: uint64, y: uint64): (z: uint64)
    requires x <= 1 && y <= 1
    ensures z == if x == 1 || y == 1 then 1 else 0
  {
    Or(x as nat, y as nat) as uint64
  }

  lemma AllOnes(u: Limbs)
    requires Carried(u)
    ensures BitAnd(BitAnd(u.n1, u.n2), u.n3) as int == ONES52 <==>
            u.n1 as int == ONES52 && u.n2 as int == ONES52 && u.n3 as int == ONES52
  {
    Pow2Words();
    AndAllOnes(u.n1 as nat, u.n2 as nat, 52);
    AndAllOnes(And(u.n1 as nat, u.n2 as nat), u.n3 as nat, 52);
  }

  /** Comparing with the prime is comparing limbs from the top. */
  lemma CompareWithPrime(u: Limbs)
    requires Carried(u)
    ensures Value(u) >= P <==>
              u.n4 as int >= BITS48 ||
              (u.n4 as int == ONES48 && u.n3 as int == ONES52 && u.n2 as int == ONES52 && u.n1 as int == ONES52
               && u.n0 as int >= P0)
  {
  }

  /** Adds `C` and drops bit 256: subtracts the prime from a value at or above it. */
  method FinalReduction(u: Limbs, x: uint64) returns (r: Limbs)
    requires Carried(u) && u.n4 as int < BITS48 + 0x1000
    requires x == if Value(u) >= P then 1 else 0
    ensures Canonical(r) && Value(r) == Value(u) - x as int * P
  {
    var t := CarryPass(u.(n0 := u.n0 + x * C as uint64));
    assert t.n4 / BITS48 as uint64 == x;
    r := t.(n4 := t.n4 % BITS48 as uint64);
  }

  lemma ResidueIs(v: int, u: int)
    requires Congruent(u, v) && 0 <= u < 2 * P
    ensures v % P == if u >= P then u - P else u
  {
  }

  /** Constant time: the final reduction is always carried out. */
  method Normalize(a: Limbs, ghost m: nat) returns (r: Limbs)
    requires Magnitude(a, m) && m <= MAX_MAGNITUDE
    ensures Canonical(r) && Value(r) == Value(a) % P
  {
    var u := FirstPass(a, m);
    var x := Overflows(u);
    r := FinalReduction(u, x);
    ResidueIs(Value(a), Value(u));
  }

  /** Variable time: the final reduction only when it is needed. */
  method NormalizeVar(a: Limbs, ghost m: nat) returns (r: Limbs)
    requires Magnitude(a, m) && m <= MAX_MAGNITUDE
    ensures Canonical(r) && Value(r) == Value(a) % P
  {
    var u := FirstPass(a, m);
    var x := Overflows(u);
    if x != 0 {
      r := FinalReduction(u, 1);
    } else {
      r := u;
      CompareWithPrime(u);
    }
    ResidueIs(Value(a), Value(u));
  }

  lemma LowLimbUnique(x: int, y: int, x': int, y': int)
    requires 0 <= x < B1 && 0 <= x' < B1 && x + y * B1 == x' + y' * B1
    ensures x == x' && y == y'
  {
    assert (y - y') * B1 == x' - x;
  }

  /** A residue has one canonical representation, so both give the same limbs. */
  lemma CanonicalUnique(a: Limbs, b: Limbs)
    requires Canonical(a) && Canonical(b) && Value(a) == Value(b)
    ensures a == b
  {
    var (a0, a1, a2, a3, a4) := Five(a);
    var (b0, b1, b2, b3, b4) := Five(b);
    LowLimbUnique(a0, a1 + a2 * B1 + a3 * B2 + a4 * B3, b0, b1 + b2 * B1 + b3 * B2 + b4 * B3);
    LowLimbUnique(a1, a2 + a3 * B1 + a4 * B2, b1, b2 + b3 * B1 + b4 * B2);
    LowLimbUnique(a2, a3 + a4 * B1, b2, b3 + b4 * B1);
    LowLimbUnique(a3, a4, b3, b4);
  }

  method NormalizeAgrees(a: Limbs, ghost m: nat) returns (r: Limbs, s: Limbs)
    requires Magnitude(a, m) && m <= MAX_MAGNITUDE
    ensures r == s
  {
    r := Normalize(a, m);
    s := NormalizeVar(a, m);
    CanonicalUnique(r, s);
  }

  /** Only 0 and the prime itself vanish, and both show in the limbs of the first pass. */
  lemma ZeroResidue(u: Limbs)
    requires Carried(u) && u.n4 as int < BITS48 + 0x1000
    ensures Congruent(Value(u), 0) <==>
              || (u.n0 == 0 && u.n1 == 0 && u.n2 == 0 && u.n3 == 0 && u.n4 == 0)
              || (u.n0 as int == P0 && u.n1 as int == ONES52 && u.n2 as int == ONES52 && u.n3 as int == ONES52
                  && u.n4 as int == ONES48)
  {
    assert 0 <= Value(u) < 2 * P;
    CompareWithPrime(u);
    assert Congruent(Value(u), 0) <==> Value(u) == 0 || Value(u) == P;
  }

  /** `z0` gathers every bit of the limbs. */
  ghost function Z0(u: Limbs): nat {
    Or(Or(Or(Or(u.n0 as nat, u.n1 as nat), u.n2 as nat), u.n3 as nat), u.n4 as nat)
  }

  /** `z1` is all ones exactly on the limbs of the prime. */
  ghost function Z1(u: Limbs): nat {
    And(And(And(And(Xor(u.n0 as nat, 0x1_0000_03D0), u.n1 as nat), u.n2 as nat), u.n3 as nat),
        Xor(u.n4 as nat, 0xF_0000_0000_0000))
  }

  lemma ZeroBits(u: Limbs)
    requires Carried(u) && u.n4 as int < BITS48 + 0x1000
    ensures Z0(u) == 0 <==> u == Limbs(0, 0, 0, 0, 0)
    ensures Z1(u) == ONES52 <==>
              u.n0 as int == P0 && u.n1 as int == ONES52 && u.n2 as int == ONES52 && u.n3 as int == ONES52
              && u.n4 as int == ONES48
  {
    NoBits(u);
    PrimeBits(u);
  }

  lemma NoBits(u: Limbs)
    ensures Z0(u) == 0 <==> u == Limbs(0, 0, 0, 0, 0)
  {
  }

  lemma PrimeBits(u: Limbs)
    requires Carried(u) && u.n4 as int < BITS48 + 0x1000
    ensures Z1(u) == ONES52 <==>
              u.n0 as int == P0 && u.n1 as int == ONES52 && u.n2 as int == ONES52 && u.n3 as int == ONES52
              && u.n4 as int == ONES48
  {
    var k := Width52();
    XorAllOnes(u.n0 as nat, 0x1_0000_03D0, k);
    XorAllOnes(u.n4 as nat, 0xF_0000_0000_0000, k);
    AndChainAllOnes(Xor(u.n0 as nat, 0x1_0000_03D0), u.n1 as nat, u.n2 as nat, u.n3 as nat,
                    Xor(u.n4 as nat, 0xF_0000_0000_0000), k);
  }

  lemma Width52() returns (k: nat)
    ensures Pow2(k) == B1
  {
    Pow2Words();
    k := 52;
  }

  /** Constant time: all bits are gathered before they are looked at. */
  method NormalizesToZero(a: Limbs, ghost m: nat) returns (zero: bool)
    requires Magnitude(a, m) && m <= MAX_MAGNITUDE
    ensures zero <==> Value(a) % P == 0
  {
    var u := FirstPass(a, m);
    var z0, z1 := u.n0 as nat, Xor(u.n0 as nat, 0x1_0000_03D0);
    z0, z1 := Or(z0, u.n1 as nat), And(z1, u.n1 as nat);
    z0, z1 := Or(z0, u.n2 as nat), And(z1, u.n2 as nat);
    z0, z1 := Or(z0, u.n3 as nat), And(z1, u.n3 as nat);
    z0, z1 := Or(z0, u.n4 as nat), And(z1, Xor(u.n4 as nat, 0xF_0000_0000_0000));
    zero := z0 == 0 || z1 == ONES52;
    ZeroBits(u);
    ZeroResidue(u);
    CongruentToZero(Value(u), Value(a));
  }

  lemma CongruentToZero(u: int, v: int)
    requires Congruent(u, v)
    ensures Congruent(u, 0) <==> v % P == 0
  {
    ModShift(v, (u - v) / P);
  }

  lemma ModShift(v: int, k: int)
    ensures (v + k * P) % P == v % P
  {
  }

  /** The lowest limb of the first pass is 0, or the prime's, when the value is 0 modulo the prime. */
  lemma LowLimbOfZero(a: Limbs, m: nat)
    requires Magnitude(a, m) && m <= MAX_MAGNITUDE
    ensures Value(a) % P == 0 ==> (a.n0 as int + a.n4 as int / BITS48 * C) % B1 in {0, P0}
  {
    var x := a.n4 as int / BITS48;
    var t0 := a.n0 as int + x * C;
    var high := a.n1 as int + a.n2 as int * B1 + a.n3 as int * B2 + (a.n4 as int - x * BITS48) * B3;
    var v := t0 + high * B1;
    assert v == Value(a) - x * P;
    assert 0 <= v < 2 * P;
    LowPart(Value(a), x, t0, high);
  }

  lemma LowPart(v: int, x: int, t0: int, high: int)
    requires t0 + high * B1 == v - x * P && 0 <= t0 + high * B1 < 2 * P
    ensures v % P == 0 ==> t0 % B1 in {0, P0}
  {
    var w := t0 + high * B1;
    assert w - v == -x * P;
    ResidueIs(v, w);
    if v % P == 0 {
      assert w == 0 || w == P;
      LowLimbUnique(t0 % B1, t0 / B1 + high, w % B1, w / B1);
    }
  }

  /** Variable time: most elements are told from zero by their lowest limb. */
  method NormalizesToZeroVar(a: Limbs, ghost m: nat) returns (zero: bool)
    requires Magnitude(a, m) && m <= MAX_MAGNITUDE
    ensures zero <==> Value(a) % P == 0
  {
    var x := a.n4 / BITS48 as uint64;
    var t0 := a.n0 + x * C as uint64;
    var z0 := (t0 % B1 as uint64) as nat;
    var z1 := Xor(z0, 0x1_0000_03D0);
    if z0 != 0 && z1 != ONES52 {
      LowLimbOfZero(a, m);
      ghost var k := Width52();
      XorAllOnes(z0, 0x1_0000_03D0, k);
      return false;
    }
    // the remaining limbs of the first pass
    var u := FirstPass(a, m);
    z0, z1 := Or(z0, u.n1 as nat), And(z1, u.n1 as nat);
    z0, z1 := Or(z0, u.n2 as nat), And(z1, u.n2 as nat);
    z0, z1 := Or(z0, u.n3 as nat), And(z1, u.n3 as nat);
    z0, z1 := Or(z0, u.n4 as nat), And(z1, Xor(u.n4 as nat, 0xF_0000_0000_0000));
    zero := z0 == 0 || z1 == ONES52;
    ZeroBits(u);
    ZeroResidue(u);
    CongruentToZero(Value(u), Value(a));
  }

  /** `2 (m + 1) p - a`, limb by limb. */
  method Negate(a: Limbs, m: nat) returns (r: Limbs)
    requires Magnitude(a, m) && m <= MAX_MAGNITUDE
    ensures Magnitude(r, m + 1) && Value(r) == 2 * (m + 1) * P - Value(a)
  {
    var k := (2 * (m + 1)) as uint64;
    r := Limbs(P0 as uint64 * k - a.n0, ONES52 as uint64 * k - a.n1, ONES52 as uint64 * k - a.n2,
               ONES52 as uint64 * k - a.n3, ONES48 as uint64 * k - a.n4);
  }

  method Add(a: Limbs, b: Limbs, ghost m: nat, ghost n: nat) returns (r: Limbs)
    requires Magnitude(a, m) && Magnitude(b, n) && m + n <= MAX_MAGNITUDE + 1
    ensures Magnitude(r, m + n) && Value(r) == Value(a) + Value(b)
  {
    r := Limbs(a.n0 + b.n0, a.n1 + b.n1, a.n2 + b.n2, a.n3 + b.n3, a.n4 + b.n4);
  }

  /** Decides congruence with an element of magnitude 1. */
  method Equal(a: Limbs, b: Limbs, ghost m: nat) returns (eq: bool)
    requires Magnitude(a, 1) && Magnitude(b, m) && m + 2 <= MAX_MAGNITUDE
    ensures eq <==> Congruent(Value(a), Value(b))
  {
    var na := Negate(a, 1);
    na := Add(na, b, 2, m);
    eq := NormalizesToZero(na, m + 2);
    DifferenceZero(Value(a), Value(b), Value(na));
  }

  method EqualVar(a: Limbs, b: Limbs, ghost m: nat) returns (eq: bool)
    requires Magnitude(a, 1) && Magnitude(b, m) && m + 2 <= MAX_MAGNITUDE
    ensures eq <==> Congruent(Value(a), Value(b))
  {
    var na := Negate(a, 1);
    na := Add(na, b, 2, m);
    eq := NormalizesToZeroVar(na, m + 2);
    DifferenceZero(Value(a), Value(b), Value(na));
  }

  lemma DifferenceZero(x: int, y: int, z: int)
    requires z == 4 * P - x + y
    ensures z % P == 0 <==> Congruent(x, y)
  {
  }

  /** The bound on magnitudes is exact: at 2048, which the consistency check still admits,
      the lowest limb of the first pass no longer fits 64 bits. */
  lemma FirstPassFitsIff(m: nat)
    requires m <= 2048
    ensures (forall a: Limbs :: Magnitude(a, m) ==>
               a.n0 as int + a.n4 as int / BITS48 * C < 0x1_0000_0000_0000_0000)
            <==> m <= MAX_MAGNITUDE
  {
    if m == 2048 {
      var a := Limbs(0xFFFF_FFFF_FFFF_F000, 0, 0, 0, 0xFFF_FFFF_FFFF_F000);
      assert Magnitude(a, m);
    }
  }
}
