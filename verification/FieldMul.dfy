/**
Multiplication and squaring modulo the secp256k1 field prime on five limbs in base
2^52, with 64-bit limbs and 128-bit accumulators.  `uint64` and `uint128` values are
machine words: every operation on them is proved to stay in range.  `x & M` and
`x >> 52` are written `x % M` and `x / M`, with `M == 2^52`.
 */
module FieldMul {

  import opened Field

  /** What both routines demand of an operand: 56-bit limbs, the top one 52 bits. */
  predicate Bounded(a: Limbs) {
    && a.n0 as int < BITS56 && a.n1 as int < BITS56 && a.n2 as int < BITS56 && a.n3 as int < BITS56
    && a.n4 as int < B1
  }

  /** What both routines deliver: 52-bit limbs, the top one 49 bits. */
  predicate Reduced(a: Limbs) {
    && a.n0 as int < B1 && a.n1 as int < B1 && a.n2 as int < B1 && a.n3 as int < B1
    && a.n4 as int <= 2 * (BITS48 - 1)
  }

  /** The nine column sums of a schoolbook product. */
  datatype Columns = Columns(p0: nat, p1: nat, p2: nat, p3: nat, p4: nat, p5: nat, p6: nat, p7: nat, p8: nat)

  lemma ProductBound(x: int, y: int, xmax: int, ymax: int)
    requires 0 <= x < xmax && 0 <= y < ymax
    ensures 0 <= x * y <= (xmax - 1) * (ymax - 1)
  {
    assert x * y <= x * (ymax - 1) <= (xmax - 1) * (ymax - 1);
  }

  const BITS112: int := BITS56 * BITS56
  const BITS108: int := BITS56 * B1

  ghost function Column0(a: Limbs, b: Limbs): (p: nat)
    requires Bounded(a) && Bounded(b)
    ensures p < 1 * BITS112
  {
    ProductBound(a.n0 as int, b.n0 as int, BITS56, BITS56);
    a.n0 as int * b.n0 as int
  }

  ghost function Column1(a: Limbs, b: Limbs): (p: nat)
    requires Bounded(a) && Bounded(b)
    ensures p < 2 * BITS112
  {
    ProductBound(a.n0 as int, b.n1 as int, BITS56, BITS56);
    ProductBound(a.n1 as int, b.n0 as int, BITS56, BITS56);
    a.n0 as int * b.n1 as int + a.n1 as int * b.n0 as int
  }

  ghost function Column2(a: Limbs, b: Limbs): (p: nat)
    requires Bounded(a) && Bounded(b)
    ensures p < 3 * BITS112
  {
    ProductBound(a.n0 as int, b.n2 as int, BITS56, BITS56);
    ProductBound(a.n1 as int, b.n1 as int, BITS56, BITS56);
    ProductBound(a.n2 as int, b.n0 as int, BITS56, BITS56);
    a.n0 as int * b.n2 as int + a.n1 as int * b.n1 as int + a.n2 as int * b.n0 as int
  }

  ghost function Column3(a: Limbs, b: Limbs): (p: nat)
    requires Bounded(a) && Bounded(b)
    ensures p < 4 * BITS112
  {
    ProductBound(a.n0 as int, b.n3 as int, BITS56, BITS56);
    ProductBound(a.n1 as int, b.n2 as int, BITS56, BITS56);
    ProductBound(a.n2 as int, b.n1 as int, BITS56, BITS56);
    ProductBound(a.n3 as int, b.n0 as int, BITS56, BITS56);
    a.n0 as int * b.n3 as int + a.n1 as int * b.n2 as int + a.n2 as int * b.n1 as int + a.n3 as int * b.n0 as int
  }

  ghost function Column4(a: Limbs, b: Limbs): (p: nat)
    requires Bounded(a) && Bounded(b)
    ensures p < 3 * BITS112 + 2 * BITS108
  {
    ProductBound(a.n0 as int, b.n4 as int, BITS56, B1);
    ProductBound(a.n1 as int, b.n3 as int, BITS56, BITS56);
    ProductBound(a.n2 as int, b.n2 as int, BITS56, BITS56);
    ProductBound(a.n3 as int, b.n1 as int, BITS56, BITS56);
    ProductBound(a.n4 as int, b.n0 as int, B1, BITS56);
    a.n0 as int * b.n4 as int + a.n1 as int * b.n3 as int + a.n2 as int * b.n2 as int + a.n3 as int * b.n1 as int
    + a.n4 as int * b.n0 as int
  }

  ghost function Column5(a: Limbs, b: Limbs): (p: nat)
    requires Bounded(a) && Bounded(b)
    ensures p < 2 * BITS112 + 2 * BITS108
  {
    ProductBound(a.n1 as int, b.n4 as int, BITS56, B1);
    ProductBound(a.n2 as int, b.n3 as int, BITS56, BITS56);
    ProductBound(a.n3 as int, b.n2 as int, BITS56, BITS56);
    ProductBound(a.n4 as int, b.n1 as int, B1, BITS56);
    a.n1 as int * b.n4 as int + a.n2 as int * b.n3 as int + a.n3 as int * b.n2 as int + a.n4 as int * b.n1 as int
  }

  ghost function Column6(a: Limbs, b: Limbs): (p: nat)
    requires Bounded(a) && Bounded(b)
    ensures p < 1 * BITS112 + 2 * BITS108
  {
    ProductBound(a.n2 as int, b.n4 as int, BITS56, B1);
    ProductBound(a.n3 as int, b.n3 as int, BITS56, BITS56);
    ProductBound(a.n4 as int, b.n2 as int, B1, BITS56);
    a.n2 as int * b.n4 as int + a.n3 as int * b.n3 as int + a.n4 as int * b.n2 as int
  }

  ghost function Column7(a: Limbs, b: Limbs): (p: nat)
    requires Bounded(a) && Bounded(b)
    ensures p < 2 * BITS108
  {
    ProductBound(a.n3 as int, b.n4 as int, BITS56, B1);
    ProductBound(a.n4 as int, b.n3 as int, B1, BITS56);
    a.n3 as int * b.n4 as int + a.n4 as int * b.n3 as int
  }

  ghost function Column8(a: Limbs, b: Limbs): (p: nat)
    requires Bounded(a) && Bounded(b)
    ensures p < B2
  {
    ProductBound(a.n4 as int, b.n4 as int, B1, B1);
    a.n4 as int * b.n4 as int
  }

  ghost function ColumnsOf(a: Limbs, b: Limbs): (p: Columns)
    requires Bounded(a) && Bounded(b)
    ensures InRange(p)
  {
    Columns(Column0(a, b), Column1(a, b), Column2(a, b), Column3(a, b), Column4(a, b), Column5(a, b), Column6(a, b),
            Column7(a, b), Column8(a, b))
  }

  ghost predicate InRange(p: Columns) {
    && p.p0 < 1 * BITS112
    && p.p1 < 2 * BITS112
    && p.p2 < 3 * BITS112
    && p.p3 < 4 * BITS112
    && p.p4 < 3 * BITS112 + 2 * BITS108
    && p.p5 < 2 * BITS112 + 2 * BITS108
    && p.p6 < 1 * BITS112 + 2 * BITS108
    && p.p7 < 2 * BITS108
    && p.p8 < B2
  }

  // ----- what the carry steps compute, over unbounded numbers

  /** Columns 3 and 8 give limb `t3`, and carries `d` at 2^208, `c` at 2^468. */
  ghost function Fold1(p3: nat, p8: nat): (nat, nat, nat) {
    var d := p3 + p8 % B1 * R;
    (d % B1, d / B1, p8 / B1)
  }

  /** Column 4 gives limb `t4` of 48 bits, the rest `tx` of the limb, and carry `d` at 2^260. */
  ghost function Fold2(p4: nat, d1: nat, c1: nat): (nat, nat, nat) {
    var d := d1 + p4 + c1 * R;
    (d % B1 % BITS48, d % B1 / BITS48, d / B1)
  }

  /** Columns 0 and 5 give `r0`, carry `c` at 2^52 and `d` at 2^312. */
  ghost function Fold3(p0: nat, p5: nat, tx: nat, d2: nat): (nat, nat, nat) {
    var d := d2 + p5;
    var c := p0 + (d % B1 * 16 + tx) * R4;
    (c % B1, c / B1, d / B1)
  }

  /** A low and a high column give a limb, and carries to the limbs above both. */
  ghost function Fold4(low: nat, high: nat, c0: nat, d0: nat): (nat, nat, nat) {
    var d := d0 + high;
    var c := c0 + low + d % B1 * R;
    (c % B1, c / B1, d / B1)
  }

  /** The last carries give `r3` and `r4`. */
  ghost function Fold5(t3: nat, t4: nat, c5: nat, d5: nat): (nat, nat) {
    var c := c5 + d5 * R + t3;
    (c % B1, c / B1 + t4)
  }

  /** The limbs that the reduction makes of nine columns. */
  ghost function Fold(p: Columns): (nat, nat, nat, nat, nat) {
    var (t3, d1, c1) := Fold1(p.p3, p.p8);
    var (t4, tx, d2) := Fold2(p.p4, d1, c1);
    var (r0, c3, d3) := Fold3(p.p0, p.p5, tx, d2);
    var (r1, c4, d4) := Fold4(p.p1, p.p6, c3, d3);
    var (r2, c5, d5) := Fold4(p.p2, p.p7, c4, d4);
    var (r3, r4) := Fold5(t3, t4, c5, d5);
    (r0, r1, r2, r3, r4)
  }

  lemma DoubledProduct(x: int, y: int)
    ensures (x * 2) * y == x * (y * 2) == x * y + y * x
  {
  }

  // ----- the column sums, as the two routines compute them

  method MulColumn0(a: Limbs, b: Limbs) returns (p: uint128)
    requires Bounded(a) && Bounded(b)
    ensures p as int == Column0(a, b)
  {
    ProductBound(a.n0 as int, b.n0 as int, BITS56, BITS56);
    p := a.n0 as uint128 * b.n0 as uint128;
  }

  method MulColumn1(a: Limbs, b: Limbs) returns (p: uint128)
    requires Bounded(a) && Bounded(b)
    ensures p as int == Column1(a, b)
  {
    ProductBound(a.n0 as int, b.n1 as int, BITS56, BITS56);
    ProductBound(a.n1 as int, b.n0 as int, BITS56, BITS56);
    p := a.n0 as uint128 * b.n1 as uint128 + a.n1 as uint128 * b.n0 as uint128;
  }

  method MulColumn2(a: Limbs, b: Limbs) returns (p: uint128)
    requires Bounded(a) && Bounded(b)
    ensures p as int == Column2(a, b)
  {
    ProductBound(a.n0 as int, b.n2 as int, BITS56, BITS56);
    ProductBound(a.n1 as int, b.n1 as int, BITS56, BITS56);
    ProductBound(a.n2 as int, b.n0 as int, BITS56, BITS56);
    p := a.n0 as uint128 * b.n2 as uint128 + a.n1 as uint128 * b.n1 as uint128 + a.n2 as uint128 * b.n0 as uint128;
  }

  method MulColumn3(a: Limbs, b: Limbs) returns (p: uint128)
    requires Bounded(a) && Bounded(b)
    ensures p as int == Column3(a, b)
  {
    ProductBound(a.n0 as int, b.n3 as int, BITS56, BITS56);
    ProductBound(a.n1 as int, b.n2 as int, BITS56, BITS56);
    ProductBound(a.n2 as int, b.n1 as int, BITS56, BITS56);
    ProductBound(a.n3 as int, b.n0 as int, BITS56, BITS56);
    p := a.n0 as uint128 * b.n3 as uint128 + a.n1 as uint128 * b.n2 as uint128 + a.n2 as uint128 * b.n1 as uint128
         + a.n3 as uint128 * b.n0 as uint128;
  }

  method MulColumn4(a: Limbs, b: Limbs) returns (p: uint128)
    requires Bounded(a) && Bounded(b)
    ensures p as int == Column4(a, b)
  {
    ProductBound(a.n0 as int, b.n4 as int, BITS56, B1);
    ProductBound(a.n1 as int, b.n3 as int, BITS56, BITS56);
    ProductBound(a.n2 as int, b.n2 as int, BITS56, BITS56);
    ProductBound(a.n3 as int, b.n1 as int, BITS56, BITS56);
    ProductBound(a.n4 as int, b.n0 as int, B1, BITS56);
    p := a.n0 as uint128 * b.n4 as uint128 + a.n1 as uint128 * b.n3 as uint128 + a.n2 as uint128 * b.n2 as uint128
         + a.n3 as uint128 * b.n1 as uint128 + a.n4 as uint128 * b.n0 as uint128;
  }

  method MulColumn5(a: Limbs, b: Limbs) returns (p: uint128)
    requires Bounded(a) && Bounded(b)
    ensures p as int == Column5(a, b)
  {
    ProductBound(a.n1 as int, b.n4 as int, BITS56, B1);
    ProductBound(a.n2 as int, b.n3 as int, BITS56, BITS56);
    ProductBound(a.n3 as int, b.n2 as int, BITS56, BITS56);
    ProductBound(a.n4 as int, b.n1 as int, B1, BITS56);
    p := a.n1 as uint128 * b.n4 as uint128 + a.n2 as uint128 * b.n3 as uint128 + a.n3 as uint128 * b.n2 as uint128
         + a.n4 as uint128 * b.n1 as uint128;
  }

  method MulColumn6(a: Limbs, b: Limbs) returns (p: uint128)
    requires Bounded(a) && Bounded(b)
    ensures p as int == Column6(a, b)
  {
    ProductBound(a.n2 as int, b.n4 as int, BITS56, B1);
    ProductBound(a.n3 as int, b.n3 as int, BITS56, BITS56);
    ProductBound(a.n4 as int, b.n2 as int, B1, BITS56);
    p := a.n2 as uint128 * b.n4 as uint128 + a.n3 as uint128 * b.n3 as uint128 + a.n4 as uint128 * b.n2 as uint128;
  }

  method MulColumn7(a: Limbs, b: Limbs) returns (p: uint128)
    requires Bounded(a) && Bounded(b)
    ensures p as int == Column7(a, b)
  {
    ProductBound(a.n3 as int, b.n4 as int, BITS56, B1);
    ProductBound(a.n4 as int, b.n3 as int, B1, BITS56);
    p := a.n3 as uint128 * b.n4 as uint128 + a.n4 as uint128 * b.n3 as uint128;
  }

  method MulColumn8(a: Limbs, b: Limbs) returns (p: uint128)
    requires Bounded(a) && Bounded(b)
    ensures p as int == Column8(a, b)
  {
    ProductBound(a.n4 as int, b.n4 as int, B1, B1);
    p := a.n4 as uint128 * b.n4 as uint128;
  }

  method SqrColumn0(a: Limbs) returns (p: uint128)
    requires Bounded(a)
    ensures p as int == Column0(a, a)
  {
    ProductBound(a.n0 as int, a.n0 as int, BITS56, BITS56);
    p := a.n0 as uint128 * a.n0 as uint128;
  }

  method SqrColumn1(a: Limbs) returns (p: uint128)
    requires Bounded(a)
    ensures p as int == Column1(a, a)
  {
    ProductBound(a.n0 as int, a.n1 as int, BITS56, BITS56);
    DoubledProduct(a.n0 as int, a.n1 as int);
    p := (a.n0 * 2) as uint128 * a.n1 as uint128;
  }

  method SqrColumn2(a: Limbs) returns (p: uint128)
    requires Bounded(a)
    ensures p as int == Column2(a, a)
  {
    ProductBound(a.n0 as int, a.n2 as int, BITS56, BITS56);
    ProductBound(a.n1 as int, a.n1 as int, BITS56, BITS56);
    DoubledProduct(a.n0 as int, a.n2 as int);
    p := (a.n0 * 2) as uint128 * a.n2 as uint128 + a.n1 as uint128 * a.n1 as uint128;
  }

  method SqrColumn3(a: Limbs) returns (p: uint128)
    requires Bounded(a)
    ensures p as int == Column3(a, a)
  {
    ProductBound(a.n0 as int, a.n3 as int, BITS56, BITS56);
    ProductBound(a.n1 as int, a.n2 as int, BITS56, BITS56);
    DoubledProduct(a.n0 as int, a.n3 as int);
    DoubledProduct(a.n1 as int, a.n2 as int);
    p := (a.n0 * 2) as uint128 * a.n3 as uint128 + (a.n1 * 2) as uint128 * a.n2 as uint128;
  }

  method SqrColumn4(a: Limbs) returns (p: uint128)
    requires Bounded(a)
    ensures p as int == Column4(a, a)
  {
    ProductBound(a.n0 as int, a.n4 as int, BITS56, B1);
    ProductBound(a.n1 as int, a.n3 as int, BITS56, BITS56);
    ProductBound(a.n2 as int, a.n2 as int, BITS56, BITS56);
    DoubledProduct(a.n0 as int, a.n4 as int);
    DoubledProduct(a.n1 as int, a.n3 as int);
    p := a.n0 as uint128 * (a.n4 * 2) as uint128 + (a.n1 * 2) as uint128 * a.n3 as uint128
         + a.n2 as uint128 * a.n2 as uint128;
  }

  method SqrColumn5(a: Limbs) returns (p: uint128)
    requires Bounded(a)
    ensures p as int == Column5(a, a)
  {
    ProductBound(a.n1 as int, a.n4 as int, BITS56, B1);
    ProductBound(a.n2 as int, a.n3 as int, BITS56, BITS56);
    DoubledProduct(a.n1 as int, a.n4 as int);
    DoubledProduct(a.n2 as int, a.n3 as int);
    p := a.n1 as uint128 * (a.n4 * 2) as uint128 + (a.n2 * 2) as uint128 * a.n3 as uint128;
  }

  method SqrColumn6(a: Limbs) returns (p: uint128)
    requires Bounded(a)
    ensures p as int == Column6(a, a)
  {
    ProductBound(a.n2 as int, a.n4 as int, BITS56, B1);
    ProductBound(a.n3 as int, a.n3 as int, BITS56, BITS56);
    DoubledProduct(a.n2 as int, a.n4 as int);
    p := a.n2 as uint128 * (a.n4 * 2) as uint128 + a.n3 as uint128 * a.n3 as uint128;
  }

  method SqrColumn7(a: Limbs) returns (p: uint128)
    requires Bounded(a)
    ensures p as int == Column7(a, a)
  {
    ProductBound(a.n3 as int, a.n4 as int, BITS56, B1);
    DoubledProduct(a.n3 as int, a.n4 as int);
    p := a.n3 as uint128 * (a.n4 * 2) as uint128;
  }

  method SqrColumn8(a: Limbs) returns (p: uint128)
    requires Bounded(a)
    ensures p as int == Column8(a, a)
  {
    ProductBound(a.n4 as int, a.n4 as int, B1, B1);
    p := a.n4 as uint128 * a.n4 as uint128;
  }

  // ----- the carry steps, which are the same in both routines

  /** field_5x52_int128_impl.h:50-57 and 179-186. */
  method Carry1(p3: uint128, p8: uint128) returns (t3: uint64, d: uint128, c: uint128)
    requires p3 as int < 4 * BITS112 && p8 as int < B2
    ensures (t3 as int, d as int, c as int) == Fold1(p3 as int, p8 as int)
    ensures t3 as int < B1 && d as int < 0x800 * B1 && c as int < 0x100 * B1
  {
    d, c := p3, p8;
    assert d as int < 0x400 * B2 && c as int < 0x100 * B2;
    d := d + c % B1 as uint128 * R as uint128;
    c := c / B1 as uint128;
    assert d as int < 0x800 * B2;
    t3 := (d % B1 as uint128) as uint64;
    d := d / B1 as uint128;
  }

  /** field_5x52_int128_impl.h:59-76 and 189-204. */
  method Carry2(p4: uint128, d1: uint128, c1: uint128) returns (t4: uint64, tx: uint64, d: uint128)
    requires p4 as int < 3 * BITS112 + 2 * BITS108 && d1 as int < 0x800 * B1 && c1 as int < 0x100 * B1
    ensures (t4 as int, tx as int, d as int) == Fold2(p4 as int, d1 as int, c1 as int)
    ensures t4 as int < BITS48 && tx < 16 && d as int < 0x1000 * B1
  {
    d := d1 + p4;
    assert d as int < 0x800 * B2;
    d := d + c1 * R as uint128;
    assert d as int < 0x1000 * B2;
    t4 := (d % B1 as uint128) as uint64;
    d := d / B1 as uint128;
    tx := t4 / BITS48 as uint64;
    t4 := t4 % BITS48 as uint64;
  }

  /** field_5x52_int128_impl.h:78-101 and 206-227. */
  method Carry3(p0: uint128, p5: uint128, tx: uint64, d2: uint128) returns (r0: uint64, c: uint128, d: uint128)
    requires p0 as int < BITS112 && p5 as int < 2 * BITS112 + 2 * BITS108 && tx < 16 && d2 as int < 0x1000 * B1
    ensures (r0 as int, c as int, d as int) == Fold3(p0 as int, p5 as int, tx as int, d2 as int)
    ensures r0 as int < B1 && c as int < 0x200 * B1 && d as int < 0x400 * B1
  {
    c := p0;
    assert c as int < 0x100 * B2;
    d := d2 + p5;
    assert d as int < 0x400 * B2;
    var u0 := (d % B1 as uint128) as uint64;
    d := d / B1 as uint128;
    u0 := u0 * 16 + tx;  // (u0 << 4) | tx
    assert u0 as int < BITS56;
    c := c + u0 as uint128 * R4 as uint128;
    assert c as int < 0x200 * B2;
    r0 := (c % B1 as uint128) as uint64;
    c := c / B1 as uint128;
  }

  /** field_5x52_int128_impl.h:103-119 and 230-244, and again 121-138 and 246-259. */
  method Carry4(low: uint128, high: uint128, c0: uint128, d0: uint128) returns (r: uint64, c: uint128, d: uint128)
    requires low as int < 3 * BITS112 && high as int < BITS112 + 2 * BITS108
    requires c0 as int < 0x800 * B1 && d0 as int < 0x400 * B1
    ensures (r as int, c as int, d as int) == Fold4(low as int, high as int, c0 as int, d0 as int)
    ensures r as int < B1 && c as int < 0x800 * B1 && d as int < 0x400 * B1
  {
    c := c0 + low;
    assert c as int < 0x400 * B2;
    d := d0 + high;
    assert d as int < 0x400 * B2;
    c := c + d % B1 as uint128 * R as uint128;
    d := d / B1 as uint128;
    assert c as int < 0x800 * B2;
    r := (c % B1 as uint128) as uint64;
    c := c / B1 as uint128;
  }

  /** field_5x52_int128_impl.h:140-151 and 262-273. */
  method Carry5(t3: uint64, t4: uint64, c5: uint128, d5: uint128) returns (r3: uint64, r4: uint64)
    requires t3 as int < B1 && t4 as int < BITS48 && c5 as int < 0x800 * B1 && d5 as int < 0x400 * B1
    ensures (r3 as int, r4 as int) == Fold5(t3 as int, t4 as int, c5 as int, d5 as int)
    ensures r3 as int < B1 && r4 as int <= 2 * (BITS48 - 1)
  {
    var c := c5 + (d5 * R as uint128 + t3 as uint128);
    assert c as int < BITS48 * B1;
    r3 := (c % B1 as uint128) as uint64;
    c := c / B1 as uint128;
    assert c as int < BITS48;
    c := c + t4 as uint128;
    r4 := c as uint64;
  }

  // ----- what the limbs mean

  const B5: int := B4 * B1  // 2^260
  const B6: int := B4 * B2
  const B7: int := B4 * B3
  const B8: int := B4 * B4
  const B9: int := B8 * B1

  ghost function ColumnValue(p: Columns): int {
    p.p0 + p.p1 * B1 + p.p2 * B2 + p.p3 * B3 + p.p4 * B4 + p.p5 * B5 + p.p6 * B6 + p.p7 * B7 + p.p8 * B8
  }

  ghost function FiveValue(r: (nat, nat, nat, nat, nat)): int {
    r.0 + r.1 * B1 + r.2 * B2 + r.3 * B3 + r.4 * B4
  }

  lemma Fold1Value(p3: nat, p8: nat) returns (q: int)
    ensures var (t3, d, c) := Fold1(p3, p8);
            p3 * B3 + p8 * B8 == t3 * B3 + d * B4 + c * B9 + q * P
  {
    var (t3, d, c) := Fold1(p3, p8);
    var x := p8 % B1;
    assert p8 == x + c * B1 && p3 + x * R == t3 + d * B1;
    q := 16 * x * B3;
  }

  lemma Fold2Value(p4: nat, d1: nat, c1: nat) returns (q: int)
    ensures var (t4, tx, d) := Fold2(p4, d1, c1);
            (d1 + p4) * B4 + c1 * B9 == (t4 + tx * BITS48) * B4 + d * B5 + q * P
  {
    var (t4, tx, d) := Fold2(p4, d1, c1);
    assert d1 + p4 + c1 * R == t4 + tx * BITS48 + d * B1;
    q := 16 * c1 * B4;
  }

  lemma Fold3Value(p0: nat, p5: nat, tx: nat, d2: nat) returns (q: int)
    ensures var (r0, c, d) := Fold3(p0, p5, tx, d2);
            p0 + tx * BITS48 * B4 + (d2 + p5) * B5 == r0 + c * B1 + d * B6 + q * P
  {
    var (r0, c, d) := Fold3(p0, p5, tx, d2);
    var u0 := (d2 + p5) % B1;
    assert d2 + p5 == u0 + d * B1 && p0 + (u0 * 16 + tx) * R4 == r0 + c * B1;
    q := u0 * 16 + tx;
  }

  lemma Fold4Value(low: nat, high: nat, c0: nat, d0: nat) returns (q: int)
    ensures var (r, c, d) := Fold4(low, high, c0, d0);
            c0 + low + (d0 + high) * B5 == r + c * B1 + d * B6 + q * P
  {
    var (r, c, d) := Fold4(low, high, c0, d0);
    var x := (d0 + high) % B1;
    assert d0 + high == x + d * B1 && c0 + low + x * R == r + c * B1;
    q := 16 * x;
  }

  lemma Fold5Value(t3: nat, t4: nat, c5: nat, d5: nat) returns (q: int)
    ensures var (r3, r4) := Fold5(t3, t4, c5, d5);
            c5 + t3 + t4 * B1 + d5 * B5 == r3 + r4 * B1 + q * P
  {
    var (r3, r4) := Fold5(t3, t4, c5, d5);
    assert c5 + d5 * R + t3 == r3 + (r4 - t4) * B1;
    q := 16 * d5;
  }

  /** Scaling the last three identities and adding up all six. */
  lemma Telescope(p: Columns, t3: nat, d1: nat, c1: nat, t4: nat, tx: nat, d2: nat, r0: nat, c3: nat, d3: nat,
                  r1: nat, c4: nat, d4: nat, r2: nat, c5: nat, d5: nat, r3: nat, r4: nat,
                  q1: int, q2: int, q3: int, q4: int, q5: int, q6: int)
    returns (q: int)
    requires p.p3 * B3 + p.p8 * B8 == t3 * B3 + d1 * B4 + c1 * B9 + q1 * P
    requires (d1 + p.p4) * B4 + c1 * B9 == (t4 + tx * BITS48) * B4 + d2 * B5 + q2 * P
    requires p.p0 + tx * BITS48 * B4 + (d2 + p.p5) * B5 == r0 + c3 * B1 + d3 * B6 + q3 * P
    requires c3 + p.p1 + (d3 + p.p6) * B5 == r1 + c4 * B1 + d4 * B6 + q4 * P
    requires c4 + p.p2 + (d4 + p.p7) * B5 == r2 + c5 * B1 + d5 * B6 + q5 * P
    requires c5 + t3 + t4 * B1 + d5 * B5 == r3 + r4 * B1 + q6 * P
    ensures ColumnValue(p) == FiveValue((r0, r1, r2, r3, r4)) + q * P
  {
    q := q1 + q2 + q3 + q4 * B1 + q5 * B2 + q6 * B3;
  }

  /** Folding the columns subtracts a multiple of the prime. */
  lemma FoldValue(p: Columns) returns (q: int)
    ensures ColumnValue(p) == FiveValue(Fold(p)) + q * P
  {
    var (t3, d1, c1) := Fold1(p.p3, p.p8);
    var (t4, tx, d2) := Fold2(p.p4, d1, c1);
    var (r0, c3, d3) := Fold3(p.p0, p.p5, tx, d2);
    var (r1, c4, d4) := Fold4(p.p1, p.p6, c3, d3);
    var (r2, c5, d5) := Fold4(p.p2, p.p7, c4, d4);
    var (r3, r4) := Fold5(t3, t4, c5, d5);
    var q1 := Fold1Value(p.p3, p.p8);
    var q2 := Fold2Value(p.p4, d1, c1);
    var q3 := Fold3Value(p.p0, p.p5, tx, d2);
    var q4 := Fold4Value(p.p1, p.p6, c3, d3);
    var q5 := Fold4Value(p.p2, p.p7, c4, d4);
    var q6 := Fold5Value(t3, t4, c5, d5);
    q := Telescope(p, t3, d1, c1, t4, tx, d2, r0, c3, d3, r1, c4, d4, r2, c5, d5, r3, r4, q1, q2, q3, q4, q5, q6);
  }

  /** One row of a schoolbook product: a limb times five limbs. */
  datatype Row = Row(m0: int, m1: int, m2: int, m3: int, m4: int)

  ghost function RowValue(r: Row): int {
    r.m0 + r.m1 * B1 + r.m2 * B2 + r.m3 * B3 + r.m4 * B4
  }

  lemma DistributeOne(x: int, m: int, c: int, v: int)
    ensures (x + m * c) * v == x * v + (m * v) * c
  {
    assert (m * c) * v == (m * v) * c;
  }

  lemma Distribute(r: Row, v: int)
    ensures RowValue(r) * v == RowValue(Row(r.m0 * v, r.m1 * v, r.m2 * v, r.m3 * v, r.m4 * v))
  {
    DistributeOne(r.m0, r.m1, B1, v);
    DistributeOne(r.m0 + r.m1 * B1, r.m2, B2, v);
    DistributeOne(r.m0 + r.m1 * B1 + r.m2 * B2, r.m3, B3, v);
    DistributeOne(r.m0 + r.m1 * B1 + r.m2 * B2 + r.m3 * B3, r.m4, B4, v);
  }

  /** Adding up by rows or by columns. */
  lemma RowsToColumns(r0: Row, r1: Row, r2: Row, r3: Row, r4: Row)
    ensures RowValue(r0) + RowValue(r1) * B1 + RowValue(r2) * B2 + RowValue(r3) * B3 + RowValue(r4) * B4
         == r0.m0 + (r0.m1 + r1.m0) * B1 + (r0.m2 + r1.m1 + r2.m0) * B2 + (r0.m3 + r1.m2 + r2.m1 + r3.m0) * B3
          + (r0.m4 + r1.m3 + r2.m2 + r3.m1 + r4.m0) * B4 + (r1.m4 + r2.m3 + r3.m2 + r4.m1) * B5
          + (r2.m4 + r3.m3 + r4.m2) * B6 + (r3.m4 + r4.m3) * B7 + r4.m4 * B8
  {
  }

  ghost function LimbRow(a: Limbs): Row {
    Row(a.n0 as int, a.n1 as int, a.n2 as int, a.n3 as int, a.n4 as int)
  }

  ghost function ScaledRow(x: uint64, b: Limbs): Row {
    Row(x as int * b.n0 as int, x as int * b.n1 as int, x as int * b.n2 as int, x as int * b.n3 as int,
        x as int * b.n4 as int)
  }

  lemma Commutes(x: int, y: int)
    ensures x * y == y * x
  {
  }

  lemma ScaledRowValue(x: uint64, b: Limbs)
    ensures RowValue(ScaledRow(x, b)) == x as int * Value(b)
  {
    Distribute(LimbRow(b), x as int);
    Commutes(b.n0 as int, x as int);
    Commutes(b.n1 as int, x as int);
    Commutes(b.n2 as int, x as int);
    Commutes(b.n3 as int, x as int);
    Commutes(b.n4 as int, x as int);
    Commutes(Value(b), x as int);
    assert RowValue(LimbRow(b)) == Value(b);
  }

  lemma ValueByRows(a: Limbs, b: Limbs)
    ensures Value(a) * Value(b) == RowValue(ScaledRow(a.n0, b)) + RowValue(ScaledRow(a.n1, b)) * B1
              + RowValue(ScaledRow(a.n2, b)) * B2 + RowValue(ScaledRow(a.n3, b)) * B3
              + RowValue(ScaledRow(a.n4, b)) * B4
  {
    Distribute(LimbRow(a), Value(b));
    ScaledRowValue(a.n0, b);
    ScaledRowValue(a.n1, b);
    ScaledRowValue(a.n2, b);
    ScaledRowValue(a.n3, b);
    ScaledRowValue(a.n4, b);
  }

  /** The columns add up to the product. */
  lemma ColumnsAddUp(a: Limbs, b: Limbs)
    requires Bounded(a) && Bounded(b)
    ensures ColumnValue(ColumnsOf(a, b)) == Value(a) * Value(b)
  {
    ValueByRows(a, b);
    RowsToColumns(ScaledRow(a.n0, b), ScaledRow(a.n1, b), ScaledRow(a.n2, b), ScaledRow(a.n3, b), ScaledRow(a.n4, b));
  }

  lemma FoldCongruent(p: Columns, x: int, y: int)
    requires x == FiveValue(Fold(p)) && y == ColumnValue(p)
    ensures Congruent(x, y)
  {
    var q := FoldValue(p);
    MultipleIsCongruent(x, y, q);
  }

  lemma MultipleIsCongruent(x: int, y: int, q: int)
    requires y == x + q * P
    ensures Congruent(x, y)
  {
    assert x - y == -q * P;
  }

  /** Folding the columns of a product yields the product modulo the prime. */
  lemma FoldIsProduct(a: Limbs, b: Limbs, r: Limbs)
    requires Bounded(a) && Bounded(b) && Five(r) == Fold(ColumnsOf(a, b))
    ensures Congruent(Value(r), Value(a) * Value(b))
  {
    var p := ColumnsOf(a, b);
    FoldCongruent(p, FiveValue(Fold(p)), ColumnValue(p));
    ColumnsAddUp(a, b);
    assert Value(r) == FiveValue(Five(r));
  }

  // ----- the two routines

  method MulInner(a: Limbs, b: Limbs) returns (r: Limbs)
    requires Bounded(a) && Bounded(b)
    ensures Reduced(r) && Five(r) == Fold(ColumnsOf(a, b))
    ensures Congruent(Value(r), Value(a) * Value(b))
  {
    var p3 := MulColumn3(a, b);
    var p8 := MulColumn8(a, b);
    var t3, d, c := Carry1(p3, p8);
    var p4 := MulColumn4(a, b);
    var t4, tx;
    t4, tx, d := Carry2(p4, d, c);
    var p0 := MulColumn0(a, b);
    var p5 := MulColumn5(a, b);
    var r0, r1, r2;
    r0, c, d := Carry3(p0, p5, tx, d);
    var p1 := MulColumn1(a, b);
    var p6 := MulColumn6(a, b);
    r1, c, d := Carry4(p1, p6, c, d);
    var p2 := MulColumn2(a, b);
    var p7 := MulColumn7(a, b);
    r2, c, d := Carry4(p2, p7, c, d);
    var r3, r4 := Carry5(t3, t4, c, d);
    r := Limbs(r0, r1, r2, r3, r4);
    FoldIsProduct(a, b, r);
  }

  method SqrInner(a: Limbs) returns (r: Limbs)
    requires Bounded(a)
    ensures Reduced(r) && Five(r) == Fold(ColumnsOf(a, a))
    ensures Congruent(Value(r), Value(a) * Value(a))
  {
    var p3 := SqrColumn3(a);
    var p8 := SqrColumn8(a);
    var t3, d, c := Carry1(p3, p8);
    var p4 := SqrColumn4(a);
    var t4, tx;
    t4, tx, d := Carry2(p4, d, c);
    var p0 := SqrColumn0(a);
    var p5 := SqrColumn5(a);
    var r0, r1, r2;
    r0, c, d := Carry3(p0, p5, tx, d);
    var p1 := SqrColumn1(a);
    var p6 := SqrColumn6(a);
    r1, c, d := Carry4(p1, p6, c, d);
    var p2 := SqrColumn2(a);
    var p7 := SqrColumn7(a);
    r2, c, d := Carry4(p2, p7, c, d);
    var r3, r4 := Carry5(t3, t4, c, d);
    r := Limbs(r0, r1, r2, r3, r4);
    FoldIsProduct(a, a, r);
  }

  /** Squaring and multiplying by itself agree limb for limb. */
  method SqrAgreesWithMul(a: Limbs) returns (square: Limbs, product: Limbs)
    requires Bounded(a)
    ensures square == product && Congruent(Value(square), Value(a) * Value(a))
  {
    square := SqrInner(a);
    product := MulInner(a, a);
  }

  ghost function Read(a: array<uint64>): Limbs
    requires a.Length == 5
    reads a
  {
    Limbs(a[0], a[1], a[2], a[3], a[4])
  }

  /** Elements of magnitude 8 may be multiplied; the result has magnitude 1.  The result
      may overwrite the first operand but not the second. */
  method FeMul(r: array<uint64>, a: array<uint64>, b: array<uint64>)
    requires r.Length == 5 && a.Length == 5 && b.Length == 5 && r != b
    requires Magnitude(Read(a), 8) && Magnitude(Read(b), 8)
    modifies r
    ensures Magnitude(Read(r), 1) && Congruent(Value(Read(r)), old(Value(Read(a))) * Value(Read(b)))
    ensures Read(b) == old(Read(b))
  {
    var x := Limbs(a[0], a[1], a[2], a[3], a[4]);
    var y := Limbs(b[0], b[1], b[2], b[3], b[4]);
    var z := MulInner(x, y);
    r[0], r[1], r[2], r[3], r[4] := z.n0, z.n1, z.n2, z.n3, z.n4;
    assert Read(r) == z;
  }

  method FeSqr(r: array<uint64>, a: array<uint64>)
    requires r.Length == 5 && a.Length == 5
    requires Magnitude(Read(a), 8)
    modifies r
    ensures Magnitude(Read(r), 1) && Congruent(Value(Read(r)), old(Value(Read(a))) * old(Value(Read(a))))
  {
    var x := Limbs(a[0], a[1], a[2], a[3], a[4]);
    var z := SqrInner(x);
    r[0], r[1], r[2], r[3], r[4] := z.n0, z.n1, z.n2, z.n3, z.n4;
    assert Read(r) == z;
  }
}
