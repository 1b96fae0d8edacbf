/**
Inverses and square roots of field elements by an addition chain, and the inversion of many
elements with a single inverse.  Exponents are followed through the chain.
 */
module FieldInverse {
  import opened Field
  import opened FieldMul
  import opened FieldNormalize
  import opened Bits
  import opened Primes
  import opened Residues
  import FieldPrime

  lemma DividesIff(x: int)
    ensures Divides(P, x) <==> x % P == 0
  {
    if x % P == 0 {
      DividesTimes(P, x, x / P);
    }
    if Divides(P, x) {
      var k :| x == Times(P, k);
      Multiple(x, k);
    }
  }

  lemma Multiple(d: int, k: int)
    requires d == P * k
    ensures d % P == 0
  {
  }

  lemma CongruentIff(x: int, y: int)
    ensures Congruent(x, y) <==> Agree(P, x, y)
  {
    assert Shown(0);
    DividesIff(x - y);
  }

  method Multiply(x: Limbs, y: Limbs) returns (r: Limbs)
    requires Bounded(x) && Bounded(y)
    ensures Reduced(r) && Agree(P, Value(r), Value(x) * Value(y))
  {
    r := MulInner(x, y);
    CongruentIff(Value(r), Value(x) * Value(y));
  }

  method Square(x: Limbs) returns (r: Limbs)
    requires Bounded(x)
    ensures Reduced(r) && Agree(P, Value(r), Value(x) * Value(x))
  {
    r := SqrInner(x);
    CongruentIff(Value(r), Value(x) * Value(x));
  }

  /** `x` is the `e`-th power of `a`, and may be multiplied. */
  ghost predicate IsPower(x: Limbs, a: int, e: nat) {
    Bounded(x) && Agree(P, Value(x), Power(a, e))
  }

  /** The product of two powers. */
  lemma PowersMultiplied(n: nat, r: int, x: int, y: int, a: int, e: nat, f: nat)
    requires Agree(n, r, x * y) && Agree(n, x, Power(a, e)) && Agree(n, y, Power(a, f))
    ensures Agree(n, r, Power(a, e + f))
  {
    PowerAdd(a, e, f);
    AgreeMul(n, x, y, Power(a, e), Power(a, f));
    AgreeTrans(n, r, x * y, Power(a, e) * Power(a, f));
  }

  method MulPowers(x: Limbs, y: Limbs, ghost a: int, ghost e: nat, ghost f: nat) returns (r: Limbs)
    requires IsPower(x, a, e) && IsPower(y, a, f)
    ensures IsPower(r, a, e + f) && Reduced(r)
  {
    r := Multiply(x, y);
    PowersMultiplied(P, Value(r), Value(x), Value(y), a, e, f);
  }

  function Doubled(e: nat, n: nat): nat {
    if n == 0 then e else Doubled(e, n - 1) + Doubled(e, n - 1)
  }

  method SquarePower(x: Limbs, ghost a: int, ghost e: nat) returns (r: Limbs)
    requires IsPower(x, a, e)
    ensures IsPower(r, a, e + e) && Reduced(r)
  {
    r := Square(x);
    PowersMultiplied(P, Value(r), Value(x), Value(x), a, e, e);
  }

  /** Squares `n` times. */
  method SquareTimes(x: Limbs, n: nat, ghost a: int, ghost e: nat) returns (r: Limbs)
    requires IsPower(x, a, e)
    ensures IsPower(r, a, Doubled(e, n)) && (n > 0 ==> Reduced(r))
  {
    r := x;
    for j := 0 to n
      invariant IsPower(r, a, Doubled(e, j)) && (j > 0 ==> Reduced(r))
    {
      r := SquarePower(r, a, Doubled(e, j));
    }
  }

  /** Squares `n` times and multiplies by `y`. */
  method Shift(x: Limbs, n: nat, y: Limbs, ghost a: int, ghost e: nat, ghost f: nat) returns (r: Limbs, ghost g: nat)
    requires IsPower(x, a, e) && IsPower(y, a, f)
    ensures g == Doubled(e, n) + f && IsPower(r, a, g) && Reduced(r)
  {
    var t := SquareTimes(x, n, a, e);
    r := MulPowers(t, y, a, Doubled(e, n), f);
    g := Doubled(e, n) + f;
  }

  /** The exponent of `k` ones in binary. */
  function Ones(k: nat): nat {
    Pow2(k) - 1
  }

  lemma {:induction false} OnesJoin(i: nat, j: nat)
    ensures Doubled(Ones(i), j) + Ones(j) == Ones(i + j)
  {
    if j > 0 {
      OnesJoin(i, j - 1);
    }
  }

  /** From `i` ones and `j` ones to `i + j` ones. */
  method Join(x: Limbs, y: Limbs, ghost i: nat, j: nat, ghost a: int) returns (r: Limbs)
    requires IsPower(x, a, Ones(i)) && IsPower(y, a, Ones(j))
    ensures IsPower(r, a, Ones(i + j))
  {
    ghost var g;
    r, g := Shift(x, j, y, a, Ones(i), Ones(j));
    OnesJoin(i, j);
  }

  lemma FirstPower(a: Limbs)
    requires Bounded(a)
    ensures IsPower(a, Value(a), Ones(1)) && IsPower(a, Value(a), 1)
  {
    FirstPowerIsSelf(Value(a));
    AgreeSelf(P, Value(a));
    assert Ones(1) == 1;
  }

  lemma FirstPowerIsSelf(a: int)
    ensures Power(a, 1) == a
  {
    assert Power(a, 1) == a * Power(a, 0);
  }

  /** The blocks of ones both chains are made of. */
  method Blocks(a: Limbs) returns (x2: Limbs, x22: Limbs, x223: Limbs)
    requires Bounded(a)
    ensures IsPower(x2, Value(a), Ones(2)) && IsPower(x22, Value(a), Ones(22)) && IsPower(x223, Value(a), Ones(223))
  {
    ghost var v := Value(a);
    FirstPower(a);
    x2 := Join(a, a, 1, 1, v);
    var x3 := Join(x2, a, 2, 1, v);
    var x6 := Join(x3, x3, 3, 3, v);
    var x9 := Join(x6, x3, 6, 3, v);
    var x11 := Join(x9, x2, 9, 2, v);
    x22 := Join(x11, x11, 11, 11, v);
    var x44 := Join(x22, x22, 22, 22, v);
    var x88 := Join(x44, x44, 44, 44, v);
    var x176 := Join(x88, x88, 88, 88, v);
    var x220 := Join(x176, x44, 176, 44, v);
    x223 := Join(x220, x3, 220, 3, v);
  }

  lemma {:induction false} SmallShifts(e: nat)
    ensures Doubled(e, 2) == 4 * e && Doubled(e, 3) == 8 * e && Doubled(e, 5) == 32 * e && Doubled(e, 6) == 64 * e
  {
    assert Doubled(e, 1) == 2 * e;
    assert Doubled(e, 2) == 4 * e;
    assert Doubled(e, 3) == 8 * e;
    assert Doubled(e, 4) == 16 * e;
  }

  lemma SmallPowers()
    ensures Pow2(2) == 4 && Pow2(10) == 0x400 && Pow2(22) == 0x40_0000 && Pow2(23) == 0x80_0000
  {
    assert Pow2(4) == 0x10;
    assert Pow2(8) == 0x100;
    assert Pow2(16) == 0x1_0000;
  }

  /** The exponent after the two long blocks, of `k` and `m` ones. */
  lemma {:induction false} LongBlocks(k: nat, n: nat, m: nat, e: nat)
    requires k == 223 && n == 23 && m == 22 && e == Doubled(Ones(k), n) + Ones(m)
    ensures 1024 * e == P - 47
  {
    OnesJoin(k, n);
    var ten := 10;
    Pow2Add(k + n, ten);
    SmallPowers();
    assert Pow2(k + n) * Pow2(ten) == 1024 * Pow2(k + n);
    Pow2Of255();
  }

  /** The `p - 2`-th power, which for nonzero elements is the inverse. */
  method Inverse(a: Limbs) returns (r: Limbs, ghost e: nat)
    requires Bounded(a)
    ensures Reduced(r) && e == P - 2 && IsPower(r, Value(a), e)
  {
    FirstPower(a);
    SmallPowers();
    var x2, x22, x223 := Blocks(a);
    ghost var k, m := 223, 22;
    var n := 23;
    var t1;
    t1, e := Shift(x223, n, x22, Value(a), Ones(k), Ones(m));
    LongBlocks(k, n, m, e);
    SmallShifts(e);
    t1, e := Shift(t1, 5, a, Value(a), e, 1);
    SmallShifts(e);
    t1, e := Shift(t1, 3, x2, Value(a), e, 3);
    SmallShifts(e);
    r, e := Shift(t1, 2, a, Value(a), e, 1);
  }

  /** The `(p + 1) / 4`-th power.  The answer tells whether it is a square root, and that is so
      whenever there is one. */
  method SquareRoot(a: Limbs) returns (ok: bool, r: Limbs, ghost e: nat)
    requires Magnitude(a, 8)
    ensures Reduced(r) && 4 * e == P + 1 && IsPower(r, Value(a), e)
    ensures ok <==> Agree(P, Value(r) * Value(r), Value(a))
    ensures ok <==> IsSquare(P, Value(a))
  {
    r, e := RootPower(a);
    var t1 := Square(r);
    ok := Equal(t1, a, 8);
    CongruentIff(Value(t1), Value(a));
    SameRoot(P, Value(t1), Value(r), Value(a));
    RootFoundIff(Value(a), Value(r), e);
  }

  lemma SameRoot(n: nat, t: int, r: int, a: int)
    requires Agree(n, t, r * r)
    ensures Agree(n, t, a) <==> Agree(n, r * r, a)
  {
    AgreeSym(n, t, r * r);
    if Agree(n, t, a) {
      AgreeTrans(n, r * r, t, a);
    }
    if Agree(n, r * r, a) {
      AgreeTrans(n, t, r * r, a);
    }
  }

  method RootPower(a: Limbs) returns (r: Limbs, ghost e: nat)
    requires Bounded(a)
    ensures Reduced(r) && 4 * e == P + 1 && IsPower(r, Value(a), e)
  {
    SmallPowers();
    var x2, x22, x223 := Blocks(a);
    ghost var k, m := 223, 22;
    var n := 23;
    var t1;
    t1, e := Shift(x223, n, x22, Value(a), Ones(k), Ones(m));
    LongBlocks(k, n, m, e);
    SmallShifts(e);
    t1, e := Shift(t1, 6, x2, Value(a), e, 3);
    SmallShifts(e);
    r := SquareTimes(t1, 2, Value(a), e);
    e := 4 * e;
  }

  // ----- what the powers are

  /** The inverse of an element that is not zero. */
  lemma InverseInverts(a: Limbs, r: Limbs, e: nat)
    requires e == P - 2 && IsPower(r, Value(a), e) && !Divides(P, Value(a))
    ensures Agree(P, Value(a) * Value(r), 1)
  {
    FieldPrime.PIsPrime();
    PowerIsInverse(P, Value(a), Value(r));
  }

  lemma PowerIsInverse(n: nat, v: int, r: int)
    requires Prime(n) && !Divides(n, v) && Agree(n, r, Power(v, n - 2))
    ensures Agree(n, v * r, 1)
  {
    PowerInverts(n, v);
    AgreeSelf(n, v);
    AgreeMul(n, v, r, v, Power(v, n - 2));
    AgreeTrans(n, v * r, v * Power(v, n - 2), 1);
  }

  /** The root that is computed is one exactly when the element is a square. */
  lemma RootFoundIff(v: int, r: int, e: nat)
    requires 4 * e == P + 1 && Agree(P, r, Power(v, e))
    ensures IsSquare(P, v) <==> Agree(P, r * r, v)
  {
    FieldPrime.PIsPrime();
    PowerFoundIff(P, v, r, e);
  }

  lemma PowerFoundIff(n: nat, v: int, r: int, e: nat)
    requires Prime(n) && n > 2 && 4 * e == n + 1 && Agree(n, r, Power(v, e))
    ensures IsSquare(n, v) <==> Agree(n, r * r, v)
  {
    RootIff(n, v, 2 * e - 1, e);
    AgreeMul(n, r, r, Power(v, e), Power(v, e));
    AgreeSym(n, r * r, Power(v, e) * Power(v, e));
    if Agree(n, r * r, v) {
      AgreeTrans(n, Power(v, e) * Power(v, e), r * r, v);
    } else if Agree(n, Power(v, e) * Power(v, e), v) {
      AgreeTrans(n, r * r, Power(v, e) * Power(v, e), v);
    }
  }

  /** Of an element and its negative, unless zero, exactly one has a square root. */
  lemma OneOfTwoHasRoot(v: int)
    requires !Divides(P, v)
    ensures IsSquare(P, v) <==> !IsSquare(P, -v)
  {
    FieldPrime.PIsPrime();
    OneOfTwoIsSquare(P, v, (P - 1) / 2, (P + 1) / 4);
  }

  /** The root that is computed is a square itself, and the same for an element and its negative. */
  lemma RootOfNegative(v: int, r: int, t: int, e: nat)
    requires 4 * e == P + 1 && Agree(P, r, Power(v, e)) && Agree(P, t, Power(-v, e))
    ensures IsSquare(P, r) && Agree(P, t, r)
  {
    assert e % 2 == 0;
    SquareAgrees(P, v, r, t, e);
  }

  lemma SquareAgrees(n: nat, v: int, r: int, t: int, e: nat)
    requires e % 2 == 0 && Agree(n, r, Power(v, e)) && Agree(n, t, Power(-v, e))
    ensures IsSquare(n, r) && Agree(n, t, r)
  {
    EvenPower(n, v, e);
    var b :| Agree(n, Power(v, e), Squared(b));
    AgreeTrans(n, r, Power(v, e), Squared(b));
    AgreeSym(n, r, Power(v, e));
    AgreeTrans(n, t, Power(v, e), r);
  }

  // ----- many inverses at the price of one

  ghost function Product(a: seq<Limbs>): int {
    if a == [] then 1 else Product(a[..|a| - 1]) * Value(a[|a| - 1])
  }

  /** A product of elements that are not zero has an inverse. */
  lemma {:induction false} ProductHasInverse(n: nat, a: seq<Limbs>) returns (inv: int)
    requires Prime(n) && forall i :: 0 <= i < |a| ==> !Divides(n, Value(a[i]))
    ensures Agree(n, Product(a) * inv, 1)
  {
    inv := 1;
    if a == [] {
      AgreeSelf(n, 1);
    } else {
      var front, x := a[..|a| - 1], Value(a[|a| - 1]);
      var inv' := ProductHasInverse(n, front);
      PowerInverts(n, x);
      inv := inv' * Power(x, n - 2);
      UnitTimesUnit(n, Product(front), inv', x, Power(x, n - 2));
    }
  }

  ghost predicate IsProduct(x: Limbs, a: seq<Limbs>) {
    Bounded(x) && Agree(P, Value(x), Product(a))
  }

  method Extend(x: Limbs, y: Limbs, ghost a: seq<Limbs>) returns (r: Limbs)
    requires IsProduct(x, a) && Bounded(y)
    ensures IsProduct(r, a + [y])
  {
    r := Multiply(x, y);
    ProductOf(a, y);
    ProductExtended(P, Value(r), Value(x), Value(y), Product(a));
  }

  lemma ProductExtended(n: nat, r: int, x: int, y: int, p: int)
    requires Agree(n, r, x * y) && Agree(n, x, p)
    ensures Agree(n, r, p * y)
  {
    AgreeSelf(n, y);
    AgreeMul(n, x, y, p, y);
    AgreeTrans(n, r, x * y, p * y);
  }

  /** `u` is an inverse of the product of these elements. */
  ghost predicate InvertsProduct(u: Limbs, a: seq<Limbs>) {
    Bounded(u) && Agree(P, Value(u) * Product(a), 1)
  }

  /** From the product `x` of the elements before and the inverse `u` of the product up to `y`:
      the inverse of `y`, and the inverse of the product before it. */
  method TakeApart(x: Limbs, u: Limbs, y: Limbs, ghost a: seq<Limbs>) returns (r: Limbs, v: Limbs)
    requires IsProduct(x, a) && Bounded(y) && InvertsProduct(u, a + [y])
    ensures Inverts(r, y) && InvertsProduct(v, a)
  {
    r := Multiply(x, u);
    v := Multiply(u, y);
    ProductOf(a, y);
    TakenApart(P, Value(x), Value(u), Value(y), Product(a), Value(r), Value(v));
  }

  /** `r` is an inverse of `a`. */
  ghost predicate Inverts(r: Limbs, a: Limbs) {
    Agree(P, Value(r) * Value(a), 1)
  }

  lemma {:induction false} ProductOf(a: seq<Limbs>, x: Limbs)
    ensures Product(a + [x]) == Product(a) * Value(x)
  {
    assert (a + [x])[..|a|] == a;
  }

  /** Inverts all elements, none of them zero, with one inverse: prefix products forward, and the
      inverse of the whole product taken apart backward. */
  method InverseAll(r: array<Limbs>, a: array<Limbs>, len: nat)
    requires r != a && len <= a.Length && len <= r.Length
    requires forall i :: 0 <= i < len ==> Bounded(a[i]) && !Divides(P, Value(a[i]))
    modifies r
    ensures forall i :: 0 <= i < len ==> Inverts(r[i], a[i])
    ensures forall i :: len <= i < r.Length ==> r[i] == old(r[i])
  {
    if len < 1 {
      return;
    }
    Prefixes(r, a, len);
    var u := InverseOfProduct(r[len - 1], a[..len]);
    u := Backward(r, a, len, u);
    r[0] := u;
  }

  /** Takes the inverse of the whole product apart, down to the first element. */
  method Backward(r: array<Limbs>, a: array<Limbs>, len: nat, u0: Limbs) returns (u: Limbs)
    requires r != a && 0 < len <= a.Length && len <= r.Length && InvertsProduct(u0, a[..len])
    requires forall j :: 0 <= j < len ==> Bounded(a[j]) && IsProduct(r[j], a[..j + 1])
    modifies r
    ensures Inverts(u, a[0]) && forall j :: 1 <= j < len ==> Inverts(r[j], a[j])
    ensures forall j :: len <= j < r.Length ==> r[j] == old(r[j])
  {
    u := u0;
    var i := len - 1;
    while i > 0
      invariant i < len && InvertsProduct(u, a[..i + 1])
      invariant forall j :: 0 <= j <= i ==> IsProduct(r[j], a[..j + 1])
      invariant forall j :: i < j < len ==> Inverts(r[j], a[j])
      invariant forall j :: len <= j < r.Length ==> r[j] == old(r[j])
    {
      u := BackStep(r, a, i, u);
      i := i - 1;
    }
    assert a[..1] == [a[0]];
    FirstInverse(u, a[0]);
  }

  /** Element `j` gets its inverse; `u` becomes the inverse of the product before it. */
  method BackStep(r: array<Limbs>, a: array<Limbs>, j: nat, u: Limbs) returns (v: Limbs)
    requires r != a && 0 < j < a.Length && j < r.Length && Bounded(a[j])
    requires InvertsProduct(u, a[..j + 1]) && IsProduct(r[j - 1], a[..j])
    modifies r
    ensures InvertsProduct(v, a[..j]) && Inverts(r[j], a[j])
    ensures forall i :: 0 <= i < r.Length && i != j ==> r[i] == old(r[i])
  {
    assert a[..j + 1] == a[..j] + [a[j]];
    var inverse;
    inverse, v := TakeApart(r[j - 1], u, a[j], a[..j]);
    r[j] := inverse;
  }

  lemma FirstInverse(u: Limbs, x: Limbs)
    requires InvertsProduct(u, [x])
    ensures Inverts(u, x)
  {
    assert [x] == [] + [x];
    ProductOf([], x);
  }

  /** The prefix products, into `r`. */
  method Prefixes(r: array<Limbs>, a: array<Limbs>, len: nat)
    requires r != a && 0 < len <= a.Length && len <= r.Length
    requires forall i :: 0 <= i < len ==> Bounded(a[i])
    modifies r
    ensures forall j :: 0 <= j < len ==> IsProduct(r[j], a[..j + 1])
    ensures forall i :: len <= i < r.Length ==> r[i] == old(r[i])
  {
    r[0] := a[0];
    assert a[..1] == [] + [a[0]];
    ProductOf([], a[0]);
    AgreeSelf(P, Value(a[0]));
    var i := 1;
    while i < len
      invariant 1 <= i <= len
      invariant forall j :: 0 <= j < i ==> IsProduct(r[j], a[..j + 1])
      invariant forall j :: len <= j < r.Length ==> r[j] == old(r[j])
    {
      assert IsProduct(r[i - 1], a[..i - 1 + 1]);
      r[i] := Extend(r[i - 1], a[i], a[..i]);
      assert a[..i + 1] == a[..i] + [a[i]];
      i := i + 1;
    }
  }

  /** The inverse of the product of all elements. */
  method InverseOfProduct(x: Limbs, ghost a: seq<Limbs>) returns (u: Limbs)
    requires IsProduct(x, a)
    requires forall i :: 0 <= i < |a| ==> !Divides(P, Value(a[i]))
    ensures InvertsProduct(u, a)
  {
    ghost var e;
    u, e := Inverse(x);
    FieldPrime.PIsPrime();
    ghost var inv := ProductHasInverse(P, a);
    SameInverse(P, Value(x), Product(a), inv);
    InverseInverts(x, u, e);
    InverseOfSame(P, Value(u), Value(x), Product(a));
  }

  /** A number that agrees with one that has an inverse is not zero. */
  lemma SameInverse(n: nat, v: int, p: int, inv: int)
    requires n > 1 && Agree(n, v, p) && Agree(n, p * inv, 1)
    ensures !Divides(n, v)
  {
    UnitNotDivided(n, p, inv);
    AgreeDivided(n, v, p);
  }

  lemma InverseOfSame(n: nat, u: int, v: int, p: int)
    requires Agree(n, v, p) && Agree(n, v * u, 1)
    ensures Agree(n, u * p, 1)
  {
    AgreeSym(n, v, p);
    AgreeSelf(n, u);
    AgreeMul(n, u, p, u, v);
    assert u * v == v * u;
    AgreeTrans(n, u * p, u * v, 1);
  }
}
