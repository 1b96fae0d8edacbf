/** Arithmetic modulo `n`, and what powers are modulo a prime: inverses and square roots. */
module Residues {
  import opened Primes

  /** Guards a definition: only a proof that names `Shown` unfolds it, so that a proof about large
      numbers does not look into quotients and powers. */
  predicate Shown(z: int) {
    true
  }

  /** `x` and `y` are the same modulo `n`. */
  ghost predicate Agree(n: nat, x: int, y: int) {
    forall z {:trigger Shown(z)} :: Shown(z) ==> Divides(n, x - y)
  }

  lemma AgreeSelf(n: nat, x: int)
    ensures Agree(n, x, x)
  {
    assert Shown(0);
    DividesTimes(n, 0, 0);
  }

  lemma AgreeSym(n: nat, x: int, y: int)
    requires Agree(n, x, y)
    ensures Agree(n, y, x)
  {
    assert Shown(0);
    DividesTimes(n, 0, 0);
    DividesSum(n, 0, x - y);
  }

  lemma AgreeTrans(n: nat, x: int, y: int, z: int)
    requires Agree(n, x, y) && Agree(n, y, z)
    ensures Agree(n, x, z)
  {
    assert Shown(0);
    DividesSum(n, x - y, y - z);
  }

  lemma AgreeNegate(n: nat, x: int, y: int)
    requires Agree(n, x, y)
    ensures Agree(n, -x, -y)
  {
    assert Shown(0);
    AgreeSym(n, x, y);
  }

  lemma AgreeMul(n: nat, x: int, y: int, u: int, v: int)
    requires Agree(n, x, u) && Agree(n, y, v)
    ensures Agree(n, x * y, u * v)
  {
    assert Shown(0);
    DividesProduct(n, x - u, y);
    DividesProduct(n, y - v, u);
    assert (x - u) * y + (y - v) * u == x * y - u * v;
    DividesSum(n, (x - u) * y, (y - v) * u);
  }

  lemma {:induction false} PowerAgree(n: nat, a: int, b: int, e: nat)
    requires Agree(n, a, b)
    ensures Agree(n, Power(a, e), Power(b, e))
  {
    if e == 0 {
      AgreeSelf(n, 1);
    } else {
      PowerAgree(n, a, b, e - 1);
      AgreeMul(n, a, Power(a, e - 1), b, Power(b, e - 1));
    }
  }

  lemma AgreeRemainder(n: nat, x: int)
    requires n > 0
    ensures Agree(n, x, x % n)
  {
    assert Shown(0);
    assert x == n * (x / n) + x % n;
    DividesTimes(n, x - x % n, x / n);
  }

  lemma AgreeDivided(n: nat, x: int, y: int)
    requires Agree(n, x, y)
    ensures Divides(n, x) <==> Divides(n, y)
  {
    assert Shown(0);
    if Divides(n, x) {
      DividesSum(n, x, x - y);
    }
    if Divides(n, y) {
      DividesSum(n, x - y, y);
    }
  }

  // ----- inverses

  /** Fermat's little theorem, for every number that the prime does not divide. */
  lemma PowerInverts(n: nat, x: int)
    requires Prime(n) && !Divides(n, x)
    ensures Agree(n, x * Power(x, n - 2), 1)
  {
    assert Shown(0);
    var r := x % n;
    AgreeRemainder(n, x);
    AgreeDivided(n, x, r);
    Fermat(n, r);
    PowerAgree(n, x, r, n - 2);
    AgreeMul(n, x, Power(x, n - 2), r, Power(r, n - 2));
    AgreeTrans(n, x * Power(x, n - 2), r * Power(r, n - 2), 1);
  }

  /** What has an inverse is not zero. */
  lemma UnitNotDivided(n: nat, x: int, y: int)
    requires n > 1 && Agree(n, x * y, 1)
    ensures !Divides(n, x)
  {
    assert Shown(0);
    if Divides(n, x) {
      DividesProduct(n, x, y);
      DividesSum(n, x * y, x * y - 1);
      SmallNotDivided(n, 1);
    }
  }

  lemma Regroup(p: int, x: int, i: int, y: int)
    ensures p * x * (i * y) == p * i * (x * y)
  {
    assert p * x * (i * y) == p * (x * i) * y == p * (i * x) * y == p * i * (x * y);
  }

  lemma UnitTimesUnit(n: nat, p: int, i: int, x: int, y: int)
    requires Agree(n, p * i, 1) && Agree(n, x * y, 1)
    ensures Agree(n, p * x * (i * y), 1)
  {
    AgreeMul(n, p * i, x * y, 1, 1);
    Regroup(p, x, i, y);
  }

  lemma Reorder(p: int, b: int, c: int)
    ensures p * b * c == b * (p * c) && b * c * p == b * (p * c)
  {
    assert p * b * c == b * p * c && b * c * p == b * (c * p) == b * (p * c);
  }

  /** If `b` inverts `p * c`, then `p * b` inverts `c` and `b * c` inverts `p`. */
  lemma TakenApart(n: nat, a: int, b: int, c: int, p: int, r: int, v: int)
    requires Agree(n, a, p) && Agree(n, b * (p * c), 1) && Agree(n, r, a * b) && Agree(n, v, b * c)
    ensures Agree(n, r * c, 1) && Agree(n, v * p, 1)
  {
    AgreeSelf(n, b);
    AgreeSelf(n, c);
    AgreeSelf(n, p);
    AgreeMul(n, a, b, p, b);
    AgreeTrans(n, r, a * b, p * b);
    AgreeMul(n, r, c, p * b, c);
    Reorder(p, b, c);
    AgreeTrans(n, r * c, p * b * c, 1);
    AgreeMul(n, v, p, b * c, p);
    AgreeTrans(n, v * p, b * c * p, 1);
  }

  // ----- squares

  ghost predicate IsSquare(n: nat, v: int) {
    exists b :: Agree(n, v, Squared(b))
  }

  ghost function Squared(b: int): int {
    b * b
  }

  lemma {:induction false} PowerOfSquare(b: int, e: nat)
    ensures Power(b * b, e) == Power(b, e + e)
  {
    if e > 0 {
      PowerOfSquare(b, e - 1);
      var p := Power(b, e - 1 + e - 1);
      assert Power(b, e + e) == b * Power(b, e + e - 1) == b * (b * p);
      assert b * b * p == b * (b * p);
    }
  }

  lemma {:induction false} PowerOfNegative(v: int, h: nat)
    ensures Power(-v, h) == if h % 2 == 0 then Power(v, h) else -Power(v, h)
  {
    if h > 0 {
      PowerOfNegative(v, h - 1);
      var p := Power(v, h - 1);
      assert -v * p == -(v * p) && -v * -p == v * p;
    }
  }

  lemma HalfPowerSquared(n: nat, x: int, h: nat)
    requires Prime(n) && !Divides(n, x) && h + h == n - 1
    ensures Agree(n, Power(x, h) * Power(x, h), 1)
  {
    PowerAdd(x, h, h);
    assert Power(x, n - 1) == x * Power(x, n - 2);
    PowerInverts(n, x);
  }

  /** Modulo a prime, 1 has no roots but 1 and -1. */
  lemma RootsOfOne(n: nat, s: int)
    requires Prime(n) && Agree(n, s * s, 1)
    ensures Agree(n, s, 1) || Agree(n, s, -1)
  {
    assert Shown(0);
    assert (s - 1) * (s + 1) == s * s - 1;
    Euclid(n, s - 1, s + 1);
  }

  lemma OneIsNotMinusOne(n: nat, s: int)
    requires n > 2 && Agree(n, s, 1)
    ensures !Agree(n, s, -1)
  {
    assert Shown(0);
    SmallNotDivided(n, 2);
    if Agree(n, s, -1) {
      DividesSum(n, s + 1, s - 1);
    }
  }

  lemma SquareToOne(n: nat, v: int, b: int, h: nat)
    requires Prime(n) && !Divides(n, v) && h + h == n - 1 && Agree(n, v, b * b)
    ensures Agree(n, Power(v, h), 1)
  {
    AgreeDivided(n, v, b * b);
    if Divides(n, b) {
      DividesProduct(n, b, b);
      assert false;
    }
    PowerAgree(n, v, b * b, h);
    PowerOfSquare(b, h);
    PowerAdd(b, h, h);
    HalfPowerSquared(n, b, h);
    AgreeTrans(n, Power(v, h), Power(b, h) * Power(b, h), 1);
  }

  /** The `(h + 1) / 2`-th power squared is `v` times the `h`-th power. */
  lemma RootSquared(v: int, e: nat, h: nat)
    requires e + e == h + 1
    ensures Power(v, e) * Power(v, e) == v * Power(v, h)
  {
    PowerAdd(v, e, e);
    assert Power(v, h + 1) == v * Power(v, h);
  }

  /** Euler's criterion: of the two values that the half power can have, squares have 1; and then the root
      power is a root. */
  lemma Euler(n: nat, v: int, h: nat, e: nat)
    requires Prime(n) && n > 2 && !Divides(n, v) && h + h == n - 1 && e + e == h + 1
    ensures Agree(n, Power(v, h), 1) || Agree(n, Power(v, h), -1)
    ensures IsSquare(n, v) <==> Agree(n, Power(v, h), 1)
    ensures IsSquare(n, v) ==> Agree(n, Power(v, e) * Power(v, e), v)
  {
    HalfPowerSquared(n, v, h);
    RootsOfOne(n, Power(v, h));
    if IsSquare(n, v) {
      var b :| Agree(n, v, Squared(b));
      SquareToOne(n, v, b, h);
    }
    if Agree(n, Power(v, h), 1) {
      OneRoot(n, v, h, e);
    }
  }

  lemma OneRoot(n: nat, v: int, h: nat, e: nat)
    requires e + e == h + 1 && Agree(n, Power(v, h), 1)
    ensures Agree(n, Power(v, e) * Power(v, e), v) && IsSquare(n, v)
  {
    RootSquared(v, e, h);
    AgreeSelf(n, v);
    AgreeMul(n, v, Power(v, h), v, 1);
    AgreeSym(n, v * Power(v, h), v);
    assert Agree(n, v, Squared(Power(v, e)));
  }

  /** Of a number and its negative, unless zero, exactly one is a square, if the prime is 3 modulo 4. */
  lemma OneOfTwoIsSquare(n: nat, v: int, h: nat, e: nat)
    requires Prime(n) && n > 2 && !Divides(n, v) && h + h == n - 1 && e + e == h + 1
    ensures IsSquare(n, v) <==> !IsSquare(n, -v)
  {
    var s := Power(v, h);
    if Divides(n, -v) {
      NegativeDivided(n, v);
      assert false;
    }
    Euler(n, v, h, e);
    Euler(n, -v, h, e);
    PowerOfNegative(v, h);
    assert h % 2 == 1 && Power(-v, h) == -s;
    if Agree(n, s, 1) {
      AgreeNegate(n, s, 1);
      OppositeSigns(n, s);
    } else {
      AgreeNegate(n, s, -1);
    }
  }

  lemma OppositeSigns(n: nat, s: int)
    requires n > 2 && Agree(n, -s, -1)
    ensures !Agree(n, -s, 1)
  {
    if Agree(n, -s, 1) {
      OneIsNotMinusOne(n, -s);
    }
  }

  lemma NegativeDivided(n: nat, v: int)
    requires Divides(n, -v)
    ensures Divides(n, v)
  {
    DividesTimes(n, 0, 0);
    DividesSum(n, 0, -v);
  }

  /** The root power is a root whenever there is one, that of zero included. */
  lemma RootIff(n: nat, v: int, h: nat, e: nat)
    requires Prime(n) && n > 2 && h + h == n - 1 && e + e == h + 1
    ensures IsSquare(n, v) <==> Agree(n, Power(v, e) * Power(v, e), v)
  {
    if Divides(n, v) {
      RootOfZero(n, v, e);
    } else {
      Euler(n, v, h, e);
    }
    if Agree(n, Power(v, e) * Power(v, e), v) {
      AgreeSym(n, Power(v, e) * Power(v, e), v);
      assert Agree(n, v, Squared(Power(v, e)));
    }
  }

  lemma RootOfZero(n: nat, v: int, e: nat)
    requires Divides(n, v) && e > 0
    ensures Agree(n, Power(v, e) * Power(v, e), v)
  {
    assert Shown(0);
    DividesProduct(n, v, Power(v, e - 1));
    DividesProduct(n, Power(v, e), Power(v, e));
    DividesSum(n, Power(v, e) * Power(v, e), v);
  }

  /** A root power is a square itself, and the same for a number and its negative, if the exponent is even. */
  lemma EvenPower(n: nat, v: int, e: nat)
    requires e % 2 == 0
    ensures IsSquare(n, Power(v, e)) && Power(-v, e) == Power(v, e)
  {
    PowerAdd(v, e / 2, e / 2);
    AgreeSelf(n, Power(v, e));
    assert Agree(n, Power(v, e), Squared(Power(v, e / 2)));
    PowerOfNegative(v, e);
  }
}
