/** Bitwise operators on naturals, and the facts about all-ones and all-zero results. */
module Bits {

  function Pow2(k: nat): (p: nat)
    ensures p > 0
  {
    if k == 0 then 1 else 2 * Pow2(k - 1)
  }

  function And(x: nat, y: nat): (z: nat)
    ensures z <= x && z <= y
  {
    if x == 0 || y == 0 then 0 else 2 * And(x / 2, y / 2) + x % 2 * (y % 2)
  }

  function Or(x: nat, y: nat): (z: nat)
    ensures x <= z && y <= z && z <= x + y
  {
    if x == 0 && y == 0 then 0
    else 2 * Or(x / 2, y / 2) + if x % 2 + y % 2 > 0 then 1 else 0
  }

  function Xor(x: nat, y: nat): (z: nat)
    ensures z <= x + y
    decreases x + y
  {
    if x == 0 && y == 0 then 0
    else 2 * Xor(x / 2, y / 2) + if x % 2 == y % 2 then 0 else 1
  }

  /** The conjunction of two `k`-bit words is all ones exactly when both are. */
  lemma {:induction false} AndAllOnes(x: nat, y: nat, k: nat)
    requires x < Pow2(k) && y < Pow2(k)
    ensures And(x, y) == Pow2(k) - 1 <==> x == Pow2(k) - 1 && y == Pow2(k) - 1
  {
    if k > 0 && x > 0 && y > 0 {
      AndAllOnes(x / 2, y / 2, k - 1);
    }
  }

  /** Adding a mask by exclusive or gives all ones exactly for the mask's complement. */
  lemma {:induction false} XorAllOnes(x: nat, c: nat, k: nat)
    requires x < Pow2(k) && c < Pow2(k)
    ensures Xor(x, c) < Pow2(k)
    ensures Xor(x, c) == Pow2(k) - 1 <==> x == Pow2(k) - 1 - c
  {
    if k > 0 {
      XorAllOnes(x / 2, c / 2, k - 1);
    }
  }

  /** The same for a chain of five words. */
  lemma AndChainAllOnes(a: nat, b: nat, c: nat, d: nat, e: nat, k: nat)
    requires a < Pow2(k) && b < Pow2(k) && c < Pow2(k) && d < Pow2(k) && e < Pow2(k)
    ensures And(And(And(And(a, b), c), d), e) == Pow2(k) - 1 <==>
            a == Pow2(k) - 1 && b == Pow2(k) - 1 && c == Pow2(k) - 1 && d == Pow2(k) - 1 && e == Pow2(k) - 1
  {
    AndAllOnes(a, b, k);
    AndAllOnes(And(a, b), c, k);
    AndAllOnes(And(And(a, b), c), d, k);
    AndAllOnes(And(And(And(a, b), c), d), e, k);
  }

  lemma Pow2Words()
    ensures Pow2(48) == 0x1_0000_0000_0000 && Pow2(52) == 0x10_0000_0000_0000
  {
    assert Pow2(8) == 0x100;
    assert Pow2(16) == 0x1_0000;
    assert Pow2(24) == 0x100_0000;
    assert Pow2(32) == 0x1_0000_0000;
    assert Pow2(40) == 0x100_0000_0000;
  }

  lemma Swap(x: int, y: int)
    ensures x * (2 * y) == 2 * (x * y)
  {
  }

  lemma {:induction false} Pow2Add(a: nat, b: nat)
    ensures Pow2(a + b) == Pow2(a) * Pow2(b)
  {
    if b > 0 {
      Pow2Add(a, b - 1);
      Swap(Pow2(a), Pow2(b - 1));
    }
  }

  /** The lowest `b` bits of `s`. */
  function Low(s: nat, b: nat): (r: nat)
    ensures r < Pow2(b)
  {
    if b == 0 then 0 else s % 2 + 2 * Low(s / 2, b - 1)
  }

  /** `s` shifted right by `b` bits. */
  function High(s: nat, b: nat): nat {
    if b == 0 then s else High(s / 2, b - 1)
  }

  lemma LowParity(s: nat, b: nat)
    requires b >= 1
    ensures Low(s, b) % 2 == s % 2
  {
  }

  /** Bits `off` to `off + count - 1` of `s`. */
  function GetBits(s: nat, off: nat, count: nat): (b: nat)
    ensures b < Pow2(count)
  {
    Low(High(s, off), count)
  }

  /** `x` shifted left by `b` bits. */
  function Shl(x: int, b: nat): int {
    if b == 0 then x else 2 * Shl(x, b - 1)
  }

  lemma {:induction false} ShlIsProduct(x: int, b: nat)
    ensures Shl(x, b) == x * Pow2(b)
  {
    if b > 0 {
      ShlIsProduct(x, b - 1);
      Swap(x, Pow2(b - 1));
    }
  }

  lemma {:induction false} ShlLinear(x: int, y: int, b: nat)
    ensures Shl(x + y, b) == Shl(x, b) + Shl(y, b)
    ensures Shl(-x, b) == -Shl(x, b)
  {
    if b > 0 {
      ShlLinear(x, y, b - 1);
    }
  }

  lemma {:induction false} ShlShl(x: int, a: nat, b: nat)
    ensures Shl(Shl(x, a), b) == Shl(x, a + b)
  {
    if b > 0 {
      ShlShl(x, a, b - 1);
    }
  }

  lemma {:induction false} ShlUnit(b: nat)
    ensures Shl(0, b) == 0 && Shl(1, b) == Pow2(b)
  {
    if b > 0 {
      ShlUnit(b - 1);
    }
  }

  lemma {:induction false} LowHigh(s: nat, b: nat)
    ensures s == Low(s, b) + Shl(High(s, b), b)
  {
    if b > 0 {
      LowHigh(s / 2, b - 1);
    }
  }

  /** Taking `n` more bits extends the low part by those bits. */
  lemma {:induction false} LowExtend(s: nat, b: nat, n: nat)
    ensures Low(s, b + n) == Low(s, b) + Shl(GetBits(s, b, n), b)
    ensures High(s, b + n) == High(High(s, b), n)
  {
    if b > 0 {
      LowExtend(s / 2, b - 1, n);
    }
  }

  /** A number below `2^b` has no bits at or above `b`. */
  lemma {:induction false} SmallNumber(s: nat, b: nat)
    requires s < Pow2(b)
    ensures Low(s, b) == s && High(s, b) == 0
  {
    if b > 0 {
      SmallNumber(s / 2, b - 1);
    }
  }

  /** The top bit of a number of `k + 1` bits. */
  lemma {:induction false} TopBit(x: nat, k: nat)
    requires x < 2 * Pow2(k)
    ensures High(x, k) == if x >= Pow2(k) then 1 else 0
  {
    if k > 0 {
      TopBit(x / 2, k - 1);
    }
  }

  lemma {:induction false} Pow2Monotone(a: nat, b: nat)
    requires a <= b
    ensures Pow2(a) <= Pow2(b)
  {
    if a < b {
      Pow2Monotone(a, b - 1);
    }
  }

  lemma Pow2Of255()
    ensures Pow2(255) == 0x8000_0000_0000_0000_0000_0000_0000_0000_0000_0000_0000_0000_0000_0000_0000_0000
    ensures Pow2(256) == 2 * Pow2(255)
  {
    Pow2Words();
    var a, b := 52, 48;
    Pow2Add(a, b);
    Pow2Add(a + b, a + b);
    Pow2Add(a + b + a + b, a);
    Pow2Add(a + b + a + b + a, 3);
    assert Pow2(3) == 8;
  }
}
