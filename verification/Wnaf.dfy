/**
Recoding scalars into windowed non-adjacent form.  Scalars are numbers below the group
order `N`; bits are read with `Bits.GetBits` and shifts are `Bits.High`.
 */
module Wnaf {
  import opened Bits
  import opened Scalars

  /** The number that digits stand for, digit `i` weighing `2^i`. */
  function Weigh(ds: seq<int>): int {
    if ds == [] then 0 else Weigh(ds[..|ds| - 1]) + Shl(ds[|ds| - 1], |ds| - 1)
  }

  lemma {:induction false} WeighZeroTail(ds: seq<int>, n: nat)
    requires n <= |ds| && forall i :: n <= i < |ds| ==> ds[i] == 0
    ensures Weigh(ds) == Weigh(ds[..n])
  {
    if n == |ds| {
      assert ds[..n] == ds;
    } else {
      WeighZeroTail(ds[..|ds| - 1], n);
      assert ds[..|ds| - 1][..n] == ds[..n];
      ShlUnit(|ds| - 1);
    }
  }

  /** Skipping a bit that equals the carry. */
  lemma SkipBit(s: nat, bit: nat, carry: nat)
    requires carry == GetBits(s, bit, 1)
    ensures Low(s, bit + 1) - Shl(carry, bit + 1) == Low(s, bit) - Shl(carry, bit)
  {
    LowExtend(s, bit, 1);
  }

  /** The carry out of a window and the digit that is left. */
  function Carry(word: nat, w: nat): nat
    requires w >= 1
  {
    High(word, w - 1) % 2
  }

  function Digit(word: nat, w: nat): int
    requires w >= 1
  {
    word - Shl(Carry(word, w), w)
  }

  lemma MinusEven(x: int, h: int)
    requires x % 2 == 1
    ensures (x - 2 * h) % 2 == 1
  {
  }

  lemma OddDigit(word: nat, w: nat)
    requires w >= 2 && word % 2 == 1 && word < Pow2(w)
    ensures Digit(word, w) % 2 == 1 && 0 - Pow2(w - 1) < Digit(word, w) < Pow2(w - 1)
    ensures Carry(word, w) == if word >= Pow2(w - 1) then 1 else 0
  {
    assert Pow2(w) == 2 * Pow2(w - 1) && Pow2(w - 1) == 2 * Pow2(w - 2);
    TopBit(word, w - 1);
    ShlUnit(w);
    MinusEven(word, if word >= Pow2(w - 1) then Pow2(w - 1) else 0);
  }

  /** A window that starts at a bit different from the carry reads an odd word. */
  lemma {:induction false} WindowWord(s: nat, bit: nat, now: nat, carry: nat)
    requires now >= 1 && carry <= 1 && carry != GetBits(s, bit, 1)
    ensures (GetBits(s, bit, now) + carry) % 2 == 1
    ensures GetBits(s, bit, now) + carry < Pow2(now)
  {
    var h := High(s, bit);
    assert Low(h, 1) == h % 2 + 2 * Low(h / 2, 0);
    assert Low(h, now) % 2 == h % 2;
    assert Pow2(now) == 2 * Pow2(now - 1);
  }

  /** A word with its top bit set ends on a set bit of the scalar. */
  lemma {:induction false} WindowTop(s: nat, bit: nat, w: nat, carry: nat)
    requires w >= 2 && carry <= 1 && carry != GetBits(s, bit, 1)
    requires GetBits(s, bit, w) + carry >= Pow2(w - 1)
    ensures GetBits(s, bit + w - 1, 1) == 1
  {
    var h := High(s, bit);
    WindowWord(s, bit, w, carry);
    assert Pow2(w - 1) == 2 * Pow2(w - 2);
    LowExtend(h, w - 1, 1);
    LowExtend(s, bit, w - 1);
    ShlUnit(w - 1);
  }

  /** A window that starts at a bit different from the carry yields an odd, small digit. */
  lemma WindowDigit(s: nat, bit: nat, now: nat, w: nat, carry: nat)
    requires w >= 2 && 1 <= now <= w && carry <= 1 && carry != GetBits(s, bit, 1)
    ensures var word := GetBits(s, bit, now) + carry;
            && Digit(word, w) % 2 == 1 && 0 - Pow2(w - 1) < Digit(word, w) < Pow2(w - 1)
            && (now < w ==> Carry(word, w) == 0)
            && (Carry(word, w) == 1 ==> GetBits(s, bit + now - 1, 1) == 1)
  {
    WindowWord(s, bit, now, carry);
    Pow2Monotone(now, w);
    OddDigit(GetBits(s, bit, now) + carry, w);
    if now < w {
      Pow2Monotone(now, w - 1);
    } else if Carry(GetBits(s, bit, now) + carry, w) == 1 {
      WindowTop(s, bit, w, carry);
    }
  }

  const INT_MAX := 0x7fff_ffff

  lemma Pow2Int()
    ensures Pow2(30) == 0x4000_0000 && Pow2(31) == INT_MAX + 1
  {
    assert Pow2(8) == 0x100;
    assert Pow2(16) == 0x1_0000;
    assert Pow2(24) == 0x100_0000;
  }

  /** The value of a signed 32-bit word that wraps around. */
  function Wrap(x: int): (r: int)
    ensures 0 - INT_MAX - 1 <= r <= INT_MAX && (0 - INT_MAX - 1 <= x <= INT_MAX ==> r == x)
  {
    (x + INT_MAX + 1) % (2 * (INT_MAX + 1)) - (INT_MAX + 1)
  }

  /** A window of the scalar `s` that the loop can read: it starts at a bit different from the carry. */
  ghost predicate Window(s: nat, bit: nat, now: nat, w: nat, carry: nat) {
    1 <= now <= w && carry <= 1 && carry != GetBits(s, bit, 1)
  }

  /** The carry out of the window, shifted by the window's width. */
  function ShiftedCarry(s: nat, bit: nat, now: nat, w: nat, carry: nat): int
    requires w >= 1
  {
    Shl(Carry(GetBits(s, bit, now) + carry, w), w)
  }

  /** A subtraction that wraps around makes up for a shift that does. */
  lemma WrapDigit(word: nat, w: nat)
    requires 2 <= w <= 31 && word < Pow2(w) && 0 - Pow2(w - 1) < Digit(word, w) < Pow2(w - 1)
    ensures Wrap(word - Wrap(Shl(Carry(word, w), w))) == Digit(word, w)
  {
    Pow2Monotone(w, 31);
    Pow2Int();
    ShlUnit(w);
    if w <= 30 {
      Pow2Monotone(w, 30);
    } else if Carry(word, w) == 1 {
      assert Wrap(INT_MAX + 1) == 0 - INT_MAX - 1;
    }
  }

  /** In 32-bit words: the word read and the digit always fit, the shifted carry does if and only if the
      window has at most 30 bits or the carry is 0. */
  lemma WordsFitIff(s: nat, bit: nat, now: nat, w: nat, carry: nat)
    requires 2 <= w <= 31 && Window(s, bit, now, w, carry)
    ensures var word := GetBits(s, bit, now) + carry;
            && word <= INT_MAX && 0 - INT_MAX <= Digit(word, w) <= INT_MAX
            && (ShiftedCarry(s, bit, now, w, carry) <= INT_MAX <==> w <= 30 || Carry(word, w) == 0)
  {
    WordBounds(s, bit, now, w, carry);
    WordFitsIff(GetBits(s, bit, now) + carry, w);
  }

  lemma WordBounds(s: nat, bit: nat, now: nat, w: nat, carry: nat)
    requires w >= 2 && Window(s, bit, now, w, carry)
    ensures var word := GetBits(s, bit, now) + carry;
            word < Pow2(w) && 0 - Pow2(w - 1) < Digit(word, w) < Pow2(w - 1)
  {
    WindowWord(s, bit, now, carry);
    WindowDigit(s, bit, now, w, carry);
    Pow2Monotone(now, w);
  }

  lemma WordFitsIff(word: nat, w: nat)
    requires 2 <= w <= 31 && word < Pow2(w) && 0 - Pow2(w - 1) < Digit(word, w) < Pow2(w - 1)
    ensures word <= INT_MAX && 0 - INT_MAX <= Digit(word, w) <= INT_MAX
    ensures Shl(Carry(word, w), w) <= INT_MAX <==> w <= 30 || Carry(word, w) == 0
  {
    Pow2Monotone(w, 31);
    Pow2Monotone(w - 1, 31);
    Pow2Int();
    ShlUnit(w);
    if w <= 30 {
      Pow2Monotone(w, 30);
    }
  }

  /** A scalar whose first window of 31 bits is odd and has its top bit set. */
  const OVERFLOWING: nat := 0x4000_0001

  /** The first window has all its bits, and the shift of its carry overflows. */
  ghost predicate FirstOverflows(s: nat, len: nat, w: nat) {
    1 <= w <= len && GetBits(s, 0, 1) == 1 && ShiftedCarry(s, 0, w, w, 0) > INT_MAX
  }

  lemma OverflowingScalar(s: nat, len: nat, w: nat)
    requires s == OVERFLOWING && w == 31 <= len
    ensures FirstOverflows(s, len, w)
  {
    Pow2Int();
    SmallNumber(s, w);
    assert Low(s, 1) == s % 2 + 2 * Low(s / 2, 0) == 1;
    OddDigit(s, w);
    ShlUnit(w);
  }

  /** The shifted carry fits for all scalars and all windows if and only if the windows have at most 30
      bits; of the widths admitted, 31 is the one at which the shift overflows. */
  lemma ShiftFitsIff(w: nat)
    requires 2 <= w <= 31
    ensures (forall s, bit, now, carry :: 0 <= s < HALF && 0 <= bit && Window(s, bit, now, w, carry) ==>
               ShiftedCarry(s, bit, now, w, carry) <= INT_MAX)
            <==> w <= 30
  {
    if w <= 30 {
      forall s, bit, now, carry | 0 <= s < HALF && 0 <= bit && Window(s, bit, now, w, carry)
        ensures ShiftedCarry(s, bit, now, w, carry) <= INT_MAX {
        WordsFitIff(s, bit, now, w, carry);
      }
    } else {
      var s := OVERFLOWING;
      OverflowingScalar(s, w, w);
      assert Window(s, 0, w, w, 0);
    }
  }

  /** The digit accounts for the window, given the carries in and out. */
  lemma WindowValue(s: nat, bit: nat, now: nat, w: nat, carry: nat)
    requires w >= 2 && 1 <= now <= w && carry <= 1 && carry != GetBits(s, bit, 1)
    ensures var word := GetBits(s, bit, now) + carry;
            Low(s, bit + now) - Shl(Carry(word, w), bit + now)
            == Low(s, bit) - Shl(carry, bit) + Shl(Digit(word, w), bit)
  {
    WindowDigit(s, bit, now, w, carry);
    var g := GetBits(s, bit, now);
    var c := Carry(g + carry, w);
    LowExtend(s, bit, now);
    ShlUnit(now);
    ShlUnit(w);
    assert Shl(c, now) == Shl(c, w);
    ShlShl(c, now, bit);
    ShlLinear(g, carry, bit);
    ShlLinear(g + carry, -Shl(c, now), bit);
    ShlLinear(Shl(c, now), 0, bit);
  }

  function Signed(sign: int, x: int): int {
    if sign == 1 then x else -x
  }

  lemma SignedOdd(sign: int, d: int, bound: int)
    requires d % 2 == 1 && -bound < d < bound
    ensures Signed(sign, d) % 2 == 1 && -bound < Signed(sign, d) < bound && Signed(sign, d) != 0
  {
    assert d == 2 * (d / 2) + 1 && -d == 2 * (-(d / 2) - 1) + 1;
  }

  /** Digit properties of a width-`w` non-adjacent form. */
  predicate NonAdjacent(ds: seq<int>, w: nat)
    requires w >= 1
  {
    && (forall i :: 0 <= i < |ds| && ds[i] != 0 ==> ds[i] % 2 == 1 && 0 - Pow2(w - 1) < ds[i] < Pow2(w - 1))
    && (forall i, j :: 0 <= i < j < |ds| && ds[i] != 0 && ds[j] != 0 ==> j - i >= w)
  }

  /** Writing a digit above a run of zeros. */
  lemma WeighDigit(ds: seq<int>, n: nat, d: int, ds': seq<int>)
    requires n < |ds| == |ds'| && ds' == ds[n := d] && forall i :: n < i < |ds'| ==> ds'[i] == 0
    ensures Weigh(ds') == Weigh(ds[..n]) + Shl(d, n)
  {
    WeighZeroTail(ds', n + 1);
    assert ds'[..n + 1][..n] == ds[..n];
  }

  /** `2^255`: scalars at or above it are recoded by their negation. */
  const HALF: nat := 0x8000_0000_0000_0000_0000_0000_0000_0000_0000_0000_0000_0000_0000_0000_0000_0000

  lemma TopScalarBit(a: nat)
    requires a < N
    ensures GetBits(a, 255, 1) == if a >= HALF then 1 else 0
  {
    Pow2Of255();
    TopBit(a, 255);
  }

  /** No carry is left when the number ends below the last bit. */
  lemma LastCarry(s: nat, len: nat)
    requires len > 0 && s < Pow2(len - 1)
    ensures GetBits(s, len - 1, 1) == 0 && Low(s, len) == s
  {
    SmallNumber(s, len - 1);
    SmallNumber(s, len);
  }

  method ClearDigits(wnaf: array<int>, len: nat)
    requires len <= wnaf.Length
    modifies wnaf
    ensures forall i :: 0 <= i < len ==> wnaf[i] == 0
    ensures wnaf[len..] == old(wnaf[len..])
    ensures Weigh(wnaf[..len]) == 0
  {
    for k := 0 to len
      invariant forall i :: 0 <= i < k ==> wnaf[i] == 0
      invariant wnaf[len..] == old(wnaf[len..])
    {
      wnaf[k] := 0;
    }
    WeighZeroTail(wnaf[..len], 0);
  }

  /** The digits below `bit` are in non-adjacent form and leave room for one at `bit`. */
  ghost predicate Shaped(ds: seq<int>, w: nat, bit: nat)
    requires w >= 1
  {
    && bit <= |ds| && NonAdjacent(ds, w)
    && (forall i :: bit <= i < |ds| ==> ds[i] == 0)
    && (forall i :: 0 <= i < bit && ds[i] != 0 ==> i + w <= bit || bit == |ds|)
  }

  /** The digits and the carry account for the bits below `bit`. */
  ghost predicate Accounted(ds: seq<int>, sign: int, s: nat, bit: nat, carry: nat) {
    && carry <= 1 && Signed(sign, Weigh(ds)) + Shl(carry, bit) == Low(s, bit)
    && (carry == 1 ==> bit > 0 && GetBits(s, bit - 1, 1) == 1)
  }

  lemma ShapedStep(ds: seq<int>, w: nat, bit: nat, now: nat, d: int)
    requires w >= 2 && Shaped(ds, w, bit) && bit < |ds|
    requires now == if w > |ds| - bit then |ds| - bit else w
    requires d % 2 == 1 && 0 - Pow2(w - 1) < d < Pow2(w - 1)
    ensures Shaped(ds[bit := d], w, bit + now)
  {
  }

  /** One window: the digit goes to `bit`, the loop moves on by `now` bits. */
  lemma AccountedStep(ds: seq<int>, w: nat, sign: int, s: nat, bit: nat, carry: nat, now: nat)
    requires w >= 2 && Accounted(ds, sign, s, bit, carry) && bit < |ds| && 1 <= now <= w
    requires forall i :: bit <= i < |ds| ==> ds[i] == 0
    requires carry != GetBits(s, bit, 1)
    ensures var word := GetBits(s, bit, now) + carry;
            Accounted(ds[bit := Signed(sign, Digit(word, w))], sign, s, bit + now, Carry(word, w))
  {
    var word := GetBits(s, bit, now) + carry;
    var d := Signed(sign, Digit(word, w));
    WindowDigit(s, bit, now, w, carry);
    WindowValue(s, bit, now, w, carry);
    WeighZeroTail(ds, bit);
    WeighDigit(ds, bit, d, ds[bit := d]);
    ShlLinear(Digit(word, w), 0, bit);
  }

  /** The highest digit set is at `top`; -1 stands for none. */
  ghost predicate TopDigit(ds: seq<int>, top: int) {
    && -1 <= top < |ds| && (top >= 0 ==> ds[top] != 0)
    && forall i :: top < i < |ds| ==> ds[i] == 0
  }

  /** The carry and the digit of one window, in wrapping 32-bit words. */
  method RecodeWindow(s: nat, bit: nat, now: nat, w: nat, carry: nat)
    returns (carry': nat, digit: int, ghost fits: bool)
    requires 2 <= w <= 31 && Window(s, bit, now, w, carry)
    ensures var word := GetBits(s, bit, now) + carry; carry' == Carry(word, w) && digit == Digit(word, w)
    ensures fits <==> ShiftedCarry(s, bit, now, w, carry) <= INT_MAX
    ensures w <= 30 ==> fits
  {
    WordsFitIff(s, bit, now, w, carry);
    WordBounds(s, bit, now, w, carry);
    var word := GetBits(s, bit, now) + carry;
    WrapDigit(word, w);
    carry' := Carry(word, w);
    digit := Wrap(word - Wrap(Shl(carry', w)));
    fits := Shl(carry', w) <= INT_MAX;
  }

  /** The loop has come to `bit`, with this carry and this highest digit. */
  ghost predicate Recoded(ds: seq<int>, w: nat, sign: int, s: nat, bit: nat, carry: nat, top: int)
    requires w >= 1
  {
    Shaped(ds, w, bit) && Accounted(ds, sign, s, bit, carry) && TopDigit(ds, top)
  }

  lemma SkipStep(ds: seq<int>, w: nat, sign: int, s: nat, bit: nat, carry: nat, top: int)
    requires w >= 2 && Recoded(ds, w, sign, s, bit, carry, top) && bit < |ds|
    requires carry == GetBits(s, bit, 1)
    ensures Recoded(ds, w, sign, s, bit + 1, carry, top)
  {
    SkipBit(s, bit, carry);
  }

  lemma WindowStep(ds: seq<int>, w: nat, sign: int, s: nat, bit: nat, carry: nat, top: int, now: nat)
    requires w >= 2 && Recoded(ds, w, sign, s, bit, carry, top) && bit < |ds|
    requires carry != GetBits(s, bit, 1) && now == if w > |ds| - bit then |ds| - bit else w
    ensures var word := GetBits(s, bit, now) + carry;
            Recoded(ds[bit := Signed(sign, Digit(word, w))], w, sign, s, bit + now, Carry(word, w), bit)
  {
    var word := GetBits(s, bit, now) + carry;
    WindowDigit(s, bit, now, w, carry);
    SignedOdd(sign, Digit(word, w), Pow2(w - 1));
    AccountedStep(ds, w, sign, s, bit, carry, now);
    ShapedStep(ds, w, bit, now, Signed(sign, Digit(word, w)));
  }

  /** One window: reads it, keeps the carry, and writes the digit. */
  method PutWindow(wnaf: array<int>, len: nat, w: nat, sign: int, s: nat, bit: nat, carry: nat, ghost top: int)
    returns (now: nat, carry': nat, ghost fits: bool)
    requires bit < len <= wnaf.Length && 2 <= w <= 31 && carry != GetBits(s, bit, 1)
    requires Recoded(wnaf[..len], w, sign, s, bit, carry, top)
    modifies wnaf
    ensures 1 <= now <= len - bit && (w <= len - bit ==> now == w)
    ensures Recoded(wnaf[..len], w, sign, s, bit + now, carry', bit)
    ensures wnaf[len..] == old(wnaf[len..])
    ensures fits <==> ShiftedCarry(s, bit, now, w, carry) <= INT_MAX
    ensures w <= 30 ==> fits
  {
    ghost var ds := wnaf[..len];
    now := w;
    if now > len - bit {
      now := len - bit;
    }
    var digit;
    carry', digit, fits := RecodeWindow(s, bit, now, w, carry);
    WindowStep(ds, w, sign, s, bit, carry, top, now);
    wnaf[bit] := Signed(sign, digit);
    assert wnaf[..len] == ds[bit := Signed(sign, digit)];
  }

  /** The loop over the bits of `s`: either a bit is skipped, or a window is recoded. */
  method PutWindows(wnaf: array<int>, len: nat, w: nat, sign: int, s: nat)
    returns (lastSetBit: int, carry: nat, ghost fits: bool)
    requires len <= wnaf.Length && 2 <= w <= 31
    requires Recoded(wnaf[..len], w, sign, s, 0, 0, -1)
    modifies wnaf
    ensures Recoded(wnaf[..len], w, sign, s, len, carry, lastSetBit)
    ensures wnaf[len..] == old(wnaf[len..])
    ensures w <= 30 ==> fits
    ensures FirstOverflows(s, len, w) ==> !fits
  {
    lastSetBit, carry, fits := -1, 0, true;
    var bit := 0;
    while bit < len
      invariant bit <= len
      invariant wnaf[len..] == old(wnaf[len..])
      invariant Recoded(wnaf[..len], w, sign, s, bit, carry, lastSetBit)
      invariant w <= 30 ==> fits
      invariant (bit == 0 && carry == 0) || (FirstOverflows(s, len, w) ==> !fits)
    {
      if GetBits(s, bit, 1) == carry {
        SkipStep(wnaf[..len], w, sign, s, bit, carry, lastSetBit);
        bit := bit + 1;
        continue;
      }
      var now;
      ghost var fit;
      now, carry, fit := PutWindow(wnaf, len, w, sign, s, bit, carry, lastSetBit);
      fits := fits && fit;
      lastSetBit := bit;
      bit := bit + now;
    }
  }

  /**
  `secp256k1_ecmult_wnaf`.  The digits always add up to the low `len` bits of the signed
  scalar, up to the last carry, which is 0 when the scalar fits `len - 1` bits.  Words have 32
  bits and wrap around; `fits` tells whether none had to.
   */
  method EcmultWnaf(wnaf: array<int>, len: nat, a: nat, w: nat)
    returns (bits: nat, ghost carryOut: nat, ghost sign: int, ghost s: nat, ghost fits: bool)
    requires wnaf.Length >= len && len <= 256 && a < N && 2 <= w <= 31
    modifies wnaf
    ensures (sign, s) == (if a < HALF then (1, a) else (-1, N - a)) && s < HALF
    ensures NonAdjacent(wnaf[..len], w)
    ensures Signed(sign, Weigh(wnaf[..len])) + Shl(carryOut, len) == Low(s, len)
    ensures len > 0 && s < Pow2(len - 1) ==> carryOut == 0 && Signed(sign, Weigh(wnaf[..len])) == s
    ensures TopDigit(wnaf[..len], bits - 1)
    ensures wnaf[len..] == old(wnaf[len..])
    ensures w <= 30 ==> fits
    ensures w == 31 <= len && a == OVERFLOWING ==> !fits
  {
    ClearDigits(wnaf, len);
    var t, sgn := a, 1;
    TopScalarBit(a);
    if GetBits(a, 255, 1) == 1 {
      t, sgn := ScalarNegate(a), -1;
    }
    var lastSetBit, carry;
    lastSetBit, carry, fits := PutWindows(wnaf, len, w, sgn, t);
    if w == 31 <= len && a == OVERFLOWING {
      OverflowingScalar(t, len, w);
    }
    bits := lastSetBit + 1;
    carryOut, sign, s := carry, sgn, t;
    if len > 0 && s < Pow2(len - 1) {
      LastCarry(s, len);
      ShlUnit(len);
    }
  }

  /** With 256 digits every scalar is recoded exactly, modulo the group order. */
  method EcmultWnafFull(wnaf: array<int>, a: nat, w: nat) returns (bits: nat)
    requires wnaf.Length == 256 && a < N && 2 <= w <= 31
    modifies wnaf
    ensures NonAdjacent(wnaf[..], w) && (Weigh(wnaf[..]) - a) % N == 0
    ensures TopDigit(wnaf[..], bits - 1)
  {
    ghost var carry, sign, s, fits;
    Pow2Of255();
    bits, carry, sign, s, fits := EcmultWnaf(wnaf, 256, a, w);
    assert wnaf[..256] == wnaf[..];
  }
}
