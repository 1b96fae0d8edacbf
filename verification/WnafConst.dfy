/**
The constant-time recoding: every digit is odd, so none has to be skipped.  The scalar
is first made odd by adding 1 or 2, which the caller undoes afterwards.
 */
module WnafConst {
  import opened Bits
  import opened Scalars
  import opened Wnaf

  const WNAF_BITS: nat := 256

  /** `n` windows of `w` bits. */
  function Windows(w: nat, n: nat): nat {
    if n == 0 then 0 else Windows(w, n - 1) + w
  }

  lemma {:induction false} WindowsIsProduct(w: nat, n: nat)
    ensures Windows(w, n) == n * w
  {
    if n > 0 {
      WindowsIsProduct(w, n - 1);
      assert (n - 1) * w == n * w - w;
    }
  }

  /** The number that digits stand for, digit `i` weighing `2^(w i)`. */
  function WeighBy(ds: seq<int>, w: nat): int {
    if ds == [] then 0 else WeighBy(ds[..|ds| - 1], w) + Shl(ds[|ds| - 1], Windows(w, |ds| - 1))
  }

  /** `1 << bit`, for the two shifts that occur. */
  function Skew(bit: nat): nat
    requires bit <= 1
  {
    if bit == 0 then 1 else 2
  }

  /** ecmult_const_impl.h:79-93: an odd number below the order, its sign, and what was added to the scalar. */
  method MakeOdd(scalar: nat) returns (s: nat, globalSign: int, skew: nat)
    requires scalar < N
    ensures s < N && s % 2 == 1 && globalSign in {1, -1} && skew in {1, 2}
    ensures (Signed(globalSign, s) - (scalar + skew)) % N == 0
  {
    s := scalar;
    var flip := s > N / 2;
    var bit := if flip == (s % 2 == 1) then 0 else 1;  // flip ^ !is_even
    var notNegOne := ScalarNegate(s) != 1;
    SkewedParity(scalar, flip, bit);
    if notNegOne {
      s := s + Skew(bit);
    }
    globalSign := 1;
    if flip {
      NegateParity(s);
      s := ScalarNegate(s);
      globalSign := -1;
    }
    globalSign := if notNegOne then globalSign else -globalSign;
    skew := Skew(bit);
    OffByOrder(Signed(globalSign, s) - (scalar + skew), flip);
  }

  /** What is added makes the number odd, or even when it will be negated; and it stays below the order,
      except for -1. */
  lemma SkewedParity(scalar: nat, flip: bool, bit: nat)
    requires scalar < N && flip == (scalar > N / 2) && bit == if flip == (scalar % 2 == 1) then 0 else 1
    ensures (scalar + Skew(bit)) % 2 == if flip then 0 else 1
    ensures scalar != N - 1 ==> scalar + Skew(bit) < N
    ensures scalar == N - 1 ==> flip && bit == 1
  {
    var half := N / 2;
    assert N == 2 * half + 1;
  }

  lemma OffByOrder(d: int, once: bool)
    requires d == if once then 0 - N else 0
    ensures d % N == 0
  {
  }

  /** A digit ready to be written, and one that may still take up a borrow. */
  predicate DigitRange(d: int, w: nat) {
    d % 2 == 1 && 0 - Pow2(w) < d < Pow2(w)
  }

  predicate PendingRange(u: int, w: nat) {
    u % 2 == 1 && -1 <= u < Pow2(w)
  }

  /** One step: the next `w` bits, made odd at the expense of the pending digit. */
  lemma OddStep(uLast: int, s: nat, w: nat)
    requires w >= 1 && PendingRange(uLast, w)
    ensures var u := Low(s, w);
            var sign := if uLast > 0 then 1 else -1;
            var (u', d) := if u % 2 == 0 then (u + sign, uLast - Signed(sign, Pow2(w))) else (u, uLast);
            && PendingRange(u', w) && DigitRange(d, w)
            && uLast + Shl(s, w) == d + Shl(u' + Shl(High(s, w), w), w)
  {
    assert Pow2(w) == 2 * Pow2(w - 1);
    LowHigh(s, w);
    ShlNeighbours(Low(s, w) + Shl(High(s, w), w), w);
    MinusEven(uLast, Pow2(w - 1));
    MinusEven(uLast, 0 - Pow2(w - 1));
    NextToEven(Low(s, w));
  }

  lemma NextToEven(u: int)
    ensures u % 2 == 0 ==> (u + 1) % 2 == 1 && (u - 1) % 2 == 1
    ensures u % 2 != 0 ==> u % 2 == 1
  {
  }

  lemma {:induction false} ShlNeighbours(x: int, w: nat)
    ensures Shl(x + 1, w) == Shl(x, w) + Pow2(w) && Shl(x - 1, w) == Shl(x, w) - Pow2(w)
  {
    if w > 0 {
      ShlNeighbours(x, w - 1);
    }
  }

  /** Appending a digit to those already weighed. */
  lemma {:induction false} WeighAppend(ds: seq<int>, d: int, w: nat)
    ensures WeighBy(ds + [d], w) == WeighBy(ds, w) + Shl(d, Windows(w, |ds|))
  {
    assert (ds + [d])[..|ds|] == ds;
  }

  /** The digits written so far and the number `r` still to be written make up the total. */
  ghost predicate Accounts(ds: seq<int>, w: nat, sign: int, r: int, total: int) {
    Signed(sign, WeighBy(ds, w)) + Shl(r, Windows(w, |ds|)) == total
  }

  lemma {:induction false} ShlSigned(sign: int, d: int, k: nat)
    ensures Shl(Signed(sign, d), k) == Signed(sign, Shl(d, k))
  {
    ShlLinear(d, 0, k);
  }

  lemma {:induction false} AccountsStep(ds: seq<int>, w: nat, sign: int, r: int, total: int, d: int, r': int)
    requires Accounts(ds, w, sign, r, total) && r == d + Shl(r', w)
    ensures Accounts(ds + [Signed(sign, d)], w, sign, r', total)
  {
    var k := Windows(w, |ds|);
    WeighAppend(ds, Signed(sign, d), w);
    ShlSigned(sign, d, k);
    ShlLinear(d, Shl(r', w), k);
    ShlShl(r', w, k);
    assert Windows(w, |ds| + 1) == k + w;
  }

  /** The last number fits one digit. */
  lemma {:induction false} AccountsEnd(ds: seq<int>, w: nat, sign: int, r: int, total: int)
    requires Accounts(ds, w, sign, r, total)
    ensures Signed(sign, WeighBy(ds + [Signed(sign, r)], w)) == total
  {
    WeighAppend(ds, Signed(sign, r), w);
    ShlSigned(sign, r, Windows(w, |ds|));
  }

  lemma SizeBounds(w: nat) returns (size: nat)
    requires w >= 1
    ensures size == (WNAF_BITS + w - 1) / w
    ensures size * w >= WNAF_BITS > (size - 1) * w
  {
    size := (WNAF_BITS + w - 1) / w;
    assert size * w + (WNAF_BITS + w - 1) % w == WNAF_BITS + w - 1;
    assert (size - 1) * w == size * w - w;
  }

  lemma ProductOrder(a: int, b: int, w: nat)
    requires a * w < b * w
    ensures a < b
  {
    assert a >= b ==> (a - b) * w >= 0;
  }

  lemma NothingLeft(total: nat, k: nat)
    requires total < N && k >= WNAF_BITS
    ensures High(total, k) == 0
  {
    Pow2Of255();
    Pow2Monotone(256, k);
    SmallNumber(total, k);
  }

  /** Writes digit `word` and moves on; `total` is the number being recoded. */
  method PutDigit(wnaf: array<int>, word: nat, w: nat, globalSign: int, uLast: int, s: nat, ghost total: int)
    returns (u: int, s': nat)
    requires word < wnaf.Length && w >= 1 && PendingRange(uLast, w)
    requires Accounts(wnaf[..word], w, globalSign, uLast + Shl(s, w), total)
    modifies wnaf
    ensures PendingRange(u, w) && s' == High(s, w)
    ensures wnaf[..word] == old(wnaf[..word]) && DigitRange(wnaf[word], w)
    ensures Accounts(wnaf[..word + 1], w, globalSign, u + Shl(s', w), total)
  {
    OddStep(uLast, s, w);
    u := Low(s, w);
    s' := High(s, w);
    var even := u % 2 == 0;
    var sign := if uLast > 0 then 1 else -1;
    var d := uLast;
    if even {
      u := u + sign;
      d := d - Signed(sign, Pow2(w));
    }
    AccountsStep(wnaf[..word], w, globalSign, uLast + Shl(s, w), total, d, u + Shl(s', w));
    wnaf[word] := Signed(globalSign, d);
    assert wnaf[..word + 1] == old(wnaf[..word]) + [Signed(globalSign, d)];
  }

  /** The loop ends after `size` digits, with no bits left to shift in. */
  lemma LastWord(total: nat, w: nat, size: nat, word: nat)
    requires total < N && word <= size && word * w >= WNAF_BITS > (size - 1) * w
    ensures word == size && Shl(High(total, Windows(w, word) + w), w) == 0
  {
    ProductOrder(size - 1, word, w);
    WindowsIsProduct(w, word);
    NothingLeft(total, Windows(w, word) + w);
    ShlUnit(w);
  }

  /** A pending digit is a digit, whichever its sign. */
  lemma PendingIsDigit(u: int, w: nat, sign: int)
    requires w >= 1 && PendingRange(u, w)
    ensures DigitRange(Signed(sign, u), w)
  {
    assert Pow2(w) == 2 * Pow2(w - 1);
  }

  /** All digits but the last, which is returned. */
  method PutDigits(wnaf: array<int>, total: nat, w: nat, globalSign: int) returns (word: nat, u: int)
    requires total < N && total % 2 == 1 && 1 <= w <= 15 && wnaf.Length == (WNAF_BITS + w - 1) / w + 1
    modifies wnaf
    ensures word == wnaf.Length - 1 && PendingRange(u, w)
    ensures forall i :: 0 <= i < word ==> DigitRange(wnaf[i], w)
    ensures Accounts(wnaf[..word], w, globalSign, u, total)
  {
    u := Low(total, w);
    var s := High(total, w);
    LowHigh(total, w);
    LowParity(total, w);
    word := 0;
    ghost var size := SizeBounds(w);
    while word * w < WNAF_BITS
      invariant word <= size && PendingRange(u, w)
      invariant forall i :: 0 <= i < word ==> DigitRange(wnaf[i], w)
      invariant s == High(total, Windows(w, word) + w)
      invariant Accounts(wnaf[..word], w, globalSign, u + Shl(s, w), total)
      decreases size - word
    {
      ProductOrder(word, size, w);
      ghost var before := wnaf[..word];
      LowExtend(total, Windows(w, word) + w, w);
      u, s := PutDigit(wnaf, word, w, globalSign, u, s, total);
      assert forall i :: 0 <= i < word ==> wnaf[i] == before[i];
      word := word + 1;
    }
    LastWord(total, w, size, word);
  }

  /** `secp256k1_wnaf_const`: odd digits for the scalar plus a skew of 1 or 2. */
  method WnafConst(wnaf: array<int>, scalar: nat, w: nat) returns (skew: nat)
    requires scalar < N && 1 <= w <= 15 && wnaf.Length == (WNAF_BITS + w - 1) / w + 1
    modifies wnaf
    ensures skew in {1, 2}
    ensures forall i :: 0 <= i < wnaf.Length ==> DigitRange(wnaf[i], w)
    ensures (WeighBy(wnaf[..], w) - (scalar + skew)) % N == 0
  {
    var s, globalSign;
    s, globalSign, skew := MakeOdd(scalar);
    var word, u := PutDigits(wnaf, s, w, globalSign);
    AccountsEnd(wnaf[..word], w, globalSign, u, s);
    PendingIsDigit(u, w, globalSign);
    wnaf[word] := Signed(globalSign, u);
    assert wnaf[..] == wnaf[..word] + [Signed(globalSign, u)];
  }
}
