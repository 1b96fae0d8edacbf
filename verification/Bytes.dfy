/** Bytes, the machine-word moduli, and big-endian numbers. */
module Bytes {

  type byte = x: int | 0 <= x < 256

  const U16: int := 0x1_0000
  const U32: int := 0x1_0000_0000
  const U64: int := 0x1_0000_0000_0000_0000

  /** `n` zero bytes, as `make([]byte, n)` returns them. */
  function Zeros(n: nat): (b: seq<byte>)
    ensures |b| == n && forall i :: 0 <= i < n ==> b[i] == 0
  {
    seq(n, _ => 0)
  }

  function Pow256(k: nat): (p: nat)
    ensures p > 0
  {
    if k == 0 then 1 else 256 * Pow256(k - 1)
  }

  /** The lowest `k` bytes of `n`, most significant first. */
  function ToBytes(n: nat, k: nat): (b: seq<byte>)
    ensures |b| == k
  {
    if k == 0 then [] else ToBytes(n / 256, k - 1) + [n % 256]
  }

  function FromBytes(b: seq<byte>): nat {
    if b == [] then 0 else 256 * FromBytes(b[..|b| - 1]) + b[|b| - 1]
  }

  lemma {:induction false} BytesOfNumber(n: nat, k: nat)
    requires n < Pow256(k)
    ensures FromBytes(ToBytes(n, k)) == n
  {
    if k > 0 {
      BytesOfNumber(n / 256, k - 1);
      assert ToBytes(n, k)[..k - 1] == ToBytes(n / 256, k - 1);
    }
  }

  lemma {:induction false} NumberOfBytes(b: seq<byte>)
    ensures FromBytes(b) < Pow256(|b|) && ToBytes(FromBytes(b), |b|) == b
  {
    if b != [] {
      var n := |b| - 1;
      NumberOfBytes(b[..n]);
      assert b == b[..n] + [b[n]];
      assert FromBytes(b) / 256 == FromBytes(b[..n]) && FromBytes(b) % 256 == b[n];
    }
  }

  /** The bytes in front weigh more. */
  lemma {:induction false} BytesJoined(a: seq<byte>, b: seq<byte>)
    ensures FromBytes(a + b) == FromBytes(a) * Pow256(|b|) + FromBytes(b)
  {
    if b == [] {
      assert a + b == a;
    } else {
      var front, last := b[..|b| - 1], b[|b| - 1];
      assert (a + b)[..|a + b| - 1] == a + front;
      BytesJoined(a, front);
      var p := Pow256(|b| - 1);
      assert 256 * (FromBytes(a) * p + FromBytes(front)) == FromBytes(a) * (256 * p) + 256 * FromBytes(front);
    }
  }

  lemma {:induction false} LeadingZeros(k: nat, b: seq<byte>)
    ensures FromBytes(Zeros(k) + b) == FromBytes(b)
    decreases k + |b|
  {
    var c := Zeros(k) + b;
    if b != [] {
      assert c[..|c| - 1] == Zeros(k) + b[..|b| - 1];
      LeadingZeros(k, b[..|b| - 1]);
    } else if k > 0 {
      assert c[..|c| - 1] == Zeros(k - 1) + [];
      LeadingZeros(k - 1, []);
    }
  }
}
