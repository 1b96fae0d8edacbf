/**
Sparse bitset compression.  A byte string is stored as its non-zero bytes preceded by
the compressed bit vector of their positions, most significant bit first.
 */
module Bitset {
  import opened Bits

  datatype Error = MissingData | UnreferencedData | ExceededTarget | ZeroContent

  datatype Result<+T> = Ok(value: T) | Err(error: Error)

  /** `1 << (7 - j)`. */
  function Mask(j: nat): bv8
    requires j < 8
  {
    if j == 0 then 0x80 else if j == 1 then 0x40 else if j == 2 then 0x20 else if j == 3 then 0x10
    else if j == 4 then 0x08 else if j == 5 then 0x04 else if j == 6 then 0x02 else 0x01
  }

  /** Bit `i` of a bit vector. */
  predicate Test(bits: seq<bv8>, i: nat)
    requires i < 8 * |bits|
  {
    bits[i / 8] & Mask(i % 8) != 0
  }

  /** Mark `j` of a byte weighs `2^(7 - j)`: the first byte marked has the most significant bit. */
  lemma MaskWeight(j: nat)
    requires j < 8
    ensures Mask(j) as int == Pow2(7 - j)
  {
    assert Pow2(0) == 1 && Pow2(1) == 2 && Pow2(2) == 4 && Pow2(3) == 8;
    assert Pow2(4) == 16 && Pow2(5) == 32 && Pow2(6) == 64 && Pow2(7) == 128;
  }

  lemma SetBit(b: bv8, j: nat, k: nat)
    requires j < 8 && k < 8
    ensures (b | Mask(j)) & Mask(k) != 0 <==> j == k || b & Mask(k) != 0
  {
  }

  /** A byte is determined by its bits. */
  lemma SameBits(a: bv8, b: bv8)
    requires forall j :: 0 <= j < 8 ==> (a & Mask(j) != 0 <==> b & Mask(j) != 0)
    ensures a == b
  {
    assert forall j :: 0 <= j < 8 ==> (a & Mask(j) != 0 <==> b & Mask(j) != 0);
    assert a & Mask(0) != 0 <==> b & Mask(0) != 0;
    assert a & Mask(1) != 0 <==> b & Mask(1) != 0;
    assert a & Mask(2) != 0 <==> b & Mask(2) != 0;
    assert a & Mask(3) != 0 <==> b & Mask(3) != 0;
    assert a & Mask(4) != 0 <==> b & Mask(4) != 0;
    assert a & Mask(5) != 0 <==> b & Mask(5) != 0;
    assert a & Mask(6) != 0 <==> b & Mask(6) != 0;
    assert a & Mask(7) != 0 <==> b & Mask(7) != 0;
  }

  lemma SameVector(a: seq<bv8>, b: seq<bv8>)
    requires |a| == |b| && forall i :: 0 <= i < 8 * |a| ==> (Test(a, i) <==> Test(b, i))
    ensures a == b
  {
    forall k | 0 <= k < |a| ensures a[k] == b[k] {
      forall j | 0 <= j < 8 ensures a[k] & Mask(j) != 0 <==> b[k] & Mask(j) != 0 {
        var i := 8 * k + j;
        assert i / 8 == k && i % 8 == j;
        assert Test(a, i) <==> Test(b, i);
      }
      SameBits(a[k], b[k]);
    }
  }

  /** `bits` marks exactly the positions of the non-zero bytes of `data`. */
  predicate Marks(bits: seq<bv8>, data: seq<bv8>) {
    && |bits| == (|data| + 7) / 8
    && forall i :: 0 <= i < 8 * |bits| ==> (Test(bits, i) <==> i < |data| && data[i] != 0)
  }

  function NonZero(data: seq<bv8>): (nz: seq<bv8>)
    ensures |nz| <= |data|
  {
    if data == [] then [] else
      var n := |data| - 1;
      NonZero(data[..n]) + if data[n] != 0 then [data[n]] else []
  }

  function MarkOf(data: seq<bv8>, k: nat, j: nat): bv8
    requires j < 8
  {
    if 8 * k + j < |data| && data[8 * k + j] != 0 then Mask(j) else 0
  }

  /** The marks of the eight bytes from `8 k` on. */
  function MarksOf(data: seq<bv8>, k: nat): bv8 {
    MarkOf(data, k, 0) | MarkOf(data, k, 1) | MarkOf(data, k, 2) | MarkOf(data, k, 3) |
    MarkOf(data, k, 4) | MarkOf(data, k, 5) | MarkOf(data, k, 6) | MarkOf(data, k, 7)
  }

  lemma MarksOfBit(data: seq<bv8>, k: nat, j: nat)
    requires j < 8
    ensures MarksOf(data, k) & Mask(j) != 0 <==> 8 * k + j < |data| && data[8 * k + j] != 0
  {
  }

  lemma MarksExist(data: seq<bv8>) returns (bits: seq<bv8>)
    ensures Marks(bits, data)
  {
    bits := seq((|data| + 7) / 8, k requires 0 <= k => MarksOf(data, k));
    forall i | 0 <= i < 8 * |bits| ensures Test(bits, i) <==> i < |data| && data[i] != 0 {
      MarksOfBit(data, i / 8, i % 8);
      assert 8 * (i / 8) + i % 8 == i;
    }
  }

  /** The bit vector of the non-zero positions. */
  ghost function Positions(data: seq<bv8>): (bits: seq<bv8>)
    ensures Marks(bits, data) && |bits| == (|data| + 7) / 8
  {
    assert exists bits :: Marks(bits, data) by {
      var bits := MarksExist(data);
    }
    var bits :| Marks(bits, data);
    bits
  }

  /** Only one bit vector marks given data. */
  lemma MarksUnique(bits: seq<bv8>, data: seq<bv8>)
    requires Marks(bits, data)
    ensures bits == Positions(data)
  {
    SameVector(bits, Positions(data));
  }

  // ----- encoding

  /** What the compressor produces, following its recursion over bit vectors. */
  ghost function Encode(data: seq<bv8>): (out: seq<bv8>)
    decreases |data|
  {
    if |data| == 0 then []
    else if |data| == 1 then (if data[0] == 0 then [] else data)
    else if NonZero(data) == [] then []
    else Encode(Positions(data)) + NonZero(data)
  }

  /** How many of the first `n` bytes are not zero. */
  function Count(data: seq<bv8>, n: nat): (c: nat)
    requires n <= |data|
    ensures c <= n
  {
    if n == 0 then 0 else Count(data, n - 1) + if data[n - 1] != 0 then 1 else 0
  }

  lemma {:induction false} CountIsLength(data: seq<bv8>, n: nat)
    requires n <= |data|
    ensures |NonZero(data[..n])| == Count(data, n)
  {
    if n == 0 {
      assert data[..0] == [];
    } else {
      CountIsLength(data, n - 1);
      NonZeroNext(data, n - 1);
    }
  }

  /** Byte `i`, which is not zero, is gathered behind those before it. */
  lemma {:induction false} NonZeroAt(data: seq<bv8>, n: nat, i: nat)
    requires i < n <= |data| && data[i] != 0
    ensures |NonZero(data[..n])| == Count(data, n) && Count(data, i) < Count(data, n)
    ensures NonZero(data[..n])[Count(data, i)] == data[i]
  {
    CountIsLength(data, n - 1);
    NonZeroNext(data, n - 1);
    if i < n - 1 {
      NonZeroAt(data, n - 1, i);
    }
  }

  /** `out` is `head` and `all` bytes behind it, `b` the one at place `c` of them. */
  ghost predicate LaidOut(out: seq<bv8>, head: seq<bv8>, all: nat, c: nat, b: bv8) {
    c < all && |out| == |head| + all && out[..|head|] == head && out[|head| + c] == b
  }

  lemma Behind(head: seq<bv8>, tail: seq<bv8>, c: nat)
    requires c < |tail|
    ensures LaidOut(head + tail, head, |tail|, c, tail[c])
  {
  }

  /** Byte `i` is marked, by the bit of weight `2^(7 - i % 8)` in byte `i / 8`, exactly if it is not zero. */
  lemma MarkIff(data: seq<bv8>, i: nat)
    requires i < |data|
    ensures Positions(data)[i / 8] & Mask(i % 8) != 0 <==> data[i] != 0
    ensures Mask(i % 8) as int == Pow2(7 - i % 8)
  {
    MaskWeight(i % 8);
    assert Test(Positions(data), i) <==> data[i] != 0;
  }

  lemma {:induction false} NonZeroOf(data: seq<bv8>, i: nat)
    requires i < |data| && data[i] != 0
    ensures |NonZero(data)| == Count(data, |data|) && Count(data, i) < Count(data, |data|)
    ensures NonZero(data)[Count(data, i)] == data[i]
  {
    assert data[..|data|] == data;
    NonZeroAt(data, |data|, i);
  }

  lemma SomeEncoded(data: seq<bv8>)
    requires |data| > 1 && |NonZero(data)| > 0
    ensures Encode(data) == Encode(Positions(data)) + NonZero(data)
  {
  }

  /** Where everything is in an encoding: the marks of the non-zero bytes, encoded in the same way, and
      behind them those bytes in their order. */
  lemma {:induction false} EncodingLayout(data: seq<bv8>, i: nat)
    requires i < |data| && |data| > 1 && data[i] != 0
    ensures LaidOut(Encode(data), Encode(Positions(data)), Count(data, |data|), Count(data, i), data[i])
  {
    NonZeroOf(data, i);
    SomeEncoded(data);
    Behind(Encode(Positions(data)), NonZero(data), Count(data, i));
  }

  method BitsetEncodeBytes(data: seq<bv8>) returns (out: seq<bv8>)
    ensures out == Encode(data)
    decreases |data|
  {
    if |data| == 0 {
      return [];
    }
    if |data| == 1 {
      if data[0] == 0 {
        return [];
      }
      return data;
    }
    var nonZeroBitset := new bv8[(|data| + 7) / 8](_ => 0);
    var nonZeroBytes := GatherInto(nonZeroBitset, data);
    if |nonZeroBytes| == 0 {
      return [];
    }
    var prefix := BitsetEncodeBytes(nonZeroBitset[..]);
    out := prefix + nonZeroBytes;
  }

  /** A bit vector with bit `i` set. */
  function WithBit(bits: seq<bv8>, i: nat): (r: seq<bv8>)
    requires i < 8 * |bits|
    ensures |r| == |bits|
  {
    bits[i / 8 := bits[i / 8] | Mask(i % 8)]
  }

  lemma WithBitTest(bits: seq<bv8>, i: nat, k: nat)
    requires i < 8 * |bits| && k < 8 * |bits|
    ensures Test(WithBit(bits, i), k) <==> k == i || Test(bits, k)
  {
    if i / 8 == k / 8 {
      SetBit(bits[i / 8], i % 8, k % 8);
    }
  }

  /** `bits` marks the non-zero bytes among the first `n`. */
  ghost predicate MarksBelow(bits: seq<bv8>, data: seq<bv8>, n: nat)
    requires n <= |data|
  {
    forall k :: 0 <= k < 8 * |bits| ==> (Test(bits, k) <==> k < n && data[k] != 0)
  }

  lemma MarkNext(bits: seq<bv8>, data: seq<bv8>, n: nat)
    requires n < |data| && n < 8 * |bits| && MarksBelow(bits, data, n)
    ensures MarksBelow(if data[n] != 0 then WithBit(bits, n) else bits, data, n + 1)
  {
    if data[n] != 0 {
      forall k | 0 <= k < 8 * |bits| ensures Test(WithBit(bits, n), k) <==> k < n + 1 && data[k] != 0 {
        WithBitTest(bits, n, k);
      }
    }
  }

  lemma ZeroMarks(bits: seq<bv8>, data: seq<bv8>)
    requires forall k :: 0 <= k < |bits| ==> bits[k] == 0
    ensures MarksBelow(bits, data, 0)
  {
  }

  /** Sets the bit of byte `i`, which is not zero. */
  method SetMark(nonZeroBitset: array<bv8>, i: nat, ghost data: seq<bv8>)
    requires i < |data| && i < 8 * nonZeroBitset.Length && data[i] != 0
    requires MarksBelow(nonZeroBitset[..], data, i)
    modifies nonZeroBitset
    ensures MarksBelow(nonZeroBitset[..], data, i + 1)
  {
    ghost var before := nonZeroBitset[..];
    MarkNext(before, data, i);
    nonZeroBitset[i / 8] := nonZeroBitset[i / 8] | Mask(i % 8);
    assert nonZeroBitset[..] == WithBit(before, i);
  }

  lemma NonZeroNext(data: seq<bv8>, n: nat)
    requires n < |data|
    ensures NonZero(data[..n + 1]) == NonZero(data[..n]) + if data[n] != 0 then [data[n]] else []
  {
    assert data[..n + 1][..n] == data[..n];
  }

  /** Sets the bit of every non-zero byte and gathers those bytes. */
  method GatherInto(nonZeroBitset: array<bv8>, data: seq<bv8>) returns (nonZeroBytes: seq<bv8>)
    requires nonZeroBitset.Length == (|data| + 7) / 8
    requires forall k :: 0 <= k < nonZeroBitset.Length ==> nonZeroBitset[k] == 0
    modifies nonZeroBitset
    ensures nonZeroBitset[..] == Positions(data) && nonZeroBytes == NonZero(data)
  {
    ZeroMarks(nonZeroBitset[..], data);
    nonZeroBytes := [];
    for i := 0 to |data|
      invariant MarksBelow(nonZeroBitset[..], data, i)
      invariant nonZeroBytes == NonZero(data[..i])
    {
      NonZeroNext(data, i);
      if data[i] != 0 {
        nonZeroBytes := nonZeroBytes + [data[i]];
        SetMark(nonZeroBitset, i, data);
      } else {
        MarkNext(nonZeroBitset[..], data, i);
      }
    }
    assert data[..|data|] == data;
    MarksUnique(nonZeroBitset[..], data);
  }

  // ----- decoding

  /** The bits of a vector, in order. */
  function Unpack(bits: seq<bv8>): (marks: seq<bool>)
    ensures |marks| == 8 * |bits|
  {
    seq(8 * |bits|, i requires 0 <= i < 8 * |bits| => Test(bits, i))
  }

  /** Distributes input bytes over the marked positions from `i` on; `out` is what precedes them. */
  function Distribute(marks: seq<bool>, data: seq<bv8>, ptr: nat, out: seq<bv8>, target: nat, i: nat)
    : (r: Result<(seq<bv8>, nat)>)
    requires i <= |marks| && ptr <= |data| && target <= |marks|
    requires |out| == if i < target then i else target
    ensures r.Ok? ==> |r.value.0| == target && ptr <= r.value.1 <= |data|
    decreases |marks| - i
  {
    if i == |marks| then Ok((out, ptr))
    else if !marks[i] then
      Distribute(marks, data, ptr, if i < target then out + [0] else out, target, i + 1)
    else if ptr >= |data| then Err(MissingData)
    else if i >= target then Err(ExceededTarget)
    else if data[ptr] == 0 then Err(ZeroContent)
    else Distribute(marks, data, ptr + 1, out + [data[ptr]], target, i + 1)
  }

  function Blank(n: nat): seq<bv8> {
    seq(n, _ => 0)
  }

  /** Decodes a prefix of the input; returns the data and the number of bytes consumed. */
  function DecodePartial(data: seq<bv8>, target: nat): (r: Result<(seq<bv8>, nat)>)
    ensures r.Ok? ==> |r.value.0| == target && r.value.1 <= |data|
    decreases target
  {
    if target == 0 then Ok(([], 0))
    else if |data| == 0 then Ok((Blank(target), 0))
    else if target == 1 then Ok(([data[0]], if data[0] != 0 then 1 else 0))
    else
      var bits := DecodePartial(data, (target + 7) / 8);
      if bits.Err? then bits
      else Distribute(Unpack(bits.value.0), data, bits.value.1, [], target, 0)
  }

  // ----- which error decoding reports

  /** How many of the first `k` positions are marked. */
  function Rank(marks: seq<bool>, k: nat): (c: nat)
    requires k <= |marks|
    ensures c <= k
  {
    if k == 0 then 0 else Rank(marks, k - 1) + if marks[k - 1] then 1 else 0
  }

  /** The content byte of marked position `k` is there, has a place to go and is not zero. */
  predicate Good(marks: seq<bool>, data: seq<bv8>, ptr: nat, target: nat, k: nat)
    requires k < |marks|
  {
    ptr + Rank(marks, k) < |data| && k < target && data[ptr + Rank(marks, k)] != 0
  }

  ghost predicate GoodBelow(marks: seq<bool>, data: seq<bv8>, ptr: nat, target: nat, n: nat)
    requires n <= |marks|
  {
    forall k :: 0 <= k < n && marks[k] ==> Good(marks, data, ptr, target, k)
  }

  /** What is wrong with position `k`; a missing byte counts before a missing place, and that before a zero. */
  ghost predicate Fails(marks: seq<bool>, data: seq<bv8>, ptr: nat, target: nat, k: nat, e: Error) {
    && k < |marks| && marks[k] && GoodBelow(marks, data, ptr, target, k)
    && match e
       case MissingData => ptr + Rank(marks, k) >= |data|
       case ExceededTarget => ptr + Rank(marks, k) < |data| && k >= target
       case ZeroContent => ptr + Rank(marks, k) < |data| && k < target && data[ptr + Rank(marks, k)] == 0
       case UnreferencedData => false
  }

  /** The outcome `r`: no position is wrong, or the error is that of the first one that is. */
  ghost predicate FirstFailure(r: Result<(seq<bv8>, nat)>, marks: seq<bool>, data: seq<bv8>, ptr: nat, target: nat) {
    match r
    case Ok(_) => GoodBelow(marks, data, ptr, target, |marks|)
    case Err(e) => exists k :: 0 <= k && Fails(marks, data, ptr, target, k, e)
  }

  lemma RankNext(marks: seq<bool>, data: seq<bv8>, ptr: nat, target: nat, i: nat)
    requires i < |marks| && GoodBelow(marks, data, ptr, target, i) && (marks[i] ==> Good(marks, data, ptr, target, i))
    ensures Rank(marks, i + 1) == Rank(marks, i) + (if marks[i] then 1 else 0)
    ensures GoodBelow(marks, data, ptr, target, i + 1)
  {
  }

  lemma {:induction false} DistributeFails(marks: seq<bool>, data: seq<bv8>, ptr: nat, out: seq<bv8>, target: nat,
                                           i: nat)
    requires i <= |marks| && ptr + Rank(marks, i) <= |data| && target <= |marks|
    requires |out| == (if i < target then i else target) && GoodBelow(marks, data, ptr, target, i)
    ensures FirstFailure(Distribute(marks, data, ptr + Rank(marks, i), out, target, i), marks, data, ptr, target)
    decreases |marks| - i
  {
    if i < |marks| {
      if !marks[i] {
        RankNext(marks, data, ptr, target, i);
        DistributeFails(marks, data, ptr, if i < target then out + [0] else out, target, i + 1);
      } else if Good(marks, data, ptr, target, i) {
        RankNext(marks, data, ptr, target, i);
        DistributeFails(marks, data, ptr, out + [data[ptr + Rank(marks, i)]], target, i + 1);
      } else {
        var r := Distribute(marks, data, ptr + Rank(marks, i), out, target, i);
        assert Fails(marks, data, ptr, target, i, r.error);
      }
    }
  }

  /** Behind bits that decode, the error is that of the first marked position whose content byte is
      missing, has no place or is zero; without such a position there is none. */
  lemma {:induction false} DecodeFails(data: seq<bv8>, target: nat)
    requires data != [] && target > 1 && DecodePartial(data, (target + 7) / 8).Ok?
    ensures var (bits, ptr) := DecodePartial(data, (target + 7) / 8).value;
            FirstFailure(DecodePartial(data, target), Unpack(bits), data, ptr, target)
  {
    var (bits, ptr) := DecodePartial(data, (target + 7) / 8).value;
    assert Rank(Unpack(bits), 0) == 0;
    DistributeFails(Unpack(bits), data, ptr, [], target, 0);
  }

  method BitsetDecodePartialBytes(data: seq<bv8>, target: nat) returns (r: Result<(seq<bv8>, nat)>)
    ensures r == DecodePartial(data, target)
    decreases target
  {
    if target == 0 {
      return Ok(([], 0));
    }
    var decomp := new bv8[target](_ => 0);
    if |data| == 0 {
      assert decomp[..] == Blank(target);
      return Ok((decomp[..], 0));
    }
    if target == 1 {
      decomp[0] := data[0];
      assert decomp[..] == [data[0]];
      if data[0] != 0 {
        return Ok((decomp[..], 1));
      }
      return Ok((decomp[..], 0));
    }
    var inner := BitsetDecodePartialBytes(data, (target + 7) / 8);
    if inner.Err? {
      return inner;
    }
    r := DistributeInto(decomp, inner.value.0, data, inner.value.1);
  }

  method DistributeInto(decomp: array<bv8>, bits: seq<bv8>, data: seq<bv8>, start: nat)
    returns (r: Result<(seq<bv8>, nat)>)
    requires start <= |data| && decomp.Length <= 8 * |bits| && forall i :: 0 <= i < decomp.Length ==> decomp[i] == 0
    modifies decomp
    ensures r == Distribute(Unpack(bits), data, start, [], decomp.Length, 0)
  {
    var ptr: nat, i, target := start, 0, decomp.Length;
    ghost var marks := Unpack(bits);
    ghost var goal := Distribute(marks, data, start, [], target, 0);
    while i < 8 * |bits|
      invariant i <= 8 * |bits| && ptr <= |data|
      invariant forall k :: i <= k < target ==> decomp[k] == 0
      invariant goal == Distribute(marks, data, ptr, decomp[..if i < target then i else target], target, i)
    {
      ghost var out := decomp[..if i < target then i else target];
      var marked := Test(bits, i);
      assert marked == marks[i];
      if marked {
        if ptr >= |data| {
          return Err(MissingData);
        }
        if i >= target {
          return Err(ExceededTarget);
        }
        if data[ptr] == 0 {
          return Err(ZeroContent);
        }
        decomp[i] := data[ptr];
        assert decomp[..i + 1] == out + [data[ptr]];
        ptr := ptr + 1;
      } else if i < target {
        assert decomp[..i + 1] == out + [0];
      }
      i := i + 1;
    }
    assert decomp[..target] == decomp[..];
    r := Ok((decomp[..], ptr));
  }

  // ----- the code is uniquely decodable and canonical

  /** The non-zero bytes up to a position come first among all of them. */
  lemma {:induction false} NonZeroPrefix(data: seq<bv8>, n: nat)
    requires n <= |data|
    ensures NonZero(data[..n]) <= NonZero(data)
    ensures n < |data| && data[n] != 0 ==>
              |NonZero(data[..n])| < |NonZero(data)| && NonZero(data)[|NonZero(data[..n])|] == data[n]
  {
    if n == |data| {
      assert data[..n] == data;
    } else {
      var m := |data| - 1;
      NonZeroPrefix(data[..m], n);
      assert data[..m][..n] == data[..n];
    }
  }

  /** `marks` tells the non-zero bytes of `d`. */
  ghost predicate Tells(marks: seq<bool>, d: seq<bv8>) {
    |d| <= |marks| && forall k :: 0 <= k < |marks| ==> (marks[k] <==> k < |d| && d[k] != 0)
  }

  /** Distributing the non-zero bytes of `d` over its own marks restores `d`. */
  lemma {:induction false} DistributeRestores(marks: seq<bool>, d: seq<bv8>, data: seq<bv8>, base: nat, i: nat)
    requires base + |NonZero(d)| <= |data| && forall k :: 0 <= k < |NonZero(d)| ==> data[base + k] == NonZero(d)[k]
    requires Tells(marks, d) && i <= |marks|
    ensures var n := if i < |d| then i else |d|;
            |NonZero(d[..n])| <= |NonZero(d)| &&
            Distribute(marks, data, base + |NonZero(d[..n])|, d[..n], |d|, i) == Ok((d, base + |NonZero(d)|))
    decreases |marks| - i
  {
    var n := if i < |d| then i else |d|;
    NonZeroPrefix(d, n);
    if i == |marks| {
      assert d[..n] == d;
    } else {
      DistributeRestores(marks, d, data, base, i + 1);
      if i < |d| {
        RestoreStep(d, data, base, i);
      }
    }
  }

  lemma {:induction false} RestoreStep(d: seq<bv8>, data: seq<bv8>, base: nat, i: nat)
    requires base + |NonZero(d)| <= |data| && forall k :: 0 <= k < |NonZero(d)| ==> data[base + k] == NonZero(d)[k]
    requires i < |d|
    ensures d[..i + 1] == d[..i] + [d[i]]
    ensures |NonZero(d[..i + 1])| == |NonZero(d[..i])| + if d[i] != 0 then 1 else 0
    ensures d[i] != 0 ==> |NonZero(d[..i])| < |NonZero(d)| && data[base + |NonZero(d[..i])|] == d[i]
  {
    NonZeroPrefix(d, i);
    NonZeroNext(d, i);
  }

  lemma {:induction false} DistributeBehind(marks: seq<bool>, d: seq<bv8>, prefix: seq<bv8>, suffix: seq<bv8>)
    requires Tells(marks, d)
    ensures Distribute(marks, prefix + (NonZero(d) + suffix), |prefix|, [], |d|, 0) == Ok((d, |prefix| + |NonZero(d)|))
  {
    assert d[..0] == [];
    DistributeRestores(marks, d, prefix + (NonZero(d) + suffix), |prefix|, 0);
  }

  /** Decoding an encoding, followed by anything, yields the data and consumes the encoding. */
  lemma {:induction false} DecodeEncode(d: seq<bv8>, suffix: seq<bv8>)
    requires NonZero(d) != []
    ensures DecodePartial(Encode(d) + suffix, |d|) == Ok((d, |Encode(d)|))
    decreases |d|
  {
    if |d| == 1 {
      DecodeOneByte(d, suffix);
    } else {
      var nz, bits := NonZero(d), Positions(d);
      var data, size: nat := Encode(d) + suffix, |Encode(bits)|;
      assert data == Encode(bits) + (nz + suffix);
      assert DecodePartial(data, (|d| + 7) / 8) == Ok((bits, size)) by {
        MarksNonZero(d);
        DecodeEncode(bits, nz + suffix);
      }
      DecodeStep(data, d, Encode(bits), suffix);
    }
  }

  lemma {:induction false} DecodeOneByte(d: seq<bv8>, suffix: seq<bv8>)
    requires |d| == 1 && NonZero(d) != []
    ensures DecodePartial(Encode(d) + suffix, 1) == Ok((d, |Encode(d)|))
  {
    assert d[..0] == [];
    assert d == [d[0]];
  }

  lemma {:induction false} DecodeStep(data: seq<bv8>, d: seq<bv8>, prefix: seq<bv8>, suffix: seq<bv8>)
    requires |d| >= 2 && NonZero(d) != [] && data == prefix + (NonZero(d) + suffix)
    requires DecodePartial(data, (|d| + 7) / 8) == Ok((Positions(d), |prefix|))
    ensures DecodePartial(data, |d|) == Ok((d, |prefix| + |NonZero(d)|))
  {
    UnpackTells(d);
    DistributeBehind(Unpack(Positions(d)), d, prefix, suffix);
  }

  lemma UnpackTells(d: seq<bv8>)
    ensures Tells(Unpack(Positions(d)), d)
  {
  }

  /** Data with a non-zero byte has a mark. */
  lemma {:induction false} MarksNonZero(d: seq<bv8>)
    requires NonZero(d) != []
    ensures NonZero(Positions(d)) != []
  {
    var i := SomeNonZero(d);
    assert Test(Positions(d), i);
    NonZeroPrefix(Positions(d), i / 8);
  }

  lemma {:induction false} SomeNonZero(d: seq<bv8>) returns (i: nat)
    requires NonZero(d) != []
    ensures i < |d| && d[i] != 0
  {
    if d[|d| - 1] != 0 {
      i := |d| - 1;
    } else {
      i := SomeNonZero(d[..|d| - 1]);
    }
  }

  lemma {:induction false} NonZeroSnoc(out: seq<bv8>, b: bv8)
    ensures NonZero(out + [b]) == NonZero(out) + if b != 0 then [b] else []
  {
    assert (out + [b])[..|out|] == out;
  }

  /** A successful distribution adds exactly the consumed bytes as non-zero ones. */
  lemma {:induction false} DistributeContent(marks: seq<bool>, data: seq<bv8>, ptr: nat, out: seq<bv8>, target: nat,
                                             i: nat)
    requires i <= |marks| && ptr <= |data| && target <= |marks|
    requires |out| == if i < target then i else target
    requires Distribute(marks, data, ptr, out, target, i).Ok?
    ensures var (o, n) := Distribute(marks, data, ptr, out, target, i).value;
            NonZero(o) == NonZero(out) + data[ptr..n]
    decreases |marks| - i
  {
    if i < |marks| {
      if !marks[i] {
        var out' := if i < target then out + [0] else out;
        NonZeroSnoc(out, 0);
        DistributeContent(marks, data, ptr, out', target, i + 1);
      } else {
        NonZeroSnoc(out, data[ptr]);
        DistributeContent(marks, data, ptr + 1, out + [data[ptr]], target, i + 1);
        var n := Distribute(marks, data, ptr, out, target, i).value.1;
        assert data[ptr..n] == [data[ptr]] + data[ptr + 1..n];
      }
    }
  }

  /** It keeps what precedes, and puts bytes exactly at the marked positions. */
  lemma {:induction false} DistributeMarked(marks: seq<bool>, data: seq<bv8>, ptr: nat, out: seq<bv8>, target: nat,
                                            i: nat)
    requires i <= |marks| && ptr <= |data| && target <= |marks|
    requires |out| == if i < target then i else target
    requires Distribute(marks, data, ptr, out, target, i).Ok?
    ensures var (o, n) := Distribute(marks, data, ptr, out, target, i).value;
            && (forall k :: 0 <= k < |out| ==> o[k] == out[k])
            && (forall k :: i <= k < |marks| ==> (marks[k] <==> k < target && o[k] != 0))
    decreases |marks| - i
  {
    if i < |marks| {
      var out' := if i >= target then out else if marks[i] then out + [data[ptr]] else out + [0];
      DistributeMarked(marks, data, if marks[i] then ptr + 1 else ptr, out', target, i + 1);
      assert i < target ==> out'[i] == if marks[i] then data[ptr] else 0;
    }
  }

  /** The code is canonical: what decodes to some data is the encoding of that data. */
  lemma {:induction false} DecodeCanonical(data: seq<bv8>, target: nat)
    requires DecodePartial(data, target).Ok?
    ensures var (o, n) := DecodePartial(data, target).value; Encode(o) == data[..n]
    decreases target
  {
    var (o, n) := DecodePartial(data, target).value;
    if target == 0 {
    } else if |data| == 0 {
      ZerosEncode(target);
    } else if target == 1 {
      assert data[..1] == [data[0]];
    } else {
      var (bits, ptr) := DecodePartial(data, (target + 7) / 8).value;
      DecodeCanonical(data, (target + 7) / 8);
      CanonicalStep(data, bits, ptr, target);
    }
  }

  lemma {:induction false} CanonicalStep(data: seq<bv8>, bits: seq<bv8>, ptr: nat, target: nat)
    requires target >= 2 && |bits| == (target + 7) / 8 && ptr <= |data| && Encode(bits) == data[..ptr]
    requires Distribute(Unpack(bits), data, ptr, [], target, 0).Ok?
    ensures var (o, n) := Distribute(Unpack(bits), data, ptr, [], target, 0).value; Encode(o) == data[..n]
  {
    var (o, n) := Distribute(Unpack(bits), data, ptr, [], target, 0).value;
    DistributeContent(Unpack(bits), data, ptr, [], target, 0);
    DistributeMarked(Unpack(bits), data, ptr, [], target, 0);
    TellsMarks(bits, o);
    EncodeOfParts(data, bits, ptr, o, n);
  }

  lemma {:induction false} EncodeOfParts(data: seq<bv8>, bits: seq<bv8>, ptr: nat, o: seq<bv8>, n: nat)
    requires ptr <= n <= |data| && |o| >= 2 && Marks(bits, o)
    requires Encode(bits) == data[..ptr] && NonZero(o) == data[ptr..n]
    ensures Encode(o) == data[..n]
  {
    MarksUnique(bits, o);
    if NonZero(o) == [] {
      NoMarks(o);
    } else {
      assert data[..n] == data[..ptr] + data[ptr..n];
    }
  }

  lemma TellsMarks(bits: seq<bv8>, o: seq<bv8>)
    requires |bits| == (|o| + 7) / 8 && Tells(Unpack(bits), o)
    ensures Marks(bits, o)
  {
    forall i | 0 <= i < 8 * |bits| ensures Test(bits, i) <==> i < |o| && o[i] != 0 {
      assert Unpack(bits)[i] == Test(bits, i);
    }
  }

  lemma {:induction false} NonZeroOfZeros(d: seq<bv8>)
    requires forall i :: 0 <= i < |d| ==> d[i] == 0
    ensures NonZero(d) == [] && Encode(d) == []
  {
    if d != [] {
      NonZeroOfZeros(d[..|d| - 1]);
    }
  }

  lemma ZerosEncode(n: nat)
    ensures Encode(Blank(n)) == []
  {
    NonZeroOfZeros(Blank(n));
  }

  /** Data without a non-zero byte has no mark, so its bit vector encodes to nothing. */
  lemma {:induction false} NoMarks(d: seq<bv8>)
    requires NonZero(d) == []
    ensures Encode(Positions(d)) == []
  {
    var bits := Positions(d);
    forall i | 0 <= i < 8 * |bits| ensures !Test(bits, i) {
      if i < |d| {
        NonZeroPrefix(d, i);
      }
    }
    SameVectorZero(bits);
    NonZeroOfZeros(bits);
  }

  lemma SameVectorZero(bits: seq<bv8>)
    requires forall i :: 0 <= i < 8 * |bits| ==> !Test(bits, i)
    ensures forall k :: 0 <= k < |bits| ==> bits[k] == 0
  {
    ZeroMarks(Blank(|bits|), []);
    SameVector(bits, Blank(|bits|));
  }

  // ----- the exported operations

  /** Never longer than the input, and enough to restore it. */
  method CompressBytes(data: seq<bv8>) returns (out: seq<bv8>)
    ensures |out| <= |data| && DecompressBytes(out, |data|) == Ok(data)
    ensures out == if |Encode(data)| < |data| then Encode(data) else data
  {
    out := BitsetEncodeBytes(data);
    RoundTrip(data);
    if |out| < |data| {
      return out;
    }
    out := data;
  }

  function BitsetDecodeBytes(data: seq<bv8>, target: nat): (r: Result<seq<bv8>>) {
    match DecodePartial(data, target)
    case Err(e) => Err(e)
    case Ok((out, size)) => if size != |data| then Err(UnreferencedData) else Ok(out)
  }

  function DecompressBytes(data: seq<bv8>, target: nat): (r: Result<seq<bv8>>) {
    if |data| > target then Err(ExceededTarget)
    else if |data| == target then Ok(data)
    else BitsetDecodeBytes(data, target)
  }

  /** Decompression undoes compression, for every byte string. */
  lemma {:induction false} RoundTrip(data: seq<bv8>)
    ensures DecompressBytes(if |Encode(data)| < |data| then Encode(data) else data, |data|) == Ok(data)
  {
    var out := Encode(data);
    if |out| < |data| {
      if NonZero(data) == [] {
        AllZero(data);
      } else {
        DecodeEncode(data, []);
        assert out + [] == out;
      }
    }
  }

  lemma {:induction false} AllZero(d: seq<bv8>)
    requires NonZero(d) == []
    ensures d == Blank(|d|)
  {
    if d != [] {
      AllZero(d[..|d| - 1]);
    }
  }

  /** Strict decoding accepts exactly the encodings of data of the target length. */
  lemma {:induction false} DecodesExactlyEncodings(x: seq<bv8>, target: nat, d: seq<bv8>)
    requires |d| == target
    ensures BitsetDecodeBytes(x, target) == Ok(d) <==> x == Encode(d)
  {
    if BitsetDecodeBytes(x, target) == Ok(d) {
      DecodeCanonical(x, target);
      assert x[..|x|] == x;
    }
    if x == Encode(d) {
      if NonZero(d) == [] {
        AllZero(d);
        NonZeroOfZeros(d);
      } else {
        DecodeEncode(d, []);
        assert x + [] == x;
      }
    }
  }
}
