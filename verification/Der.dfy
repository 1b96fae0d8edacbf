/**
The DER encoding of ECDSA signatures: two integers in a sequence, each with the shortest length
octets and the shortest content (sections 8.1.3 and 8.3 of X.690).
 */
module Der {
  import opened Bytes
  import opened Options
  import Scalars

  const SEQUENCE: byte := 0x30
  const INTEGER: byte := 0x02

  /** Input lengths fit a signed 32-bit word. */
  const MAX_INPUT := 0x8000_0000

  // ----- what is accepted

  /** Length octets at `p`: the length they give and where they end. */
  ghost function LengthAt(sig: seq<byte>, p: nat): (r: Option<(nat, nat)>)
    ensures r.Some? ==> p < r.value.1 <= |sig|
  {
    if p >= |sig| then None
    else if sig[p] < 0x80 then Some((sig[p] as int, p + 1))
    else
      var k := sig[p] as int - 0x80;
      var q := p + 1 + k;
      if k == 0 || k == 0x7f || q > |sig| || sig[p + 1] == 0 || k > 8 then None
      else
        var len := FromBytes(sig[p + 1..q]);
        if len < 128 || len > |sig| - q then None else Some((len, q))
  }

  /** Content octets of an integer that could not be shorter. */
  predicate Shortest(c: seq<byte>) {
    && c != []
    && !(|c| > 1 && c[0] == 0 && c[1] < 0x80)
    && !(|c| > 1 && c[0] == 0xff && c[1] >= 0x80)
  }

  /** An integer at `p`: its content octets and where they end. */
  ghost function IntegerAt(sig: seq<byte>, p: nat): (r: Option<(seq<byte>, nat)>)
    ensures r.Some? ==> p < r.value.1 <= |sig| && r.value.0 != []
  {
    if p >= |sig| || sig[p] != INTEGER || LengthAt(sig, p + 1).None? then None
    else
      var (len, q) := LengthAt(sig, p + 1).value;
      if q + len > |sig| || !Shortest(sig[q..q + len]) then None else Some((sig[q..q + len], q + len))
  }

  /** The content octets of the two integers of a signature. */
  ghost function Contents(sig: seq<byte>): (r: Option<(seq<byte>, seq<byte>)>)
    ensures r.Some? ==> r.value.0 != [] && r.value.1 != []
  {
    if |sig| == 0 || sig[0] != SEQUENCE || LengthAt(sig, 1).None? then None
    else
      var (len, q) := LengthAt(sig, 1).value;
      if q + len != |sig| || IntegerAt(sig, q).None? then None
      else
        var (r, m) := IntegerAt(sig, q).value;
        if IntegerAt(sig, m).None? then None
        else
          var (s, end) := IntegerAt(sig, m).value;
          if end != |sig| then None else Some((r, s))
  }

  /** Not negative, and below the group order. */
  predicate InRange(c: seq<byte>)
    requires c != []
  {
    c[0] < 0x80 && FromBytes(c) < Scalars.N
  }

  /** The scalar an integer stands for; one out of range stands for 0. */
  function Scalar(c: seq<byte>): nat
    requires c != []
  {
    if InRange(c) then FromBytes(c) else 0
  }

  // ----- the same as a grammar

  /** The shortest definite length octets of `len` (section 8.1.3 of X.690). */
  ghost predicate IsLength(o: seq<byte>, len: nat) {
    if len < 0x80 then o == [len]
    else 2 <= |o| < 0x80 && o[0] == 0x80 + |o| - 1 && o[1] != 0 && FromBytes(o[1..]) == len
  }

  /** An integer: tag, length and content octets, both as short as they can be. */
  ghost predicate IsInteger(o: seq<byte>, l: seq<byte>, c: seq<byte>) {
    o == [INTEGER] + l + c && IsLength(l, |c|) && Shortest(c)
  }

  /** Length octets are accepted exactly when they are the shortest of a length that fits the input. */
  lemma LengthIff(sig: seq<byte>, p: nat, len: nat, q: nat)
    requires |sig| < MAX_INPUT && p <= q && q + len <= |sig|
    ensures LengthAt(sig, p) == Some((len, q)) <==> IsLength(sig[p..q], len)
  {
    var o := sig[p..q];
    if LengthAt(sig, p) == Some((len, q)) {
      assert o[0] == sig[p];
      if sig[p] >= 0x80 {
        assert o[1..] == sig[p + 1..q] && o[1] == sig[p + 1];
      }
    }
    if IsLength(o, len) && len >= 0x80 {
      assert o[1..] == sig[p + 1..q] && o[1] == sig[p + 1] && o[0] == sig[p];
      if |o| > 9 {
        ManyOctets(o[1..]);
      }
    }
  }

  /** More than eight octets make a length that no input has. */
  lemma ManyOctets(b: seq<byte>)
    requires |b| > 8 && b[0] != 0
    ensures FromBytes(b) >= MAX_INPUT
  {
    LeadingByte(b);
    PowGrows(4, |b| - 1);
    assert Pow256(4) == 0x1_0000_0000 by {
      assert Pow256(2) == 0x1_0000;
    }
  }

  lemma IntegerIff(sig: seq<byte>, p: nat, c: seq<byte>, q: nat)
    requires |sig| < MAX_INPUT && p <= q <= |sig|
    ensures IntegerAt(sig, p) == Some((c, q)) <==> exists l :: IsInteger(sig[p..q], l, c)
  {
    if IntegerAt(sig, p) == Some((c, q)) {
      var l := IntegerOctets(sig, p, c, q);
    }
    if l :| IsInteger(sig[p..q], l, c) {
      IntegerAccepted(sig, p, l, c, q);
    }
  }

  lemma IntegerOctets(sig: seq<byte>, p: nat, c: seq<byte>, q: nat) returns (l: seq<byte>)
    requires |sig| < MAX_INPUT && IntegerAt(sig, p) == Some((c, q))
    ensures q <= |sig| && p <= q && IsInteger(sig[p..q], l, c)
  {
    var m := LengthAt(sig, p + 1).value.1;
    l := sig[p + 1..m];
    LengthIff(sig, p + 1, |c|, m);
    ThreeParts(sig, p, m, q);
  }

  lemma ThreeParts(sig: seq<byte>, p: nat, m: nat, q: nat)
    requires p < m <= q <= |sig|
    ensures sig[p..q] == [sig[p]] + sig[p + 1..m] + sig[m..q]
  {
  }

  lemma IntegerAccepted(sig: seq<byte>, p: nat, l: seq<byte>, c: seq<byte>, q: nat)
    requires |sig| < MAX_INPUT && p <= q <= |sig| && IsInteger(sig[p..q], l, c)
    ensures IntegerAt(sig, p) == Some((c, q))
  {
    var o, m := sig[p..q], p + 1 + |l|;
    ThreeParts(sig, p, m, q);
    assert o[1..1 + |l|] == l && o[1 + |l|..] == c && o[0] == INTEGER;
    assert sig[p + 1..m] == o[1..1 + |l|] && sig[m..q] == o[1 + |l|..] && sig[p] == o[0];
    LengthIff(sig, p + 1, |c|, m);
  }

  /** A signature: one sequence, with the shortest length octets, of two integers and nothing else. */
  ghost predicate IsSignature(sig: seq<byte>, l: seq<byte>, a: seq<byte>, lr: seq<byte>, r: seq<byte>, b: seq<byte>,
                              ls: seq<byte>, s: seq<byte>)
  {
    IsInteger(a, lr, r) && IsInteger(b, ls, s) && IsLength(l, |a| + |b|) && sig == [SEQUENCE] + l + (a + b)
  }

  /** Exactly the signatures of the grammar are accepted, with the contents they have there. */
  lemma SignatureIff(sig: seq<byte>, r: seq<byte>, s: seq<byte>)
    requires |sig| < MAX_INPUT
    ensures Contents(sig) == Some((r, s)) <==> exists l, a, lr, b, ls :: IsSignature(sig, l, a, lr, r, b, ls, s)
  {
    if Contents(sig) == Some((r, s)) {
      var l, a, lr, b, ls := AcceptedParts(sig, r, s);
    }
    if l, a, lr, b, ls :| IsSignature(sig, l, a, lr, r, b, ls, s) {
      PartsAccepted(sig, l, a, lr, r, b, ls, s);
    }
  }

  lemma AcceptedParts(sig: seq<byte>, r: seq<byte>, s: seq<byte>)
    returns (l: seq<byte>, a: seq<byte>, lr: seq<byte>, b: seq<byte>, ls: seq<byte>)
    requires |sig| < MAX_INPUT && Contents(sig) == Some((r, s))
    ensures IsSignature(sig, l, a, lr, r, b, ls, s)
  {
    var len, q, cr, m, cs := Parts(sig);
    LengthIff(sig, 1, len, q);
    lr := IntegerOctets(sig, q, r, m);
    ls := IntegerOctets(sig, m, s, |sig|);
    l, a, b := sig[1..q], sig[q..m], sig[m..|sig|];
    FourParts(sig, q, m);
  }

  lemma FourParts(sig: seq<byte>, q: nat, m: nat)
    requires 1 <= q <= m <= |sig|
    ensures sig == [sig[0]] + sig[1..q] + (sig[q..m] + sig[m..|sig|])
  {
  }

  lemma PartsAccepted(sig: seq<byte>, l: seq<byte>, a: seq<byte>, lr: seq<byte>, r: seq<byte>, b: seq<byte>,
                      ls: seq<byte>, s: seq<byte>)
    requires |sig| < MAX_INPUT && IsSignature(sig, l, a, lr, r, b, ls, s)
    ensures Contents(sig) == Some((r, s))
  {
    var q := 1 + |l|;
    var m := q + |a|;
    assert sig[1..q] == l && sig[q..m] == a && sig[m..|sig|] == b;
    LengthIff(sig, 1, |a| + |b|, q);
    IntegerIff(sig, q, r, m);
    IntegerIff(sig, m, s, |sig|);
  }

  /** Every scalar is below the order, and a scalar other than 0 is read from its own octets only. */
  lemma ScalarFromOwnOctets(c: seq<byte>)
    requires Shortest(c)
    ensures Scalar(c) < Scalars.N
    ensures Scalar(c) > 0 ==> IntegerBytes(Scalar(c)) == c
  {
    if InRange(c) {
      IntegerUnique(c);
    }
  }

  // ----- parsing

  method ReadLen(sig: seq<byte>, p: nat) returns (len: int, q: nat)
    requires |sig| < MAX_INPUT && p <= |sig|
    ensures len >= 0 <==> LengthAt(sig, p).Some?
    ensures len >= 0 ==> LengthAt(sig, p) == Some((len, q))
    ensures len < 0 ==> len == -1
  {
    q := p;
    if q >= |sig| {
      return -1, q;
    }
    var b1 := sig[q] as int;
    q := q + 1;
    if b1 == 0xff {
      return -1, q;
    }
    if b1 < 0x80 {
      return b1, q;
    }
    if b1 == 0x80 {
      return -1, q;
    }
    var lenleft := b1 - 0x80;
    if lenleft > |sig| - q {
      return -1, q;
    }
    if sig[q] == 0 {
      return -1, q;
    }
    if lenleft > 8 {
      return -1, q;
    }
    ghost var start, k := q, lenleft;
    var ret := 0;
    while lenleft > 0
      invariant 0 <= lenleft <= k && q == start + k - lenleft && start + k <= |sig|
      invariant ret == FromBytes(sig[start..q]) && ret + lenleft <= |sig| - q
      decreases lenleft
    {
      NextOctet(sig, start, q);
      ret := 256 * ret + sig[q] as int;
      if ret + lenleft > |sig| - q {
        LaterLengthsGrow(sig, start, q + 1, start + k);
        return -1, q;
      }
      q := q + 1;
      lenleft := lenleft - 1;
    }
    if ret < 128 {
      return -1, q;
    }
    return ret, q;
  }

  lemma NextOctet(sig: seq<byte>, start: nat, q: nat)
    requires start <= q < |sig|
    ensures FromBytes(sig[start..q + 1]) == 256 * FromBytes(sig[start..q]) + sig[q] as int
  {
    var b := sig[start..q + 1];
    assert b[..|b| - 1] == sig[start..q] && b[|b| - 1] == sig[q];
  }

  /** A number grows when more octets are read. */
  lemma {:induction false} LaterLengthsGrow(sig: seq<byte>, start: nat, q: nat, end: nat)
    requires start <= q <= end <= |sig|
    ensures FromBytes(sig[start..q]) <= FromBytes(sig[start..end])
    decreases end - q
  {
    if q < end {
      assert sig[start..end][..end - 1 - start] == sig[start..end - 1];
      LaterLengthsGrow(sig, start, q, end - 1);
    }
  }

  method ParseInteger(sig: seq<byte>, p: nat) returns (ok: bool, r: nat, q: nat)
    requires |sig| < MAX_INPUT && p <= |sig|
    ensures ok <==> IntegerAt(sig, p).Some?
    ensures ok ==> q == IntegerAt(sig, p).value.1 && r == Scalar(IntegerAt(sig, p).value.0)
    ensures q <= |sig|
  {
    r, q := 0, p;
    if q == |sig| || sig[q] != INTEGER {
      return false, 0, q;
    }
    var rlen;
    rlen, q := ReadLen(sig, q + 1);
    if rlen <= 0 || q + rlen > |sig| {
      return false, 0, p;
    }
    if sig[q] == 0 && rlen > 1 && sig[q + 1] < 0x80 {
      return false, 0, q;
    }
    if sig[q] == 0xff && rlen > 1 && sig[q + 1] >= 0x80 {
      return false, 0, q;
    }
    r := ScalarOf(sig[q..q + rlen]);
    return true, r, q + rlen;
  }

  /** Skips leading zeros, and reads at most 32 octets. */
  method ScalarOf(c: seq<byte>) returns (r: nat)
    requires c != []
    ensures r == Scalar(c)
  {
    var overflow := c[0] >= 0x80;
    var i := 0;
    while i < |c| && c[i] == 0
      invariant i <= |c| && c[..i] == Zeros(i)
    {
      i := i + 1;
    }
    assert c == Zeros(i) + c[i..];
    LeadingZeros(i, c[i..]);
    if |c| - i > 32 {
      TooLong(c[i..]);
      overflow := true;
    }
    if !overflow {
      var ra := Zeros(32 - (|c| - i)) + c[i..];
      LeadingZeros(32 - (|c| - i), c[i..]);
      r := FromBytes(ra);
      overflow := r >= Scalars.N;
    }
    if overflow {
      r := 0;
    }
  }

  lemma {:induction false} LeadingByte(b: seq<byte>)
    requires b != [] && b[0] > 0
    ensures FromBytes(b) >= Pow256(|b| - 1)
  {
    if |b| > 1 {
      LeadingByte(b[..|b| - 1]);
    }
  }

  lemma {:induction false} TooLong(b: seq<byte>)
    requires |b| > 32 && b[0] > 0
    ensures FromBytes(b) >= Scalars.N
  {
    LeadingByte(b);
    PowGrows(32, |b| - 1);
    Pow32();
  }

  lemma {:induction false} PowGrows(i: nat, j: nat)
    requires i <= j
    ensures Pow256(i) <= Pow256(j)
  {
    if i < j {
      PowGrows(i, j - 1);
    }
  }

  lemma {:induction false} PowAdd(a: nat, b: nat)
    ensures Pow256(a + b) == Pow256(a) * Pow256(b)
  {
    if a > 0 {
      PowAdd(a - 1, b);
      assert Pow256(a + b) == 256 * (Pow256(a - 1) * Pow256(b)) == Pow256(a) * Pow256(b);
    }
  }

  lemma Pow32()
    ensures Scalars.N < Pow256(32)
  {
    assert Pow256(4) == 0x1_0000_0000 by {
      assert Pow256(2) == 0x1_0000;
    }
    PowAdd(4, 4);
    PowAdd(8, 8);
    PowAdd(16, 16);
  }

  method ParseSignature(sig: seq<byte>) returns (ok: bool, r: nat, s: nat)
    requires |sig| < MAX_INPUT
    ensures ok <==> Contents(sig).Some?
    ensures ok ==> r == Scalar(Contents(sig).value.0) && s == Scalar(Contents(sig).value.1)
  {
    r, s := 0, 0;
    var q := 0;
    if |sig| == 0 || sig[0] != SEQUENCE {
      return false, 0, 0;
    }
    var rlen;
    rlen, q := ReadLen(sig, 1);
    if rlen < 0 || q + rlen > |sig| {
      return false, 0, 0;
    }
    if q + rlen != |sig| {
      return false, 0, 0;
    }
    ok, r, q := ParseInteger(sig, q);
    if !ok {
      return false, r, 0;
    }
    ok, s, q := ParseInteger(sig, q);
    if !ok {
      return false, r, s;
    }
    ok := q == |sig|;
  }

  // ----- serializing

  /** Drops a leading zero as long as the sign bit of the next octet is clear. */
  function Strip(b: seq<byte>): (c: seq<byte>)
    ensures |c| <= |b| && (b != [] ==> c != [])
  {
    if |b| > 1 && b[0] == 0 && b[1] < 0x80 then Strip(b[1..]) else b
  }

  /** The content octets of a scalar. */
  function IntegerBytes(x: nat): (c: seq<byte>)
    ensures 0 < |c| <= 33
  {
    Strip([0] + ToBytes(x, 32))
  }

  function Encoded(c: seq<byte>): seq<byte>
    requires 0 < |c| <= 33
  {
    [INTEGER, |c|] + c
  }

  function Serialized(r: nat, s: nat): (sig: seq<byte>)
    ensures |sig| == 6 + |IntegerBytes(r)| + |IntegerBytes(s)|
  {
    [SEQUENCE, 4 + |IntegerBytes(r)| + |IntegerBytes(s)|] + Encoded(IntegerBytes(r)) + Encoded(IntegerBytes(s))
  }

  method StripZeros(b: seq<byte>) returns (c: seq<byte>)
    requires b != []
    ensures c == Strip(b)
  {
    var i := 0;
    while |b| - i > 1 && b[i] == 0 && b[i + 1] < 0x80
      invariant i < |b| && Strip(b) == Strip(b[i..])
      decreases |b| - i
    {
      assert b[i..][1..] == b[i + 1..];
      i := i + 1;
    }
    c := b[i..];
  }

  /** Writes the signature into a buffer, if it is large enough; reports the size needed. */
  method SerializeSignature(sig: array<byte>, size0: nat, r: nat, s: nat) returns (ok: bool, size: nat)
    requires size0 <= sig.Length
    modifies sig
    ensures size == |Serialized(r, s)| && (ok <==> size <= size0)
    ensures ok ==> sig[..size] == Serialized(r, s) && sig[size..] == old(sig[size..])
    ensures !ok ==> sig[..] == old(sig[..])
  {
    var rp := StripZeros([0] + ToBytes(r, 32));
    var sp := StripZeros([0] + ToBytes(s, 32));
    size := 6 + |sp| + |rp|;
    if size0 < size {
      return false, size;
    }
    WriteSignature(sig, rp, sp);
    return true, size;
  }

  method WriteSignature(sig: array<byte>, rp: seq<byte>, sp: seq<byte>)
    requires 0 < |rp| <= 33 && 0 < |sp| <= 33 && 6 + |sp| + |rp| <= sig.Length
    modifies sig
    ensures var size := 6 + |sp| + |rp|;
            && sig[..size] == [SEQUENCE, 4 + |rp| + |sp|] + Encoded(rp) + Encoded(sp)
            && sig[size..] == old(sig[size..])
  {
    ghost var before := sig[..];
    sig[0] := SEQUENCE;
    sig[1] := 4 + |sp| + |rp|;
    ghost var s1 := sig[..];
    WriteInteger(sig, 2, rp);
    ghost var s2 := sig[..];
    WriteInteger(sig, 4 + |rp|, sp);
    WrittenParts(before, s1, s2, sig[..], rp, sp);
    assert sig[..][..6 + |sp| + |rp|] == sig[..6 + |sp| + |rp|] && sig[..][6 + |sp| + |rp|..] == sig[6 + |sp| + |rp|..];
    assert before[6 + |sp| + |rp|..] == old(sig[6 + |sp| + |rp|..]);
  }

  /** `s` with `part` written at `at`. */
  function Overwritten(s: seq<byte>, at: nat, part: seq<byte>): (r: seq<byte>)
    requires at + |part| <= |s|
    ensures |r| == |s|
  {
    s[..at] + part + s[at + |part|..]
  }

  lemma WrittenParts(s0: seq<byte>, s1: seq<byte>, s2: seq<byte>, s3: seq<byte>, rp: seq<byte>, sp: seq<byte>)
    requires 0 < |rp| <= 33 && 0 < |sp| <= 33 && 6 + |sp| + |rp| <= |s0|
    requires s1 == s0[0 := SEQUENCE][1 := 4 + |sp| + |rp|]
    requires s2 == Overwritten(s1, 2, Encoded(rp)) && s3 == Overwritten(s2, 4 + |rp|, Encoded(sp))
    ensures var size := 6 + |sp| + |rp|;
            && s3[..size] == [SEQUENCE, 4 + |rp| + |sp|] + Encoded(rp) + Encoded(sp)
            && s3[size..] == s0[size..]
  {
    var size, m := 6 + |sp| + |rp|, 4 + |rp|;
    assert s1[..2] == [SEQUENCE, 4 + |rp| + |sp|];
    assert s2[..m] == s1[..2] + Encoded(rp);
    assert s3[..size] == s2[..m] + Encoded(sp);
    assert s3[size..] == s2[size..] == s1[size..] == s0[size..];
  }

  method WriteInteger(sig: array<byte>, at: nat, c: seq<byte>)
    requires 0 < |c| <= 33 && at + 2 + |c| <= sig.Length
    modifies sig
    ensures sig[..] == Overwritten(old(sig[..]), at, Encoded(c))
  {
    sig[at] := INTEGER;
    sig[at + 1] := |c|;
    forall i | 0 <= i < |c| { sig[at + 2 + i] := c[i]; }
  }

  // ----- the codec is a bijection

  lemma {:induction false} StripKeeps(b: seq<byte>)
    requires b != [] && b[0] < 0x80
    ensures FromBytes(Strip(b)) == FromBytes(b) && Strip(b)[0] < 0x80 && Shortest(Strip(b))
  {
    if |b| > 1 && b[0] == 0 && b[1] < 0x80 {
      assert b == Zeros(1) + b[1..];
      LeadingZeros(1, b[1..]);
      StripKeeps(b[1..]);
    }
  }

  /** The content octets of a scalar are the shortest and give the scalar back. */
  lemma IntegerRoundTrip(x: nat)
    requires x < Scalars.N
    ensures var c := IntegerBytes(x); Shortest(c) && InRange(c) && Scalar(c) == x
  {
    Pow32();
    BytesOfNumber(x, 32);
    var b := [0] + ToBytes(x, 32);
    assert b == Zeros(1) + ToBytes(x, 32);
    LeadingZeros(1, ToBytes(x, 32));
    StripKeeps(b);
  }

  lemma {:induction false} StripPadded(k: nat, c: seq<byte>)
    requires Shortest(c) && c[0] < 0x80
    ensures Strip(Zeros(k) + c) == c
  {
    var b := Zeros(k) + c;
    if k == 0 {
      assert b == c;
    } else {
      assert b[1..] == Zeros(k - 1) + c;
      StripPadded(k - 1, c);
    }
  }

  lemma InRangeIsShort(c: seq<byte>)
    requires Shortest(c) && InRange(c)
    ensures |c| <= 33 && (|c| == 33 ==> c[0] == 0)
  {
    if c[0] > 0 {
      if |c| > 32 {
        TooLong(c);
      }
    } else if |c| > 33 {
      assert c == Zeros(1) + c[1..];
      LeadingZeros(1, c[1..]);
      TooLong(c[1..]);
    }
  }

  /** Shortest content octets in range are those of their scalar. */
  lemma IntegerUnique(c: seq<byte>)
    requires Shortest(c) && InRange(c)
    ensures IntegerBytes(Scalar(c)) == c
  {
    InRangeIsShort(c);
    FilledUp(c, 32);
    StripPadded(33 - |c|, c);
  }

  lemma {:induction false} FilledUp(c: seq<byte>, k: nat)
    requires 0 < |c| <= k + 1 && (|c| == k + 1 ==> c[0] == 0)
    ensures [0] + ToBytes(FromBytes(c), k) == Zeros(k + 1 - |c|) + c
  {
    var b := Zeros(k + 1 - |c|) + c;
    LeadingZeros(k + 1 - |c|, c);
    assert b == Zeros(1) + b[1..];
    LeadingZeros(1, b[1..]);
    NumberOfBytes(b[1..]);
  }

  lemma ReadsEncoded(sig: seq<byte>, p: nat, c: seq<byte>)
    requires 0 < |c| <= 33 && Shortest(c) && p + 2 + |c| <= |sig| && sig[p..p + 2 + |c|] == Encoded(c)
    ensures IntegerAt(sig, p) == Some((c, p + 2 + |c|))
  {
    var e := sig[p..p + 2 + |c|];
    assert sig[p] == e[0] && sig[p + 1] == e[1];
    assert sig[p + 2..p + 2 + |c|] == e[2..] == c;
  }

  /** Parsing what was serialized gives the two scalars back. */
  lemma ParseSerialized(r: nat, s: nat)
    requires r < Scalars.N && s < Scalars.N
    ensures var c := Contents(Serialized(r, s));
            c == Some((IntegerBytes(r), IntegerBytes(s))) && Scalar(c.value.0) == r && Scalar(c.value.1) == s
  {
    IntegerRoundTrip(r);
    IntegerRoundTrip(s);
    var sig, cr, cs := Serialized(r, s), IntegerBytes(r), IntegerBytes(s);
    var m := 4 + |cr|;
    assert sig[2..m] == Encoded(cr);
    ReadsEncoded(sig, 2, cr);
    assert sig[m..m + 2 + |cs|] == Encoded(cs);
    ReadsEncoded(sig, m, cs);
    assert LengthAt(sig, 1) == Some((4 + |cr| + |cs|, 2));
  }

  lemma ReadIsEncoded(sig: seq<byte>, p: nat)
    requires IntegerAt(sig, p).Some? && InRange(IntegerAt(sig, p).value.0)
    ensures var (c, q) := IntegerAt(sig, p).value; |c| <= 33 && q == p + 2 + |c| && sig[p..q] == Encoded(c)
  {
    var (c, q) := IntegerAt(sig, p).value;
    InRangeIsShort(c);
  }

  /** An accepted signature is the serialization of its scalars if and only if both integers are in range. */
  lemma SerializeParsedIff(sig: seq<byte>)
    requires Contents(sig).Some?
    ensures var (cr, cs) := Contents(sig).value;
            InRange(cr) && InRange(cs) <==> Serialized(Scalar(cr), Scalar(cs)) == sig
  {
    var (cr, cs) := Contents(sig).value;
    if InRange(cr) && InRange(cs) {
      InRangeIsSerialized(sig);
    } else if Serialized(Scalar(cr), Scalar(cs)) == sig {
      ParseSerialized(Scalar(cr), Scalar(cs));
      IntegerRoundTrip(Scalar(cr));
      IntegerRoundTrip(Scalar(cs));
      assert false;
    }
  }

  lemma InRangeIsSerialized(sig: seq<byte>)
    requires Contents(sig).Some? && InRange(Contents(sig).value.0) && InRange(Contents(sig).value.1)
    ensures Serialized(Scalar(Contents(sig).value.0), Scalar(Contents(sig).value.1)) == sig
  {
    var (cr, cs) := Contents(sig).value;
    SignatureBytes(sig);
    IntegerUnique(cr);
    IntegerUnique(cs);
  }

  /** With both integers in range, all length octets are in the short form. */
  lemma SignatureBytes(sig: seq<byte>)
    requires Contents(sig).Some? && InRange(Contents(sig).value.0) && InRange(Contents(sig).value.1)
    ensures var (cr, cs) := Contents(sig).value;
            && Shortest(cr) && Shortest(cs) && |cr| <= 33 && |cs| <= 33
            && sig == [SEQUENCE, 4 + |cr| + |cs|] + Encoded(cr) + Encoded(cs)
  {
    var len, q, cr, m, cs := Parts(sig);
    ReadIsEncoded(sig, q);
    ReadIsEncoded(sig, m);
    ShortParts(sig, len, q, cr, m, cs);
  }

  /** Where the parts of an accepted signature are. */
  lemma Parts(sig: seq<byte>) returns (len: nat, q: nat, cr: seq<byte>, m: nat, cs: seq<byte>)
    requires Contents(sig).Some?
    ensures Contents(sig) == Some((cr, cs)) && cr != [] && cs != [] && |sig| > 1 && sig[0] == SEQUENCE
    ensures LengthAt(sig, 1) == Some((len, q)) && q + len == |sig|
    ensures IntegerAt(sig, q) == Some((cr, m)) && IntegerAt(sig, m) == Some((cs, |sig|))
  {
    len, q := LengthAt(sig, 1).value.0, LengthAt(sig, 1).value.1;
    cr, m := IntegerAt(sig, q).value.0, IntegerAt(sig, q).value.1;
    cs := IntegerAt(sig, m).value.0;
  }

  lemma ShortParts(sig: seq<byte>, len: nat, q: nat, cr: seq<byte>, m: nat, cs: seq<byte>)
    requires |sig| > 1 && sig[0] == SEQUENCE && LengthAt(sig, 1) == Some((len, q)) && q + len == |sig|
    requires 0 < |cr| <= 33 && 0 < |cs| <= 33 && m == q + 2 + |cr| && |sig| == m + 2 + |cs|
    requires sig[q..m] == Encoded(cr) && sig[m..|sig|] == Encoded(cs)
    ensures sig == [SEQUENCE, 4 + |cr| + |cs|] + Encoded(cr) + Encoded(cs)
  {
    ShortLength(sig, 1);
    Glued(sig, m, Encoded(cr), Encoded(cs));
  }

  lemma ShortLength(sig: seq<byte>, p: nat)
    requires LengthAt(sig, p).Some? && LengthAt(sig, p).value.0 < 128
    ensures LengthAt(sig, p).value == (sig[p] as int, p + 1)
  {
  }

  lemma Glued(sig: seq<byte>, m: nat, a: seq<byte>, b: seq<byte>)
    requires 2 <= m <= |sig| && sig[2..m] == a && sig[m..|sig|] == b
    ensures sig == [sig[0], sig[1]] + a + b
  {
  }
}
