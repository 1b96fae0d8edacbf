/**
What five freezer tables hold, as values: items, and the bytes a failed write left behind the last
of them.  Appends, failures and truncations are functions on these values.
 */
module Ancients {
  import opened Bytes
  import opened FreezerIndex
  import opened FreezerTables

  const KINDS := 5

  /** What a table holds: its items, and bytes in the head file behind the last of them. */
  datatype Held = Held(items: seq<Blob>, dangling: seq<byte>)

  function AfterAppend(h: Held, blob: Blob, rotates: bool): Held {
    var bytes := (if rotates then [] else h.dangling) + blob;
    Held(h.items + [bytes[..|blob| % U32]], bytes[|blob| % U32..])
  }

  function AfterFailure(h: Held, blob: Blob, rotates: bool, io: AppendIO): Held
    requires io.WriteFails? ==> io.written <= |blob|
  {
    if io.WriteFails? then Held(h.items, (if rotates then [] else h.dangling) + blob[..io.written]) else h
  }

  function AfterTruncate(h: Held, n: nat): Held {
    if n < |h.items| then Held(h.items[..n], []) else h
  }

  /** The items are those of before; only the kind `k` that failed may dangle anew. */
  ghost predicate RolledBack(hs: seq<Held>, hs': seq<Held>, failed: Held, k: nat) {
    && |hs| == |hs'|
    && (forall i :: 0 <= i < |hs| ==> hs'[i].items == hs[i].items)
    && (forall i :: 0 <= i < |hs| ==>
          hs'[i].dangling == if i < k then [] else if i == k then failed.dangling else hs[i].dangling)
  }

  /** Repairing after a failed append takes back what the earlier kinds appended. */
  lemma BrokenIsRepaired(hs: seq<Held>, row: seq<Blob>, rots: seq<bool>, io: AppendIO, k: nat, n: nat)
    requires |hs| == |row| == |rots| && k < |hs| && (io.WriteFails? ==> io.written <= |row[k]|) && Even(hs, n)
    ensures var broken := Broken(hs, row, rots, io, k);
            && (forall i :: 0 <= i < |hs| ==> |broken[i].items| <= n + 1)
            && (forall min :: IsMinimum(min, broken) ==> min == n)
            && Even(Truncated(broken, n), n)
            && RolledBack(hs, Truncated(broken, n), AfterFailure(hs[k], row[k], rots[k], io), k)
  {
    var broken := Broken(hs, row, rots, io, k);
    assert |broken[k].items| == n;
    assert forall i :: 0 <= i < |hs| ==> n <= |broken[i].items|;
    forall i | 0 <= i < k ensures broken[i].items[..n] == hs[i].items {
    }
  }

  /** The item count of the shortest table. */
  ghost predicate IsMinimum(n: nat, hs: seq<Held>) {
    (forall i :: 0 <= i < |hs| ==> n <= |hs[i].items|) && exists i :: 0 <= i < |hs| && n == |hs[i].items|
  }

  ghost predicate Even(hs: seq<Held>, n: nat) {
    forall i :: 0 <= i < |hs| ==> |hs[i].items| == n
  }

  ghost function Truncated(hs: seq<Held>, n: nat): (r: seq<Held>)
    ensures |r| == |hs| && forall i :: 0 <= i < |hs| ==> r[i] == AfterTruncate(hs[i], n)
  {
    seq(|hs|, i requires 0 <= i < |hs| => AfterTruncate(hs[i], n))
  }

  predicate Succeeds(io: AppendIO, rotates: bool) {
    io.Works? || (io.OpenFails? && !rotates)
  }

  ghost function Staged(hs: seq<Held>, row: seq<Blob>, rots: seq<bool>, k: nat): (r: seq<Held>)
    requires |hs| == |row| == |rots|
    ensures |r| == |hs|
    ensures forall i :: 0 <= i < |hs| ==> r[i] == if i < k then AfterAppend(hs[i], row[i], rots[i]) else hs[i]
  {
    seq(|hs|, i requires 0 <= i < |hs| => if i < k then AfterAppend(hs[i], row[i], rots[i]) else hs[i])
  }

  /** With all kinds appended, every table is one item ahead. */
  lemma StagedIsEven(hs: seq<Held>, row: seq<Blob>, rots: seq<bool>, n: nat)
    requires |hs| == |row| == |rots| && Even(hs, n)
    ensures Even(Staged(hs, row, rots, |hs|), n + 1)
  {
  }

  /** The append of kind `k` failed: the kinds before it are one item ahead. */
  ghost function Broken(hs: seq<Held>, row: seq<Blob>, rots: seq<bool>, io: AppendIO, k: nat): (r: seq<Held>)
    requires |hs| == |row| == |rots| && k < |hs| && (io.WriteFails? ==> io.written <= |row[k]|)
    ensures |r| == |hs|
    ensures forall i :: 0 <= i < |hs| ==>
              r[i] == if i < k then AfterAppend(hs[i], row[i], rots[i])
                      else if i == k then AfterFailure(hs[i], row[i], rots[i], io) else hs[i]
  {
    seq(|hs|, i requires 0 <= i < |hs| => if i < k then AfterAppend(hs[i], row[i], rots[i])
                                          else if i == k then AfterFailure(hs[i], row[i], rots[i], io) else hs[i])
  }

  /** No write stores more than it was given. */
  ghost predicate Possible(ios: seq<AppendIO>, row: seq<Blob>) {
    |ios| == |row| && forall i :: 0 <= i < |row| && ios[i].WriteFails? ==> ios[i].written <= |row[i]|
  }

  /** Nothing that dangles shifts the blob: a new file is opened, or the blob begins with the dangling
      bytes and repeats them. */
  predicate StoresWhole(h: Held, blob: Blob, rotates: bool) {
    && |blob| < U32
    && (|| rotates
        || forall j :: 0 <= j < |blob| ==> blob[j] == Behind(h.dangling, blob, j))
  }

  /** An append stores the blob as it is if and only if nothing that dangles shifts it. */
  lemma StoredBlobIff(h: Held, blob: Blob, rotates: bool)
    ensures AfterAppend(h, blob, rotates).items == h.items + [blob] <==> StoresWhole(h, blob, rotates)
  {
    var d := if rotates then [] else h.dangling;
    var bytes, len := d + blob, |blob| % U32;
    var items := AfterAppend(h, blob, rotates).items;
    assert items == h.items + [bytes[..len]];
    assert items == h.items + [blob] <==> bytes[..len] == blob by {
      assert items[|h.items|] == bytes[..len] && (h.items + [blob])[|h.items|] == blob;
    }
    if |blob| < U32 {
      BehindDangling(d, blob);
    }
  }

  /** The byte a blob has at `j` when it is written behind `d`. */
  function Behind(d: seq<byte>, blob: Blob, j: nat): byte
    requires j < |blob|
  {
    if j < |d| then d[j] else blob[j - |d|]
  }

  lemma BehindDangling(d: seq<byte>, blob: Blob)
    ensures (d + blob)[..|blob|] == blob <==> forall j :: 0 <= j < |blob| ==> blob[j] == Behind(d, blob, j)
  {
    var bytes := (d + blob)[..|blob|];
    assert forall j :: 0 <= j < |blob| ==> bytes[j] == Behind(d, blob, j);
    if forall j :: 0 <= j < |blob| ==> blob[j] == Behind(d, blob, j) {
      assert forall j :: 0 <= j < |blob| ==> bytes[j] == blob[j];
    }
  }

  /**
  An append that fails half-way leaves its bytes in the head file, because truncating a table to
  the count it has does nothing.  When the same block is tried again and needs no new file, its
  blob is stored as it is if and only if the blob repeats itself every `w` bytes.
   */
  lemma RetryStoresBlobIff(h: Held, blob: Blob, w: nat)
    requires h.dangling == [] && w <= |blob| < U32
    ensures var h' := AfterAppend(AfterFailure(h, blob, false, WriteFails(w)), blob, false);
            h'.items == h.items + [blob] <==> Periodic(blob, w)
  {
    var failed := AfterFailure(h, blob, false, WriteFails(w));
    assert failed.dangling == blob[..w] && failed.items == h.items;
    StoredBlobIff(failed, blob, false);
    RepeatsIff(blob, w);
  }

  lemma RepeatsIff(blob: Blob, w: nat)
    requires w <= |blob|
    ensures Periodic(blob, w) <==> forall j :: 0 <= j < |blob| ==> blob[j] == Behind(blob[..w], blob, j)
  {
    forall j | 0 <= j < |blob| ensures Behind(blob[..w], blob, j) == if j < w then blob[j] else blob[j - w] {
    }
    if forall j :: 0 <= j < |blob| ==> blob[j] == Behind(blob[..w], blob, j) {
      forall j | w <= j < |blob| ensures blob[j] == blob[j - w] {
        assert blob[j] == Behind(blob[..w], blob, j);
      }
    }
  }

  predicate Periodic(blob: Blob, w: nat) {
    forall j :: w <= j < |blob| ==> blob[j] == blob[j - w]
  }

  // ----- the store as a sequence of blocks

  datatype AncientOp = AppendRow(number: nat, row: seq<Blob>, ios: seq<AppendIO>) | TruncateRows(n: nat)

  /** Blobs fit 32-bit lengths, and a write that fails stores nothing. */
  ghost predicate CleanOp(op: AncientOp) {
    op.AppendRow? ==>
      && |op.row| == |op.ios| == KINDS
      && (forall i :: 0 <= i < KINDS ==> |op.row[i]| < U32)
      && (forall i :: 0 <= i < KINDS && op.ios[i].WriteFails? ==> op.ios[i].written == 0)
  }

  function AncientEffect(op: AncientOp, ok: bool, rows: seq<seq<Blob>>): seq<seq<Blob>> {
    match op
    case AppendRow(_, row, _) => if ok then rows + [row] else rows
    case TruncateRows(n) => if n < |rows| then rows[..n] else rows
  }

  /** The first kind whose append fails, or the number of kinds. */
  ghost function FirstFailing(ios: seq<AppendIO>, rots: seq<bool>, k: nat): (f: nat)
    requires k <= |ios| == |rots|
    ensures k <= f <= |ios| && (f < |ios| ==> !Succeeds(ios[f], rots[f]))
    ensures forall i :: k <= i < f ==> Succeeds(ios[i], rots[i])
    decreases |ios| - k
  {
    if k < |ios| && Succeeds(ios[k], rots[k]) then FirstFailing(ios, rots, k + 1) else k
  }

  /** The tables after a block was offered to all of them, which hold `n` items: each has its blob, or
      the first failure was rolled back. */
  ghost function AfterBlock(hs: seq<Held>, row: seq<Blob>, ios: seq<AppendIO>, rots: seq<bool>, n: nat): (r: seq<Held>)
    requires |hs| == |row| == |rots| && Possible(ios, row)
    ensures |r| == |hs|
  {
    var k := FirstFailing(ios, rots, 0);
    if k == |ios| then Staged(hs, row, rots, k) else Truncated(Broken(hs, row, rots, ios[k], k), n)
  }

  /** The tables after an operation; `rots` says which blobs need a new file. */
  ghost function HeldEffect(op: AncientOp, rots: seq<bool>, hs: seq<Held>, n: nat): (r: seq<Held>)
    requires |hs| == KINDS && PossibleOp(op) && (op.AppendRow? ==> |rots| == KINDS)
    ensures |r| == |hs|
  {
    match op
    case AppendRow(number, row, ios) => if number == n then AfterBlock(hs, row, ios, rots, n) else hs
    case TruncateRows(m) => if m < n then Truncated(hs, m) else hs
  }

  /** The common item count after an operation. */
  ghost function CountEffect(op: AncientOp, rots: seq<bool>, n: nat): nat
    requires op.AppendRow? ==> |op.ios| == |rots|
  {
    match op
    case AppendRow(number, _, ios) => if number == n && FirstFailing(ios, rots, 0) == |ios| then n + 1 else n
    case TruncateRows(m) => if m < n then m else n
  }

  ghost predicate PossibleOp(op: AncientOp) {
    op.AppendRow? ==> |op.row| == KINDS && Possible(op.ios, op.row)
  }

  /** One `rots` for each operation of a run. */
  ghost predicate Fitting(ops: seq<AncientOp>, rots: seq<seq<bool>>) {
    |ops| == |rots| && forall i :: 0 <= i < |ops| ==> PossibleOp(ops[i]) && (ops[i].AppendRow? ==> |rots[i]| == KINDS)
  }

  /** What a run makes of the tables and of their common item count. */
  ghost function ReplayHeld(ops: seq<AncientOp>, rots: seq<seq<bool>>, hs: seq<Held>, n: nat): (r: (seq<Held>, nat))
    requires |hs| == KINDS && Fitting(ops, rots)
    ensures |r.0| == KINDS
  {
    if ops == [] then (hs, n)
    else
      var k := |ops| - 1;
      var (before, m) := ReplayHeld(ops[..k], rots[..k], hs, n);
      (HeldEffect(ops[k], rots[k], before, m), CountEffect(ops[k], rots[k], m))
  }

  lemma {:induction false} ReplayHeldNext(ops: seq<AncientOp>, rots: seq<seq<bool>>, hs: seq<Held>, n: nat, k: nat,
                                          r: seq<bool>)
    requires |hs| == KINDS && k < |ops| && |rots| == k && Fitting(ops[..k], rots)
    requires PossibleOp(ops[k]) && (ops[k].AppendRow? ==> |r| == KINDS)
    ensures Fitting(ops[..k + 1], rots + [r])
    ensures var (before, m) := ReplayHeld(ops[..k], rots, hs, n);
            ReplayHeld(ops[..k + 1], rots + [r], hs, n) == (HeldEffect(ops[k], r, before, m), CountEffect(ops[k], r, m))
  {
    assert ops[..k + 1][..k] == ops[..k] && (rots + [r])[..k] == rots;
  }

  /** What a run makes of the blocks; `oks` tells which of its appends succeeded. */
  ghost function ReplayRows(ops: seq<AncientOp>, oks: seq<bool>, rows: seq<seq<Blob>>): seq<seq<Blob>>
    requires |ops| == |oks|
  {
    if ops == [] then rows
    else AncientEffect(ops[|ops| - 1], oks[|ops| - 1], ReplayRows(ops[..|ops| - 1], oks[..|ops| - 1], rows))
  }

  lemma {:induction false} ReplayNext(ops: seq<AncientOp>, oks: seq<bool>, rows: seq<seq<Blob>>, n: nat, ok: bool)
    requires |oks| == n < |ops|
    ensures ReplayRows(ops[..n + 1], oks + [ok], rows) == AncientEffect(ops[n], ok, ReplayRows(ops[..n], oks, rows))
  {
    assert ops[..n + 1][..n] == ops[..n] && (oks + [ok])[..n] == oks;
  }

  ghost predicate Rectangular(rows: seq<seq<Blob>>) {
    forall n :: 0 <= n < |rows| ==> |rows[n]| == KINDS
  }

  ghost function Column(rows: seq<seq<Blob>>, i: nat): (c: seq<Blob>)
    requires Rectangular(rows) && i < KINDS
    ensures |c| == |rows| && forall n :: 0 <= n < |rows| ==> c[n] == rows[n][i]
  {
    seq(|rows|, n requires 0 <= n < |rows| => rows[n][i])
  }

  /** The tables of these blocks, with nothing dangling. */
  ghost function Columns(rows: seq<seq<Blob>>): (hs: seq<Held>)
    requires Rectangular(rows)
    ensures |hs| == KINDS && forall i :: 0 <= i < KINDS ==> hs[i] == Held(Column(rows, i), [])
  {
    seq(KINDS, i requires 0 <= i < KINDS => Held(Column(rows, i), []))
  }

  lemma TruncatedColumns(rows: seq<seq<Blob>>, n: nat)
    requires Rectangular(rows) && n <= |rows|
    ensures Truncated(Columns(rows), n) == Columns(rows[..n])
  {
    forall i | 0 <= i < KINDS ensures AfterTruncate(Columns(rows)[i], n) == Columns(rows[..n])[i] {
      assert Column(rows, i)[..n] == Column(rows[..n], i);
    }
  }

  lemma AppendedColumn(rows: seq<seq<Blob>>, row: seq<Blob>, i: nat, rotates: bool)
    requires Rectangular(rows) && |row| == KINDS && i < KINDS && |row[i]| < U32
    ensures AfterAppend(Columns(rows)[i], row[i], rotates) == Columns(rows + [row])[i]
  {
    assert [] + row[i] == row[i] && row[i][..|row[i]|] == row[i];
    assert Column(rows + [row], i) == Column(rows, i) + [row[i]];
  }

  /** With nothing dangling and failures that store nothing, the tables follow the blocks. */
  lemma CleanEffect(op: AncientOp, rots: seq<bool>, rows: seq<seq<Blob>>)
    requires Rectangular(rows) && CleanOp(op) && (op.AppendRow? ==> |rots| == KINDS)
    ensures var rows' := AncientEffect(op, Succeeded(op, rots, |rows|), rows);
            && Rectangular(rows') && |rows'| == CountEffect(op, rots, |rows|)
            && HeldEffect(op, rots, Columns(rows), |rows|) == Columns(rows')
  {
    match op
    case TruncateRows(m) =>
      if m < |rows| {
        TruncatedColumns(rows, m);
      }
    case AppendRow(number, row, ios) =>
      if number == |rows| {
        CleanBlock(row, ios, rots, rows);
      }
  }

  lemma {:induction false} CleanBlock(row: seq<Blob>, ios: seq<AppendIO>, rots: seq<bool>, rows: seq<seq<Blob>>)
    requires Rectangular(rows) && CleanOp(AppendRow(|rows|, row, ios)) && |rots| == KINDS
    ensures AfterBlock(Columns(rows), row, ios, rots, |rows|)
         == Columns(if FirstFailing(ios, rots, 0) == KINDS then rows + [row] else rows)
  {
    var k, hs := FirstFailing(ios, rots, 0), Columns(rows);
    if k == KINDS {
      forall i | 0 <= i < KINDS ensures Staged(hs, row, rots, k)[i] == Columns(rows + [row])[i] {
        AppendedColumn(rows, row, i, rots[i]);
      }
    } else {
      BrokenIsRepaired(hs, row, rots, ios[k], k, |rows|);
      var r := Truncated(Broken(hs, row, rots, ios[k], k), |rows|);
      forall i | 0 <= i < KINDS ensures r[i] == hs[i] {
      }
    }
  }

  /** Whether an append added its block. */
  ghost predicate Succeeded(op: AncientOp, rots: seq<bool>, n: nat)
    requires op.AppendRow? ==> |op.ios| == |rots|
  {
    op.AppendRow? ==> op.number == n && FirstFailing(op.ios, rots, 0) == |op.ios|
  }

  /** In a run whose failed writes store nothing, the tables hold what the run makes of a sequence of
      blocks, the failed appends left out. */
  lemma {:induction false} CleanReplay(ops: seq<AncientOp>, rots: seq<seq<bool>>, rows: seq<seq<Blob>>)
    returns (oks: seq<bool>)
    requires Rectangular(rows) && Fitting(ops, rots) && forall i :: 0 <= i < |ops| ==> CleanOp(ops[i])
    ensures |oks| == |ops|
    ensures var rows' := ReplayRows(ops, oks, rows);
            Rectangular(rows') && ReplayHeld(ops, rots, Columns(rows), |rows|) == (Columns(rows'), |rows'|)
    decreases |ops|
  {
    oks := [];
    if ops != [] {
      var k := |ops| - 1;
      oks := CleanReplay(ops[..k], rots[..k], rows);
      var before := ReplayRows(ops[..k], oks, rows);
      CleanEffect(ops[k], rots[k], before);
      var ok := Succeeded(ops[k], rots[k], |before|);
      ReplayNext(ops, oks, rows, k, ok);
      assert ops[..k + 1] == ops;
      oks := oks + [ok];
    }
  }
}
