/**
Crash safety of a freezer table.  A crash leaves a prefix of the index file and a
prefix of the stream of data bytes; opening the table must recover exactly the longest
run of items that survived in both.
 */
module FreezerCrash {
  import opened Bytes
  import opened FreezerIndex
  import opened FreezerTables

  /** The data bytes written before position `(c, k)` survived, and no later ones. */
  ghost predicate StreamPrefix(es: seq<IndexEntry>, disk: Disk, c: nat, k: nat, disk': Disk)
    requires es != []
  {
    && (forall f :: 0 <= f < c ==> f in disk && f in disk' && disk'[f] == disk[f])
    && c in disk && k <= |disk[c]| && FileOf(disk', c) == disk[c][..k]
    && (forall f :: c < f <= es[|es| - 1].filenum ==> FileOf(disk', f) == [])
  }

  /** The data of the item that ends at `e` is on disk. */
  predicate Fits(e: IndexEntry, disk: Disk) {
    e.offset <= |FileOf(disk, e.filenum)|
  }

  /** The length of the longest run of items, from the first, that are all on disk. */
  function Surviving(es: seq<IndexEntry>, disk: Disk): (m: nat)
    requires es != []
    ensures m < |es|
    ensures forall i :: 1 <= i <= m ==> Fits(es[i], disk)
    ensures m + 1 < |es| ==> !Fits(es[m + 1], disk)
  {
    if |es| == 1 then 0 else
      var m := Surviving(es[..|es| - 1], disk);
      if m == |es| - 2 && Fits(es[|es| - 1], disk) then m + 1 else m
  }

  /** Repair stops at the last entry whose data file can hold it. */
  lemma {:induction false} SettleKeepsLastFit(es: seq<IndexEntry>, disk: Disk)
    requires es != [] && es[0].offset == 0
    ensures var (es', disk') := Settle(es, disk);
            && es' == es[..|es'|] && Fits(es[|es'| - 1], disk)
            && forall j :: |es'| <= j < |es| ==> !Fits(es[j], disk)
    decreases |es|
  {
    var e := es[|es| - 1];
    var d := Opened(disk, e.filenum);
    if e.offset > |d[e.filenum]| {
      var n := |es| - 1;
      assert forall f :: FileOf(d, f) == FileOf(disk, f);
      SettleKeepsLastFit(es[..n], d);
      var es' := Settle(es[..n], d).0;
      assert es[..n][..|es'|] == es[..|es'|];
      forall j | |es'| <= j < |es| ensures !Fits(es[j], disk) {
        if j < n { assert es[..n][j] == es[j]; }
      }
    } else {
      assert es[..|es|] == es;
    }
  }

  /** Repair changes no data file but the head, which it cuts at the last entry kept. */
  lemma {:induction false} SettleCutsOneFile(es: seq<IndexEntry>, disk: Disk)
    requires es != [] && es[0].offset == 0
    ensures var (es', disk') := Settle(es, disk);
            var e := es'[|es'| - 1];
            CutAtEntry(e, disk, disk')
    decreases |es|
  {
    var e := es[|es| - 1];
    var d := Opened(disk, e.filenum);
    if e.offset > |d[e.filenum]| {
      assert forall f :: FileOf(d, f) == FileOf(disk, f);
      SettleCutsOneFile(es[..|es| - 1], d);
    }
  }

  /** Some data file begins with an empty item although data was written before it. */
  predicate EmptyFileStart(es: seq<IndexEntry>) {
    exists i, j :: 0 <= i < j < |es| &&
      es[i].offset > 0 && es[i].filenum < es[j].filenum && es[j].offset == 0
  }

  /** Without such a file, entries that fit form a prefix in every crash image. */
  lemma FitsIsDownwardClosed(es: seq<IndexEntry>, disk: Disk, c: nat, k: nat, disk': Disk, i: nat, j: nat)
    requires WellFormed(es, disk) && StreamPrefix(es, disk, c, k, disk') && !EmptyFileStart(es)
    requires i < j < |es| && Fits(es[j], disk')
    ensures Fits(es[i], disk')
  {
    PrefixWellFormed(es, disk, j);
    PrefixWellFormed(es[..j + 1], disk, i);
    assert AtOrBefore(es[j], es[|es| - 1]);
    assert AtOrBefore(es[i], es[j]) && Stored(es[i], disk);
    if es[j].filenum > c {
      assert es[j].offset == 0;
      assert es[i].offset == 0;
    }
  }

  /** What survives of a table after a crash: `n` whole index entries and a stream prefix. */
  ghost predicate RecoversExactly(es: seq<IndexEntry>, disk': Disk)
    requires es != [] && es[0].offset == 0
  {
    |Settle(es, disk').0| == Surviving(es, disk') + 1
  }

  lemma LastFitIsRun(es: seq<IndexEntry>, disk: Disk)
    requires es != [] && es[0].offset == 0
    requires forall i, j :: 0 <= i < j < |es| && Fits(es[j], disk) ==> Fits(es[i], disk)
    ensures RecoversExactly(es, disk)
  {
    SettleKeepsLastFit(es, disk);
    var m, s := |Settle(es, disk).0| - 1, Surviving(es, disk);
    assert forall i :: 0 <= i <= m ==> Fits(es[i], disk);
    if s + 1 < |es| {
      assert !Fits(es[s + 1], disk);
    }
    if m + 1 < |es| {
      assert !Fits(es[m + 1], disk);
    }
  }

  /** Repair finds the longest surviving run, when no data file begins with an empty item. */
  lemma RepairFindsLongestRun(es: seq<IndexEntry>, disk: Disk, n: nat, c: nat, k: nat, disk': Disk)
    requires WellFormed(es, disk) && StreamPrefix(es, disk, c, k, disk') && !EmptyFileStart(es)
    requires 1 <= n <= |es|
    ensures es[0] == Entry(0, 0) && RecoversExactly(es[..n], disk')
  {
    PrefixWellFormed(es, disk, 0);
    forall i, j | 0 <= i < j < n && Fits(es[..n][j], disk') ensures Fits(es[..n][i], disk') {
      FitsIsDownwardClosed(es, disk, c, k, disk', i, j);
    }
    LastFitIsRun(es[..n], disk');
  }

  /** A crash image on which repair keeps an item whose predecessor lost its data. */
  lemma RepairMissesLostData(es: seq<IndexEntry>, disk: Disk, i: nat, j: nat) returns (c: nat, k: nat, disk': Disk)
    requires WellFormed(es, disk) && i < j < |es|
    requires es[i].offset > 0 && es[i].filenum < es[j].filenum && es[j].offset == 0
    requires forall f :: 0 <= f < es[i].filenum ==> f in disk
    ensures StreamPrefix(es, disk, c, k, disk')
    ensures es[0] == Entry(0, 0)
    ensures |Settle(es[..j + 1], disk').0| == j + 1 && Surviving(es[..j + 1], disk') < i
  {
    PrefixWellFormed(es, disk, 0);
    PrefixWellFormed(es, disk, i);
    c, k := es[i].filenum, es[i].offset - 1;
    disk' := map f | f in disk && f <= c :: if f == c then disk[c][..k] else disk[f];
    assert !Fits(es[i], disk');
    var es' := es[..j + 1];
    assert es'[i] == es[i];
    assert es'[|es'| - 1] == es[j];
    assert Settle(es', disk').0 == es';
  }

  /** Repair is exact on every crash image of a table if and only if no data file
      of the table begins with an empty item behind earlier data. */
  lemma RepairExactIff(es: seq<IndexEntry>, disk: Disk)
    requires WellFormed(es, disk)
    requires forall f :: 0 <= f <= es[|es| - 1].filenum ==> f in disk
    ensures es[0] == Entry(0, 0)
    ensures (forall n, c, k, disk' :: 1 <= n <= |es| && 0 <= c && 0 <= k && StreamPrefix(es, disk, c, k, disk') ==>
               RecoversExactly(es[..n], disk'))
            <==> !EmptyFileStart(es)
  {
    PrefixWellFormed(es, disk, 0);
    if EmptyFileStart(es) {
      var i: nat, j: nat :| i < j < |es| &&
        es[i].offset > 0 && es[i].filenum < es[j].filenum && es[j].offset == 0;
      PrefixWellFormed(es, disk, i);
      var c, k, disk' := RepairMissesLostData(es, disk, i, j);
      assert !RecoversExactly(es[..j + 1], disk');
    } else {
      forall n, c, k, disk' | 1 <= n <= |es| && 0 <= c && 0 <= k && StreamPrefix(es, disk, c, k, disk')
        ensures RecoversExactly(es[..n], disk')
      {
        RepairFindsLongestRun(es, disk, n, c, k, disk');
      }
    }
  }

  /** The entries found in any prefix of an index file are a prefix of its entries. */
  lemma {:induction false} FoundInPrefix(es: seq<IndexEntry>, index: seq<byte>)
    requires es != [] && es[0] == Entry(0, 0) && index <= MarshalAll(es)
    ensures Found(index, if index == [] then es[..1] else es[..|index| / ENTRY_SIZE])
  {
    if index != [] {
      var n := |index| / ENTRY_SIZE;
      MarshalAllPrefix(es, n);
      assert index[..|index| - |index| % ENTRY_SIZE] == MarshalAll(es)[..ENTRY_SIZE * n];
    }
  }

  /** Every data file after the first begins with a non-empty item. */
  ghost predicate NoEmptyFileStart(es: seq<IndexEntry>) {
    forall j :: 0 <= j < |es| && es[j].filenum > 0 ==> es[j].offset > 0
  }

  /** After a crash, repairing keeps the entries and the bytes of the longest surviving run. */
  lemma RepairedRun(es: seq<IndexEntry>, disk: Disk, n: nat, c: nat, k: nat, disk': Disk)
    returns (m: nat)
    requires WellFormed(es, disk) && StreamPrefix(es, disk, c, k, disk') && NoEmptyFileStart(es)
    requires 1 <= n <= |es|
    ensures es[0] == Entry(0, 0)
    ensures m == Surviving(es[..n], disk') && Stored(es[m], disk)
    ensures var (es', d) := Settle(es[..n], disk');
            && es' == es[..m + 1]
            && (forall f :: 0 <= f <= es[m].filenum ==> f in d)
            && |d[es[m].filenum]| == es[m].offset
            && KeepsBefore(es[m], disk, d)
  {
    RepairFindsLongestRun(es, disk, n, c, k, disk');
    m := SettledRun(es[..n], disk');
    assert Stored(es[m], disk) && AtOrBefore(es[m], es[|es| - 1]) by {
      PrefixWellFormed(es, disk, m);
    }
    assert es[..n][..m + 1] == es[..m + 1];
    CutKeepsBytes(es, disk, c, k, disk', es[m], Settle(es[..n], disk').1);
  }

  /** Where repair finds the longest run, it keeps that run's entries and cuts its last file. */
  lemma SettledRun(es: seq<IndexEntry>, disk: Disk) returns (m: nat)
    requires es != [] && es[0].offset == 0 && RecoversExactly(es, disk)
    ensures m == Surviving(es, disk) && Fits(es[m], disk)
    ensures var (es', d) := Settle(es, disk);
            && es' == es[..m + 1] && CutAtEntry(es[m], disk, d)
  {
    SettleKeepsLastFit(es, disk);
    SettleCutsOneFile(es, disk);
    m := Surviving(es, disk);
  }

  /** Only the file of `e` differs, and it is cut at the entry. */
  ghost predicate CutAtEntry(e: IndexEntry, disk: Disk, d: Disk) {
    && (forall f :: f in disk && f != e.filenum ==> f in d && d[f] == disk[f])
    && e.filenum in d && Fits(e, disk) && d[e.filenum] == FileOf(disk, e.filenum)[..e.offset]
  }

  /** Cutting the surviving data at an entry that fits keeps all bytes before the entry. */
  lemma CutKeepsBytes(es: seq<IndexEntry>, disk: Disk, c: nat, k: nat, disk': Disk, e: IndexEntry, d: Disk)
    requires es != [] && StreamPrefix(es, disk, c, k, disk') && Stored(e, disk) && CutAtEntry(e, disk', d)
    requires e.filenum <= es[|es| - 1].filenum && (e.filenum > 0 ==> e.offset > 0)
    ensures (forall f :: 0 <= f <= e.filenum ==> f in d) && |d[e.filenum]| == e.offset && KeepsBefore(e, disk, d)
  {
  }

  /** The repaired table is in order and holds exactly those items. */
  lemma {:induction false} RepairedTable(es: seq<IndexEntry>, disk: Disk, n: nat, c: nat, k: nat, disk': Disk,
                                         files: set<nat>)
    requires WellFormed(es, disk) && StreamPrefix(es, disk, c, k, disk') && NoEmptyFileStart(es)
    requires 1 <= n <= |es|
    ensures es[0] == Entry(0, 0)
    ensures var t := Recovered(es[..n], disk');
            && t.items == Surviving(es[..n], disk')
            && (forall f :: 0 <= f <= t.headId ==> f in t.disk)
            && ((forall f :: f in files <==> 0 <= f <= t.headId) ==>
                  var t' := t.(files := files);
                  t'.Readable() && t'.Dangling() == [] && t'.Contents() == Blobs(es, disk)[..t.items])
  {
    var m := RepairedRun(es, disk, n, c, k, disk');
    BlobsOfPrefix(es, disk, m, Recovered(es[..n], disk').disk);
  }

  datatype Op = AppendBlob(blob: Blob) | TruncateTo(n: nat)

  function Effect(op: Op, bs: seq<Blob>): seq<Blob> {
    match op
    case AppendBlob(blob) => bs + [blob]
    case TruncateTo(n) => if n < |bs| then bs[..n] else bs
  }

  /** What a run of operations makes of a sequence of blobs. */
  function Replay(ops: seq<Op>, bs: seq<Blob>): seq<Blob> {
    if ops == [] then bs else Effect(ops[|ops| - 1], Replay(ops[..|ops| - 1], bs))
  }

  /** An operation the table can take: the blob's length fits 32 bits, the file number 16. */
  ghost predicate Takes(t: Table, op: Op, max: nat) {
    && t.Readable() && t.Dangling() == [] && max < U32
    && (op.AppendBlob? ==> |op.blob| < U32 && t.headId + 1 < U16)
  }

  /** What an operation makes of a table. */
  ghost function Applied(t: Table, op: Op, max: nat): Table
    requires Takes(t, op, max)
  {
    match op
    case AppendBlob(blob) => Appended(t, blob, max)
    case TruncateTo(n) => TruncatedTo(t, n)
  }

  /** A table takes an operation as a sequence of blobs does. */
  lemma AppliedEffect(t: Table, op: Op, max: nat)
    requires Takes(t, op, max)
    ensures var t' := Applied(t, op, max);
            t'.Readable() && t'.Dangling() == [] && t'.Contents() == Effect(op, t.Contents())
  {
    match op
    case TruncateTo(n) =>
      if n < t.items {
        CutAtKeepsPrefix(t, n);
      }
    case AppendBlob(blob) => AppendedEffect(t, blob, max);
  }

  lemma AppendedEffect(t: Table, blob: Blob, max: nat)
    requires t.Readable() && t.Dangling() == [] && t.headId + 1 < U16 && |blob| < U32 && max < U32
    ensures var t' := Appended(t, blob, max);
            t'.Readable() && t'.Dangling() == [] && t'.Contents() == t.Contents() + [blob]
  {
    var h, len := Headed(t, blob, max), |blob| % U32;
    HeadedKeepsItems(t, blob, max);
    ItemWrittenIsLast(h, blob, len);
    Unshifted(h.Dangling(), blob, len);
  }

  lemma Unshifted(d: seq<byte>, blob: Blob, len: nat)
    requires d == [] && len == |blob|
    ensures (d + blob)[..len] == blob && (d + blob)[len..] == []
  {
  }

  /** A blob with something in it never begins a file with nothing. */
  lemma AppliedFileStart(t: Table, op: Op, max: nat)
    requires Takes(t, op, max) && NoEmptyFileStart(t.es) && (op.AppendBlob? ==> op.blob != [])
    ensures NoEmptyFileStart(Applied(t, op, max).es)
  {
  }

  /** The table before any item: a sentinel entry and an empty data file. */
  ghost function Fresh(): (t: Table)
    ensures t.Readable() && t.Dangling() == [] && t.Contents() == [] && NoEmptyFileStart(t.es)
  {
    var es := [Entry(0, 0)];
    Table(0, MarshalAll(es), map[0 := []], {0}, 0, 0, es)
  }

  /** The tables a run of operations goes through. */
  ghost predicate TableRun(run: seq<Table>, ops: seq<Op>, max: nat) {
    && |run| == |ops| + 1 && run[0] == Fresh()
    && forall i {:trigger ops[i]} :: 0 <= i < |ops| ==>
         Takes(run[i], ops[i], max) && run[i + 1] == Applied(run[i], ops[i], max)
  }

  lemma {:induction false} TableRunEffect(run: seq<Table>, ops: seq<Op>, max: nat, i: nat)
    requires TableRun(run, ops, max) && i < |run|
    ensures run[i].Readable() && run[i].Dangling() == [] && run[i].Contents() == Replay(ops[..i], [])
  {
    if i > 0 {
      TableRunEffect(run, ops, max, i - 1);
      AppliedEffect(run[i - 1], ops[i - 1], max);
      assert ops[..i][..i - 1] == ops[..i - 1];
    }
  }

  ghost predicate NoEmptyBlob(ops: seq<Op>) {
    forall i :: 0 <= i < |ops| && ops[i].AppendBlob? ==> ops[i].blob != []
  }

  lemma {:induction false} TableRunFileStart(run: seq<Table>, ops: seq<Op>, max: nat, i: nat)
    requires TableRun(run, ops, max) && NoEmptyBlob(ops) && i < |run|
    ensures NoEmptyFileStart(run[i].es)
  {
    if i > 0 {
      TableRunFileStart(run, ops, max, i - 1);
      AppliedFileStart(run[i - 1], ops[i - 1], max);
    }
  }

  lemma TableRunNext(run: seq<Table>, ops: seq<Op>, max: nat, n: nat)
    requires n < |ops| && TableRun(run, ops[..n], max) && Takes(run[n], ops[n], max)
    ensures TableRun(run + [Applied(run[n], ops[n], max)], ops[..n + 1], max)
  {
    var run' := run + [Applied(run[n], ops[n], max)];
    forall i | 0 <= i < n + 1
      ensures Takes(run'[i], ops[..n + 1][i], max) && run'[i + 1] == Applied(run'[i], ops[..n + 1][i], max) {
      if i < n {
        assert ops[..n][i] == ops[i];
      }
    }
  }

  /** An image a crash may leave of a table: a prefix of the index file, nothing or at least the
      sentinel, and a prefix of the data. */
  ghost predicate CrashImage(t: Table, index: seq<byte>, disk: Disk, c: nat, k: nat)
    requires t.es != []
  {
    && index <= MarshalAll(t.es) && (index == [] || |index| >= ENTRY_SIZE)
    && StreamPrefix(t.es, t.disk, c, k, disk)
  }

  /** How many whole entries the index file of an image has. */
  function EntriesIn(index: seq<byte>): nat {
    if index == [] then 1 else |index| / ENTRY_SIZE
  }

  /** Repairing the image of a table with entries `es` yields a table in order with exactly the
      surviving ones of the items `bs`. */
  ghost predicate Recovers(es: seq<IndexEntry>, index: seq<byte>, disk: Disk, files: set<nat>, bs: seq<Blob>)
    requires es != [] && es[0] == Entry(0, 0) && 1 <= EntriesIn(index) <= |es|
  {
    var es' := es[..EntriesIn(index)];
    var t := Recovered(es', disk);
    && Found(index, es') && t.items == Surviving(es', disk) <= |bs|
    && (forall f :: 0 <= f <= t.headId ==> f in t.disk)
    && ((forall f :: f in files <==> 0 <= f <= t.headId) ==>
          var t' := t.(files := files);
          t'.Readable() && t'.Dangling() == [] && t'.Contents() == bs[..t.items])
  }

  lemma EntriesInImage(t: Table, index: seq<byte>, disk: Disk, c: nat, k: nat)
    requires t.Readable() && CrashImage(t, index, disk, c, k)
    ensures 1 <= EntriesIn(index) <= |t.es| && t.es[0] == Entry(0, 0)
  {
    PrefixWellFormed(t.es, t.disk, 0);
    MarshalAllPrefix(t.es, |t.es|);
  }

  /**
  Any run of appends of non-empty blobs and of truncations, any crash image of the table it built:
  repairing recovers exactly the longest run of items whose entry and data survived, out of the
  blobs that the same run makes of an empty sequence.
   */
  lemma {:induction false} RunThenCrash(run: seq<Table>, ops: seq<Op>, max: nat, index: seq<byte>, disk: Disk, c: nat,
                                        k: nat, files: set<nat>)
    requires TableRun(run, ops, max) && NoEmptyBlob(ops)
    requires run[|ops|].es != [] && CrashImage(run[|ops|], index, disk, c, k)
    ensures 1 <= EntriesIn(index) <= |run[|ops|].es| && run[|ops|].es[0] == Entry(0, 0)
    ensures Recovers(run[|ops|].es, index, disk, files, Replay(ops, []))
  {
    var built := run[|ops|];
    TableRunEffect(run, ops, max, |ops|);
    TableRunFileStart(run, ops, max, |ops|);
    assert ops[..|ops|] == ops;
    EntriesInImage(built, index, disk, c, k);
    FoundInPrefix(built.es, index);
    RepairedTable(built.es, built.disk, EntriesIn(index), c, k, disk, files);
  }

  /** The table of a blob larger than a data file may be, and of an empty one behind it. */
  ghost function TwoFiles(max: nat): Table
    requires max + 1 < U32
  {
    var es := [Entry(0, 0), Entry(1, max + 1), Entry(2, 0)];
    Table(2, MarshalAll(es), map[0 := [], 1 := Zeros(max + 1), 2 := []], {0, 1, 2}, 2, 0, es)
  }

  lemma OversizedBlob(max: nat) returns (t: Table)
    requires max + 1 < U32
    ensures Takes(Fresh(), AppendBlob(Zeros(max + 1)), max) && t == Applied(Fresh(), AppendBlob(Zeros(max + 1)), max)
    ensures var es := [Entry(0, 0), Entry(1, max + 1)];
            t == Table(1, MarshalAll(es), map[0 := [], 1 := Zeros(max + 1)], {0, 1}, 1, max + 1, es)
  {
    t := Applied(Fresh(), AppendBlob(Zeros(max + 1)), max);
    assert [] + Zeros(max + 1) == Zeros(max + 1);
    MarshalAllAppend([Entry(0, 0)], Entry(1, max + 1));
  }

  lemma EmptyBlobBehind(max: nat, t: Table)
    requires max + 1 < U32 && t == Applied(Fresh(), AppendBlob(Zeros(max + 1)), max)
    ensures Takes(t, AppendBlob([]), max) && Applied(t, AppendBlob([]), max) == TwoFiles(max)
  {
    var t' := OversizedBlob(max);
    AppliedEffect(Fresh(), AppendBlob(Zeros(max + 1)), max);
    MarshalAllAppend([Entry(0, 0), Entry(1, max + 1)], Entry(2, 0));
    assert [Entry(0, 0), Entry(1, max + 1)] + [Entry(2, 0)] == TwoFiles(max).es;
  }

  /**
  A run that makes a table whose last data file begins with an empty item.  A crash may then leave an
  image on which repairing keeps the empty item although the blob before it is lost.
   */
  lemma EmptyStartRun(max: nat) returns (run: seq<Table>, ops: seq<Op>, c: nat, k: nat, disk: Disk)
    requires max + 1 < U32
    ensures ops == [AppendBlob(Zeros(max + 1)), AppendBlob([])] && TableRun(run, ops, max) && run[2] == TwoFiles(max)
    ensures var built := TwoFiles(max);
            && EmptyFileStart(built.es) && StreamPrefix(built.es, built.disk, c, k, disk)
            && |Settle(built.es, disk).0| == 3 && Surviving(built.es, disk) == 0
  {
    ops := [AppendBlob(Zeros(max + 1)), AppendBlob([])];
    var t := OversizedBlob(max);
    EmptyBlobBehind(max, t);
    run := [Fresh(), t, TwoFiles(max)];
    assert ops[0] == AppendBlob(Zeros(max + 1)) && ops[1] == AppendBlob([]);
    c, k, disk := LosesOversized(max, t);
  }

  lemma LosesOversized(max: nat, t: Table) returns (c: nat, k: nat, disk: Disk)
    requires max + 1 < U32 && t == Applied(Fresh(), AppendBlob(Zeros(max + 1)), max)
    ensures var built := TwoFiles(max);
            && EmptyFileStart(built.es) && StreamPrefix(built.es, built.disk, c, k, disk)
            && |Settle(built.es, disk).0| == 3 && Surviving(built.es, disk) == 0
  {
    var built := TwoFiles(max);
    EmptyBlobBehind(max, t);
    AppliedEffect(t, AppendBlob([]), max);
    c, k, disk := RepairMissesLostData(built.es, built.disk, 1, 2);
    assert built.es[..3] == built.es;
  }

  lemma SettleEmpty()
    ensures Settle([Entry(0, 0)], map[]) == ([Entry(0, 0)], map[0 := []])
  {
    var d := Opened(map[], 0);
    assert d[0][..0] == [] && d[0 := []] == map[0 := []];
  }

  /** Opening in an empty directory. */
  method OpenEmpty(maxFileSize: nat) returns (t: FreezerTable)
    requires maxFileSize < U32
    ensures fresh(t) && t.Valid() && !t.closed && t.maxFileSize == maxFileSize && t.Value() == Fresh()
  {
    t := new FreezerTable([], map[], maxFileSize);
    SettleEmpty();
    var r := t.Repair([Entry(0, 0)]);
    assert t.disk == map[0 := []] && t.headId == 0;
    assert t.files == {0};
  }

  method Step(t: FreezerTable, op: Op)
    requires t.Valid() && !t.closed && t.headId + 1 < U16
    requires op.AppendBlob? ==> |op.blob| < U32
    modifies t
    ensures t.Valid() && !t.closed && t.Contents() == Effect(op, old(t.Contents()))
    ensures Takes(old(t.Value()), op, t.maxFileSize) && t.Value() == Applied(old(t.Value()), op, t.maxFileSize)
  {
    AppliedEffect(t.Value(), op, t.maxFileSize);
    match op {
      case AppendBlob(blob) =>
        var r := t.Append(t.items, blob, Works);
      case TruncateTo(n) =>
        t.Truncate(n);
    }
  }

  /** Any run on any table behaves as on a sequence of blobs, until file numbers run out; on a fresh
      table it is a run in the sense of `RunThenCrash`. */
  method RunOps(t: FreezerTable, ops: seq<Op>) returns (done: nat, ghost run: seq<Table>)
    requires t.Valid() && !t.closed
    requires forall i :: 0 <= i < |ops| && ops[i].AppendBlob? ==> |ops[i].blob| < U32
    modifies t
    ensures t.Valid() && !t.closed
    ensures done <= |ops| && t.Contents() == Replay(ops[..done], old(t.Contents()))
    ensures done < |ops| ==> t.headId + 1 >= U16
    ensures |run| == done + 1 && run[done] == t.Value()
    ensures old(t.Value()) == Fresh() ==> TableRun(run, ops[..done], t.maxFileSize)
  {
    done, run := 0, [t.Value()];
    while done < |ops| && t.headId + 1 < U16
      invariant t.Valid() && !t.closed
      invariant done <= |ops| && t.Contents() == Replay(ops[..done], old(t.Contents()))
      invariant RunTo(run, t.Value(), ops, done, old(t.Value()), t.maxFileSize)
    {
      assert ops[..done + 1][..done] == ops[..done];
      ghost var before := t.Value();
      Step(t, ops[done]);
      RunToNext(run, before, ops, done, old(t.Value()), t.maxFileSize);
      run := run + [t.Value()];
      done := done + 1;
    }
  }

  /** The tables gone through in `n` operations from `first`, the last being `t`. */
  ghost predicate RunTo(run: seq<Table>, t: Table, ops: seq<Op>, n: nat, first: Table, max: nat) {
    && |run| == n + 1 <= |ops| + 1 && run[n] == t
    && (first == Fresh() ==> TableRun(run, ops[..n], max))
  }

  lemma RunToNext(run: seq<Table>, t: Table, ops: seq<Op>, n: nat, first: Table, max: nat)
    requires n < |ops| && RunTo(run, t, ops, n, first, max) && Takes(t, ops[n], max)
    ensures RunTo(run + [Applied(t, ops[n], max)], Applied(t, ops[n], max), ops, n + 1, first, max)
  {
    if first == Fresh() {
      TableRunNext(run, ops, max, n);
    }
  }

  /**
  Opening a table on a crash image.  `es0` and `disk0` are what had been written; of the
  index file some prefix is left (nothing, or at least the sentinel), of the data a
  prefix of the stream.  What repairing makes of them is the longest surviving run, byte for byte,
  whenever no later data file begins with an empty item.
   */
  method OpenAfterCrash(index: seq<byte>, disk: Disk, maxFileSize: nat,
                        ghost es0: seq<IndexEntry>, ghost disk0: Disk, ghost c: nat, ghost k: nat)
    returns (t: FreezerTable, r: Result<()>)
    requires maxFileSize < U32 && |index| < U64 / 2
    requires WellFormed(es0, disk0)
    requires index <= MarshalAll(es0) && (index == [] || |index| >= ENTRY_SIZE)
    requires StreamPrefix(es0, disk0, c, k, disk)
    ensures EntriesIn(index) <= |es0| && es0[0] == Entry(0, 0)
    ensures t.Value().(files := {}) == Recovered(es0[..EntriesIn(index)], disk)
    ensures NoEmptyFileStart(es0) ==>
              && r.Ok? && t.Valid() && !t.closed
              && t.Contents() == Blobs(es0, disk0)[..Surviving(es0[..EntriesIn(index)], disk)]
  {
    t := new FreezerTable(index, disk, maxFileSize);
    ghost var n := EntriesIn(index);
    PrefixWellFormed(es0, disk0, 0);
    FoundInPrefix(es0, index);
    MarshalAllPrefix(es0, |es0|);
    r := t.Repair(es0[..n]);
    if NoEmptyFileStart(es0) {
      RepairedTable(es0, disk0, n, c, k, disk, t.files);
      assert t.Value() == Recovered(es0[..n], disk).(files := t.files);
    }
  }
}
