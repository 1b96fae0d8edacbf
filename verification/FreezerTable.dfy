/**
A freezer table: append-only storage of blobs in rotating data files, with an
index file.  Files are byte sequences; `disk` is the directory, `files` the set of
data files held open.  Blobs are the bytes handed to the files, so compression,
when it is enabled, has already happened.
 */
module FreezerTables {
  import opened Bytes
  import opened FreezerIndex

  datatype Error = ErrClosed | ErrOutOfBounds | ErrUnexpectedItem | ErrMissingFile | ErrIO

  datatype Result<T> = Ok(value: T) | Err(error: Error)

  /** How the file system answers during one append. */
  datatype AppendIO = Works | OpenFails | WriteFails(written: nat)

  function ReadAt(file: seq<byte>, off: nat, len: nat): Result<seq<byte>> {
    if off + len <= |file| then Ok(file[off..off + len]) else Err(ErrIO)
  }

  /** The 32-bit test for "does not fit", written against wrap-around. */
  function Overfull(headBytes: nat, bLen: nat, maxFileSize: nat): (full: bool)
    requires headBytes < U32 && bLen < U32 && maxFileSize < U32
    ensures full <==> headBytes + bLen > maxFileSize
  {
    (headBytes + bLen) % U32 < bLen || (headBytes + bLen) % U32 > maxFileSize
  }

  /** The fields of a table as one value, with the entries its index file encodes. */
  datatype Table = Table(items: nat, index: seq<byte>, disk: Disk, files: set<nat>,
                         headId: nat, headBytes: nat, es: seq<IndexEntry>)
  {
    /** Every item can be read back, and the next append lands behind the last item. */
    ghost predicate Readable() {
      && |es| == items + 1
      && index == MarshalAll(es)
      && WellFormed(es, disk)
      && (forall f :: f in files <==> 0 <= f <= headId)
      && (forall f :: 0 <= f <= headId ==> f in disk)
      && (es[items] == Entry(headId, headBytes) || (es[items].filenum < headId && headBytes == 0))
      && headBytes <= |disk[headId]|
      && headBytes < U32
    }

    ghost function Contents(): (bs: seq<Blob>)
      requires Readable()
      ensures |bs| == items
    {
      Blobs(es, disk)
    }

    /** Bytes in the head file that no index entry accounts for. */
    ghost function Dangling(): seq<byte>
      requires Readable()
    {
      disk[headId][headBytes..]
    }
  }

  /** The contents of a data file; a missing one is created empty when it is opened. */
  function FileOf(disk: Disk, f: nat): seq<byte> {
    if f in disk then disk[f] else []
  }

  function Opened(disk: Disk, f: nat): Disk {
    disk[f := FileOf(disk, f)]
  }

  /** What repairing makes of an index and its data files: entries are dropped from the
      end until one fits its file, which is then cut at the entry's offset. */
  function Settle(es: seq<IndexEntry>, disk: Disk): (r: (seq<IndexEntry>, Disk))
    requires es != [] && es[0].offset == 0
    ensures 0 < |r.0| <= |es|
  {
    var e := es[|es| - 1];
    var d := Opened(disk, e.filenum);
    if e.offset <= |d[e.filenum]| then (es, d[e.filenum := d[e.filenum][..e.offset]])
    else Settle(es[..|es| - 1], d)
  }

  /** Opening the head file first, and cutting it when it is too long, changes nothing. */
  lemma SettleSteps(es: seq<IndexEntry>, disk: Disk)
    requires es != [] && es[0].offset == 0
    ensures var e := es[|es| - 1];
            var d := Opened(disk, e.filenum);
            && Settle(es, disk) == Settle(es, d)
            && (e.offset <= |d[e.filenum]| ==>
                  Settle(es, d) == Settle(es, d[e.filenum := d[e.filenum][..e.offset]]))
            && (e.offset == |d[e.filenum]| ==> Settle(es, d) == (es, d))
            && (e.offset > |d[e.filenum]| ==> |es| > 1 && Settle(es, d) == Settle(es[..|es| - 1], d))
  {
    var e := es[|es| - 1];
    var d := Opened(disk, e.filenum);
    assert Opened(d, e.filenum) == d;
    if e.offset <= |d[e.filenum]| {
      var d' := d[e.filenum := d[e.filenum][..e.offset]];
      assert Opened(d', e.filenum) == d' && d'[e.filenum][..e.offset] == d'[e.filenum];
      assert d'[e.filenum := d'[e.filenum][..e.offset]] == d';
      if e.offset == |d[e.filenum]| {
        assert d[e.filenum][..e.offset] == d[e.filenum];
        assert d' == d;
      }
    }
  }

  /** The number of items of an index file; without any entry it wraps around. */
  function ItemCount(indexSize: nat): (n: nat)
    requires indexSize < U64
    ensures forall k: nat :: k > 0 && indexSize == ENTRY_SIZE * k ==> n == k - 1
    ensures indexSize == 0 ==> n == U64 - 1
  {
    (indexSize / ENTRY_SIZE - 1) % U64
  }

  /** The entries `Repair` starts from: those of the whole part of the index file; an
      empty file gets a sentinel.  Every file has such entries (`Entries`). */
  ghost predicate Found(index: seq<byte>, es: seq<IndexEntry>) {
    if index == [] then es == [Entry(0, 0)]
    else MarshalAll(es) == index[..|index| - |index| % ENTRY_SIZE]
  }

  /** The head file is replaced by a fresh one; the old head stays open for reading. */
  ghost function Rotated(t: Table): Table {
    var n := t.headId + 1;
    t.(disk := t.disk[n := []], files := t.files + {n}, headId := n, headBytes := 0)
  }

  lemma RotatedKeepsItems(t: Table)
    requires t.Readable()
    ensures Rotated(t).Readable() && Rotated(t).Contents() == t.Contents() && Rotated(t).Dangling() == []
  {
    var n := t.headId + 1;
    assert KeepsBefore(t.es[t.items], t.disk, t.disk[n := []]);
    BlobsOfSuffixChange(t.es, t.disk, t.disk[n := []]);
  }

  ghost function PartWritten(t: Table, part: seq<byte>): Table
    requires t.headId in t.disk
  {
    t.(disk := t.disk[t.headId := t.disk[t.headId] + part])
  }

  /** Bytes written without an index entry dangle. */
  lemma PartWrittenDangles(t: Table, part: seq<byte>)
    requires t.Readable()
    ensures PartWritten(t, part).Readable() && PartWritten(t, part).Contents() == t.Contents()
    ensures PartWritten(t, part).Dangling() == t.Dangling() + part
  {
    BlobsOfSuffixChange(t.es, t.disk, PartWritten(t, part).disk);
  }

  /** The blob goes to the head file and an entry `len` bytes further goes to the index. */
  ghost function ItemWritten(t: Table, blob: Blob, len: nat): Table
    requires t.headId in t.disk && t.headId < U16 && t.headBytes + len < U32
  {
    var e: IndexEntry := Entry(t.headId, t.headBytes + len);
    t.(disk := t.disk[t.headId := t.disk[t.headId] + blob], headBytes := t.headBytes + len,
       index := t.index + Marshal(e), items := t.items + 1, es := t.es + [e])
  }

  lemma WrittenReadable(t: Table, blob: Blob, len: nat)
    requires t.Readable() && t.headId < U16
    requires len <= |blob| && t.headBytes + len < U32
    ensures ItemWritten(t, blob, len).Readable()
  {
    var t' := ItemWritten(t, blob, len);
    var e: IndexEntry := Entry(t.headId, t.headBytes + len);
    assert t'.index == MarshalAll(t'.es) by {
      MarshalAllAppend(t.es, e);
    }
    assert WellFormed(t'.es, t'.disk) by {
      ItemAppended(t.es, t.disk, t.headId, t.headBytes, blob, len);
    }
    assert t'.es[t'.items] == e;
  }

  /** The new last item starts with what dangled. */
  lemma ItemWrittenIsLast(t: Table, blob: Blob, len: nat)
    requires t.Readable() && t.headId < U16
    requires len <= |blob| && t.headBytes + len < U32
    ensures var t' := ItemWritten(t, blob, len);
            && t'.Readable()
            && t'.Contents() == t.Contents() + [(t.Dangling() + blob)[..len]]
            && t'.Dangling() == (t.Dangling() + blob)[len..]
  {
    WrittenReadable(t, blob, len);
    ItemAppended(t.es, t.disk, t.headId, t.headBytes, blob, len);
  }

  /** What one append makes of a table. */
  ghost function Appended(t: Table, blob: Blob, maxFileSize: nat): Table
    requires t.Readable() && t.headId + 1 < U16 && maxFileSize < U32
  {
    ItemWritten(Headed(t, blob, maxFileSize), blob, |blob| % U32)
  }

  /** The table whose head file takes the blob. */
  ghost function Headed(t: Table, blob: Blob, maxFileSize: nat): (h: Table)
    requires t.Readable() && t.headId + 1 < U16 && maxFileSize < U32
    ensures h.headId in h.disk && h.headId < U16 && h.headBytes + |blob| % U32 < U32
  {
    if t.headBytes + |blob| % U32 > maxFileSize then Rotated(t) else t
  }

  lemma HeadedKeepsItems(t: Table, blob: Blob, maxFileSize: nat)
    requires t.Readable() && t.headId + 1 < U16 && maxFileSize < U32
    ensures var h := Headed(t, blob, maxFileSize);
            h.Readable() && h.Contents() == t.Contents() && h.Dangling() == if h == t then t.Dangling() else []
  {
    RotatedKeepsItems(t);
  }

  /** What truncation makes of a table. */
  ghost function TruncatedTo(t: Table, n: nat): Table
    requires t.Readable()
  {
    if n < t.items then
      assert Stored(t.es[n], t.disk) by { PrefixWellFormed(t.es, t.disk, n); }
      CutAt(t, n)
    else t
  }

  /** Index and data are cut at entry `n`; every data file after it is closed and removed. */
  ghost function CutAt(t: Table, n: nat): Table
    requires t.Readable() && n < t.items && Stored(t.es[n], t.disk)
  {
    var e := t.es[n];
    var after := set f | f in t.files && f > e.filenum;
    Table(n, t.index[..ENTRY_SIZE * (n + 1)],
          (t.disk - after)[e.filenum := t.disk[e.filenum][..e.offset]],
          t.files - after, e.filenum, e.offset, t.es[..n + 1])
  }

  lemma CutAtKeepsPrefix(t: Table, n: nat)
    requires t.Readable() && n < t.items
    ensures Stored(t.es[n], t.disk)
    ensures CutAt(t, n).Readable() && CutAt(t, n).Contents() == t.Contents()[..n] && CutAt(t, n).Dangling() == []
  {
    PrefixWellFormed(t.es, t.disk, n);
    var t' := CutAt(t, n);
    MarshalAllPrefix(t.es, n + 1);
    assert KeepsBefore(t.es[n], t.disk, t'.disk);
    BlobsOfPrefix(t.es, t.disk, n, t'.disk);
  }

  /** The table that repairing entries `es0` over `disk0` yields, before its files are opened. */
  ghost function Recovered(es0: seq<IndexEntry>, disk0: Disk): Table
    requires es0 != [] && es0[0].offset == 0
  {
    var (es, disk) := Settle(es0, disk0);
    var n := |es| - 1;
    Table(n, MarshalAll(es), disk, {}, es[n].filenum, es[n].offset, es)
  }

  /** Reads and decodes the entry at position `i` of the index file. */
  method ReadIndexEntry(index: seq<byte>, ghost es: seq<IndexEntry>, i: nat) returns (r: Result<IndexEntry>)
    requires index == MarshalAll(es)
    ensures r == if i < |es| then Ok(es[i]) else Err(ErrIO)
  {
    var b := ReadAt(index, i * ENTRY_SIZE, ENTRY_SIZE);
    if b.Err? {
      return Err(ErrIO);
    }
    ReadEntry(es, i);
    return Ok(Unmarshal(b.value));
  }

  /** Cuts the index file by one entry and reads the one before it; `buffer` stays when there is none. */
  method DropLastEntry(index: seq<byte>, ghost es: seq<IndexEntry>, buffer: IndexEntry)
    returns (index': seq<byte>, last: IndexEntry)
    requires index == MarshalAll(es) && es != []
    ensures index' == MarshalAll(es[..|es| - 1])
    ensures last == if |es| == 1 then buffer else es[|es| - 2]
  {
    MarshalAllPrefix(es, |es| - 1);
    index' := index[..|index| - ENTRY_SIZE];
    last := buffer;
    if |index'| >= ENTRY_SIZE {
      var entry := ReadIndexEntry(index', es[..|es| - 1], |index'| / ENTRY_SIZE - 1);
      last := entry.value;
    }
  }

  /** Drops index entries, or data bytes, until the last entry is where its file ends. */
  method MatchHead(index0: seq<byte>, ghost es0: seq<IndexEntry>, disk0: Disk, first: IndexEntry)
    returns (index: seq<byte>, ghost es: seq<IndexEntry>, disk: Disk, last: IndexEntry, contentSize: nat, ok: bool)
    requires index0 == MarshalAll(es0)
    requires first == if es0 == [] then Entry(0, 0) else es0[0]
    ensures index == MarshalAll(es) && |es| <= |es0|
    ensures ok ==> last.filenum in disk && contentSize == last.offset
    ensures first.offset == 0 ==> ok
    ensures es0 == [] ==> last == Entry(0, 0)
    ensures es0 != [] && first.offset == 0 ==>
              (es, disk) == Settle(es0, disk0) && es != [] && last == es[|es| - 1]
  {
    ghost var settles := es0 != [] && first.offset == 0;
    index, es, last := index0, es0, first;
    if |index| >= ENTRY_SIZE {
      var entry := ReadIndexEntry(index, es, |index| / ENTRY_SIZE - 1);
      last := entry.value;
    }
    disk := Opened(disk0, last.filenum);
    contentSize := |disk[last.filenum]|;
    var contentExp := last.offset;
    if settles {
      SettleSteps(es, disk0);
    }
    while contentExp != contentSize
      invariant index == MarshalAll(es) && |es| <= |es0|
      invariant es0 == [] ==> last == Entry(0, 0)
      invariant last.filenum in disk && contentSize == |disk[last.filenum]| && contentExp == last.offset
      invariant settles ==> es != [] && es[0].offset == 0 && last == es[|es| - 1]
      invariant settles ==> Settle(es, disk) == Settle(es0, disk0)
      decreases |es|, if contentExp != contentSize then 1 else 0
    {
      assert Opened(disk, last.filenum) == disk;
      if settles {
        SettleSteps(es, disk);
      }
      if contentExp < contentSize {
        disk := disk[last.filenum := disk[last.filenum][..contentExp]];
        contentSize := contentExp;
      }
      if contentExp > contentSize {
        if |index| < ENTRY_SIZE {
          // cutting the index to a negative size is refused
          ok := false;
          return;
        }
        var newLast;
        index, newLast := DropLastEntry(index, es, last);
        es := es[..|es| - 1];
        if settles {
          SettleSteps(es, disk);
        }
        if newLast.filenum != last.filenum {
          disk := Opened(disk, newLast.filenum);
          contentSize := |disk[newLast.filenum]|;
        }
        last := newLast;
        contentExp := last.offset;
      }
    }
    ok := true;
    assert Opened(disk, last.filenum) == disk;
    if settles {
      SettleSteps(es, disk);
    }
  }

  /** Gives an empty index file its sentinel, or drops a trailing partial entry. */
  method TrimIndex(index0: seq<byte>, ghost es: seq<IndexEntry>) returns (index: seq<byte>)
    requires Found(index0, es)
    ensures index == MarshalAll(es) && |index| <= |index0| + ENTRY_SIZE
  {
    index := index0;
    var size := |index|;
    if size == 0 {
      index := Zeros(ENTRY_SIZE);
      assert MarshalAll(es) == MarshalAll(es[..0]) + Marshal(es[0]);
    }
    var overflow := size % ENTRY_SIZE;
    if overflow != 0 {
      index := index[..size - overflow];
    }
    assert size != 0 ==> index == index0[..size - overflow];
  }

  /** The files as repairing leaves them, and the fields read off the index file. */
  method Recover(index0: seq<byte>, disk0: Disk, ghost es0: seq<IndexEntry>)
    returns (index: seq<byte>, ghost es: seq<IndexEntry>, disk: Disk, tailId: nat, itemOffset: nat,
             items: nat, last: IndexEntry, ok: bool)
    requires |index0| < U64 / 2 && Found(index0, es0)
    ensures ok ==> last.filenum in disk
    ensures es0 == [] ==>
              ok && index == [] && items == U64 - 1 && itemOffset == 0 && tailId == 0 && last == Entry(0, 0)
    ensures es0 != [] && es0[0] == Entry(0, 0) ==>
              && ok && itemOffset == 0 && tailId == 0
              && Table(items, index, disk, {}, last.filenum, last.offset, es) == Recovered(es0, disk0)
  {
    index := TrimIndex(index0, es0);
    var buffer: IndexEntry := Entry(0, 0);
    var entry := ReadIndexEntry(index, es0, 0);
    if entry.Ok? {
      buffer := entry.value;
    }
    tailId, itemOffset := buffer.offset, buffer.filenum;
    var contentSize;
    index, es, disk, last, contentSize, ok := MatchHead(index, es0, disk0, buffer);
    items := itemOffset + ItemCount(|index|);
  }

  class FreezerTable {
    const maxFileSize: nat
    var items: nat
    var index: seq<byte>
    var disk: Disk
    var files: set<nat>
    var headId: nat
    var tailId: nat
    var itemOffset: nat
    var headBytes: nat
    var closed: bool
    /** The entries held by the index file. */
    ghost var es: seq<IndexEntry>

    ghost function Value(): Table
      reads this
    {
      Table(items, index, disk, files, headId, headBytes, es)
    }

    ghost predicate Readable()
      reads this
    {
      maxFileSize < U32 && itemOffset == 0 && tailId == 0 && Value().Readable()
    }

    /** Readable, with no bytes behind the last item in the head file. */
    ghost predicate Valid()
      reads this
    {
      Readable() && Value().Dangling() == []
    }

    ghost function Contents(): (bs: seq<Blob>)
      requires Readable()
      reads this
    {
      Value().Contents()
    }

    ghost function Dangling(): seq<byte>
      requires Readable()
      reads this
    {
      Value().Dangling()
    }

    /** The blob does not fit the head file. */
    ghost predicate Rotates(blob: Blob)
      reads this
    {
      headBytes + |blob| % U32 > maxFileSize
    }

    /** An image found on disk, before `Repair`. */
    constructor (index: seq<byte>, disk: Disk, maxFileSize: nat)
      ensures this.index == index && this.disk == disk && this.maxFileSize == maxFileSize
      ensures files == {} && !closed
    {
      this.index, this.disk, this.maxFileSize := index, disk, maxFileSize;
      items, headId, tailId, itemOffset, headBytes := 0, 0, 0, 0, 0;
      files, closed, es := {}, false, [];
    }

    /**
    Opens a table from whatever a crash left on disk.  The entries kept are those up to
    the last one that its data file can hold; that file is cut at the entry's offset.
    An index file of 1 to 5 bytes is cut to nothing and the item count wraps around.
     */
    method Repair(ghost es0: seq<IndexEntry>) returns (r: Result<()>)
      requires files == {} && !closed && maxFileSize < U32
      requires |index| < U64 / 2  // file sizes are signed 64-bit words
      requires Found(index, es0)
      modifies this`index, this`disk, this`files, this`es, this`tailId, this`itemOffset,
               this`items, this`headBytes, this`headId
      ensures es0 == [] ==> r.Ok? && index == [] && items == U64 - 1
      ensures es0 != [] && es0[0] == Entry(0, 0) ==>
                && itemOffset == 0 && tailId == 0
                && Value().(files := {}) == Recovered(es0, old(disk))
                && (r.Ok? <==> forall f :: 0 <= f < headId ==> f in disk)
                && (r.Ok? ==> forall f :: f in files <==> 0 <= f <= headId)
    {
      var ok := Load(es0);
      if !ok {
        return Err(ErrIO);
      }
      r := Preopen();
    }

    /** Repairs index and data on disk, and reads the fields off them. */
    method Load(ghost es0: seq<IndexEntry>) returns (ok: bool)
      requires |index| < U64 / 2 && Found(index, es0)
      modifies this`index, this`disk, this`files, this`es, this`tailId, this`itemOffset,
               this`items, this`headBytes, this`headId
      ensures ok ==> headId in disk && files == {headId}
      ensures es0 == [] ==> ok && index == [] && items == U64 - 1 && tailId == 0 && headId == 0
      ensures es0 != [] && es0[0] == Entry(0, 0) ==>
                && ok && itemOffset == 0 && tailId == 0
                && Value().(files := {}) == Recovered(es0, old(disk))
    {
      ghost var es';
      var index', disk', tailId', itemOffset', items', last;
      index', es', disk', tailId', itemOffset', items', last, ok := Recover(index, disk, es0);
      index, es, disk, tailId, itemOffset, items := index', es', disk', tailId', itemOffset', items';
      files, headBytes, headId := {last.filenum}, last.offset, last.filenum;
    }

    /** Opens every data file from the tail to the head; a missing one is an error. */
    method Preopen() returns (r: Result<()>)
      requires files <= disk.Keys && headId in disk
      modifies this`files
      ensures r.Ok? <==> forall f :: tailId <= f < headId ==> f in disk
      ensures r.Ok? && tailId == 0 ==> forall f :: f in files <==> 0 <= f <= headId
    {
      files := set f | f in files && f <= 0;
      var i := tailId;
      while i < headId
        invariant tailId <= i && (i <= headId || i == tailId)
        invariant files <= disk.Keys
        invariant forall f :: tailId <= f < i ==> f in disk && f in files
        invariant forall f :: f in files ==> f == 0 || tailId <= f < i
      {
        if i !in files {
          if i !in disk {
            return Err(ErrIO);
          }
          files := files + {i};
        }
        i := i + 1;
      }
      files := files + {headId};
      r := Ok(());
    }

    method Close()
      modifies this`closed
      ensures closed
    {
      closed := true;
    }

    /**
    Appends one blob.  `item` must be the next item number.  What becomes readable is
    the first `|blob| % U32` bytes of whatever dangles in the head file followed by the
    blob, so a valid table gains exactly `blob` when its length fits 32 bits.
     */
    method Append(item: nat, blob: Blob, io: AppendIO) returns (r: Result<()>)
      requires Readable()
      requires io.WriteFails? ==> io.written <= |blob|
      modifies this
      ensures closed == old(closed)
      ensures old(closed) ==> r == Err(ErrClosed)
      ensures !old(closed) && item != old(items) ==> r == Err(ErrUnexpectedItem)
      ensures r.Ok? <==>
              !old(closed) && item == old(items) && (io.Works? || (io.OpenFails? && !old(Rotates(blob))))
      ensures headId == old(headId) || (old(Rotates(blob)) && headId == old(headId) + 1)
      ensures r.Ok? ==> (headId == old(headId) <==> old(headBytes) + |blob| % U32 <= maxFileSize)
      ensures r.Err? ==> Readable() && Contents() == old(Contents())
      ensures r.Err? ==>
                var tried := !old(closed) && item == old(items) && io.WriteFails?;
                Dangling() == if !tried then old(Dangling())
                              else (if old(Rotates(blob)) then [] else old(Dangling())) + blob[..io.written]
      ensures r.Ok? && headId < U16 ==>
                var d := if old(Rotates(blob)) then [] else old(Dangling());
                && Readable()
                && Contents() == old(Contents()) + [(d + blob)[..|blob| % U32]]
                && Dangling() == (d + blob)[|blob| % U32..]
      ensures r.Ok? && old(headId) + 1 < U16 ==> Value() == Appended(old(Value()), blob, maxFileSize)
    {
      if closed {
        return Err(ErrClosed);
      }
      if items != item {
        return Err(ErrUnexpectedItem);
      }
      var bLen := |blob| % U32;
      if Overfull(headBytes, bLen, maxFileSize) {
        if io.OpenFails? {
          return Err(ErrIO);
        }
        OpenNextFile();
      }
      if io.WriteFails? {
        WritePartially(blob[..io.written]);
        return Err(ErrIO);
      }
      WriteWhole(blob);
      r := Ok(());
    }

    /** Rotation: a fresh, truncated head file; the old one stays open for reading. */
    method OpenNextFile()
      requires Readable()
      modifies this`disk, this`files, this`headBytes, this`headId
      ensures Value() == Rotated(old(Value()))
      ensures Readable() && Contents() == old(Contents()) && Dangling() == []
    {
      var nextId := headId + 1;
      disk := disk[nextId := []];
      files := files + {nextId};  // the old head is opened again for reading
      headBytes := 0;
      headId := nextId;
      RotatedKeepsItems(old(Value()));
    }

    /** A write that stops half-way: the bytes dangle, no item is added. */
    method WritePartially(part: seq<byte>)
      requires Readable()
      modifies this`disk
      ensures Readable() && Contents() == old(Contents())
      ensures Dangling() == old(Dangling()) + part
    {
      disk := disk[headId := disk[headId] + part];
      PartWrittenDangles(old(Value()), part);
    }

    /** A write that succeeds adds one item. */
    method WriteWhole(blob: Blob)
      requires Readable()
      requires headBytes + |blob| % U32 < U32
      modifies this`disk, this`headBytes, this`index, this`items, this`es
      ensures headId < U16 ==>
                && Readable()
                && Contents() == old(Contents()) + [(old(Dangling()) + blob)[..|blob| % U32]]
                && Dangling() == (old(Dangling()) + blob)[|blob| % U32..]
                && Value() == ItemWritten(old(Value()), blob, |blob| % U32)
    {
      if headId < U16 {
        ItemWrittenIsLast(Value(), blob, |blob| % U32);
      }
      WriteItem(blob);
    }

    method WriteItem(blob: Blob)
      requires Readable()
      requires headBytes + |blob| % U32 < U32
      modifies this`disk, this`headBytes, this`index, this`items, this`es
      ensures headId < U16 ==> Value() == ItemWritten(old(Value()), blob, |blob| % U32)
    {
      var bLen := |blob| % U32;
      disk := disk[headId := disk[headId] + blob];
      var newOffset := (headBytes + bLen) % U32;
      headBytes := newOffset;
      var idx := Entry(headId, newOffset);
      index := index + Marshal(idx);
      items := items + 1;
      if headId < U16 {
        es := es + [idx];
        assert newOffset == old(headBytes) + bLen;
      }
    }

    /** The i-th item exactly, or an error past the end. */
    method Retrieve(item: nat) returns (r: Result<Blob>)
      requires Readable()
      ensures r == if closed then Err(ErrClosed)
                   else if item < items then Ok(Contents()[item])
                   else Err(ErrOutOfBounds)
    {
      if closed {
        return Err(ErrClosed);
      }
      if items <= item || itemOffset > item {
        return Err(ErrOutOfBounds);
      }
      var start, end, filenum, ok := GetBounds(item - itemOffset);
      if !ok {
        return Err(ErrIO);
      }
      if filenum !in files {
        return Err(ErrMissingFile);
      }
      r := ReadAt(disk[filenum], start, end - start);
    }

    method GetBounds(item: nat) returns (start: nat, end: nat, filenum: nat, ok: bool)
      requires Readable()
      ensures ok <==> item < items
      ensures ok ==> filenum in files && start <= end <= |disk[filenum]|
      ensures ok ==> disk[filenum][start..end] == Contents()[item]
    {
      var startIdx := ReadIndexEntry(index, es, item);
      if startIdx.Err? {
        return 0, 0, 0, false;
      }
      var endIdx := ReadIndexEntry(index, es, item + 1);
      if endIdx.Err? {
        return 0, 0, 0, false;
      }
      BlobsAt(es, disk, item);
      if startIdx.value.filenum != endIdx.value.filenum {
        return 0, endIdx.value.offset, endIdx.value.filenum, true;
      }
      return startIdx.value.offset, endIdx.value.offset, endIdx.value.filenum, true;
    }

    /** Keeps exactly the first `n` items and leaves nothing dangling behind them. */
    method Truncate(n: nat)
      requires Readable()
      modifies this
      ensures closed == old(closed)
      ensures Readable() && Contents() == if n < old(items) then old(Contents())[..n] else old(Contents())
      ensures Dangling() == if n < old(items) then [] else old(Dangling())
      ensures Value() == TruncatedTo(old(Value()), n)
    {
      if items <= n {
        return;
      }
      CutTo(n);
    }

    method CutTo(n: nat)
      requires Readable() && n < items
      modifies this`es, this`index, this`files, this`disk, this`headId, this`items, this`headBytes
      ensures Valid() && Contents() == old(Contents())[..n]
      ensures Value() == TruncatedTo(old(Value()), n)
    {
      CutAtKeepsPrefix(Value(), n);
      PrefixWellFormed(es, disk, n);
      MarshalAllPrefix(es, n + 1);
      index := index[..(n + 1) * ENTRY_SIZE];
      es := es[..n + 1];
      var entry := ReadIndexEntry(index, es, n);
      var expected := entry.value;
      StepBackTo(expected.filenum);
      disk := disk[headId := disk[headId][..expected.offset]];
      items := n;
      headBytes := expected.offset;
      assert Value() == CutAt(old(Value()), n);
    }

    /** Makes data file `f` the head; later files are closed and removed. */
    method StepBackTo(f: nat)
      requires f in files && forall g :: g in files ==> g <= headId
      modifies this`files, this`disk, this`headId
      ensures headId == f
      ensures var after := set g | g in old(files) && g > f;
              files == old(files) - after && disk == old(disk) - after
    {
      ghost var after := set g | g in files && g > f;
      if f != headId {
        ReleaseFilesAfter(f);
        headId := f;
      }
      assert files == old(files) - after && disk == old(disk) - after;
    }

    /** Closes and deletes every open file after `num`. */
    method ReleaseFilesAfter(num: nat)
      modifies this`files, this`disk
      ensures files == set f | f in old(files) && f <= num
      ensures disk == old(disk) - (old(files) - files)
    {
      var after := set f | f in files && f > num;
      files := files - after;
      disk := disk - after;
      assert after == old(files) - files;
    }
  }
}
