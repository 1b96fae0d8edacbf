/**
The on-disk format of one freezer table: an index file of 6-byte entries and a
set of numbered data files.  Entry `i + 1` records the file and the end offset of
item `i`; entry 0 is a sentinel.
 */
module FreezerIndex {
  import opened Bytes

  const ENTRY_SIZE: nat := 6

  datatype RawEntry = Entry(filenum: nat, offset: nat)

  /** An entry whose fields fit the 16 and 32 bits they are written in. */
  type IndexEntry = e: RawEntry | e.filenum < U16 && e.offset < U32 witness Entry(0, 0)

  type Disk = map<nat, seq<byte>>
  type Blob = seq<byte>

  /** Big-endian; the file number is cut to 16 bits. */
  function Marshal(e: RawEntry): (b: seq<byte>)
    ensures |b| == ENTRY_SIZE
  {
    ToBytes(e.filenum, 2) + ToBytes(e.offset, 4)
  }

  /** The file number is in the first two bytes, the offset in the other four, most significant first. */
  lemma MarshalLayout(e: RawEntry)
    requires e.offset < U32
    ensures var b := Marshal(e);
            && b[0] == e.filenum / 256 % 256 && b[1] == e.filenum % 256
            && FromBytes(b[2..]) == e.offset && b[5] == e.offset % 256
  {
    BytesOfNumber(e.offset, 4);
    assert Pow256(4) == 256 * (256 * Pow256(2)) == U32;
    var high, low := ToBytes(e.filenum, 2), ToBytes(e.offset, 4);
    assert Marshal(e)[2..] == low && low[3] == e.offset % 256;
    assert high == ToBytes(e.filenum / 256, 1) + [e.filenum % 256];
    assert ToBytes(e.filenum / 256, 1) == ToBytes(e.filenum / 256 / 256, 0) + [e.filenum / 256 % 256];
  }

  function Unmarshal(b: seq<byte>): (e: IndexEntry)
    requires |b| == ENTRY_SIZE
  {
    WordBounds(b);
    Entry(FromBytes(b[..2]), FromBytes(b[2..]))
  }

  lemma WordBounds(b: seq<byte>)
    requires |b| == ENTRY_SIZE
    ensures FromBytes(b[..2]) < U16 && FromBytes(b[2..]) < U32
  {
    NumberOfBytes(b[..2]);
    NumberOfBytes(b[2..]);
    assert Pow256(2) == U16 && Pow256(4) == 256 * (256 * Pow256(2)) == U32;
  }

  /** An entry survives the round trip exactly when its file number fits 16 bits. */
  lemma MarshalRoundTrip(e: RawEntry)
    requires e.offset < U32
    ensures Unmarshal(Marshal(e)) == e <==> e.filenum < U16
  {
    assert Pow256(2) == U16 && Pow256(4) == 256 * (256 * Pow256(2)) == U32;
    BytesOfNumber(e.offset, 4);
    assert Marshal(e)[2..] == ToBytes(e.offset, 4) && Marshal(e)[..2] == ToBytes(e.filenum, 2);
    if e.filenum < U16 {
      BytesOfNumber(e.filenum, 2);
    }
  }

  /** Every 6 bytes are the encoding of the entry they decode to. */
  lemma UnmarshalRoundTrip(b: seq<byte>)
    requires |b| == ENTRY_SIZE
    ensures Marshal(Unmarshal(b)) == b
  {
    NumberOfBytes(b[..2]);
    NumberOfBytes(b[2..]);
  }

  /** The index file that holds exactly these entries. */
  function MarshalAll(es: seq<IndexEntry>): (b: seq<byte>)
    ensures |b| == ENTRY_SIZE * |es|
  {
    if es == [] then [] else MarshalAll(es[..|es| - 1]) + Marshal(es[|es| - 1])
  }

  /** Every file of whole entries is the encoding of the entries it decodes to. */
  function Entries(index: seq<byte>): (es: seq<IndexEntry>)
    requires |index| % ENTRY_SIZE == 0
    ensures MarshalAll(es) == index
  {
    if index == [] then [] else
      var n := |index| - ENTRY_SIZE;
      UnmarshalRoundTrip(index[n..]);
      MarshalAllAppend(Entries(index[..n]), Unmarshal(index[n..]));
      assert index == index[..n] + index[n..];
      Entries(index[..n]) + [Unmarshal(index[n..])]
  }

  lemma {:induction false} MarshalAllAppend(es: seq<IndexEntry>, e: IndexEntry)
    ensures MarshalAll(es + [e]) == MarshalAll(es) + Marshal(e)
  {
  }

  /** Cutting the file after `k` entries keeps the first `k` entries. */
  lemma {:induction false} MarshalAllPrefix(es: seq<IndexEntry>, k: nat)
    requires k <= |es|
    ensures MarshalAll(es)[..ENTRY_SIZE * k] == MarshalAll(es[..k])
  {
    if k == |es| {
      assert es[..k] == es;
    } else {
      MarshalAllPrefix(es[..|es| - 1], k);
      assert es[..|es| - 1][..k] == es[..k];
    }
  }

  /** Reading 6 bytes at offset `6 i` yields entry `i`. */
  lemma {:induction false} ReadEntry(es: seq<IndexEntry>, i: nat)
    requires i < |es|
    ensures Unmarshal(MarshalAll(es)[ENTRY_SIZE * i..ENTRY_SIZE * i + ENTRY_SIZE]) == es[i]
  {
    var n := |es| - 1;
    if i == n {
      assert MarshalAll(es)[ENTRY_SIZE * n..ENTRY_SIZE * n + ENTRY_SIZE] == Marshal(es[n]);
      MarshalRoundTrip(es[n]);
    } else {
      ReadEntry(es[..n], i);
      assert MarshalAll(es)[ENTRY_SIZE * i..ENTRY_SIZE * i + ENTRY_SIZE]
          == MarshalAll(es[..n])[ENTRY_SIZE * i..ENTRY_SIZE * i + ENTRY_SIZE];
    }
  }

  /** Positions in the written stream, ordered by file and then by offset. */
  predicate AtOrBefore(a: IndexEntry, b: IndexEntry) {
    a.filenum < b.filenum || (a.filenum == b.filenum && a.offset <= b.offset)
  }

  predicate Stored(e: IndexEntry, disk: Disk) {
    e.filenum in disk && e.offset <= |disk[e.filenum]|
  }

  /** The entries start at the sentinel, move forward only, and point at stored bytes. */
  predicate WellFormed(es: seq<IndexEntry>, disk: Disk) {
    && es != []
    && Stored(es[|es| - 1], disk)
    && if |es| == 1 then es[0] == Entry(0, 0)
       else AtOrBefore(es[|es| - 2], es[|es| - 1]) && WellFormed(es[..|es| - 1], disk)
  }

  lemma {:induction false} PrefixWellFormed(es: seq<IndexEntry>, disk: Disk, k: nat)
    requires WellFormed(es, disk) && k < |es|
    ensures WellFormed(es[..k + 1], disk)
    ensures AtOrBefore(es[k], es[|es| - 1])
    ensures Stored(es[k], disk)
  {
    if k == |es| - 1 {
      assert es[..k + 1] == es;
    } else {
      PrefixWellFormed(es[..|es| - 1], disk, k);
      assert es[..|es| - 1][..k + 1] == es[..k + 1];
    }
  }

  /** Where the item between entries `a` and `b` starts: at `a`, or at 0 in a fresh file. */
  function Start(a: IndexEntry, b: IndexEntry): nat {
    if a.filenum == b.filenum then a.offset else 0
  }

  function Item(a: IndexEntry, b: IndexEntry, disk: Disk): Blob
    requires AtOrBefore(a, b) && Stored(b, disk)
  {
    disk[b.filenum][Start(a, b)..b.offset]
  }

  /** What a table holds: the sequence of its items. */
  function Blobs(es: seq<IndexEntry>, disk: Disk): (bs: seq<Blob>)
    requires WellFormed(es, disk)
    ensures |bs| == |es| - 1
  {
    var n := |es| - 1;
    if n == 0 then [] else Blobs(es[..n], disk) + [Item(es[n - 1], es[n], disk)]
  }

  lemma {:induction false} BlobsAt(es: seq<IndexEntry>, disk: Disk, i: nat)
    requires WellFormed(es, disk) && i + 1 < |es|
    ensures AtOrBefore(es[i], es[i + 1]) && Stored(es[i + 1], disk)
    ensures AtOrBefore(es[i + 1], es[|es| - 1])
    ensures Blobs(es, disk)[i] == Item(es[i], es[i + 1], disk)
  {
    if i + 2 < |es| {
      BlobsAt(es[..|es| - 1], disk, i);
    }
  }

  /** `disk'` has every byte that `disk` has before position `p`. */
  predicate KeepsBefore(p: IndexEntry, disk: Disk, disk': Disk)
    requires Stored(p, disk)
  {
    && (forall f :: f in disk && f < p.filenum ==> f in disk' && disk'[f] == disk[f])
    && Stored(p, disk')
    && disk'[p.filenum][..p.offset] == disk[p.filenum][..p.offset]
  }

  /** A disk that keeps the bytes before entry `k` keeps the first `k` items. */
  lemma {:induction false} BlobsOfPrefix(es: seq<IndexEntry>, disk: Disk, k: nat, disk': Disk)
    requires WellFormed(es, disk) && k < |es|
    requires Stored(es[k], disk) && KeepsBefore(es[k], disk, disk')
    ensures WellFormed(es[..k + 1], disk')
    ensures Blobs(es[..k + 1], disk') == Blobs(es, disk)[..k]
  {
    var n := |es| - 1;
    if k < n {
      BlobsOfPrefix(es[..n], disk, k, disk');
      assert es[..n][..k + 1] == es[..k + 1];
    } else {
      assert es[..k + 1] == es;
      if k > 0 {
        PrefixWellFormed(es, disk, k - 1);
        assert KeepsBefore(es[k - 1], disk, disk') by {
          if es[k - 1].filenum == es[k].filenum {
            var f, a, b := es[k].filenum, es[k - 1].offset, es[k].offset;
            assert disk'[f][..a] == disk'[f][..b][..a] && disk[f][..a] == disk[f][..b][..a];
          }
        }
        BlobsOfPrefix(es[..n], disk, k - 1, disk');
        assert es[..n][..k] == es[..n];
        var f, s, t := es[k].filenum, Start(es[k - 1], es[k]), es[k].offset;
        assert disk'[f][s..t] == disk'[f][..t][s..] && disk[f][s..t] == disk[f][..t][s..];
      }
    }
  }

  /** Changing bytes behind the last entry changes no item. */
  lemma {:induction false} BlobsOfSuffixChange(es: seq<IndexEntry>, disk: Disk, disk': Disk)
    requires WellFormed(es, disk) && KeepsBefore(es[|es| - 1], disk, disk')
    ensures WellFormed(es, disk') && Blobs(es, disk') == Blobs(es, disk)
  {
    var n := |es| - 1;
    assert es[..n + 1] == es;
    BlobsOfPrefix(es, disk, n, disk');
  }

  /** The effect of one append on the items, from the head position `(f, off)`. */
  lemma ItemAppended(es: seq<IndexEntry>, disk: Disk, f: nat, off: nat, blob: Blob, len: nat)
    requires WellFormed(es, disk)
    requires f < U16 && f in disk && off <= |disk[f]| && len <= |blob| && off + len < U32
    requires es[|es| - 1] == Entry(f, off) || (es[|es| - 1].filenum < f && off == 0)
    ensures var disk' := disk[f := disk[f] + blob];
            var es' := es + [Entry(f, off + len)];
            var whole := disk[f][off..] + blob;
            && WellFormed(es', disk')
            && Blobs(es', disk') == Blobs(es, disk) + [whole[..len]]
            && disk'[f][off + len..] == whole[len..]
  {
    var disk' := disk[f := disk[f] + blob];
    var e: IndexEntry := Entry(f, off + len);
    BlobsOfSuffixChange(es, disk, disk');
    assert (es + [e])[..|es|] == es;
    var whole := disk[f][off..] + blob;
    assert disk'[f] == disk[f][..off] + whole;
    assert disk'[f][off..off + len] == whole[..len];
  }
}
