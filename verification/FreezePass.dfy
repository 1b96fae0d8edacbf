/**
One pass of the freezer over the two tiers: blocks are copied, flushed, and deleted from the
key-value store.  Every change is a step of the protocol of `Migration`.
 */
module FreezePass {
  import opened Bytes
  import opened FreezerIndex
  import opened FreezerTables
  import opened Ancients
  import opened Migration

  /** The canonical block of this height, read from the key-value store alone. */
  function ReadRow(s: State, n: nat): (row: seq<Blob>)
    ensures row == [] || |row| == KINDS
  {
    if n !in s.canon || |s.canon[n]| == 0 then [] else
      var h := BytesToHash(s.canon[n]);
      if h == BytesToHash([]) || |Get(s, 1, n, h)| == 0 || |Get(s, 2, n, h)| == 0 || |Get(s, 3, n, h)| == 0
         || |Get(s, 4, n, h)| == 0 then []
      else [h, Get(s, 1, n, h), Get(s, 2, n, h), Get(s, 3, n, h), Get(s, 4, n, h)]
  }

  /** A row is read exactly when the canonical hash and all four parts of its block are there and not
      empty; it consists of these. */
  lemma RowIff(s: State, n: nat)
    ensures var row := ReadRow(s, n);
            var h := if n in s.canon then BytesToHash(s.canon[n]) else [];
            && (row != [] <==>
                  && n in s.canon && s.canon[n] != [] && h != BytesToHash([])
                  && forall k :: 1 <= k <= 4 ==> Key(k, n, h) in s.kv && s.kv[Key(k, n, h)] != [])
            && (row != [] ==> |row| == 5 && row[0] == h && forall k :: 1 <= k <= 4 ==> row[k] == s.kv[Key(k, n, h)])
  {
    if n in s.canon && |s.canon[n]| > 0 {
      var h := BytesToHash(s.canon[n]);
      assert Get(s, 1, n, h) != [] <==> Key(1, n, h) in s.kv && s.kv[Key(1, n, h)] != [];
      assert Get(s, 2, n, h) != [] <==> Key(2, n, h) in s.kv && s.kv[Key(2, n, h)] != [];
      assert Get(s, 3, n, h) != [] <==> Key(3, n, h) in s.kv && s.kv[Key(3, n, h)] != [];
      assert Get(s, 4, n, h) != [] <==> Key(4, n, h) in s.kv && s.kv[Key(4, n, h)] != [];
    }
  }

  ghost predicate EvenTables(s: State) {
    |s.tables| == KINDS && forall k :: 0 <= k < KINDS ==> |s.tables[k].items| == s.frozen
  }

  /** The chain is all that can be frozen below `limit`. */
  ghost predicate Whole(chain: seq<Row>, s: State, limit: nat) {
    |chain| >= limit || ReadRow(s, |chain|) == []
  }

  lemma RowsAreRead(keccak: Blob -> Hash, chain: seq<Row>, s: State, n: nat)
    requires Base(keccak, chain, s) && s.deleted <= n < |chain|
    ensures ReadRow(s, n) == chain[n]
  {
  }

  /** How the file system answers when block `n` is offered to table `k`: the outcome of the append, and
      whether it needs a new file. */
  type World = (nat, nat) -> (AppendIO, bool)

  ghost predicate AlwaysWorks(world: World) {
    forall n, k :: world(n, k).0.Works?
  }

  /** No write stores more than it was given. */
  function Clip(io: AppendIO, blob: Blob): (r: AppendIO)
    ensures (r.WriteFails? ==> r.written <= |blob|) && (io.Works? ==> r.Works?)
  {
    if io.WriteFails? && io.written > |blob| then WriteFails(|blob|) else io
  }

  function IosFor(world: World, n: nat, row: Row): (ios: seq<AppendIO>)
    ensures Possible(ios, row) && (AlwaysWorks(world) ==> forall k :: 0 <= k < |row| ==> ios[k].Works?)
  {
    var ios := seq(|row|, k requires 0 <= k < |row| => Clip(world(n, k).0, row[k]));
    assert forall k :: 0 <= k < |row| ==> ios[k] == Clip(world(n, k).0, row[k]);
    ios
  }

  function RotsFor(world: World, n: nat): (rots: seq<bool>)
    ensures |rots| == KINDS
  {
    seq(KINDS, k requires 0 <= k < KINDS => world(n, k).1)
  }

  lemma {:induction false} WorksAt(ios: seq<AppendIO>, rots: seq<bool>, k: nat)
    requires k <= |ios| == |rots|
    ensures (forall i :: 0 <= i < |ios| ==> ios[i].Works?) ==> FirstFailing(ios, rots, k) == |ios|
    decreases |ios| - k
  {
    if k < |ios| {
      WorksAt(ios, rots, k + 1);
    }
  }

  lemma StagedNext(hs: seq<Held>, row: seq<Blob>, rots: seq<bool>, k: nat)
    requires |hs| == |row| == |rots| && k < |hs|
    ensures Staged(hs, row, rots, k + 1) == Staged(hs, row, rots, k)[k := AfterAppend(hs[k], row[k], rots[k])]
    ensures Staged(hs, row, rots, k)[k] == hs[k]
  {
  }

  lemma StagedFails(hs: seq<Held>, row: seq<Blob>, rots: seq<bool>, io: AppendIO, k: nat)
    requires |hs| == |row| == |rots| && k < |hs| && (io.WriteFails? ==> io.written <= |row[k]|)
    ensures Broken(hs, row, rots, io, k) == Staged(hs, row, rots, k)[k := AfterFailure(hs[k], row[k], rots[k], io)]
    ensures Staged(hs, row, rots, k)[k] == hs[k]
  {
  }

  class FreezeLoop {
    var store: State
    /** The states gone through so far, and the steps between them. */
    ghost var run: seq<State>
    ghost var acts: seq<Action>

    ghost predicate Traced(chain: seq<Row>)
      reads this
    {
      Run(chain, run, acts) && run[|run| - 1] == store
    }

    constructor (store: State)
      ensures this.store == store && run == [store] && acts == []
    {
      this.store, run, acts := store, [store], [];
    }

    /** One atomic change of the store. */
    method Advance(s: State, ghost a: Action, ghost chain: seq<Row>)
      requires Traced(chain) && Next(chain, store, a, s)
      modifies this
      ensures Traced(chain) && store == s && old(run) <= run
    {
      store := s;
      run, acts := run + [s], acts + [a];
    }

    /** Appends a block to the five tables in turn; on a failure all are truncated to the common count. */
    method AppendAncient(row: Row, ios: seq<AppendIO>, rots: seq<bool>, ghost chain: seq<Row>) returns (ok: bool)
      requires Traced(chain) && Rows(chain) && EvenTables(store) && store.frozen < |chain| && row == chain[store.frozen]
      requires Possible(ios, row) && |rots| == KINDS
      modifies this
      ensures Traced(chain) && old(run) <= run && (ok <==> FirstFailing(ios, rots, 0) == KINDS)
      ensures EvenTables(store) && store.frozen == old(store.frozen) + if ok then 1 else 0
      ensures store == old(store).(tables := store.tables, frozen := store.frozen)
      ensures store.tables == AfterBlock(old(store.tables), row, ios, rots, old(store.frozen))
    {
      ghost var hs := store.tables;
      var k := 0;
      assert Staged(hs, row, rots, 0) == hs;
      while k < KINDS && Succeeds(ios[k], rots[k])
        invariant k <= KINDS && FirstFailing(ios, rots, 0) == FirstFailing(ios, rots, k)
        invariant Traced(chain) && old(run) <= run
        invariant store == old(store).(tables := Staged(hs, row, rots, k))
      {
        StagedNext(hs, row, rots, k);
        Advance(store.(tables := store.tables[k := AfterAppend(store.tables[k], row[k], rots[k])]),
                Append(k, rots[k]), chain);
        k := k + 1;
      }
      ok := k == KINDS;
      if ok {
        Advance(store.(frozen := store.frozen + 1), Committed, chain);
      } else {
        StagedFails(hs, row, rots, ios[k], k);
        Advance(store.(tables := store.tables[k := AfterFailure(store.tables[k], row[k], rots[k], ios[k])]),
                Fail(k, rots[k], ios[k]), chain);
        BrokenIsRepaired(hs, row, rots, ios[k], k, store.frozen);
        RollBackAll(chain);
      }
    }

    /** Truncates every table to the common item count. */
    method RollBackAll(ghost chain: seq<Row>)
      requires Traced(chain) && |store.tables| == KINDS
      modifies this
      ensures Traced(chain) && old(run) <= run
      ensures store == old(store).(tables := Truncated(old(store.tables), old(store.frozen)))
    {
      ghost var hs := store.tables;
      for k := 0 to KINDS
        invariant Traced(chain) && old(run) <= run && |store.tables| == KINDS
        invariant store == old(store).(tables := store.tables)
        invariant forall j :: 0 <= j < KINDS ==>
                    store.tables[j] == if j < k then AfterTruncate(hs[j], store.frozen) else hs[j]
      {
        Advance(store.(tables := store.tables[k := AfterTruncate(store.tables[k], store.frozen)]), RollBack(k), chain);
      }
    }

    /** Copies blocks until the limit, the first gap or the first failure. */
    method FreezeBlocks(limit: nat, world: World, ghost keccak: Blob -> Hash, ghost chain: seq<Row>)
      returns (ancients: seq<Hash>)
      requires Traced(chain) && Base(keccak, chain, run[0]) && EvenTables(store) && Whole(chain, store, limit)
      modifies this
      ensures Traced(chain) && old(run) <= run && EvenTables(store)
      ensures store == old(store).(tables := store.tables, frozen := store.frozen)
      ensures old(store.frozen) <= store.frozen <= |chain| && |ancients| == store.frozen - old(store.frozen)
      ensures HashesFrom(chain, old(store.frozen), ancients)
      ensures AlwaysWorks(world) ==> store.frozen >= limit || store.frozen == |chain|
      ensures store.frozen <= limit || store.frozen == old(store.frozen)
    {
      ghost var first := store.frozen;
      ancients := [];
      assert store.frozen <= |chain| && Rows(chain) by {
        RunBase(keccak, chain, run, acts, |run| - 1);
      }
      while store.frozen < limit
        invariant Traced(chain) && old(run) <= run && EvenTables(store) && Whole(chain, store, limit)
        invariant store == old(store).(tables := store.tables, frozen := store.frozen)
        invariant first <= store.frozen <= |chain| && |ancients| == store.frozen - first
        invariant store.frozen <= limit || store.frozen == first
        invariant HashesFrom(chain, first, ancients)
        decreases limit - store.frozen
      {
        var ok, hash := FreezeNext(world, limit, keccak, chain);
        if !ok {
          break;
        }
        HashesFromNext(chain, first, ancients, hash);
        ancients := ancients + [hash];
      }
    }

    /** Copies one block, unless it is incomplete or an append fails. */
    method FreezeNext(world: World, ghost limit: nat, ghost keccak: Blob -> Hash, ghost chain: seq<Row>)
      returns (ok: bool, hash: Hash)
      requires Traced(chain) && Base(keccak, chain, run[0]) && EvenTables(store) && Whole(chain, store, limit)
      requires store.frozen < limit
      modifies this
      ensures Traced(chain) && old(run) <= run && EvenTables(store) && Whole(chain, store, limit)
      ensures store == old(store).(tables := store.tables, frozen := store.frozen)
      ensures Rows(chain) && store.frozen == old(store.frozen) + if ok then 1 else 0
      ensures ok ==> store.frozen <= |chain| && hash == chain[old(store.frozen)][0]
      ensures !ok && AlwaysWorks(world) ==> store.frozen == |chain|
    {
      var row := ReadRow(store, store.frozen);
      assert Rows(chain) && store.frozen <= |chain| && (store.frozen < |chain| ==> row == chain[store.frozen]) by {
        RunBase(keccak, chain, run, acts, |run| - 1);
        if store.frozen < |chain| {
          RowsAreRead(keccak, chain, store, store.frozen);
        }
      }
      if row == [] {
        return false, [];
      }
      var ios, rots := IosFor(world, store.frozen, row), RotsFor(world, store.frozen);
      WorksAt(ios, rots, 0);
      ok := AppendAncient(row, ios, rots, chain);
      hash := row[0];
    }

    /**
    A write stops half-way, the block is appended again, and the key-value store gives its copy up.
    The read of that kind of data then fails for ever, unless the blob happens to repeat itself.
     */
    method RetryAfterHalfWrite(k: nat, w: nat, ghost keccak: Blob -> Hash, ghost chain: seq<Row>)
      requires Traced(chain) && Base(keccak, chain, store) && EvenTables(store) && Clean(store) && ShortBlobs(chain)
      requires 0 < store.frozen < |chain| && 2 <= k < KINDS && w <= |chain[store.frozen][k]|
      modifies this
      ensures Traced(chain) && old(run) <= run
      ensures var n := old(store.frozen);
              && Key(k, n, chain[n][0]) !in store.kv
              && (ReadPart([store, store, store, store, store], k, chain[n][0], n) == chain[n][k] <==>
                    Periodic(chain[n][k], w))
    {
      ghost var hs := store.tables;
      var n := store.frozen;
      var row := ReadRow(store, n);
      assert GoodRow(keccak, row) && row == chain[n] by {
        RowsAreRead(keccak, chain, store, n);
      }
      ghost var was := store;
      AppendTwice(row, k, w, chain);
      GiveUp(row[0], n, chain);
      RetriedRead(was, store, row, k, w, n, chain);
    }

    /** Flushes the tables and deletes the one block just frozen from the key-value store. */
    method GiveUp(hash: Hash, n: nat, ghost chain: seq<Row>)
      requires Traced(chain) && Rows(chain) && store.frozen == n + 1 <= |chain| && hash == chain[n][0] && n > 0
      modifies this
      ensures Traced(chain) && old(run) <= run && store.tables == old(store.tables)
      ensures forall k :: 1 <= k < KINDS ==> Key(k, n, chain[n][0]) !in store.kv
    {
      Advance(store.(synced := store.frozen), Flush, chain);
      DeleteFrozen(n, [hash], chain);
    }

    method AppendTwice(row: Row, k: nat, w: nat, ghost chain: seq<Row>)
      requires Traced(chain) && Rows(chain) && EvenTables(store) && store.frozen < |chain| && row == chain[store.frozen]
      requires k < KINDS && w <= |row[k]|
      modifies this
      ensures Traced(chain) && old(run) <= run && EvenTables(store) && store.frozen == old(store.frozen) + 1
      ensures store == old(store).(tables := Again(old(store.tables), row, k, w, old(store.frozen)),
                                   frozen := store.frozen)
    {
      FailsFirstAt(k, w, 0);
      var ok := AppendAncient(row, FailsAt(k, w), Never(), chain);
      FailsFirstAt(KINDS, 0, 0);
      ok := AppendAncient(row, FailsAt(KINDS, 0), Never(), chain);
    }

    /** Deletes the blocks just frozen from the key-value store. */
    method DeleteFrozen(first: nat, ancients: seq<Hash>, ghost chain: seq<Row>)
      requires Traced(chain) && Rows(chain) && store.synced == store.frozen <= |chain|
               && |ancients| == store.frozen - first
      requires HashesFrom(chain, first, ancients)
      modifies this
      ensures Traced(chain) && old(run) <= run && DropCanonical(chain, old(store), store, first)
    {
      var kv, canon := CanonicalBatch(store, first, ancients, chain);
      var deleted := if first < store.synced && store.deleted < store.synced then store.synced else store.deleted;
      Advance(store.(kv := kv, canon := canon, deleted := deleted), DeleteCanonical(first), chain);
    }

    /** Deletes whatever other blocks the key-value store has at the heights just frozen. */
    method DeleteSides(first: nat, ghost chain: seq<Row>)
      requires Traced(chain) && Rows(chain) && store.synced == store.frozen && first <= store.frozen
      requires NoCanonicalHeader(chain, store, first, store.frozen)
      modifies this
      ensures Traced(chain) && old(run) <= run && DropSide(old(store), store, first, store.frozen)
    {
      var kv, numbers := SideBatch(store, first, store.frozen);
      Advance(store.(kv := kv, numbers := numbers), DeleteSide(first, store.frozen), chain);
    }

    /**
    One pass of the freezer.  Exactly the heights it froze, the genesis excepted, lose every block
    whose header was in the key-value store; everything else in it stays.  The index from hash
    to number loses the other blocks of those heights only.
     */
    method FreezePass(limit: nat, world: World, ghost keccak: Blob -> Hash, ghost chain: seq<Row>)
      requires Traced(chain) && Base(keccak, chain, run[0]) && EvenTables(store) && Whole(chain, store, limit)
      modifies this
      ensures Traced(chain) && old(run) <= run && EvenTables(store)
      ensures old(store.frozen) <= store.frozen
      ensures AlwaysWorks(world) ==> store.frozen >= limit || store.frozen == |chain|
      ensures store.frozen <= limit || store.frozen == old(store.frozen)
      ensures store.kv == old(store.kv) - SideKeys(old(store), old(store.frozen), store.frozen)
      ensures forall key :: key in store.kv <==>
                key in old(store.kv)
                && !(key.kind in {1, 2, 3, 4} && old(store.frozen) <= key.number < store.frozen && key.number > 0
                     && Key(1, key.number, key.hash) in old(store.kv))
      ensures forall m :: m in store.canon <==>
                m in old(store.canon) && !(old(store.frozen) <= m < store.frozen && m > 0)
      ensures store.canon == old(store.canon) - Heights(old(store), old(store.frozen), store.frozen)
      ensures store.numbers == old(store.numbers) - OtherHashes(chain, old(store), old(store.frozen), store.frozen)
    {
      ghost var was := store;
      var first := store.frozen;
      RunBase(keccak, chain, run, acts, |run| - 1);
      var ancients := FreezeBlocks(limit, world, keccak, chain);
      Advance(store.(synced := store.frozen), Flush, chain);
      ghost var mid := store;
      DeleteFrozen(first, ancients, chain);
      ghost var mid' := store;
      PassEffect(keccak, chain, was, mid, mid', first);
      DeleteSides(first, chain);
    }
  }

  /** What the tables hold is read first. */
  lemma ReadsAncient(s: State, k: nat, hash: Hash, n: nat)
    requires Ancient(s, k, n) != [] && BytesToHash(Ancient(s, 0, n)) == hash
    ensures ReadPart([s, s, s, s, s], k, hash, n) == Ancient(s, k, n)
  {
  }

  /** The file system fails at kind `k`, half-way through its write. */
  function FailsAt(k: nat, w: nat): (ios: seq<AppendIO>)
    ensures |ios| == KINDS && forall i :: 0 <= i < KINDS ==> ios[i] == if i == k then WriteFails(w) else Works
  {
    seq(KINDS, i => if i == k then WriteFails(w) else Works)
  }

  function Never(): (rots: seq<bool>)
    ensures |rots| == KINDS && forall i :: 0 <= i < KINDS ==> !rots[i]
  {
    seq(KINDS, _ => false)
  }

  lemma {:induction false} FailsFirstAt(k: nat, w: nat, i: nat)
    requires i <= KINDS && i <= k
    ensures FirstFailing(FailsAt(k, w), Never(), i) == if k < KINDS then k else KINDS
    decreases KINDS - i
  {
    if i < KINDS && i < k {
      FailsFirstAt(k, w, i + 1);
    }
  }

  /** The tables after kind `k` was half-written and the block appended again. */
  ghost function Again(hs: seq<Held>, row: Row, k: nat, w: nat, n: nat): (r: seq<Held>)
    requires |hs| == |row| == KINDS && k < KINDS && w <= |row[k]|
    ensures |r| == KINDS
  {
    AfterBlock(AfterBlock(hs, row, FailsAt(k, w), Never(), n), row, FailsAt(KINDS, 0), Never(), n)
  }

  /** What is then read of that kind, when the key-value store has given its copy up. */
  lemma RetriedRead(s: State, s': State, row: Row, k: nat, w: nat, n: nat, chain: seq<Row>)
    requires Rows(chain) && n < |chain| && row == chain[n] && n > 0 && EvenTables(s) && s.frozen == n && Clean(s)
    requires 2 <= k < KINDS && w <= |row[k]| && row[k] != [] && |row[0]| == HASH_LENGTH
    requires forall i :: 0 <= i < KINDS ==> |row[i]| < U32
    requires s'.tables == Again(s.tables, row, k, w, n)
    ensures ReadPart([s', s', s', s', s'], k, row[0], n) == row[k] <==> Periodic(row[k], w)
  {
    Retried(s.tables, row, k, w, n);
    assert Ancient(s', k, n) == s'.tables[k].items[n] && Ancient(s', 0, n) == row[0];
    ReadsAncient(s', k, row[0], n);
  }

  /** Kind `k` was half-written and is appended again: what the tables then hold at the new height. */
  lemma Retried(hs: seq<Held>, row: Row, k: nat, w: nat, n: nat)
    requires |hs| == |row| == KINDS && 0 < k < KINDS && w <= |row[k]| && Even(hs, n)
    requires forall i :: 0 <= i < KINDS ==> hs[i].dangling == [] && |row[i]| < U32
    ensures Possible(FailsAt(k, w), row) && Possible(FailsAt(KINDS, 0), row)
    ensures var again := Again(hs, row, k, w, n);
            && Even(again, n + 1) && again[0].items[n] == row[0]
            && |again[k].items[n]| == |row[k]| && (again[k].items[n] == row[k] <==> Periodic(row[k], w))
  {
    var after := AfterBlock(hs, row, FailsAt(k, w), Never(), n);
    FailedOnce(hs, row, k, w, n);
    FailsFirstAt(KINDS, 0, 0);
    var again := Again(hs, row, k, w, n);
    assert again == Staged(after, row, Never(), KINDS);
    StoredBlobIff(after[0], row[0], false);
    RetryStoresBlobIff(hs[k], row[k], w);
    assert again[k].items == hs[k].items + [again[k].items[n]];
  }

  lemma FailedOnce(hs: seq<Held>, row: Row, k: nat, w: nat, n: nat)
    requires |hs| == |row| == KINDS && 0 < k < KINDS && w <= |row[k]| && Even(hs, n)
    ensures var after := AfterBlock(hs, row, FailsAt(k, w), Never(), n);
            && Even(after, n) && after[0] == Held(hs[0].items, [])
            && after[k] == AfterFailure(hs[k], row[k], false, WriteFails(w))
  {
    FailsFirstAt(k, w, 0);
    BrokenIsRepaired(hs, row, Never(), WriteFails(w), k, n);
  }

  /** The hashes of blocks at these heights that are not canonical. */
  ghost function OtherHashes(chain: seq<Row>, s: State, from: nat, to: nat): set<Hash>
    requires Rows(chain)
  {
    set key | key in SideKeys(s, from, to) && !Canonical(chain, key) :: key.hash
  }

  /** Deleting the canonical blocks first leaves exactly the others for the second batch. */
  lemma PassEffect(keccak: Blob -> Hash, chain: seq<Row>, s: State, mid: State, mid': State, first: nat)
    requires Base(keccak, chain, s) && s.frozen == first <= mid.frozen <= |chain|
    requires mid == s.(tables := mid.tables, frozen := mid.frozen, synced := mid.frozen)
    requires DropCanonical(chain, mid, mid', first)
    ensures NoCanonicalHeader(chain, mid', first, mid.frozen)
    ensures mid'.kv - SideKeys(mid', first, mid.frozen) == s.kv - SideKeys(s, first, mid.frozen)
    ensures mid'.canon == s.canon - Heights(s, first, mid.frozen)
    ensures mid'.numbers - SideHashes(mid', first, mid.frozen) == s.numbers - OtherHashes(chain, s, first, mid.frozen)
  {
  }

  /** The hashes of the blocks from height `first` on. */
  ghost predicate HashesFrom(chain: seq<Row>, first: nat, hashes: seq<Hash>) {
    && first + |hashes| <= |chain| && Rows(chain)
    && forall i {:trigger hashes[i]} :: 0 <= i < |hashes| ==> hashes[i] == chain[first + i][0]
  }

  lemma HashesFromNext(chain: seq<Row>, first: nat, hashes: seq<Hash>, h: Hash)
    requires HashesFrom(chain, first, hashes) && first + |hashes| < |chain| && h == chain[first + |hashes|][0]
    ensures HashesFrom(chain, first, hashes + [h])
  {
  }

  method CanonicalBatch(s: State, first: nat, ancients: seq<Hash>, ghost chain: seq<Row>)
    returns (kv: map<Key, Blob>, canon: map<nat, Hash>)
    requires Rows(chain) && HashesFrom(chain, first, ancients)
    ensures kv == s.kv - CanonicalKeys(chain, s, first, first + |ancients|)
    ensures canon == s.canon - Heights(s, first, first + |ancients|)
  {
    kv, canon := s.kv, s.canon;
    for i := 0 to |ancients|
      invariant kv == s.kv - CanonicalKeys(chain, s, first, first + i)
      invariant canon == s.canon - Heights(s, first, first + i)
    {
      if first + i != 0 {
        CanonicalKeysNext(chain, s, first, first + i);
        kv := kv - BlockKeys(first + i, ancients[i]);
        canon := canon - {first + i};
      }
    }
  }

  method SideBatch(s: State, first: nat, end: nat) returns (kv: map<Key, Blob>, numbers: map<Hash, nat>)
    requires first <= end
    ensures kv == s.kv - SideKeys(s, first, end)
    ensures numbers == s.numbers - SideHashes(s, first, end)
  {
    kv, numbers := s.kv, s.numbers;
    for number := first to end
      invariant kv == s.kv - SideKeys(s, first, number)
      invariant numbers == s.numbers - SideHashes(s, first, number)
    {
      if number != 0 {
        var hashes := ReadAllHashes(s, number);
        SideKeysNext(s, first, number);
        kv := kv - KeysOf(s, number, hashes);
        numbers := numbers - hashes;
      }
    }
  }

  /** The hashes of all headers stored for a height. */
  function ReadAllHashes(s: State, n: nat): (r: set<Hash>)
    ensures forall h :: h in r <==> Key(1, n, h) in s.kv
  {
    set key | key in s.kv && key.kind == 1 && key.number == n :: key.hash
  }

  function KeysOf(s: State, n: nat, hashes: set<Hash>): set<Key> {
    set key | key in s.kv && key.number == n && 1 <= key.kind < KINDS && key.hash in hashes
  }

  function BlockKeys(n: nat, h: Hash): set<Key> {
    {Key(1, n, h), Key(2, n, h), Key(3, n, h), Key(4, n, h)}
  }

  lemma CanonicalKeysNext(chain: seq<Row>, s: State, from: nat, n: nat)
    requires Rows(chain) && from <= n < |chain| && n != 0
    ensures s.kv - CanonicalKeys(chain, s, from, n + 1)
         == s.kv - CanonicalKeys(chain, s, from, n) - BlockKeys(n, chain[n][0])
  {
  }

  lemma SideKeysNext(s: State, from: nat, n: nat)
    requires from <= n && n != 0
    ensures SideKeys(s, from, n + 1) == SideKeys(s, from, n)
              + KeysOf(s, n, ReadAllHashes(s, n))
    ensures SideHashes(s, from, n + 1) == SideHashes(s, from, n) + ReadAllHashes(s, n)
  {
  }
}
