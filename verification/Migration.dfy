/**
Moving old blocks from the key-value store into the ancient store.  Readers look through both
tiers, one lookup after the other, while a freeze pass appends, flushes and deletes between
their lookups.  A block is a row of five blobs: hash, header, body, receipts, difficulty.
 */
module Migration {
  import opened Bytes
  import opened FreezerIndex
  import opened FreezerTables
  import opened Ancients

  type Hash = seq<byte>
  type Row = seq<Blob>

  const HASH_LENGTH := 32

  /** A row of the key-value store: one kind of data of one block. */
  datatype Key = Key(kind: nat, number: nat, hash: Hash)

  /**
  Both tiers.  A table holds its items, and whatever bytes a write that stopped half-way left behind
  the last of them.  `frozen` is the common item count of the ancient tables, which one append or one
  rollback may be about to change; `synced` items are flushed; canonical data below `deleted`
  may be gone from the key-value store, the genesis block excepted.
   */
  datatype State = State(tables: seq<Held>, kv: map<Key, Blob>, canon: map<nat, Hash>, numbers: map<Hash, nat>,
                         frozen: nat, synced: nat, deleted: nat)

  function BytesToHash(b: Blob): (h: Hash)
    ensures |h| == HASH_LENGTH
    ensures |b| == HASH_LENGTH ==> h == b
  {
    if |b| > HASH_LENGTH then b[|b| - HASH_LENGTH..] else Zeros(HASH_LENGTH - |b|) + b
  }

  /** An item of the ancient store; a missing one reads as empty. */
  function Ancient(s: State, kind: nat, n: nat): Blob {
    if kind < |s.tables| && n < |s.tables[kind].items| then s.tables[kind].items[n] else []
  }

  function Get(s: State, kind: nat, n: nat, hash: Hash): Blob {
    if Key(kind, n, hash) in s.kv then s.kv[Key(kind, n, hash)] else []
  }

  // ----- readers; each lookup may see a later state than the one before

  /** The header is accepted if it hashes to what is asked for. */
  function ReadHeader(keccak: Blob -> Hash, t: seq<State>, hash: Hash, n: nat): Blob
    requires |t| == 3
  {
    var first := Ancient(t[0], 1, n);
    if |first| > 0 && keccak(first) == hash then first else
      var data := Get(t[1], 1, n, hash);
      if |data| > 0 then data else
        var again := Ancient(t[2], 1, n);
        if |again| > 0 && keccak(again) == hash then again else []
  }

  /** Body, receipts or difficulty, checked against the hash table. */
  function ReadPart(t: seq<State>, kind: nat, hash: Hash, n: nat): Blob
    requires |t| == 5
  {
    var first := Ancient(t[0], kind, n);
    if |first| > 0 && BytesToHash(Ancient(t[1], 0, n)) == hash then first else
      var data := Get(t[2], kind, n, hash);
      if |data| > 0 then data else
        var again := Ancient(t[3], kind, n);
        if |again| > 0 && BytesToHash(Ancient(t[4], 0, n)) == hash then again else []
  }

  function ReadCanonicalHash(t: seq<State>, n: nat): Hash
    requires |t| == 3
  {
    var first := Ancient(t[0], 0, n);
    var data := if |first| > 0 then first
                else if n in t[1].canon && |t[1].canon[n]| > 0 then t[1].canon[n]
                else Ancient(t[2], 0, n);
    BytesToHash(data)
  }

  // ----- what a freeze pass keeps

  /** A canonical block as it is stored. */
  ghost predicate GoodRow(keccak: Blob -> Hash, row: Row) {
    && |row| == KINDS && |row[0]| == HASH_LENGTH && row[0] != BytesToHash([]) && keccak(row[1]) == row[0]
    && forall k :: 0 <= k < KINDS ==> row[k] != []
  }

  ghost predicate GoodChain(keccak: Blob -> Hash, chain: seq<Row>) {
    forall n :: 0 <= n < |chain| ==> GoodRow(keccak, chain[n])
  }

  predicate Rows(chain: seq<Row>) {
    forall n :: 0 <= n < |chain| ==> |chain[n]| == KINDS
  }

  predicate Canonical(chain: seq<Row>, key: Key)
    requires Rows(chain)
  {
    1 <= key.kind < KINDS && key.number < |chain| && key.hash == chain[key.number][0]
  }

  /** Table `k` holds the k-th blobs of the first blocks. */
  ghost predicate TableOk(s: State, chain: seq<Row>, k: nat)
    requires Rows(chain) && Counts(s, chain) && k < KINDS
  {
    forall n :: 0 <= n < |s.tables[k].items| ==> s.tables[k].items[n] == chain[n][k]
  }

  /** The tables have `frozen` items or one more, and nothing is deleted that is not flushed. */
  ghost predicate Counts(s: State, chain: seq<Row>) {
    && |s.tables| == KINDS && s.deleted <= s.synced <= s.frozen <= |chain|
    && forall k :: 0 <= k < KINDS ==> s.frozen <= |s.tables[k].items| <= s.frozen + 1 && |s.tables[k].items| <= |chain|
  }

  /** Canonical data not yet given up is in the key-value store. */
  ghost predicate KvOk(s: State, chain: seq<Row>)
    requires Rows(chain)
  {
    && (forall k, n :: 1 <= k < KINDS && 0 <= n < |chain| ==>
          if n == 0 || n >= s.deleted then Key(k, n, chain[n][0]) in s.kv && s.kv[Key(k, n, chain[n][0])] == chain[n][k]
          else Key(k, n, chain[n][0]) in s.kv ==> s.kv[Key(k, n, chain[n][0])] == chain[n][k])
    && (forall n :: 0 <= n < |chain| ==>
          if n == 0 || n >= s.deleted then n in s.canon && s.canon[n] == chain[n][0]
          else n in s.canon ==> s.canon[n] == chain[n][0])
    && (forall n :: 0 <= n < |chain| ==> chain[n][0] in s.numbers && s.numbers[chain[n][0]] == n)
    && NumbersOk(s)
  }

  /** A stored header sits at the height its hash is known for. */
  ghost predicate NumbersOk(s: State) {
    forall n, h :: Key(1, n, h) in s.kv && h in s.numbers ==> s.numbers[h] == n
  }

  /** What holds whatever the tables were given: counts, and the key-value store. */
  ghost predicate Base(keccak: Blob -> Hash, chain: seq<Row>, s: State) {
    GoodChain(keccak, chain) && Counts(s, chain) && KvOk(s, chain)
  }

  /** `chain` is the canonical chain so far, spread over the two tiers without a gap. */
  ghost predicate Inv(keccak: Blob -> Hash, chain: seq<Row>, s: State) {
    Base(keccak, chain, s) && forall k :: 0 <= k < KINDS ==> TableOk(s, chain, k)
  }

  // ----- the steps between which readers look, and after which a crash may come

  /** Table `k` is given its blob of the next block. */
  ghost predicate Offered(chain: seq<Row>, s: State, k: nat) {
    Rows(chain) && |s.tables| == KINDS && k < KINDS && |s.tables[k].items| == s.frozen < |chain|
  }

  /** The table takes the blob, behind whatever dangles unless it opens a new file. */
  ghost predicate AppendOne(chain: seq<Row>, s: State, s': State, k: nat, rotates: bool) {
    && Offered(chain, s, k)
    && s' == s.(tables := s.tables[k := AfterAppend(s.tables[k], chain[s.frozen][k], rotates)])
  }

  /** The write fails, perhaps half-way; what it has written dangles. */
  ghost predicate FailOne(chain: seq<Row>, s: State, s': State, k: nat, rotates: bool, io: AppendIO) {
    && Offered(chain, s, k) && (io.WriteFails? ==> io.written <= |chain[s.frozen][k]|)
    && s' == s.(tables := s.tables[k := AfterFailure(s.tables[k], chain[s.frozen][k], rotates, io)])
  }

  /** All five have taken it. */
  ghost predicate Commit(s: State, s': State) {
    && (forall k :: 0 <= k < |s.tables| ==> |s.tables[k].items| == s.frozen + 1)
    && s' == s.(frozen := s.frozen + 1)
  }

  /** After a failed append a table is truncated again, which does nothing if it has no item too many. */
  ghost predicate Rollback(s: State, s': State, k: nat) {
    && k < |s.tables|
    && s' == s.(tables := s.tables[k := AfterTruncate(s.tables[k], s.frozen)])
  }

  ghost predicate Sync(s: State, s': State) {
    s' == s.(synced := s.frozen)
  }

  /** A crash may lose items that were not flushed; opening the store evens the tables, and cuts off
      what dangles. */
  ghost predicate Crash(s: State, s': State, m: nat) {
    && s.synced <= m && (forall k :: 0 <= k < |s.tables| ==> m <= |s.tables[k].items|)
    && s' == s.(tables := Cut(s.tables, m), frozen := m)
  }

  ghost function Cut(tables: seq<Held>, m: nat): (r: seq<Held>)
    requires forall k :: 0 <= k < |tables| ==> m <= |tables[k].items|
    ensures |r| == |tables| && forall k :: 0 <= k < |tables| ==> r[k] == Held(tables[k].items[..m], [])
  {
    seq(|tables|, k requires 0 <= k < |tables| => Held(tables[k].items[..m], []))
  }

  /** The canonical blocks from `from` on leave the key-value store, in one batch. */
  ghost predicate DropCanonical(chain: seq<Row>, s: State, s': State, from: nat) {
    && Rows(chain) && s.synced <= |chain|
    && s' == s.(kv := s.kv - CanonicalKeys(chain, s, from, s.synced),
                canon := s.canon - Heights(s, from, s.synced),
                deleted := if from < s.synced && s.deleted < s.synced then s.synced else s.deleted)
  }

  /** The key-value entries of canonical blocks of height `from` to `to - 1`; never the genesis. */
  ghost function CanonicalKeys(chain: seq<Row>, s: State, from: nat, to: nat): set<Key>
    requires Rows(chain)
  {
    set key | key in s.kv && Canonical(chain, key) && from <= key.number < to && key.number != 0
  }

  ghost function Heights(s: State, from: nat, to: nat): set<nat> {
    set n | n in s.canon && from <= n < to && n != 0
  }

  /** The blocks of height `from` to `to - 1` whose headers are still in the key-value store leave it. */
  ghost predicate DropSide(s: State, s': State, from: nat, to: nat) {
    s' == s.(kv := s.kv - SideKeys(s, from, to), numbers := s.numbers - SideHashes(s, from, to))
  }

  ghost function SideKeys(s: State, from: nat, to: nat): set<Key> {
    set key | key in s.kv && InSide(s, from, to, key)
  }

  ghost function SideHashes(s: State, from: nat, to: nat): set<Hash> {
    set key | key in SideKeys(s, from, to) :: key.hash
  }

  predicate InSide(s: State, from: nat, to: nat, key: Key) {
    1 <= key.kind < KINDS && from <= key.number < to && key.number != 0 && Key(1, key.number, key.hash) in s.kv
  }

  /** Other threads write and delete blocks, but no canonical ones of this chain. */
  ghost predicate Other(chain: seq<Row>, s: State, s': State) {
    && Rows(chain) && NumbersOk(s')
    && s' == s.(kv := s'.kv, canon := s'.canon, numbers := s'.numbers)
    && (forall key :: Canonical(chain, key) ==>
          (key in s.kv <==> key in s'.kv) && (key in s.kv ==> s'.kv[key] == s.kv[key]))
    && (forall n :: 0 <= n < |chain| ==>
          (n in s.canon <==> n in s'.canon) && (n in s.canon ==> s'.canon[n] == s.canon[n]))
    && (forall n :: 0 <= n < |chain| ==>
          chain[n][0] in s.numbers ==> chain[n][0] in s'.numbers && s'.numbers[chain[n][0]] == s.numbers[chain[n][0]])
  }

  ghost predicate NoCanonicalHeader(chain: seq<Row>, s: State, from: nat, to: nat)
    requires Rows(chain)
  {
    forall n :: from <= n < to && 0 < n < |chain| ==> Key(1, n, chain[n][0]) !in s.kv
  }

  datatype Action = Append(k: nat, rotates: bool) | Fail(k: nat, rotates: bool, io: AppendIO)
                  | Committed | RollBack(k: nat) | Flush | Restart(m: nat)
                  | DeleteCanonical(from: nat) | DeleteSide(from: nat, to: nat) | Elsewhere

  ghost predicate Next(chain: seq<Row>, s: State, a: Action, s': State) {
    match a
    case Append(k, rotates) => AppendOne(chain, s, s', k, rotates)
    case Fail(k, rotates, io) => FailOne(chain, s, s', k, rotates, io)
    case Committed => Commit(s, s')
    case RollBack(k) => Rollback(s, s', k)
    case Flush => Sync(s, s')
    case Restart(m) => Crash(s, s', m)
    case DeleteCanonical(from) => DropCanonical(chain, s, s', from)
    case DeleteSide(from, to) =>
      to <= s.synced && Rows(chain) && NoCanonicalHeader(chain, s, from, to) && DropSide(s, s', from, to)
    case Elsewhere => Other(chain, s, s')
  }

  // ----- what every step keeps: the counts and the key-value store

  lemma TablesBase(keccak: Blob -> Hash, chain: seq<Row>, s: State, s': State)
    requires Base(keccak, chain, s) && Counts(s', chain)
    requires s' == s.(tables := s'.tables, frozen := s'.frozen, synced := s'.synced)
    ensures Base(keccak, chain, s')
  {
  }

  lemma DropCanonicalBase(keccak: Blob -> Hash, chain: seq<Row>, s: State, s': State, from: nat)
    requires Base(keccak, chain, s) && DropCanonical(chain, s, s', from)
    ensures Base(keccak, chain, s')
  {
  }

  lemma DropSideBase(keccak: Blob -> Hash, chain: seq<Row>, s: State, s': State, from: nat, to: nat)
    requires Base(keccak, chain, s) && NoCanonicalHeader(chain, s, from, to) && DropSide(s, s', from, to)
             && to <= |chain|
    ensures Base(keccak, chain, s')
  {
    forall key | key in s.kv && InSide(s, from, to, key) ensures !Canonical(chain, key) {
    }
    forall n, key | 0 <= n < |chain| && key in s.kv && InSide(s, from, to, key) ensures key.hash != chain[n][0] {
      assert Key(1, key.number, key.hash) in s.kv;
    }
    assert KvOk(s', chain);
  }

  lemma OtherBase(keccak: Blob -> Hash, chain: seq<Row>, s: State, s': State)
    requires Base(keccak, chain, s) && Other(chain, s, s')
    ensures Base(keccak, chain, s')
  {
    forall k, n | 1 <= k < KINDS && 0 <= n < |chain| ensures Canonical(chain, Key(k, n, chain[n][0])) {
    }
    assert KvOk(s', chain);
  }

  lemma NextBase(keccak: Blob -> Hash, chain: seq<Row>, s: State, a: Action, s': State)
    requires Base(keccak, chain, s) && Next(chain, s, a, s')
    ensures Base(keccak, chain, s') && s.deleted <= s'.deleted
  {
    match a
    case DeleteCanonical(from) => DropCanonicalBase(keccak, chain, s, s', from);
    case DeleteSide(from, to) => DropSideBase(keccak, chain, s, s', from, to);
    case Elsewhere => OtherBase(keccak, chain, s, s');
    case Committed =>
      assert |s.tables[0].items| == s.frozen + 1;
      TablesBase(keccak, chain, s, s');
    case Restart(m) =>
      assert m <= |s.tables[0].items|;
      TablesBase(keccak, chain, s, s');
    case _ => TablesBase(keccak, chain, s, s');
  }

  // ----- what the tables keep: an append is right exactly when nothing that dangles shifts it

  /** The append stores its blob unchanged. */
  ghost predicate Unshifted(chain: seq<Row>, s: State, a: Action)
    requires a.Append? ==> Offered(chain, s, a.k)
  {
    a.Append? ==> StoresWhole(s.tables[a.k], chain[s.frozen][a.k], a.rotates)
  }

  lemma AppendTableIff(chain: seq<Row>, s: State, s': State, k: nat, rotates: bool)
    requires Rows(chain) && Counts(s, chain) && Counts(s', chain) && AppendOne(chain, s, s', k, rotates)
             && TableOk(s, chain, k)
    ensures TableOk(s', chain, k) <==> StoresWhole(s.tables[k], chain[s.frozen][k], rotates)
  {
    var h, blob := s.tables[k], chain[s.frozen][k];
    StoredBlobIff(h, blob, rotates);
    var items := s'.tables[k].items;
    assert items[..s.frozen] == h.items;
    assert items == h.items + [items[s.frozen]];
    if TableOk(s', chain, k) {
      assert items[s.frozen] == blob;
    }
  }

  /** A step keeps the canonical chain complete across the two tiers if and only if it is not an append
      that dangling bytes shift. */
  lemma NextInvIff(keccak: Blob -> Hash, chain: seq<Row>, s: State, a: Action, s': State)
    requires Inv(keccak, chain, s) && Next(chain, s, a, s')
    ensures Inv(keccak, chain, s') <==> Unshifted(chain, s, a)
  {
    NextBase(keccak, chain, s, a, s');
    forall j | 0 <= j < KINDS && !(a.Append? && a.k == j) ensures TableOk(s', chain, j) {
      assert TableOk(s, chain, j);
    }
    if a.Append? {
      assert TableOk(s, chain, a.k);
      AppendTableIff(chain, s, s', a.k, a.rotates);
    }
  }

  /** The states a system goes through, and what happens between them. */
  ghost predicate Run(chain: seq<Row>, run: seq<State>, acts: seq<Action>) {
    |run| == |acts| + 1 && forall i {:trigger acts[i]} :: 0 <= i < |acts| ==> Next(chain, run[i], acts[i], run[i + 1])
  }

  lemma {:induction false} RunBase(keccak: Blob -> Hash, chain: seq<Row>, run: seq<State>, acts: seq<Action>, i: nat)
    requires Run(chain, run, acts) && Base(keccak, chain, run[0]) && i < |run|
    ensures Base(keccak, chain, run[i])
  {
    if i > 0 {
      RunBase(keccak, chain, run, acts, i - 1);
      NextBase(keccak, chain, run[i - 1], acts[i - 1], run[i]);
    }
  }

  /** No append of the run is shifted. */
  ghost predicate UnshiftedRun(chain: seq<Row>, run: seq<State>, acts: seq<Action>)
    requires Run(chain, run, acts)
  {
    forall i {:trigger acts[i]} :: 0 <= i < |acts| ==> Unshifted(chain, run[i], acts[i])
  }

  lemma {:induction false} RunInv(keccak: Blob -> Hash, chain: seq<Row>, run: seq<State>, acts: seq<Action>, i: nat,
                                  j: nat)
    requires Run(chain, run, acts) && UnshiftedRun(chain, run, acts) && Inv(keccak, chain, run[0]) && i <= j < |run|
    ensures Inv(keccak, chain, run[i]) && Inv(keccak, chain, run[j]) && run[i].deleted <= run[j].deleted
    decreases j
  {
    if i < j {
      RunInv(keccak, chain, run, acts, i, j - 1);
      RunStep(keccak, chain, run, acts, j - 1);
    } else if j > 0 {
      RunInv(keccak, chain, run, acts, j - 1, j - 1);
      RunStep(keccak, chain, run, acts, j - 1);
    }
  }

  lemma RunStep(keccak: Blob -> Hash, chain: seq<Row>, run: seq<State>, acts: seq<Action>, i: nat)
    requires Run(chain, run, acts) && i < |acts| && Inv(keccak, chain, run[i])
    ensures Next(chain, run[i], acts[i], run[i + 1]) && run[i].deleted <= run[i + 1].deleted
    ensures Inv(keccak, chain, run[i + 1]) <==> Unshifted(chain, run[i], acts[i])
  {
    NextBase(keccak, chain, run[i], acts[i], run[i + 1]);
    NextInvIff(keccak, chain, run[i], acts[i], run[i + 1]);
  }

  /** A run keeps the canonical chain complete in all its states if and only if none of its appends is
      shifted. */
  lemma RunInvIff(keccak: Blob -> Hash, chain: seq<Row>, run: seq<State>, acts: seq<Action>)
    requires Run(chain, run, acts) && Inv(keccak, chain, run[0])
    ensures UnshiftedRun(chain, run, acts) <==> forall i :: 0 <= i < |run| ==> Inv(keccak, chain, run[i])
  {
    if UnshiftedRun(chain, run, acts) {
      forall i | 0 <= i < |run| ensures Inv(keccak, chain, run[i]) {
        RunInv(keccak, chain, run, acts, i, i);
      }
    }
    if forall i :: 0 <= i < |run| ==> Inv(keccak, chain, run[i]) {
      forall i | 0 <= i < |acts| ensures Unshifted(chain, run[i], acts[i]) {
        RunStep(keccak, chain, run, acts, i);
      }
    }
  }

  /** Nothing dangles in any table. */
  ghost predicate Clean(s: State) {
    forall k :: 0 <= k < |s.tables| ==> s.tables[k].dangling == []
  }

  /** Writes that fail store nothing. */
  ghost predicate NothingHalfWritten(acts: seq<Action>) {
    forall i :: 0 <= i < |acts| && acts[i].Fail? && acts[i].io.WriteFails? ==> acts[i].io.written == 0
  }

  ghost predicate ShortBlobs(chain: seq<Row>) {
    forall n, k :: 0 <= n < |chain| && 0 <= k < |chain[n]| ==> |chain[n][k]| < U32
  }

  /** Failures that store nothing never shift an append. */
  lemma {:induction false} CleanRun(chain: seq<Row>, run: seq<State>, acts: seq<Action>, i: nat)
    requires Run(chain, run, acts) && NothingHalfWritten(acts) && ShortBlobs(chain) && Clean(run[0]) && i < |run|
    ensures Clean(run[i])
    ensures i < |acts| ==> Next(chain, run[i], acts[i], run[i + 1]) && Unshifted(chain, run[i], acts[i])
  {
    if i > 0 {
      CleanRun(chain, run, acts, i - 1);
      CleanStep(chain, run[i - 1], acts[i - 1], run[i]);
    }
    if i < |acts| {
      assert Next(chain, run[i], acts[i], run[i + 1]);
    }
  }

  lemma CleanStep(chain: seq<Row>, s: State, a: Action, s': State)
    requires Clean(s) && Next(chain, s, a, s') && ShortBlobs(chain)
    requires a.Fail? && a.io.WriteFails? ==> a.io.written == 0
    ensures Clean(s')
  {
  }

  // ----- reading across the steps of a run

  /** Consecutive views of a reader. */
  ghost predicate Views(keccak: Blob -> Hash, chain: seq<Row>, t: seq<State>) {
    && GoodChain(keccak, chain)
    && (forall i :: 0 <= i < |t| ==> Inv(keccak, chain, t[i]))
    && (forall i, j :: 0 <= i <= j < |t| ==> t[i].deleted <= t[j].deleted)
  }

  /** What an ancient table can show at a height of the chain: the right blob, or nothing yet. */
  lemma AncientShows(keccak: Blob -> Hash, chain: seq<Row>, s: State, k: nat, n: nat)
    requires Inv(keccak, chain, s) && k < KINDS
    ensures Ancient(s, k, n) == [] || (n < |chain| && Ancient(s, k, n) == chain[n][k])
    ensures n < s.deleted ==> n < |chain| && Ancient(s, k, n) == chain[n][k] && chain[n][k] != []
  {
    assert TableOk(s, chain, k);
    if n < s.deleted {
      assert GoodRow(keccak, chain[n]);
    }
  }

  lemma KvShows(keccak: Blob -> Hash, chain: seq<Row>, s: State, k: nat, n: nat)
    requires Inv(keccak, chain, s) && 1 <= k < KINDS && n < |chain|
    ensures var data := Get(s, k, n, chain[n][0]);
            (data == chain[n][k] && data != []) || (data == [] && n < s.deleted)
  {
  }

  lemma PartAcross(keccak: Blob -> Hash, chain: seq<Row>, t: seq<State>, k: nat, n: nat, hash: Hash)
    requires |t| == 5 && Views(keccak, chain, t) && 1 <= k < KINDS && hash != BytesToHash([])
    ensures n < |chain| && hash == chain[n][0] ==> ReadPart(t, k, hash, n) == chain[n][k]
    ensures n >= |chain| || hash != chain[n][0] ==> ReadPart(t, k, hash, n) == Get(t[2], k, n, hash)
  {
    AncientShows(keccak, chain, t[0], k, n);
    AncientShows(keccak, chain, t[1], 0, n);
    AncientShows(keccak, chain, t[3], k, n);
    AncientShows(keccak, chain, t[4], 0, n);
    if n < |chain| {
      assert GoodRow(keccak, chain[n]);
      KvShows(keccak, chain, t[2], k, n);
    }
  }

  lemma HeaderAcross(keccak: Blob -> Hash, chain: seq<Row>, t: seq<State>, n: nat, hash: Hash)
    requires |t| == 3 && Views(keccak, chain, t)
    ensures n < |chain| && hash == chain[n][0] ==> ReadHeader(keccak, t, hash, n) == chain[n][1]
    ensures n >= |chain| || hash != chain[n][0] ==> ReadHeader(keccak, t, hash, n) == Get(t[1], 1, n, hash)
  {
    AncientShows(keccak, chain, t[0], 1, n);
    AncientShows(keccak, chain, t[2], 1, n);
    if n < |chain| {
      assert GoodRow(keccak, chain[n]);
      KvShows(keccak, chain, t[1], 1, n);
    }
  }

  lemma CanonicalHashAcross(keccak: Blob -> Hash, chain: seq<Row>, t: seq<State>, n: nat)
    requires |t| == 3 && Views(keccak, chain, t) && n < |chain|
    ensures ReadCanonicalHash(t, n) == chain[n][0]
  {
    AncientShows(keccak, chain, t[0], 0, n);
    AncientShows(keccak, chain, t[2], 0, n);
    assert GoodRow(keccak, chain[n]);
  }

  /** The views a reader takes at times `at` of a run. */
  ghost function ViewsAt(run: seq<State>, at: seq<nat>): (t: seq<State>)
    requires forall i :: 0 <= i < |at| ==> at[i] < |run|
    ensures |t| == |at| && forall i :: 0 <= i < |at| ==> t[i] == run[at[i]]
  {
    seq(|at|, i requires 0 <= i < |at| => run[at[i]])
  }

  ghost predicate Times(run: seq<State>, at: seq<nat>) {
    && (forall i :: 0 <= i < |at| ==> at[i] < |run|)
    && (forall i, j :: 0 <= i <= j < |at| ==> at[i] <= at[j])
  }

  lemma RunViews(keccak: Blob -> Hash, chain: seq<Row>, run: seq<State>, acts: seq<Action>, at: seq<nat>)
    requires Run(chain, run, acts) && UnshiftedRun(chain, run, acts) && Inv(keccak, chain, run[0]) && Times(run, at)
    ensures Views(keccak, chain, ViewsAt(run, at))
  {
    var t := ViewsAt(run, at);
    forall i, j | 0 <= i <= j < |t| ensures Inv(keccak, chain, t[i]) && t[i].deleted <= t[j].deleted {
      RunInv(keccak, chain, run, acts, at[i], at[j]);
    }
  }

  /**
  Migration is invisible, as long as no append is shifted.  In every such run, whenever the lookups of
  a read happen, the read returns the data of the canonical block; data of any other block is what
  the key-value store holds.
   */
  lemma MigrationInvisible(keccak: Blob -> Hash, chain: seq<Row>, run: seq<State>,
                           acts: seq<Action>, at: seq<nat>, k: nat, n: nat, hash: Hash)
    requires Run(chain, run, acts) && UnshiftedRun(chain, run, acts) && Inv(keccak, chain, run[0])
    requires |at| == 5 && Times(run, at)
    requires 1 <= k < KINDS && hash != BytesToHash([])
    ensures n < |chain| && hash == chain[n][0] ==> ReadPart(ViewsAt(run, at), k, hash, n) == chain[n][k]
    ensures n >= |chain| || hash != chain[n][0] ==>
              ReadPart(ViewsAt(run, at), k, hash, n) == Get(run[at[2]], k, n, hash)
    ensures n < |chain| ==> ReadHeader(keccak, ViewsAt(run, at[..3]), chain[n][0], n) == chain[n][1]
    ensures n < |chain| ==> ReadCanonicalHash(ViewsAt(run, at[..3]), n) == chain[n][0]
    ensures n < |chain| ==> chain[n][0] in run[at[0]].numbers && run[at[0]].numbers[chain[n][0]] == n
  {
    RunViews(keccak, chain, run, acts, at);
    RunViews(keccak, chain, run, acts, at[..3]);
    PartAcross(keccak, chain, ViewsAt(run, at), k, n, hash);
    if n < |chain| {
      HeaderAcross(keccak, chain, ViewsAt(run, at[..3]), n, chain[n][0]);
      CanonicalHashAcross(keccak, chain, ViewsAt(run, at[..3]), n);
      assert Inv(keccak, chain, ViewsAt(run, at)[0]);
    }
  }
}
