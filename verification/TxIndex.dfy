/**
The transaction lookup index and its tail: every block from the tail up is indexed.  Blocks are
delivered by workers in any order, perhaps not all of them; the database changes only in atomic
batches, and a crash may come after any of them.
 */
module TxIndex {
  import opened Bytes

  type Tx = nat

  datatype Tail = Unknown | Known(number: nat)

  datatype Db = Db(lookup: map<Tx, nat>, tail: Tail)

  /** Transaction hashes by height; no transaction occurs twice. */
  type Chain = seq<seq<Tx>>

  ghost predicate Distinct(chain: Chain) {
    forall m, n, tx :: 0 <= m < |chain| && 0 <= n < |chain| && tx in chain[m] && tx in chain[n] ==> m == n
  }

  ghost predicate BlockIndexed(lookup: map<Tx, nat>, chain: Chain, n: nat)
    requires n < |chain|
  {
    forall tx :: tx in chain[n] ==> tx in lookup && lookup[tx] == n
  }

  /** Every block of height `from` to `to - 1` is indexed. */
  ghost predicate Covers(lookup: map<Tx, nat>, chain: Chain, from: nat, to: nat)
    requires to <= |chain|
  {
    forall n :: from <= n < to ==> BlockIndexed(lookup, chain, n)
  }

  /** The tail does not promise more than is indexed. */
  ghost predicate Safe(db: Db, chain: Chain) {
    db.tail.Known? ==> Covers(db.lookup, chain, db.tail.number, |chain|)
  }

  function Entries(n: nat, txs: seq<Tx>): map<Tx, nat> {
    map tx | tx in txs :: n
  }

  // ----- the numbers a lookup goes through, in 64-bit arithmetic

  method Lookup(from: nat, to: nat, reverse: bool) returns (ns: seq<nat>)
    requires from < to < U64
    ensures |ns| == to - from
    ensures forall i :: 0 <= i < |ns| ==> ns[i] == if reverse then to - 1 - i else from + i
  {
    ns := [];
    var n, end := from, to;
    if reverse {
      n, end := to - 1, (from - 1) % U64;
    }
    while n != end
      invariant |ns| <= to - from
      invariant n == if reverse then (to - 1 - |ns|) % U64 else from + |ns|
      invariant forall i :: 0 <= i < |ns| ==> ns[i] == if reverse then to - 1 - i else from + i
      decreases (to - from) - |ns|
    {
      ns := ns + [n];
      n := if reverse then (n - 1) % U64 else (n + 1) % U64;
    }
  }

  // ----- the priority queue of deliveries that came early

  lemma {:induction false} Largest(q: set<nat>) returns (m: nat)
    requires q != {}
    ensures m in q && forall x :: x in q ==> x <= m
  {
    m :| m in q;
    var rest := q - {m};
    assert forall x :: x in q ==> x == m || x in rest;
    if rest != {} {
      var m' := Largest(rest);
      m := if m < m' then m' else m;
    }
  }

  /** The entry with the highest priority. */
  method Peek(q: set<nat>) returns (m: nat)
    requires q != {}
    ensures m in q && forall x :: x in q ==> x <= m
  {
    ghost var largest := Largest(q);
    m :| m in q && forall x :: x in q ==> x <= m;
  }

  class TxDb {
    var db: Db
    /** The contents after each write so far. */
    ghost var history: seq<Db>

    constructor (db: Db)
      ensures this.db == db && history == [db]
    {
      this.db, history := db, [db];
    }

    /** All states a crash could have left are safe. */
    ghost predicate AllSafe(chain: Chain)
      reads this
    {
      Safe(db, chain) && forall i :: 0 <= i < |history| ==> Safe(history[i], chain)
    }

    /** One atomic write. */
    method Write(db': Db, ghost chain: Chain)
      requires AllSafe(chain) && Safe(db', chain)
      modifies this
      ensures db == db' && AllSafe(chain) && history == old(history) + [db']
    {
      db := db';
      history := history + [db'];
    }

    /** Indexes blocks downwards from `to`, whatever the order in which they are delivered: the tail
        comes down to the lowest block from which on all have been delivered. */
    method IndexTransactions(from: nat, to: nat, ds: seq<nat>, full: nat -> bool, chain: Chain)
      requires AllSafe(chain) && Distinct(chain) && to <= |chain| && Covers(db.lookup, chain, to, |chain|)
      requires Deliveries(ds, from, to)
      modifies this
      ensures AllSafe(chain) && old(history) <= history
      ensures from < to && (to - 1 in ds) ==>
                && db.tail.Known? && from <= db.tail.number < to
                && (forall n :: db.tail.number <= n < to ==> n in ds) && db.tail.number - 1 !in ds
      ensures from < to && (forall n :: from <= n < to ==> n in ds) ==> db.tail == Known(from)
      ensures from >= to || to - 1 !in ds ==> db == old(db) && history == old(history)
      ensures OnlyAdds(old(db.lookup), db.lookup, chain, from, to)
    {
      if from >= to {
        return;
      }
      var lastNum: nat, queue, batch := to, {}, map[];
      assert db.lookup + batch == db.lookup;
      for k := 0 to |ds|
        invariant AllSafe(chain) && old(history) <= history
        invariant Sorted(ds[..k], queue, lastNum, to) && from <= lastNum
        invariant Covers(db.lookup + batch, chain, lastNum, |chain|)
        invariant lastNum == to ==> db == old(db) && history == old(history) && batch == map[]
        invariant OnlyAdds(old(db.lookup), db.lookup + batch, chain, from, to)
      {
        DeliveredNext(ds, from, to, k, queue, lastNum);
        queue := queue + {ds[k]};
        lastNum, queue, batch := Drain(from, to, ds[..k + 1], lastNum, queue, batch, full, chain, old(db.lookup));
      }
      assert ds[..|ds|] == ds;
      if lastNum < to {
        Write(Db(db.lookup + batch, Known(lastNum)), chain);
      }
    }

    /** Takes deliveries off the queue as long as they continue the run. */
    method Drain(from: nat, to: nat, ghost ds: seq<nat>, lastNum0: nat, queue0: set<nat>, batch0: map<Tx, nat>,
                 full: nat -> bool, chain: Chain, ghost was: map<Tx, nat>)
      returns (lastNum: nat, queue: set<nat>, batch: map<Tx, nat>)
      requires AllSafe(chain) && Distinct(chain) && from <= lastNum0 <= to <= |chain|
      requires Delivered(ds, queue0, lastNum0, to) && InRange(ds, from, to)
      requires Covers(db.lookup + batch0, chain, lastNum0, |chain|)
               && OnlyAdds(was, db.lookup + batch0, chain, from, to)
      modifies this
      ensures AllSafe(chain) && old(history) <= history
      ensures from <= lastNum <= lastNum0 && Sorted(ds, queue, lastNum, to)
      ensures Covers(db.lookup + batch, chain, lastNum, |chain|) && OnlyAdds(was, db.lookup + batch, chain, from, to)
      ensures lastNum == lastNum0 ==> db == old(db) && history == old(history) && batch == batch0
    {
      lastNum, queue, batch := lastNum0, queue0, batch0;
      while queue != {}
        invariant AllSafe(chain) && old(history) <= history
        invariant from <= lastNum <= lastNum0 && Delivered(ds, queue, lastNum, to)
        invariant Covers(db.lookup + batch, chain, lastNum, |chain|)
                  && OnlyAdds(was, db.lookup + batch, chain, from, to)
        invariant lastNum == lastNum0 ==> db == old(db) && history == old(history) && batch == batch0
        decreases lastNum
      {
        var priority := Peek(queue);
        if priority != lastNum - 1 {
          break;
        }
        queue := queue - {priority};
        lastNum := priority;
        batch := Take(from, to, lastNum, batch, full, chain, was);
      }
    }

    /** Adds the entries of block `n` to the batch, and writes the batch when it is full. */
    method Take(from: nat, to: nat, n: nat, batch0: map<Tx, nat>, full: nat -> bool, chain: Chain, ghost was: map<Tx,
                nat>)
      returns (batch: map<Tx, nat>)
      requires AllSafe(chain) && Distinct(chain) && from <= n < to <= |chain|
      requires Covers(db.lookup + batch0, chain, n + 1, |chain|) && OnlyAdds(was, db.lookup + batch0, chain, from, to)
      modifies this
      ensures AllSafe(chain) && old(history) <= history
      ensures Covers(db.lookup + batch, chain, n, |chain|) && OnlyAdds(was, db.lookup + batch, chain, from, to)
    {
      batch := BatchOf(batch0, n, chain[n]);
      BatchNext(was, db.lookup, batch0, chain, from, to, n);
      if full(n) {
        Write(Db(db.lookup + batch, Known(n)), chain);
        batch := map[];
        NothingAdded(db.lookup);
      }
    }

    /** Moves the tail up first and then deletes the entries of the blocks delivered, and no others. */
    method UnindexTransactions(from: nat, to: nat, ds: seq<nat>, chain: Chain)
      requires AllSafe(chain) && Distinct(chain) && to <= |chain| && Covers(db.lookup, chain, to, |chain|)
      requires InRange(ds, from, to)
      modifies this
      ensures AllSafe(chain) && old(history) <= history
      ensures from >= to ==> db == old(db)
      ensures from < to ==> db == Db(old(db.lookup) - TxsOf(chain, ds), Known(to))
    {
      if from >= to {
        return;
      }
      Write(Db(db.lookup, Known(to)), chain);
      var batch, blocks := {}, 0;
      for k := 0 to |ds|
        invariant AllSafe(chain) && old(history) <= history && db.tail == Known(to)
        invariant db.lookup - batch == old(db.lookup) - TxsOf(chain, ds[..k])
      {
        assert ds[..k + 1][..k] == ds[..k];
        assert TxsOf(chain, ds[..k + 1]) == TxsOf(chain, ds[..k]) + Hashes(chain[ds[k]]);
        DeletionsAdd(db.lookup, batch, Hashes(chain[ds[k]]));
        DeletionsAdd(old(db.lookup), TxsOf(chain, ds[..k]), Hashes(chain[ds[k]]));
        batch := batch + Hashes(chain[ds[k]]);
        blocks := blocks + 1;
        if blocks % 1000 == 0 {
          DeletionKeeps(old(db.lookup), chain, ds[..k + 1], from, to);
          Write(Db(db.lookup - batch, Known(to)), chain);
          batch := {};
          assert db.lookup - batch == db.lookup;
        }
      }
      assert ds[..|ds|] == ds;
      DeletionKeeps(old(db.lookup), chain, ds, from, to);
      Write(Db(db.lookup - batch, Known(to)), chain);
    }

    /** Brings the tail to where the limit wants it, given the head and what the workers deliver. */
    method IndexBlocks(head: nat, limit: nat, ds: seq<nat>, full: nat -> bool, chain: Chain)
      requires AllSafe(chain) && Distinct(chain) && |chain| == head + 1
      requires db.tail.Unknown? ==> Covers(db.lookup, chain, 0, |chain|)
      requires db.tail.Known? ==> db.tail.number <= |chain|
      requires var (lo, hi) := Span(db.tail, WantedTail(head, limit)); Deliveries(ds, lo, hi)
      modifies this
      ensures AllSafe(chain) && old(history) <= history
      ensures db.tail.Known? && Covers(db.lookup, chain, db.tail.number, |chain|)
      ensures var (lo, hi) := Span(old(db.tail), WantedTail(head, limit));
              (forall n :: lo <= n < hi ==> n in ds) ==>
                && db.tail.number <= |chain|
                && |chain| - db.tail.number == (if 0 < limit <= |chain| then limit else |chain|)
                && (ExactFrom(old(db.lookup), chain, First(old(db.tail))) ==>
                      ExactFrom(db.lookup, chain, db.tail.number))
    {
      ghost var was := db;
      if db.tail.Unknown? {
        if limit == 0 || head < limit {
          Write(Db(db.lookup, Known(0)), chain);
        } else {
          UnindexTransactions(0, head - limit + 1, ds, chain);
          UnindexedExact(was.lookup, chain, ds, 0, head - limit + 1);
        }
        return;
      }
      var tail := db.tail.number;
      if limit == 0 || head < limit {
        if tail > 0 {
          IndexTransactions(0, tail, ds, full, chain);
          IndexedExact(was.lookup, db.lookup, chain, 0, tail);
        }
        return;
      }
      if head - limit + 1 < tail {
        IndexTransactions(head - limit + 1, tail, ds, full, chain);
        IndexedExact(was.lookup, db.lookup, chain, head - limit + 1, tail);
      } else {
        UnindexTransactions(tail, head - limit + 1, ds, chain);
        UnindexedExact(was.lookup, chain, ds, tail, head - limit + 1);
      }
    }
  }

  /** Exactly the transactions of the blocks from `from` on are indexed, each under its block. */
  ghost predicate ExactFrom(lookup: map<Tx, nat>, chain: Chain, from: nat) {
    && (forall n, tx :: from <= n < |chain| && tx in chain[n] ==> tx in lookup && lookup[tx] == n)
    && (forall tx :: tx in lookup ==> from <= lookup[tx] < |chain| && tx in chain[lookup[tx]])
  }

  /** The first block that a tail promises; without a tail it is block 0. */
  function First(tail: Tail): nat {
    if tail.Known? then tail.number else 0
  }

  /** The lowest height to be indexed. */
  function WantedTail(head: nat, limit: nat): nat {
    if limit == 0 || head < limit then 0 else head - limit + 1
  }

  /** The heights between the present tail and the wanted one. */
  function Span(tail: Tail, wanted: nat): (nat, nat) {
    match tail
    case Unknown => (0, wanted)
    case Known(t) => if t < wanted then (t, wanted) else (wanted, t)
  }

  lemma DeletionsAdd(lookup: map<Tx, nat>, a: set<Tx>, b: set<Tx>)
    ensures lookup - (a + b) == lookup - a - b
  {
  }

  function Hashes(txs: seq<Tx>): set<Tx> {
    set tx | tx in txs
  }

  ghost function TxsOf(chain: Chain, ds: seq<nat>): set<Tx>
    requires forall i :: 0 <= i < |ds| ==> ds[i] < |chain|
  {
    if ds == [] then {} else TxsOf(chain, ds[..|ds| - 1]) + Hashes(chain[ds[|ds| - 1]])
  }

  lemma {:induction false} TxsOfOrigin(chain: Chain, ds: seq<nat>, tx: Tx) returns (i: nat)
    requires (forall i :: 0 <= i < |ds| ==> ds[i] < |chain|) && tx in TxsOf(chain, ds)
    ensures i < |ds| && tx in chain[ds[i]]
  {
    if tx in TxsOf(chain, ds[..|ds| - 1]) {
      i := TxsOfOrigin(chain, ds[..|ds| - 1], tx);
    } else {
      i := |ds| - 1;
    }
  }

  /** Deleting blocks below `to` keeps every entry of the blocks from `to` on. */
  lemma {:induction false} DeletionKeeps(lookup: map<Tx, nat>, chain: Chain, ds: seq<nat>, from: nat, to: nat)
    requires Distinct(chain) && to <= |chain| && InRange(ds, from, to) && Covers(lookup, chain, to, |chain|)
    ensures Covers(lookup - TxsOf(chain, ds), chain, to, |chain|)
  {
    forall n | to <= n < |chain| ensures BlockIndexed(lookup - TxsOf(chain, ds), chain, n) {
      assert BlockIndexed(lookup, chain, n);
      forall tx | tx in chain[n] ensures tx !in TxsOf(chain, ds) {
        if tx in TxsOf(chain, ds) {
          var i := TxsOfOrigin(chain, ds, tx);
        }
      }
    }
  }

  /** Old entries stay or become those of the range; new ones are of blocks of the range. */
  ghost predicate OnlyAdds(was: map<Tx, nat>, lookup: map<Tx, nat>, chain: Chain, from: nat, to: nat)
    requires to <= |chain|
  {
    && was.Keys <= lookup.Keys
    && forall tx :: tx in lookup ==>
         (tx in was && lookup[tx] == was[tx]) || (from <= lookup[tx] < to && tx in chain[lookup[tx]])
  }

  lemma AddsEntries(was: map<Tx, nat>, lookup: map<Tx, nat>, chain: Chain, from: nat, to: nat, n: nat)
    requires to <= |chain| && OnlyAdds(was, lookup, chain, from, to) && from <= n < to
    ensures OnlyAdds(was, lookup + Entries(n, chain[n]), chain, from, to)
  {
  }

  /** Blocks added below an exact index. */
  lemma IndexedExact(was: map<Tx, nat>, lookup: map<Tx, nat>, chain: Chain, from: nat, to: nat)
    requires from <= to <= |chain| && OnlyAdds(was, lookup, chain, from, to)
    ensures Covers(lookup, chain, from, |chain|) && ExactFrom(was, chain, to) ==> ExactFrom(lookup, chain, from)
  {
    if Covers(lookup, chain, from, |chain|) {
      forall n, tx | from <= n < |chain| && tx in chain[n] ensures tx in lookup && lookup[tx] == n {
        assert BlockIndexed(lookup, chain, n);
      }
    }
  }

  /** All blocks of a range taken out of an exact index. */
  lemma UnindexedExact(was: map<Tx, nat>, chain: Chain, ds: seq<nat>, from: nat, to: nat)
    requires Distinct(chain) && to <= |chain| && InRange(ds, from, to)
    ensures (forall n :: from <= n < to ==> n in ds) && from <= to && ExactFrom(was, chain, from) ==>
              ExactFrom(was - TxsOf(chain, ds), chain, to)
  {
    if (forall n :: from <= n < to ==> n in ds) && from <= to && ExactFrom(was, chain, from) {
      var lookup := was - TxsOf(chain, ds);
      forall n, tx | to <= n < |chain| && tx in chain[n] ensures tx in lookup && lookup[tx] == n {
        if tx in TxsOf(chain, ds) {
          var i := TxsOfOrigin(chain, ds, tx);
        }
      }
      forall tx | tx in lookup ensures to <= lookup[tx] {
        if lookup[tx] < to {
          TxsOfDelivered(chain, ds, lookup[tx], tx);
        }
      }
    }
  }

  lemma {:induction false} TxsOfDelivered(chain: Chain, ds: seq<nat>, n: nat, tx: Tx)
    requires (forall i :: 0 <= i < |ds| ==> ds[i] < |chain|) && n in ds && tx in chain[n]
    ensures tx in TxsOf(chain, ds)
  {
    if ds[|ds| - 1] != n {
      TxsOfDelivered(chain, ds[..|ds| - 1], n, tx);
    }
  }

  method BatchOf(batch0: map<Tx, nat>, n: nat, txs: seq<Tx>) returns (batch: map<Tx, nat>)
    ensures batch == batch0 + Entries(n, txs)
  {
    batch := batch0;
    for i := 0 to |txs|
      invariant batch == batch0 + Entries(n, txs[..i])
    {
      assert txs[..i + 1] == txs[..i] + [txs[i]];
      batch := batch[txs[i] := n];
    }
    assert txs[..|txs|] == txs;
  }

  lemma BatchNext(was: map<Tx, nat>, lookup: map<Tx, nat>, batch: map<Tx, nat>, chain: Chain,
                  from: nat, to: nat, n: nat)
    requires Distinct(chain) && from <= n < to <= |chain|
    requires Covers(lookup + batch, chain, n + 1, |chain|) && OnlyAdds(was, lookup + batch, chain, from, to)
    ensures var after := lookup + (batch + Entries(n, chain[n]));
            Covers(after, chain, n, |chain|) && OnlyAdds(was, after, chain, from, to)
  {
    CoversNext(lookup + batch, chain, n, |chain|);
    AddsEntries(was, lookup + batch, chain, from, to, n);
    BatchesAdd(lookup, batch, Entries(n, chain[n]));
  }

  lemma BatchesAdd(a: map<Tx, nat>, b: map<Tx, nat>, c: map<Tx, nat>)
    ensures a + b + c == a + (b + c)
  {
  }

  lemma NothingAdded(lookup: map<Tx, nat>)
    ensures lookup + map[] == lookup
  {
  }

  ghost predicate InRange(ds: seq<nat>, from: nat, to: nat) {
    forall i :: 0 <= i < |ds| ==> from <= ds[i] < to
  }

  /** Each block of the range is delivered at most once. */
  ghost predicate Deliveries(ds: seq<nat>, from: nat, to: nat) {
    && InRange(ds, from, to)
    && (forall i, j :: 0 <= i < j < |ds| ==> ds[i] != ds[j])
  }

  /** Blocks from `lastNum` on have been taken; the others delivered wait in the queue. */
  ghost predicate Delivered(ds: seq<nat>, queue: set<nat>, lastNum: nat, to: nat) {
    && (forall n :: lastNum <= n < to ==> n in ds)
    && (forall n :: n in queue <==> n in ds && n < lastNum)
  }

  ghost predicate Sorted(ds: seq<nat>, queue: set<nat>, lastNum: nat, to: nat) {
    lastNum <= to && Delivered(ds, queue, lastNum, to) && (lastNum > 0 ==> lastNum - 1 !in queue)
  }

  lemma DeliveredNext(ds: seq<nat>, from: nat, to: nat, k: nat, queue: set<nat>, lastNum: nat)
    requires Deliveries(ds, from, to) && k < |ds| && Delivered(ds[..k], queue, lastNum, to)
    ensures Delivered(ds[..k + 1], queue + {ds[k]}, lastNum, to)
    ensures InRange(ds[..k + 1], from, to)
  {
    assert ds[..k + 1] == ds[..k] + [ds[k]];
    assert ds[k] !in ds[..k];
  }

  lemma CoversNext(lookup: map<Tx, nat>, chain: Chain, n: nat, to: nat)
    requires n < to <= |chain| && Distinct(chain) && Covers(lookup, chain, n + 1, to)
    ensures Covers(lookup + Entries(n, chain[n]), chain, n, to)
  {
    var lookup' := lookup + Entries(n, chain[n]);
    forall m | n <= m < to ensures BlockIndexed(lookup', chain, m) {
      if m > n {
        assert BlockIndexed(lookup, chain, m);
      }
    }
  }
}
