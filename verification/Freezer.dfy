/**
The ancient store: five freezer tables (hashes, headers, bodies, receipts, difficulties)
kept at one item count.  A block is added to all five or to none.
 */
module Freezers {
  import opened Bytes
  import opened FreezerIndex
  import opened FreezerTables
  import opened Ancients

  /** The table is open and holds this.  The definition is guarded: only a proof that names `Inside`
      unfolds it, so that a proof about five tables does not look into each of them. */
  ghost predicate Holds(t: FreezerTable, h: Held)
    reads t
  {
    forall n {:trigger Inside(n)} :: Inside(n) ==> HoldsInside(t, h)
  }

  predicate Inside(n: int) {
    true
  }

  ghost predicate HoldsInside(t: FreezerTable, h: Held)
    reads t
  {
    t.Readable() && !t.closed && t.Contents() == h.items && t.Dangling() == h.dangling
  }

  /** The file number has room, and this is whether the blob will need a new file. */
  ghost predicate Ready(t: FreezerTable, blob: Blob, rotates: bool)
    reads t
  {
    t.Rotates(blob) == rotates && t.headId + 1 < U16
  }

  method TruncateTable(t: FreezerTable, n: nat, ghost h: Held)
    requires Holds(t, h)
    modifies t
    ensures Holds(t, AfterTruncate(h, n))
  {
    assert Inside(0);
    t.Truncate(n);
  }

  method ItemsOf(t: FreezerTable, ghost h: Held) returns (n: nat)
    requires Holds(t, h)
    ensures n == |h.items|
  {
    assert Inside(0);
    n := t.items;
  }

  method AppendTable(t: FreezerTable, item: nat, blob: Blob, io: AppendIO, ghost h: Held) returns (r: Result<()>)
    requires Holds(t, h) && item == |h.items| && t.headId + 1 < U16
    requires io.WriteFails? ==> io.written <= |blob|
    modifies t
    ensures r.Ok? <==> io.Works? || (io.OpenFails? && !old(t.Rotates(blob)))
    ensures Holds(t, if r.Ok? then AfterAppend(h, blob, old(t.Rotates(blob)))
                     else AfterFailure(h, blob, old(t.Rotates(blob)), io))
  {
    assert Inside(0);
    r := t.Append(item, blob, io);
  }

  /** Guards the definition of `View` in the same way: named by proofs that look at each table. */
  predicate Each(n: int) {
    true
  }

  class Freezer {
    const tables: seq<FreezerTable>
    var frozen: nat

    ghost predicate Distinct() {
      |tables| == KINDS && forall i, j :: 0 <= i < j < KINDS ==> tables[i] != tables[j]
    }

    /** Table by table, what the store holds. */
    ghost predicate View(hs: seq<Held>)
      reads tables
    {
      && |hs| == |tables| == KINDS
      && forall n {:trigger Each(n)} :: Each(n) ==> Distinct() && forall i :: 0 <= i < KINDS ==> Holds(tables[i], hs[i])
    }

    /** Opens the store on five open tables, whatever their item counts. */
    constructor (tables: seq<FreezerTable>, ghost hs: seq<Held>)
      requires |tables| == |hs| == KINDS && forall i, j :: 0 <= i < j < KINDS ==> tables[i] != tables[j]
      requires forall i :: 0 <= i < KINDS ==> Holds(tables[i], hs[i]) && |hs[i].items| < U64
      modifies tables
      ensures this.tables == tables && IsMinimum(frozen, hs) && View(Truncated(hs, frozen))
    {
      this.tables, frozen := tables, 0;
      new;
      Repair(hs);
    }

    /** Every table can open one more file. */
    ghost predicate HasRoom()
      reads tables
    {
      forall i :: 0 <= i < |tables| ==> tables[i].headId + 1 < U16
    }

    /** One operation, whatever the file system answers. */
    method Step(op: AncientOp, ghost hs: seq<Held>) returns (ghost rots: seq<bool>)
      requires View(hs) && Even(hs, frozen) && HasRoom() && frozen + 1 < U64 && PossibleOp(op)
      modifies this`frozen, tables
      ensures op.AppendRow? ==> |rots| == KINDS
      ensures View(HeldEffect(op, rots, hs, old(frozen))) && frozen == CountEffect(op, rots, old(frozen))
      ensures Even(HeldEffect(op, rots, hs, old(frozen)), frozen)
    {
      match op {
        case AppendRow(number, row, ios) =>
          var ok;
          ghost var hs';
          ok, hs', rots := AppendAncient(number, row, ios, hs);
        case TruncateRows(n) =>
          rots := [];
          assert Truncated(hs, frozen) == hs;
          TruncateAncients(n, hs);
      }
    }

    /** Whether every table can open one more file and the count can grow. */
    method RoomLeft() returns (room: bool)
      ensures room <==> HasRoom() && frozen + 1 < U64
    {
      room := frozen + 1 < U64;
      for k := 0 to |tables|
        invariant room <==> frozen + 1 < U64 && forall i :: 0 <= i < k ==> tables[i].headId + 1 < U16
      {
        room := room && tables[k].headId + 1 < U16;
      }
    }

    /** Any run of appends and truncations, while there is room, with any failures: what the tables
        hold, dangling bytes included, is what the run makes of it.  `CleanReplay` tells what that is
        when failed writes store nothing. */
    method RunSteps(ops: seq<AncientOp>, ghost hs0: seq<Held>) returns (done: nat, ghost rots: seq<seq<bool>>)
      requires View(hs0) && Even(hs0, frozen) && forall i :: 0 <= i < |ops| ==> PossibleOp(ops[i])
      modifies this`frozen, tables
      ensures done <= |ops| && Fitting(ops[..done], rots)
      ensures var (hs, n) := ReplayHeld(ops[..done], rots, hs0, old(frozen));
              View(hs) && Even(hs, n) && frozen == n
      ensures done < |ops| ==> !HasRoom() || frozen + 1 >= U64
    {
      done, rots := 0, [];
      ghost var hs := hs0;
      var room := RoomLeft();
      while done < |ops| && room
        invariant done <= |ops| && Fitting(ops[..done], rots)
        invariant View(hs) && Even(hs, frozen) && (hs, frozen) == ReplayHeld(ops[..done], rots, hs0, old(frozen))
        invariant room <==> HasRoom() && frozen + 1 < U64
      {
        ghost var n := frozen;
        ghost var r := Step(ops[done], hs);
        ReplayHeldNext(ops, rots, hs0, old(frozen), done, r);
        hs := HeldEffect(ops[done], r, hs, n);
        rots := rots + [r];
        done := done + 1;
        room := RoomLeft();
      }
    }

    /** Truncates every table to the smallest item count among them. */
    method Repair(ghost hs: seq<Held>)
      requires View(hs) && forall i :: 0 <= i < KINDS ==> |hs[i].items| < U64
      modifies this`frozen, tables
      ensures IsMinimum(frozen, hs) && View(Truncated(hs, frozen))
    {
      var min := SmallestCount(hs);
      TruncateAll(min, hs);
      frozen := min;
    }

    method SmallestCount(ghost hs: seq<Held>) returns (min: nat)
      requires View(hs) && forall i :: 0 <= i < KINDS ==> |hs[i].items| < U64
      ensures IsMinimum(min, hs)
    {
      assert Each(0);
      min := U64 - 1;
      ghost var least := 0;
      for k := 0 to KINDS
        invariant forall i :: 0 <= i < k ==> min <= |hs[i].items|
        invariant k == 0 ==> min == U64 - 1 && least == 0
        invariant 0 <= least < KINDS && (k > 0 ==> min == |hs[least].items|)
      {
        var items := ItemsOf(tables[k], hs[k]);
        if min > items {
          min := items;
          least := k;
        }
      }
    }

    method TruncateAll(n: nat, ghost hs: seq<Held>)
      requires View(hs)
      modifies tables
      ensures View(Truncated(hs, n))
    {
      assert Each(0);
      for k := 0 to KINDS
        invariant forall i :: 0 <= i < KINDS ==> Holds(tables[i], if i < k then AfterTruncate(hs[i], n) else hs[i])
      {
        TruncateTable(tables[k], n, hs[k]);
      }
    }

    /** Keeps the first `n` items of every table. */
    method TruncateAncients(n: nat, ghost hs: seq<Held>)
      requires View(hs) && Even(hs, frozen)
      modifies this`frozen, tables
      ensures frozen == if n < old(frozen) then n else old(frozen)
      ensures View(Truncated(hs, frozen)) && Even(Truncated(hs, frozen), frozen)
    {
      assert Truncated(hs, frozen) == hs;
      if frozen <= n {
        return;
      }
      TruncateAll(n, hs);
      frozen := n;
    }

    /** The tables before `k` have taken their part of the block. */
    ghost predicate Stage(hs: seq<Held>, row: seq<Blob>, rots: seq<bool>, k: nat)
      reads tables
    {
      && |hs| == |row| == |rots| == KINDS
      && View(Staged(hs, row, rots, k))
      && forall n {:trigger Each(n)} :: Each(n) ==> forall i :: k <= i < KINDS ==> Ready(tables[i], row[i], rots[i])
    }

    /** For each kind, whether its blob will need a new data file. */
    ghost function RotsOf(row: seq<Blob>): (rots: seq<bool>)
      requires |row| == |tables|
      reads tables
      ensures |rots| == |tables| && forall i :: 0 <= i < |rots| ==> rots[i] == tables[i].Rotates(row[i])
    {
      seq(|tables|, i requires 0 <= i < |tables| && |row| == |tables| reads tables => tables[i].Rotates(row[i]))
    }

    lemma StartStage(hs: seq<Held>, row: seq<Blob>)
      requires View(hs) && HasRoom() && |row| == |tables|
      ensures Stage(hs, row, RotsOf(row), 0)
    {
    }

    /** An append to table `k` alone. */
    method AppendAt(k: nat, blob: Blob, io: AppendIO, ghost hs: seq<Held>, ghost rotates: bool) returns (ok: bool)
      requires k < KINDS && View(hs) && |hs[k].items| == frozen && Ready(tables[k], blob, rotates)
      requires io.WriteFails? ==> io.written <= |blob|
      modifies tables
      ensures ok <==> Succeeds(io, rotates)
      ensures View(hs[k := if ok then AfterAppend(hs[k], blob, rotates) else AfterFailure(hs[k], blob, rotates, io)])
      ensures Distinct() && forall i :: 0 <= i < KINDS && i != k ==> unchanged(tables[i])
    {
      assert Each(0);
      ghost var t := tables[k];
      assert Holds(t, hs[k]);
      assert forall i :: 0 <= i < KINDS && i != k ==> tables[i] != t;
      var r := AppendTable(tables[k], frozen, blob, io, hs[k]);
      ok := r.Ok?;
      assert forall i :: 0 <= i < KINDS && i != k ==> Holds(tables[i], hs[i]);
    }

    method AppendKind(k: nat, row: seq<Blob>, io: AppendIO, ghost hs: seq<Held>, ghost rots: seq<bool>)
      returns (ok: bool)
      requires k < KINDS && Stage(hs, row, rots, k) && Even(hs, frozen)
      requires io.WriteFails? ==> io.written <= |row[k]|
      modifies tables
      ensures ok <==> Succeeds(io, rots[k])
      ensures ok ==> Stage(hs, row, rots, k + 1)
      ensures !ok ==> View(Broken(hs, row, rots, io, k))
    {
      assert Each(0);
      ghost var before := Staged(hs, row, rots, k);
      ok := AppendAt(k, row[k], io, before, rots[k]);
      assert before[k := AfterAppend(hs[k], row[k], rots[k])] == Staged(hs, row, rots, k + 1);
      assert before[k := AfterFailure(hs[k], row[k], rots[k], io)] == Broken(hs, row, rots, io, k);
    }

    /** Appends hash, header, body, receipts and difficulty, in this order, up to the first failure. */
    method AppendRow(row: seq<Blob>, ios: seq<AppendIO>, ghost hs: seq<Held>, ghost rots: seq<bool>)
      returns (ok: bool, ghost k: nat)
      requires Stage(hs, row, rots, 0) && Even(hs, frozen) && Possible(ios, row)
      modifies tables
      ensures k == FirstFailing(ios, rots, 0) && (ok <==> k == KINDS)
      ensures ok ==> Stage(hs, row, rots, KINDS)
      ensures !ok ==> View(Broken(hs, row, rots, ios[k], k))
    {
      k := 0;
      ok := true;
      for kind := 0 to KINDS
        invariant ok && k == kind && Stage(hs, row, rots, k)
        invariant forall i :: 0 <= i < k ==> Succeeds(ios[i], rots[i])
      {
        ok := AppendKind(kind, row, ios[kind], hs, rots);
        if !ok {
          return;
        }
        k := k + 1;
      }
    }

    /** Adds a block to all five tables, or leaves the items of all five as they were.  A kind whose
        write stopped half-way keeps those bytes behind its last item. */
    method AppendAncient(number: nat, row: seq<Blob>, ios: seq<AppendIO>, ghost hs: seq<Held>)
      returns (ok: bool, ghost hs': seq<Held>, ghost rots: seq<bool>)
      requires View(hs) && Even(hs, frozen) && HasRoom() && |row| == KINDS && Possible(ios, row) && frozen + 1 < U64
      modifies this`frozen, tables
      ensures rots == old(RotsOf(row))
      ensures ok <==> number == old(frozen) && FirstFailing(ios, rots, 0) == KINDS
      ensures View(hs') && Even(hs', frozen) && frozen == if ok then old(frozen) + 1 else old(frozen)
      ensures hs' == if number == old(frozen) then AfterBlock(hs, row, ios, rots, old(frozen)) else hs
      ensures !ok ==> forall i :: 0 <= i < KINDS ==> hs'[i].items == hs[i].items
    {
      rots, hs' := RotsOf(row), hs;
      if frozen != number {
        return false, hs, rots;
      }
      StartStage(hs, row);
      ok, hs' := AppendOrRollBack(row, ios, hs, rots);
    }

    method AppendOrRollBack(row: seq<Blob>, ios: seq<AppendIO>, ghost hs: seq<Held>, ghost rots: seq<bool>)
      returns (ok: bool, ghost hs': seq<Held>)
      requires Stage(hs, row, rots, 0) && Even(hs, frozen) && Possible(ios, row) && frozen + 1 < U64
      modifies this`frozen, tables
      ensures ok <==> FirstFailing(ios, rots, 0) == KINDS
      ensures View(hs') && Even(hs', frozen) && frozen == if ok then old(frozen) + 1 else old(frozen)
      ensures hs' == AfterBlock(hs, row, ios, rots, old(frozen))
      ensures !ok ==> forall i :: 0 <= i < KINDS ==> hs'[i].items == hs[i].items
    {
      ghost var k;
      ok, k := AppendRow(row, ios, hs, rots);
      if ok {
        StagedIsEven(hs, row, rots, frozen);
        frozen := frozen + 1;
        hs' := Staged(hs, row, rots, KINDS);
      } else {
        hs' := RollBack(row, ios[k], hs, rots, k);
      }
    }

    /** Undoes what the kinds before `k` have taken. */
    method RollBack(ghost row: seq<Blob>, ghost io: AppendIO, ghost hs: seq<Held>, ghost rots: seq<bool>, ghost k: nat)
      returns (ghost hs': seq<Held>)
      requires k < KINDS == |hs| == |row| == |rots| && (io.WriteFails? ==> io.written <= |row[k]|)
      requires View(Broken(hs, row, rots, io, k)) && Even(hs, frozen) && frozen + 1 < U64
      modifies this`frozen, tables
      ensures frozen == old(frozen) && hs' == Truncated(Broken(hs, row, rots, io, k), frozen)
      ensures View(hs') && Even(hs', frozen) && forall i :: 0 <= i < KINDS ==> hs'[i].items == hs[i].items
    {
      ghost var broken := Broken(hs, row, rots, io, k);
      BrokenIsRepaired(hs, row, rots, io, k, frozen);
      Repair(broken);
      hs' := Truncated(broken, frozen);
    }
  }
}
