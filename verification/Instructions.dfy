/** Walking EVM code instruction by instruction; a push carries its operand with it. */
module Instructions {
  import opened Bytes

  const PUSH1 := 0x60
  const PUSH4 := 0x63
  const PUSH32 := 0x7f
  const JUMPDEST := 0x5b

  type Code = seq<byte>

  predicate IsPush(op: byte) {
    PUSH1 <= op as int <= PUSH32
  }

  /** The bytes after the opcode that belong to the instruction. */
  function ArgLength(op: byte): nat {
    if IsPush(op) then op as int - PUSH1 + 1 else 0
  }

  datatype Piece = Piece(pc: nat, op: byte, arg: seq<byte>)

  /** From `pc` on, every instruction has all of its operand. */
  ghost predicate Complete(code: Code, pc: nat)
    decreases |code| - pc
  {
    pc >= |code| || (pc + 1 + ArgLength(code[pc]) <= |code| && Complete(code, pc + 1 + ArgLength(code[pc])))
  }

  /** The iterator, started at `pc`, comes by `k`. */
  ghost predicate Visits(code: Code, pc: nat, k: nat)
    decreases |code| - pc
  {
    pc == k || (pc < |code| && Visits(code, pc + 1 + ArgLength(code[pc]), k))
  }

  /** The pieces cover the code up to `end`, each byte once and in order. */
  ghost predicate CoversTo(pieces: seq<Piece>, code: Code, end: nat)
    decreases |pieces|
  {
    if pieces == [] then end == 0
    else
      var p := pieces[|pieces| - 1];
      && p.pc + 1 + |p.arg| == end <= |code| && |p.arg| == ArgLength(p.op)
      && code[p.pc..end] == [p.op] + p.arg && CoversTo(pieces[..|pieces| - 1], code, p.pc)
  }

  function Joined(pieces: seq<Piece>): Code {
    if pieces == [] then [] else
      var p := pieces[|pieces| - 1];
      Joined(pieces[..|pieces| - 1]) + [p.op] + p.arg
  }

  /** The pieces, put together again, are the code. */
  lemma {:induction false} CoversJoined(pieces: seq<Piece>, code: Code, end: nat)
    requires CoversTo(pieces, code, end)
    ensures end <= |code| && Joined(pieces) == code[..end]
    decreases |pieces|
  {
    if pieces != [] {
      var p := pieces[|pieces| - 1];
      CoversJoined(pieces[..|pieces| - 1], code, p.pc);
      assert code[..end] == code[..p.pc] + code[p.pc..end];
    }
  }

  class InstructionIterator {
    const code: Code
    var pc: nat
    var arg: seq<byte>
    var op: byte
    var error: bool
    var started: bool

    constructor (code: Code)
      ensures this.code == code && pc == 0 && !started && !error && arg == []
    {
      this.code := code;
      pc, arg, op, error, started := 0, [], 0, false, false;
    }

    /** Where the next instruction begins. */
    ghost function NextPc(): nat
      reads this
    {
      if started then pc + 1 + |arg| else pc
    }

    /** Moves to the next instruction; false at the end of the code or at a push cut short. */
    method Next() returns (more: bool)
      modifies this
      ensures old(error) || |code| <= old(pc) ==> !more && unchanged(this)
      ensures !old(error) && old(pc) < |code| ==>
                var p := old(NextPc());
                && started && pc == p
                && (more <==> p < |code| && p + 1 + ArgLength(code[p]) <= |code|)
                && (error <==> p < |code| && p + 1 + ArgLength(code[p]) > |code|)
                && (more ==> op == code[p] && arg == code[p + 1..p + 1 + ArgLength(op)])
    {
      if error || |code| <= pc {
        return false;
      }
      if started {
        pc := pc + |arg| + 1;
      } else {
        started := true;
      }
      if |code| <= pc {
        return false;
      }
      op := code[pc];
      if IsPush(op) {
        var a := op as int - PUSH1 + 1;
        var u := pc + 1 + a;
        if |code| <= pc || |code| < u {
          error := true;
          return false;
        }
        arg := code[pc + 1..u];
      } else {
        arg := [];
      }
      more := true;
    }
  }

  datatype Disassembly = Pieces(pieces: seq<Piece>) | CutPush

  /** Succeeds if and only if no push is cut short, and then the pieces partition the code. */
  method Disassemble(code: Code) returns (r: Disassembly)
    ensures r.Pieces? <==> Complete(code, 0)
    ensures r.Pieces? ==> CoversTo(r.pieces, code, |code|) && Joined(r.pieces) == code
  {
    var it := new InstructionIterator(code);
    var pieces := [];
    var more := it.Next();
    while more
      invariant fresh(it) && it.code == code && it.pc <= |code| && (more ==> it.started)
      invariant more ==> !it.error && it.pc < |code| && it.op == code[it.pc] && it.pc + 1 + |it.arg| <= |code|
      invariant more ==> it.arg == code[it.pc + 1..it.pc + 1 + |it.arg|] && |it.arg| == ArgLength(it.op)
      invariant it.error ==> !Complete(code, 0)
      invariant !more && !it.error ==> it.pc == |code|
      invariant !it.error ==> Complete(code, 0) == Complete(code, it.pc) && CoversTo(pieces, code, it.pc)
      decreases if more then |code| - it.pc + 1 else 0
    {
      var p := Piece(it.pc, it.op, it.arg);
      assert code[p.pc..p.pc + 1 + |p.arg|] == [p.op] + p.arg;
      assert (pieces + [p])[..|pieces|] == pieces;
      pieces := pieces + [p];
      more := it.Next();
    }
    if it.error {
      return CutPush;
    }
    CoversJoined(pieces, code, |code|);
    assert code[..|code|] == code;
    return Pieces(pieces);
  }

  /** Whole instructions may be put after whole instructions, and nothing else may. */
  lemma {:induction false} JoinCompleteIff(a: Code, b: Code, pc: nat)
    requires pc <= |a| && Complete(a, pc)
    ensures Complete(a + b, pc) <==> Complete(b, 0)
    decreases |a| - pc
  {
    if pc < |a| {
      assert (a + b)[pc] == a[pc];
      JoinCompleteIff(a, b, pc + 1 + ArgLength(a[pc]));
    } else {
      ShiftCompleteIff(a, b, 0);
    }
  }

  lemma {:induction false} ShiftCompleteIff(a: Code, b: Code, pc: nat)
    ensures Complete(a + b, |a| + pc) <==> Complete(b, pc)
    decreases |b| - pc
  {
    if pc < |b| {
      assert (a + b)[|a| + pc] == b[pc];
      ShiftCompleteIff(a, b, pc + 1 + ArgLength(b[pc]));
    }
  }

  /** The iterator comes by the end of the code exactly when no push is cut short. */
  lemma {:induction false} VisitsEndIff(a: Code, pc: nat)
    requires pc <= |a|
    ensures Visits(a, pc, |a|) <==> Complete(a, pc)
    decreases |a| - pc
  {
    if pc < |a| {
      var next := pc + 1 + ArgLength(a[pc]);
      if next <= |a| {
        VisitsEndIff(a, next);
      } else {
        VisitsForward(a, next, |a|);
      }
    }
  }

  /** What is appended to the code does not change where the iterator comes by before it. */
  lemma {:induction false} VisitsPrefixIff(a: Code, b: Code, pc: nat, k: nat)
    requires k <= |a|
    ensures Visits(a + b, pc, k) <==> Visits(a, pc, k)
    decreases |a| - pc
  {
    if pc > k {
      VisitsForward(a, pc, k);
      VisitsForward(a + b, pc, k);
    } else if pc < k {
      assert (a + b)[pc] == a[pc];
      VisitsPrefixIff(a, b, pc + 1 + ArgLength(a[pc]), k);
    }
  }

  /** A push behind whole instructions swallows the bytes after it: none of them is visited. */
  lemma {:induction false} PushSwallows(a: Code, op: byte, b: Code, pc: nat, k: nat)
    requires pc <= |a| && Complete(a, pc) && |a| < k <= |a| + ArgLength(op)
    ensures !Visits(a + [op] + b, pc, k)
    decreases |a| - pc
  {
    var code := a + [op] + b;
    if pc < |a| {
      assert code[pc] == a[pc];
      PushSwallows(a, op, b, pc + 1 + ArgLength(a[pc]), k);
    } else {
      assert code[pc] == op;
      VisitsForward(code, pc + 1 + ArgLength(op), k);
    }
  }

  lemma {:induction false} VisitsForward(code: Code, pc: nat, k: nat)
    requires k < pc
    ensures !Visits(code, pc, k)
    decreases |code| - pc
  {
    if pc < |code| {
      VisitsForward(code, pc + 1 + ArgLength(code[pc]), k);
    }
  }
}
