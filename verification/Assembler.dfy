/**
The two-pass EVM assembler.  The first pass assigns addresses to labels by counting bytes, the
second emits code.  Mnemonics are resolved already: a jump, the sizeless push, or one opcode.
 */
module Assembler {
  import opened Bytes
  import opened Instructions

  /** `JUMP` and `JUMPI`. */
  type JumpOp = op: byte | op == 0x56 || op == 0x57 witness 0x56

  datatype Mnemonic = Jump(jump: JumpOp) | Push | Plain(op: byte)

  datatype Token = Eof | LineStart | LineEnd | Invalid
                 | Element(m: Mnemonic) | Label(name: string) | LabelDef(name: string)
                 | Number(value: nat) | Text(chars: seq<byte>)

  /** An entry of the output list.  Strings end up there too, but only opcodes and byte slices are printed. */
  datatype Item = Op(op: byte) | Data(data: seq<byte>) | Dropped(chars: seq<byte>)

  function BytesOf(x: Item): Code {
    match x
    case Op(op) => [op]
    case Data(data) => data
    case Dropped(_) => []
  }

  function Emit(binary: seq<Item>): Code {
    if binary == [] then [] else Emit(binary[..|binary| - 1]) + BytesOf(binary[|binary| - 1])
  }

  /** A number's big-endian bytes without leading zeros. */
  function Minimal(n: nat): (b: seq<byte>)
    ensures FromBytes(b) == n
  {
    if n == 0 then [] else
      var b := Minimal(n / 256) + [n % 256];
      assert b[..|b| - 1] == Minimal(n / 256);
      b
  }

  function NumberBytes(n: nat): seq<byte> {
    if n == 0 then [0] else Minimal(n)
  }

  // ----- first pass

  predicate AfterJump(tokens: seq<Token>, i: nat)
    requires i < |tokens|
  {
    i > 0 && tokens[i - 1].Element? && tokens[i - 1].m.Jump?
  }

  /** What the first pass counts for a token. */
  function Width(tokens: seq<Token>, i: nat): nat
    requires i < |tokens|
  {
    match tokens[i]
    case Number(v) => |NumberBytes(v)|
    case Text(chars) => |chars|
    case Element(_) => 1
    case LabelDef(_) => 1
    case Label(_) => if AfterJump(tokens, i) then 5 else 4
    case _ => 0
  }

  /** The address the first pass is at when it comes to token `i`. */
  function Addr(tokens: seq<Token>, i: nat): nat
    requires i <= |tokens|
  {
    if i == 0 then 0 else Addr(tokens, i - 1) + Width(tokens, i - 1)
  }

  /** Bytes counted before token `i` that the second pass never prints: strings given to a jump. */
  function Lost(tokens: seq<Token>, i: nat): nat
    requires i <= |tokens|
  {
    if i == 0 then 0
    else Lost(tokens, i - 1) + if tokens[i - 1].Text? && AfterJump(tokens, i - 1) then |tokens[i - 1].chars| else 0
  }

  /** The addresses of the last definitions of all labels among the first `n` tokens. */
  ghost predicate LabelsOf(tokens: seq<Token>, n: nat, labels: map<string, nat>)
    requires n <= |tokens|
  {
    && (forall i :: 0 <= i < n && tokens[i].LabelDef? ==> tokens[i].name in labels)
    && (forall l :: l in labels ==> exists i :: IsLastDef(tokens, n, l, i) && labels[l] == Addr(tokens, i))
  }

  ghost predicate IsLastDef(tokens: seq<Token>, n: nat, l: string, i: nat)
    requires n <= |tokens|
  {
    i < n && tokens[i] == LabelDef(l) && forall j :: i < j < n ==> tokens[j] != LabelDef(l)
  }

  lemma {:induction false} LabelsNext(tokens: seq<Token>, n: nat, labels: map<string, nat>)
    requires n < |tokens| && LabelsOf(tokens, n, labels)
    ensures LabelsOf(tokens, n + 1, if tokens[n].LabelDef? then labels[tokens[n].name := Addr(tokens, n)] else labels)
  {
  }

  class Compiler {
    var tokens: seq<Token>
    var binary: seq<Item>
    var labels: map<string, nat>
    var pc: nat
    var pos: nat

    constructor ()
      ensures tokens == [] && binary == [] && labels == map[] && pc == 0 && pos == 0
    {
      tokens, binary, labels, pc, pos := [], [], map[], 0, 0;
    }

    /** The first pass. */
    method Feed(ch: seq<Token>)
      requires tokens == [] && labels == map[] && pc == 0
      modifies this
      ensures tokens == ch && LabelsOf(ch, |ch|, labels) && pc == Addr(ch, |ch|)
      ensures binary == old(binary) && pos == old(pos)
    {
      var tokens', labels', pc' := FirstPass(ch);
      tokens, labels, pc := tokens', labels', pc';
    }

    method NextToken() returns (t: Token)
      requires pos < |tokens|
      modifies this`pos
      ensures pos == old(pos) + 1 && t == tokens[old(pos)]
    {
      t := tokens[pos];
      pos := pos + 1;
    }

    method PushBin(x: Item)
      modifies this`binary
      ensures Emit(binary) == old(Emit(binary)) + BytesOf(x)
    {
      assert (binary + [x])[..|binary|] == binary;
      binary := binary + [x];
    }

    method PushInstruction(op: byte, arg: seq<byte>)
      modifies this`binary
      ensures Emit(binary) == old(Emit(binary)) + ([op] + arg)
    {
      ghost var before := Emit(binary);
      PushBin(Op(op));
      PushBin(Data(arg));
      assert before + [op] + arg == before + ([op] + arg);
    }

    /** The second pass.  It is free of errors exactly when the tokens split into accepted lines, and then
        lays out every statement at its offset.  Every statement begins where the instruction
        iterator finds an instruction if and only if every statement is made of whole instructions. */
    method Compile() returns (bin: Code, errors: nat)
      requires Ended(tokens) && pos == 0 && binary == [] && Small(labels)
      modifies this`pos, this`binary
      ensures errors == 0 <==> Lines(tokens, 0)
      ensures errors == 0 ==> Layout(tokens, labels, bin, |tokens|)
      ensures errors == 0 ==> (Aligned(tokens, bin, |tokens|) <==> Whole(tokens, |tokens|))
    {
      errors := 0;
      while pos < |tokens|
        invariant pos <= |tokens|
        invariant Lines(tokens, 0) <==> errors == 0 && Lines(tokens, pos)
        invariant errors == 0 ==> Layout(tokens, labels, Emit(binary), pos)
        invariant errors == 0 ==> (Aligned(tokens, Emit(binary), pos) <==> Whole(tokens, pos))
        decreases |tokens| - pos
      {
        ghost var out, p := Emit(binary), pos;
        var ok := CompileLine();
        if !ok {
          errors := errors + 1;
        } else if errors == 0 {
          OneLine(tokens, p, pos);
          LineLayout(tokens, labels, out, p, pos);
          LineAlignedIff(tokens, labels, out, p, pos);
        }
      }
      bin := Emit(binary);
    }

    /** Emits one line; fails exactly when no accepted line begins here. */
    method CompileLine() returns (ok: bool)
      requires Ended(tokens) && pos < |tokens| && Small(labels)
      modifies this`pos, this`binary
      ensures old(pos) < pos <= |tokens|
      ensures ok ==> Line(tokens, old(pos), pos)
                     && Emit(binary) == old(Emit(binary)) + CodeOf(tokens, labels, old(pos) + 1)
      ensures !ok ==> forall q :: !Line(tokens, old(pos), q)
    {
      var n := NextToken();
      if n != LineStart {
        return false;
      }
      var lvalue := NextToken();
      match lvalue {
        case Eof =>
          return true;
        case Element(_) =>
          ok := CompileLvalue(lvalue, old(pos));
        case LabelDef(_) =>
          ok := CompileLvalue(lvalue, old(pos));
        case LineEnd =>
          return true;
        case _ =>
          return false;
      }
    }

    /** Emits the statement or the label definition of a line, up to the end of the line. */
    method CompileLvalue(lvalue: Token, ghost p: nat) returns (ok: bool)
      requires Ended(tokens) && p + 2 == pos < |tokens| && Small(labels)
      requires tokens[p] == LineStart && tokens[pos - 1] == lvalue && (lvalue.Element? || lvalue.LabelDef?)
      modifies this`pos, this`binary
      ensures old(pos) <= pos <= |tokens|
      ensures ok ==> Line(tokens, p, pos)
                     && Emit(binary) == old(Emit(binary)) + CodeOf(tokens, labels, p + 1)
      ensures !ok ==> forall q :: !Line(tokens, p, q)
    {
      if lvalue.Element? {
        ok := CompileElement(lvalue.m);
        if !ok {
          NotTaken(tokens, p, old(pos), lvalue.m);
          return;
        }
      } else {
        PushBin(Op(JUMPDEST));
      }
      NoOtherEnd(tokens, p, pos);
      var n := NextToken();
      ok := n == LineEnd;
    }

    /** Emits a statement whose mnemonic has been read; fails exactly when no operand fits it. */
    method CompileElement(m: Mnemonic) returns (ok: bool)
      requires Ended(tokens) && 0 < pos < |tokens| && tokens[pos - 1] == Element(m) && Small(labels)
      modifies this`pos, this`binary
      ensures old(pos) <= pos <= |tokens|
      ensures ok ==> pos < |tokens| && Taken(tokens, old(pos), m, pos)
                     && Emit(binary) == old(Emit(binary)) + CodeOf(tokens, labels, old(pos) - 1)
      ensures !ok ==> forall q :: !Taken(tokens, old(pos), m, q)
    {
      match m {
        case Jump(op) => ok := CompileJump(op);
        case Push => ok := CompilePush();
        case Plain(op) =>
          PushBin(Op(op));
          return true;
      }
    }

    method CompileJump(op: JumpOp) returns (ok: bool)
      requires Ended(tokens) && 0 < pos < |tokens| && tokens[pos - 1] == Element(Jump(op)) && Small(labels)
      modifies this`pos, this`binary
      ensures old(pos) <= pos <= |tokens|
      ensures ok ==> pos < |tokens| && Taken(tokens, old(pos), Jump(op), pos)
                     && Emit(binary) == old(Emit(binary)) + CodeOf(tokens, labels, old(pos) - 1)
      ensures !ok ==> forall q :: !Taken(tokens, old(pos), Jump(op), q)
    {
      ghost var before := Emit(binary);
      var rvalue := NextToken();
      ghost var operand := JumpOperand(labels, rvalue);
      if rvalue == LineEnd {
        pos := pos - 1;
      } else if !IsOperand(rvalue) {
        return false;
      } else {
        PushJumpOperand(rvalue);
      }
      PushBin(Op(op));
      Joins(before, operand, [op]);
      return true;
    }

    method PushJumpOperand(rvalue: Token)
      requires IsOperand(rvalue) && Small(labels)
      modifies this`binary
      ensures Emit(binary) == old(Emit(binary)) + JumpOperand(labels, rvalue)
    {
      match rvalue {
        case Number(v) =>
          PushBin(Data(NumberBytes(v)));
        case Text(chars) =>
          PushBin(Dropped(chars));
        case Label(name) =>
          var address := Padded(Target(labels, name));
          PushInstruction(PUSH4, address);
      }
    }

    method CompilePush() returns (ok: bool)
      requires Ended(tokens) && 0 < pos < |tokens| && tokens[pos - 1] == Element(Push) && Small(labels)
      modifies this`pos, this`binary
      ensures old(pos) <= pos <= |tokens|
      ensures ok ==> pos < |tokens| && Taken(tokens, old(pos), Push, pos)
                     && Emit(binary) == old(Emit(binary)) + CodeOf(tokens, labels, old(pos) - 1)
      ensures !ok ==> forall q :: !Taken(tokens, old(pos), Push, q)
    {
      var rvalue := NextToken();
      if !IsOperand(rvalue) {
        return false;
      }
      var value := PushOperand(labels, rvalue);
      PushedLength(labels, rvalue);
      if |value| > 32 {
        return false;
      }
      PushInstruction(PUSH1 - 1 + |value|, value);
      PushCode(tokens, labels, pos - 2);
      return true;
    }
  }

  lemma Joins(a: Code, b: Code, c: Code)
    ensures a + b + c == a + (b + c) && a + [] == a
  {
  }

  method FirstPass(ch: seq<Token>) returns (tokens: seq<Token>, labels: map<string, nat>, pc: nat)
    ensures tokens == ch && LabelsOf(ch, |ch|, labels) && pc == Addr(ch, |ch|)
  {
    tokens, labels, pc := [], map[], 0;
    var prev := Eof;
    for k := 0 to |ch|
      invariant tokens == ch[..k] && LabelsOf(ch, k, labels) && pc == Addr(ch, k)
      invariant prev == if k == 0 then Eof else ch[k - 1]
    {
      var i := ch[k];
      LabelsNext(ch, k, labels);
      match i {
        case Number(v) => pc := pc + |NumberBytes(v)|;
        case Text(chars) => pc := pc + |chars|;
        case Element(_) => pc := pc + 1;
        case LabelDef(name) =>
          labels := labels[name := pc];
          pc := pc + 1;
        case Label(_) =>
          pc := pc + 4;
          if prev.Element? && prev.m.Jump? {
            pc := pc + 1;
          }
        case _ =>
      }
      tokens := tokens + [i];
      prev := i;
    }
  }

  // ----- second pass

  /** The lexer closes every input with an end-of-file token. */
  predicate Ended(tokens: seq<Token>) {
    tokens != [] && tokens[|tokens| - 1] == Eof
  }

  /** Label addresses fit the four bytes kept for them. */
  predicate Small(labels: map<string, nat>) {
    forall l :: l in labels ==> labels[l] < U32
  }

  /** The address of a label; an unknown label has address 0. */
  function Target(labels: map<string, nat>, name: string): nat {
    if name in labels then labels[name] else 0
  }

  lemma {:induction false} MinimalLength(n: nat, k: nat)
    requires n < Pow256(k)
    ensures |Minimal(n)| <= k
  {
    if n > 0 {
      assert k > 0;
      MinimalLength(n / 256, k - 1);
    }
  }

  /** Four bytes, big-endian. */
  function Padded(n: nat): (b: seq<byte>)
    requires n < U32
    ensures |b| == 4 && FromBytes(b) == n
  {
    assert Pow256(4) == U32 by {
      assert Pow256(1) == 256 && Pow256(2) == 256 * 256 && Pow256(3) == 256 * 256 * 256;
    }
    MinimalLength(n, 4);
    LeadingZeros(4 - |Minimal(n)|, Minimal(n));
    Zeros(4 - |Minimal(n)|) + Minimal(n)
  }

  function JumpOperand(labels: map<string, nat>, t: Token): Code
    requires Small(labels)
  {
    match t
    case Number(v) => NumberBytes(v)
    case Label(name) => [PUSH4] + Padded(Target(labels, name))
    case _ => []
  }

  function PushOperand(labels: map<string, nat>, t: Token): Code
    requires Small(labels)
  {
    match t
    case Number(v) => NumberBytes(v)
    case Text(chars) => chars
    case Label(name) => Padded(Target(labels, name))
    case _ => []
  }

  predicate IsOperand(t: Token) {
    t.Number? || t.Text? || t.Label?
  }

  /** The length of what a push stores for an operand. */
  function PushLength(t: Token): nat {
    match t
    case Number(v) => |NumberBytes(v)|
    case Text(chars) => |chars|
    case _ => 4
  }

  lemma PushedLength(labels: map<string, nat>, t: Token)
    requires Small(labels) && IsOperand(t)
    ensures |PushOperand(labels, t)| == PushLength(t)
  {
  }

  /** The tokens `p` to `q - 1` are operands that the statement takes; a jump takes none at a line end. */
  predicate Taken(tokens: seq<Token>, p: nat, m: Mnemonic, q: nat) {
    match m
    case Plain(_) => q == p
    case Jump(_) =>
      p < |tokens| && ((q == p && tokens[p] == LineEnd) || (q == p + 1 && IsOperand(tokens[p])))
    case Push => p < |tokens| && q == p + 1 && IsOperand(tokens[p]) && PushLength(tokens[p]) <= 32
  }

  /** The tokens `p` to `q - 1` are a line the assembler accepts. */
  predicate Line(tokens: seq<Token>, p: nat, q: nat) {
    && p + 2 <= q <= |tokens| && tokens[p] == LineStart
    && match tokens[p + 1]
       case Eof => q == p + 2
       case LineEnd => q == p + 2
       case LabelDef(_) => q == p + 3 && tokens[q - 1] == LineEnd
       case Element(m) => q >= p + 3 && tokens[q - 1] == LineEnd && Taken(tokens, p + 2, m, q - 1)
       case _ => false
  }

  /** The tokens from `p` on split into accepted lines. */
  ghost predicate Lines(tokens: seq<Token>, p: nat)
    decreases |tokens| - p
  {
    p == |tokens| || exists q :: p < q <= |tokens| && Line(tokens, p, q) && Lines(tokens, q)
  }

  lemma NotTaken(tokens: seq<Token>, p: nat, r: nat, m: Mnemonic)
    requires p + 1 < |tokens| && tokens[p + 1] == Element(m) && r == p + 2 && forall q :: !Taken(tokens, r, m, q)
    ensures forall q :: !Line(tokens, p, q)
  {
  }

  /** What is taken of a line that begins at `p` ends at `e`; no accepted line ends elsewhere. */
  lemma NoOtherEnd(tokens: seq<Token>, p: nat, e: nat)
    requires p + 1 < |tokens| && e < |tokens| && tokens[p] == LineStart
    requires if tokens[p + 1].Element? then Taken(tokens, p + 2, tokens[p + 1].m, e)
             else tokens[p + 1].LabelDef? && e == p + 2
    ensures if tokens[e] == LineEnd then Line(tokens, p, e + 1) else forall q :: !Line(tokens, p, q)
  {
  }

  /** At most one accepted line begins at a token. */
  lemma OneLine(tokens: seq<Token>, p: nat, q: nat)
    requires Line(tokens, p, q)
    ensures forall q' :: Line(tokens, p, q') ==> q' == q
    ensures Lines(tokens, p) <==> Lines(tokens, q)
  {
  }

  /** Where the code of token `i` begins in the output. */
  function Offset(tokens: seq<Token>, i: nat): int
    requires i <= |tokens|
  {
    Addr(tokens, i) - Lost(tokens, i)
  }

  ghost predicate At(out: Code, off: int, bytes: Code) {
    0 <= off && off + |bytes| <= |out| && out[off..off + |bytes|] == bytes
  }

  /** The code of a label definition, or of the statement that begins at token `i`. */
  function CodeOf(tokens: seq<Token>, labels: map<string, nat>, i: nat): Code
    requires i < |tokens| && Small(labels)
  {
    match tokens[i]
    case LabelDef(_) => [JUMPDEST]
    case Element(Plain(op)) => [op]
    case Element(Jump(op)) => (if i + 1 < |tokens| then JumpOperand(labels, tokens[i + 1]) else []) + [op]
    case Element(Push) =>
      var value := if i + 1 < |tokens| then PushOperand(labels, tokens[i + 1]) else [];
      [(PUSH1 - 1 + |value|) % 256] + value
    case _ => []
  }

  lemma PushCode(tokens: seq<Token>, labels: map<string, nat>, i: nat)
    requires Small(labels) && i + 1 < |tokens| && tokens[i] == Element(Push)
    requires |PushOperand(labels, tokens[i + 1])| <= 32
    ensures var value := PushOperand(labels, tokens[i + 1]);
            CodeOf(tokens, labels, i) == [PUSH1 - 1 + |value|] + value
  {
  }

  /** The first `p` tokens are assembled: each statement has its code at its offset. */
  ghost predicate Layout(tokens: seq<Token>, labels: map<string, nat>, out: Code, p: nat)
    requires Small(labels)
  {
    && p <= |tokens| && |out| == Offset(tokens, p)
    && forall i :: 0 <= i < p ==> At(out, Offset(tokens, i), CodeOf(tokens, labels, i))
  }

  lemma AtExtends(out: Code, off: int, bytes: Code, more: Code)
    requires At(out, off, bytes)
    ensures At(out + more, off, bytes)
  {
  }

  /** The widths that the first pass counts for a line are those of its code, but for lost strings. */
  lemma LineWidth(tokens: seq<Token>, labels: map<string, nat>, p: nat, q: nat)
    requires Small(labels) && Line(tokens, p, q)
    ensures Offset(tokens, p + 1) == Offset(tokens, p)
            && Offset(tokens, p + 2) == Offset(tokens, p) + Width(tokens, p + 1)
    ensures Offset(tokens, q) == Offset(tokens, p) + |CodeOf(tokens, labels, p + 1)|
  {
    OffsetNext(tokens, p);
    OffsetNext(tokens, p + 1);
    if tokens[p + 1].Element? {
      StatementWidth(tokens, labels, p + 1, q - 1);
    }
    if q >= p + 3 {
      OffsetNext(tokens, p + 2);
    }
    if q == p + 4 {
      OffsetNext(tokens, p + 3);
    }
  }

  lemma StatementWidth(tokens: seq<Token>, labels: map<string, nat>, i: nat, q: nat)
    requires Small(labels) && i + 1 <= q < |tokens| && tokens[i].Element?
             && Taken(tokens, i + 1, tokens[i].m, q)
    requires q == i + 1 ==> tokens[q] == LineEnd
    ensures q <= i + 2
    ensures |CodeOf(tokens, labels, i)|
            == 1 + if q == i + 1 || (tokens[i + 1].Text? && AfterJump(tokens, i + 1)) then 0
                   else Width(tokens, i + 1)
  {
  }

  lemma OffsetNext(tokens: seq<Token>, i: nat)
    requires i < |tokens|
    ensures Offset(tokens, i + 1) == Offset(tokens, i)
                                     + if tokens[i].Text? && AfterJump(tokens, i) then 0 else Width(tokens, i)
  {
  }

  lemma LineLayout(tokens: seq<Token>, labels: map<string, nat>, out: Code, p: nat, q: nat)
    requires Small(labels) && Layout(tokens, labels, out, p) && Line(tokens, p, q)
    ensures Layout(tokens, labels, out + CodeOf(tokens, labels, p + 1), q)
  {
    var bytes := CodeOf(tokens, labels, p + 1);
    LineWidth(tokens, labels, p, q);
    forall i | 0 <= i < q ensures At(out + bytes, Offset(tokens, i), CodeOf(tokens, labels, i)) {
      if i < p {
        AtExtends(out, Offset(tokens, i), CodeOf(tokens, labels, i), bytes);
      } else {
        LineLayoutAt(tokens, labels, out, p, q, i);
      }
    }
  }

  lemma LineLayoutAt(tokens: seq<Token>, labels: map<string, nat>, out: Code, p: nat, q: nat, i: nat)
    requires Small(labels) && p <= i < q <= |tokens| && |out| == Offset(tokens, p) && Line(tokens, p, q)
    ensures At(out + CodeOf(tokens, labels, p + 1), Offset(tokens, i), CodeOf(tokens, labels, i))
  {
    var bytes := CodeOf(tokens, labels, p + 1);
    LineWidth(tokens, labels, p, q);
    if i == p + 1 {
      assert (out + bytes)[|out|..|out| + |bytes|] == bytes;
    } else if i >= p + 2 {
      LaterOffset(tokens, labels, p, q, i);
    }
  }

  /** Behind its statement an accepted line has an operand at most, and its end. */
  lemma RestOfLine(tokens: seq<Token>, p: nat, q: nat, i: nat)
    requires Line(tokens, p, q) && p <= i < q && i != p + 1
    ensures tokens[i] == LineStart || tokens[i] == LineEnd || IsOperand(tokens[i])
    ensures i <= p + 3
  {
  }

  /** Operands and line ends begin inside the code of their line and have no code of their own. */
  lemma LaterOffset(tokens: seq<Token>, labels: map<string, nat>, p: nat, q: nat, i: nat)
    requires Small(labels) && Line(tokens, p, q) && p + 2 <= i < q
    ensures CodeOf(tokens, labels, i) == []
    ensures Offset(tokens, p) <= Offset(tokens, i) <= Offset(tokens, p) + |CodeOf(tokens, labels, p + 1)|
  {
    RestOfLine(tokens, p, q, i);
    LineWidth(tokens, labels, p, q);
    OffsetNext(tokens, i);
    if i + 2 == q {
      OffsetNext(tokens, i + 1);
    }
    if i == p + 3 {
      OffsetNext(tokens, p + 2);
    }
  }

  // ----- statements and instructions

  /** A label definition or a statement begins at token `i`. */
  predicate Begins(tokens: seq<Token>, i: nat) {
    i < |tokens| && (tokens[i].LabelDef? || tokens[i].Element?)
  }

  /** Every statement among the first `p` tokens begins at an instruction, and the last one is whole. */
  ghost predicate Aligned(tokens: seq<Token>, out: Code, p: nat)
    requires p <= |tokens|
  {
    Complete(out, 0) && forall i :: 0 <= i < p && Begins(tokens, i) ==> StartsAt(out, Offset(tokens, i))
  }

  ghost predicate StartsAt(out: Code, k: int) {
    k >= 0 && Visits(out, 0, k)
  }

  /** Token `i` is not a push opcode without operand, nor a jump behind raw bytes that, together with
      the jump, end in a push cut short. */
  ghost predicate WholeAt(tokens: seq<Token>, i: nat)
    requires i < |tokens|
  {
    match tokens[i]
    case Element(Plain(op)) => !IsPush(op)
    case Element(Jump(op)) =>
      i + 1 < |tokens| && tokens[i + 1].Number? ==> Complete(NumberBytes(tokens[i + 1].value) + [op], 0)
    case _ => true
  }

  ghost predicate Whole(tokens: seq<Token>, p: nat)
    requires p <= |tokens|
  {
    forall i :: 0 <= i < p ==> WholeAt(tokens, i)
  }

  /** A push with its operand, of up to 32 bytes, is whole. */
  lemma {:induction false} PushIsComplete(value: Code)
    requires |value| <= 32
    ensures Complete([PUSH1 - 1 + |value|] + value, 0)
  {
    var code: Code := [PUSH1 - 1 + |value|] + value;
    assert ArgLength(code[0]) == |value|;
    assert Complete(code, 1 + |value|);
  }

  /** The push of an address and the jump behind it are whole. */
  lemma {:induction false} JumpIsComplete(address: Code, op: JumpOp)
    requires |address| == 4
    ensures Complete([PUSH4] + address + [op], 0)
  {
    var code: Code := [PUSH4] + address + [op];
    assert code[0] == PUSH4 && code[5] == op;
    assert Complete(code, 6) && Complete(code, 5);
  }

  lemma OneByteCompleteIff(op: byte)
    ensures Complete([op], 0) <==> !IsPush(op)
  {
    assert Complete([op], 1);
  }

  /** The condition on the tokens says exactly when the code of a statement is made of whole
      instructions, whatever the labels stand for. */
  lemma StatementCompleteIff(tokens: seq<Token>, labels: map<string, nat>, i: nat, q: nat)
    requires Small(labels) && i < |tokens| && tokens[i].Element? && Taken(tokens, i + 1, tokens[i].m, q)
    ensures Complete(CodeOf(tokens, labels, i), 0) <==> WholeAt(tokens, i)
  {
    match tokens[i].m
    case Plain(op) => OneByteCompleteIff(op);
    case Push =>
      PushCode(tokens, labels, i);
      PushIsComplete(PushOperand(labels, tokens[i + 1]));
    case Jump(op) => JumpCompleteIff(tokens, labels, i, op);
  }

  lemma JumpCompleteIff(tokens: seq<Token>, labels: map<string, nat>, i: nat, op: JumpOp)
    requires Small(labels) && i + 1 < |tokens| && tokens[i] == Element(Jump(op))
    requires tokens[i + 1] == LineEnd || IsOperand(tokens[i + 1])
    ensures Complete(CodeOf(tokens, labels, i), 0) <==> WholeAt(tokens, i)
  {
    var operand := tokens[i + 1];
    assert CodeOf(tokens, labels, i) == JumpOperand(labels, operand) + [op];
    if operand.Label? {
      JumpIsComplete(Padded(Target(labels, operand.name)), op);
    } else if !operand.Number? {
      OneByteCompleteIff(op);
      assert [] + [op] == [op];
    }
  }

  lemma LineCompleteIff(tokens: seq<Token>, labels: map<string, nat>, p: nat, q: nat)
    requires Small(labels) && Line(tokens, p, q)
    ensures Complete(CodeOf(tokens, labels, p + 1), 0) <==> WholeAt(tokens, p + 1)
    ensures forall i :: p <= i < q && i != p + 1 ==> WholeAt(tokens, i) && !Begins(tokens, i)
    ensures !Begins(tokens, p + 1) ==> CodeOf(tokens, labels, p + 1) == []
  {
    forall i | p <= i < q && i != p + 1 ensures WholeAt(tokens, i) && !Begins(tokens, i) {
      RestOfLine(tokens, p, q, i);
    }
    if tokens[p + 1].Element? {
      StatementCompleteIff(tokens, labels, p + 1, q - 1);
    } else if tokens[p + 1].LabelDef? {
      OneByteCompleteIff(JUMPDEST);
    }
  }

  /** One more accepted line: the program stays aligned exactly when the line is whole, and never
      becomes aligned again. */
  lemma LineAlignedIff(tokens: seq<Token>, labels: map<string, nat>, out: Code, p: nat, q: nat)
    requires Small(labels) && Layout(tokens, labels, out, p) && Line(tokens, p, q)
    requires Aligned(tokens, out, p) <==> Whole(tokens, p)
    ensures Aligned(tokens, out + CodeOf(tokens, labels, p + 1), q) <==> Whole(tokens, q)
  {
    var bytes := CodeOf(tokens, labels, p + 1);
    var all := out + bytes;
    LineCompleteIff(tokens, labels, p, q);
    OffsetNext(tokens, p);
    VisitsEndIff(out, 0);
    VisitsPrefixIff(out, bytes, 0, |out|);
    forall i | 0 <= i < p ensures StartsAt(all, Offset(tokens, i)) <==> StartsAt(out, Offset(tokens, i)) {
      VisitsPrefixIff(out, bytes, 0, Offset(tokens, i));
    }
    if Complete(out, 0) {
      JoinCompleteIff(out, bytes, 0);
    } else if bytes == [] {
      assert all == out;
    }
    assert Whole(tokens, q) <==> Whole(tokens, p) && WholeAt(tokens, p + 1);
  }

  lemma {:induction false} LabelsSmall(tokens: seq<Token>, labels: map<string, nat>)
    requires LabelsOf(tokens, |tokens|, labels) && Addr(tokens, |tokens|) < U32
    ensures Small(labels)
  {
    forall l | l in labels ensures labels[l] < U32 {
      var i: nat :| IsLastDef(tokens, |tokens|, l, i) && labels[l] == Addr(tokens, i);
      AddrMonotone(tokens, i, |tokens|);
    }
  }

  lemma {:induction false} AddrMonotone(tokens: seq<Token>, i: nat, j: nat)
    requires i <= j <= |tokens|
    ensures Addr(tokens, i) <= Addr(tokens, j)
    decreases j
  {
    if i < j {
      AddrMonotone(tokens, i, j - 1);
    }
  }

  /** Token `i` is a jump or push of a label, and `d` is the last definition of that label. */
  ghost predicate Reference(tokens: seq<Token>, i: nat, d: nat) {
    && i + 1 < |tokens| && tokens[i].Element? && !tokens[i].m.Plain? && tokens[i + 1].Label?
    && IsLastDef(tokens, |tokens|, tokens[i + 1].name, d)
  }

  /** Token `i` is a jump or push of a label that is defined nowhere. */
  ghost predicate Unresolved(tokens: seq<Token>, i: nat) {
    && i + 1 < |tokens| && tokens[i].Element? && !tokens[i].m.Plain? && tokens[i + 1].Label?
    && forall d :: 0 <= d < |tokens| ==> tokens[d] != LabelDef(tokens[i + 1].name)
  }

  /** The operand bytes of a jump or push at token `i` name this address. */
  ghost predicate RefersTo(tokens: seq<Token>, out: Code, i: nat, address: nat)
    requires i < |tokens|
  {
    var off := Offset(tokens, i);
    && 0 <= off && off + 5 <= |out| && out[off] == PUSH4
    && FromBytes(out[off + 1..off + 5]) == address
  }

  lemma LabelOperand(tokens: seq<Token>, labels: map<string, nat>, out: Code, i: nat)
    requires Small(labels) && Layout(tokens, labels, out, |tokens|)
    requires i + 1 < |tokens| && tokens[i].Element? && !tokens[i].m.Plain? && tokens[i + 1].Label?
    ensures RefersTo(tokens, out, i, Target(labels, tokens[i + 1].name))
  {
    StatementOfLabel(tokens, labels, i);
    AtParts(out, Offset(tokens, i), CodeOf(tokens, labels, i));
  }

  lemma AtParts(out: Code, off: int, code: Code)
    requires At(out, off, code) && |code| >= 5
    ensures out[off] == code[0] && out[off + 1..off + 5] == code[1..5]
  {
    var part := out[off..off + |code|];
    assert forall j :: 0 <= j < |code| ==> part[j] == out[off + j];
    var four := out[off + 1..off + 5];
    assert four[0] == part[1] && four[1] == part[2] && four[2] == part[3] && four[3] == part[4];
  }

  lemma StatementOfLabel(tokens: seq<Token>, labels: map<string, nat>, i: nat)
    requires Small(labels) && i + 1 < |tokens| && tokens[i].Element? && !tokens[i].m.Plain? && tokens[i + 1].Label?
    ensures var code := CodeOf(tokens, labels, i);
            |code| >= 5 && code[0] == PUSH4 && code[1..5] == Padded(Target(labels, tokens[i + 1].name))
  {
  }

  lemma {:induction false} LabelAddress(tokens: seq<Token>, labels: map<string, nat>, l: string, d: nat)
    requires LabelsOf(tokens, |tokens|, labels) && IsLastDef(tokens, |tokens|, l, d)
    ensures Target(labels, l) == Addr(tokens, d)
  {
  }

  /** No jump has a number or a string for operand, and no opcode is a push without operand. */
  ghost predicate Clean(tokens: seq<Token>) {
    forall i :: 0 <= i < |tokens| ==>
      && (tokens[i].Number? || tokens[i].Text? ==> !AfterJump(tokens, i))
      && (tokens[i].Element? && tokens[i].m.Plain? ==> !IsPush(tokens[i].m.op))
  }

  lemma {:induction false} CleanLosesNothing(tokens: seq<Token>, i: nat)
    requires Clean(tokens) && i <= |tokens|
    ensures Lost(tokens, i) == 0
  {
    if i > 0 {
      CleanLosesNothing(tokens, i - 1);
    }
  }

  /** In a clean program everything is whole and every address is an offset. */
  lemma {:induction false} CleanProgram(tokens: seq<Token>)
    requires Clean(tokens)
    ensures Whole(tokens, |tokens|) && forall i :: 0 <= i <= |tokens| ==> Offset(tokens, i) == Addr(tokens, i)
  {
    forall i | 0 <= i <= |tokens| ensures Offset(tokens, i) == Addr(tokens, i) {
      CleanLosesNothing(tokens, i);
    }
    forall i | 0 <= i < |tokens| ensures WholeAt(tokens, i) {
      assert i + 1 < |tokens| && tokens[i].Element? && tokens[i].m.Jump? ==> AfterJump(tokens, i + 1);
    }
  }

  // ----- what is printed for each statement

  /** The bytes are those of the number, big-endian, one at least and no leading zeros. */
  predicate ShortestOf(b: seq<byte>, v: nat) {
    |b| >= 1 && FromBytes(b) == v && (|b| > 1 ==> b[0] != 0)
  }

  lemma {:induction false} MinimalIsShortest(n: nat)
    requires n > 0
    ensures ShortestOf(Minimal(n), n)
  {
    if n >= 256 {
      MinimalIsShortest(n / 256);
      assert Minimal(n)[0] == Minimal(n / 256)[0];
    } else {
      assert Minimal(n / 256) == [];
    }
  }

  lemma NumberIsShortest(v: nat)
    ensures ShortestOf(NumberBytes(v), v)
  {
    if v > 0 {
      MinimalIsShortest(v);
    }
  }

  /** What a push prints: an opcode that tells the length, and the value of its operand. */
  ghost predicate PushPrinted(out: Code, o: int, arg: Token) {
    && 0 <= o < |out| && PUSH1 - 1 <= out[o] <= PUSH32
    && var k := out[o] - (PUSH1 - 1);
       && o + 1 + k <= |out|
       && var value := out[o + 1..o + 1 + k];
          match arg
          case Number(v) => ShortestOf(value, v)
          case Text(chars) => value == chars
          case Label(_) => k == 4
          case _ => false
  }

  /** What a jump prints: its raw number or the push of a label, and its opcode. */
  ghost predicate JumpPrinted(out: Code, o: int, end: int, op: byte, arg: Token) {
    && 0 <= o <= end < |out| && out[end] == op
    && match arg
       case Number(v) => ShortestOf(out[o..end], v)
       case Label(_) => end == o + 5
       case _ => end == o
  }

  ghost predicate Printed(tokens: seq<Token>, out: Code, i: nat)
    requires i < |tokens| && tokens[i].Element?
  {
    && i + 1 < |tokens|
    && match tokens[i].m
       case Plain(op) => At(out, Offset(tokens, i), [op])
       case Push => PushPrinted(out, Offset(tokens, i), tokens[i + 1])
       case Jump(op) => JumpPrinted(out, Offset(tokens, i), Offset(tokens, i + 2) - 1, op, tokens[i + 1])
  }

  /** In accepted lines every statement has the operand it takes. */
  lemma {:induction false} StatementsTaken(tokens: seq<Token>, p: nat, i: nat)
    requires Lines(tokens, p) && p <= i < |tokens| && tokens[i].Element?
    ensures i + 1 < |tokens|
            && (Taken(tokens, i + 1, tokens[i].m, i + 1) || Taken(tokens, i + 1, tokens[i].m, i + 2))
    decreases |tokens| - p
  {
    var q :| p < q <= |tokens| && Line(tokens, p, q) && Lines(tokens, q);
    if i >= q {
      StatementsTaken(tokens, q, i);
    } else if i != p + 1 {
      RestOfLine(tokens, p, q, i);
      assert false;
    }
  }

  lemma PushIsPrinted(tokens: seq<Token>, labels: map<string, nat>, out: Code, i: nat)
    requires Small(labels) && i + 1 < |tokens| && At(out, Offset(tokens, i), CodeOf(tokens, labels, i))
    requires tokens[i] == Element(Push) && Taken(tokens, i + 1, Push, i + 2)
    ensures PushPrinted(out, Offset(tokens, i), tokens[i + 1])
  {
    PushCode(tokens, labels, i);
    OperandIsPrinted(labels, out, Offset(tokens, i), tokens[i + 1]);
  }

  lemma OperandIsPrinted(labels: map<string, nat>, out: Code, o: int, arg: Token)
    requires Small(labels) && IsOperand(arg) && |PushOperand(labels, arg)| <= 32
    requires At(out, o, [PUSH1 - 1 + |PushOperand(labels, arg)|] + PushOperand(labels, arg))
    ensures PushPrinted(out, o, arg)
  {
    var value := PushOperand(labels, arg);
    OpcodeAndOperand(out, o, PUSH1 - 1 + |value|, value);
    if arg.Number? {
      NumberIsShortest(arg.value);
    }
  }

  lemma OpcodeAndOperand(out: Code, o: int, op: byte, value: Code)
    requires At(out, o, [op] + value)
    ensures out[o] == op && out[o + 1..o + 1 + |value|] == value
  {
    var code := out[o..o + 1 + |value|];
    assert code[0] == out[o] && code[1..] == out[o + 1..o + 1 + |value|];
  }

  lemma OperandAndOpcode(out: Code, o: int, operand: Code, op: byte)
    requires At(out, o, operand + [op])
    ensures out[o + |operand|] == op && out[o..o + |operand|] == operand
  {
    var part := out[o..o + |operand| + 1];
    assert part == operand + [op];
    assert part[|operand|] == out[o + |operand|];
    assert out[o..o + |operand|] == part[..|operand|];
  }

  lemma JumpIsPrinted(tokens: seq<Token>, labels: map<string, nat>, out: Code, i: nat, op: JumpOp)
    requires Small(labels) && i + 1 < |tokens| && At(out, Offset(tokens, i), CodeOf(tokens, labels, i))
    requires tokens[i] == Element(Jump(op)) && (tokens[i + 1] == LineEnd || IsOperand(tokens[i + 1]))
    ensures JumpPrinted(out, Offset(tokens, i), Offset(tokens, i + 2) - 1, op, tokens[i + 1])
  {
    JumpCode(tokens, labels, i, op);
    JumpEnd(tokens, labels, i, op);
    RawIsPrinted(labels, out, Offset(tokens, i), op, tokens[i + 1]);
  }

  lemma JumpCode(tokens: seq<Token>, labels: map<string, nat>, i: nat, op: JumpOp)
    requires Small(labels) && i + 1 < |tokens| && tokens[i] == Element(Jump(op))
    ensures CodeOf(tokens, labels, i) == JumpOperand(labels, tokens[i + 1]) + [op]
  {
  }

  lemma JumpEnd(tokens: seq<Token>, labels: map<string, nat>, i: nat, op: JumpOp)
    requires Small(labels) && i + 1 < |tokens|
    requires tokens[i] == Element(Jump(op)) && (tokens[i + 1] == LineEnd || IsOperand(tokens[i + 1]))
    ensures Offset(tokens, i + 2) - 1 == Offset(tokens, i) + |JumpOperand(labels, tokens[i + 1])|
  {
    OffsetNext(tokens, i);
    OffsetNext(tokens, i + 1);
  }

  lemma RawIsPrinted(labels: map<string, nat>, out: Code, o: int, op: byte, arg: Token)
    requires Small(labels) && (arg == LineEnd || IsOperand(arg)) && At(out, o, JumpOperand(labels, arg) + [op])
    ensures JumpPrinted(out, o, o + |JumpOperand(labels, arg)|, op, arg)
  {
    OperandAndOpcode(out, o, JumpOperand(labels, arg), op);
    if arg.Number? {
      NumberIsShortest(arg.value);
    }
  }

  lemma StatementPrinted(tokens: seq<Token>, labels: map<string, nat>, out: Code, i: nat)
    requires Small(labels) && Layout(tokens, labels, out, |tokens|) && Lines(tokens, 0)
    requires i < |tokens| && tokens[i].Element?
    ensures Printed(tokens, out, i)
  {
    StatementsTaken(tokens, 0, i);
    assert At(out, Offset(tokens, i), CodeOf(tokens, labels, i));
    match tokens[i].m
    case Plain(_) =>
    case Push => PushIsPrinted(tokens, labels, out, i);
    case Jump(op) => JumpIsPrinted(tokens, labels, out, i, op);
  }

  lemma AllPrinted(tokens: seq<Token>, labels: map<string, nat>, out: Code)
    requires Small(labels) && Layout(tokens, labels, out, |tokens|) && Lines(tokens, 0)
    ensures forall i :: 0 <= i < |tokens| && tokens[i].Element? ==> Printed(tokens, out, i)
  {
    forall i | 0 <= i < |tokens| && tokens[i].Element? ensures Printed(tokens, out, i) {
      StatementPrinted(tokens, labels, out, i);
    }
  }

  lemma AllReferences(tokens: seq<Token>, labels: map<string, nat>, out: Code)
    requires LabelsOf(tokens, |tokens|, labels) && Small(labels) && Layout(tokens, labels, out, |tokens|)
    ensures forall i, d :: 0 <= i && 0 <= d && Reference(tokens, i, d) ==> RefersTo(tokens, out, i, Addr(tokens, d))
    ensures forall i :: 0 <= i && Unresolved(tokens, i) ==> RefersTo(tokens, out, i, 0)
  {
    forall i, d | 0 <= i && 0 <= d && Reference(tokens, i, d) ensures RefersTo(tokens, out, i, Addr(tokens, d)) {
      LabelOperand(tokens, labels, out, i);
      LabelAddress(tokens, labels, tokens[i + 1].name, d);
    }
    forall i | 0 <= i && Unresolved(tokens, i) ensures RefersTo(tokens, out, i, 0) {
      LabelOperand(tokens, labels, out, i);
      UnknownLabel(tokens, labels, tokens[i + 1].name);
    }
  }

  lemma UnknownLabel(tokens: seq<Token>, labels: map<string, nat>, l: string)
    requires LabelsOf(tokens, |tokens|, labels) && forall d :: 0 <= d < |tokens| ==> tokens[d] != LabelDef(l)
    ensures Target(labels, l) == 0
  {
  }

  lemma AllLabels(tokens: seq<Token>, labels: map<string, nat>, out: Code)
    requires Small(labels) && Layout(tokens, labels, out, |tokens|)
    ensures forall i :: 0 <= i < |tokens| && tokens[i].LabelDef? ==>
              At(out, Offset(tokens, i), [JUMPDEST]) && (Offset(tokens, i) == Addr(tokens, i) <==> Lost(tokens, i) == 0)
  {
    forall i | 0 <= i < |tokens| && tokens[i].LabelDef? ensures At(out, Offset(tokens, i), [JUMPDEST]) {
      assert At(out, Offset(tokens, i), CodeOf(tokens, labels, i));
    }
  }

  /**
  The whole assembler.  There are no errors if and only if the tokens split into accepted lines.
  Then every statement prints its opcode and the value of its operand, in the fewest bytes that
  hold a number; each label's jump destination is printed at its offset, which is the label's address
  exactly when no string given to a jump comes before it; every reference carries the address of
  the label's last definition, or 0 if there is none; and every statement begins at an instruction if and only if no
  push opcode lacks its operand and no raw operand of a jump cuts one short.
   */
  method Assemble(ch: seq<Token>) returns (bin: Code, errors: nat, ghost labels: map<string, nat>)
    requires Ended(ch) && Addr(ch, |ch|) < U32
    ensures errors == 0 <==> Lines(ch, 0)
    ensures LabelsOf(ch, |ch|, labels) && Small(labels)
    ensures errors == 0 ==> Layout(ch, labels, bin, |ch|)
    ensures errors == 0 ==> forall i :: 0 <= i < |ch| && ch[i].Element? ==> Printed(ch, bin, i)
    ensures errors == 0 ==> forall i :: 0 <= i < |ch| && ch[i].LabelDef? ==>
              At(bin, Offset(ch, i), [JUMPDEST]) && (Offset(ch, i) == Addr(ch, i) <==> Lost(ch, i) == 0)
    ensures errors == 0 ==> forall i, d :: 0 <= i && 0 <= d && Reference(ch, i, d) ==>
              RefersTo(ch, bin, i, Addr(ch, d))
    ensures errors == 0 ==> forall i :: 0 <= i && Unresolved(ch, i) ==> RefersTo(ch, bin, i, 0)
    ensures errors == 0 ==> (Aligned(ch, bin, |ch|) <==> Whole(ch, |ch|))
  {
    var c := new Compiler();
    c.Feed(ch);
    LabelsSmall(ch, c.labels);
    labels := c.labels;
    bin, errors := c.Compile();
    if errors == 0 {
      AllPrinted(ch, labels, bin);
      AllReferences(ch, labels, bin);
      AllLabels(ch, labels, bin);
    }
  }

  /** A push opcode alone on its line, a label, and the end of the file. */
  function BareTokens(): (ch: seq<Token>)
    ensures Ended(ch) && |ch| == 8
  {
    [LineStart, Element(Plain(PUSH1)), LineEnd, LineStart, LabelDef("l"), LineEnd, LineStart, Eof]
  }

  lemma BareTokensSplit()
    ensures Lines(BareTokens(), 0)
    ensures Addr(BareTokens(), 4) == 1 && Offset(BareTokens(), 4) == 1 && Addr(BareTokens(), 8) == 2
  {
    var ch := BareTokens();
    assert Line(ch, 6, 8) && Lines(ch, 8);
    assert Line(ch, 3, 6) && Lines(ch, 6);
    assert Line(ch, 0, 3) && Lines(ch, 3);
    forall i | 0 <= i < 8 ensures Addr(ch, i + 1) == Addr(ch, i) + Width(ch, i) && Lost(ch, i + 1) == Lost(ch, i) {
    }
    assert Addr(ch, 1) == 0 && Addr(ch, 2) == 1 && Addr(ch, 3) == 1;
    assert Addr(ch, 5) == 2 && Addr(ch, 6) == 2 && Addr(ch, 7) == 2;
    assert Lost(ch, 1) == 0 && Lost(ch, 2) == 0 && Lost(ch, 3) == 0;
  }

  lemma BareCode(bin: Code, labels: map<string, nat>)
    requires Small(labels) && Layout(BareTokens(), labels, bin, 8)
    ensures At(bin, 1, [JUMPDEST]) && !StartsAt(bin, 1)
  {
    var ch := BareTokens();
    BareTokensSplit();
    assert CodeOf(ch, labels, 4) == [JUMPDEST];
    assert CodeOf(ch, labels, 1) == [PUSH1] && Offset(ch, 1) == 0;
    assert At(bin, Offset(ch, 1), CodeOf(ch, labels, 1)) && bin[0..1][0] == PUSH1;
    VisitsForward(bin, 2, 1);
  }

  /** The bare push is accepted, and the jump destination printed at the label's address is an operand
      of the push and no instruction. */
  method BarePush() returns (bin: Code, errors: nat)
    ensures errors == 0 && Addr(BareTokens(), 4) == 1 && BareTokens()[4].LabelDef?
    ensures At(bin, 1, [JUMPDEST]) && !StartsAt(bin, 1)
  {
    ghost var labels;
    BareTokensSplit();
    bin, errors, labels := Assemble(BareTokens());
    BareCode(bin, labels);
  }

  /** A label's address is off exactly when some non-empty string before it was given to a jump. */
  lemma {:induction false} AddressIsOffsetIff(tokens: seq<Token>, d: nat)
    requires d <= |tokens|
    ensures Offset(tokens, d) == Addr(tokens, d) <==>
            forall i :: 0 <= i < d && tokens[i].Text? && AfterJump(tokens, i) ==> tokens[i].chars == []
    ensures Offset(tokens, d) <= Addr(tokens, d)
  {
    if d > 0 {
      AddressIsOffsetIff(tokens, d - 1);
    }
  }
}
