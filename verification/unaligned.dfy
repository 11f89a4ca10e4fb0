/** The unaligned-access pseudo-instructions ULW, USW, ULH, ULHU and USH. */
module Unaligned {
  import opened Words
  import opened Isa
  import opened Immediates
  import opened ControlTransfer
  import opened PseudoOps

  function UlwCode(rd: reg, rs: reg, v: word): seq<Inst> {
    Code(LWL, rd, rs, Wrap(v + 3)) + Code(LWR, rd, rs, v)
  }

  function UswCode(rt: reg, rs: reg, v: word): seq<Inst> {
    Code(SWL, rt, rs, Wrap(v + 3)) + Code(SWR, rt, rs, v)
  }

  function UlhCode(signed: bool, rd: reg, rs: reg, v: word): seq<Inst> {
    Code(if signed then LB else LBU, rd, rs, Wrap(v + 1)) + Code(LBU, 1, rs, v)
    + [ShiftType(SLL, rd, rd, 8), RType(OR, rd, rd, 1)]
  }

  /** The source register is rotated to bring its second byte down, and then rotated back. */
  function RotateBy8(right: bool, rt: reg): seq<Inst> {
    [ShiftType(if right then SLL else SRL, 1, rt, 24), ShiftType(if right then SRL else SLL, rt, rt, 8),
     RType(OR, rt, rt, 1)]
  }

  function UshCode(rt: reg, rs: reg, v: word): seq<Inst> {
    Code(SB, rt, rs, v) + RotateBy8(true, rt) + Code(SB, rt, rs, Wrap(v + 1)) + RotateBy8(false, rt)
  }

  // ---- One access, whatever its offset ---------------------------------------------------------

  lemma DoMemory(s: State, i: Inst)
    requires IsLoadStore(i.op)
    ensures Perform(i, s) == Apply(s, ExecuteMemory(i, EffectiveAddress(i, s), Reg(s, i.rt), CoreOf(s)))
  {
    hide ExecuteMemory, Execute, Wrap, Apply, IsLoadStore;
    MemoryExecutes(i, Reg(s, i.rs), Reg(s, i.rt), CoreOf(s));
  }

  lemma MemoryExecutes(i: Inst, a: word, b: word, m: Core)
    requires IsLoadStore(i.op)
    ensures Execute(i, a, b, m) == ExecuteMemory(i, Wrap(a + i.imm), b, m)
  {
    hide ExecuteMemory, ExecuteMulDiv, ExecuteAlu, Wrap;
    MemoryIsAlu(i, a, b, m);
    MemoryIsLast(i, a, b, m);
  }

  lemma MemoryIsAlu(i: Inst, a: word, b: word, m: Core)
    requires IsLoadStore(i.op)
    ensures ExecuteAlu(i, a, b, m) == ExecuteMulDiv(i, a, b, m)
  {
    hide ExecuteMulDiv, RegisterOp, ImmediateOp, ShiftOp, Signed;
  }

  lemma MemoryIsLast(i: Inst, a: word, b: word, m: Core)
    requires IsLoadStore(i.op)
    ensures ExecuteMulDiv(i, a, b, m) == ExecuteMemory(i, Wrap(a + i.imm), b, m)
  {
    hide ExecuteMemory, Wrap;
  }

  /** A load or store with offset v runs as one access at R[rs] + v, from a state that differs from
      the start in $1 and PC only. */
  lemma Access(text: Text, s: State, op: Opcode, rt: reg, rs: reg, v: word, back: seq<Inst>)
    returns (n: nat, t: State, i: Inst)
    requires IsLoadStore(op) && rs != 1 && s.outcome == Running && !Misassembled(v)
    requires Placed(text, s.PC, Code(op, rt, rs, v) + back)
    ensures n == |Code(op, rt, rs, v)| && Placed(text, s.PC + 4 * n, back) && s.PC + 4 * n < TWO32
    ensures i.op == op && i.rt == rt && t.outcome == Running && t.PC + 4 == s.PC + 4 * n && OnlyRegs(s, t, {1})
    ensures Run(text, s, n) == Apply(t, ExecuteMemory(i, Wrap(Reg(s, rs) + v), Reg(t, rt), CoreOf(t)))
  {
    hide Run, Code, Perform, ExecuteMemory, Wrap, Apply, IsLoadStore, Misassembled;
    PlacedParts(text, s.PC, Code(op, rt, rs, v), back);
    var m := AddressCorrect(text, s, op, rt, rs, v);
    t := Run(text, s, m);
    i := Code(op, rt, rs, v)[m];
    StepTo(text, s, m, t, i);
    DoMemory(t, i);
    n := m + 1;
  }

  /** The aligned words that hold the bytes at a .. a + 3 are mapped. */
  predicate WordsMapped(mem: Bytes, a: word) {
    a + 3 < TWO32 && Mapped(mem, WordBase(a), 4) && Mapped(mem, WordBase(a + 3), 4)
  }

  function UnalignedWord(mem: Bytes, a: word): word
    requires a + 3 < TWO32 && Mapped(mem, a, 4)
  {
    Join(mem[a], mem[a + 1], mem[a + 2], mem[a + 3])
  }

  lemma CoversBytes(mem: Bytes, a: word)
    requires WordsMapped(mem, a)
    ensures Mapped(mem, a, 4)
  {
    forall k: word | a <= k < a + 4
      ensures k in mem
    {
      assert k < WordBase(a) + 4 || k >= WordBase(a + 3);
    }
  }

  // ---- Which addresses a pair of accesses touches ----------------------------------------------

  /** The machine is about to load rt, or to store it, by op. */
  predicate AccessAt(text: Text, s: State, op: Opcode, rt: reg) {
    s.PC in text && text[s.PC].op == op && text[s.PC].rt == rt
  }

  /** The instruction the machine is about to run addresses base + v. */
  predicate TouchesSum(text: Text, s: State, base: word, v: word) {
    s.PC in text && EffectiveAddress(text[s.PC], s) == Wrap(base + v)
  }

  // One access, with code after it.
  lemma OneOfPair(text: Text, s: State, op: Opcode, rt: reg, v: word, rs: reg, back: seq<Inst>) returns (n: nat, t: State)
    requires IsLoadStore(op) && rs != 1 && s.outcome == Running
    requires Placed(text, s.PC, Code(op, rt, rs, v) + back)
    ensures n + 1 == |Code(op, rt, rs, v)| && t == Run(text, s, n)
    ensures AccessAt(text, t, op, rt) && Run(text, s, n + 1) == Perform(text[t.PC], t) && SameRegsExcept(s, t, {1})
    ensures TouchesSum(text, t, Reg(s, rs), v) <==> !Misassembled(v)
    ensures Run(text, s, n + 1).outcome == Running ==>
              Run(text, s, n + 1).PC == s.PC + 4 * (n + 1) && Placed(text, s.PC + 4 * (n + 1), back)
  {
    hide Run, Code, Perform, Wrap, Misassembled, IsLoadStore, EffectiveAddress, Placed;
    var code := Code(op, rt, rs, v);
    PlacedParts(text, s.PC, code, back);
    n := AddressCorrect(text, s, op, rt, rs, v);
    t := Run(text, s, n);
    StepTo(text, s, n, t, code[n]);
    NoTransfer(op);
    GoesOn(code[n], t);
    PlacedIsSmall(text, s.PC, code);
    SmallWrap(t.PC + 4);
  }

  lemma SameTouched(text: Text, s: State, b: word, c: word, v: word)
    ensures TouchesSum(text, s, b, v) && TouchesSum(text, s, c, v) ==> b == c
  {
    hide EffectiveAddress, Wrap;
    SameSum(b, c, v);
  }

  /** Two accesses by the same base register, at v1 and v2, one after the other.  If the first one leaves
      the base register as it was, both touch the addresses they should exactly when neither offset is a
      misassembled one; and if neither is, exactly when the base register is as it was.  A load into its
      own base register, as in `ulw $2, 1($2)`, may change it. */
  lemma PairAddresses(text: Text, s: State, op1: Opcode, rt1: reg, v1: word, op2: Opcode, rt2: reg, v2: word, rs: reg)
    returns (n1: nat, t1: State, s1: State, n2: nat, t2: State)
    requires IsLoadStore(op1) && IsLoadStore(op2) && rs != 1 && s.outcome == Running
    requires Placed(text, s.PC, Code(op1, rt1, rs, v1) + Code(op2, rt2, rs, v2))
    ensures n1 + 1 == |Code(op1, rt1, rs, v1)| && n2 + 1 == |Code(op2, rt2, rs, v2)|
    ensures t1 == Run(text, s, n1) && s1 == Run(text, s, n1 + 1) && t2 == Run(text, s, n1 + 1 + n2)
    ensures AccessAt(text, t1, op1, rt1) && s1 == Perform(text[t1.PC], t1)
    ensures s1.outcome == Running ==> AccessAt(text, t2, op2, rt2)
    ensures s1.outcome == Running && Reg(s1, rs) == Reg(s, rs) ==>
              (TouchesSum(text, t1, Reg(s, rs), v1) && TouchesSum(text, t2, Reg(s, rs), v2)
               <==> !Misassembled(v1) && !Misassembled(v2))
    ensures s1.outcome == Running && !Misassembled(v1) && !Misassembled(v2) ==>
              (TouchesSum(text, t1, Reg(s, rs), v1) && TouchesSum(text, t2, Reg(s, rs), v2)
               <==> Reg(s1, rs) == Reg(s, rs))
  {
    hide Run, Code, Perform, Misassembled, IsLoadStore, Placed, AccessAt, TouchesSum;
    n1, t1 := OneOfPair(text, s, op1, rt1, v1, rs, Code(op2, rt2, rs, v2));
    s1 := Run(text, s, n1 + 1);
    n2 := LastIndex(Code(op2, rt2, rs, v2), op2, rt2, rs, v2);
    if s1.outcome == Running {
      assert Code(op2, rt2, rs, v2) + [] == Code(op2, rt2, rs, v2);
      n2, t2 := OneOfPair(text, s1, op2, rt2, v2, rs, []);
      RunAdd(text, s, n1 + 1, n2);
      SameTouched(text, t2, Reg(s1, rs), Reg(s, rs), v2);
    }
    t2 := Run(text, s, n1 + 1 + n2);
  }

  lemma LastIndex(code: seq<Inst>, op: Opcode, rt: reg, rs: reg, v: word) returns (n: nat)
    requires IsLoadStore(op) && code == Code(op, rt, rs, v)
    ensures n + 1 == |code|
  {
    hide Code, NeedsOneInstruction, AdjustedHigh, ToShort;
    AccessShape(op, rt, rs, v);
    n := |code| - 1;
  }

  lemma NoTransfer(op: Opcode)
    ensures IsLoadStore(op) ==> !Transfers(op)
  {
  }

  lemma PlacedIsSmall(text: Text, base: int, code: seq<Inst>)
    requires Placed(text, base, code)
    ensures base + 4 * |code| < TWO32
  {
  }

  lemma SameSum(a: word, b: word, v: word)
    ensures Wrap(a + v) == Wrap(b + v) <==> a == b
  {
  }

  // ---- ULW and USW ------------------------------------------------------------------------------

  // LWL at a + 3 and then LWR at a assemble the four bytes, at each alignment of a.
  lemma LeftThenRight(mem: Bytes, a: word, x: word)
    requires WordsMapped(mem, a)
    ensures Mapped(mem, a, 4)
    ensures MergeRight(mem, a, MergeLeft(mem, a + 3, x)) == UnalignedWord(mem, a)
  {
    hide Join, ByteOf;
    CoversBytes(mem, a);
    var y := MergeLeft(mem, a + 3, x);
    if a % 4 == 0 {
    } else if a % 4 == 1 {
      assert (a + 3) % 4 == 0;
      JoinBytes(ByteOf(x, 0), ByteOf(x, 1), ByteOf(x, 2), mem[a + 3]);
    } else if a % 4 == 2 {
      assert (a + 3) % 4 == 1;
      JoinBytes(ByteOf(x, 0), ByteOf(x, 1), mem[a + 2], mem[a + 3]);
    } else {
      assert (a + 3) % 4 == 2;
      JoinBytes(ByteOf(x, 0), mem[a + 1], mem[a + 2], mem[a + 3]);
    }
  }

  /** SWL at a + 3 and then SWR at a write exactly the four bytes of x. */
  lemma SpreadBoth(mem: Bytes, a: word, x: word)
    requires a + 3 < TWO32
    ensures SpreadRight(SpreadLeft(mem, a + 3, x), a, x) == PutWord(mem, a, x)
  {
    hide ByteOf;
    if a % 4 == 0 {
      assert (a + 3) % 4 == 3;
    } else if a % 4 == 1 {
      assert (a + 3) % 4 == 0;
    } else if a % 4 == 2 {
      assert (a + 3) % 4 == 1;
    } else {
      assert (a + 3) % 4 == 2;
    }
  }

  // Effects of the four merging accesses, where the words are mapped.
  lemma MergeEffects(i: Inst, a: word, b: word, m: Core)
    requires Mapped(m.mem, WordBase(a), 4)
    ensures i.op.LWL? ==> ExecuteMemory(i, a, b, m) == Effect(Loaded(i.rt, MergeLeft(m.mem, a, b)), Next(m), Running)
    ensures i.op.LWR? ==> ExecuteMemory(i, a, b, m) == Effect(Loaded(i.rt, MergeRight(m.mem, a, b)), Next(m), Running)
    ensures i.op.SWL? ==> ExecuteMemory(i, a, b, m) == Stored(m, SpreadLeft(m.mem, a, b))
    ensures i.op.SWR? ==> ExecuteMemory(i, a, b, m) == Stored(m, SpreadRight(m.mem, a, b))
  {
    hide MergeLeft, MergeRight, SpreadLeft, SpreadRight, Wrap;
  }

  lemma AddThree(base: word, v: word)
    requires Wrap(base + v) + 3 < TWO32
    ensures Wrap(base + Wrap(v + 3)) == Wrap(base + v) + 3
  {
  }

  lemma AddOne(base: word, v: word)
    requires Wrap(base + v) + 1 < TWO32
    ensures Wrap(base + Wrap(v + 1)) == Wrap(base + v) + 1
  {
  }

  /** `ulw rd, v(rs)` loads the four bytes at R[rs] + v, at every alignment, and changes only rd
      and $1. */
  lemma UlwCorrect(text: Text, s: State, rd: reg, rs: reg, v: word) returns (n: nat)
    requires rd != 0 && rd != 1 && rs != 1 && rs != rd && !Misassembled(v) && !Misassembled(Wrap(v + 3))
    requires s.outcome == Running && Placed(text, s.PC, UlwCode(rd, rs, v))
    requires WordsMapped(s.mem, Wrap(Reg(s, rs) + v))
    ensures n == |UlwCode(rd, rs, v)| && Mapped(s.mem, Wrap(Reg(s, rs) + v), 4)
    ensures Leaves(s, Run(text, s, n), s.PC + 4 * n, rd, UnalignedWord(s.mem, Wrap(Reg(s, rs) + v)), {1, rd})
  {
    hide Run, Code, Placed, Misassembled, Wrap, ExecuteMemory, MergeLeft, MergeRight, UnalignedWord, IsLoadStore;
    assert IsLoadStore(LWL) && IsLoadStore(LWR) by { LoadsAndStores(); }
    var a := Wrap(Reg(s, rs) + v);
    LeftThenRight(s.mem, a, Reg(s, rd));
    AddThree(Reg(s, rs), v);
    var back := Code(LWR, rd, rs, v);
    var n1, t1, i1 := Access(text, s, LWL, rd, rs, Wrap(v + 3), back);
    MergeEffects(i1, a + 3, Reg(t1, rd), CoreOf(t1));
    var s1 := Run(text, s, n1);
    SmallWrap(t1.PC + 4);
    assert back + [] == back;
    var n2, t2, i2 := Access(text, s1, LWR, rd, rs, v, []);
    MergeEffects(i2, a, Reg(t2, rd), CoreOf(t2));
    SmallWrap(t2.PC + 4);
    RunAdd(text, s, n1, n2);
    n := n1 + n2;
  }

  lemma LoadsAndStores()
    ensures IsLoadStore(LWL) && IsLoadStore(LWR) && IsLoadStore(SWL) && IsLoadStore(SWR)
    ensures IsLoadStore(LB) && IsLoadStore(LBU) && IsLoadStore(SB)
  {
  }

  /** `usw rt, v(rs)` writes the four bytes of R[rt] at R[rs] + v and no others, at every alignment,
      and changes no register but $1. */
  lemma UswCorrect(text: Text, s: State, rt: reg, rs: reg, v: word) returns (n: nat)
    requires rt != 1 && rs != 1 && !Misassembled(v) && !Misassembled(Wrap(v + 3))
    requires s.outcome == Running && Placed(text, s.PC, UswCode(rt, rs, v))
    requires WordsMapped(s.mem, Wrap(Reg(s, rs) + v))
    ensures n == |UswCode(rt, rs, v)|
    ensures var t := Run(text, s, n);
      && t.outcome == Running && t.PC == s.PC + 4 * n && SameRegsExcept(s, t, {1})
      && t.mem == PutWord(s.mem, Wrap(Reg(s, rs) + v), Reg(s, rt)) && t.HI == s.HI && t.LO == s.LO
  {
    hide Run, Code, Placed, Misassembled, Wrap, ExecuteMemory, SpreadLeft, SpreadRight, PutWord, IsLoadStore;
    LoadsAndStores();
    var a, x := Wrap(Reg(s, rs) + v), Reg(s, rt);
    SpreadBoth(s.mem, a, x);
    AddThree(Reg(s, rs), v);
    var back := Code(SWR, rt, rs, v);
    var n1, t1, i1 := Access(text, s, SWL, rt, rs, Wrap(v + 3), back);
    MergeEffects(i1, a + 3, Reg(t1, rt), CoreOf(t1));
    var s1 := Run(text, s, n1);
    SmallWrap(t1.PC + 4);
    assert back + [] == back;
    var n2, t2, i2 := Access(text, s1, SWR, rt, rs, v, []);
    SpreadKeepsDomain(s.mem, a, x);
    MergeEffects(i2, a, Reg(t2, rt), CoreOf(t2));
    SmallWrap(t2.PC + 4);
    RunAdd(text, s, n1, n2);
    n := n1 + n2;
  }

  lemma SpreadKeepsDomain(mem: Bytes, a: word, x: word)
    requires WordsMapped(mem, a)
    ensures Mapped(SpreadLeft(mem, a + 3, x), WordBase(a), 4)
  {
    hide ByteOf;
  }

  lemma PutThenRead(mem: Bytes, a: word, x: word)
    requires WordsMapped(mem, a)
    ensures WordsMapped(PutWord(mem, a, x), a) && Mapped(PutWord(mem, a, x), a, 4)
    ensures UnalignedWord(PutWord(mem, a, x), a) == x
  {
    hide ByteOf, Join;
    CoversBytes(mem, a);
    BytesJoin(x);
  }

  /** Storing a register with USW and loading the same place with ULW gives the register back. */
  lemma UswThenUlw(text: Text, s: State, rt: reg, rd: reg, rs: reg, v: word) returns (n: nat)
    requires rd != 0 && rd != 1 && rt != 1 && rs != 1 && rs != rd && !Misassembled(v) && !Misassembled(Wrap(v + 3))
    requires s.outcome == Running && Placed(text, s.PC, UswCode(rt, rs, v) + UlwCode(rd, rs, v))
    requires WordsMapped(s.mem, Wrap(Reg(s, rs) + v))
    ensures var t := Run(text, s, n);
      && t.outcome == Running && t.PC == s.PC + 4 * n && t.R[rd] == Reg(s, rt) && SameRegsExcept(s, t, {1, rd})
      && t.mem == PutWord(s.mem, Wrap(Reg(s, rs) + v), Reg(s, rt))
  {
    hide Run, UswCode, UlwCode, Placed, Misassembled, Wrap, PutWord, UnalignedWord, WordsMapped;
    var a := Wrap(Reg(s, rs) + v);
    PlacedParts(text, s.PC, UswCode(rt, rs, v), UlwCode(rd, rs, v));
    var n1 := UswCorrect(text, s, rt, rs, v);
    var s1 := Run(text, s, n1);
    PutThenRead(s.mem, a, Reg(s, rt));
    var n2 := UlwCorrect(text, s1, rd, rs, v);
    RunAdd(text, s, n1, n2);
    n := n1 + n2;
  }

  // ---- ULH, ULHU and USH ------------------------------------------------------------------------

  function UnalignedHalf(signed: bool, mem: Bytes, a: word): word
    requires a in mem && a + 1 in mem
  {
    if signed then SignExtendHalf(JoinHalf(mem[a], mem[a + 1])) else JoinHalf(mem[a], mem[a + 1])
  }

  lemma ByteEffects(i: Inst, a: word, b: word, m: Core)
    requires a in m.mem
    ensures i.op.LB? ==> ExecuteMemory(i, a, b, m) == Effect(Loaded(i.rt, SignExtendByte(m.mem[a])), Next(m), Running)
    ensures i.op.LBU? ==> ExecuteMemory(i, a, b, m) == Effect(Loaded(i.rt, m.mem[a]), Next(m), Running)
    ensures i.op.SB? ==> ExecuteMemory(i, a, b, m) == Stored(m, m.mem[a := ByteOf(b, 0)])
  {
    hide Wrap, ByteOf, SignExtendByte;
  }

  // Shifting the upper byte left by 8 and OR-ing in the lower one makes the half.
  lemma HalfOfBytes(signed: bool, low: byte, high: byte)
    ensures var upper := if signed then SignExtendByte(high) else high;
      Or(ShiftLeft(upper, 8), low) == if signed then SignExtendHalf(JoinHalf(low, high)) else JoinHalf(low, high)
  {
    hide Or;
    Pow2Values();
    var upper := if signed then SignExtendByte(high) else high;
    assert ShiftLeft(upper, 8) % 0x100 == 0;
    OrIsPlus(ShiftLeft(upper, 8), low, 8);
  }

  /** `ulh/ulhu rd, v(rs)` loads the two bytes at R[rs] + v, sign- or zero-extended, at every
      alignment, and changes only rd and $1. */
  lemma UlhCorrect(text: Text, s: State, signed: bool, rd: reg, rs: reg, v: word) returns (n: nat)
    requires rd != 0 && rd != 1 && rs != 1 && rs != rd && !Misassembled(v) && !Misassembled(Wrap(v + 1))
    requires s.outcome == Running && Placed(text, s.PC, UlhCode(signed, rd, rs, v))
    requires var a := Wrap(Reg(s, rs) + v); a + 1 < TWO32 && a in s.mem && a + 1 in s.mem
    ensures n == |UlhCode(signed, rd, rs, v)|
    ensures Leaves(s, Run(text, s, n), s.PC + 4 * n, rd, UnalignedHalf(signed, s.mem, Wrap(Reg(s, rs) + v)), {1, rd})
  {
    hide Run, Code, Placed, Misassembled, Wrap, ExecuteMemory, IsLoadStore, SignExtendByte, SignExtendHalf, JoinHalf, ByteOf;
    LoadsAndStores();
    var a := Wrap(Reg(s, rs) + v);
    AddOne(Reg(s, rs), v);
    var op := if signed then LB else LBU;
    var tail := [ShiftType(SLL, rd, rd, 8), RType(OR, rd, rd, 1)];
    var back := Code(LBU, 1, rs, v) + tail;
    assert UlhCode(signed, rd, rs, v) == Code(op, rd, rs, Wrap(v + 1)) + back;
    var n1, t1, i1 := Access(text, s, op, rd, rs, Wrap(v + 1), back);
    ByteEffects(i1, a + 1, Reg(t1, rd), CoreOf(t1));
    var s1 := Run(text, s, n1);
    SmallWrap(t1.PC + 4);
    var n2, t2, i2 := Access(text, s1, LBU, 1, rs, v, tail);
    ByteEffects(i2, a, Reg(t2, 1), CoreOf(t2));
    var s2 := Run(text, s1, n2);
    SmallWrap(t2.PC + 4);
    assert Reg(t2, rd) == Reg(s1, rd);
    GlueHalf(text, s2, rd, signed, s.mem[a], s.mem[a + 1]);
    RunAdd(text, s, n1, n2);
    RunAdd(text, s, n1 + n2, 2);
    n := n1 + n2 + 2;
  }

  lemma GlueHalf(text: Text, s: State, rd: reg, signed: bool, low: byte, high: byte)
    requires rd != 0 && rd != 1 && s.outcome == Running
    requires Placed(text, s.PC, [ShiftType(SLL, rd, rd, 8), RType(OR, rd, rd, 1)])
    requires s.R[rd] == (if signed then SignExtendByte(high) else high) && s.R[1] == low
    ensures Leaves(s, Run(text, s, 2), s.PC + 8, rd,
                   if signed then SignExtendHalf(JoinHalf(low, high)) else JoinHalf(low, high), {rd})
  {
    hide Run, Perform, Wrap, Or, ShiftLeft, SignExtendByte, SignExtendHalf, JoinHalf;
    var code := [ShiftType(SLL, rd, rd, 8), RType(OR, rd, rd, 1)];
    HalfOfBytes(signed, low, high);
    RunZero(text, s);
    Fetch(text, s.PC, code, 0);
    Fetch(text, s.PC, code, 1);
    StepTo(text, s, 0, s, code[0]);
    DoShift(s, code[0]);
    SmallWrap(s.PC + 4);
    SmallWrap(s.PC + 8);
    var s1 := After(s, rd, ShiftLeft(s.R[rd], 8));
    StepTo(text, s, 1, s1, code[1]);
    DoRegisterOp(s1, code[1]);
  }

  // Three instructions that turn x into itself rotated by 8 bits, in place.
  lemma Rotates(text: Text, s: State, right: bool, rt: reg, back: seq<Inst>)
    requires rt != 1 && s.outcome == Running && Placed(text, s.PC, RotateBy8(right, rt) + back)
    ensures Placed(text, s.PC + 12, back)
    ensures var t := Run(text, s, 3);
      && t.outcome == Running && t.PC == s.PC + 12 && OnlyRegs(s, t, {1, rt})
      && Reg(t, rt) == if rt == 0 then 0 else Rotated(right, Reg(s, rt))
  {
    hide Run, Perform, Wrap, Or, ShiftLeft, ShiftRight, RegisterOp;
    var code, x := RotateBy8(right, rt), Reg(s, rt);
    PlacedParts(text, s.PC, code, back);
    RunZero(text, s);
    Fetch(text, s.PC, code, 0);
    Fetch(text, s.PC, code, 1);
    Fetch(text, s.PC, code, 2);
    SmallWrap(s.PC + 4);
    SmallWrap(s.PC + 8);
    SmallWrap(s.PC + 12);
    var s1 := After(s, 1, ShiftOp(code[0].op, x, 24));
    var s2 := After(s1, rt, ShiftOp(code[1].op, x, 8));
    StepTo(text, s, 0, s, code[0]);
    DoShift(s, code[0]);
    StepTo(text, s, 1, s1, code[1]);
    DoShift(s1, code[1]);
    StepTo(text, s, 2, s2, code[2]);
    DoRegisterOp(s2, code[2]);
    OrIs(Reg(s2, rt), Reg(s2, 1));
  }

  lemma OrIs(x: word, y: word)
    ensures RegisterOp(OR, x, y) == Or(x, y)
  {
    hide Or;
  }

  /** x rotated by 8 bits to the right or to the left, as the three instructions compute it. */
  function Rotated(right: bool, x: word): word {
    if right then Or(ShiftRight(x, 8), ShiftLeft(x, 24)) else Or(ShiftLeft(x, 8), ShiftRight(x, 24))
  }

  lemma RotatedBytes(b0: byte, b1: byte, b2: byte, b3: byte)
    ensures Rotated(true, Join(b0, b1, b2, b3)) == Join(b1, b2, b3, b0)
    ensures Rotated(false, Join(b0, b1, b2, b3)) == Join(b3, b0, b1, b2)
  {
    hide Or, ShiftLeft, ShiftRight, Join;
    Pow2Values();
    var x := Join(b0, b1, b2, b3);
    ShiftedRight(b0, b1, b2, b3);
    ShiftedLeft(b0, b1, b2, b3);
    OrIsPlus(ShiftLeft(x, 24), ShiftRight(x, 8), 24);
    OrIsPlus(ShiftLeft(x, 8), ShiftRight(x, 24), 8);
    Joined(b1, b2, b3, b0);
    Joined(b3, b0, b1, b2);
  }

  lemma Joined(b0: byte, b1: byte, b2: byte, b3: byte)
    ensures Join(b0, b1, b2, b3) == b0 + 0x100 * b1 + 0x1_0000 * b2 + 0x100_0000 * b3
  {
  }

  lemma ShiftedRight(b0: byte, b1: byte, b2: byte, b3: byte)
    ensures var x := Join(b0, b1, b2, b3);
      ShiftRight(x, 8) == b1 + 0x100 * b2 + 0x1_0000 * b3 && ShiftRight(x, 24) == b3
  {
    var x := Join(b0, b1, b2, b3);
    Pow2Values();
    QuotientIs(x, 0x100, b1 + 0x100 * b2 + 0x1_0000 * b3, b0);
    QuotientIs(x, 0x100_0000, b3, b0 + 0x100 * b1 + 0x1_0000 * b2);
  }

  lemma ShiftedLeft(b0: byte, b1: byte, b2: byte, b3: byte)
    ensures var x := Join(b0, b1, b2, b3);
      ShiftLeft(x, 24) == 0x100_0000 * b0 && ShiftLeft(x, 8) == 0x100 * (b0 + 0x100 * b1 + 0x1_0000 * b2)
  {
    var x: int := Join(b0, b1, b2, b3);
    Pow2Values();
    QuotientIs(x * 0x100_0000, TWO32, b1 + 0x100 * b2 + 0x1_0000 * b3, 0x100_0000 * b0);
    QuotientIs(x * 0x100, TWO32, b3, 0x100 * (b0 + 0x100 * b1 + 0x1_0000 * b2));
  }

  /** The second rotation undoes the first, and between them the second byte is the low one. */
  lemma RotateAndBack(x: word)
    ensures Rotated(false, Rotated(true, x)) == x
    ensures ByteOf(Rotated(true, x), 0) == ByteOf(x, 1)
  {
    hide Rotated, Join, ByteOf;
    var b0, b1, b2, b3 := ByteOf(x, 0), ByteOf(x, 1), ByteOf(x, 2), ByteOf(x, 3);
    BytesJoin(x);
    RotatedBytes(b0, b1, b2, b3);
    RotatedBytes(b1, b2, b3, b0);
    JoinBytes(b1, b2, b3, b0);
  }

  /** `ush rt, v(rs)` writes the two low bytes of R[rt] at R[rs] + v and no others, and ends with
      every register but $1 as it was, R[rt] included. */
  lemma UshCorrect(text: Text, s: State, rt: reg, rs: reg, v: word) returns (n: nat)
    requires rt != 1 && rs != 1 && rs != rt && !Misassembled(v) && !Misassembled(Wrap(v + 1))
    requires s.outcome == Running && Placed(text, s.PC, UshCode(rt, rs, v))
    requires var a := Wrap(Reg(s, rs) + v); a + 1 < TWO32 && a in s.mem && a + 1 in s.mem
    ensures n == |UshCode(rt, rs, v)|
    ensures var t := Run(text, s, n);
      && t.outcome == Running && t.PC == s.PC + 4 * n && SameRegsExcept(s, t, {1})
      && t.mem == PutHalf(s.mem, Wrap(Reg(s, rs) + v), Reg(s, rt)) && t.HI == s.HI && t.LO == s.LO
  {
    hide Run, Code, Placed, Misassembled, Wrap, ExecuteMemory, IsLoadStore, ByteOf, Rotated, RotateBy8;
    LoadsAndStores();
    ZeroBytes();
    var tail := RotateBy8(false, rt);
    var second := Code(SB, rt, rs, Wrap(v + 1)) + tail;
    var first := RotateBy8(true, rt) + second;
    assert UshCode(rt, rs, v) == Code(SB, rt, rs, v) + first;
    RotateLength(rt);
    AddOne(Reg(s, rs), v);
    RotateAndBack(Reg(s, rt));
    var n1, s1 := StoresByte(text, s, rt, rs, v, first);
    Rotates(text, s1, true, rt, second);
    var s2 := Run(text, s1, 3);
    var n2, s3 := StoresByte(text, s2, rt, rs, Wrap(v + 1), tail);
    assert tail + [] == tail;
    Rotates(text, s3, false, rt, []);
    RunAdd(text, s, n1, 3);
    RunAdd(text, s, n1 + 3, n2);
    RunAdd(text, s, n1 + 3 + n2, 3);
    n := n1 + n2 + 6;
  }

  /** The words that are their own rotation by 8 bits. */
  predicate OneByteRepeated(x: word) {
    ByteOf(x, 0) == ByteOf(x, 1) == ByteOf(x, 2) == ByteOf(x, 3)
  }

  lemma FixedByRotation(x: word)
    ensures Rotated(true, x) == x <==> OneByteRepeated(x)
  {
    hide Rotated, Join, ByteOf;
    var b0, b1, b2, b3 := ByteOf(x, 0), ByteOf(x, 1), ByteOf(x, 2), ByteOf(x, 3);
    BytesJoin(x);
    RotatedBytes(b0, b1, b2, b3);
    JoinBytes(b1, b2, b3, b0);
  }

  lemma StoreByteKeeps(i: Inst, s: State)
    requires i.op.SB?
    ensures SameRegsExcept(s, Perform(i, s), {})
  {
    hide ExecuteMemory, EffectiveAddress, Wrap;
    DoMemory(s, i);
    StoreByteEffect(i, EffectiveAddress(i, s), Reg(s, i.rt), CoreOf(s));
    hide Perform;
  }

  lemma StoreByteEffect(i: Inst, a: word, b: word, m: Core)
    requires i.op.SB?
    ensures ExecuteMemory(i, a, b, m).dest == NoDest
  {
    hide ByteOf;
  }

  /** The two stores of `ush rt, v(rs)`, for any offset and also when rt is its own base register, which
      is then rotated between them: they touch the right addresses exactly when neither offset is a
      misassembled one, if the base survives the rotation, and exactly when it does, if neither is. */
  lemma UshAddresses(text: Text, s: State, rt: reg, rs: reg, v: word)
    returns (n1: nat, t1: State, s1: State, n2: nat, t2: State)
    requires rt != 1 && rs != 1 && s.outcome == Running && Placed(text, s.PC, UshCode(rt, rs, v))
    ensures n1 + 1 == |Code(SB, rt, rs, v)| && n2 + 1 == |Code(SB, rt, rs, Wrap(v + 1))|
    ensures t1 == Run(text, s, n1) && s1 == Run(text, s, n1 + 1)
    ensures AccessAt(text, t1, SB, rt) && s1 == Perform(text[t1.PC], t1)
    ensures t2 == Run(text, s, n1 + 4 + n2) && (s1.outcome == Running ==> AccessAt(text, t2, SB, rt))
    ensures s1.outcome == Running && (rt == rs ==> OneByteRepeated(Reg(s, rs))) ==>
              (TouchesSum(text, t1, Reg(s, rs), v) && TouchesSum(text, t2, Reg(s, rs), Wrap(v + 1))
               <==> !Misassembled(v) && !Misassembled(Wrap(v + 1)))
    ensures s1.outcome == Running && !Misassembled(v) && !Misassembled(Wrap(v + 1)) ==>
              (TouchesSum(text, t1, Reg(s, rs), v) && TouchesSum(text, t2, Reg(s, rs), Wrap(v + 1))
               <==> (rt == rs ==> OneByteRepeated(Reg(s, rs))))
  {
    hide Run, Code, Perform, Misassembled, IsLoadStore, Placed, TouchesSum, Wrap, Rotated, RotateBy8, OneByteRepeated;
    LoadsAndStores();
    var tail := RotateBy8(false, rt);
    var second := Code(SB, rt, rs, Wrap(v + 1)) + tail;
    var first := RotateBy8(true, rt) + second;
    assert UshCode(rt, rs, v) == Code(SB, rt, rs, v) + first;
    n1, t1 := OneOfPair(text, s, SB, rt, v, rs, first);
    s1 := Run(text, s, n1 + 1);
    StoreByteKeeps(text[t1.PC], t1);
    n2 := LastIndex(Code(SB, rt, rs, Wrap(v + 1)), SB, rt, rs, Wrap(v + 1));
    if s1.outcome == Running {
      Rotates(text, s1, true, rt, second);
      var s2 := Run(text, s1, 3);
      n2, t2 := OneOfPair(text, s2, SB, rt, Wrap(v + 1), rs, tail);
      RunAdd(text, s, n1 + 1, 3);
      RunAdd(text, s, n1 + 4, n2);
      SameTouched(text, t2, Reg(s2, rs), Reg(s, rs), Wrap(v + 1));
      FixedByRotation(Reg(s, rs));
      ZeroRepeated();
    }
    t2 := Run(text, s, n1 + 4 + n2);
  }

  lemma ZeroRepeated()
    ensures OneByteRepeated(0)
  {
  }

  lemma ZeroBytes()
    ensures ByteOf(0, 0) == 0 && ByteOf(0, 1) == 0
  {
  }

  lemma RotateLength(rt: reg)
    ensures |RotateBy8(true, rt)| == |RotateBy8(false, rt)| == 3
  {
  }

  lemma StoresByte(text: Text, s: State, rt: reg, rs: reg, v: word, back: seq<Inst>) returns (n: nat, t: State)
    requires rt != 1 && rs != 1 && !Misassembled(v) && Wrap(Reg(s, rs) + v) in s.mem
    requires s.outcome == Running && Placed(text, s.PC, Code(SB, rt, rs, v) + back)
    ensures n == |Code(SB, rt, rs, v)| && Placed(text, s.PC + 4 * n, back) && t == Run(text, s, n)
    ensures t.outcome == Running && t.PC == s.PC + 4 * n && SameRegsExcept(s, t, {1})
    ensures t.mem == s.mem[Wrap(Reg(s, rs) + v) := ByteOf(Reg(s, rt), 0)] && t.HI == s.HI && t.LO == s.LO
  {
    hide Run, Code, Placed, Misassembled, Wrap, ExecuteMemory, IsLoadStore, ByteOf;
    LoadsAndStores();
    var m, t1, i := Access(text, s, SB, rt, rs, v, back);
    ByteEffects(i, Wrap(Reg(s, rs) + v), Reg(t1, rt), CoreOf(t1));
    SmallWrap(t1.PC + 4);
    n, t := m, Run(text, s, m);
  }
}
