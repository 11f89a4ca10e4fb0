/** Delayed loads.  In this mode a loaded value reaches its register one instruction late, through
    two pending slots; a program that respects the delay cannot tell. */
module DelayedLoads {
  import opened Words
  import opened Isa

  datatype Slot = Empty | Pending(r: reg, v: word)

  /** The machine with its two slots: `first` is filled by the current instruction, `second` is
      written to its register before the next one executes. */
  datatype Machine = Machine(s: State, first: Slot, second: Slot)

  function Fill(R: Regs, slot: Slot): Regs {
    match slot
    case Empty => R
    case Pending(r, v) => R[r := v]
  }

  /** The registers and the first slot after an instruction: a loaded value may be held back. */
  predicate Held(delayed: bool, e: Effect) {
    delayed && e.dest.Loaded?
  }

  function RegsAfter(delayed: bool, R: Regs, e: Effect): Regs {
    if Held(delayed, e) then R else Update(R, e.dest)
  }

  function SlotAfter(delayed: bool, slot: Slot, e: Effect): Slot {
    if Held(delayed, e) then Pending(e.dest.r, e.dest.v) else slot
  }

  /** One step in either mode. */
  function StepLoads(delayed: bool, text: Text, m: Machine): Machine {
    var s := m.s;
    if s.outcome != Running then m
    else if s.PC !in text then m.(s := s.(R := ZeroR0(s.R), outcome := NoInstruction))
    else
      var R := if delayed then Fill(ZeroR0(s.R), m.second) else ZeroR0(s.R);
      var i := text[s.PC];
      var e := Execute(i, R[i.rs], R[i.rt], CoreOf(s));
      Machine(State(RegsAfter(delayed, R, e), e.core.HI, e.core.LO, e.core.PC, e.core.mem, e.outcome),
              SlotAfter(delayed, if delayed then Empty else m.first, e),
              if delayed then m.first else m.second)
  }

  function RunLoads(delayed: bool, text: Text, m: Machine, n: nat): Machine
    decreases n
  {
    if n == 0 then m else RunLoads(delayed, text, StepLoads(delayed, text, m), n - 1)
  }

  /** Without the delay this is the ordinary machine. */
  lemma ImmediateIsStep(text: Text, m: Machine)
    ensures StepLoads(false, text, m) == m.(s := Step(text, m.s))
  {
    hide Execute;
  }

  // ---- What instructions read and write ----------------------------------------------------------

  predicate IsLoad(op: Opcode) {
    op.LB? || op.LBU? || op.LH? || op.LHU? || op.LL? || op.LW? || op.LWL? || op.LWR?
  }

  predicate ReadsRs(op: Opcode) {
    !(op.J? || op.JAL? || op.BREAK? || op.LUI? || op.SLL? || op.SRA? || op.SRL? || op.MFHI? || op.MFLO?)
  }

  predicate ReadsRt(op: Opcode) {
    || op.BEQ? || op.BEQL? || op.BNE? || op.BNEL?
    || IsRegisterOp(op) || IsShift(op) || op.ADD? || op.SUB? || op.MOVN? || op.MOVZ?
    || op.DIV? || op.DIVU? || op.MADD? || op.MADDU? || op.MSUB? || op.MSUBU? || op.MUL? || op.MULT? || op.MULTU?
    || op.LWL? || op.LWR? || op.SB? || op.SC? || op.SH? || op.SW? || op.SWL? || op.SWR?
  }

  function Reads(i: Inst): set<reg> {
    (if ReadsRs(i.op) then {i.rs} else {}) + (if ReadsRt(i.op) then {i.rt} else {})
  }

  predicate WritesRd(op: Opcode) {
    || IsRegisterOp(op) || IsShift(op) || op.ADD? || op.SUB? || op.MOVN? || op.MOVZ?
    || op.JALR? || op.MFHI? || op.MFLO? || op.MUL?
  }

  predicate WritesRt(op: Opcode) {
    IsImmediateOp(op) || op.ADDI? || IsLoad(op)
  }

  function Writes(i: Inst): set<reg> {
    (if WritesRd(i.op) then {i.rd} else {}) + (if WritesRt(i.op) then {i.rt} else {})
    + (if i.op.JAL? || Links(i.op) then {31} else {})
  }

  lemma IgnoresRs(i: Inst, a: word, a': word, b: word, m: Core)
    requires !ReadsRs(i.op)
    ensures Execute(i, a, b, m) == Execute(i, a', b, m)
  {
    hide Wrap, JumpTarget, ShiftOp, ExecuteMemory;
  }

  lemma IgnoresRt(i: Inst, a: word, b: word, b': word, m: Core)
    requires !ReadsRt(i.op)
    ensures Execute(i, a, b, m) == Execute(i, a, b', m)
  {
    hide Wrap, JumpTarget, ShiftOp, LoadByte, LoadHalf, LoadWord, RegisterOp, ImmediateOp, Displacement;
  }

  lemma WritesOnly(i: Inst, a: word, b: word, m: Core)
    ensures var d := Execute(i, a, b, m).dest; d == NoDest || d.r in Writes(i)
    ensures Execute(i, a, b, m).dest.Loaded? <==> IsLoad(i.op)
    ensures IsLoad(i.op) ==> Execute(i, a, b, m).dest.r == i.rt
  {
    hide ExecuteAlu, Wrap, JumpTarget, Displacement, Taken;
    if !IsBranch(i.op) && !IsJump(i.op) && !i.op.BREAK? {
      AluWrites(i, a, b, m);
    }
  }

  /** An effect writes a register that its instruction may write, and loads it exactly if that is a load. */
  predicate WritesAs(i: Inst, e: Effect) {
    && (e.dest == NoDest || e.dest.r in Writes(i))
    && (e.dest.Loaded? <==> IsLoad(i.op))
    && (IsLoad(i.op) ==> e.dest.r == i.rt)
  }

  lemma AluWrites(i: Inst, a: word, b: word, m: Core)
    requires !IsBranch(i.op) && !IsJump(i.op) && !i.op.BREAK?
    ensures WritesAs(i, ExecuteAlu(i, a, b, m))
  {
    hide ExecuteMulDiv, ShiftOp, RegisterOp, ImmediateOp, Signed, Wrap;
    if IsMulDiv(i.op) || IsMemory(i.op) {
      hide IsMulDiv, IsMemory;
      MulDivWrites(i, a, b, m);
    }
  }

  predicate IsMulDiv(op: Opcode) {
    || op.DIV? || op.DIVU? || op.MADD? || op.MADDU? || op.MFHI? || op.MFLO? || op.MSUB? || op.MSUBU? || op.MTHI? || op.MTLO?
    || op.MUL? || op.MULT? || op.MULTU?
  }

  predicate IsMemory(op: Opcode) {
    IsLoad(op) || op.SB? || op.SC? || op.SH? || op.SW? || op.SWL? || op.SWR?
  }

  lemma MulDivWrites(i: Inst, a: word, b: word, m: Core)
    requires IsMulDiv(i.op) || IsMemory(i.op)
    ensures WritesAs(i, ExecuteMulDiv(i, a, b, m))
  {
    hide ExecuteMemory, Upper, Lower, Accumulator, Signed, Wrap;
    if IsMemory(i.op) {
      hide WritesAs;
      MemoryWrites(i, Wrap(a + i.imm), b, m);
    }
  }

  lemma MemoryWrites(i: Inst, a: word, b: word, m: Core)
    requires IsMemory(i.op)
    ensures WritesAs(i, ExecuteMemory(i, a, b, m))
  {
    hide Mapped, WordAt, HalfAt, MergeLeft, MergeRight, SpreadLeft, SpreadRight, PutWord, PutHalf, Wrap;
  }

  // ---- The simulation ------------------------------------------------------------------------------

  /** The state once both pending values have arrived, in order. */
  function Settled(m: Machine): State {
    m.s.(R := Fill(Fill(m.s.R, m.second), m.first))
  }

  predicate NotR0(slot: Slot) {
    slot.Pending? ==> slot.r != 0
  }

  /** Instruction i respects the delay of a load that filled this slot just before it. */
  predicate Respects(i: Inst, slot: Slot) {
    slot.Pending? ==> slot.r !in Reads(i) && slot.r !in Writes(i)
  }

  // The instruction sees the same operands in both machines.
  lemma SameEffect(i: Inst, R: Regs, first: Slot, m: Core)
    requires Respects(i, first)
    ensures var R' := Fill(R, first);
      Execute(i, R[i.rs], R[i.rt], m) == Execute(i, R'[i.rs], R'[i.rt], m)
  {
    hide Execute, ReadsRs, ReadsRt;
    var R' := Fill(R, first);
    if !ReadsRs(i.op) {
      IgnoresRs(i, R[i.rs], R'[i.rs], R[i.rt], m);
    }
    if !ReadsRt(i.op) {
      IgnoresRt(i, R'[i.rs], R[i.rt], R'[i.rt], m);
    }
  }

  lemma ClearedFirst(R: Regs, first: Slot, second: Slot)
    requires NotR0(first) && NotR0(second)
    ensures ZeroR0(Fill(Fill(R, second), first)) == Fill(Fill(ZeroR0(R), second), first)
  {
  }

  /** One step: if the instruction respects the pending load and is no load to register 0, settling
      and stepping commute. */
  lemma StepSettles(text: Text, m: Machine)
    requires m.s.outcome == Running && m.s.PC in text && NotR0(m.first) && NotR0(m.second)
    requires var i := text[m.s.PC]; Respects(i, m.first) && (IsLoad(i.op) ==> i.rt != 0)
    ensures var m', i := StepLoads(true, text, m), text[m.s.PC];
      && Settled(m') == Step(text, Settled(m))
      && NotR0(m'.first) && m'.second == m.first
      && (m'.first.Pending? <==> IsLoad(i.op)) && (m'.first.Pending? ==> m'.first.r == i.rt)
  {
    hide Execute, IsLoad, Reads, Writes;
    var s, i := m.s, text[m.s.PC];
    var R := Fill(ZeroR0(s.R), m.second);
    ClearedFirst(s.R, m.first, m.second);
    SameEffect(i, R, m.first, CoreOf(s));
    WritesOnly(i, R[i.rs], R[i.rt], CoreOf(s));
    var e := Execute(i, R[i.rs], R[i.rt], CoreOf(s));
    FillAndUpdate(R, m.first, e.dest);
    var settled := Settled(m);
    assert CoreOf(settled) == CoreOf(s);
    ReadThroughReg(settled, i.rs);
    ReadThroughReg(settled, i.rt);
  }

  lemma ReadThroughReg(s: State, r: reg)
    ensures Reg(s, r) == ZeroR0(s.R)[r]
  {
  }

  lemma FillAndUpdate(R: Regs, first: Slot, d: Dest)
    requires d == NoDest || !first.Pending? || d.r != first.r || d.Loaded?
    ensures !d.Loaded? ==> Fill(Update(R, d), first) == Update(Fill(R, first), d)
    ensures d.Loaded? ==> Fill(Fill(R, first), Pending(d.r, d.v)) == Update(Fill(R, first), d)
  {
  }

  /** The next n instructions of the immediate machine: each respects the load just before it (whose
      destinations are in `loaded`), and none loads into register 0. */
  ghost predicate RespectsDelays(text: Text, s: State, n: nat, loaded: set<reg>)
    decreases n
  {
    n > 0 && s.outcome == Running && s.PC in text ==>
      var i := text[s.PC];
      && Reads(i) !! loaded && Writes(i) !! loaded
      && (IsLoad(i.op) ==> i.rt != 0)
      && RespectsDelays(text, Step(text, s), n - 1, if IsLoad(i.op) then {i.rt} else {})
  }

  function SlotSet(slot: Slot): set<reg> {
    if slot.Pending? then {slot.r} else {}
  }

  lemma {:induction false} RunSettlesFrom(text: Text, m: Machine, n: nat)
    requires NotR0(m.first) && NotR0(m.second)
    requires RespectsDelays(text, Settled(m), n, SlotSet(m.first))
    ensures Settled(RunLoads(true, text, m, n)) == Run(text, Settled(m), n)
    decreases n
  {
    hide Step, StepLoads, Fill;
    if n > 0 {
      if m.s.outcome == Running && m.s.PC in text {
        hide Reads, Writes, IsLoad, Settled;
        SettledCore(m);
        StepSettles(text, m);
      } else {
        StoppedSettles(text, m);
        StoppedStays(text, Settled(m), n - 1);
      }
      RunSettlesFrom(text, StepLoads(true, text, m), n - 1);
    }
  }

  lemma SettledCore(m: Machine)
    ensures Settled(m).outcome == m.s.outcome && Settled(m).PC == m.s.PC
  {
  }

  lemma StoppedSettles(text: Text, m: Machine)
    requires m.s.outcome != Running || m.s.PC !in text
    requires NotR0(m.first) && NotR0(m.second)
    ensures var m' := StepLoads(true, text, m);
      && Settled(m') == Step(text, Settled(m)) && m'.first == m.first && m'.second == m.second
      && m'.s.outcome != Running
  {
    hide Execute;
    ClearedFirst(m.s.R, m.first, m.second);
  }

  lemma StoppedStays(text: Text, s: State, n: nat)
    requires s.outcome != Running || s.PC !in text
    ensures RespectsDelays(text, Step(text, s), n, {})
    ensures forall loaded: set<reg> :: RespectsDelays(text, Step(text, s), n, loaded)
  {
    hide Execute;
  }

  /** A program that respects the delays, on its own run, has after every number of steps the same
      registers (once pending values arrive), memory, HI, LO, PC and outcome in both modes. */
  lemma DelayIsInvisible(text: Text, s: State, n: nat)
    requires RespectsDelays(text, s, n, {})
    ensures Settled(RunLoads(true, text, Machine(s, Empty, Empty), n)) == Run(text, s, n)
  {
    var m := Machine(s, Empty, Empty);
    assert Settled(m) == s;
    RunSettlesFrom(text, m, n);
  }

  /** The delay is visible to a program that ignores it: when the instruction after a word load
      copies the loaded register, the immediate machine copies the word and the delayed one whatever
      the register held before. */
  lemma DelayIsVisible(text: Text, s: State, rt: reg, rs: reg, imm: short, rd: reg, a: word)
    requires s.outcome == Running && rt != 0 && rd != 0 && rd != rt && s.PC + 8 < TWO32
    requires s.PC in text && text[s.PC] == IType(LW, rt, rs, imm)
    requires s.PC + 4 in text && text[s.PC + 4] == RType(ADDU, rd, rt, 0)
    requires a == Wrap(Reg(s, rs) + imm) && a % 4 == 0 && Mapped(s.mem, a, 4)
    ensures Run(text, s, 2).R[rd] == WordAt(s.mem, a)
    ensures Settled(RunLoads(true, text, Machine(s, Empty, Empty), 2)).R[rd] == s.R[rt]
  {
    hide Run, RunLoads, Step, StepLoads, WordAt, Mapped, Wrap;
    var w, i, j := WordAt(s.mem, a), text[s.PC], text[s.PC + 4];
    var s1 := State(ZeroR0(s.R)[rt := w], s.HI, s.LO, s.PC + 4, s.mem, Running);
    var m1 := Machine(State(ZeroR0(s.R), s.HI, s.LO, s.PC + 4, s.mem, Running), Pending(rt, w), Empty);
    LoadSteps(text, s, i, a);
    CopySteps(text, s1, j);
    CopyStepsHeld(text, m1, j);
    TwoSteps(text, s, Machine(s, Empty, Empty));
  }

  lemma TwoSteps(text: Text, s: State, m: Machine)
    ensures Run(text, s, 2) == Step(text, Step(text, s))
    ensures RunLoads(true, text, m, 2) == StepLoads(true, text, StepLoads(true, text, m))
  {
    hide Step, StepLoads;
  }

  // The load, in both modes.
  lemma LoadSteps(text: Text, s: State, i: Inst, a: word)
    requires s.outcome == Running && s.PC in text && text[s.PC] == i && s.PC + 4 < TWO32
    requires i.op.LW? && a == Wrap(Reg(s, i.rs) + i.imm) && a % 4 == 0 && Mapped(s.mem, a, 4)
    ensures Step(text, s) == State(ZeroR0(s.R)[i.rt := WordAt(s.mem, a)], s.HI, s.LO, s.PC + 4, s.mem, Running)
    ensures StepLoads(true, text, Machine(s, Empty, Empty))
            == Machine(State(ZeroR0(s.R), s.HI, s.LO, s.PC + 4, s.mem, Running), Pending(i.rt, WordAt(s.mem, a)), Empty)
  {
    hide Execute, WordAt, Mapped, Wrap;
    LoadWordEffect(i, Reg(s, i.rs), Reg(s, i.rt), CoreOf(s));
    SmallWrap(s.PC + 4);
  }

  // The copy of register rs, in the immediate mode and with a value still held back.
  lemma CopySteps(text: Text, s: State, i: Inst)
    requires s.outcome == Running && s.PC in text && text[s.PC] == i && i.op.ADDU? && i.rt == 0
    ensures Step(text, s).R[i.rd] == Reg(s, i.rs)
  {
    hide Execute, Wrap;
    CopyEffect(i, Reg(s, i.rs), CoreOf(s));
  }

  lemma CopyStepsHeld(text: Text, m: Machine, i: Inst)
    requires m.s.outcome == Running && m.s.PC in text && text[m.s.PC] == i && i.op.ADDU? && i.rt == 0
    requires m.second == Empty && m.first.Pending? && m.first.r != i.rd && i.rd != 0 && i.rs != 0
    ensures Settled(StepLoads(true, text, m)).R[i.rd] == m.s.R[i.rs]
  {
    hide Execute, Wrap;
    CopyEffect(i, m.s.R[i.rs], CoreOf(m.s));
  }

  lemma LoadWordEffect(i: Inst, a: word, b: word, m: Core)
    requires i.op.LW? && Wrap(a + i.imm) % 4 == 0 && Mapped(m.mem, Wrap(a + i.imm), 4)
    ensures Execute(i, a, b, m) == Effect(Loaded(i.rt, WordAt(m.mem, Wrap(a + i.imm))), Next(m), Running)
  {
    hide WordAt, Mapped;
  }

  lemma CopyEffect(i: Inst, a: word, m: Core)
    requires i.op.ADDU?
    ensures Execute(i, a, 0, m) == Put(m, i.rd, a)
  {
    SmallWrap(a);
    hide Wrap;
    assert RegisterOp(ADDU, a, 0) == Wrap(a + 0);
  }
}
