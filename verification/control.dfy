/** Where branches and jumps go: the field the assembler stores and the target the interpreter
    computes from it, with and without delayed branches. */
module ControlTransfer {
  import opened Words
  import opened Isa
  import opened Immediates

  /** How far goal is from pc. */
  function Distance(pc: word, goal: word): int {
    Signed(Wrap(goal - pc))
  }

  predicate InReach(pc: word, goal: word) {
    -32768 <= Distance(pc, goal) <= 32764
  }

  /** The field stored for a branch at pc when its label is resolved.  `lower` says whether the
      label's expression was cut to its low 16 bits.  With delay slots the field counts one word
      less. */
  function LabelField(delayed: bool, lower: bool, pc: word, goal: word): short {
    var v := Wrap(goal - pc);
    var field := BranchField(if lower then v % TWO16 else v);
    if delayed then ToShort(field - 1) else field
  }

  /** A label still undefined when the branch is assembled is always cut to its low bits.  A
      defined one is cut when its distance from the PC at parsing time does not fit 16 bits; the
      branch itself may sit a few instructions later. */
  predicate CutToLower(defined: bool, parsePc: word, goal: word) {
    defined ==> Wrap(goal - parsePc) >= TWO16
  }

  /** Where a taken branch at pc transfers control.  With delay slots the interpreter counts from
      the slot. */
  function BranchTarget(delayed: bool, pc: word, field: short): word {
    Wrap(pc + Displacement(field) + (if delayed then 4 else 0))
  }

  // ---- Fields and displacements --------------------------------------------------------------

  lemma FieldOfDistance(v: word)
    requires v % 4 == 0
    requires v % TWO16 >= 0x8000 || v < 0x8000
    ensures BranchField(v) == ToShort(v) / 4
  {
  }

  lemma DisplacementOfField(d: short)
    requires d % 4 == 0
    ensures Displacement(d / 4) == d
  {
  }

  lemma DisplacementOfDelayedField(d: short)
    requires d % 4 == 0
    ensures Displacement(d / 4 - 1) == d - 4
  {
    var x := (d / 4 - 1) * 4;
    assert x == d - 4;
    if d == -0x8000 {
      assert x % TWO16 == 0x7ffc;
    }
  }

  lemma ReachIsSignExtension(pc: word, goal: word)
    requires pc % 4 == 0 && goal % 4 == 0
    ensures InReach(pc, goal) <==> Wrap(pc + ToShort(Wrap(goal - pc))) == goal
  {
    hide Wrap, ToShort, Signed;
    var v := Wrap(goal - pc);
    AlignedDistance(pc, goal);
    ShortOfWord(v);
    AddDistance(pc, goal, ToShort(v));
  }

  lemma ShortOfWord(v: word)
    requires v % 4 == 0
    ensures -32768 <= Signed(v) <= 32764 <==> Wrap(ToShort(v)) == v
  {
    hide Wrap;
    var high, low := v / TWO16, v % TWO16;
    if low < 0x8000 {
      SmallWrap(low);
    } else {
      WrapNear(low - TWO16);
    }
    assert v == TWO16 * high + low;
    LowFour(v);
  }

  lemma LowFour(v: word)
    requires v % 4 == 0
    ensures v % TWO16 % 4 == 0
  {
    assert v == 4 * (0x4000 * (v / TWO16)) + v % TWO16;
    assert v % TWO16 == 4 * (v / 4 - 0x4000 * (v / TWO16));
  }

  lemma AddDistance(pc: word, goal: word, d: int)
    ensures Wrap(pc + d) == goal <==> Wrap(goal - pc) == Wrap(d)
  {
  }

  // ---- Branches -------------------------------------------------------------------------------

  /** A taken branch arrives at its label exactly when the label is in reach, whether the label was
      known when the branch was assembled or patched in later, and with or without delay slots.
      parsePc is where the source instruction begins; its branch sits at pc, a little further on. */
  lemma BranchArrives(delayed: bool, defined: bool, parsePc: word, pc: word, goal: word)
    requires parsePc % 4 == 0 && pc % 4 == 0 && goal % 4 == 0
    requires parsePc <= pc < parsePc + 0x8000
    ensures BranchTarget(delayed, pc, LabelField(delayed, CutToLower(defined, parsePc, goal), pc, goal)) == goal
            <==> InReach(pc, goal)
  {
    hide Displacement, BranchField, ToShort, InReach;
    var v := Wrap(goal - pc);
    var lower := CutToLower(defined, parsePc, goal);
    var d := ToShort(v);
    FieldOfLabel(lower, defined, parsePc, pc, goal);
    DisplacementOfField(d);
    DisplacementOfDelayedField(d);
    ReachIsSignExtension(pc, goal);
    if delayed {
      ShortIsSmall(d / 4 - 1);
    }
  }

  lemma ShortIsSmall(x: short)
    ensures ToShort(x) == x
  {
  }

  lemma FieldOfLabel(lower: bool, defined: bool, parsePc: word, pc: word, goal: word)
    requires parsePc % 4 == 0 && pc % 4 == 0 && goal % 4 == 0
    requires parsePc <= pc < parsePc + 0x8000
    requires lower == CutToLower(defined, parsePc, goal)
    ensures var d := ToShort(Wrap(goal - pc));
      d % 4 == 0 && BranchField(if lower then Wrap(goal - pc) % TWO16 else Wrap(goal - pc)) == d / 4
  {
    var v := Wrap(goal - pc);
    AlignedDistance(pc, goal);
    if lower {
      FieldOfDistance(v % TWO16);
    } else {
      CloseDistance(parsePc, pc, goal);
      FieldOfDistance(v);
    }
  }

  lemma AlignedDistance(pc: word, goal: word)
    requires pc % 4 == 0 && goal % 4 == 0
    ensures Wrap(goal - pc) % 4 == 0 && ToShort(Wrap(goal - pc)) % 4 == 0
    ensures ToShort(Wrap(goal - pc) % TWO16) == ToShort(Wrap(goal - pc))
  {
    hide Wrap;
    var v := Wrap(goal - pc);
    FourDivides(goal - pc, v);
    LowFour(v);
    SmallModulo(v % TWO16, TWO16);
  }

  lemma FourDivides(x: int, v: word)
    requires x % 4 == 0 && v == Wrap(x)
    ensures v % 4 == 0
  {
    var q := x / TWO32;
    assert x == TWO32 * q + v;
    QuotientIs(v, 4, x / 4 - 0x4000_0000 * q, 0);
  }

  lemma CloseDistance(parsePc: word, pc: word, goal: word)
    requires parsePc <= pc < parsePc + 0x8000 && Wrap(goal - parsePc) < TWO16
    ensures Wrap(goal - pc) % TWO16 >= 0x8000 || Wrap(goal - pc) < 0x8000
  {
    hide Wrap;
    var v, d := Wrap(goal - parsePc), pc - parsePc;
    WrapSteps(goal - parsePc, -d);
    if v >= d {
      SmallWrap(v - d);
      SmallModulo(v - d, TWO16);
    } else {
      WrapNear(v - d);
      QuotientIs(v - d + TWO32, TWO16, 0xffff, v - d + TWO16);
    }
  }

  /** A label known when its branch is assembled and one patched in later give the same field. */
  lemma SameField(parsePc: word, pc: word, goal: word)
    requires parsePc % 4 == 0 && pc % 4 == 0 && goal % 4 == 0
    requires parsePc <= pc < parsePc + 0x8000
    ensures LabelField(false, CutToLower(true, parsePc, goal), pc, goal) == LabelField(false, true, pc, goal)
  {
    hide BranchField, ToShort, Wrap;
    FieldOfLabel(CutToLower(true, parsePc, goal), true, parsePc, pc, goal);
    FieldOfLabel(true, false, parsePc, pc, goal);
  }

  // ---- Delay slots -----------------------------------------------------------------------------

  /** The state in which a delay slot runs: the link register has been written. */
  function AtSlot(i: Inst, s: State): State {
    var link := Wrap(s.PC + 8);
    var R := ZeroR0(s.R);
    s.(R := if Links(i.op) || i.op.JAL? then R[31 := link] else if i.op.JALR? then R[i.rd := link] else R,
       PC := Wrap(s.PC + 4))
  }

  predicate Transfers(op: Opcode) {
    IsBranch(op) || IsJump(op)
  }

  /** An instruction that transfers control is followed by one that does not. */
  predicate SlotAllowed(text: Text, pc: word)
    requires pc in text
  {
    Transfers(text[pc].op) ==> Wrap(pc + 4) in text && !Transfers(text[Wrap(pc + 4)].op)
  }

  /** One step of the machine with delay slots.  A taken branch or a jump first runs the
      instruction after it, which is not itself a transfer of control.  The target of J and JAL is
      worked out afterwards, when the PC is already past the slot. */
  function StepDelayed(text: Text, s: State): State
    requires s.outcome == Running && s.PC in text && SlotAllowed(text, s.PC)
  {
    var i := text[s.PC];
    if !Transfers(i.op) then Perform(i, s)
    else
      var slot, linked, R := text[Wrap(s.PC + 4)], AtSlot(i, s), ZeroR0(s.R);
      if IsBranch(i.op) then
        if Taken(i.op, Tested(i, R[i.rs], Wrap(s.PC + 8)), R[i.rt]) then
          Perform(slot, linked).(PC := BranchTarget(true, s.PC, i.imm))
        else if IsLikely(i.op) then linked.(PC := Wrap(s.PC + 8))
        else linked
      else if i.op.J? || i.op.JAL? then
        var t := Perform(slot, linked);
        t.(PC := JumpTarget(CoreOf(t), i.target))
      else Perform(slot, linked).(PC := R[i.rs])
  }

  /** The displacement is four times the field, as the architecture has it, except where sign-extending it
      from 16 bits, when bit 15 of a positive product or of one below -2^15 is set, takes 2^16 or more off. */
  lemma DisplacementExactly(field: short)
    ensures Displacement(field) == 4 * field <==> 4 * field % TWO16 < 0x8000 || -0x2000 <= field < 0
    ensures (Displacement(field) - 4 * field) % TWO16 == 0
  {
    var x := 4 * field;
    assert x == TWO16 * (x / TWO16) + x % TWO16;
    if x % TWO16 >= 0x8000 {
      QuotientIs(x % TWO16 - TWO16 - x, TWO16, -1 - x / TWO16, 0);
    }
  }

  /** For such fields the targets are those of the architecture, which counts from the slot if there is one. */
  lemma ArchitecturalTarget(pc: word, field: short)
    requires -0x2000 <= field < 0x2000
    ensures BranchTarget(true, pc, field) == Wrap(pc + 4 + 4 * field)
    ensures BranchTarget(false, pc, field) == Wrap(pc + 4 * field)
  {
    DisplacementExactly(field);
    if field >= 0 {
      SmallModulo(4 * field, TWO16);
    }
    hide Displacement, Wrap;
  }

  /** With delay slots, a taken branch to a label in reach runs its slot, linked if it links, and then
      stands at the label; the slot has had its whole effect and nothing else has changed. */
  lemma DelayedBranchArrives(text: Text, s: State, defined: bool, parsePc: word, goal: word)
    requires s.outcome == Running && s.PC in text && Wrap(s.PC + 4) in text && !Transfers(text[Wrap(s.PC + 4)].op)
    requires parsePc % 4 == 0 && s.PC % 4 == 0 && goal % 4 == 0 && parsePc <= s.PC < parsePc + 0x8000
    requires var i := text[s.PC];
      && IsBranch(i.op)
      && i.imm == LabelField(true, CutToLower(defined, parsePc, goal), s.PC, goal)
      && Taken(i.op, Tested(i, Reg(s, i.rs), Wrap(s.PC + 8)), Reg(s, i.rt))
    ensures var slot := Perform(text[Wrap(s.PC + 4)], AtSlot(text[s.PC], s));
      var t := StepDelayed(text, s);
      t == slot.(PC := t.PC) && (t.PC == goal <==> InReach(s.PC, goal))
  {
    hide Perform, BranchTarget, LabelField, CutToLower, InReach, Taken, IsBranch, IsJump, Links, IsLikely, AtSlot;
    BranchArrives(true, defined, parsePc, s.PC, goal);
  }

  /** With delay slots, J and JAL run their slot and then stand at an aligned label exactly when it
      shares the top four bits of the address after the slot. */
  lemma DelayedJumpArrives(text: Text, s: State, goal: word)
    requires s.outcome == Running && s.PC in text && Wrap(s.PC + 4) in text && !Transfers(text[Wrap(s.PC + 4)].op)
    requires goal % 4 == 0
    requires var i := text[s.PC]; (i.op.J? || i.op.JAL?) && i.target == JumpField(goal)
    ensures var slot := Perform(text[Wrap(s.PC + 4)], AtSlot(text[s.PC], s));
      var t := StepDelayed(text, s);
      && t == slot.(PC := t.PC)
      && (slot.outcome == Running ==>
            (t.PC == goal <==> Wrap(s.PC + 8) / 0x1000_0000 == goal / 0x1000_0000))
  {
    hide Perform, JumpTarget, JumpField, AtSlot, Wrap;
    var slot := Perform(text[Wrap(s.PC + 4)], AtSlot(text[s.PC], s));
    GoesOn(text[Wrap(s.PC + 4)], AtSlot(text[s.PC], s));
    AfterSlot(text[s.PC], s);
    JumpArrives(CoreOf(slot), goal);
  }

  /** With delay slots, JR and JALR run their slot and then stand at the address that the register held
      before, even if the slot, or the link of JALR, has changed the register. */
  lemma DelayedRegisterJumpArrives(text: Text, s: State)
    requires s.outcome == Running && s.PC in text && Wrap(s.PC + 4) in text && !Transfers(text[Wrap(s.PC + 4)].op)
    requires text[s.PC].op.JR? || text[s.PC].op.JALR?
    ensures var i, t := text[s.PC], StepDelayed(text, s);
      var linked := s.(PC := Wrap(s.PC + 4), R := if i.op.JALR? then ZeroR0(s.R)[i.rd := Wrap(s.PC + 8)] else ZeroR0(s.R));
      t == Perform(text[Wrap(s.PC + 4)], linked).(PC := Reg(s, i.rs))
  {
    hide Perform, Wrap;
  }

  lemma AfterSlot(i: Inst, s: State)
    ensures Wrap(AtSlot(i, s).PC + 4) == Wrap(s.PC + 8)
  {
    WrapSteps(s.PC + 4, 4);
    hide Wrap;
  }

  // Any other instruction goes on to the next one, unless it traps.
  lemma GoesOn(i: Inst, s: State)
    requires !Transfers(i.op)
    ensures Perform(i, s).outcome == Running ==> Perform(i, s).PC == Wrap(s.PC + 4)
  {
    hide ExecuteAlu, Wrap;
    AluGoesOn(i, Reg(s, i.rs), Reg(s, i.rt), CoreOf(s));
  }

  /** An effect goes on to the next instruction or stops the machine. */
  predicate ToNext(e: Effect, m: Core) {
    e.outcome == Running ==> e.core.PC == Wrap(m.PC + 4)
  }

  lemma AluGoesOn(i: Inst, a: word, b: word, m: Core)
    ensures ToNext(ExecuteAlu(i, a, b, m), m)
  {
    hide ExecuteMulDiv, ShiftOp, RegisterOp, ImmediateOp, Signed, Wrap;
    MulDivGoesOn(i, a, b, m);
  }

  lemma MulDivGoesOn(i: Inst, a: word, b: word, m: Core)
    ensures ToNext(ExecuteMulDiv(i, a, b, m), m)
  {
    hide ExecuteMemory, Upper, Lower, Accumulator, Signed, Wrap;
    MemoryGoesOn(i, Wrap(a + i.imm), b, m);
  }

  lemma MemoryGoesOn(i: Inst, a: word, b: word, m: Core)
    ensures ToNext(ExecuteMemory(i, a, b, m), m)
  {
    hide Mapped, WordAt, HalfAt, MergeLeft, MergeRight, SpreadLeft, SpreadRight, PutWord, PutHalf, Wrap;
  }

  // ---- Jumps ----------------------------------------------------------------------------------

  /** The target field of J and JAL: the low 28 bits of the label's address, in words. */
  function JumpField(goal: word): word {
    goal % 0x1000_0000 / 4
  }

  /** A jump arrives at an aligned label exactly when the label shares the top four bits of the
      jump's own address. */
  lemma JumpArrives(m: Core, goal: word)
    requires goal % 4 == 0
    ensures JumpTarget(m, JumpField(goal)) == goal <==> m.PC / 0x1000_0000 == goal / 0x1000_0000
  {
    var low, region := goal % 0x1000_0000, m.PC / 0x1000_0000;
    assert low % 4 == 0 by { assert 0x1000_0000 == 4 * 0x400_0000; }
    assert Wrap(JumpField(goal) * 4) == low;
    assert JumpTarget(m, JumpField(goal)) == region * 0x1000_0000 + low by {
      hide Or;
      Pow2At28();
      OrIsPlus(region * 0x1000_0000, low, 28);
    }
  }

  lemma Pow2At28()
    ensures Pow2(28) == 0x1000_0000
  {
    Pow2Values();
    Pow2Add(4, 24);
  }
}
