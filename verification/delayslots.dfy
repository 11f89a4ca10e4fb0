/** Whole runs with delay slots, and what they have to do with runs without: a program that has a nop in
    every slot, and calls nothing, runs the same turn by turn once its branches are assembled for slots. */
module DelaySlots {
  import opened Words
  import opened Isa
  import opened Immediates
  import opened ControlTransfer

  ghost predicate SlotsAllowed(text: Text) {
    forall pc: word :: pc in text ==> SlotAllowed(text, pc)
  }

  /** One turn of the loop with delayed branches. */
  function TurnDelayed(text: Text, s: State): State
    requires s.PC in text ==> SlotAllowed(text, s.PC)
  {
    if s.outcome != Running then s
    else if s.PC !in text then s.(R := ZeroR0(s.R), outcome := NoInstruction)
    else StepDelayed(text, s)
  }

  ghost function RunDelayed(text: Text, s: State, n: nat): State
    requires SlotsAllowed(text)
  {
    if n == 0 then s else TurnDelayed(text, RunDelayed(text, s, n - 1))
  }

  lemma OneMoreTurn(text: Text, s: State, n: nat)
    requires SlotsAllowed(text)
    ensures RunDelayed(text, s, n + 1) == TurnDelayed(text, RunDelayed(text, s, n))
  {
    hide TurnDelayed;
  }

  // ---- Nops in the slots ---------------------------------------------------------------------------

  const NOP := ShiftType(SLL, 0, 0, 0)

  predicate IsCall(op: Opcode) {
    Links(op) || op.JAL? || op.JALR?
  }

  /** The instruction at pc as assembled without slots and with them: a branch may have another field,
      with which it goes to the same place, and a jump keeps its region. */
  predicate SameBut(i: Inst, j: Inst, pc: word) {
    if IsBranch(i.op) then j == i.(imm := j.imm) && BranchTarget(true, pc, j.imm) == BranchTarget(false, pc, i.imm)
    else j == i && (TakesTarget(i.op) ==> pc / 0x1000_0000 == Wrap(pc + 8) / 0x1000_0000)
  }

  /** The same program for both machines, without calls and with a nop after every branch and jump. */
  ghost predicate NopsIn(plain: Text, slots: Text) {
    && plain.Keys == slots.Keys
    && forall pc: word :: pc in plain ==> SameBut(plain[pc], slots[pc], pc) && NopAfter(plain, pc)
  }

  predicate NopNext(text: Text, pc: word) {
    Wrap(pc + 4) in text && text[Wrap(pc + 4)] == NOP
  }

  predicate NopAfter(text: Text, pc: word)
    requires pc in text
  {
    Transfers(text[pc].op) ==> !IsCall(text[pc].op) && NopNext(text, pc)
  }

  /** A branch to a label in reach, assembled for either machine. */
  lemma SameLabel(defined: bool, parsePc: word, pc: word, goal: word)
    requires parsePc % 4 == 0 && pc % 4 == 0 && goal % 4 == 0 && parsePc <= pc < parsePc + 0x8000 && InReach(pc, goal)
    ensures BranchTarget(true, pc, LabelField(true, CutToLower(defined, parsePc, goal), pc, goal))
            == BranchTarget(false, pc, LabelField(false, CutToLower(defined, parsePc, goal), pc, goal))
  {
    hide BranchTarget, LabelField, CutToLower, InReach;
    BranchArrives(true, defined, parsePc, pc, goal);
    BranchArrives(false, defined, parsePc, pc, goal);
  }

  lemma NopAllowed(plain: Text, slots: Text)
    requires NopsIn(plain, slots)
    ensures SlotsAllowed(slots)
  {
    hide IsBranch, IsCall, BranchTarget;
    forall pc: word | pc in slots
      ensures SlotAllowed(slots, pc)
    {
      assert SameBut(plain[pc], slots[pc], pc) && NopAfter(plain, pc);
      if Transfers(slots[pc].op) {
        assert SameBut(NOP, slots[Wrap(pc + 4)], Wrap(pc + 4));
      }
      NopStays(pc);
    }
  }

  lemma NopStays(pc: word)
    ensures !Transfers(NOP.op) && !IsBranch(NOP.op)
  {
  }

  // A nop does nothing but go on.
  lemma DoNop(s: State)
    requires s.R[0] == 0
    ensures Perform(NOP, s) == s.(PC := Wrap(s.PC + 4), outcome := Running)
  {
    hide Perform, Wrap;
    DoShift(s, NOP);
    SmallWrap(0);
    assert ZeroR0(s.R)[0 := 0] == s.R;
  }
  // The two machines at a branch, and at a jump.
  lemma BranchWithNop(text: Text, s: State)
    requires s.outcome == Running && s.PC in text && SlotAllowed(text, s.PC) && NopAfter(text, s.PC)
    requires IsBranch(text[s.PC].op)
    ensures var i := text[s.PC];
      StepDelayed(text, s)
      == Moved(s, if Taken(i.op, Reg(s, i.rs), Reg(s, i.rt)) then BranchTarget(true, s.PC, i.imm)
                  else if IsLikely(i.op) then Wrap(s.PC + 8) else Wrap(s.PC + 4))
  {
    hide Perform, Taken, BranchTarget, IsBranch, IsLikely, Links, Wrap;
    DoNop(AtSlot(text[s.PC], s));
  }

  lemma PlainBranch(i: Inst, s: State)
    requires s.outcome == Running && IsBranch(i.op) && !Links(i.op)
    ensures Perform(i, s)
            == Moved(s, if Taken(i.op, Reg(s, i.rs), Reg(s, i.rt)) then BranchTarget(false, s.PC, i.imm)
                        else if IsLikely(i.op) then Wrap(s.PC + 8) else Wrap(s.PC + 4))
  {
    hide Taken, Displacement, IsLikely, Links, Wrap, IsBranch;
  }

  lemma JumpWithNop(text: Text, s: State)
    requires s.outcome == Running && s.PC in text && SlotAllowed(text, s.PC) && NopAfter(text, s.PC)
    requires var i := text[s.PC];
      (i.op.J? || i.op.JR?) && (i.op.J? ==> s.PC / 0x1000_0000 == Wrap(s.PC + 8) / 0x1000_0000)
    ensures StepDelayed(text, s) == Perform(text[s.PC], s)
  {
    hide Perform, JumpTarget, Wrap, Links, IsBranch;
    var i, linked := text[s.PC], AtSlot(text[s.PC], s);
    JumpIsNoBranch(i.op);
    PlainJump(i, s);
    AfterSlot(i, s);
    DoNop(linked);
    if i.op.J? {
      SameRegion(CoreOf(s), CoreOf(Perform(NOP, linked)), i.target);
    }
  }

  lemma JumpIsNoBranch(op: Opcode)
    ensures op.J? || op.JR? ==> !IsBranch(op) && !Links(op)
  {
  }

  lemma SameRegion(m: Core, n: Core, target: word)
    requires m.PC / 0x1000_0000 == n.PC / 0x1000_0000
    ensures JumpTarget(m, target) == JumpTarget(n, target)
  {
    hide Or, Wrap;
  }

  lemma PlainJump(i: Inst, s: State)
    requires i.op.J? || i.op.JR?
    ensures Perform(i, s) == Moved(s, if i.op.J? then JumpTarget(CoreOf(s), i.target) else Reg(s, i.rs))
  {
    hide JumpTarget, Wrap;
  }

  lemma TurnIsStep(plain: Text, slots: Text, s: State)
    requires NopsIn(plain, slots) && SlotsAllowed(slots)
    ensures TurnDelayed(slots, s) == Step(plain, s)
  {
    hide StepDelayed, Perform, IsBranch, IsCall, BranchTarget, Wrap;
    if s.outcome == Running && s.PC in plain {
      var i, j := plain[s.PC], slots[s.PC];
      assert SameBut(i, j, s.PC) && NopAfter(plain, s.PC);
      NopSame(plain, slots, s.PC);
      if IsBranch(i.op) {
        NoLinks(i.op);
        BranchWithNop(slots, s);
        PlainBranch(i, s);
      } else if IsJump(i.op) {
        NoLinks(i.op);
        JumpWithNop(slots, s);
      } else {
        NoTransferTurn(slots, s);
      }
    }
  }

  lemma NoLinks(op: Opcode)
    ensures Links(op) ==> IsCall(op)
    ensures IsJump(op) && !IsCall(op) ==> op.J? || op.JR?
  {
  }

  lemma NoTransferTurn(text: Text, s: State)
    requires s.outcome == Running && s.PC in text && SlotAllowed(text, s.PC) && !Transfers(text[s.PC].op)
    ensures StepDelayed(text, s) == Perform(text[s.PC], s)
  {
    hide Perform, Transfers;
  }

  lemma NopSame(plain: Text, slots: Text, pc: word)
    requires NopsIn(plain, slots) && pc in plain
    ensures NopAfter(slots, pc)
  {
    hide IsBranch, IsCall, BranchTarget;
    assert SameBut(plain[pc], slots[pc], pc) && NopAfter(plain, pc);
    if Transfers(plain[pc].op) {
      assert SameBut(NOP, slots[Wrap(pc + 4)], Wrap(pc + 4));
    }
    NopStays(pc);
  }

  /** With a nop in every slot and without calls, the machine with delay slots does turn by turn what the
      plain machine does. */
  lemma {:induction false} NopsAreInvisible(plain: Text, slots: Text, s: State, n: nat)
    requires NopsIn(plain, slots)
    ensures SlotsAllowed(slots) && RunDelayed(slots, s, n) == Run(plain, s, n)
  {
    hide Step, TurnDelayed, NopsIn, SlotsAllowed;
    NopAllowed(plain, slots);
    if n > 0 {
      NopsAreInvisible(plain, slots, s, n - 1);
      TurnIsStep(plain, slots, Run(plain, s, n - 1));
      RunAdd(plain, s, n - 1, 1);
      OneStep(plain, Run(plain, s, n - 1));
    }
  }

  lemma OneStep(text: Text, s: State)
    ensures Run(text, s, 1) == Step(text, s)
  {
    hide Step;
    assert Run(text, s, 1) == Run(text, Step(text, s), 0);
  }
  // ---- Calls ---------------------------------------------------------------------------------------

  /** A call with a nop in its slot leaves in $31 the address after the slot, and goes to the target that it
      would go to without slots. */
  lemma CallLinksPastSlot(text: Text, s: State)
    requires s.outcome == Running && s.PC in text && SlotAllowed(text, s.PC)
    requires NopNext(text, s.PC)
    requires var i := text[s.PC]; i.op.JAL? || (i.op.JALR? && i.rd == 31)
    ensures var i, t := text[s.PC], StepDelayed(text, s);
      && t == s.(R := ZeroR0(s.R)[31 := Wrap(s.PC + 8)], PC := t.PC)
      && (i.op.JALR? ==> t.PC == Reg(s, i.rs))
      && (i.op.JAL? ==> t.PC == JumpTarget(CoreOf(s.(PC := Wrap(s.PC + 8))), i.target))
  {
    hide Perform, JumpTarget, Wrap, Links, IsBranch;
    var i := text[s.PC];
    CallIsNoBranch(i.op);
    AfterSlot(i, s);
    DoNop(AtSlot(i, s));
  }

  lemma CallIsNoBranch(op: Opcode)
    ensures op.JAL? || op.JALR? ==> !IsBranch(op) && !Links(op)
  {
  }

  /** A linking branch likewise, taken or not. */
  lemma BranchLinksPastSlot(text: Text, s: State)
    requires s.outcome == Running && s.PC in text && SlotAllowed(text, s.PC)
    requires NopNext(text, s.PC)
    requires IsBranch(text[s.PC].op) && Links(text[s.PC].op)
    ensures var t := StepDelayed(text, s); t == s.(R := ZeroR0(s.R)[31 := Wrap(s.PC + 8)], PC := t.PC)
  {
    hide Perform, Taken, BranchTarget, Wrap, IsLikely, IsBranch;
    DoNop(AtSlot(text[s.PC], s));
  }

  /** The machine is about to run `jr $31`, with a nop in its slot, and $31 is the given address. */
  predicate Returns(text: Text, s: State, link: word) {
    s.outcome == Running && s.PC in text && text[s.PC] == RType(JR, 0, 31, 0) && NopNext(text, s.PC) && s.R[31] == link
  }

  predicate StandsAt(s: State, pc: word) {
    s.outcome == Running && s.PC == pc
  }

  /** A subroutine that comes to `jr $31` with $31 as the call left it returns past the call and its slot. */
  lemma SlotCallReturns(text: Text, s: State, n: nat)
    requires SlotsAllowed(text) && s.outcome == Running && s.PC in text
    requires text[s.PC].op.JAL? && NopNext(text, s.PC)
    requires Returns(text, RunDelayed(text, s, 1 + n), RunDelayed(text, s, 1).R[31])
    ensures StandsAt(RunDelayed(text, s, 1 + n + 1), Wrap(s.PC + 8))
  {
    hide StepDelayed, Wrap, JumpTarget;
    OneMoreTurn(text, s, 0);
    OneMoreTurn(text, s, 1 + n);
    hide RunDelayed;
    assert SlotAllowed(text, s.PC);
    CallLinksPastSlot(text, s);
    var t := RunDelayed(text, s, 1 + n);
    assert SlotAllowed(text, t.PC);
    NotACall(JR);
    JumpWithNop(text, t);
    PlainJump(text[t.PC], t);
  }

  lemma NotACall(op: Opcode)
    ensures op.JR? ==> Transfers(op) && !IsCall(op)
  {
  }
}
