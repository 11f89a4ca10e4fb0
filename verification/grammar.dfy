/** The grammar actions of the pseudo-instructions, at work on the text segment.  What each of them
    assembles, after everything already there, is the code whose effect the other modules prove; the
    segment stays valid, so that labels and other lines can follow. */
module Grammar {
  import opened Words
  import opened Isa
  import opened Immediates
  import opened ControlTransfer
  import opened PseudoOps
  import opened PseudoArithmetic
  import opened Unaligned
  import opened Symbols
  import opened TextSegment

  lemma PlainlyJoins(a: seq<Inst>, b: seq<Inst>)
    ensures Plainly(a + b) == Plainly(a) + Plainly(b)
  {
  }

  // Two groups of items, one after the other.
  lemma InTurn(first: Listing, second: Listing, third: Listing, a: seq<Item>, b: seq<Item>)
    requires Follows(first, second, a) && Follows(second, third, b)
    ensures Follows(first, third, a + b)
  {
    assert LinesFor(a + b, first.addresses) == LinesFor(a, first.addresses) + LinesFor(b, first.addresses);
  }

  lemma InTurnPlainly(first: Listing, second: Listing, third: Listing, a: seq<Inst>, b: seq<Inst>)
    requires Follows(first, second, Plainly(a)) && Follows(second, third, Plainly(b))
    ensures Follows(first, third, Plainly(a + b))
  {
    PlainlyJoins(a, b);
    InTurn(first, second, third, Plainly(a), Plainly(b));
  }

  // ---- Single instructions -------------------------------------------------------------------------

  method PlainInst(seg: Segment, i: Inst)
    requires seg.Valid()
    modifies seg
    ensures seg.Valid() && Follows(old(seg.Listed()), seg.Listed(), Plainly([i]))
  {
    hide Follows, Segment.Valid;
    seg.Assemble(Plain(i));
    assert Plainly([i]) == [Plain(i)];
  }

  method RTypeInst(seg: Segment, op: Opcode, rd: reg, rs: reg, rt: reg)
    requires seg.Valid()
    modifies seg
    ensures seg.Valid() && Follows(old(seg.Listed()), seg.Listed(), Plainly([RType(op, rd, rs, rt)]))
  {
    hide Follows, Segment.Valid, RType;
    PlainInst(seg, RType(op, rd, rs, rt));
  }

  method ShiftInst(seg: Segment, op: Opcode, rd: reg, rt: reg, shamt: int)
    requires seg.Valid()
    modifies seg
    ensures seg.Valid() && Follows(old(seg.Listed()), seg.Listed(), Plainly([ShiftType(op, rd, rt, shamt)]))
  {
    hide Follows, Segment.Valid, ShiftType;
    PlainInst(seg, ShiftType(op, rd, rt, shamt));
  }

  lemma SkipIsEmitted(op: Opcode, rt: reg, rs: reg, count: nat)
    requires IsBranch(op) && count < 0x1000
    ensures Emit(op, rt, rs, Constant(4 * count, Whole)) == [Skip(op, rt, rs, count)]
  {
  }

  lemma SmallIsEmitted(rt: reg, rs: reg, v: word)
    requires v < 0x8000
    ensures Emit(ORI, rt, rs, Constant(v, Whole)) == [IType(ORI, rt, rs, v)]
  {
  }

  /** A branch over a fixed number of instructions. */
  method BranchBy(seg: Segment, op: Opcode, rt: reg, rs: reg, count: nat)
    requires (op.BEQ? || op.BNE? || op.BGEZ?) && count < 0x1000
    requires seg.Valid()
    modifies seg
    ensures seg.Valid() && Follows(old(seg.Listed()), seg.Listed(), Plainly([Skip(op, rt, rs, count)]))
  {
    hide Follows, Segment.Valid, Skip;
    SkipIsEmitted(op, rt, rs, count);
    seg.AssembleImmediate(op, rt, rs, Constant(4 * count, Whole));
  }

  method LoadSmall(seg: Segment, rd: reg, v: word)
    requires v < 0x8000
    requires seg.Valid()
    modifies seg
    ensures seg.Valid() && Follows(old(seg.Listed()), seg.Listed(), Plainly([IType(ORI, rd, 0, v)]))
  {
    hide Follows, Segment.Valid, Emit;
    SmallIsEmitted(rd, 0, v);
    seg.AssembleImmediate(ORI, rd, 0, Constant(v, Whole));
  }

  /** An instruction with any 32-bit constant. */
  method LoadWhole(seg: Segment, op: Opcode, rt: reg, rs: reg, v: word)
    requires TakesImmediate(op)
    requires seg.Valid()
    modifies seg
    ensures seg.Valid() && Follows(old(seg.Listed()), seg.Listed(), Plainly(Code(op, rt, rs, v)))
  {
    hide Follows, Segment.Valid, TakesImmediate, Emit;
    CodeIsEmit(op, rt, rs, v);
    seg.AssembleImmediate(op, rt, rs, Constant(v, Whole));
  }

  // ---- Division and multiplication -----------------------------------------------------------------

  method DivInst(seg: Segment, op: DivOp, rd: reg, rs: reg, rt: reg, constDivisor: bool)
    requires seg.Valid()
    modifies seg
    ensures seg.Valid() && Follows(old(seg.Listed()), seg.Listed(), Plainly(DivEmitted(op, rd, rs, rt, constDivisor)))
  {
    hide Follows, Segment.Valid, Skip;
    var divide := if op.signed then DIV else DIVU;
    ghost var l0 := seg.Listed();
    ghost var check: seq<Inst> := [];
    if rd != 0 && !constDivisor {
      check := [Skip(BNE, 0, rt, 2)] + [RType(BREAK, 0, 0, 0)];
      CheckDivisor(seg, rt);
    } else {
      NoItems(l0);
    }
    ghost var l1 := seg.Listed();
    RTypeInst(seg, divide, 0, rs, rt);
    ghost var l2 := seg.Listed();
    ghost var main := [RType(divide, 0, rs, rt)];
    InTurnPlainly(l0, l1, l2, check, main);
    if rd != 0 {
      var move := if op.remainder then MFHI else MFLO;
      RTypeInst(seg, move, rd, 0, 0);
      InTurnPlainly(l0, l2, seg.Listed(), check + main, [RType(move, rd, 0, 0)]);
      assert check + main + [RType(move, rd, 0, 0)] == DivCode(op, rd, rs, rt, constDivisor);
    } else {
      assert check + main == main;
    }
  }

  /** With $0 as the destination only the division itself is emitted. */
  function DivEmitted(op: DivOp, rd: reg, rs: reg, rt: reg, constDivisor: bool): seq<Inst> {
    if rd == 0 then [RType(if op.signed then DIV else DIVU, 0, rs, rt)] else DivCode(op, rd, rs, rt, constDivisor)
  }

  lemma NoItems(listing: Listing)
    ensures Follows(listing, listing, Plainly([]))
  {
    assert LinesFor(Plainly([]), listing.addresses) == [];
  }

  method CheckDivisor(seg: Segment, rt: reg)
    requires seg.Valid()
    modifies seg
    ensures seg.Valid() && Follows(old(seg.Listed()), seg.Listed(), Plainly([Skip(BNE, 0, rt, 2)] + [RType(BREAK, 0, 0, 0)]))
  {
    hide Follows, Segment.Valid, Skip;
    ghost var l0 := seg.Listed();
    BranchBy(seg, BNE, 0, rt, 2);
    ghost var l1 := seg.Listed();
    RTypeInst(seg, BREAK, 0, 0, 0);
    ghost var l2 := seg.Listed();
    InTurnPlainly(l0, l1, l2, [Skip(BNE, 0, rt, 2)], [RType(BREAK, 0, 0, 0)]);
  }

  function MulEmitted(signed: bool, rd: reg, rs: reg, rt: reg): seq<Inst> {
    if rd == 0 then [RType(if signed then MULT else MULTU, 0, rs, rt)] else MulCode(signed, rd, rs, rt)
  }

  /** MULO and MULOU. */
  method MultInst(seg: Segment, signed: bool, rd: reg, rs: reg, rt: reg)
    requires seg.Valid()
    modifies seg
    ensures seg.Valid() && Follows(old(seg.Listed()), seg.Listed(), Plainly(MulEmitted(signed, rd, rs, rt)))
  {
    hide Follows, Segment.Valid, Skip;
    ghost var l0 := seg.Listed();
    RTypeInst(seg, if signed then MULT else MULTU, 0, rs, rt);
    ghost var main := [RType(if signed then MULT else MULTU, 0, rs, rt)];
    if rd != 0 {
      ghost var l1 := seg.Listed();
      if signed {
        SignedTest(seg, rd);
      } else {
        UnsignedTest(seg);
      }
      ghost var l2 := seg.Listed();
      InTurnPlainly(l0, l1, l2, main, MulTestCode(signed, rd));
      RTypeInst(seg, MFLO, rd, 0, 0);
      InTurnPlainly(l0, l2, seg.Listed(), main + MulTestCode(signed, rd), [RType(MFLO, rd, 0, 0)]);
      assert main + MulTestCode(signed, rd) + [RType(MFLO, rd, 0, 0)] == MulCode(signed, rd, rs, rt);
    }
  }

  /** The part that breaks when the product does not fit. */
  function MulTestCode(signed: bool, rd: reg): seq<Inst> {
    if signed then
      [RType(MFHI, 1, 0, 0)] + [RType(MFLO, rd, 0, 0)] + [ShiftType(SRA, rd, rd, 31)] + [Skip(BEQ, rd, 1, 2)]
      + [RType(BREAK, 0, 0, 0)]
    else
      [RType(MFHI, 1, 0, 0)] + [Skip(BEQ, 0, 1, 2)] + [RType(BREAK, 0, 0, 0)]
  }

  method SignedTest(seg: Segment, rd: reg)
    requires seg.Valid()
    modifies seg
    ensures seg.Valid() && Follows(old(seg.Listed()), seg.Listed(), Plainly(MulTestCode(true, rd)))
  {
    hide Follows, Segment.Valid, Skip, RType, ShiftType;
    ghost var l0 := seg.Listed();
    RTypeInst(seg, MFHI, 1, 0, 0);
    ghost var l1 := seg.Listed();
    RTypeInst(seg, MFLO, rd, 0, 0);
    ghost var l2 := seg.Listed();
    InTurnPlainly(l0, l1, l2, [RType(MFHI, 1, 0, 0)], [RType(MFLO, rd, 0, 0)]);
    ShiftInst(seg, SRA, rd, rd, 31);
    ghost var l3 := seg.Listed();
    InTurnPlainly(l0, l2, l3, [RType(MFHI, 1, 0, 0)] + [RType(MFLO, rd, 0, 0)], [ShiftType(SRA, rd, rd, 31)]);
    BranchBy(seg, BEQ, rd, 1, 2);
    ghost var l4 := seg.Listed();
    InTurnPlainly(l0, l3, l4, [RType(MFHI, 1, 0, 0)] + [RType(MFLO, rd, 0, 0)] + [ShiftType(SRA, rd, rd, 31)], [Skip(BEQ, rd, 1, 2)]);
    RTypeInst(seg, BREAK, 0, 0, 0);
    ghost var l5 := seg.Listed();
    InTurnPlainly(l0, l4, l5, [RType(MFHI, 1, 0, 0)] + [RType(MFLO, rd, 0, 0)] + [ShiftType(SRA, rd, rd, 31)] + [Skip(BEQ, rd, 1, 2)], [RType(BREAK, 0, 0, 0)]);
  }

  method UnsignedTest(seg: Segment)
    requires seg.Valid()
    modifies seg
    ensures seg.Valid() && Follows(old(seg.Listed()), seg.Listed(), Plainly(MulTestCode(false, 0)))
  {
    hide Follows, Segment.Valid, Skip, RType;
    ghost var l0 := seg.Listed();
    RTypeInst(seg, MFHI, 1, 0, 0);
    ghost var l1 := seg.Listed();
    BranchBy(seg, BEQ, 0, 1, 2);
    ghost var l2 := seg.Listed();
    InTurnPlainly(l0, l1, l2, [RType(MFHI, 1, 0, 0)], [Skip(BEQ, 0, 1, 2)]);
    RTypeInst(seg, BREAK, 0, 0, 0);
    ghost var l3 := seg.Listed();
    InTurnPlainly(l0, l2, l3, [RType(MFHI, 1, 0, 0)] + [Skip(BEQ, 0, 1, 2)], [RType(BREAK, 0, 0, 0)]);
  }

  // ---- Comparisons ---------------------------------------------------------------------------------

  method SetLeInst(seg: Segment, op: Relation, rd: reg, rs: reg, rt: reg)
    requires op.LE? || op.LEU?
    requires seg.Valid()
    modifies seg
    ensures seg.Valid() && Follows(old(seg.Listed()), seg.Listed(), Plainly(SetCode(op, rd, rs, rt)))
  {
    hide Follows, Segment.Valid, Skip;
    ghost var l0 := seg.Listed();
    BranchBy(seg, BNE, rs, rt, 3);
    ghost var l1 := seg.Listed();
    LoadSmall(seg, rd, 1);
    ghost var l2 := seg.Listed();
    InTurnPlainly(l0, l1, l2, [Skip(BNE, rs, rt, 3)], [IType(ORI, rd, 0, 1)]);
    BranchBy(seg, BEQ, 0, 0, 2);
    ghost var l3 := seg.Listed();
    InTurnPlainly(l0, l2, l3, [Skip(BNE, rs, rt, 3)] + [IType(ORI, rd, 0, 1)], [Skip(BEQ, 0, 0, 2)]);
    RTypeInst(seg, if op.LE? then SLT else SLTU, rd, rs, rt);
    ghost var l4 := seg.Listed();
    InTurnPlainly(l0, l3, l4, [Skip(BNE, rs, rt, 3)] + [IType(ORI, rd, 0, 1)] + [Skip(BEQ, 0, 0, 2)], [RType(SetLessThan(op), rd, rs, rt)]);
    assert [Skip(BNE, rs, rt, 3)] + [IType(ORI, rd, 0, 1)] + [Skip(BEQ, 0, 0, 2)] + [RType(SetLessThan(op), rd, rs, rt)] == SetCode(op, rd, rs, rt);
  }

  method SetGtInst(seg: Segment, op: Relation, rd: reg, rs: reg, rt: reg)
    requires op.GT? || op.GTU?
    requires seg.Valid()
    modifies seg
    ensures seg.Valid() && Follows(old(seg.Listed()), seg.Listed(), Plainly(SetCode(op, rd, rs, rt)))
  {
    hide Follows, Segment.Valid;
    RTypeInst(seg, if op.GT? then SLT else SLTU, rd, rt, rs);
  }

  method SetGeInst(seg: Segment, op: Relation, rd: reg, rs: reg, rt: reg)
    requires op.GE? || op.GEU?
    requires seg.Valid()
    modifies seg
    ensures seg.Valid() && Follows(old(seg.Listed()), seg.Listed(), Plainly(SetCode(op, rd, rs, rt)))
  {
    hide Follows, Segment.Valid, Skip;
    ghost var l0 := seg.Listed();
    BranchBy(seg, BNE, rs, rt, 3);
    ghost var l1 := seg.Listed();
    LoadSmall(seg, rd, 1);
    ghost var l2 := seg.Listed();
    InTurnPlainly(l0, l1, l2, [Skip(BNE, rs, rt, 3)], [IType(ORI, rd, 0, 1)]);
    BranchBy(seg, BEQ, 0, 0, 2);
    ghost var l3 := seg.Listed();
    InTurnPlainly(l0, l2, l3, [Skip(BNE, rs, rt, 3)] + [IType(ORI, rd, 0, 1)], [Skip(BEQ, 0, 0, 2)]);
    RTypeInst(seg, if op.GE? then SLT else SLTU, rd, rt, rs);
    ghost var l4 := seg.Listed();
    InTurnPlainly(l0, l3, l4, [Skip(BNE, rs, rt, 3)] + [IType(ORI, rd, 0, 1)] + [Skip(BEQ, 0, 0, 2)], [RType(SetLessThan(op), rd, rt, rs)]);
    assert [Skip(BNE, rs, rt, 3)] + [IType(ORI, rd, 0, 1)] + [Skip(BEQ, 0, 0, 2)] + [RType(SetLessThan(op), rd, rt, rs)] == SetCode(op, rd, rs, rt);
  }

  method SetEqInst(seg: Segment, op: Relation, rd: reg, rs: reg, rt: reg)
    requires op.EQ? || op.NE?
    requires seg.Valid()
    modifies seg
    ensures seg.Valid() && Follows(old(seg.Listed()), seg.Listed(), Plainly(SetCode(op, rd, rs, rt)))
  {
    hide Follows, Segment.Valid, Skip;
    var ifEqual, ifNot := 1, 0;
    if op.NE? {
      ifEqual, ifNot := 0, 1;
    }
    ghost var l0 := seg.Listed();
    BranchBy(seg, BEQ, rs, rt, 3);
    ghost var l1 := seg.Listed();
    LoadSmall(seg, rd, ifNot);
    ghost var l2 := seg.Listed();
    InTurnPlainly(l0, l1, l2, [Skip(BEQ, rs, rt, 3)], [IType(ORI, rd, 0, ifNot)]);
    BranchBy(seg, BEQ, 0, 0, 2);
    ghost var l3 := seg.Listed();
    InTurnPlainly(l0, l2, l3, [Skip(BEQ, rs, rt, 3)] + [IType(ORI, rd, 0, ifNot)], [Skip(BEQ, 0, 0, 2)]);
    LoadSmall(seg, rd, ifEqual);
    ghost var l4 := seg.Listed();
    InTurnPlainly(l0, l3, l4, [Skip(BEQ, rs, rt, 3)] + [IType(ORI, rd, 0, ifNot)] + [Skip(BEQ, 0, 0, 2)], [IType(ORI, rd, 0, ifEqual)]);
    assert [Skip(BEQ, rs, rt, 3)] + [IType(ORI, rd, 0, ifNot)] + [Skip(BEQ, 0, 0, 2)] + [IType(ORI, rd, 0, ifEqual)] == SetCode(op, rd, rs, rt);
  }

  method SetInst(seg: Segment, op: Relation, rd: reg, rs: reg, rt: reg)
    requires IsSetPseudo(op)
    requires seg.Valid()
    modifies seg
    ensures seg.Valid() && Follows(old(seg.Listed()), seg.Listed(), Plainly(SetCode(op, rd, rs, rt)))
  {
    hide Follows, Segment.Valid, SetCode;
    if op.LE? || op.LEU? {
      SetLeInst(seg, op, rd, rs, rt);
    } else if op.GT? || op.GTU? {
      SetGtInst(seg, op, rd, rs, rt);
    } else if op.GE? || op.GEU? {
      SetGeInst(seg, op, rd, rs, rt);
    } else {
      SetEqInst(seg, op, rd, rs, rt);
    }
  }

  /** With an immediate operand. */
  method SetImmediateInst(seg: Segment, op: Relation, rd: reg, rs: reg, v: word)
    requires IsSetPseudo(op)
    requires seg.Valid()
    modifies seg
    ensures seg.Valid() && Follows(old(seg.Listed()), seg.Listed(), Plainly(SetImmediateCode(op, rd, rs, v)))
  {
    hide Follows, Segment.Valid, SetCode, Code, IsSetPseudo;
    if v == 0 {
      SetInst(seg, op, rd, rs, 0);
    } else {
      ghost var l0 := seg.Listed();
      LoadWhole(seg, ORI, 1, 0, v);
      ghost var l1 := seg.Listed();
      SetInst(seg, op, rd, rs, 1);
      ghost var l2 := seg.Listed();
      InTurnPlainly(l0, l1, l2, Code(ORI, 1, 0, v), SetCode(op, rd, rs, 1));
    }
  }

  // ---- Absolute value and rotation -----------------------------------------------------------------

  method AbsInst(seg: Segment, rd: reg, rs: reg)
    requires seg.Valid()
    modifies seg
    ensures seg.Valid() && Follows(old(seg.Listed()), seg.Listed(), Plainly(AbsCode(rd, rs)))
  {
    hide Follows, Segment.Valid, Skip;
    ghost var l0 := seg.Listed();
    ghost var copy: seq<Inst> := [];
    if rd != rs {
      copy := [RType(ADDU, rd, 0, rs)];
      RTypeInst(seg, ADDU, rd, 0, rs);
    } else {
      NoItems(l0);
    }
    ghost var l1 := seg.Listed();
    BranchBy(seg, BGEZ, 0, rs, 2);
    ghost var l2 := seg.Listed();
    InTurnPlainly(l0, l1, l2, copy, [Skip(BGEZ, 0, rs, 2)]);
    RTypeInst(seg, SUB, rd, 0, rs);
    InTurnPlainly(l0, l2, seg.Listed(), copy + [Skip(BGEZ, 0, rs, 2)], [RType(SUB, rd, 0, rs)]);
    assert copy + [Skip(BGEZ, 0, rs, 2)] + [RType(SUB, rd, 0, rs)] == AbsCode(rd, rs);
  }

  method RotateInst(seg: Segment, left: bool, rd: reg, rs: reg, rt: reg)
    requires seg.Valid()
    modifies seg
    ensures seg.Valid() && Follows(old(seg.Listed()), seg.Listed(), Plainly(RotateCode(left, rd, rs, rt)))
  {
    hide Follows, Segment.Valid, RType;
    ghost var l0 := seg.Listed();
    RTypeInst(seg, SUBU, 1, 0, rt);
    ghost var l1 := seg.Listed();
    RTypeInst(seg, if left then SRLV else SLLV, 1, 1, rs);
    ghost var l2 := seg.Listed();
    InTurnPlainly(l0, l1, l2, [RType(SUBU, 1, 0, rt)], [RType(if left then SRLV else SLLV, 1, 1, rs)]);
    RTypeInst(seg, if left then SLLV else SRLV, rd, rt, rs);
    ghost var l3 := seg.Listed();
    InTurnPlainly(l0, l2, l3, [RType(SUBU, 1, 0, rt)] + [RType(if left then SRLV else SLLV, 1, 1, rs)], [RType(if left then SLLV else SRLV, rd, rt, rs)]);
    RTypeInst(seg, OR, rd, rd, 1);
    ghost var l4 := seg.Listed();
    InTurnPlainly(l0, l3, l4, [RType(SUBU, 1, 0, rt)] + [RType(if left then SRLV else SLLV, 1, 1, rs)] + [RType(if left then SLLV else SRLV, rd, rt, rs)], [RType(OR, rd, rd, 1)]);
    assert [RType(SUBU, 1, 0, rt)] + [RType(if left then SRLV else SLLV, 1, 1, rs)] + [RType(if left then SLLV else SRLV, rd, rt, rs)] + [RType(OR, rd, rd, 1)] == RotateCode(left, rd, rs, rt);
  }

  method RotateImmediateInst(seg: Segment, left: bool, rd: reg, rs: reg, dist: int)
    requires seg.Valid()
    modifies seg
    ensures seg.Valid() && Follows(old(seg.Listed()), seg.Listed(), Plainly(RotateImmediateCode(left, rd, rs, dist)))
  {
    hide Follows, Segment.Valid, RType, ShiftType;
    ghost var l0 := seg.Listed();
    ShiftInst(seg, if left then SRL else SLL, 1, rs, -dist);
    ghost var l1 := seg.Listed();
    ShiftInst(seg, if left then SLL else SRL, rd, rs, dist);
    ghost var l2 := seg.Listed();
    InTurnPlainly(l0, l1, l2, [ShiftType(if left then SRL else SLL, 1, rs, -dist)], [ShiftType(if left then SLL else SRL, rd, rs, dist)]);
    RTypeInst(seg, OR, rd, rd, 1);
    ghost var l3 := seg.Listed();
    InTurnPlainly(l0, l2, l3, [ShiftType(if left then SRL else SLL, 1, rs, -dist)] + [ShiftType(if left then SLL else SRL, rd, rs, dist)], [RType(OR, rd, rd, 1)]);
    assert [ShiftType(if left then SRL else SLL, 1, rs, -dist)] + [ShiftType(if left then SLL else SRL, rd, rs, dist)] + [RType(OR, rd, rd, 1)] == RotateImmediateCode(left, rd, rs, dist);
  }

  // ---- Branches to a label -------------------------------------------------------------------------

  /** Plain instructions and then a branch to a label, known or not. */
  function ThenBranch(front: seq<Inst>, op: Opcode, rt: reg, rs: reg, symbol: Name): seq<Item> {
    Plainly(front) + [BranchTo(op, rt, rs, symbol, |front|)]
  }

  method BranchAfter(seg: Segment, ghost start: Listing, ghost front: seq<Inst>, op: Opcode, rt: reg, rs: reg,
                     symbol: Name, before: nat)
    requires seg.Valid() && Follows(start, seg.Listed(), Plainly(front))
    requires (op.BEQ? || op.BNE?) && before == |front| < 0x1000
    modifies seg
    ensures seg.Valid() && Follows(start, seg.Listed(), ThenBranch(front, op, rt, rs, symbol))
  {
    hide Follows, Segment.Valid;
    ghost var l1 := seg.Listed();
    seg.Assemble(BranchTo(op, rt, rs, symbol, before));
    InTurn(start, l1, seg.Listed(), Plainly(front), [BranchTo(op, rt, rs, symbol, before)]);
  }

  function BranchItems(op: Relation, rs: reg, rt: reg, symbol: Name): seq<Item>
    requires IsBranchPseudo(op)
  {
    ThenBranch([if Swapped(op) then RType(SetLessThan(op), 1, rt, rs) else RType(SetLessThan(op), 1, rs, rt)],
               if OnFailure(op) then BEQ else BNE, 0, 1, symbol)
  }

  method BranchInst(seg: Segment, op: Relation, rs: reg, rt: reg, symbol: Name)
    requires IsBranchPseudo(op)
    requires seg.Valid()
    modifies seg
    ensures seg.Valid() && Follows(old(seg.Listed()), seg.Listed(), BranchItems(op, rs, rt, symbol))
  {
    hide Follows, Segment.Valid, ThenBranch;
    ghost var start := seg.Listed();
    if op.GT? || op.GTU? {
      RTypeInst(seg, if op.GT? then SLT else SLTU, 1, rt, rs);
      BranchAfter(seg, start, [RType(SetLessThan(op), 1, rt, rs)], BNE, 0, 1, symbol, 1);
    } else if op.GE? || op.GEU? {
      RTypeInst(seg, if op.GE? then SLT else SLTU, 1, rs, rt);
      BranchAfter(seg, start, [RType(SetLessThan(op), 1, rs, rt)], BEQ, 0, 1, symbol, 1);
    } else if op.LT? || op.LTU? {
      RTypeInst(seg, if op.LT? then SLT else SLTU, 1, rs, rt);
      BranchAfter(seg, start, [RType(SetLessThan(op), 1, rs, rt)], BNE, 0, 1, symbol, 1);
    } else {
      RTypeInst(seg, if op.LE? then SLT else SLTU, 1, rt, rs);
      BranchAfter(seg, start, [RType(SetLessThan(op), 1, rt, rs)], BEQ, 0, 1, symbol, 1);
    }
  }

  /** A jump to a label, whichever of the four jumps is written. */
  method JumpInst(seg: Segment, op: Opcode, symbol: Name)
    requires IsJump(op)
    requires seg.Valid()
    modifies seg
    ensures seg.Valid()
    ensures Follows(old(seg.Listed()), seg.Listed(), [JumpTo(if op.JAL? || op.JALR? then JAL else J, symbol)])
  {
    hide Follows, Segment.Valid;
    if op.J? || op.JR? {
      seg.Assemble(JumpTo(J, symbol));
    } else {
      seg.Assemble(JumpTo(JAL, symbol));
    }
  }

  /** With an immediate operand. */
  function BranchImmediateItems(op: Relation, rs: reg, v: word, symbol: Name): seq<Item> {
    if op.EQ? || op.NE? then
      var branch := if op.EQ? then BEQ else BNE;
      if v == 0 then ThenBranch([], branch, rs, 0, symbol) else ThenBranch(Code(ORI, 1, 0, v), branch, rs, 1, symbol)
    else if op.GT? || op.LE? then
      ThenBranch(Code(SLTI, 1, rs, Wrap(v + 1)), if op.GT? then BEQ else BNE, 0, 1, symbol)
    else if op.GTU? then
      ThenBranch(Code(ORI, 1, 0, v) + [Skip(BEQ, rs, 1, 3)] + [RType(SLTU, 1, rs, 1)], BEQ, 0, 1, symbol)
    else if op.LEU? then
      ThenBranch(Code(ORI, 1, 0, v), BEQ, rs, 1, symbol)
      + [Plain(RType(SLTU, 1, rs, 1)), BranchTo(BNE, 0, 1, symbol, |Code(ORI, 1, 0, v)| + 2)]
    else
      ThenBranch(Code(if IsUnsigned(op) then SLTIU else SLTI, 1, rs, v), if OnFailure(op) then BEQ else BNE, 0, 1, symbol)
  }

  lemma ShortCode(op: Opcode, rt: reg, rs: reg, v: word)
    requires IsComputation(op)
    ensures |Code(op, rt, rs, v)| <= 3
  {
    hide Code, Fits, ProduceImmediate;
    CodeShape(op, rt, rs, v);
    ProduceShape(rt, v);
    ProduceShape(1, v);
  }

  /** The number of instructions that load the operand. */
  method CountOf(op: Opcode, rt: reg, rs: reg, v: word) returns (n: nat)
    requires IsComputation(op)
    ensures n == |Code(op, rt, rs, v)| <= 3
  {
    ShortCode(op, rt, rs, v);
    n := |Code(op, rt, rs, v)|;
  }

  /** A comparison into $1, or a constant, and a branch on it. */
  method LoadAndBranch(seg: Segment, load: Opcode, rs: reg, v: word, branch: Opcode, rt: reg, tested: reg, symbol: Name)
    requires IsComputation(load) && (branch.BEQ? || branch.BNE?)
    requires seg.Valid()
    modifies seg
    ensures seg.Valid() && Follows(old(seg.Listed()), seg.Listed(), ThenBranch(Code(load, 1, rs, v), branch, rt, tested, symbol))
  {
    hide Follows, Segment.Valid, ThenBranch, Code, IsComputation;
    ghost var start := seg.Listed();
    var before := CountOf(load, 1, rs, v);
    assert TakesImmediate(load);
    LoadWhole(seg, load, 1, rs, v);
    BranchAfter(seg, start, Code(load, 1, rs, v), branch, rt, tested, symbol, before);
  }

  method BranchImmediateInst(seg: Segment, op: Relation, rs: reg, v: word, symbol: Name)
    requires seg.Valid()
    modifies seg
    ensures seg.Valid() && Follows(old(seg.Listed()), seg.Listed(), BranchImmediateItems(op, rs, v, symbol))
  {
    hide Follows, Segment.Valid, ThenBranch, Code, Skip;
    if op.EQ? || op.NE? {
      var branch := if op.EQ? then BEQ else BNE;
      if v == 0 {
        NoItems(seg.Listed());
        BranchAfter(seg, seg.Listed(), [], branch, rs, 0, symbol, 0);
      } else {
        LoadAndBranch(seg, ORI, 0, v, branch, rs, 1, symbol);
      }
    } else if op.GT? {
      LoadAndBranch(seg, SLTI, rs, Wrap((v as int) + 1), BEQ, 0, 1, symbol);
    } else if op.LE? {
      LoadAndBranch(seg, SLTI, rs, Wrap((v as int) + 1), BNE, 0, 1, symbol);
    } else if op.GTU? {
      AboveInst(seg, rs, v, symbol);
    } else if op.LEU? {
      NotAboveInst(seg, rs, v, symbol);
    } else if op.GE? || op.GEU? {
      LoadAndBranch(seg, if op.GE? then SLTI else SLTIU, rs, v, BEQ, 0, 1, symbol);
    } else {
      LoadAndBranch(seg, if op.LT? then SLTI else SLTIU, rs, v, BNE, 0, 1, symbol);
    }
  }

  /** Unsigned > and <= test for equality first. */
  method AboveInst(seg: Segment, rs: reg, v: word, symbol: Name)
    requires seg.Valid()
    modifies seg
    ensures seg.Valid() && Follows(old(seg.Listed()), seg.Listed(), BranchImmediateItems(GTU, rs, v, symbol))
  {
    hide Follows, Segment.Valid, ThenBranch, Code, Skip, RType;
    var count := CountOf(ORI, 1, 0, v);
    ghost var l0 := seg.Listed();
    LoadWhole(seg, ORI, 1, 0, v);
    ghost var l1 := seg.Listed();
    BranchBy(seg, BEQ, rs, 1, 3);
    ghost var l2 := seg.Listed();
    InTurnPlainly(l0, l1, l2, Code(ORI, 1, 0, v), [Skip(BEQ, rs, 1, 3)]);
    RTypeInst(seg, SLTU, 1, rs, 1);
    ghost var l3 := seg.Listed();
    InTurnPlainly(l0, l2, l3, Code(ORI, 1, 0, v) + [Skip(BEQ, rs, 1, 3)], [RType(SLTU, 1, rs, 1)]);
    BranchAfter(seg, l0, Code(ORI, 1, 0, v) + [Skip(BEQ, rs, 1, 3)] + [RType(SLTU, 1, rs, 1)], BEQ, 0, 1, symbol, count + 2);
  }

  method NotAboveInst(seg: Segment, rs: reg, v: word, symbol: Name)
    requires seg.Valid()
    modifies seg
    ensures seg.Valid() && Follows(old(seg.Listed()), seg.Listed(), BranchImmediateItems(LEU, rs, v, symbol))
  {
    hide Follows, Segment.Valid, ThenBranch, Code, RType;
    var count := CountOf(ORI, 1, 0, v);
    ghost var l0 := seg.Listed();
    LoadAndBranch(seg, ORI, 0, v, BEQ, rs, 1, symbol);
    ghost var l1 := seg.Listed();
    ghost var front := ThenBranch(Code(ORI, 1, 0, v), BEQ, rs, 1, symbol);
    seg.Assemble(Plain(RType(SLTU, 1, rs, 1)));
    ghost var l2 := seg.Listed();
    InTurn(l0, l1, l2, front, [Plain(RType(SLTU, 1, rs, 1))]);
    seg.Assemble(BranchTo(BNE, 0, 1, symbol, count + 2));
    ghost var last := [BranchTo(BNE, 0, 1, symbol, count + 2)];
    InTurn(l0, l2, seg.Listed(), front + [Plain(RType(SLTU, 1, rs, 1))], last);
    assert front + [Plain(RType(SLTU, 1, rs, 1))] + last == BranchImmediateItems(LEU, rs, v, symbol);
  }

  // ---- Unaligned accesses --------------------------------------------------------------------------

  method UlwInst(seg: Segment, rd: reg, rs: reg, v: word)
    requires seg.Valid()
    modifies seg
    ensures seg.Valid() && Follows(old(seg.Listed()), seg.Listed(), Plainly(UlwCode(rd, rs, v)))
  {
    hide Follows, Segment.Valid, Code;
    ghost var l0 := seg.Listed();
    LoadWhole(seg, LWL, rd, rs, Wrap((v as int) + 3));
    ghost var l1 := seg.Listed();
    LoadWhole(seg, LWR, rd, rs, v);
    ghost var l2 := seg.Listed();
    InTurnPlainly(l0, l1, l2, Code(LWL, rd, rs, Wrap((v as int) + 3)), Code(LWR, rd, rs, v));
  }

  method UswInst(seg: Segment, rt: reg, rs: reg, v: word)
    requires seg.Valid()
    modifies seg
    ensures seg.Valid() && Follows(old(seg.Listed()), seg.Listed(), Plainly(UswCode(rt, rs, v)))
  {
    hide Follows, Segment.Valid, Code;
    ghost var l0 := seg.Listed();
    LoadWhole(seg, SWL, rt, rs, Wrap((v as int) + 3));
    ghost var l1 := seg.Listed();
    LoadWhole(seg, SWR, rt, rs, v);
    ghost var l2 := seg.Listed();
    InTurnPlainly(l0, l1, l2, Code(SWL, rt, rs, Wrap((v as int) + 3)), Code(SWR, rt, rs, v));
  }

  method UlhInst(seg: Segment, signed: bool, rd: reg, rs: reg, v: word)
    requires seg.Valid()
    modifies seg
    ensures seg.Valid() && Follows(old(seg.Listed()), seg.Listed(), Plainly(UlhCode(signed, rd, rs, v)))
  {
    hide Follows, Segment.Valid, Code, RType, ShiftType;
    var op := if signed then LB else LBU;
    ghost var l0 := seg.Listed();
    LoadWhole(seg, op, rd, rs, Wrap((v as int) + 1));
    ghost var l1 := seg.Listed();
    LoadWhole(seg, LBU, 1, rs, v);
    ghost var l2 := seg.Listed();
    InTurnPlainly(l0, l1, l2, Code(op, rd, rs, Wrap((v as int) + 1)), Code(LBU, 1, rs, v));
    ShiftInst(seg, SLL, rd, rd, 8);
    ghost var l3 := seg.Listed();
    InTurnPlainly(l0, l2, l3, Code(op, rd, rs, Wrap((v as int) + 1)) + Code(LBU, 1, rs, v), [ShiftType(SLL, rd, rd, 8)]);
    RTypeInst(seg, OR, rd, rd, 1);
    ghost var l4 := seg.Listed();
    InTurnPlainly(l0, l3, l4, Code(op, rd, rs, Wrap((v as int) + 1)) + Code(LBU, 1, rs, v) + [ShiftType(SLL, rd, rd, 8)], [RType(OR, rd, rd, 1)]);
    assert Code(op, rd, rs, Wrap((v as int) + 1)) + Code(LBU, 1, rs, v) + [ShiftType(SLL, rd, rd, 8)] + [RType(OR, rd, rd, 1)] == UlhCode(signed, rd, rs, v);
  }

  /** The rotation by 8 bits that USH makes twice. */
  method RotateByte(seg: Segment, right: bool, rt: reg)
    requires seg.Valid()
    modifies seg
    ensures seg.Valid() && Follows(old(seg.Listed()), seg.Listed(), Plainly(RotateBy8(right, rt)))
  {
    hide Follows, Segment.Valid, RType, ShiftType;
    ghost var l0 := seg.Listed();
    ShiftInst(seg, if right then SLL else SRL, 1, rt, 24);
    ghost var l1 := seg.Listed();
    ShiftInst(seg, if right then SRL else SLL, rt, rt, 8);
    ghost var l2 := seg.Listed();
    InTurnPlainly(l0, l1, l2, [ShiftType(if right then SLL else SRL, 1, rt, 24)], [ShiftType(if right then SRL else SLL, rt, rt, 8)]);
    RTypeInst(seg, OR, rt, rt, 1);
    ghost var l3 := seg.Listed();
    InTurnPlainly(l0, l2, l3, [ShiftType(if right then SLL else SRL, 1, rt, 24)] + [ShiftType(if right then SRL else SLL, rt, rt, 8)], [RType(OR, rt, rt, 1)]);
    assert [ShiftType(if right then SLL else SRL, 1, rt, 24)] + [ShiftType(if right then SRL else SLL, rt, rt, 8)] + [RType(OR, rt, rt, 1)] == RotateBy8(right, rt);
  }

  method UshInst(seg: Segment, rt: reg, rs: reg, v: word)
    requires seg.Valid()
    modifies seg
    ensures seg.Valid() && Follows(old(seg.Listed()), seg.Listed(), Plainly(UshCode(rt, rs, v)))
  {
    hide Follows, Segment.Valid, Code, RotateBy8;
    ghost var l0 := seg.Listed();
    LoadWhole(seg, SB, rt, rs, v);
    ghost var l1 := seg.Listed();
    RotateByte(seg, true, rt);
    ghost var l2 := seg.Listed();
    InTurnPlainly(l0, l1, l2, Code(SB, rt, rs, v), RotateBy8(true, rt));
    LoadWhole(seg, SB, rt, rs, Wrap((v as int) + 1));
    ghost var l3 := seg.Listed();
    InTurnPlainly(l0, l2, l3, Code(SB, rt, rs, v) + RotateBy8(true, rt), Code(SB, rt, rs, Wrap((v as int) + 1)));
    RotateByte(seg, false, rt);
    ghost var l4 := seg.Listed();
    InTurnPlainly(l0, l3, l4, Code(SB, rt, rs, v) + RotateBy8(true, rt) + Code(SB, rt, rs, Wrap((v as int) + 1)), RotateBy8(false, rt));
  }
}
