/** The assembler's immediate instructions.

    An immediate field has 16 bits but a source operand may have 32, so one source instruction can
    become up to three real ones that build the operand in $1.  The recursion between the three
    emitting routines is kept; the theorems say what the emitted code computes. */
module Immediates {
  import opened Words
  import opened Isa

  /** Which part of a constant expression an instruction wants. */
  datatype Part = Whole | Upper16 | Lower16

  /** An immediate expression without a symbol. */
  datatype Constant = Constant(offset: word, part: Part)

  function Evaluate(e: Constant): word {
    match e.part
    case Whole => e.offset
    case Upper16 => e.offset / TWO16
    case Lower16 => e.offset % TWO16
  }

  function UpperBits(e: Constant): Constant {
    e.(part := Upper16)
  }

  function LowerBits(e: Constant): Constant {
    e.(part := Lower16)
  }

  predicate IsLoadStore(op: Opcode) {
    op.LB? || op.LBU? || op.LH? || op.LHU? || op.LL? || op.LW? || op.LWL? || op.LWR? || op.SB? || op.SC? || op.SH? || op.SW? || op.SWL? || op.SWR?
  }

  predicate IsComputation(op: Opcode) {
    op.ADDI? || op.ADDIU? || op.SLTI? || op.SLTIU? || op.ANDI? || op.ORI? || op.XORI?
  }

  /** The opcodes the emitter accepts; for any other the assembler stops with a fatal error. */
  predicate TakesImmediate(op: Opcode) {
    IsLoadStore(op) || IsBranch(op) || IsComputation(op) || op.LUI?
  }

  function ImmediateOpToOp(op: Opcode): Opcode
    requires IsComputation(op) || op.LUI?
  {
    match op
    case ADDI => ADD
    case ADDIU => ADDU
    case ANDI => AND
    case ORI => OR
    case XORI => XOR
    case SLTI => SLT
    case SLTIU => SLTU
    case _ => ADDU
  }

  /** Does value v need no more than the field of the instruction? */
  predicate Fits(op: Opcode, v: word) {
    if (op.ADDI? || op.ADDIU? || op.SLTI? || op.SLTIU?) then v / 0x8000 == 0 || v / 0x8000 == 0x1ffff
    else v / TWO16 == 0
  }

  /** The field of a branch: the 16-bit byte distance, sign-extended and counted in words. */
  function BranchField(v: word): short {
    var distance := if v % TWO16 >= 0x8000 then v % TWO16 - TWO16 else Signed(v);
    ToShort(distance / 4)
  }

  function Field(op: Opcode, v: word): short {
    if IsBranch(op) then BranchField(v) else ToShort(v)
  }

  function Emit(op: Opcode, rt: reg, rs: reg, e: Constant): seq<Inst>
    requires TakesImmediate(op)
    decreases if Fits(op, Evaluate(e)) then 0 else 3
  {
    var v := Evaluate(e);
    if Fits(op, v) then [IType(op, rt, rs, Field(op, v))] else EmitFullWord(op, rt, rs, e, v)
  }

  function EmitFullWord(op: Opcode, rt: reg, rs: reg, e: Constant, v: word): seq<Inst>
    requires TakesImmediate(op)
    decreases 2
  {
    if IsLoadStore(op) then
      var high, low := v / TWO16, v % TWO16;
      if high != 0 && !(high == 0xffff && low >= 0x8000) then
        // The access sign-extends its low half, which the high half makes up for.
        var adjusted := if low >= 0x8000 then high + 1 else high;
        Emit(LUI, 1, 0, Constant(adjusted, Whole))
        + (if rs != 0 then [RType(ADDU, 1, 1, rs)] else [])
        + Emit(op, rt, 1, Constant(low, Whole))
      else
        Emit(op, rt, rs, Constant(low, Whole))
    else if IsBranch(op) then
      Emit(op, rt, rs, LowerBits(e))
    else if (op.ORI? || op.ADDI? || op.ADDIU? || op.LUI?) && rs == 0 then
      ProduceImmediate(e, rt, v)
    else
      ProduceImmediate(e, 1, v) + [RType(ImmediateOpToOp(op), rt, rs, 1)]
  }

  function ProduceImmediate(e: Constant, rt: reg, v: word): seq<Inst>
    decreases 1
  {
    if v % TWO16 == 0 then Emit(LUI, rt, 0, UpperBits(e))
    else if v / TWO16 == 0 then Emit(ORI, rt, 0, LowerBits(e))
    else Emit(LUI, 1, 0, UpperBits(e)) + Emit(ORI, rt, 1, LowerBits(e))
  }

  /** The code for `op rt, rs, v`, for a 32-bit constant v. */
  function Code(op: Opcode, rt: reg, rs: reg, v: word): seq<Inst>
    requires TakesImmediate(op)
  {
    Emit(op, rt, rs, Constant(v, Whole))
  }

  // ---- What the source instruction means ---------------------------------------------------

  datatype Meaning = Value(v: word) | Overflows

  /** The operation with its full 32-bit operand. */
  function Meant(op: Opcode, a: word, v: word): Meaning
    requires IsComputation(op)
  {
    match op
    case ADDI =>
      var sum := Signed(a) + Signed(v);
      if -0x8000_0000 <= sum < 0x8000_0000 then Value(Wrap(sum)) else Overflows
    case ADDIU => Value(Wrap(a + v))
    case SLTI => Value(Flag(Signed(a) < Signed(v)))
    case SLTIU => Value(Flag(a < v))
    case ANDI => Value(And(a, v))
    case ORI => Value(Or(a, v))
    case _ => Value(Xor(a, v))
  }

  /** s and t differ in general registers outside `changed` and in PC alone. */
  ghost predicate OnlyRegs(s: State, t: State, changed: set<reg>) {
    && SameRegsExcept(s, t, changed)
    && t.HI == s.HI && t.LO == s.LO && t.mem == s.mem
  }

  // ---- Building a constant ------------------------------------------------------------------

  lemma LuiOri(v: word)
    ensures Or(v / TWO16 * TWO16, v % TWO16) == v
    ensures Or(0, v % TWO16) == v % TWO16
  {
    Pow2Values();
    OrIsPlus(v / TWO16 * TWO16, v % TWO16, 16);
    OrIsPlus(0, v % TWO16, 16);
  }

  lemma ShortRoundTrip(h: half)
    ensures Unsigned16(ToShort(h)) == h
  {
  }

  lemma FirstTwo(text: Text, base: int, code: seq<Inst>)
    requires Placed(text, base, code)
    ensures |code| > 0 ==> base in text && text[base] == code[0]
    ensures |code| > 1 ==> base + 4 in text && text[base + 4] == code[1]
    ensures |code| > 2 ==> base + 8 in text && text[base + 8] == code[2]
  {
    assert |code| > 0 ==> base + 4 * 0 in text && text[base + 4 * 0] == code[0];
    assert |code| > 1 ==> base + 4 * 1 in text && text[base + 4 * 1] == code[1];
    assert |code| > 2 ==> base + 4 * 2 in text && text[base + 4 * 2] == code[2];
  }

  lemma ProduceShape(rt: reg, v: word)
    ensures ProduceImmediate(Constant(v, Whole), rt, v)
            == if v % TWO16 == 0 then [IType(LUI, rt, 0, ToShort(v / TWO16))]
               else if v / TWO16 == 0 then [IType(ORI, rt, 0, ToShort(v % TWO16))]
               else [IType(LUI, 1, 0, ToShort(v / TWO16)), IType(ORI, rt, 1, ToShort(v % TWO16))]
  {
  }

  lemma DoLuiOrOri(s: State, rt: reg, rs: reg, upper: short, lower: short)
    ensures Perform(IType(LUI, rt, rs, upper), s) == After(s, rt, Unsigned16(upper) * TWO16)
    ensures Perform(IType(ORI, rt, rs, lower), s) == After(s, rt, Or(Reg(s, rs), Unsigned16(lower)))
  {
    hide Perform, Or, Unsigned16, Reg;
    DoImmediateOp(s, IType(LUI, rt, rs, upper));
    DoImmediateOp(s, IType(ORI, rt, rs, lower));
  }

  /** The produced code leaves v in rt, and touches nothing but rt and $1. */
  lemma ProduceCorrect(text: Text, s: State, rt: reg, v: word) returns (n: nat)
    requires s.outcome == Running
    requires Placed(text, s.PC, ProduceImmediate(Constant(v, Whole), rt, v))
    ensures n == |ProduceImmediate(Constant(v, Whole), rt, v)| <= 2
    ensures var t := Run(text, s, n);
      && t.outcome == Running && t.PC == s.PC + 4 * n
      && t.R[rt] == v && OnlyRegs(s, t, {1, rt})
  {
    hide Perform, ProduceImmediate, Or, ToShort;
    var code := ProduceImmediate(Constant(v, Whole), rt, v);
    ProduceShape(rt, v);
    FirstTwo(text, s.PC, code);
    LuiOri(v);
    ShortRoundTrip(v / TWO16);
    ShortRoundTrip(v % TWO16);
    n := |code|;
    assert Run(text, s, 0) == s;
    hide Run;
    DoLuiOrOri(s, rt, 0, ToShort(v / TWO16), ToShort(v % TWO16));
    StepTo(text, s, 0, s, code[0]);
    if n == 2 {
      DoLuiOrOri(s, 1, 0, ToShort(v / TWO16), 0);
      var s1 := After(s, 1, v / TWO16 * TWO16);
      DoLuiOrOri(s1, rt, 1, 0, ToShort(v % TWO16));
      StepTo(text, s, 1, s1, code[1]);
    }
  }

  // ---- The computation instructions ---------------------------------------------------------

  function MeantState(s: State, rt: reg, m: Meaning): State {
    match m
    case Value(v) => After(s, rt, v)
    case Overflows => Trapped(s, OVERFLOW)
  }

  lemma FieldMeans(op: Opcode, v: word)
    requires IsComputation(op) && Fits(op, v)
    ensures (op.ADDI? || op.ADDIU? || op.SLTI? || op.SLTIU?) ==> ToShort(v) == Signed(v) && Wrap(ToShort(v)) == v
    ensures (op.ANDI? || op.ORI? || op.XORI?) ==> Unsigned16(ToShort(v)) == v
  {
  }

  lemma ImmediateFormMeans(op: Opcode, a: word, v: word)
    requires IsComputation(op) && !op.ADDI? && Fits(op, v)
    ensures IsImmediateOp(op)
    ensures Meant(op, a, v) == Value(ImmediateOp(op, a, ToShort(v)))
  {
    FieldMeans(op, v);
    hide Meant, ImmediateOp, ToShort, Fits, Wrap, Signed, Unsigned16;
    if op.ADDIU? {
      WrapSum(a, v);
    }
    MeansField(op, a, v, ToShort(v));
  }

  lemma MeansField(op: Opcode, a: word, v: word, field: short)
    requires IsComputation(op) && !op.ADDI?
    requires op.ADDIU? ==> Wrap(a + v) == Wrap(a + field)
    requires op.SLTI? || op.SLTIU? ==> field == Signed(v) && Wrap(field) == v
    requires op.ANDI? || op.ORI? || op.XORI? ==> Unsigned16(field) == v
    ensures IsImmediateOp(op) && Meant(op, a, v) == Value(ImmediateOp(op, a, field))
  {
    hide Or, And, Xor, Wrap, Signed, Unsigned16;
  }

  // A value that fits its field: the one instruction means the operation itself.
  lemma OneInstruction(s: State, op: Opcode, rt: reg, rs: reg, v: word)
    requires IsComputation(op) && Fits(op, v)
    ensures Perform(IType(op, rt, rs, ToShort(v)), s) == MeantState(s, rt, Meant(op, Reg(s, rs), v))
  {
    hide Perform, ImmediateOp, IsImmediateOp, ToShort, Fits, Wrap;
    var i := IType(op, rt, rs, ToShort(v));
    if op.ADDI? {
      FieldMeans(op, v);
      DoChecked(s, i);
    } else {
      hide Meant;
      ImmediateFormMeans(op, Reg(s, rs), v);
      DoImmediateOp(s, i);
    }
  }

  lemma WrapSum(a: word, v: word)
    ensures Wrap(a + Signed(v)) == Wrap(a + v)
    ensures Wrap(Signed(a) + Signed(v)) == Wrap(a + v)
  {
  }

  lemma RegisterFormMeans(op: Opcode, a: word, v: word)
    requires IsComputation(op) && !op.ADDI?
    ensures IsRegisterOp(ImmediateOpToOp(op))
    ensures Meant(op, a, v) == Value(RegisterOp(ImmediateOpToOp(op), a, v))
  {
    hide Or, And, Xor, Wrap, Signed;
  }

  // The register form of the operation on an operand already in $1.
  lemma RegisterForm(s: State, op: Opcode, rt: reg, rs: reg, v: word)
    requires IsComputation(op) && s.R[1] == v
    ensures Perform(RType(ImmediateOpToOp(op), rt, rs, 1), s) == MeantState(s, rt, Meant(op, Reg(s, rs), v))
  {
    hide Perform, RegisterOp, IsRegisterOp;
    var i := RType(ImmediateOpToOp(op), rt, rs, 1);
    if op.ADDI? {
      DoChecked(s, i);
      WrapSum(Reg(s, rs), v);
    } else {
      hide Meant, ImmediateOpToOp;
      RegisterFormMeans(op, Reg(s, rs), v);
      DoRegisterOp(s, i);
    }
  }

  lemma OrZero(v: word)
    ensures Or(0, v) == v
  {
    hide Bits;
    Pow2Values();
    BitsZero(OrGate, v, 32);
    SmallModulo(v, TWO32);
  }

  lemma ZeroOperand(op: Opcode, v: word)
    requires (op.ORI? || op.ADDI? || op.ADDIU?)
    ensures Meant(op, 0, v) == Value(v)
  {
    hide Or;
    OrZero(v);
  }

  lemma CodeShape(op: Opcode, rt: reg, rs: reg, v: word)
    requires IsComputation(op)
    ensures Code(op, rt, rs, v)
            == if Fits(op, v) then [IType(op, rt, rs, ToShort(v))]
               else if (op.ORI? || op.ADDI? || op.ADDIU?) && rs == 0 then ProduceImmediate(Constant(v, Whole), rt, v)
               else ProduceImmediate(Constant(v, Whole), 1, v) + [RType(ImmediateOpToOp(op), rt, rs, 1)]
  {
    assert !IsBranch(op) && !IsLoadStore(op);
    var e := Constant(v, Whole);
    if !Fits(op, v) {
      assert Emit(op, rt, rs, e) == EmitFullWord(op, rt, rs, e, v);
    }
  }

  /** Does the 16-bit field, extended as the operation extends it, give the constant back? */
  predicate Extends(op: Opcode, v: word) {
    if op.ANDI? || op.ORI? || op.XORI? then Unsigned16(ToShort(v)) == v else Wrap(ToShort(v)) == v
  }

  /** How many instructions a computation takes: the one itself when its field can hold the constant; else
      those that produce the constant, one if a half of it is 0, and the register form, unless the
      constant is the result.  A single one leaves $1 alone. */
  lemma ComputationLength(op: Opcode, rt: reg, rs: reg, v: word)
    requires IsComputation(op)
    ensures var n, code := if v % TWO16 == 0 || v / TWO16 == 0 then 1 else 2, Code(op, rt, rs, v);
      && |code| == (if Extends(op, v) then 1 else if (op.ORI? || op.ADDI? || op.ADDIU?) && rs == 0 then n else n + 1)
      && (|code| == 1 ==> code[0].rt == rt)
  {
    CodeShape(op, rt, rs, v);
    ProduceShape(rt, v);
    ProduceShape(1, v);
    FieldHolds(op, v);
    hide Code, ProduceImmediate, Fits, ToShort, Extends;
  }

  lemma FieldHolds(op: Opcode, v: word)
    requires IsComputation(op)
    ensures Fits(op, v) <==> Extends(op, v)
  {
    if op.ANDI? || op.ORI? || op.XORI? {
    } else if v % TWO16 < 0x8000 {
      SmallWrap(v % TWO16);
    } else {
      WrapNear(v % TWO16 - TWO16);
    }
  }

  /** How a computation ends: with r in rt, or in an overflow trap that leaves rt alone. */
  ghost predicate Computed(s: State, t: State, n: nat, rt: reg, m: Meaning) {
    match m
    case Value(r) =>
      && t.outcome == Running && t.PC == s.PC + 4 * n
      && t.R[rt] == r && OnlyRegs(s, t, {1, rt})
    case Overflows =>
      && t.outcome == Trap(OVERFLOW) && t.PC == s.PC + 4 * (n - 1) && OnlyRegs(s, t, {1})
  }

  // The operand is built in $1 and the register form of the operation follows.
  lemma ThroughAt(text: Text, s: State, op: Opcode, rt: reg, rs: reg, v: word) returns (n: nat)
    requires IsComputation(op) && rs != 1 && s.outcome == Running
    requires Placed(text, s.PC, ProduceImmediate(Constant(v, Whole), 1, v) + [RType(ImmediateOpToOp(op), rt, rs, 1)])
    ensures n == |ProduceImmediate(Constant(v, Whole), 1, v)| + 1 <= 3
    ensures Computed(s, Run(text, s, n), n, rt, Meant(op, Reg(s, rs), v))
  {
    hide Run, Perform, ProduceImmediate, Meant, ImmediateOpToOp, IsComputation;
    var front := ProduceImmediate(Constant(v, Whole), 1, v);
    var last := RType(ImmediateOpToOp(op), rt, rs, 1);
    PlacedParts(text, s.PC, front, [last]);
    var m := ProduceCorrect(text, s, 1, v);
    var t := Run(text, s, m);
    FirstTwo(text, s.PC + 4 * m, [last]);
    StepTo(text, s, m, t, last);
    RegisterForm(t, op, rt, rs, v);
    SmallWrap(t.PC + 4);
    hide Wrap;
    n := m + 1;
  }

  /** The code for a computation instruction with any 32-bit operand is at most three instructions
      and leaves in rt exactly what the operation on the full operand gives; when the signed sum of
      ADDI overflows, the code traps with rt untouched. */
  lemma ComputationCorrect(text: Text, s: State, op: Opcode, rt: reg, rs: reg, v: word) returns (n: nat)
    requires IsComputation(op) && rs != 1
    requires s.outcome == Running && Placed(text, s.PC, Code(op, rt, rs, v))
    ensures n == |Code(op, rt, rs, v)| <= 3
    ensures Computed(s, Run(text, s, n), n, rt, Meant(op, Reg(s, rs), v))
  {
    hide Perform, ProduceImmediate, Meant, ImmediateOpToOp, Code, Fits, IsComputation;
    var code := Code(op, rt, rs, v);
    CodeShape(op, rt, rs, v);
    assert Run(text, s, 0) == s;
    hide Run;
    if Fits(op, v) {
      FirstTwo(text, s.PC, code);
      StepTo(text, s, 0, s, code[0]);
      OneInstruction(s, op, rt, rs, v);
      n := 1;
    } else if (op.ORI? || op.ADDI? || op.ADDIU?) && rs == 0 {
      ZeroOperand(op, v);
      n := ProduceCorrect(text, s, rt, v);
    } else {
      n := ThroughAt(text, s, op, rt, rs, v);
    }
  }

  // SUB and SUBU take an immediate by adding its negation.
  function TrueDifference(a: word, v: word): Meaning {
    var difference := Signed(a) - Signed(v);
    if -0x8000_0000 <= difference < 0x8000_0000 then Value(Wrap(difference)) else Overflows
  }

  function Negated(v: word): word {
    Wrap(0 - v)
  }

  /** `sub rd, rs, v` is emitted as ADDI of -v.  That is the subtraction, overflow included, for
      every register value exactly when v is not the most negative word, which is its own
      negation. */
  lemma SubtractImmediate(v: word)
    ensures (forall a: word :: Meant(ADDI, a, Negated(v)) == TrueDifference(a, v)) <==> v != 0x8000_0000
  {
    if v == 0x8000_0000 {
      assert Meant(ADDI, 0, Negated(v)) != TrueDifference(0, v);
    } else {
      hide Wrap;
      WrapNear(0 - v);
      assert Signed(Negated(v)) == -Signed(v);
    }
  }

  // ---- Loads and stores ---------------------------------------------------------------------

  function EffectiveAddress(i: Inst, s: State): word {
    Wrap(Reg(s, i.rs) + i.imm)
  }

  /** The offsets the assembler gets wrong: it sees that they fit 16 bits, but the machine
      sign-extends the field. */
  predicate Misassembled(offset: word) {
    0x8000 <= offset < TWO16
  }

  function AdjustedHigh(v: word): nat {
    if v % TWO16 >= 0x8000 then v / TWO16 + 1 else v / TWO16
  }

  predicate NeedsOneInstruction(v: word) {
    v / TWO16 == 0 || (v / TWO16 == 0xffff && v % TWO16 >= 0x8000)
  }

  lemma AccessShape(op: Opcode, rt: reg, rs: reg, v: word)
    requires IsLoadStore(op)
    ensures Code(op, rt, rs, v)
            == if NeedsOneInstruction(v)
               then [IType(op, rt, rs, ToShort(v))]
               else [IType(LUI, 1, 0, ToShort(AdjustedHigh(v)))]
                    + (if rs != 0 then [RType(ADDU, 1, 1, rs)] else [])
                    + [IType(op, rt, 1, ToShort(v))]
    ensures AdjustedHigh(v) < TWO16 || NeedsOneInstruction(v)
  {
    assert !IsBranch(op) && !(op.ADDI? || op.ADDIU? || op.SLTI? || op.SLTIU?);
    var e, low := Constant(v, Whole), v % TWO16;
    assert ToShort(low) == ToShort(v);
    if !Fits(op, v) {
      assert Emit(op, rt, rs, e) == EmitFullWord(op, rt, rs, e, v);
      assert Emit(op, rt, 1, Constant(low, Whole)) == [IType(op, rt, 1, ToShort(v))];
      assert Emit(op, rt, rs, Constant(low, Whole)) == [IType(op, rt, rs, ToShort(v))];
      if AdjustedHigh(v) < TWO16 {
        assert Emit(LUI, 1, 0, Constant(AdjustedHigh(v), Whole)) == [IType(LUI, 1, 0, ToShort(AdjustedHigh(v)))];
      }
    }
  }

  /** An access takes one instruction for an offset that fits 16 bits, signed or not, and otherwise a LUI,
      and an ADDU if it has a base register. */
  lemma AccessLength(op: Opcode, rt: reg, rs: reg, v: word)
    requires IsLoadStore(op)
    ensures |Code(op, rt, rs, v)| == if v < TWO16 || v >= TWO32 - 0x8000 then 1 else if rs == 0 then 2 else 3
  {
    AccessShape(op, rt, rs, v);
    hide Code, ToShort, AdjustedHigh, IsLoadStore;
  }

  // The adjusted high half and the sign-extended low half add up to v.
  lemma HalvesAddUp(v: word, base: word)
    requires AdjustedHigh(v) < TWO16
    ensures Wrap(AdjustedHigh(v) * TWO16 + ToShort(v)) == v
    ensures Wrap(Wrap(AdjustedHigh(v) * TWO16 + base) + ToShort(v)) == Wrap(base + v)
  {
    var low := v % TWO16;
    assert v == v / TWO16 * TWO16 + low;
    assert AdjustedHigh(v) * TWO16 + ToShort(v) == v;
  }

  lemma SmallOffset(v: word, base: word)
    requires NeedsOneInstruction(v)
    ensures Wrap(base + ToShort(v)) == Wrap(base + v) <==> !Misassembled(v)
  {
    if v / TWO16 == 0 {
      if v >= 0x8000 {
        assert ToShort(v) == v - TWO16;
      }
    } else {
      assert ToShort(v) == v - TWO32;
    }
  }

  lemma MisassembledNeedsOne(v: word)
    ensures Misassembled(v) ==> NeedsOneInstruction(v)
  {
  }

  // The part of a split access that comes before the access: $1 gets R[rs] plus the high half.
  lemma HighPart(text: Text, s: State, rs: reg, high: half, rest: seq<Inst>)
    requires rs != 1 && s.outcome == Running
    requires Placed(text, s.PC, [IType(LUI, 1, 0, ToShort(high))] + (if rs != 0 then [RType(ADDU, 1, 1, rs)] else []) + rest)
    ensures var n := if rs == 0 then 1 else 2;
      var t := Run(text, s, n);
      && t.outcome == Running && t.PC == s.PC + 4 * n && OnlyRegs(s, t, {1})
      && t.R[1] == Wrap(high * TWO16 + Reg(s, rs))
  {
    hide Run, Perform, ToShort, Wrap;
    var code := [IType(LUI, 1, 0, ToShort(high))] + (if rs != 0 then [RType(ADDU, 1, 1, rs)] else []) + rest;
    FirstTwo(text, s.PC, code);
    LuiFirst(text, s, high);
    SmallWrap(s.PC + 4);
    SmallWrap(high * TWO16);
    if rs != 0 {
      hide Placed;
      SmallWrap(s.PC + 8);
      var s1 := After(s, 1, high * TWO16);
      AddTo1(s1, rs);
      StepTo(text, s, 1, s1, code[1]);
    }
  }

  lemma LuiFirst(text: Text, s: State, high: half)
    requires s.outcome == Running && s.PC in text && text[s.PC] == IType(LUI, 1, 0, ToShort(high))
    ensures Run(text, s, 1) == After(s, 1, high * TWO16)
  {
    hide Perform, ToShort, Wrap;
    assert Run(text, s, 0) == s;
    ShortRoundTrip(high);
    DoLuiOrOri(s, 1, 0, ToShort(high), 0);
    StepTo(text, s, 0, s, text[s.PC]);
  }

  lemma AddTo1(s: State, rs: reg)
    ensures Perform(RType(ADDU, 1, 1, rs), s) == After(s, 1, Wrap(s.R[1] + Reg(s, rs)))
  {
    hide Perform, Wrap;
    DoRegisterOp(s, RType(ADDU, 1, 1, rs));
  }

  /** The machine stands before an access of the whole address: only $1 has changed. */
  ghost predicate Before(text: Text, s: State, t: State, n: nat, access: Inst) {
    t.outcome == Running && t.PC == s.PC + 4 * n && t.PC in text && text[t.PC] == access && OnlyRegs(s, t, {1})
  }

  lemma OneAccess(text: Text, s: State, access: Inst, v: word)
    requires s.outcome == Running && Placed(text, s.PC, [access]) && access.imm == ToShort(v) && NeedsOneInstruction(v)
    ensures Before(text, s, Run(text, s, 0), 0, access)
    ensures EffectiveAddress(access, Run(text, s, 0)) == Wrap(Reg(s, access.rs) + v) <==> !Misassembled(v)
  {
    hide ToShort, Wrap, NeedsOneInstruction, Misassembled;
    FirstTwo(text, s.PC, [access]);
    SmallOffset(v, Reg(s, access.rs));
  }

  lemma SplitAccess(text: Text, s: State, rs: reg, access: Inst, v: word) returns (n: nat)
    requires s.outcome == Running && rs != 1 && access.rs == 1 && access.imm == ToShort(v) && AdjustedHigh(v) < TWO16
    requires Placed(text, s.PC, [IType(LUI, 1, 0, ToShort(AdjustedHigh(v)))]
                                + (if rs != 0 then [RType(ADDU, 1, 1, rs)] else []) + [access])
    ensures n == if rs != 0 then 2 else 1
    ensures Before(text, s, Run(text, s, n), n, access)
    ensures EffectiveAddress(access, Run(text, s, n)) == Wrap(Reg(s, rs) + v)
  {
    hide ToShort, AdjustedHigh, Wrap, Run;
    n := if rs != 0 then 2 else 1;
    FirstTwo(text, s.PC, [IType(LUI, 1, 0, ToShort(AdjustedHigh(v)))]
                         + (if rs != 0 then [RType(ADDU, 1, 1, rs)] else []) + [access]);
    HalvesAddUp(v, Reg(s, rs));
    HighPart(text, s, rs, AdjustedHigh(v), [access]);
  }

  /** The code for a load or store at offset v ends in the access itself; what comes before it
      touches only $1, and the address accessed is R[rs] + v modulo 2^32 exactly when v is not one
      of the misassembled offsets. */
  lemma AddressCorrect(text: Text, s: State, op: Opcode, rt: reg, rs: reg, v: word) returns (n: nat)
    requires IsLoadStore(op) && rs != 1
    requires s.outcome == Running && Placed(text, s.PC, Code(op, rt, rs, v))
    ensures n + 1 == |Code(op, rt, rs, v)| <= 3
    ensures var t, access := Run(text, s, n), Code(op, rt, rs, v)[n];
      && t.outcome == Running && t.PC == s.PC + 4 * n && t.PC in text && text[t.PC] == access
      && OnlyRegs(s, t, {1})
      && access.op == op && access.rt == rt
      && (EffectiveAddress(access, t) == Wrap(Reg(s, rs) + v) <==> !Misassembled(v))
  {
    hide Run, Code, ToShort, AdjustedHigh, Wrap, NeedsOneInstruction, Misassembled, IsLoadStore, EffectiveAddress, Placed, OnlyRegs;
    AccessShape(op, rt, rs, v);
    MisassembledNeedsOne(v);
    if NeedsOneInstruction(v) {
      n := 0;
      OneAccess(text, s, IType(op, rt, rs, ToShort(v)), v);
    } else {
      n := SplitAccess(text, s, rs, IType(op, rt, 1, ToShort(v)), v);
    }
  }
}
