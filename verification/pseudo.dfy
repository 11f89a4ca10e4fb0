/** Pseudo-instructions for comparison, absolute value and rotation: the instructions the assembler
    emits for them, and what running those instructions does to the machine. */
module PseudoOps {
  import opened Words
  import opened Isa
  import opened Immediates
  import opened ControlTransfer

  // ---- Comparisons --------------------------------------------------------------------------

  datatype Relation = EQ | NE | LE | LEU | GT | GTU | GE | GEU | LT | LTU

  /** The comparison of two words, signed or unsigned. */
  predicate Holds(op: Relation, a: word, b: word) {
    match op
    case EQ => a == b
    case NE => a != b
    case LE => Signed(a) <= Signed(b)
    case LEU => a <= b
    case GT => Signed(a) > Signed(b)
    case GTU => a > b
    case GE => Signed(a) >= Signed(b)
    case GEU => a >= b
    case LT => Signed(a) < Signed(b)
    case LTU => a < b
  }

  predicate IsUnsigned(op: Relation) {
    op.LEU? || op.GTU? || op.GEU? || op.LTU?
  }

  function SetLessThan(op: Relation): Opcode {
    if IsUnsigned(op) then SLTU else SLT
  }

  /** A branch by a fixed number of instructions, counted from the branch itself. */
  function Skip(op: Opcode, rt: reg, rs: reg, count: nat): Inst
    requires count < 0x1000
  {
    IType(op, rt, rs, BranchField(4 * count))
  }

  /** The set pseudo-ops (SLT and SLTU are real instructions). */
  predicate IsSetPseudo(op: Relation) {
    !op.LT? && !op.LTU?
  }

  /** `first` into rd, or the last instruction, depending on a test of rs and rt. */
  function Diamond(skip: Opcode, rd: reg, rs: reg, rt: reg, first: short, last: Inst): seq<Inst> {
    [Skip(skip, rs, rt, 3), IType(ORI, rd, 0, first), Skip(BEQ, 0, 0, 2), last]
  }

  function SetCode(op: Relation, rd: reg, rs: reg, rt: reg): seq<Inst>
    requires IsSetPseudo(op)
  {
    if op.GT? || op.GTU? then [RType(SetLessThan(op), rd, rt, rs)]
    else if op.LE? || op.LEU? then Diamond(BNE, rd, rs, rt, 1, RType(SetLessThan(op), rd, rs, rt))
    else if op.GE? || op.GEU? then Diamond(BNE, rd, rs, rt, 1, RType(SetLessThan(op), rd, rt, rs))
    else if op.EQ? then Diamond(BEQ, rd, rs, rt, 0, IType(ORI, rd, 0, 1))
    else Diamond(BEQ, rd, rs, rt, 1, IType(ORI, rd, 0, 0))
  }

  /** With an immediate operand: 0 is register 0, anything else is built in $1. */
  function SetImmediateCode(op: Relation, rd: reg, rs: reg, v: word): seq<Inst>
    requires IsSetPseudo(op)
  {
    if v == 0 then SetCode(op, rd, rs, 0) else Code(ORI, 1, 0, v) + SetCode(op, rd, rs, 1)
  }

  // ---- Steps used below ---------------------------------------------------------------------

  lemma SkipDistance(count: nat)
    requires count < 0x1000
    ensures Displacement(BranchField(4 * count)) == 4 * count
  {
    FieldOfDistance(4 * count);
    DisplacementOfField(4 * count);
  }

  lemma DoSkip(s: State, i: Inst, count: nat)
    requires count < 0x1000 && (i.op.BEQ? || i.op.BNE? || i.op.BGEZ?) && i.imm == BranchField(4 * count)
    requires s.PC + 4 * count < TWO32 && s.PC + 4 < TWO32
    ensures Perform(i, s) == Moved(s, if Taken(i.op, Reg(s, i.rs), Reg(s, i.rt)) then s.PC + 4 * count else s.PC + 4)
  {
    hide Perform, Displacement, BranchField, Wrap, Taken;
    SkipDistance(count);
    SmallWrap(s.PC + 4 * count);
    SmallWrap(s.PC + 4);
    DoBranch(s, i);
  }

  lemma DoOri(s: State, i: Inst)
    requires i.op.ORI? && i.rs == 0 && i.imm >= 0 && s.PC + 4 < TWO32
    ensures Perform(i, s) == After(s, i.rt, i.imm) && After(s, i.rt, i.imm).PC == s.PC + 4
  {
    hide Perform, Or, Wrap, Unsigned16;
    SmallWrap(s.PC + 4);
    SmallUnsigned16(i.imm);
    DoImmediateOp(s, i);
    OrZero(i.imm);
  }

  lemma SmallUnsigned16(imm: short)
    requires imm >= 0
    ensures Unsigned16(imm) == imm
  {
  }

  lemma Fetch(text: Text, base: int, code: seq<Inst>, k: nat)
    requires Placed(text, base, code) && k < |code|
    ensures base + 4 * k in text && text[base + 4 * k] == code[k]
  {
  }

  // ---- Set pseudo-ops -----------------------------------------------------------------------

  // Two instructions run on one side of the test, three on the other.
  lemma DiamondRuns(text: Text, s: State, skip: Opcode, rd: reg, rs: reg, rt: reg, first: short, last: Inst)
    returns (n: nat)
    requires s.outcome == Running && rd != 0
    requires (skip.BEQ? || skip.BNE?) && first >= 0
    requires Placed(text, s.PC, Diamond(skip, rd, rs, rt, first, last))
    ensures n <= 3
    ensures Run(text, s, n) == if Taken(skip, Reg(s, rt), Reg(s, rs)) then Perform(last, Moved(s, s.PC + 12))
                               else After(s, rd, first).(PC := s.PC + 16)
  {
    hide Perform, Taken, BranchField, Wrap;
    var code := Diamond(skip, rd, rs, rt, first, last);
    Fetch(text, s.PC, code, 0);
    Fetch(text, s.PC, code, 1);
    Fetch(text, s.PC, code, 2);
    Fetch(text, s.PC, code, 3);
    assert Run(text, s, 0) == s;
    hide Run;
    StepTo(text, s, 0, s, code[0]);
    DoSkip(s, code[0], 3);
    if Taken(skip, Reg(s, rt), Reg(s, rs)) {
      StepTo(text, s, 1, Moved(s, s.PC + 12), last);
      n := 2;
    } else {
      var s1 := Moved(s, s.PC + 4);
      StepTo(text, s, 1, s1, code[1]);
      DoOri(s1, code[1]);
      var s2 := After(s1, rd, first);
      StepTo(text, s, 2, s2, code[2]);
      DoSkip(s2, code[2], 2);
      TakenIf(Reg(s2, 0), Reg(s2, 0));
      n := 3;
    }
  }

  lemma TakenIf(a: word, b: word)
    ensures Taken(BEQ, a, b) <==> a == b
    ensures Taken(BNE, a, b) <==> a != b
    ensures Taken(BGEZ, a, b) <==> !Negative(a)
  {
  }

  /** A state that has gone on to address pc with r in register rd and only `changed` registers
      changed. */
  ghost predicate Leaves(s: State, t: State, pc: int, rd: reg, r: word, changed: set<reg>) {
    && t.outcome == Running && t.PC == pc
    && t.R[rd] == r && OnlyRegs(s, t, changed)
  }

  /** The code for `sop rd, rs, rt` ends after itself with rd 1 or 0 as the comparison of the
      original register values says, even when rd is also a source, and changes only rd. */
  lemma SetCorrect(text: Text, s: State, op: Relation, rd: reg, rs: reg, rt: reg) returns (n: nat)
    requires IsSetPseudo(op) && rd != 0
    requires s.outcome == Running && Placed(text, s.PC, SetCode(op, rd, rs, rt))
    ensures n <= |SetCode(op, rd, rs, rt)|
    ensures Leaves(s, Run(text, s, n), s.PC + 4 * |SetCode(op, rd, rs, rt)|, rd,
                   Flag(Holds(op, Reg(s, rs), Reg(s, rt))), {rd})
  {
    hide Perform, Run;
    if op.GT? || op.GTU? {
      n := 1;
      Fetch(text, s.PC, SetCode(op, rd, rs, rt), 0);
      assert s.PC + 4 * 0 == s.PC;
      RunZero(text, s);
      StepTo(text, s, 0, s, RType(SetLessThan(op), rd, rt, rs));
      SetStep(s, op, rd, rt, rs);
    } else if op.EQ? || op.NE? {
      n := SetEquality(text, s, op, rd, rs, rt);
    } else {
      n := SetOrder(text, s, op, rd, rs, rt);
    }
  }

  lemma SetEquality(text: Text, s: State, op: Relation, rd: reg, rs: reg, rt: reg) returns (n: nat)
    requires (op.EQ? || op.NE?) && rd != 0
    requires s.outcome == Running && Placed(text, s.PC, SetCode(op, rd, rs, rt))
    ensures n <= 3
    ensures Leaves(s, Run(text, s, n), s.PC + 16, rd, Flag(Holds(op, Reg(s, rs), Reg(s, rt))), {rd})
  {
    hide Perform, BranchField, Wrap, Run, Taken;
    TakenIf(Reg(s, rt), Reg(s, rs));
    var last := SetCode(op, rd, rs, rt)[3];
    n := DiamondRuns(text, s, BEQ, rd, rs, rt, if op.EQ? then 0 else 1, last);
    DoOri(Moved(s, s.PC + 12), last);
  }

  lemma SetOrder(text: Text, s: State, op: Relation, rd: reg, rs: reg, rt: reg) returns (n: nat)
    requires (op.LE? || op.LEU? || op.GE? || op.GEU?) && rd != 0
    requires s.outcome == Running && Placed(text, s.PC, SetCode(op, rd, rs, rt))
    ensures n <= 3
    ensures Leaves(s, Run(text, s, n), s.PC + 16, rd, Flag(Holds(op, Reg(s, rs), Reg(s, rt))), {rd})
  {
    hide Perform, BranchField, Wrap, Run, Taken;
    TakenIf(Reg(s, rt), Reg(s, rs));
    var last := SetCode(op, rd, rs, rt)[3];
    n := DiamondRuns(text, s, BNE, rd, rs, rt, 1, last);
    SetStep(Moved(s, s.PC + 12), op, rd, last.rs, last.rt);
  }

  lemma RunZero(text: Text, s: State)
    ensures Run(text, s, 0) == s
  {
  }

  lemma SetStep(s: State, op: Relation, rd: reg, rs: reg, rt: reg)
    requires s.PC + 4 < TWO32
    ensures var less := if IsUnsigned(op) then Reg(s, rs) < Reg(s, rt) else Signed(Reg(s, rs)) < Signed(Reg(s, rt));
      Perform(RType(SetLessThan(op), rd, rs, rt), s) == After(s, rd, Flag(less)) && After(s, rd, Flag(less)).PC == s.PC + 4
  {
    hide Perform;
    DoRegisterOp(s, RType(SetLessThan(op), rd, rs, rt));
  }

  /** The same for an immediate operand, which may also change $1. */
  lemma SetImmediateCorrect(text: Text, s: State, op: Relation, rd: reg, rs: reg, v: word) returns (n: nat)
    requires IsSetPseudo(op) && rd != 0 && rd != 1 && rs != 1
    requires s.outcome == Running && Placed(text, s.PC, SetImmediateCode(op, rd, rs, v))
    ensures n <= |SetImmediateCode(op, rd, rs, v)|
    ensures Leaves(s, Run(text, s, n), s.PC + 4 * |SetImmediateCode(op, rd, rs, v)|, rd,
                   Flag(Holds(op, Reg(s, rs), v)), {1, rd})
  {
    hide Run, Holds, SetCode, IsSetPseudo, Placed, Code;
    SetCodeLength(op, rd, rs);
    if v == 0 {
      n := SetCorrect(text, s, op, rd, rs, 0);
    } else {
      var back := SetCode(op, rd, rs, 1);
      var m := OperandInAt(text, s, v, back);
      var t := Run(text, s, m);
      var k := SetCorrect(text, t, op, rd, rs, 1);
      RunAdd(text, s, m, k);
      n := m + k;
    }
  }

  lemma SetCodeLength(op: Relation, rd: reg, rs: reg)
    requires IsSetPseudo(op)
    ensures forall rt: reg :: |SetCode(op, rd, rs, rt)| == if op.GT? || op.GTU? then 1 else 4
  {
  }

  /** The code that loads an operand into $1 before some other code. */
  lemma OperandInAt(text: Text, s: State, v: word, back: seq<Inst>) returns (n: nat)
    requires s.outcome == Running && Placed(text, s.PC, Code(ORI, 1, 0, v) + back)
    ensures n == |Code(ORI, 1, 0, v)| && Placed(text, s.PC + 4 * n, back)
    ensures Leaves(s, Run(text, s, n), s.PC + 4 * n, 1, v, {1})
  {
    hide Run, Code, Placed, Meant;
    PlacedParts(text, s.PC, Code(ORI, 1, 0, v), back);
    n := ComputationCorrect(text, s, ORI, 1, 0, v);
    ZeroOperand(ORI, v);
  }

  // ---- Conditional branches -----------------------------------------------------------------

  /** A branch to a label, with the field the assembler computes at its own address pc. */
  function To(op: Opcode, rt: reg, rs: reg, pc: int, goal: word): Inst {
    IType(op, rt, rs, BranchField(Wrap(goal - pc) % TWO16))
  }

  predicate IsBranchPseudo(op: Relation) {
    !op.EQ? && !op.NE?
  }

  /** Which way the comparison is made, and whether it must fail: `a > b` is `b < a`, and
      `a >= b` is `!(a < b)`. */
  predicate Swapped(op: Relation) {
    op.GT? || op.GTU? || op.LE? || op.LEU?
  }

  predicate OnFailure(op: Relation) {
    op.GE? || op.GEU? || op.LE? || op.LEU?
  }

  function BranchCode(op: Relation, rs: reg, rt: reg, base: int, goal: word): seq<Inst>
    requires IsBranchPseudo(op)
  {
    [if Swapped(op) then RType(SetLessThan(op), 1, rt, rs) else RType(SetLessThan(op), 1, rs, rt),
     To(if OnFailure(op) then BEQ else BNE, 0, 1, base + 4, goal)]
  }

  function EqualFirstCode(op: Relation, rs: reg, pc: int, goal: word): seq<Inst> {
    if op.GTU? then [Skip(BEQ, rs, 1, 3), RType(SLTU, 1, rs, 1), To(BEQ, 0, 1, pc + 8, goal)]
    else [To(BEQ, rs, 1, pc, goal), RType(SLTU, 1, rs, 1), To(BNE, 0, 1, pc + 8, goal)]
  }

  /** With an immediate operand.  Signed > and <= compare with v + 1; the unsigned ones cannot,
      since 0xffffffff + 1 wraps, and test for equality first. */
  function BranchImmediateCode(op: Relation, rs: reg, v: word, base: int, goal: word): seq<Inst> {
    if op.EQ? || op.NE? then
      var branch := if op.EQ? then BEQ else BNE;
      if v == 0 then [To(branch, rs, 0, base, goal)]
      else
        var load := Code(ORI, 1, 0, v);
        load + [To(branch, rs, 1, base + 4 * |load|, goal)]
    else if op.GT? || op.LE? then
      var compare := Code(SLTI, 1, rs, Wrap(v + 1));
      compare + [To(if op.GT? then BEQ else BNE, 0, 1, base + 4 * |compare|, goal)]
    else if op.GTU? || op.LEU? then
      var load := Code(ORI, 1, 0, v);
      load + EqualFirstCode(op, rs, base + 4 * |load|, goal)
    else
      var compare := Code(if IsUnsigned(op) then SLTIU else SLTI, 1, rs, v);
      compare + [To(if OnFailure(op) then BEQ else BNE, 0, 1, base + 4 * |compare|, goal)]
  }

  lemma BranchesTo(s: State, i: Inst, goal: word)
    requires (i.op.BEQ? || i.op.BNE?) && i == To(i.op, i.rt, i.rs, s.PC, goal)
    requires s.PC % 4 == 0 && goal % 4 == 0 && InReach(s.PC, goal) && s.PC + 4 < TWO32
    ensures Perform(i, s) == Moved(s, if (i.op.BEQ?) == (Reg(s, i.rs) == Reg(s, i.rt)) then goal else s.PC + 4)
  {
    hide Perform, Displacement, BranchField, Wrap, Taken, InReach;
    SmallWrap(s.PC + 4);
    TakenIf(Reg(s, i.rs), Reg(s, i.rt));
    DoBranch(s, i);
    BranchArrives(false, false, s.PC, s.PC, goal);
    SmallWrap(BranchTarget(false, s.PC, i.imm));
  }

  /** A branch at this address can reach the label. */
  predicate InReachAt(pc: int, goal: word) {
    goal % 4 == 0 && (0 <= pc < TWO32 ==> InReach(pc, goal))
  }

  /** The branches to the label in a block with an immediate operand: its last instruction and, for
      unsigned <=, the one two before it. */
  predicate BranchesReach(op: Relation, base: int, length: nat, goal: word) {
    InReachAt(base + 4 * (length - 1), goal) && (op.LEU? ==> InReachAt(base + 4 * (length - 3), goal))
  }

  /** A state that has gone to the label or on past the code, with only $1 changed. */
  ghost predicate Branched(s: State, t: State, taken: bool, goal: word, end: int) {
    && t.outcome == Running && t.PC == (if taken then goal else end) && OnlyRegs(s, t, {1})
  }

  /** The code for `bop rs, rt, label` goes to the label or past itself as the comparison says, and
      changes only $1. */
  lemma BranchCorrect(text: Text, s: State, op: Relation, rs: reg, rt: reg, goal: word) returns (n: nat)
    requires IsBranchPseudo(op) && rs != 1 && rt != 1
    requires s.outcome == Running && Placed(text, s.PC, BranchCode(op, rs, rt, s.PC, goal))
    requires InReachAt(s.PC + 4, goal)
    ensures n <= 2
    ensures Branched(s, Run(text, s, n), Holds(op, Reg(s, rs), Reg(s, rt)), goal, s.PC + 8)
  {
    hide Perform, Wrap, InReach, Run, To;
    var code := BranchCode(op, rs, rt, s.PC, goal);
    Fetch(text, s.PC, code, 0);
    Fetch(text, s.PC, code, 1);
    RunZero(text, s);
    StepTo(text, s, 0, s, code[0]);
    SetStep(s, op, 1, code[0].rs, code[0].rt);
    var s1 := Perform(code[0], s);
    StepTo(text, s, 1, s1, code[1]);
    BranchToFrom(s1, code[1], if OnFailure(op) then BEQ else BNE, 0, 1, goal);
    n := 2;
  }

  lemma BranchToFrom(s: State, i: Inst, op: Opcode, rt: reg, rs: reg, goal: word)
    requires (op.BEQ? || op.BNE?) && i == To(op, rt, rs, s.PC, goal)
    requires s.PC % 4 == 0 && goal % 4 == 0 && InReach(s.PC, goal) && s.PC + 4 < TWO32
    ensures Perform(i, s) == Moved(s, if (op.BEQ?) == (Reg(s, rs) == Reg(s, rt)) then goal else s.PC + 4)
  {
    hide Perform, InReach, BranchField;
    BranchesTo(s, i, goal);
  }

  lemma EqualFirstLength(op: Relation, rs: reg, pc: int, goal: word)
    ensures |EqualFirstCode(op, rs, pc, goal)| == 3
  {
  }

  predicate Less(compare: Opcode, a: word, v: word) {
    if compare == SLTI then Signed(a) < Signed(v) else a < v
  }

  lemma MeantLess(compare: Opcode, a: word, v: word)
    requires compare == SLTI || compare == SLTIU
    ensures Meant(compare, a, v) == Value(Flag(Less(compare, a, v)))
  {
    hide Signed, Wrap, And, Or, Xor;
  }

  lemma CompareInAt(text: Text, s: State, compare: Opcode, rs: reg, v: word, back: seq<Inst>) returns (n: nat)
    requires (compare == SLTI || compare == SLTIU) && rs != 1 && s.outcome == Running
    requires Placed(text, s.PC, Code(compare, 1, rs, v) + back)
    ensures n == |Code(compare, 1, rs, v)| && Placed(text, s.PC + 4 * n, back)
    ensures Leaves(s, Run(text, s, n), s.PC + 4 * n, 1, Flag(Less(compare, Reg(s, rs), v)), {1})
  {
    hide Run, Code, Placed, Meant, Less;
    MeantLess(compare, Reg(s, rs), v);
    PlacedParts(text, s.PC, Code(compare, 1, rs, v), back);
    n := ComputationCorrect(text, s, compare, 1, rs, v);
  }

  // $1 := the comparison of R[rs] with v; branch when it is (or is not) zero.
  lemma CompareAndBranch(text: Text, s: State, compare: Opcode, rs: reg, v: word, branch: Opcode, goal: word)
    returns (n: nat)
    requires (compare == SLTI || compare == SLTIU) && (branch.BEQ? || branch.BNE?)
    requires rs != 1 && s.outcome == Running
    requires var front := Code(compare, 1, rs, v);
      Placed(text, s.PC, front + [To(branch, 0, 1, s.PC + 4 * |front|, goal)]) && InReachAt(s.PC + 4 * |front|, goal)
    ensures n == |Code(compare, 1, rs, v)| + 1
    ensures Branched(s, Run(text, s, n), (branch.BNE?) == Less(compare, Reg(s, rs), v), goal, s.PC + 4 * n)
  {
    hide Run, Perform, Code, To, InReach, Less, Wrap;
    var front := Code(compare, 1, rs, v);
    var last := To(branch, 0, 1, s.PC + 4 * |front|, goal);
    var m := CompareInAt(text, s, compare, rs, v, [last]);
    var t := Run(text, s, m);
    Fetch(text, s.PC + 4 * m, [last], 0);
    StepTo(text, s, m, t, last);
    BranchToFrom(t, last, branch, 0, 1, goal);
    n := m + 1;
  }

  // The unsigned forms: an equal operand is decided by the first branch.
  lemma EqualFirst(text: Text, s: State, op: Relation, rs: reg, v: word, goal: word) returns (n: nat)
    requires (op.GTU? || op.LEU?) && rs != 1 && s.outcome == Running && s.R[1] == v
    requires var tail := EqualFirstCode(op, rs, s.PC, goal);
      Placed(text, s.PC, tail) && BranchesReach(op, s.PC, 3, goal)
    ensures n <= 3
    ensures Branched(s, Run(text, s, n), Holds(op, Reg(s, rs), v), goal, s.PC + 12)
  {
    hide Run, Perform, To, Skip, InReach, Wrap;
    var code := EqualFirstCode(op, rs, s.PC, goal);
    Fetch(text, s.PC, code, 0);
    Fetch(text, s.PC, code, 1);
    Fetch(text, s.PC, code, 2);
    RunZero(text, s);
    StepTo(text, s, 0, s, code[0]);
    FirstTest(s, op, rs, goal);
    if Reg(s, rs) == v {
      n := 1;
    } else {
      var s1 := Moved(s, s.PC + 4);
      StepTo(text, s, 1, s1, code[1]);
      SetStep(s1, op, 1, rs, 1);
      var s2 := Perform(code[1], s1);
      StepTo(text, s, 2, s2, code[2]);
      BranchToFrom(s2, code[2], if op.GTU? then BEQ else BNE, 0, 1, goal);
      n := 3;
    }
  }

  lemma FirstTest(s: State, op: Relation, rs: reg, goal: word)
    requires (op.GTU? || op.LEU?) && s.PC % 4 == 0 && s.PC + 12 < TWO32
    requires op.LEU? ==> goal % 4 == 0 && InReach(s.PC, goal)
    ensures Perform(EqualFirstCode(op, rs, s.PC, goal)[0], s)
            == Moved(s, if Reg(s, rs) != Reg(s, 1) then s.PC + 4 else if op.GTU? then s.PC + 12 else goal)
  {
    hide Perform, InReach, Wrap, BranchField, Taken;
    var i := EqualFirstCode(op, rs, s.PC, goal)[0];
    TakenIf(Reg(s, 1), Reg(s, rs));
    if op.GTU? {
      DoSkip(s, i, 3);
    } else {
      BranchToFrom(s, i, BEQ, rs, 1, goal);
    }
  }

  /** When the immediate branch is taken: signed > and <= compare with the constant plus 1, as a word. */
  predicate TakenImmediate(op: Relation, a: word, v: word) {
    if op.GT? || op.LE? then op.LE? == (Signed(a) < Signed(Wrap(v + 1))) else Holds(op, a, v)
  }

  /** The immediate branch compares correctly, for every register value, exactly when it is not a
      signed > or <= against 2^31 - 1, to which 1 cannot be added. */
  lemma ImmediateComparison(op: Relation, v: word)
    ensures (forall a: word :: TakenImmediate(op, a, v) == Holds(op, a, v))
            <==> !(v == 0x7fff_ffff && (op.GT? || op.LE?))
  {
    hide Wrap;
    forall a: word
      ensures Signed(a) < Signed(Wrap(v + 1)) <==> (if v == 0x7fff_ffff then false else Signed(a) <= Signed(v))
    {
      SignedSuccessor(a, v);
    }
    if v == 0x7fff_ffff && (op.GT? || op.LE?) {
      assert TakenImmediate(op, 0, v) != Holds(op, 0, v);
    }
  }

  /** The code for `bop rs, v, label` goes to the label or past itself as TakenImmediate says, and
      changes only $1. */
  lemma BranchImmediateCorrect(text: Text, s: State, op: Relation, rs: reg, v: word, goal: word) returns (n: nat)
    requires rs != 1 && s.outcome == Running
    requires Placed(text, s.PC, BranchImmediateCode(op, rs, v, s.PC, goal))
    requires BranchesReach(op, s.PC, |BranchImmediateCode(op, rs, v, s.PC, goal)|, goal)
    ensures n <= |BranchImmediateCode(op, rs, v, s.PC, goal)|
    ensures Branched(s, Run(text, s, n), TakenImmediate(op, Reg(s, rs), v), goal,
                     s.PC + 4 * |BranchImmediateCode(op, rs, v, s.PC, goal)|)
  {
    hide Run, Branched, InReachAt, To, Placed, Code;
    if op.EQ? || op.NE? {
      n := EqualityBranch(text, s, op, rs, v, goal);
    } else if op.GTU? || op.LEU? {
      n := UnsignedBranch(text, s, op, rs, v, goal);
    } else if op.GT? || op.LE? {
      n := CompareAndBranch(text, s, SLTI, rs, Wrap(v + 1), if op.GT? then BEQ else BNE, goal);
    } else {
      n := CompareAndBranch(text, s, if IsUnsigned(op) then SLTIU else SLTI, rs, v,
                            if OnFailure(op) then BEQ else BNE, goal);
    }
  }

  lemma UnsignedBranch(text: Text, s: State, op: Relation, rs: reg, v: word, goal: word) returns (n: nat)
    requires (op.GTU? || op.LEU?) && rs != 1 && s.outcome == Running
    requires Placed(text, s.PC, BranchImmediateCode(op, rs, v, s.PC, goal))
    requires BranchesReach(op, s.PC, |BranchImmediateCode(op, rs, v, s.PC, goal)|, goal)
    ensures n <= |BranchImmediateCode(op, rs, v, s.PC, goal)|
    ensures Branched(s, Run(text, s, n), Holds(op, Reg(s, rs), v), goal,
                     s.PC + 4 * |BranchImmediateCode(op, rs, v, s.PC, goal)|)
  {
    hide Run, Code, To, Skip, InReachAt, Holds, Placed, EqualFirstCode;
    var front := Code(ORI, 1, 0, v);
    var back := EqualFirstCode(op, rs, s.PC + 4 * |front|, goal);
    EqualFirstLength(op, rs, s.PC + 4 * |front|, goal);
    var m := OperandInAt(text, s, v, back);
    var t := Run(text, s, m);
    var k := EqualFirst(text, t, op, rs, v, goal);
    RunAdd(text, s, m, k);
    n := m + k;
  }

  lemma SignedSuccessor(a: word, v: word)
    ensures Signed(a) < Signed(Wrap(v + 1)) <==> (if v == 0x7fff_ffff then false else Signed(a) <= Signed(v))
  {
    hide Wrap;
    WrapNear(v + 1);
  }

  lemma EqualityBranch(text: Text, s: State, op: Relation, rs: reg, v: word, goal: word) returns (n: nat)
    requires (op.EQ? || op.NE?) && rs != 1 && s.outcome == Running
    requires Placed(text, s.PC, BranchImmediateCode(op, rs, v, s.PC, goal))
    requires BranchesReach(op, s.PC, |BranchImmediateCode(op, rs, v, s.PC, goal)|, goal)
    ensures n == |BranchImmediateCode(op, rs, v, s.PC, goal)|
    ensures Branched(s, Run(text, s, n), Holds(op, Reg(s, rs), v), goal, s.PC + 4 * n)
  {
    hide Run, Perform, Code, To, InReach, Wrap;
    var branch := if op.EQ? then BEQ else BNE;
    var code := BranchImmediateCode(op, rs, v, s.PC, goal);
    var m := 0;
    if v == 0 {
      RunZero(text, s);
    } else {
      m := OperandInAt(text, s, v, [code[|code| - 1]]);
    }
    var t := Run(text, s, m);
    assert m == |code| - 1 && t.PC == s.PC + 4 * m;
    Fetch(text, s.PC, code, m);
    StepTo(text, s, m, t, code[m]);
    BranchToFrom(t, code[m], branch, rs, if v == 0 then 0 else 1, goal);
    n := m + 1;
  }
}
