/** What the instructions do, said another way than by how they are computed: bits, integers, and how one
    instruction answers to another. */
module InstructionLaws {
  import opened Words
  import opened Isa
  import opened Immediates
  import opened ControlTransfer
  import opened PseudoOps
  import opened PseudoArithmetic
  import opened Unaligned
  import Memory

  // ---- Bits ----------------------------------------------------------------------------------------

  /** The logical instructions on two registers, bit by bit. */
  lemma LogicBits(a: word, b: word, j: nat)
    requires j < 32
    ensures Bit(RegisterOp(AND, a, b), j) == Bit(a, j) * Bit(b, j)
    ensures Bit(RegisterOp(OR, a, b), j) == 1 - (1 - Bit(a, j)) * (1 - Bit(b, j))
    ensures Bit(RegisterOp(XOR, a, b), j) == (Bit(a, j) + Bit(b, j)) % 2
    ensures Bit(RegisterOp(NOR, a, b), j) == (1 - Bit(a, j)) * (1 - Bit(b, j))
  {
    hide Bits, Bit, OneBit, And, Or, Xor, Not, RegisterOp;
    BitOfBits(AndGate, a, b, 32, j);
    BitOfBits(OrGate, a, b, 32, j);
    BitOfBits(XorGate, a, b, 32, j);
    NotBit(Or(a, b), j);
    LogicOps(a, b);
    GateBits(a, b, j);
    BitIsSmall(a, j);
    BitIsSmall(b, j);
    GateTables(Bit(a, j), Bit(b, j));
  }

  lemma GateTables(x: nat, y: nat)
    requires x < 2 && y < 2
    ensures OneBit(AndGate, x, y) == x * y && OneBit(OrGate, x, y) == 1 - (1 - x) * (1 - y)
    ensures OneBit(XorGate, x, y) == (x + y) % 2
  {
  }

  lemma GateBits(a: word, b: word, j: nat)
    ensures Bit(And(a, b), j) == Bit(Bits(AndGate, a, b, 32), j)
    ensures Bit(Or(a, b), j) == Bit(Bits(OrGate, a, b, 32), j)
    ensures Bit(Xor(a, b), j) == Bit(Bits(XorGate, a, b, 32), j)
  {
    hide Bits, Bit;
  }

  lemma LogicOps(a: word, b: word)
    ensures RegisterOp(AND, a, b) == And(a, b) && RegisterOp(OR, a, b) == Or(a, b)
    ensures RegisterOp(XOR, a, b) == Xor(a, b) && RegisterOp(NOR, a, b) == Not(Or(a, b))
  {
    hide And, Or, Xor, Not;
  }

  lemma BitIsSmall(x: nat, j: nat)
    ensures Bit(x, j) < 2
  {
  }

  lemma NotBit(x: word, j: nat)
    requires j < 32
    ensures Bit(Not(x), j) == 1 - Bit(x, j)
  {
    Pow2Values();
    hide Pow2;
    Complement(x, 32, j);
  }

  lemma {:induction false} Complement(x: nat, n: nat, j: nat)
    requires x < Pow2(n) && j < n
    ensures Bit(Pow2(n) - 1 - x, j) == 1 - Bit(x, j)
  {
    Pow2Step(n);
    hide Pow2;
    var half := Pow2(n - 1);
    var y := 2 * half - 1 - x;
    QuotientIs(y, 2, half - 1 - x / 2, 1 - x % 2);
    if j == 0 {
      FirstOfBits(x);
      FirstOfBits(y);
    } else {
      Complement(x / 2, n - 1, j - 1);
      BitHalf(x, j);
      BitHalf(y, j);
    }
  }

  lemma FirstOfBits(x: nat)
    ensures Bit(x, 0) == x % 2
  {
  }

  /** Two words with the same bits are the same word. */
  lemma {:induction false} SameBits(x: nat, y: nat, n: nat)
    requires x < Pow2(n) && y < Pow2(n) && forall j: nat :: j < n ==> Bit(x, j) == Bit(y, j)
    ensures x == y
  {
    if n > 0 {
      FirstOfBits(x);
      FirstOfBits(y);
      assert Bit(x, 0) == Bit(y, 0);
      forall j: nat | j < n - 1
        ensures Bit(x / 2, j) == Bit(y / 2, j)
      {
        BitHalf(x, j + 1);
        BitHalf(y, j + 1);
        assert Bit(x, j + 1) == Bit(y, j + 1);
      }
      SameBits(x / 2, y / 2, n - 1);
    }
  }

  /** The logical immediates, bit by bit: the upper half of the constant is zero. */
  lemma ImmediateBits(a: word, imm: short, j: nat)
    requires j < 32
    ensures var c := if j < 16 then Bit(Unsigned16(imm), j) else 0;
      && Bit(ImmediateOp(ANDI, a, imm), j) == Bit(a, j) * c
      && Bit(ImmediateOp(ORI, a, imm), j) == 1 - (1 - Bit(a, j)) * (1 - c)
      && Bit(ImmediateOp(XORI, a, imm), j) == (Bit(a, j) + c) % 2
  {
    hide Bit, And, Or, Xor, RegisterOp, ImmediateOp, Unsigned16, Pow2;
    var u := Unsigned16(imm);
    LogicBits(a, u, j);
    LogicOps(a, u);
    LogicImmediates(a, imm);
    if j >= 16 {
      Pow2Values();
      HighBits(u, 16, j);
    }
  }

  lemma LogicImmediates(a: word, imm: short)
    ensures ImmediateOp(ANDI, a, imm) == And(a, Unsigned16(imm)) && ImmediateOp(ORI, a, imm) == Or(a, Unsigned16(imm))
    ensures ImmediateOp(XORI, a, imm) == Xor(a, Unsigned16(imm))
  {
    hide And, Or, Xor, Unsigned16;
  }

  lemma HighBits(x: nat, k: nat, j: nat)
    requires x < Pow2(k) && k <= j
    ensures Bit(x, j) == 0
  {
    Pow2Monotonic(k, j);
    SmallModulo(x, Pow2(j));
  }
  // ---- Shifts --------------------------------------------------------------------------------------

  /** The shifts by a constant move every bit by that many places; SRA brings in copies of the sign. */
  lemma ShiftBits(x: word, k: nat, j: nat)
    requires k < 32 && j < 32
    ensures Bit(ShiftOp(SLL, x, k), j) == if j < k then 0 else Bit(x, j - k)
    ensures Bit(ShiftOp(SRL, x, k), j) == if j + k < 32 then Bit(x, j + k) else 0
    ensures Bit(ShiftOp(SRA, x, k), j) == if j + k < 32 then Bit(x, j + k) else Bit(x, 31)
  {
    hide Bit, ShiftLeft, ShiftRight, ShiftRightArith;
    LeftBits(x, k, j);
    RightBits(x, k, j);
    SignBits(x, k, j);
  }

  lemma LeftBits(x: word, k: nat, j: nat)
    requires k < 32 && j < 32
    ensures Bit(ShiftLeft(x, k), j) == if j < k then 0 else Bit(x, j - k)
  {
    hide Bit, ShiftLeft, Up, Low, High, Pow2;
    var high, low := High(x, 32 - k), Low(x, 32 - k);
    ShiftsAreFields(x, k);
    Pow2Positive(k);
    BitOfFields(low, 0, k, j);
    if j < k {
      HighBits0(j);
    } else {
      Pow2Values();
      HighLowFit(x, 32 - k, 32);
      BitOfFields(high, low, 32 - k, j - k);
    }
  }

  lemma Pow2Positive(k: nat)
    ensures Pow2(k) > 0
  {
  }

  lemma HighBits0(j: nat)
    ensures Bit(0, j) == 0
  {
    Pow2Positive(j);
    SmallModulo(0, Pow2(j));
  }

  lemma RightBits(x: word, k: nat, j: nat)
    requires k < 32 && j < 32
    ensures Bit(ShiftRight(x, k), j) == if j + k < 32 then Bit(x, j + k) else 0
  {
    hide Bit, ShiftRight, Up, Low, High, Pow2;
    ShiftsAreFields(x, 32 - k);
    Pow2Values();
    HighLowFit(x, k, 32);
    LowBound(x, k);
    BitOfFields(High(x, k), Low(x, k), k, j + k);
    if j + k >= 32 {
      HighBits(x, 32, j + k);
    }
  }

  lemma SignBits(x: word, k: nat, j: nat)
    requires k < 32 && j < 32
    ensures Bit(ShiftRightArith(x, k), j) == if j + k < 32 then Bit(x, j + k) else Bit(x, 31)
  {
    hide Bit, ShiftRight, ShiftRightArith, Not;
    RightBits(x, k, j);
    SignOf(x);
    ArithmeticShift(x, k);
    if x >= 0x8000_0000 {
      var y := ShiftRight(Not(x), k);
      RightBits(Not(x), k, j);
      NotBit(y, j);
      if j + k < 32 {
        NotBit(x, j + k);
      }
    }
  }

  lemma SignOf(x: word)
    ensures Bit(x, 31) == if x < 0x8000_0000 then 0 else 1
  {
    Pow2Values();
    hide Pow2;
    if x < 0x8000_0000 {
      SmallModulo(x, 0x8000_0000);
    } else {
      QuotientIs(x, 0x8000_0000, 1, x - 0x8000_0000);
    }
  }

  // A negative number is shifted as the complement of its complement.
  lemma ArithmeticShift(x: word, k: nat)
    requires k < 32
    ensures ShiftRightArith(x, k) == if x < 0x8000_0000 then ShiftRight(x, k) else Not(ShiftRight(Not(x), k))
  {
    Pow2Positive(k);
    hide Pow2, Wrap;
    var p := Pow2(k);
    if x < 0x8000_0000 {
      QuotientBound(x, p);
      SmallWrap(x / p);
    } else {
      NegativeQuotient(Not(x), p);
      QuotientBound(Not(x), p);
      WrapNear(-1 - Not(x) / p);
    }
  }

  lemma NegativeQuotient(n: nat, p: nat)
    requires p > 0
    ensures (-1 - n) / p == -1 - n / p
  {
    DivisionHolds(n, p);
    MulSigns(1 + n / p, p);
    QuotientIs(-1 - n, p, -1 - n / p, p - 1 - n % p);
  }

  /** The shifts by a register go by its five low bits. */
  lemma VariableShifts(a: word, b: word)
    ensures RegisterOp(SLLV, a, b) == ShiftOp(SLL, b, a % 32) && RegisterOp(SRLV, a, b) == ShiftOp(SRL, b, a % 32)
    ensures RegisterOp(SRAV, a, b) == ShiftOp(SRA, b, a % 32)
  {
    hide ShiftLeft, ShiftRight, ShiftRightArith;
  }

  // ---- Comparing and adding ------------------------------------------------------------------------

  /** The branches that compare with 0 go by what SLT says of the register and $0; those with a link, and
      the likely ones, by what the plain ones say; BEQ and BNE by whether the difference is 0. */
  lemma BranchesCompare(a: word, b: word)
    ensures Taken(BLTZ, a, b) <==> RegisterOp(SLT, a, 0) == 1
    ensures Taken(BGEZ, a, b) <==> RegisterOp(SLT, a, 0) == 0
    ensures Taken(BGTZ, a, b) <==> RegisterOp(SLT, 0, a) == 1
    ensures Taken(BLEZ, a, b) <==> RegisterOp(SLT, 0, a) == 0
    ensures Taken(BEQ, a, b) <==> RegisterOp(SUBU, a, b) == 0
    ensures Taken(BNE, a, b) <==> RegisterOp(SUBU, a, b) != 0
  {
    hide ShiftLeft, ShiftRight, ShiftRightArith, And, Or, Xor, Wrap;
    WrapNear(a - b);
  }

  lemma SameTests(a: word, b: word)
    ensures Taken(BLTZAL, a, b) == Taken(BLTZL, a, b) == Taken(BLTZALL, a, b) == Taken(BLTZ, a, b)
    ensures Taken(BGEZAL, a, b) == Taken(BGEZL, a, b) == Taken(BGEZALL, a, b) == Taken(BGEZ, a, b)
    ensures Taken(BGTZL, a, b) == Taken(BGTZ, a, b) && Taken(BLEZL, a, b) == Taken(BLEZ, a, b)
    ensures Taken(BEQL, a, b) == Taken(BEQ, a, b) && Taken(BNEL, a, b) == Taken(BNE, a, b)
  {
  }
  /** ADD, SUB and ADDI trap exactly when what their unchecked counterpart leaves is not the integer result,
      and leave the same otherwise. */
  lemma ChecksTheUnchecked(i: Inst, a: word, b: word, m: Core)
    ensures i.op.ADD? ==> Execute(i, a, b, m) == PutIf(m, i.rd, RegisterOp(ADDU, a, b), Signed(a) + Signed(b))
    ensures i.op.SUB? ==> Execute(i, a, b, m) == PutIf(m, i.rd, RegisterOp(SUBU, a, b), Signed(a) - Signed(b))
    ensures i.op.ADDI? ==> Execute(i, a, b, m) == PutIf(m, i.rt, ImmediateOp(ADDIU, a, i.imm), Signed(a) + i.imm)
  {
    hide RegisterOp, ImmediateOp, Execute, PutIf, Checked, Wrap, Signed;
    ExecutesChecked(i, a, b, m);
    Unchecked(a, b, i.imm);
    SignedSums(a, b, i.imm);
    CheckedIs(m, i.rd, Signed(a) + Signed(b));
    CheckedIs(m, i.rd, Signed(a) - Signed(b));
    CheckedIs(m, i.rt, Signed(a) + i.imm);
  }

  /** v goes to r if it is x as a signed word, and otherwise the instruction traps. */
  function PutIf(m: Core, r: reg, v: word, x: int): Effect {
    if Signed(v) == x then Put(m, r, v) else Fault(m, OVERFLOW)
  }

  lemma ExecutesChecked(i: Inst, a: word, b: word, m: Core)
    ensures i.op.ADD? ==> Execute(i, a, b, m) == Checked(m, i.rd, Signed(a) + Signed(b))
    ensures i.op.SUB? ==> Execute(i, a, b, m) == Checked(m, i.rd, Signed(a) - Signed(b))
    ensures i.op.ADDI? ==> Execute(i, a, b, m) == Checked(m, i.rt, Signed(a) + i.imm)
  {
    hide Checked, Signed, RegisterOp, ImmediateOp, ShiftOp, ExecuteMulDiv;
  }

  lemma Unchecked(a: word, b: word, imm: short)
    ensures RegisterOp(ADDU, a, b) == Wrap(a + b) && RegisterOp(SUBU, a, b) == Wrap(a - b)
    ensures ImmediateOp(ADDIU, a, imm) == Wrap(a + imm)
  {
    hide Wrap, ShiftLeft, ShiftRight, ShiftRightArith, And, Or, Xor;
  }

  lemma SignedSums(a: word, b: word, imm: short)
    ensures Wrap(Signed(a) + Signed(b)) == Wrap(a + b) && Wrap(Signed(a) - Signed(b)) == Wrap(a - b)
    ensures Wrap(Signed(a) + imm) == Wrap(a + imm)
    ensures -TWO32 <= Signed(a) + Signed(b) < TWO32 && -TWO32 <= Signed(a) - Signed(b) < TWO32
    ensures -TWO32 <= Signed(a) + imm < TWO32
  {
    hide Wrap;
    WrapNear(Signed(a) + Signed(b));
    WrapNear(a + b);
    WrapNear(Signed(a) - Signed(b));
    WrapNear(a - b);
    WrapNear(Signed(a) + imm);
    WrapNear(a + imm);
  }

  lemma CheckedIs(m: Core, r: reg, x: int)
    requires -TWO32 <= x < TWO32
    ensures Checked(m, r, x) == PutIf(m, r, Wrap(x), x)
  {
    hide Wrap;
    WrapNear(x);
  }

  // ---- Moving and multiplying ----------------------------------------------------------------------

  /** MOVN moves exactly when BNE with $0 would be taken, and MOVZ when BEQ would. */
  lemma MovesByBranches(i: Inst, a: word, b: word, m: Core)
    requires i.op.MOVN? || i.op.MOVZ?
    ensures var e := Execute(i, a, b, m);
      && e.core == Next(m) && e.outcome == Running
      && e.dest == if Taken(if i.op.MOVN? then BNE else BEQ, b, 0) then Written(i.rd, a) else NoDest
  {
    hide RegisterOp, ImmediateOp, ShiftOp, ExecuteMulDiv, Signed, Wrap;
  }

  /** HI and LO as one number. */
  function Pair(m: Core): int {
    Accumulator(m.HI, m.LO)
  }

  predicate IsMultiplication(op: Opcode) {
    op.MULT? || op.MULTU? || op.MUL? || op.MADD? || op.MADDU? || op.MSUB? || op.MSUBU?
  }

  /** The signed multiplications multiply signed values, the others unsigned ones. */
  function FactorProduct(op: Opcode, a: word, b: word): int {
    if op.MULT? || op.MUL? || op.MADD? || op.MSUB? then Signed(a) * Signed(b) else a * b
  }

  /** What each multiplication makes of HI:LO, modulo 2^64: the product, or the sum with it, or the
      difference; none of them does anything else, but that MUL also leaves the low word in rd. */
  lemma MultiplicationsCompared(i: Inst, a: word, b: word, m: Core)
    requires IsMultiplication(i.op)
    ensures var e, p := Execute(i, a, b, m), FactorProduct(i.op, a, b);
      && (Pair(e.core) - (if i.op.MADD? || i.op.MADDU? then Pair(m) + p
                          else if i.op.MSUB? || i.op.MSUBU? then Pair(m) - p else p)) % TWO64 == 0
      && e.core == m.(PC := Wrap(m.PC + 4), HI := e.core.HI, LO := e.core.LO) && e.outcome == Running
      && e.dest == if i.op.MUL? then Written(i.rd, e.core.LO) else NoDest
  {
    hide Execute, Accumulator, Signed, Upper, Lower, Wrap;
    ExecutesProduct(i, a, b, m);
    var p := FactorProduct(i.op, a, b);
    hide FactorProduct;
    HiLoIs(m, if i.op.MADD? || i.op.MADDU? then Pair(m) + p else if i.op.MSUB? || i.op.MSUBU? then Pair(m) - p else p);
  }

  lemma ExecutesProduct(i: Inst, a: word, b: word, m: Core)
    requires IsMultiplication(i.op)
    ensures var p := FactorProduct(i.op, a, b);
      var e := HiLo(m, if i.op.MADD? || i.op.MADDU? then Pair(m) + p else if i.op.MSUB? || i.op.MSUBU? then Pair(m) - p else p);
      Execute(i, a, b, m) == if i.op.MUL? then e.(dest := Written(i.rd, Lower(p))) else e
  {
    ToMulDiv(i, a, b, m);
    hide Execute, ExecuteMulDiv, HiLo, Accumulator, Signed, Lower;
    if i.op.MADD? || i.op.MADDU? || i.op.MSUB? || i.op.MSUBU? {
      Accumulates(i, a, b, m);
    } else {
      Multiplies(i, a, b, m);
    }
  }

  lemma Accumulates(i: Inst, a: word, b: word, m: Core)
    ensures i.op.MADD? ==> ExecuteMulDiv(i, a, b, m) == HiLo(m, Pair(m) + Signed(a) * Signed(b))
    ensures i.op.MADDU? ==> ExecuteMulDiv(i, a, b, m) == HiLo(m, Pair(m) + a * b)
    ensures i.op.MSUB? ==> ExecuteMulDiv(i, a, b, m) == HiLo(m, Pair(m) - Signed(a) * Signed(b))
    ensures i.op.MSUBU? ==> ExecuteMulDiv(i, a, b, m) == HiLo(m, Pair(m) - a * b)
  {
    hide HiLo, Accumulator, Signed, ExecuteMemory;
  }

  lemma Multiplies(i: Inst, a: word, b: word, m: Core)
    ensures i.op.MULT? ==> ExecuteMulDiv(i, a, b, m) == HiLo(m, Signed(a) * Signed(b))
    ensures i.op.MULTU? ==> ExecuteMulDiv(i, a, b, m) == HiLo(m, a * b)
    ensures i.op.MUL? ==>
              ExecuteMulDiv(i, a, b, m)
              == HiLo(m, Signed(a) * Signed(b)).(dest := Written(i.rd, Lower(Signed(a) * Signed(b))))
  {
    hide HiLo, Accumulator, Signed, Lower, ExecuteMemory;
  }

  lemma ToMulDiv(i: Inst, a: word, b: word, m: Core)
    requires IsMultiplication(i.op) || i.op.MFHI? || i.op.MFLO? || i.op.MTHI? || i.op.MTLO?
    ensures Execute(i, a, b, m) == ExecuteMulDiv(i, a, b, m)
  {
    hide ExecuteMulDiv, RegisterOp, ImmediateOp, ShiftOp, Signed;
  }

  lemma HiLoIs(m: Core, p: int)
    ensures (Accumulator(Upper(p), Lower(p)) - p) % TWO64 == 0
  {
    var q, r := p / TWO64, p % TWO64;
    assert p == TWO64 * q + r;
    QuotientIs(p, TWO32, TWO32 * q + r / TWO32, r % TWO32);
    QuotientIs(r - p, TWO64, -q, 0);
  }

  /** HI and LO are two registers that the moves to and from them reach, each its own. */
  lemma MovesToAndFrom(to: Inst, from: Inst, a: word, x: word, y: word, z: word, m: Core)
    requires (to.op.MTHI? || to.op.MTLO?) && (from.op.MFHI? || from.op.MFLO?)
    ensures var e := Execute(to, a, x, m);
      && e.dest == NoDest && e.outcome == Running && e.core.mem == m.mem && e.core.PC == Wrap(m.PC + 4)
      && Execute(from, y, z, e.core).dest
         == if to.op.MTHI? == from.op.MFHI? then Written(from.rd, a) else Execute(from, y, z, m).dest
  {
    ToMulDiv(to, a, x, m);
    ToMulDiv(from, y, z, m);
    ToMulDiv(from, y, z, ExecuteMulDiv(to, a, x, m).core);
    hide Execute, ExecuteMulDiv, Wrap;
    MovesTo(to, a, x, m);
    MovesFrom(from, y, z, m);
    MovesFrom(from, y, z, ExecuteMulDiv(to, a, x, m).core);
  }

  lemma MovesTo(i: Inst, a: word, b: word, m: Core)
    ensures i.op.MTHI? ==> ExecuteMulDiv(i, a, b, m) == Effect(NoDest, Next(m).(HI := a), Running)
    ensures i.op.MTLO? ==> ExecuteMulDiv(i, a, b, m) == Effect(NoDest, Next(m).(LO := a), Running)
  {
    hide HiLo, Accumulator, Signed, Wrap, ExecuteMemory;
  }

  lemma MovesFrom(i: Inst, a: word, b: word, m: Core)
    ensures i.op.MFHI? ==> ExecuteMulDiv(i, a, b, m) == Put(m, i.rd, m.HI)
    ensures i.op.MFLO? ==> ExecuteMulDiv(i, a, b, m) == Put(m, i.rd, m.LO)
  {
    hide HiLo, Accumulator, Signed, Wrap, ExecuteMemory;
  }

  // ---- Loads and stores ----------------------------------------------------------------------------

  predicate IsSizedLoad(op: Opcode) {
    op.LB? || op.LBU? || op.LH? || op.LHU? || op.LW? || op.LL?
  }

  predicate IsSizedStore(op: Opcode) {
    op.SB? || op.SH? || op.SW? || op.SC?
  }

  function Size(op: Opcode): (n: nat)
    ensures n == 1 || n == 2 || n == 4
  {
    if op.LB? || op.LBU? || op.SB? then 1 else if op.LH? || op.LHU? || op.SH? then 2 else 4
  }

  /** The n bytes from a on, as one number. */
  function LittleEndian(mem: Bytes, a: word, n: nat): nat
    requires (n == 1 || n == 2 || n == 4) && a + n <= TWO32 && Mapped(mem, a, n)
  {
    if n == 1 then mem[a]
    else if n == 2 then mem[a] as int + 0x100 * mem[a + 1] as int
    else mem[a] as int + 0x100 * mem[a + 1] as int + 0x1_0000 * mem[a + 2] as int + 0x100_0000 * mem[a + 3] as int
  }

  /** A load leaves the integer that its bytes stand for, signed or unsigned as its name says. */
  lemma LoadsInteger(i: Inst, a: word, b: word, m: Core)
    requires IsSizedLoad(i.op) && a % Size(i.op) == 0 && a + Size(i.op) <= TWO32 && Mapped(m.mem, a, Size(i.op))
    ensures var e, x := ExecuteMemory(i, a, b, m), LittleEndian(m.mem, a, Size(i.op));
      && e.dest.Loaded? && e.dest.r == i.rt && e.core == Next(m) && e.outcome == Running
      && (i.op.LB? ==> Signed(e.dest.v) == if x < 0x80 then x else x - 0x100)
      && (i.op.LH? ==> Signed(e.dest.v) == if x < 0x8000 then x else x - 0x1_0000)
      && (!i.op.LB? && !i.op.LH? ==> e.dest.v == x)
  {
    hide Wrap;
  }

  /** A store changes exactly its own bytes, to the low bytes of the register. */
  lemma StoresBytes(i: Inst, a: word, b: word, m: Core)
    requires IsSizedStore(i.op) && a % Size(i.op) == 0 && a + Size(i.op) <= TWO32 && Mapped(m.mem, a, Size(i.op))
    ensures var e := ExecuteMemory(i, a, b, m);
      && e.dest == NoDest && e.core == Next(m).(mem := e.core.mem) && e.outcome == Running
      && e.core.mem.Keys == m.mem.Keys
      && LittleEndian(e.core.mem, a, Size(i.op)) == b % Scale(Size(i.op))
      && forall x: word | x in m.mem && !(a <= x < a + Size(i.op)) :: e.core.mem[x] == m.mem[x]
  {
    hide ByteOf, Wrap;
    LowBytes(b);
    if i.op.SB? {
      assert ExecuteMemory(i, a, b, m) == Stored(m, m.mem[a := ByteOf(b, 0)]);
    } else if i.op.SH? {
      assert ExecuteMemory(i, a, b, m) == Stored(m, PutHalf(m.mem, a, b));
    } else {
      assert ExecuteMemory(i, a, b, m) == Stored(m, PutWord(m.mem, a, b));
    }
  }

  lemma LowBytes(b: word)
    ensures ByteOf(b, 0) == b % 0x100 && ByteOf(b, 0) + 0x100 * ByteOf(b, 1) == b % 0x1_0000
    ensures ByteOf(b, 0) + 0x100 * ByteOf(b, 1) + 0x1_0000 * ByteOf(b, 2) + 0x100_0000 * ByteOf(b, 3) == b % TWO32
  {
    BytesJoin(b);
    Memory.WordHalves(b);
    SmallModulo(b, TWO32);
  }

  function Scale(n: nat): nat {
    if n == 1 then 0x100 else if n == 2 then 0x1_0000 else TWO32
  }

  /** An access that is not aligned to its own size faults as such, whatever is mapped; an aligned one to
      memory that is not there is a bus error; nothing is written then, and a load leaves 0. */
  lemma AccessFaults(i: Inst, a: word, b: word, m: Core)
    requires IsSizedLoad(i.op) || IsSizedStore(i.op)
    ensures var e, n := ExecuteMemory(i, a, b, m), Size(i.op);
      && (e.outcome == Trap(if IsSizedLoad(i.op) then 4 else 5) <==> a % n != 0)
      && (e.outcome == Trap(7) <==> a % n == 0 && !Mapped(m.mem, a, n))
      && (e.outcome != Running ==> e.core == m && e.dest == if IsSizedLoad(i.op) then Loaded(i.rt, 0) else NoDest)
  {
    hide Wrap, HalfAt, WordAt, PutHalf, PutWord, SignExtendByte, SignExtendHalf;
  }
  /** The loads leave what the memory that holds the simulated segments returns for their size, and the
      unsigned ones its low bits. */
  lemma LoadsAsMemory(i: Inst, a: word, b: word, m: Core)
    requires IsSizedLoad(i.op) && a % Size(i.op) == 0 && a + Size(i.op) <= TWO32 && Mapped(m.mem, a, Size(i.op))
    ensures var e, read := ExecuteMemory(i, a, b, m), Memory.Store.Loaded(m.mem, a, Size(i.op));
      e.dest == Loaded(i.rt, if i.op.LBU? || i.op.LHU? then read % Scale(Size(i.op)) else read)
  {
    hide Wrap, WordAt, Join;
    ExtensionsKeepLow(m.mem[a]);
    if i.op.LH? || i.op.LHU? {
      HalvesKeepLow(HalfAt(m.mem, a));
    }
  }

  lemma ExtensionsKeepLow(x: byte)
    ensures SignExtendByte(x) % 0x100 == x
  {
    QuotientIs(SignExtendByte(x), 0x100, if x < 0x80 then 0 else 0xff_ffff, x);
  }

  lemma HalvesKeepLow(x: half)
    ensures SignExtendHalf(x) % 0x1_0000 == x
  {
    QuotientIs(SignExtendHalf(x), 0x1_0000, if x < 0x8000 then 0 else 0xffff, x);
  }

  lemma LoadsHalf(i: Inst, a: word, b: word, m: Core)
    requires (i.op.LH? || i.op.LHU?) && a % 2 == 0 && a + 2 <= TWO32 && Mapped(m.mem, a, 2)
    ensures ExecuteMemory(i, a, b, m) == Effect(Loaded(i.rt, UnalignedHalf(i.op.LH?, m.mem, a)), Next(m), Running)
  {
    hide Wrap, SignExtendHalf, JoinHalf;
  }

  /** At an even address `lh` and `lhu` leave in rd what `ulh` and `ulhu` put together from two bytes. */
  lemma AlignedLikeUnaligned(text: Text, other: Text, s: State, signed: bool, rd: reg, rs: reg, v: word)
    returns (n: nat, k: nat)
    requires rd != 0 && rd != 1 && rs != 1 && rs != rd && !Misassembled(v) && !Misassembled(Wrap(v + 1))
    requires s.outcome == Running && Placed(text, s.PC, Code(if signed then LH else LHU, rd, rs, v))
    requires Placed(other, s.PC, UlhCode(signed, rd, rs, v))
    requires var a := Wrap(Reg(s, rs) + v); a % 2 == 0 && a + 2 <= TWO32 && a in s.mem && a + 1 in s.mem
    ensures var t, u := Run(text, s, n), Run(other, s, k);
      && t.outcome == u.outcome == Running && t.R[rd] == u.R[rd] && OnlyRegs(s, t, {1, rd}) && OnlyRegs(s, u, {1, rd})
  {
    hide Run, Code, UlhCode, Placed, Misassembled, Wrap, ExecuteMemory, UnalignedHalf;
    k := UlhCorrect(other, s, signed, rd, rs, v);
    var op := if signed then LH else LHU;
    HalfIsAccess(op);
    assert Code(op, rd, rs, v) + [] == Code(op, rd, rs, v);
    var t, i;
    n, t, i := Access(text, s, op, rd, rs, v, []);
    LoadsHalf(i, Wrap(Reg(s, rs) + v), Reg(t, rd), CoreOf(t));
  }

  lemma HalfIsAccess(op: Opcode)
    requires op.LH? || op.LHU?
    ensures IsLoadStore(op)
  {
  }

  // ---- Transfers of control ------------------------------------------------------------------------

  /** A branch without its link. */
  function Unlinked(op: Opcode): Opcode {
    match op
    case BLTZAL => BLTZ
    case BLTZALL => BLTZL
    case BGEZAL => BGEZ
    case BGEZALL => BGEZL
    case _ => op
  }

  /** A branch that leaves the next instruction alone. */
  function Unlikely(op: Opcode): Opcode {
    match op
    case BEQL => BEQ
    case BNEL => BNE
    case BLTZL => BLTZ
    case BGEZL => BGEZ
    case BGTZL => BGTZ
    case BLEZL => BLEZ
    case BLTZALL => BLTZAL
    case BGEZALL => BGEZAL
    case _ => op
  }

  function PlainForm(op: Opcode): Opcode {
    Unlinked(Unlikely(op))
  }

  /** Linking and likely branches are taken when their plain form is, and go where it goes; the link is the
      next instruction, taken or not; a likely one that is not taken skips that instruction.  A branch that
      links tests $31 after it has been written. */
  lemma BranchVariants(i: Inst, a: word, b: word, m: Core)
    requires IsBranch(i.op)
    ensures IsBranch(PlainForm(i.op))
    ensures var next, links, likely := Wrap(m.PC + 4), Unlinked(i.op) != i.op, Unlikely(i.op) != i.op;
      var tested := if links && i.rs == 31 then next else a;
      var e, plain := Execute(i, a, b, m), Execute(i.(op := PlainForm(i.op)), tested, b, m);
      && e.dest == (if links then Written(31, next) else NoDest)
      && plain.dest == NoDest && e.outcome == plain.outcome == Running
      && e.core == plain.core.(PC := if likely && !Taken(PlainForm(i.op), tested, b) then Wrap(m.PC + 8) else plain.core.PC)
  {
    hide Taken, Displacement, Wrap, Unlinked, Unlikely, IsBranch, Links, IsLikely;
    PlainTest(i.op, a, b);
    PlainTest(i.op, Wrap(m.PC + 4), b);
  }

  lemma PlainTest(op: Opcode, a: word, b: word)
    requires IsBranch(op)
    ensures IsBranch(PlainForm(op)) && Taken(op, a, b) == Taken(PlainForm(op), a, b)
    ensures !Links(PlainForm(op)) && !IsLikely(PlainForm(op))
    ensures (Links(op) <==> Unlinked(op) != op) && (IsLikely(op) <==> Unlikely(op) != op)
  {
  }

  /** The four jumps: J and JAL go to the same place, as do JR and JALR; the calls link the next instruction. */
  lemma JumpVariants(i: Inst, a: word, b: word, m: Core)
    requires IsJump(i.op)
    ensures var e, link := Execute(i, a, b, m), Wrap(m.PC + 4);
      && e.dest == (if i.op.JAL? then Written(31, link) else if i.op.JALR? then Written(i.rd, link) else NoDest)
      && e.outcome == Running
      && e.core == m.(PC := if TakesTarget(i.op) then JumpTarget(m, i.target) else a)
  {
    hide JumpTarget, Wrap;
  }
  // ---- Pseudo-instructions -------------------------------------------------------------------------

  /** The comparisons of the pseudo-instructions: each is another one turned round or denied, signed and
      unsigned alike, and less-than is that of SLT and SLTU. */
  lemma RelationsAgree(a: word, b: word)
    ensures Holds(LT, a, b) <==> RegisterOp(SLT, a, b) == 1
    ensures Holds(LTU, a, b) <==> RegisterOp(SLTU, a, b) == 1
    ensures (Holds(GT, a, b) <==> Holds(LT, b, a)) && (Holds(GTU, a, b) <==> Holds(LTU, b, a))
    ensures (Holds(GE, a, b) <==> !Holds(LT, a, b)) && (Holds(GEU, a, b) <==> !Holds(LTU, a, b))
    ensures (Holds(LE, a, b) <==> !Holds(GT, a, b)) && (Holds(LEU, a, b) <==> !Holds(GTU, a, b))
    ensures Holds(EQ, a, b) <==> Holds(LE, a, b) && Holds(GE, a, b)
    ensures Holds(EQ, a, b) <==> Holds(LEU, a, b) && Holds(GEU, a, b)
    ensures Holds(NE, a, b) <==> !Holds(EQ, a, b)
  {
    hide ShiftLeft, ShiftRight, ShiftRightArith, And, Or, Xor, Wrap;
  }

  /** `rol` moves every bit up by the distance in rt, around the word, and `ror` moves it down. */
  lemma RotationMovesBits(text: Text, s: State, left: bool, rd: reg, rs: reg, rt: reg, j: nat)
    requires rd != 0 && rd != 1 && rs != 1 && rt != 1 && j < 32
    requires s.outcome == Running && Placed(text, s.PC, RotateCode(left, rd, rs, rt))
    ensures var r, x, k := Run(text, s, 4).R[rd], Reg(s, rs), Reg(s, rt) % 32;
      if left then Bit(r, (j + k) % 32) == Bit(x, j) else Bit(r, j) == Bit(x, (j + k) % 32)
  {
    hide Run, RotateCode, Placed, Bit, RotateLeft, LeftDistance;
    RotateCorrect(text, s, left, rd, rs, rt);
    RotatedBits(left, Reg(s, rs), Reg(s, rt) % 32, j);
  }

  lemma RotatedBits(left: bool, x: word, k: nat, j: nat)
    requires k < 32 && j < 32
    ensures var r := RotateLeft(x, LeftDistance(left, k));
      if left then Bit(r, (j + k) % 32) == Bit(x, j) else Bit(r, j) == Bit(x, (j + k) % 32)
  {
    hide Bit, RotateLeft;
    if left {
      RotateLeftBits(x, k, j);
    } else {
      RotateLeftBits(x, (32 - k) % 32, (j + k) % 32);
      AroundAndBack(j, k);
    }
  }

  lemma AroundAndBack(j: nat, k: nat)
    requires j < 32 && k < 32
    ensures ((j + k) % 32 + (32 - k) % 32) % 32 == j
  {
  }

  /** The same by a constant. */
  lemma RotationByConstant(text: Text, s: State, left: bool, rd: reg, rs: reg, dist: int, j: nat)
    requires rd != 0 && rd != 1 && rs != 1 && j < 32
    requires s.outcome == Running && Placed(text, s.PC, RotateImmediateCode(left, rd, rs, dist))
    ensures var r, x, k := Run(text, s, 3).R[rd], Reg(s, rs), dist % 32;
      if left then Bit(r, (j + k) % 32) == Bit(x, j) else Bit(r, j) == Bit(x, (j + k) % 32)
  {
    hide Run, RotateImmediateCode, Placed, Bit, RotateLeft, LeftDistance;
    RotateImmediateCorrect(text, s, left, rd, rs, dist);
    RotatedBits(left, Reg(s, rs), dist % 32, j);
  }
  /** The quotient and the remainder of the division pseudo-instructions belong together. */
  lemma QuotientAndRemainder(signed: bool, a: word, b: word)
    requires b != 0
    ensures var x, y := if signed then Signed(a) else a, if signed then Signed(b) else b;
      var q, r := Divided(DivOp(signed, false), a, b), Divided(DivOp(signed, true), a, b);
      x == q * y + r && Abs(r) < Abs(y) && (r == 0 || (r < 0 <==> x < 0))
  {
    if signed {
      TruncDivHolds(Signed(a), Signed(b));
    } else {
      DivisionHolds(a, b);
    }
  }

  /** The signed product is negative exactly for factors of different signs, and has the low word of the
      unsigned one, which never is. */
  lemma ProductsCompared(a: word, b: word)
    ensures Product(true, a, b) < 0 <==> a != 0 && b != 0 && Bit(a, 31) != Bit(b, 31)
    ensures Product(false, a, b) >= 0 && Lower(Product(true, a, b)) == Lower(Product(false, a, b))
  {
    hide Bit;
    SignOf(a);
    SignOf(b);
    ProductSign(Signed(a), Signed(b));
    ProductSign(a, b);
    SameLow(a, b);
  }

  lemma ProductSign(x: int, y: int)
    ensures x * y < 0 <==> x != 0 && y != 0 && (x < 0) != (y < 0)
  {
  }

  lemma SameLow(a: word, b: word)
    ensures Signed(a) * Signed(b) % TWO32 == a * b % TWO32
  {
    var i, j := if a < 0x8000_0000 then 0 else 1, if b < 0x8000_0000 then 0 else 1;
    var k := i * j * TWO32 - j * a - i * b;
    assert Signed(a) * Signed(b) == a * b + TWO32 * k by {
      assert Signed(a) == a - i * TWO32 && Signed(b) == b - j * TWO32;
      Expanded(a, b, i * TWO32, j * TWO32);
    }
    var q, r := a * b / TWO32, a * b % TWO32;
    QuotientIs(a * b + TWO32 * k, TWO32, q + k, r);
  }

  lemma Expanded(a: int, b: int, c: int, d: int)
    ensures (a - c) * (b - d) == a * b + c * d - d * a - c * b
  {
  }
}
