/** The integer instructions of the simulated MIPS32 machine, one step at a time.

    Each instruction is given by its architectural meaning (integers, bytes of memory, 64-bit
    products), not by the C expressions that compute it; `Interpreter.Cpu` is the C-shaped
    interpreter and is proved to implement this step.  The mode is the simulator's default one:
    little-endian, no delayed branches. */
module Isa {
  import opened Words

  datatype Opcode =
    | ADD | ADDI | ADDIU | ADDU | AND | ANDI
    | BEQ | BEQL | BGEZ | BGEZL | BGEZAL | BGEZALL | BGTZ | BGTZL | BLEZ | BLEZL
    | BLTZ | BLTZL | BLTZAL | BLTZALL | BNE | BNEL | BREAK
    | DIV | DIVU | J | JAL | JALR | JR
    | LB | LBU | LH | LHU | LL | LUI | LW | LWL | LWR
    | MADD | MADDU | MFHI | MFLO | MOVN | MOVZ | MSUB | MSUBU | MTHI | MTLO | MUL | MULT | MULTU
    | NOR | OR | ORI | SB | SC | SH | SLL | SLLV | SLT | SLTI | SLTIU | SLTU
    | SRA | SRAV | SRL | SRLV | SUB | SUBU | SW | SWL | SWR | XOR | XORI

  type reg = r: nat | r < 32

  /** A decoded instruction.  Fields its format does not have are 0. */
  datatype Inst = Inst(op: Opcode, rs: reg, rt: reg, rd: reg, shamt: nat, imm: short, target: word)

  function RType(op: Opcode, rd: reg, rs: reg, rt: reg): Inst {
    Inst(op, rs, rt, rd, 0, 0, 0)
  }

  /** Only the low five bits of a shift distance are kept. */
  function ShiftType(op: Opcode, rd: reg, rt: reg, shamt: int): Inst {
    Inst(op, 0, rt, rd, shamt % 32, 0, 0)
  }

  function IType(op: Opcode, rt: reg, rs: reg, imm: short): Inst {
    Inst(op, rs, rt, 0, 0, imm, 0)
  }

  function JType(op: Opcode, target: word): Inst {
    Inst(op, 0, 0, 0, 0, 0, target)
  }

  /** Why a run stopped.  An exception leaves PC at the faulting instruction, as in EPC. */
  datatype Outcome = Running | Trap(code: nat) | NoInstruction

  const ADDRESS_ERROR_LOAD := 4
  const ADDRESS_ERROR_STORE := 5
  const BUS_ERROR_DATA := 7
  const BREAKPOINT := 9
  const OVERFLOW := 12

  type Regs = r: seq<word> | |r| == 32 witness seq(32, _ => 0)
  type Bytes = map<word, byte>
  type Text = map<word, Inst>

  datatype State = State(R: Regs, HI: word, LO: word, PC: word, mem: Bytes, outcome: Outcome)

  // ---- Bytes of words and of memory --------------------------------------------------------

  function ByteOf(x: word, k: nat): byte
    requires k < 4
  {
    if k == 0 then x % 0x100
    else if k == 1 then x / 0x100 % 0x100
    else if k == 2 then x / 0x1_0000 % 0x100
    else x / 0x100_0000
  }

  function Join(b0: byte, b1: byte, b2: byte, b3: byte): word {
    b0 + 0x100 * b1 + 0x1_0000 * b2 + 0x100_0000 * b3
  }

  lemma JoinBytes(b0: byte, b1: byte, b2: byte, b3: byte)
    ensures var x := Join(b0, b1, b2, b3);
      ByteOf(x, 0) == b0 && ByteOf(x, 1) == b1 && ByteOf(x, 2) == b2 && ByteOf(x, 3) == b3
  {
    var x := Join(b0, b1, b2, b3);
    var h1 := b1 + 0x100 * b2 + 0x1_0000 * b3;
    var h2 := b2 + 0x100 * b3;
    QuotientIs(x, 0x100, h1, b0);
    QuotientIs(x, 0x1_0000, h2, b0 + 0x100 * b1);
    QuotientIs(x, 0x100_0000, b3, b0 + 0x100 * b1 + 0x1_0000 * b2);
    QuotientIs(h1, 0x100, h2, b1);
    QuotientIs(h2, 0x100, b3, b2);
  }

  lemma NestedQuotients(x: word)
    ensures x / 0x1_0000 == x / 0x100 / 0x100 && x / 0x100_0000 == x / 0x100 / 0x100 / 0x100
  {
    DivDiv(x, 0x100, 0x100);
    DivDiv(x, 0x1_0000, 0x100);
  }

  lemma BytesJoin(x: word)
    ensures Join(ByteOf(x, 0), ByteOf(x, 1), ByteOf(x, 2), ByteOf(x, 3)) == x
  {
    NestedQuotients(x);
    var h1 := x / 0x100;
    var h2 := h1 / 0x100;
    assert x == 0x100 * h1 + ByteOf(x, 0) && h1 == 0x100 * h2 + ByteOf(x, 1)
        && h2 == 0x100 * ByteOf(x, 3) + ByteOf(x, 2);
  }

  function JoinHalf(b0: byte, b1: byte): half {
    b0 + 0x100 * b1
  }

  /** The address of the aligned word that holds byte a. */
  function WordBase(a: word): (b: word)
    ensures b % 4 == 0 && b <= a < b + 4 && b + 3 < TWO32
  {
    a - a % 4
  }

  predicate Mapped(mem: Bytes, a: word, n: nat) {
    forall k: word :: a <= k < a + n ==> k in mem
  }

  function WordAt(mem: Bytes, a: word): word
    requires a + 3 < TWO32 && Mapped(mem, a, 4)
  {
    Join(mem[a], mem[a + 1], mem[a + 2], mem[a + 3])
  }

  function HalfAt(mem: Bytes, a: word): half
    requires a + 1 < TWO32 && Mapped(mem, a, 2)
  {
    JoinHalf(mem[a], mem[a + 1])
  }

  function PutWord(mem: Bytes, a: word, v: word): Bytes
    requires a + 3 < TWO32
  {
    mem[a := ByteOf(v, 0)][a + 1 := ByteOf(v, 1)][a + 2 := ByteOf(v, 2)][a + 3 := ByteOf(v, 3)]
  }

  function PutHalf(mem: Bytes, a: word, v: word): Bytes
    requires a + 1 < TWO32
  {
    mem[a := ByteOf(v, 0)][a + 1 := ByteOf(v, 1)]
  }

  function SignExtendByte(b: byte): word {
    if b < 0x80 then b else b + 0xffff_ff00
  }

  function SignExtendHalf(h: half): word {
    if h < 0x8000 then h else h + 0xffff_0000
  }

  // ---- Shifts, products --------------------------------------------------------------------

  function ShiftLeft(x: word, k: nat): word {
    Wrap(x * Pow2(k))
  }

  function ShiftRight(x: word, k: nat): word {
    QuotientBound(x, Pow2(k));
    x / Pow2(k)
  }

  function ShiftRightArith(x: word, k: nat): word {
    Wrap(Signed(x) / Pow2(k))
  }

  const TWO64 := 0x1_0000_0000_0000_0000

  /** The upper and the lower word of a 64-bit two's-complement number. */
  function Upper(p: int): word {
    p % TWO64 / TWO32
  }

  function Lower(p: int): word {
    p % TWO32
  }

  function Accumulator(hi: word, lo: word): int {
    hi * TWO32 + lo
  }

  // ---- One instruction ---------------------------------------------------------------------

  /** What an instruction may do to a general register.  `Loaded` is separate because loaded
      values are the ones the delayed-load mode holds back. */
  datatype Dest = NoDest | Written(r: reg, v: word) | Loaded(r: reg, v: word)

  /** Everything but the general registers. */
  datatype Core = Core(HI: word, LO: word, PC: word, mem: Bytes)

  datatype Effect = Effect(dest: Dest, core: Core, outcome: Outcome)

  function Next(m: Core): Core {
    m.(PC := Wrap(m.PC + 4))
  }

  function Put(m: Core, r: reg, v: word): Effect {
    Effect(Written(r, v), Next(m), Running)
  }

  function Fault(m: Core, code: nat): Effect {
    Effect(NoDest, m, Trap(code))
  }

  function HiLo(m: Core, p: int): Effect {
    Effect(NoDest, Next(m).(HI := Upper(p), LO := Lower(p)), Running)
  }

  /** The displacement of a branch: the field in words, sign-extended from 16 bits of bytes. */
  function Displacement(imm: short): int {
    var x := imm * 4;
    if x % TWO16 >= 0x8000 then x % TWO16 - TWO16 else x
  }

  function JumpTarget(m: Core, target: word): word {
    Or(m.PC / 0x1000_0000 * 0x1000_0000, Wrap(target * 4))
  }

  /** A failing load still stores 0 in its register: the read routine returns 0. */
  function LoadFault(m: Core, r: reg, code: nat): Effect {
    Effect(Loaded(r, 0), m, Trap(code))
  }

  function LoadByte(m: Core, r: reg, a: word, signed: bool): Effect {
    if a !in m.mem then LoadFault(m, r, BUS_ERROR_DATA)
    else Effect(Loaded(r, if signed then SignExtendByte(m.mem[a]) else m.mem[a]), Next(m), Running)
  }

  function LoadHalf(m: Core, r: reg, a: word, signed: bool): Effect {
    if a % 2 != 0 then LoadFault(m, r, ADDRESS_ERROR_LOAD)
    else if !Mapped(m.mem, a, 2) then LoadFault(m, r, BUS_ERROR_DATA)
    else
      var h := HalfAt(m.mem, a);
      Effect(Loaded(r, if signed then SignExtendHalf(h) else h), Next(m), Running)
  }

  function LoadWord(m: Core, r: reg, a: word): Effect {
    if a % 4 != 0 then LoadFault(m, r, ADDRESS_ERROR_LOAD)
    else if !Mapped(m.mem, a, 4) then LoadFault(m, r, BUS_ERROR_DATA)
    else Effect(Loaded(r, WordAt(m.mem, a)), Next(m), Running)
  }

  function LoadLeft(m: Core, r: reg, a: word, v: word): Effect {
    if !Mapped(m.mem, WordBase(a), 4) then LoadFault(m, r, BUS_ERROR_DATA)
    else Effect(Loaded(r, MergeLeft(m.mem, a, v)), Next(m), Running)
  }

  function LoadRight(m: Core, r: reg, a: word, v: word): Effect {
    if !Mapped(m.mem, WordBase(a), 4) then LoadFault(m, r, BUS_ERROR_DATA)
    else Effect(Loaded(r, MergeRight(m.mem, a, v)), Next(m), Running)
  }

  /** LWL: the bytes from a down to its word boundary become the high bytes of the register. */
  function MergeLeft(mem: Bytes, a: word, v: word): word
    requires Mapped(mem, WordBase(a), 4)
  {
    match a % 4
    case 0 => Join(ByteOf(v, 0), ByteOf(v, 1), ByteOf(v, 2), mem[a])
    case 1 => Join(ByteOf(v, 0), ByteOf(v, 1), mem[a - 1], mem[a])
    case 2 => Join(ByteOf(v, 0), mem[a - 2], mem[a - 1], mem[a])
    case _ => Join(mem[a - 3], mem[a - 2], mem[a - 1], mem[a])
  }

  /** LWR: the bytes from a up to the end of its word become the low bytes of the register. */
  function MergeRight(mem: Bytes, a: word, v: word): word
    requires Mapped(mem, WordBase(a), 4)
  {
    match a % 4
    case 0 => Join(mem[a], mem[a + 1], mem[a + 2], mem[a + 3])
    case 1 => Join(mem[a], mem[a + 1], mem[a + 2], ByteOf(v, 3))
    case 2 => Join(mem[a], mem[a + 1], ByteOf(v, 2), ByteOf(v, 3))
    case _ => Join(mem[a], ByteOf(v, 1), ByteOf(v, 2), ByteOf(v, 3))
  }

  /** SWL: the high bytes of v go to a and the addresses below it, down to the word boundary. */
  function SpreadLeft(mem: Bytes, a: word, v: word): Bytes {
    match a % 4
    case 0 => mem[a := ByteOf(v, 3)]
    case 1 => mem[a := ByteOf(v, 3)][a - 1 := ByteOf(v, 2)]
    case 2 => mem[a := ByteOf(v, 3)][a - 1 := ByteOf(v, 2)][a - 2 := ByteOf(v, 1)]
    case _ => mem[a := ByteOf(v, 3)][a - 1 := ByteOf(v, 2)][a - 2 := ByteOf(v, 1)][a - 3 := ByteOf(v, 0)]
  }

  /** SWR: the low bytes of v go to a and the addresses above it, up to the end of the word. */
  function SpreadRight(mem: Bytes, a: word, v: word): Bytes {
    match a % 4
    case 0 => mem[a := ByteOf(v, 0)][a + 1 := ByteOf(v, 1)][a + 2 := ByteOf(v, 2)][a + 3 := ByteOf(v, 3)]
    case 1 => mem[a := ByteOf(v, 0)][a + 1 := ByteOf(v, 1)][a + 2 := ByteOf(v, 2)]
    case 2 => mem[a := ByteOf(v, 0)][a + 1 := ByteOf(v, 1)]
    case _ => mem[a := ByteOf(v, 0)]
  }

  function Stored(m: Core, mem: Bytes): Effect {
    Effect(NoDest, Next(m).(mem := mem), Running)
  }

  function StoreByte(m: Core, a: word, v: word): Effect {
    if a !in m.mem then Fault(m, BUS_ERROR_DATA) else Stored(m, m.mem[a := ByteOf(v, 0)])
  }

  function StoreHalf(m: Core, a: word, v: word): Effect {
    if a % 2 != 0 then Fault(m, ADDRESS_ERROR_STORE)
    else if !Mapped(m.mem, a, 2) then Fault(m, BUS_ERROR_DATA)
    else Stored(m, PutHalf(m.mem, a, v))
  }

  function StoreWord(m: Core, a: word, v: word): Effect {
    if a % 4 != 0 then Fault(m, ADDRESS_ERROR_STORE)
    else if !Mapped(m.mem, a, 4) then Fault(m, BUS_ERROR_DATA)
    else Stored(m, PutWord(m.mem, a, v))
  }

  function StoreLeft(m: Core, a: word, v: word): Effect {
    if !Mapped(m.mem, WordBase(a), 4) then Fault(m, BUS_ERROR_DATA)
    else Stored(m, SpreadLeft(m.mem, a, v))
  }

  function StoreRight(m: Core, a: word, v: word): Effect {
    if !Mapped(m.mem, WordBase(a), 4) then Fault(m, BUS_ERROR_DATA)
    else Stored(m, SpreadRight(m.mem, a, v))
  }

  /** A signed sum or difference x that must fit in 32 bits. */
  function Checked(m: Core, r: reg, x: int): Effect {
    if -0x8000_0000 <= x < 0x8000_0000 then Put(m, r, Wrap(x)) else Fault(m, OVERFLOW)
  }

  /** Both divisions skip a zero divisor and the pair 0x80000000, 0xffffffff. */
  predicate DivisionSkipped(a: word, b: word) {
    b == 0 || (a == 0x8000_0000 && b == 0xffff_ffff)
  }

  function Divide(m: Core, a: word, b: word): Effect
    requires b != 0
  {
    Effect(NoDest, Next(m).(HI := Wrap(TruncRem(Signed(a), Signed(b))),
                            LO := Wrap(TruncDiv(Signed(a), Signed(b)))), Running)
  }

  function DivideUnsigned(m: Core, a: word, b: word): Effect
    requires b != 0
  {
    Effect(NoDest, Next(m).(HI := Wrap(a % b), LO := Wrap(a / b)), Running)
  }

  function Flag(c: bool): word {
    if c then 1 else 0
  }

  function Unsigned16(imm: short): half {
    imm % TWO16
  }

  predicate IsBranch(op: Opcode) {
    op.BEQ? || op.BEQL? || op.BGEZ? || op.BGEZL? || op.BGEZAL? || op.BGEZALL? || op.BGTZ? || op.BGTZL? || op.BLEZ? || op.BLEZL? || op.BLTZ? || op.BLTZL? || op.BLTZAL? || op.BLTZALL? || op.BNE? || op.BNEL?
  }

  predicate IsJump(op: Opcode) {
    op.J? || op.JAL? || op.JALR? || op.JR?
  }

  /** The jumps whose target is a field of the instruction. */
  predicate TakesTarget(op: Opcode) {
    op.J? || op.JAL?
  }

  /** A branch-likely instruction that is not taken skips the instruction after it. */
  predicate IsLikely(op: Opcode) {
    op.BEQL? || op.BGEZL? || op.BGEZALL? || op.BGTZL? || op.BLEZL? || op.BLTZL? || op.BLTZALL? || op.BNEL?
  }

  predicate Links(op: Opcode) {
    op.BGEZAL? || op.BGEZALL? || op.BLTZAL? || op.BLTZALL?
  }

  predicate Taken(op: Opcode, a: word, b: word)
    requires IsBranch(op)
  {
    if op.BEQ? || op.BEQL? then a == b
    else if op.BNE? || op.BNEL? then a != b
    else if op.BGTZ? || op.BGTZL? then Signed(a) > 0
    else if op.BLEZ? || op.BLEZL? then Signed(a) <= 0
    else if (op.BLTZ? || op.BLTZL? || op.BLTZAL? || op.BLTZALL?) then Negative(a)
    else !Negative(a)
  }

  /** The branches that link write register 31 before they test their source. */
  function Tested(i: Inst, a: word, link: word): word {
    if Links(i.op) && i.rs == 31 then link else a
  }

  function ExecuteBranch(i: Inst, a: word, b: word, m: Core): Effect
    requires IsBranch(i.op)
  {
    var link := Wrap(m.PC + 4);
    var pc := if Taken(i.op, Tested(i, a, link), b) then Wrap(m.PC + Displacement(i.imm))
              else if IsLikely(i.op) then Wrap(m.PC + 8)
              else link;
    Effect(if Links(i.op) then Written(31, link) else NoDest, m.(PC := pc), Running)
  }

  function ExecuteJump(i: Inst, a: word, m: Core): Effect
    requires IsJump(i.op)
  {
    var link := Wrap(m.PC + 4);
    if i.op.J? then Effect(NoDest, m.(PC := JumpTarget(m, i.target)), Running)
    else if i.op.JAL? then Effect(Written(31, link), m.(PC := JumpTarget(m, i.target)), Running)
    else if i.op.JALR? then Effect(Written(i.rd, link), m.(PC := a), Running)
    else Effect(NoDest, m.(PC := a), Running)
  }

  /** Instruction i with a in its register rs and b in its register rt. */
  function Execute(i: Inst, a: word, b: word, m: Core): Effect {
    if IsBranch(i.op) then ExecuteBranch(i, a, b, m)
    else if IsJump(i.op) then ExecuteJump(i, a, m)
    else if i.op.BREAK? then Fault(m, BREAKPOINT)
    else ExecuteAlu(i, a, b, m)
  }

  predicate IsRegisterOp(op: Opcode) {
    op.ADDU? || op.AND? || op.NOR? || op.OR? || op.SLLV? || op.SLT? || op.SLTU? || op.SRAV? || op.SRLV? || op.SUBU? || op.XOR?
  }

  /** Three-register operations that cannot trap: a is R[rs], b is R[rt]. */
  function RegisterOp(op: Opcode, a: word, b: word): word
    requires IsRegisterOp(op)
  {
    if op.ADDU? then Wrap(a + b)
    else if op.AND? then And(a, b)
    else if op.NOR? then Not(Or(a, b))
    else if op.OR? then Or(a, b)
    else if op.SLLV? then ShiftLeft(b, a % 32)
    else if op.SLT? then Flag(Signed(a) < Signed(b))
    else if op.SLTU? then Flag(a < b)
    else if op.SRAV? then ShiftRightArith(b, a % 32)
    else if op.SRLV? then ShiftRight(b, a % 32)
    else if op.SUBU? then Wrap(a - b)
    else Xor(a, b)
  }

  predicate IsImmediateOp(op: Opcode) {
    op.ADDIU? || op.ANDI? || op.LUI? || op.ORI? || op.SLTI? || op.SLTIU? || op.XORI?
  }

  /** Immediate operations that cannot trap: a is R[rs]. */
  function ImmediateOp(op: Opcode, a: word, imm: short): word
    requires IsImmediateOp(op)
  {
    if op.ADDIU? then Wrap(a + imm)
    else if op.ANDI? then And(a, Unsigned16(imm))
    else if op.LUI? then Unsigned16(imm) * TWO16
    else if op.ORI? then Or(a, Unsigned16(imm))
    else if op.SLTI? then Flag(Signed(a) < imm)
    else if op.SLTIU? then Flag(a < Wrap(imm))
    else Xor(a, Unsigned16(imm))
  }

  predicate IsShift(op: Opcode) {
    op.SLL? || op.SRA? || op.SRL?
  }

  function ShiftOp(op: Opcode, b: word, shamt: nat): word
    requires IsShift(op)
  {
    if shamt >= 32 then b
    else if op.SLL? then ShiftLeft(b, shamt)
    else if op.SRA? then ShiftRightArith(b, shamt)
    else ShiftRight(b, shamt)
  }

  function ExecuteAlu(i: Inst, a: word, b: word, m: Core): Effect {
    if IsRegisterOp(i.op) then Put(m, i.rd, RegisterOp(i.op, a, b))
    else if IsImmediateOp(i.op) then Put(m, i.rt, ImmediateOp(i.op, a, i.imm))
    else if IsShift(i.op) then Put(m, i.rd, ShiftOp(i.op, b, i.shamt))
    else match i.op
      case ADD => Checked(m, i.rd, Signed(a) + Signed(b))
      case ADDI => Checked(m, i.rt, Signed(a) + i.imm)
      case SUB => Checked(m, i.rd, Signed(a) - Signed(b))
      case MOVN => if b != 0 then Put(m, i.rd, a) else Effect(NoDest, Next(m), Running)
      case MOVZ => if b == 0 then Put(m, i.rd, a) else Effect(NoDest, Next(m), Running)
      case _ => ExecuteMulDiv(i, a, b, m)
  }

  function ExecuteMulDiv(i: Inst, a: word, b: word, m: Core): Effect {
    match i.op
    case DIV => if DivisionSkipped(a, b) then Effect(NoDest, Next(m), Running) else Divide(m, a, b)
    case DIVU => if DivisionSkipped(a, b) then Effect(NoDest, Next(m), Running) else DivideUnsigned(m, a, b)
    case MADD => HiLo(m, Accumulator(m.HI, m.LO) + Signed(a) * Signed(b))
    case MADDU => HiLo(m, Accumulator(m.HI, m.LO) + a * b)
    case MFHI => Put(m, i.rd, m.HI)
    case MFLO => Put(m, i.rd, m.LO)
    case MSUB => HiLo(m, Accumulator(m.HI, m.LO) - Signed(a) * Signed(b))
    case MSUBU => HiLo(m, Accumulator(m.HI, m.LO) - a * b)
    case MTHI => Effect(NoDest, Next(m).(HI := a), Running)
    case MTLO => Effect(NoDest, Next(m).(LO := a), Running)
    case MUL => HiLo(m, Signed(a) * Signed(b)).(dest := Written(i.rd, Lower(Signed(a) * Signed(b))))
    case MULT => HiLo(m, Signed(a) * Signed(b))
    case MULTU => HiLo(m, a * b)
    case _ => ExecuteMemory(i, Wrap(a + i.imm), b, m)
  }

  /** Loads and stores, at effective address a; b is the register to store or to merge into. */
  function ExecuteMemory(i: Inst, a: word, b: word, m: Core): Effect {
    match i.op
    case LB => LoadByte(m, i.rt, a, true)
    case LBU => LoadByte(m, i.rt, a, false)
    case LH => LoadHalf(m, i.rt, a, true)
    case LHU => LoadHalf(m, i.rt, a, false)
    case LWL => LoadLeft(m, i.rt, a, b)
    case LWR => LoadRight(m, i.rt, a, b)
    case SB => StoreByte(m, a, b)
    case SC => StoreWord(m, a, b)
    case SH => StoreHalf(m, a, b)
    case SW => StoreWord(m, a, b)
    case SWL => StoreLeft(m, a, b)
    case SWR => StoreRight(m, a, b)
    case _ => LoadWord(m, i.rt, a)  // LW and LL
  }

  // ---- Steps and runs ----------------------------------------------------------------------

  /** Register 0 is cleared before every instruction; a write to it lasts until then. */
  function ZeroR0(R: Regs): Regs {
    R[0 := 0]
  }

  function Update(R: Regs, d: Dest): Regs {
    match d
    case NoDest => R
    case Written(r, v) => R[r := v]
    case Loaded(r, v) => R[r := v]
  }

  function CoreOf(s: State): Core {
    Core(s.HI, s.LO, s.PC, s.mem)
  }

  function Apply(s: State, e: Effect): State {
    State(Update(ZeroR0(s.R), e.dest), e.core.HI, e.core.LO, e.core.PC, e.core.mem, e.outcome)
  }

  function Reg(s: State, r: reg): word {
    if r == 0 then 0 else s.R[r]
  }

  function Perform(i: Inst, s: State): State {
    Apply(s, Execute(i, Reg(s, i.rs), Reg(s, i.rt), CoreOf(s)))
  }

  function Step(text: Text, s: State): State {
    if s.outcome != Running then s
    else if s.PC !in text then s.(R := ZeroR0(s.R), outcome := NoInstruction)
    else Perform(text[s.PC], s)
  }

  function Run(text: Text, s: State, n: nat): State
    decreases n
  {
    if n == 0 then s else Run(text, Step(text, s), n - 1)
  }

  lemma {:induction false} RunAdd(text: Text, s: State, m: nat, n: nat)
    ensures Run(text, s, m + n) == Run(text, Run(text, s, m), n)
    decreases m
  {
    hide Step;
    if m > 0 {
      RunAdd(text, Step(text, s), m - 1, n);
    }
  }

  /** One more step of a run, by the instruction found where the run stands. */
  lemma StepTo(text: Text, s: State, n: nat, t: State, i: Inst)
    requires Run(text, s, n) == t
    requires t.outcome == Running && t.PC in text && text[t.PC] == i
    ensures Run(text, s, n + 1) == Perform(i, t)
  {
    hide Perform;
    RunAdd(text, s, n, 1);
    assert Run(text, t, 1) == Run(text, Step(text, t), 0);
  }

  // ---- Blocks of code ----------------------------------------------------------------------

  /** The instructions of code are in the text from address base on. */
  ghost predicate Placed(text: Text, base: int, code: seq<Inst>) {
    && 0 <= base && base % 4 == 0 && base + 4 * |code| < TWO32
    && forall k: nat :: k < |code| ==> base + 4 * k in text && text[base + 4 * k] == code[k]
  }

  lemma PlacedParts(text: Text, base: int, front: seq<Inst>, back: seq<Inst>)
    requires Placed(text, base, front + back)
    ensures Placed(text, base, front)
    ensures Placed(text, base + 4 * |front|, back)
  {
    var code := front + back;
    forall k: nat | k < |front|
      ensures base + 4 * k in text && text[base + 4 * k] == front[k]
    {
      assert code[k] == front[k];
    }
    forall k: nat | k < |back|
      ensures base + 4 * |front| + 4 * k in text && text[base + 4 * |front| + 4 * k] == back[k]
    {
      assert code[|front| + k] == back[k];
      assert base + 4 * (|front| + k) in text;
    }
  }

  /** Every register outside changed reads the same in s and in t. */
  ghost predicate SameRegsExcept(s: State, t: State, changed: set<reg>) {
    forall r: reg :: r !in changed ==> Reg(t, r) == Reg(s, r)
  }

  // ---- One instruction as a new state ------------------------------------------------------

  /** s after an instruction that wrote v to r and went on to the next one. */
  function After(s: State, r: reg, v: word): State {
    State(ZeroR0(s.R)[r := v], s.HI, s.LO, Wrap(s.PC + 4), s.mem, Running)
  }

  /** s after an instruction that only moved PC. */
  function Moved(s: State, pc: word): State {
    s.(R := ZeroR0(s.R), PC := pc, outcome := Running)
  }

  function Trapped(s: State, code: nat): State {
    s.(R := ZeroR0(s.R), outcome := Trap(code))
  }

  lemma NoTransferOfControl(i: Inst, a: word, b: word, m: Core)
    requires IsRegisterOp(i.op) || IsImmediateOp(i.op) || IsShift(i.op)
    ensures Execute(i, a, b, m) == ExecuteAlu(i, a, b, m)
  {
    hide ExecuteAlu;
  }

  lemma Disjoint(op: Opcode)
    ensures IsImmediateOp(op) ==> !IsRegisterOp(op)
    ensures IsShift(op) ==> !IsRegisterOp(op) && !IsImmediateOp(op)
  {
  }

  lemma DoRegisterOp(s: State, i: Inst)
    requires IsRegisterOp(i.op)
    ensures Perform(i, s) == After(s, i.rd, RegisterOp(i.op, Reg(s, i.rs), Reg(s, i.rt)))
  {
    NoTransferOfControl(i, Reg(s, i.rs), Reg(s, i.rt), CoreOf(s));
    hide RegisterOp, Execute, IsRegisterOp, ExecuteMulDiv, Wrap;
  }

  lemma DoImmediateOp(s: State, i: Inst)
    requires IsImmediateOp(i.op)
    ensures Perform(i, s) == After(s, i.rt, ImmediateOp(i.op, Reg(s, i.rs), i.imm))
  {
    NoTransferOfControl(i, Reg(s, i.rs), Reg(s, i.rt), CoreOf(s));
    Disjoint(i.op);
    hide ImmediateOp, Execute, IsRegisterOp, IsImmediateOp, ExecuteMulDiv, Wrap;
  }

  lemma DoShift(s: State, i: Inst)
    requires IsShift(i.op)
    ensures Perform(i, s) == After(s, i.rd, ShiftOp(i.op, Reg(s, i.rt), i.shamt))
  {
    NoTransferOfControl(i, Reg(s, i.rs), Reg(s, i.rt), CoreOf(s));
    Disjoint(i.op);
    hide ShiftOp, Execute, IsRegisterOp, IsImmediateOp, IsShift, ExecuteMulDiv, Wrap;
  }

  function CheckedResult(s: State, r: reg, x: int): State {
    if -0x8000_0000 <= x < 0x8000_0000 then After(s, r, Wrap(x)) else Trapped(s, OVERFLOW)
  }

  lemma DoChecked(s: State, i: Inst)
    requires (i.op.ADD? || i.op.ADDI? || i.op.SUB?)
    ensures Perform(i, s)
            == match i.op
               case ADD => CheckedResult(s, i.rd, Signed(Reg(s, i.rs)) + Signed(Reg(s, i.rt)))
               case SUB => CheckedResult(s, i.rd, Signed(Reg(s, i.rs)) - Signed(Reg(s, i.rt)))
               case _ => CheckedResult(s, i.rt, Signed(Reg(s, i.rs)) + i.imm)
  {
    hide Wrap, Signed;
  }

  lemma DoBranch(s: State, i: Inst)
    requires IsBranch(i.op) && !Links(i.op) && !IsLikely(i.op)
    ensures Perform(i, s)
            == Moved(s, if Taken(i.op, Reg(s, i.rs), Reg(s, i.rt)) then Wrap(s.PC + Displacement(i.imm))
                        else Wrap(s.PC + 4))
  {
    hide Displacement, Taken, IsBranch, Links, IsLikely;
  }

  lemma DoBreak(s: State, i: Inst)
    requires i.op.BREAK?
    ensures Perform(i, s) == Trapped(s, BREAKPOINT)
  {
  }

  /** s after an instruction that only set HI and LO. */
  function WithHiLo(s: State, hi: word, lo: word): State {
    State(ZeroR0(s.R), hi, lo, Wrap(s.PC + 4), s.mem, Running)
  }

  lemma DoMultiply(s: State, i: Inst)
    requires i.op.MULT? || i.op.MULTU?
    ensures var p := if i.op.MULT? then Signed(Reg(s, i.rs)) * Signed(Reg(s, i.rt)) else Reg(s, i.rs) * Reg(s, i.rt);
      Perform(i, s) == WithHiLo(s, Upper(p), Lower(p))
  {
    hide Signed, Wrap, Upper, Lower;
  }

  lemma DoDivide(s: State, i: Inst)
    requires i.op.DIV? || i.op.DIVU?
    ensures var a, b := Reg(s, i.rs), Reg(s, i.rt);
      Perform(i, s) == if DivisionSkipped(a, b) then WithHiLo(s, s.HI, s.LO)
                       else if i.op.DIV? then WithHiLo(s, Wrap(TruncRem(Signed(a), Signed(b))),
                                                       Wrap(TruncDiv(Signed(a), Signed(b))))
                       else WithHiLo(s, Wrap(a % b), Wrap(a / b))
  {
    hide Signed, Wrap, TruncDiv, TruncRem;
  }

  lemma DoMoveFrom(s: State, i: Inst)
    requires i.op.MFHI? || i.op.MFLO?
    ensures Perform(i, s) == After(s, i.rd, if i.op.MFHI? then s.HI else s.LO)
  {
    hide Wrap;
  }
}
