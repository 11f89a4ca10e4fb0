/** Arithmetic pseudo-instructions: absolute value, rotation, and the multiplications and divisions
    that break when their result does not exist. */
module PseudoArithmetic {
  import opened Words
  import opened Isa
  import opened Immediates
  import opened ControlTransfer
  import opened PseudoOps

  // ---- Absolute value -------------------------------------------------------------------------

  function AbsCode(rd: reg, rs: reg): seq<Inst> {
    (if rd != rs then [RType(ADDU, rd, 0, rs)] else []) + [Skip(BGEZ, 0, rs, 2), RType(SUB, rd, 0, rs)]
  }

  // The copy that comes first when the registers differ.
  lemma CopyFirst(text: Text, s: State, rd: reg, rs: reg, back: seq<Inst>) returns (n: nat)
    requires s.outcome == Running && rd != 0
    requires Placed(text, s.PC, (if rd != rs then [RType(ADDU, rd, 0, rs)] else []) + back)
    ensures n == (if rd != rs then 1 else 0) && Placed(text, s.PC + 4 * n, back)
    ensures Leaves(s, Run(text, s, n), s.PC + 4 * n, rd, Reg(s, rs), {rd})
  {
    hide Run, Perform, Wrap;
    var front := if rd != rs then [RType(ADDU, rd, 0, rs)] else [];
    PlacedParts(text, s.PC, front, back);
    RunZero(text, s);
    n := |front|;
    if rd != rs {
      Fetch(text, s.PC, front, 0);
      StepTo(text, s, 0, s, front[0]);
      SmallWrap(s.PC + 4);
      SmallWrap(Reg(s, rs));
      DoRegisterOp(s, front[0]);
    }
  }

  /** The code for `abs rd, rs` leaves the absolute value in rd and changes nothing else; for the
      one word whose absolute value does not exist it traps. */
  lemma AbsCorrect(text: Text, s: State, rd: reg, rs: reg) returns (n: nat)
    requires rd != 0 && s.outcome == Running && Placed(text, s.PC, AbsCode(rd, rs))
    ensures n <= |AbsCode(rd, rs)|
    ensures var t, a := Run(text, s, n), Reg(s, rs);
      if a == 0x8000_0000 then t.outcome == Trap(OVERFLOW) && OnlyRegs(s, t, {rd})
      else Leaves(s, t, s.PC + 4 * |AbsCode(rd, rs)|, rd, Abs(Signed(a)), {rd})
  {
    hide Run, Placed;
    var m := CopyFirst(text, s, rd, rs, [Skip(BGEZ, 0, rs, 2), RType(SUB, rd, 0, rs)]);
    var t := Run(text, s, m);
    var k := NegateIfNegative(text, t, rd, rs);
    n := m + k;
    RunAdd(text, s, m, k);
  }

  // The part after the copy.
  lemma NegateIfNegative(text: Text, s: State, rd: reg, rs: reg) returns (n: nat)
    requires rd != 0 && s.outcome == Running && s.R[rd] == Reg(s, rs)
    requires Placed(text, s.PC, [Skip(BGEZ, 0, rs, 2), RType(SUB, rd, 0, rs)])
    ensures n <= 2
    ensures var t, a := Run(text, s, n), Reg(s, rs);
      if a == 0x8000_0000 then t.outcome == Trap(OVERFLOW) && OnlyRegs(s, t, {rd})
      else Leaves(s, t, s.PC + 8, rd, Abs(Signed(a)), {rd})
  {
    hide Run, Perform, Wrap, BranchField, Taken;
    var back := [Skip(BGEZ, 0, rs, 2), RType(SUB, rd, 0, rs)];
    Fetch(text, s.PC, back, 0);
    Fetch(text, s.PC, back, 1);
    RunZero(text, s);
    StepTo(text, s, 0, s, back[0]);
    DoSkip(s, back[0], 2);
    TakenIf(Reg(s, rs), Reg(s, 0));
    n := 1;
    if Negative(Reg(s, rs)) {
      var t1 := Moved(s, s.PC + 4);
      StepTo(text, s, 1, t1, back[1]);
      DoChecked(t1, back[1]);
      SmallWrap(t1.PC + 4);
      SmallWrap(Abs(Signed(Reg(s, rs))));
      n := 2;
    }
  }

  // ---- Rotation ---------------------------------------------------------------------------------

  /** x rotated left by k bits. */
  function RotateLeft(x: word, k: nat): word
    requires k < 32
  {
    Or(ShiftLeft(x, k), ShiftRight(x, (32 - k) % 32))
  }

  // Bit j of a number put together from two fields.
  lemma {:induction false} BitOfFields(hi: nat, lo: nat, k: nat, j: nat)
    requires lo < Pow2(k)
    ensures Bit(Up(hi, k) + lo, j) == if j < k then Bit(lo, j) else Bit(hi, j - k)
  {
    if k > 0 {
      BitOfFields(hi, lo / 2, k - 1, if j == 0 then 0 else j - 1);
      var x := Up(hi, k) + lo;
      QuotientIs(x, 2, Up(hi, k - 1) + lo / 2, lo % 2);
      if j > 0 {
        BitHalf(x, j);
        BitHalf(lo, j);
      }
    }
  }

  lemma {:induction false} UpAdd(a: nat, b: nat, k: nat)
    ensures Up(a + b, k) == Up(a, k) + Up(b, k)
  {
    if k > 0 {
      UpAdd(a, b, k - 1);
    }
  }

  lemma {:induction false} UpUp(a: nat, j: nat, k: nat)
    ensures Up(Up(a, j), k) == Up(a, j + k)
    ensures a < Pow2(j) ==> Up(a, k) < Pow2(j + k)
  {
    if k > 0 {
      UpUp(a, j, k - 1);
    }
  }

  lemma {:induction false} LowBound(x: nat, k: nat)
    ensures Low(x, k) < Pow2(k)
  {
    if k > 0 {
      LowBound(x / 2, k - 1);
    }
  }

  lemma WrapAbove(h: nat, l: word)
    ensures Wrap(h * TWO32 + l) == l
  {
    QuotientIs(h * TWO32 + l, TWO32, h, l);
  }

  // The two shifts of a rotation pick up the two fields of x and exchange them.
  lemma ShiftsAreFields(x: word, k: nat)
    requires k <= 32
    ensures ShiftLeft(x, k) == Up(Low(x, 32 - k), k) && ShiftRight(x, 32 - k) == High(x, 32 - k)
    ensures Low(x, 32 - k) < Pow2(32 - k) && High(x, 32 - k) < Pow2(k)
  {
    hide ShiftLeft, ShiftRight, Wrap, Up, Low, High, Pow2;
    var q, r := High(x, 32 - k), Low(x, 32 - k);
    Pow2Values();
    HighLowFit(x, 32 - k, 32);
    LowBound(x, 32 - k);
    ShiftsAsSteps(x, k);
    UpAdd(Up(q, 32 - k), r, k);
    UpUp(q, 32 - k, k);
    UpUp(r, 32 - k, k);
    Up32(q);
    WrapAbove(q, Up(r, k));
  }

  lemma ShiftsAsSteps(x: word, k: nat)
    requires k <= 32
    ensures ShiftLeft(x, k) == Wrap(Up(x, k)) && ShiftRight(x, 32 - k) == High(x, 32 - k)
  {
    hide Wrap, Up, High, Low, Pow2;
    UpIsTimes(x, k);
    HighLow(x, 32 - k);
  }

  lemma Up32(q: nat)
    ensures Up(q, 32) == q * TWO32
  {
    hide Up, Pow2;
    Pow2Values();
    UpIsTimes(q, 32);
  }

  lemma {:induction false} UpLowBits(x: nat, k: nat)
    ensures Low(Up(x, k), k) == 0
  {
    if k > 0 {
      UpLowBits(x, k - 1);
      QuotientIs(Up(x, k), 2, Up(x, k - 1), 0);
    }
  }

  lemma RotateIsExchange(x: word, k: nat)
    requires k < 32
    ensures RotateLeft(x, k) == Up(Low(x, 32 - k), k) + High(x, 32 - k)
  {
    hide Or, ShiftLeft, ShiftRight, Up, Low, High, Pow2;
    var q, r := High(x, 32 - k), Low(x, 32 - k);
    Pow2Values();
    ShiftsAreFields(x, k);
    if k == 0 {
      NoRotation(x);
    } else {
      UpLowBits(r, k);
      HighLow(Up(r, k), k);
      OrIsPlus(Up(r, k), q, k);
    }
  }

  lemma NoRotation(x: word)
    ensures ShiftLeft(x, 0) == x && ShiftRight(x, 0) == x && Or(x, x) == x
    ensures Up(Low(x, 32), 0) + High(x, 32) == x
  {
    hide Bits, Low, High;
    Pow2Values();
    SmallWrap(x);
    BitsSame(x, 32);
    SmallModulo(x, TWO32);
    HighLowFit(x, 32, 32);
  }

  /** Rotation by k sends the bit at position j to position j + k modulo 32. */
  lemma RotateLeftBits(x: word, k: nat, j: nat)
    requires k < 32 && j < 32
    ensures Bit(RotateLeft(x, k), (j + k) % 32) == Bit(x, j)
  {
    hide RotateLeft, Up, Low, High, Pow2, Bit;
    var q, r := High(x, 32 - k), Low(x, 32 - k);
    RotateIsExchange(x, k);
    ShiftsAreFields(x, k);
    Pow2Values();
    HighLowFit(x, 32 - k, 32);
    BitOfFields(r, q, k, (j + k) % 32);
    BitOfFields(q, r, 32 - k, j);
  }

  // ---- Rotation pseudo-ops -----------------------------------------------------------------------

  /** By a register: the first shift goes by the negated distance, of which five bits count. */
  function RotateCode(left: bool, rd: reg, rs: reg, rt: reg): seq<Inst> {
    [RType(SUBU, 1, 0, rt),
     RType(if left then SRLV else SLLV, 1, 1, rs),
     RType(if left then SLLV else SRLV, rd, rt, rs),
     RType(OR, rd, rd, 1)]
  }

  function RotateImmediateCode(left: bool, rd: reg, rs: reg, dist: int): seq<Inst> {
    [ShiftType(if left then SRL else SLL, 1, rs, -dist),
     ShiftType(if left then SLL else SRL, rd, rs, dist),
     RType(OR, rd, rd, 1)]
  }

  /** The left rotation that a pseudo-op performs: a right rotation by k is a left one by 32 - k. */
  function LeftDistance(left: bool, k: nat): nat {
    (if left then k else 32 - k % 32) % 32
  }

  lemma OppositeDistance(left: bool, y: word)
    ensures Wrap(0 - y) % 32 == (32 - y % 32) % 32
    ensures LeftDistance(true, y % 32) == y % 32 && LeftDistance(false, y % 32) == (32 - y % 32) % 32
  {
    hide Wrap;
    NegationBy32(y);
  }

  lemma NegationBy32(y: word)
    ensures Wrap(0 - y) % 32 == (32 - y % 32) % 32
  {
    hide Wrap;
    var q, r := y / 32, y % 32;
    WrapNear(0 - y);
    if r == 0 && q > 0 {
      QuotientIs(Wrap(0 - y), 32, 0x800_0000 - q, 0);
    } else if r > 0 {
      QuotientIs(Wrap(0 - y), 32, 0x800_0000 - q - 1, 32 - r);
      SmallModulo(32 - r, 32);
    }
  }

  lemma TwoShifts(left: bool, x: word, k: nat)
    requires k < 32
    ensures var away := (32 - k) % 32;
      var first, second := if left then ShiftRight(x, away) else ShiftLeft(x, away),
                           if left then ShiftLeft(x, k) else ShiftRight(x, k);
      Or(second, first) == RotateLeft(x, LeftDistance(left, k))
  {
    hide ShiftLeft, ShiftRight, Or;
    var away := (32 - k) % 32;
    SmallModulo(k, 32);
    if k > 0 {
      SmallModulo(32 - k, 32);
    }
    OrCommutes(ShiftLeft(x, away), ShiftRight(x, k));
  }

  lemma OrCommutes(x: word, y: word)
    ensures Or(x, y) == Or(y, x)
  {
    hide Bits;
    BitsCommute(OrGate, x, y, 32);
  }

  /** The code for `rol/ror rd, rs, rt` rotates the original R[rs] by the original R[rt], for every
      distance and whichever sources rd equals, and changes only rd and $1. */
  lemma RotateCorrect(text: Text, s: State, left: bool, rd: reg, rs: reg, rt: reg)
    requires rd != 0 && rd != 1 && rs != 1 && rt != 1
    requires s.outcome == Running && Placed(text, s.PC, RotateCode(left, rd, rs, rt))
    ensures Leaves(s, Run(text, s, 4), s.PC + 16, rd,
                   RotateLeft(Reg(s, rs), LeftDistance(left, Reg(s, rt) % 32)), {1, rd})
  {
    hide Run, Perform, Wrap, ShiftLeft, ShiftRight, Or, RotateLeft, LeftDistance, RegisterOp;
    var code := RotateCode(left, rd, rs, rt);
    var x, y := Reg(s, rs), Reg(s, rt);
    ShiftSteps(left, x, y);
    RunZero(text, s);
    var s1 := After(s, 1, RegisterOp(SUBU, 0, y));
    var first := RegisterOp(if left then SRLV else SLLV, RegisterOp(SUBU, 0, y), x);
    var second := RegisterOp(if left then SLLV else SRLV, y, x);
    var s2 := After(s1, 1, first);
    var s3 := After(s2, rd, second);
    SmallWrap(s.PC + 4);
    SmallWrap(s.PC + 8);
    SmallWrap(s.PC + 12);
    SmallWrap(s.PC + 16);
    Fetch(text, s.PC, code, 0);
    StepTo(text, s, 0, s, code[0]);
    DoRegisterOp(s, code[0]);
    Fetch(text, s.PC, code, 1);
    StepTo(text, s, 1, s1, code[1]);
    DoRegisterOp(s1, code[1]);
    Fetch(text, s.PC, code, 2);
    StepTo(text, s, 2, s2, code[2]);
    DoRegisterOp(s2, code[2]);
    Fetch(text, s.PC, code, 3);
    StepTo(text, s, 3, s3, code[3]);
    DoRegisterOp(s3, code[3]);
  }

  lemma ShiftSteps(left: bool, x: word, y: word)
    ensures var first := RegisterOp(if left then SRLV else SLLV, RegisterOp(SUBU, 0, y), x);
      var second := RegisterOp(if left then SLLV else SRLV, y, x);
      RegisterOp(OR, second, first) == RotateLeft(x, LeftDistance(left, y % 32))
  {
    hide RegisterOp, ShiftLeft, ShiftRight, Or, RotateLeft, LeftDistance, Wrap;
    OppositeDistance(left, y);
    TwoShifts(left, x, y % 32);
    RotateOps(x, y);
    RotateOps(x, RegisterOp(SUBU, 0, y));
    OrOp(RegisterOp(if left then SLLV else SRLV, y, x), RegisterOp(if left then SRLV else SLLV, RegisterOp(SUBU, 0, y), x));
  }

  lemma RotateOps(x: word, y: word)
    ensures RegisterOp(SUBU, 0, y) == Wrap(0 - y)
    ensures RegisterOp(SLLV, y, x) == ShiftLeft(x, y % 32)
    ensures RegisterOp(SRLV, y, x) == ShiftRight(x, y % 32)
  {
    hide Wrap, ShiftLeft, ShiftRight;
  }

  lemma OrOp(x: word, y: word)
    ensures RegisterOp(OR, x, y) == Or(x, y)
  {
    hide Or;
  }

  /** The same for a constant distance; any integer counts modulo 32. */
  lemma RotateImmediateCorrect(text: Text, s: State, left: bool, rd: reg, rs: reg, dist: int)
    requires rd != 0 && rd != 1 && rs != 1
    requires s.outcome == Running && Placed(text, s.PC, RotateImmediateCode(left, rd, rs, dist))
    ensures Leaves(s, Run(text, s, 3), s.PC + 12, rd,
                   RotateLeft(Reg(s, rs), LeftDistance(left, dist % 32)), {1, rd})
  {
    hide Run, Perform, Wrap, ShiftLeft, ShiftRight, Or, RotateLeft, LeftDistance, ShiftOp, RegisterOp;
    var code := RotateImmediateCode(left, rd, rs, dist);
    var x, k := Reg(s, rs), dist % 32;
    NegativeDistance(dist);
    TwoShifts(left, x, k);
    ShiftsAndOr(x, k);
    ShiftsAndOr(x, (32 - k) % 32);
    RunZero(text, s);
    var s1 := After(s, 1, ShiftOp(code[0].op, x, code[0].shamt));
    var s2 := After(s1, rd, ShiftOp(code[1].op, x, code[1].shamt));
    SmallWrap(s.PC + 4);
    SmallWrap(s.PC + 8);
    SmallWrap(s.PC + 12);
    Fetch(text, s.PC, code, 0);
    StepTo(text, s, 0, s, code[0]);
    DoShift(s, code[0]);
    Fetch(text, s.PC, code, 1);
    StepTo(text, s, 1, s1, code[1]);
    DoShift(s1, code[1]);
    Fetch(text, s.PC, code, 2);
    StepTo(text, s, 2, s2, code[2]);
    DoRegisterOp(s2, code[2]);
  }

  lemma NegativeDistance(dist: int)
    ensures (-dist) % 32 == (32 - dist % 32) % 32
  {
    var q, r := dist / 32, dist % 32;
    if r == 0 {
      QuotientIs(-dist, 32, -q, 0);
    } else {
      QuotientIs(-dist, 32, -q - 1, 32 - r);
      SmallModulo(32 - r, 32);
    }
  }

  lemma ShiftsAndOr(x: word, k: nat)
    requires k < 32
    ensures ShiftOp(SLL, x, k) == ShiftLeft(x, k) && ShiftOp(SRL, x, k) == ShiftRight(x, k)
    ensures forall y: word, z: word :: RegisterOp(OR, y, z) == Or(y, z)
  {
    hide ShiftLeft, ShiftRight, Or;
  }

  // ---- Multiplication with overflow check ---------------------------------------------------------

  function MulCode(signed: bool, rd: reg, rs: reg, rt: reg): seq<Inst> {
    if signed then
      [RType(MULT, 0, rs, rt), RType(MFHI, 1, 0, 0), RType(MFLO, rd, 0, 0), ShiftType(SRA, rd, rd, 31),
       Skip(BEQ, rd, 1, 2), RType(BREAK, 0, 0, 0), RType(MFLO, rd, 0, 0)]
    else
      [RType(MULTU, 0, rs, rt), RType(MFHI, 1, 0, 0),
       Skip(BEQ, 0, 1, 2), RType(BREAK, 0, 0, 0), RType(MFLO, rd, 0, 0)]
  }

  function Product(signed: bool, a: word, b: word): int {
    if signed then Signed(a) * Signed(b) else a * b
  }

  predicate FitsWord(signed: bool, p: int) {
    if signed then -0x8000_0000 <= p < 0x8000_0000 else 0 <= p < TWO32
  }

  lemma ProductBounds(a: word, b: word)
    ensures 0 <= a * b < TWO64
    ensures -0x4000_0000_0000_0000 <= Signed(a) * Signed(b) <= 0x4000_0000_0000_0000
  {
    WithinSquare(a, b, 0xffff_ffff);
    WithinSquare(Signed(a), Signed(b), 0x8000_0000);
    if a > 0 && b > 0 {
      MulAtLeast(a, b);
    }
  }

  lemma WithinSquare(x: int, y: int, m: int)
    requires -m <= x <= m && -m <= y <= m
    ensures -(m * m) <= x * y <= m * m
    ensures x >= 0 && y >= 0 ==> x * y >= 0
  {
    ProductMonotonic(Abs(x), Abs(y), m);
    ProductMonotonic(m, Abs(x), m);
    MulSigns(Abs(x), Abs(y));
  }

  lemma ArithShiftBySign(lo: word)
    ensures ShiftRightArith(lo, 31) == if Negative(lo) then 0xffff_ffff else 0
  {
    Pow2Values();
  }

  /** The test made by the code: the high word equals the sign of the low one, or is 0. */
  lemma FitsTest(signed: bool, a: word, b: word)
    ensures var p := Product(signed, a, b);
      && (FitsWord(signed, p) <==> Upper(p) == if signed then ShiftRightArith(Lower(p), 31) else 0)
      && (FitsWord(signed, p) ==> (if signed then Signed(Lower(p)) else Lower(p)) == p)
  {
    hide ShiftRightArith;
    ProductBounds(a, b);
    HighWordTest(Product(signed, a, b));
    ArithShiftBySign(Lower(Product(signed, a, b)));
  }

  lemma HighWordTest(p: int)
    ensures -0x4000_0000_0000_0000 <= p <= 0x4000_0000_0000_0000 ==>
      && (-0x8000_0000 <= p < 0x8000_0000 <==> Upper(p) == if Negative(Lower(p)) then 0xffff_ffff else 0)
      && (-0x8000_0000 <= p < 0x8000_0000 ==> Signed(Lower(p)) == p)
    ensures 0 <= p < TWO64 ==>
      && (p < TWO32 <==> Upper(p) == 0)
      && (p < TWO32 ==> Lower(p) == p)
  {
  }

  /** Registers but for `changed`, and memory, are as before. */
  ghost predicate OnlyRegsAndHiLo(s: State, t: State, changed: set<reg>) {
    SameRegsExcept(s, t, changed) && t.mem == s.mem
  }

  /** The multiplication up to its test: the branch has been taken or not. */
  lemma MulTest(text: Text, s: State, signed: bool, rd: reg, rs: reg, rt: reg) returns (n: nat)
    requires rd != 0 && rd != 1 && s.outcome == Running && Placed(text, s.PC, MulCode(signed, rd, rs, rt))
    ensures n == |MulCode(signed, rd, rs, rt)| - 2
    ensures var t, p := Run(text, s, n), Product(signed, Reg(s, rs), Reg(s, rt));
      && t.outcome == Running && t.PC == s.PC + 4 * (if FitsWord(signed, p) then n + 1 else n)
      && t.HI == Upper(p) && t.LO == Lower(p) && OnlyRegsAndHiLo(s, t, {1, rd})
  {
    hide Run, Perform, Wrap, BranchField, Taken, Upper, Lower, Signed, ShiftRightArith, FitsWord;
    var code := MulCode(signed, rd, rs, rt);
    var p := Product(signed, Reg(s, rs), Reg(s, rt));
    FitsTest(signed, Reg(s, rs), Reg(s, rt));
    n := |code| - 2;
    RunZero(text, s);
    Fetch(text, s.PC, code, 0);
    Fetch(text, s.PC, code, 1);
    StepTo(text, s, 0, s, code[0]);
    DoMultiply(s, code[0]);
    var s1 := WithHiLo(s, Upper(p), Lower(p));
    SmallWrap(s.PC + 4);
    StepTo(text, s, 1, s1, code[1]);
    DoMoveFrom(s1, code[1]);
    var s2 := After(s1, 1, Upper(p));
    SmallWrap(s.PC + 8);
    if signed {
      n := 5;
      MulSignTest(text, s, s2, rd, Lower(p), code);
    } else {
      Fetch(text, s.PC, code, 2);
      StepTo(text, s, 2, s2, code[2]);
      DoSkip(s2, code[2], 2);
      TakenIf(Reg(s2, 1), Reg(s2, 0));
    }
  }

  lemma DoSra31(s: State, rd: reg)
    ensures Perform(ShiftType(SRA, rd, rd, 31), s) == After(s, rd, ShiftRightArith(Reg(s, rd), 31))
  {
    hide Perform, ShiftRightArith;
    DoShift(s, ShiftType(SRA, rd, rd, 31));
  }

  lemma MulSignTest(text: Text, s: State, s2: State, rd: reg, lo: word, code: seq<Inst>)
    requires rd != 0 && rd != 1 && Placed(text, s.PC, code) && |code| == 7
    requires code[2..5] == [RType(MFLO, rd, 0, 0), ShiftType(SRA, rd, rd, 31), Skip(BEQ, rd, 1, 2)]
    requires Run(text, s, 2) == s2 && s2.outcome == Running && s2.PC == s.PC + 8 && s2.LO == lo
    ensures var sign := ShiftRightArith(lo, 31);
      Run(text, s, 5) == s2.(R := ZeroR0(s2.R)[rd := sign],
                             PC := if Reg(s2, 1) == sign then s.PC + 24 else s.PC + 20)
  {
    hide Run, Perform, Wrap, BranchField, Taken, ShiftRightArith;
    Fetch(text, s.PC, code, 2);
    Fetch(text, s.PC, code, 3);
    Fetch(text, s.PC, code, 4);
    assert code[2] == code[2..5][0] && code[3] == code[2..5][1] && code[4] == code[2..5][2];
    StepTo(text, s, 2, s2, code[2]);
    DoMoveFrom(s2, code[2]);
    SmallWrap(s.PC + 12);
    var s3 := After(s2, rd, lo);
    StepTo(text, s, 3, s3, code[3]);
    DoSra31(s3, rd);
    SmallWrap(s.PC + 16);
    var s4 := After(s3, rd, ShiftRightArith(lo, 31));
    StepTo(text, s, 4, s4, code[4]);
    DoSkip(s4, code[4], 2);
    TakenIf(Reg(s4, 1), Reg(s4, rd));
  }

  /** The code for `mulo/mulou rd, rs, rt` breaks exactly when the signed/unsigned product does not
      fit a word; otherwise rd holds the product. */
  lemma MulCorrect(text: Text, s: State, signed: bool, rd: reg, rs: reg, rt: reg) returns (n: nat)
    requires rd != 0 && rd != 1 && s.outcome == Running && Placed(text, s.PC, MulCode(signed, rd, rs, rt))
    ensures n <= |MulCode(signed, rd, rs, rt)|
    ensures var t, p := Run(text, s, n), Product(signed, Reg(s, rs), Reg(s, rt));
      && OnlyRegsAndHiLo(s, t, {1, rd}) && t.HI == Upper(p) && t.LO == Lower(p)
      && if FitsWord(signed, p) then
           && t.outcome == Running && t.PC == s.PC + 4 * |MulCode(signed, rd, rs, rt)|
           && (if signed then Signed(t.R[rd]) else t.R[rd]) == p
         else t.outcome == Trap(BREAKPOINT)
  {
    hide Run, Perform, Wrap, Upper, Lower, Signed, FitsWord, Product;
    var code := MulCode(signed, rd, rs, rt);
    var m := MulTest(text, s, signed, rd, rs, rt);
    var t := Run(text, s, m);
    FitsTest(signed, Reg(s, rs), Reg(s, rt));
    Fetch(text, s.PC, code, m);
    Fetch(text, s.PC, code, m + 1);
    if FitsWord(signed, Product(signed, Reg(s, rs), Reg(s, rt))) {
      StepTo(text, s, m, t, code[m + 1]);
      DoMoveFrom(t, code[m + 1]);
      SmallWrap(t.PC + 4);
    } else {
      StepTo(text, s, m, t, code[m]);
      DoBreak(t, code[m]);
    }
    n := m + 1;
  }

  /** With a constant operand; a product with 0 is loaded outright. */
  function MulImmediateCode(signed: bool, rd: reg, rs: reg, v: word): seq<Inst> {
    if v == 0 then Code(ORI, rd, 0, v) else Code(ORI, 1, 0, v) + MulCode(signed, rd, rs, 1)
  }

  /** Multiplying by a constant: rd holds the product, or the code breaks, exactly as for a register. */
  lemma MulImmediateCorrect(text: Text, s: State, signed: bool, rd: reg, rs: reg, v: word) returns (n: nat)
    requires rd != 0 && rd != 1 && rs != 1 && s.outcome == Running && Placed(text, s.PC, MulImmediateCode(signed, rd, rs, v))
    ensures n <= |MulImmediateCode(signed, rd, rs, v)|
    ensures var t, p := Run(text, s, n), Product(signed, Reg(s, rs), v);
      && OnlyRegsAndHiLo(s, t, {1, rd})
      && if FitsWord(signed, p) then
           && t.outcome == Running && t.PC == s.PC + 4 * |MulImmediateCode(signed, rd, rs, v)|
           && (if signed then Signed(t.R[rd]) else t.R[rd]) == p
         else t.outcome == Trap(BREAKPOINT)
  {
    hide Run, Code, Placed, MulCode, FitsWord, Upper, Lower, Meant, Product;
    if v == 0 {
      ProductWithZero(signed, Reg(s, rs));
      n := ComputationCorrect(text, s, ORI, rd, 0, 0);
      ZeroOperand(ORI, 0);
    } else {
      var m := OperandInAt(text, s, v, MulCode(signed, rd, rs, 1));
      var k := MulCorrect(text, Run(text, s, m), signed, rd, rs, 1);
      RunAdd(text, s, m, k);
      n := m + k;
    }
  }

  lemma ProductWithZero(signed: bool, a: word)
    ensures Product(signed, a, 0) == 0 && FitsWord(signed, 0)
  {
  }

  // ---- Division ------------------------------------------------------------------------------------

  datatype DivOp = DivOp(signed: bool, remainder: bool)

  function DivCode(op: DivOp, rd: reg, rs: reg, rt: reg, constDivisor: bool): seq<Inst> {
    (if constDivisor then [] else [Skip(BNE, 0, rt, 2), RType(BREAK, 0, 0, 0)])
    + [RType(if op.signed then DIV else DIVU, 0, rs, rt), RType(if op.remainder then MFHI else MFLO, rd, 0, 0)]
  }

  /** The quotient truncated toward zero, or the remainder that goes with it. */
  function Divided(op: DivOp, a: word, b: word): int
    requires b != 0
  {
    if op.signed then
      if op.remainder then TruncRem(Signed(a), Signed(b)) else TruncDiv(Signed(a), Signed(b))
    else if op.remainder then a % b else a / b
  }

  lemma DividedFits(op: DivOp, a: word, b: word)
    requires !DivisionSkipped(a, b)
    ensures var q := Divided(op, a, b); if op.signed then Signed(Wrap(q)) == q else Wrap(q) == q
  {
    if op.signed {
      SignedQuotientFits(Signed(a), Signed(b));
    } else {
      QuotientBound(a, b);
    }
  }

  lemma SignedQuotientFits(a: int, b: int)
    requires -0x8000_0000 <= a < 0x8000_0000 && -0x8000_0000 <= b < 0x8000_0000
    requires b != 0 && !(a == -0x8000_0000 && b == -1)
    ensures -0x8000_0000 <= TruncDiv(a, b) < 0x8000_0000 && -0x8000_0000 <= TruncRem(a, b) < 0x8000_0000
  {
    QuotientBound(Abs(a), Abs(b));
    if Abs(b) > 1 && Abs(a) > 0 {
      assert Abs(a) / Abs(b) < Abs(a) by { ProperQuotient(Abs(a), Abs(b)); }
    }
  }

  lemma ProperQuotient(a: nat, b: nat)
    requires a > 0 && b > 1
    ensures a / b < a
  {
    DivisionHolds(a, b);
    if a / b >= a {
      ProductMonotonic(b, a, a / b);
      ProductMonotonic(a, 2, b);
    }
  }

  // The division itself and the move of its result.
  lemma DivideAndMove(text: Text, s: State, op: DivOp, rd: reg, rs: reg, rt: reg)
    requires rd != 0 && s.outcome == Running && Placed(text, s.PC, DivCode(op, rd, rs, rt, true))
    ensures var t, a, b := Run(text, s, 2), Reg(s, rs), Reg(s, rt);
      && t.outcome == Running && t.PC == s.PC + 8 && OnlyRegsAndHiLo(s, t, {rd})
      && t.R[rd] == (if DivisionSkipped(a, b) then (if op.remainder then s.HI else s.LO) else Wrap(Divided(op, a, b)))
  {
    hide Run, Perform, Wrap, TruncDiv, TruncRem, Signed;
    var code := DivCode(op, rd, rs, rt, true);
    RunZero(text, s);
    Fetch(text, s.PC, code, 0);
    Fetch(text, s.PC, code, 1);
    StepTo(text, s, 0, s, code[0]);
    DoDivide(s, code[0]);
    SmallWrap(s.PC + 4);
    SmallWrap(s.PC + 8);
    var s1 := Perform(code[0], s);
    StepTo(text, s, 1, s1, code[1]);
    DoMoveFrom(s1, code[1]);
  }

  /** With a constant divisor there is no check; the assembler refuses 0. */
  function DivImmediateCode(op: DivOp, rd: reg, rs: reg, v: word): seq<Inst> {
    Code(ORI, 1, 0, v) + DivCode(op, rd, rs, 1, true)
  }

  /** Dividing by a constant other than 0: the quotient or remainder, with the same exception for
      0x80000000 by 0xffffffff. */
  lemma DivImmediateCorrect(text: Text, s: State, op: DivOp, rd: reg, rs: reg, v: word) returns (n: nat)
    requires rd != 0 && rs != 1 && v != 0 && s.outcome == Running && Placed(text, s.PC, DivImmediateCode(op, rd, rs, v))
    ensures n == |DivImmediateCode(op, rd, rs, v)|
    ensures var t, a := Run(text, s, n), Reg(s, rs);
      && OnlyRegsAndHiLo(s, t, {1, rd}) && t.outcome == Running && t.PC == s.PC + 4 * n
      && if DivisionSkipped(a, v) then t.R[rd] == (if op.remainder then s.HI else s.LO)
         else (if op.signed then Signed(t.R[rd]) else t.R[rd]) == Divided(op, a, v)
  {
    hide Run, Code, Placed, Divided, Signed, Wrap, DivisionSkipped;
    var m := OperandInAt(text, s, v, DivCode(op, rd, rs, 1, true));
    var s1 := Run(text, s, m);
    DivideAndMove(text, s1, op, rd, rs, 1);
    RunAdd(text, s, m, 2);
    n := m + 2;
    if !DivisionSkipped(Reg(s, rs), v) {
      DividedFits(op, Reg(s, rs), v);
    }
  }

  /** The code for `div/divu/rem/remu rd, rs, rt` breaks exactly on a zero divisor.  Otherwise rd
      holds the truncated quotient or the remainder, except for the pair 0x80000000, 0xffffffff,
      where the division is skipped and rd gets whatever LO or HI held before. */
  lemma DivCorrect(text: Text, s: State, op: DivOp, rd: reg, rs: reg, rt: reg) returns (n: nat)
    requires rd != 0 && s.outcome == Running && Placed(text, s.PC, DivCode(op, rd, rs, rt, false))
    ensures n <= 4
    ensures var t, a, b := Run(text, s, n), Reg(s, rs), Reg(s, rt);
      && OnlyRegsAndHiLo(s, t, {rd})
      && if b == 0 then t.outcome == Trap(BREAKPOINT)
         else
           && t.outcome == Running && t.PC == s.PC + 16
           && if DivisionSkipped(a, b) then t.R[rd] == (if op.remainder then s.HI else s.LO)
              else (if op.signed then Signed(t.R[rd]) else t.R[rd]) == Divided(op, a, b)
  {
    hide Run, Perform, Wrap, Signed, Divided, BranchField, Taken;
    var front, back := [Skip(BNE, 0, rt, 2), RType(BREAK, 0, 0, 0)], DivCode(op, rd, rs, rt, true);
    assert DivCode(op, rd, rs, rt, false) == front + back;
    PlacedParts(text, s.PC, front, back);
    RunZero(text, s);
    Fetch(text, s.PC, front, 0);
    Fetch(text, s.PC, front, 1);
    StepTo(text, s, 0, s, front[0]);
    DoSkip(s, front[0], 2);
    TakenIf(Reg(s, rt), Reg(s, 0));
    if Reg(s, rt) == 0 {
      var s1 := Moved(s, s.PC + 4);
      StepTo(text, s, 1, s1, front[1]);
      DoBreak(s1, front[1]);
      n := 2;
    } else {
      var s1 := Moved(s, s.PC + 8);
      DivideAndMove(text, s1, op, rd, rs, rt);
      RunAdd(text, s, 1, 2);
      if !DivisionSkipped(Reg(s, rs), Reg(s, rt)) {
        DividedFits(op, Reg(s, rs), Reg(s, rt));
      }
      n := 3;
    }
  }

  /** DIVU leaves the quotient in LO, whatever LO held before, exactly when its operands are not
      0x80000000 and 0xffffffff: for these the quotient is 0, but the division is skipped. */
  lemma UnsignedPairIsWrong(s: State, rs: reg, rt: reg)
    requires Reg(s, rt) != 0
    ensures (forall previous: word :: Perform(RType(DIVU, 0, rs, rt), s.(LO := previous)).LO == Reg(s, rs) / Reg(s, rt))
            <==> !(Reg(s, rs) == 0x8000_0000 && Reg(s, rt) == 0xffff_ffff)
  {
    hide Perform, Wrap;
    var i, a, b := RType(DIVU, 0, rs, rt), Reg(s, rs), Reg(s, rt);
    forall previous: word
      ensures Perform(i, s.(LO := previous)).LO == if DivisionSkipped(a, b) then previous else a / b
    {
      DoDivide(s.(LO := previous), i);
      QuotientBound(a, b);
      SmallWrap(a / b);
    }
    if DivisionSkipped(a, b) {
      assert Perform(i, s.(LO := 1)).LO == 1;
      QuotientIs(0x8000_0000, 0xffff_ffff, 0, 0x8000_0000);
    }
  }
}
