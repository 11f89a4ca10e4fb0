/** The interpreter as the program has it: registers and HI/LO updated in place, products built from
    16-bit limbs, overflow found from sign bits, partial words merged with masks.  Each method is
    proved to do what the instruction means. */
module Interpreter {
  import opened Words
  import opened Isa
  import opened ControlTransfer
  import opened DelaySlots
  import opened DelayedLoads

  // ---- Limb arithmetic ---------------------------------------------------------------------------

  lemma LimbProduct(x: nat, y: nat)
    requires x < TWO16 && y < TWO16
    ensures 0 <= x * y <= 0xfffe_0001
  {
    ProductMonotonic(x, 0, y);
    ProductMonotonic(x, y, 0xffff);
    assert x * 0xffff <= 0xfffe_0001;
  }

  lemma FourProducts(a: nat, b: nat, c: nat, d: nat)
    ensures (a * TWO16 + b) * (c * TWO16 + d)
            == (a * c) * TWO32 + (a * d + c * b) * TWO16 + b * d
  {
    var k := TWO16;
    assert (a * k + b) * (c * k + d) == (a * k) * (c * k) + (a * k) * d + b * (c * k) + b * d;
    assert (a * k) * (c * k) == (a * c) * (k * k) by { assert a * k * c == a * c * k; }
    assert (a * k) * d == (a * d) * k && b * (c * k) == (c * b) * k;
  }

  /** Adding the partial products: the two carries together are at most 1, so the high word does not
      wrap, and the words put together are the sum. */
  lemma LimbSum(ac: nat, ad: nat, cb: nat, bd: nat)
    requires ac <= 0xfffe_0001 && ad <= 0xfffe_0001 && cb <= 0xfffe_0001 && bd <= 0xfffe_0001
    requires ac * TWO32 + (ad + cb) * TWO16 + bd < TWO64
    ensures var mid := Wrap(ad + cb);
      var carry1 := if mid < ad || mid < cb then 1 else 0;
      var mid2 := Wrap(mid + bd / TWO16);
      var carry2 := if mid2 < mid || mid2 < bd / TWO16 then 1 else 0;
      && carry1 + carry2 <= 1
      && ac + (carry1 + carry2) * TWO16 + mid2 / TWO16 < TWO32
      && (ac + (carry1 + carry2) * TWO16 + mid2 / TWO16) * TWO32 + mid2 % TWO16 * TWO16 + bd % TWO16
         == ac * TWO32 + (ad + cb) * TWO16 + bd
  {
    var mid := Wrap(ad + cb);
    var carry1 := if mid < ad || mid < cb then 1 else 0;
    assert ad + cb == carry1 * TWO32 + mid;
    var mid2 := Wrap(mid + bd / TWO16);
    var carry2 := if mid2 < mid || mid2 < bd / TWO16 then 1 else 0;
    assert mid + bd / TWO16 == carry2 * TWO32 + mid2;
    assert ad + cb + bd / TWO16 == (carry1 + carry2) * TWO32 + mid2;
    assert bd == bd / TWO16 * TWO16 + bd % TWO16;
    assert mid2 == mid2 / TWO16 * TWO16 + mid2 % TWO16;
  }

  lemma LimbsOfProduct(v1: word, v2: word)
    ensures var a, b, c, d := v1 / TWO16, v1 % TWO16, v2 / TWO16, v2 % TWO16;
      && v1 * v2 == (a * c) * TWO32 + (a * d + c * b) * TWO16 + b * d
      && 0 <= v1 * v2 < TWO64
  {
    FourProducts(v1 / TWO16, v1 % TWO16, v2 / TWO16, v2 % TWO16);
    ProductMonotonic(v1, 0, v2);
    ProductMonotonic(v1, v2, 0xffff_ffff);
    assert v1 * 0xffff_ffff < TWO64;
  }

  // Gluing the limbs of the two result words together.
  lemma LimbWords(ac: nat, carry: nat, mid2: word, bd: word)
    requires carry <= 1 && ac + carry * TWO16 + mid2 / TWO16 < TWO32
    ensures Accumulator(Wrap(ac + Wrap(carry * TWO16) + mid2 / TWO16), Or(bd % TWO16, mid2 % TWO16 * TWO16))
            == (ac + carry * TWO16 + mid2 / TWO16) * TWO32 + mid2 % TWO16 * TWO16 + bd % TWO16
  {
    hide Or, Wrap;
    Pow2Values();
    SmallWrap(carry * TWO16);
    SmallWrap(ac + carry * TWO16 + mid2 / TWO16);
    OrIsPlus(mid2 % TWO16 * TWO16, bd % TWO16, 16);
  }

  // ---- 64-bit accumulation -----------------------------------------------------------------------

  /** Word-wise addition with the carry test of MADD. */
  lemma AddWithCarry(hi: word, lo: word, phi: word, plo: word)
    ensures var tmp := Wrap(lo + plo);
      var carry := if tmp < plo || tmp < lo then 1 else 0;
      var sum := Accumulator(hi, lo) + Accumulator(phi, plo);
      tmp == Lower(sum) && Wrap(Wrap(hi + carry) + phi) == Upper(sum)
  {
    hide Wrap, Upper, Lower;
    CarryTest(lo, plo);
    var tmp := Wrap(lo + plo);
    var carry := if tmp < plo || tmp < lo then 1 else 0;
    UpperLower(hi + phi + carry, tmp);
    WrapSteps(hi + carry, phi);
  }

  lemma CarryTest(lo: word, plo: word)
    ensures var tmp := Wrap(lo + plo);
      lo + plo == (if tmp < plo || tmp < lo then TWO32 else 0) + tmp
  {
  }

  /** Word-wise subtraction with the borrow test of MSUB. */
  lemma SubtractWithBorrow(hi: word, lo: word, phi: word, plo: word)
    ensures var tmp := Wrap(lo - plo);
      var borrow := if plo > lo then 1 else 0;
      var difference := Accumulator(hi, lo) - Accumulator(phi, plo);
      tmp == Lower(difference) && Wrap(Wrap(hi - borrow) - phi) == Upper(difference)
  {
    hide Wrap, Upper, Lower;
    BorrowTest(lo, plo);
    var tmp := Wrap(lo - plo);
    var borrow := if plo > lo then 1 else 0;
    UpperLower(hi - phi - borrow, tmp);
    WrapSteps(hi - borrow, 0 - (phi as int));
  }

  lemma BorrowTest(lo: word, plo: word)
    ensures lo - plo == Wrap(lo - plo) - if plo > lo then TWO32 else 0
  {
  }

  lemma UpperLower(h: int, l: word)
    ensures Upper(h * TWO32 + l) == Wrap(h) && Lower(h * TWO32 + l) == l
  {
    var q := h / TWO32;
    assert h == q * TWO32 + Wrap(h);
    QuotientIs(h * TWO32 + l, TWO64, q, Wrap(h) * TWO32 + l);
    QuotientIs(Wrap(h) * TWO32 + l, TWO32, Wrap(h), l);
    QuotientIs(h * TWO32 + l, TWO32, h, l);
  }

  /** Complementing both words and adding 1 with a carry negates a 64-bit number. */
  lemma NegateWords(p: int)
    ensures var lo := Wrap(Not(Lower(p)) + 1);
      lo == Lower(-p) && (if lo == 0 then Wrap(Not(Upper(p)) + 1) else Not(Upper(p))) == Upper(-p)
  {
    hide Upper, Lower, Wrap;
    var hi, l := Upper(p), Lower(p);
    var k := p / TWO64;
    SplitLong(p);
    ComplementPlusOne(hi, k);
    ComplementPlusOne(l, 0);
    if l == 0 {
      UpperLower(-(k * TWO32 + hi), 0);
    } else {
      UpperLower(-(k * TWO32 + hi) - 1, TWO32 - l);
    }
  }

  lemma ComplementPlusOne(x: word, k: int)
    ensures Wrap(Not(x) + 1) == Wrap(-(k * TWO32 + x)) && Not(x) == Wrap(-(k * TWO32 + x) - 1)
    ensures Wrap(Not(x) + 1) == if x == 0 then 0 else TWO32 - x
  {
    var y: int := Not(x);
    WrapMultiple(y, -k - 1);
    WrapMultiple(y + 1, -k - 1);
  }

  lemma WrapMultiple(x: int, k: int)
    ensures Wrap(x + k * TWO32) == Wrap(x)
  {
    QuotientIs(x + k * TWO32, TWO32, x / TWO32 + k, x % TWO32);
  }

  lemma SplitLong(p: int)
    ensures p == p / TWO64 * TWO64 + Upper(p) * TWO32 + Lower(p)
  {
    var m := p % TWO64;
    assert m == m / TWO32 * TWO32 + m % TWO32;
    assert p == p / TWO64 * TWO64 + m;
    assert m % TWO32 == p % TWO32;
  }

  // ---- Sign bits and masks -------------------------------------------------------------------------

  predicate SignBit(x: word) {
    x >= 0x8000_0000
  }

  /** The overflow test on sign bits is the test on the integers. */
  lemma OverflowTests(a: word, b: word)
    ensures SignBit(a) == SignBit(b) && SignBit(a) != SignBit(Wrap(a + b))
            <==> !(-0x8000_0000 <= Signed(a) + Signed(b) < 0x8000_0000)
    ensures SignBit(a) != SignBit(b) && SignBit(a) != SignBit(Wrap(a - b))
            <==> !(-0x8000_0000 <= Signed(a) - Signed(b) < 0x8000_0000)
    ensures Wrap(a + b) == Wrap(Signed(a) + Signed(b)) && Wrap(a - b) == Wrap(Signed(a) - Signed(b))
  {
    hide Wrap;
    WrapNear(a + b);
    WrapNear(a - b);
    WrapNear(Signed(a) + Signed(b));
    WrapNear(Signed(a) - Signed(b));
  }

  lemma CheckedMeans(i: Inst, a: word, b: word, m: Core)
    ensures i.op.ADD? ==> ExecuteAlu(i, a, b, m) == Checked(m, i.rd, Signed(a) + Signed(b))
    ensures i.op.ADDI? ==> ExecuteAlu(i, a, b, m) == Checked(m, i.rt, Signed(a) + i.imm)
    ensures i.op.SUB? ==> ExecuteAlu(i, a, b, m) == Checked(m, i.rd, Signed(a) - Signed(b))
  {
    hide Checked, Signed;
  }

  lemma MoveMeans(i: Inst, a: word, b: word, m: Core)
    requires i.op.MOVN? || i.op.MOVZ?
    ensures ExecuteAlu(i, a, b, m) == if (b != 0) == i.op.MOVN? then Put(m, i.rd, a) else Effect(NoDest, Next(m), Running)
  {
    hide Wrap, RegisterOp, ImmediateOp, ShiftOp, ExecuteMulDiv, Signed;
  }

  /** HI:LO and then rd, after a multiplication. */
  function Multiplied(i: Inst, a: word, b: word, m: Core): Effect {
    if i.op.MADD? then HiLo(m, Accumulator(m.HI, m.LO) + Signed(a) * Signed(b))
    else if i.op.MADDU? then HiLo(m, Accumulator(m.HI, m.LO) + a * b)
    else if i.op.MSUB? then HiLo(m, Accumulator(m.HI, m.LO) - Signed(a) * Signed(b))
    else if i.op.MSUBU? then HiLo(m, Accumulator(m.HI, m.LO) - a * b)
    else if i.op.MULTU? then HiLo(m, a * b)
    else
      var p := Signed(a) * Signed(b);
      if i.op.MUL? then HiLo(m, p).(dest := Written(i.rd, Lower(p))) else HiLo(m, p)
  }

  lemma MultiplyMeans(i: Inst, a: word, b: word, m: Core)
    requires i.op.MADD? || i.op.MADDU? || i.op.MSUB? || i.op.MSUBU? || i.op.MUL? || i.op.MULT? || i.op.MULTU?
    ensures ExecuteMulDiv(i, a, b, m) == Multiplied(i, a, b, m)
  {
    hide Wrap, Upper, Lower, Signed, Accumulator, ExecuteMemory;
  }

  lemma LoadMeans(i: Inst, a: word, b: word, m: Core)
    ensures i.op.LB? || i.op.LBU? ==> ExecuteMemory(i, a, b, m) == LoadByte(m, i.rt, a, i.op.LB?)
    ensures i.op.LH? || i.op.LHU? ==> ExecuteMemory(i, a, b, m) == LoadHalf(m, i.rt, a, i.op.LH?)
    ensures i.op.LW? || i.op.LL? ==> ExecuteMemory(i, a, b, m) == LoadWord(m, i.rt, a)
    ensures i.op.LWL? ==> ExecuteMemory(i, a, b, m) == LoadLeft(m, i.rt, a, b)
    ensures i.op.LWR? ==> ExecuteMemory(i, a, b, m) == LoadRight(m, i.rt, a, b)
  {
    hide LoadByte, LoadHalf, LoadWord, LoadLeft, LoadRight;
  }

  lemma OverflowTestImmediate(a: word, imm: short)
    ensures Wrap(a + Wrap(imm)) == Wrap(a + imm)
    ensures SignBit(a) == SignBit(Wrap(imm)) && SignBit(a) != SignBit(Wrap(a + imm))
            <==> !(-0x8000_0000 <= Signed(a) + imm < 0x8000_0000)
    ensures Wrap(a + imm) == Wrap(Signed(a) + imm)
  {
    hide Wrap;
    WrapNear(imm);
    WrapSteps(imm, a);
    WrapNear(a + imm);
    WrapNear(Signed(a) + imm);
  }

  /** The tests of the branch instructions, on sign bits. */
  predicate BranchTest(op: Opcode, vs: word, vt: word) {
    if op.BEQ? || op.BEQL? then vs == vt
    else if op.BNE? || op.BNEL? then vs != vt
    else if op.BGTZ? || op.BGTZL? then vs != 0 && !SignBit(vs)
    else if op.BLEZ? || op.BLEZL? then vs == 0 || SignBit(vs)
    else if op.BGEZ? || op.BGEZL? || op.BGEZAL? || op.BGEZALL? then !SignBit(vs)
    else SignBit(vs)
  }

  lemma SignTests(op: Opcode, vs: word, vt: word)
    requires IsBranch(op)
    ensures BranchTest(op, vs, vt) <==> Taken(op, vs, vt)
  {
  }

  // ---- Masks of immediates and distances -----------------------------------------------------------

  lemma MaskFive(x: word)
    ensures And(x, 0x1f) == x % 32
  {
    hide Bits;
    assert Pow2(5) == 32;
    BitsMask(x, 5, 32);
  }

  lemma MaskHalf(imm: short)
    ensures And(0xffff, Wrap(imm)) == Unsigned16(imm)
  {
    Pow2Values();
    LowOfWrap(imm);
    hide Bits, Pow2, Wrap, Unsigned16;
    BitsCommute(AndGate, 0xffff, Wrap(imm), 32);
    BitsMask(Wrap(imm), 16, 32);
  }

  lemma LowOfWrap(imm: short)
    ensures Wrap(imm) % TWO16 == Unsigned16(imm)
  {
    if imm >= 0 {
      SmallWrap(imm);
    } else {
      QuotientIs(imm, TWO32, -1, imm + TWO32);
      QuotientIs(imm + TWO32, TWO16, 0xffff, imm + TWO16);
      QuotientIs(imm, TWO16, -1, imm + TWO16);
    }
  }

  lemma MaskUpper(imm: short)
    ensures And(ShiftLeft(Wrap(imm), 16), 0xffff_0000) == Unsigned16(imm) * TWO16
  {
    var x := UpperShifted(imm);
    MaskShifted(Unsigned16(imm), x);
  }

  lemma UpperShifted(imm: short) returns (x: word)
    ensures x == ShiftLeft(Wrap(imm), 16) == Unsigned16(imm) * TWO16
  {
    x := ShiftLeft(Wrap(imm), 16);
    var w := Wrap(imm);
    Pow2Values();
    LowOfWrap(imm);
    QuotientIs(w * TWO16, TWO32, w / TWO16, w % TWO16 * TWO16);
  }

  lemma MaskShifted(u: half, x: word)
    requires x == u * TWO16
    ensures And(x, 0xffff_0000) == x
  {
    hide Bits, High, Low, Up;
    Pow2Values();
    hide Pow2;
    QuotientIs(x, TWO16, u, 0);
    BitsHighLow(AndGate, x, 0xffff_0000, 16, 32);
    HighLow(x, 16);
    HighLow(0xffff_0000, 16);
    BitsMask(u, 16, 16);
    BitsZero(AndGate, 0, 16);
    UpIsTimes(u, 16);
    SmallModulo(u, TWO16);
  }

  lemma SignedImmediate(imm: short)
    ensures Signed(Wrap(imm)) == imm
  {
  }

  // ---- The processor -------------------------------------------------------------------------------

  class Cpu {
    const R: array<word>
    const delayedLoads: bool
    var HI: word
    var LO: word
    var PC: word
    var mem: Bytes
    var outcome: Outcome
    var slot1: Slot
    var slot2: Slot

    ghost predicate Valid()
      reads this
    {
      R.Length == 32
    }

    ghost function Registers(): Regs
      reads this, R
      requires Valid()
    {
      R[..]
    }

    ghost function Rest(): Core
      reads this
    {
      Core(HI, LO, PC, mem)
    }

    ghost function Snapshot(): Machine
      reads this, R
      requires Valid()
    {
      Machine(State(R[..], HI, LO, PC, mem, outcome), slot1, slot2)
    }

    constructor (delayed: bool, pc: word, memory: Bytes)
      ensures Valid() && fresh(R) && delayedLoads == delayed
      ensures Snapshot() == Machine(State(seq(32, _ => 0), 0, 0, pc, memory, Running), Empty, Empty)
    {
      R := new word[32](_ => 0);
      delayedLoads := delayed;
      HI, LO, PC, mem, outcome := 0, 0, pc, memory, Running;
      slot1, slot2 := Empty, Empty;
    }

    /** The instruction of effect e has been carried out on registers R0 and first slot `slot0`; PC
        is still to be moved on by one instruction, unless the instruction faulted. */
    ghost predicate Did(e: Effect, R0: Regs, slot0: Slot)
      reads this, R
      requires Valid()
    {
      && Registers() == RegsAfter(delayedLoads, R0, e) && slot1 == SlotAfter(delayedLoads, slot0, e)
      && HI == e.core.HI && LO == e.core.LO && mem == e.core.mem && outcome == e.outcome
      && (if outcome == Running then Wrap(PC + 4) else PC) == e.core.PC
    }

    /** The four-product multiplication leaves the exact 64-bit product in HI and LO. */
    method UnsignedMultiply(v1: word, v2: word)
      modifies this`HI, this`LO
      ensures Accumulator(HI, LO) == v1 * v2
    {
      hide Or, Wrap, Accumulator;
      var a, b := v1 / TWO16, v1 % TWO16;
      var c, d := v2 / TWO16, v2 % TWO16;
      LimbProduct(b, d);
      LimbProduct(a, d);
      LimbProduct(c, b);
      LimbProduct(a, c);
      var bd: word := b * d;
      var ad: word := a * d;
      var cb: word := c * b;
      var ac: word := a * c;
      var carry := 0;
      var mid := Wrap(ad + cb);
      if mid < ad || mid < cb {
        carry := 1;
      }
      var mid2 := Wrap(mid + bd / TWO16);
      if mid2 < mid || mid2 < bd / TWO16 {
        carry := carry + 1;
      }
      LO := Or(bd % TWO16, mid2 % TWO16 * TWO16);
      HI := Wrap(ac + Wrap(carry * TWO16) + mid2 / TWO16);
      LimbsOfProduct(v1, v2);
      LimbSum(ac, ad, cb, bd);
      LimbWords(ac, carry, mid2, bd);
    }

    /** The signed product, by the unsigned one of the magnitudes; the negation of -2^31 wraps. */
    method SignedMultiply(v1: word, v2: word)
      modifies this`HI, this`LO
      ensures HI == Upper(Signed(v1) * Signed(v2)) && LO == Lower(Signed(v1) * Signed(v2))
    {
      hide Signed, Upper, Lower, Accumulator, Not;
      var m1, m2, negative := v1, v2, false;
      if SignBit(v1) {
        m1, negative := Wrap(0 - v1), true;
      }
      if SignBit(v2) {
        m2, negative := Wrap(0 - v2), !negative;
      }
      UnsignedMultiply(m1, m2);
      MagnitudeProduct(v1, v2, m1, m2);
      WordsOfAccumulator(HI, LO);
      if negative {
        NegateWords((m1 as int) * m2);
        LO := Not(LO);
        HI := Not(HI);
        LO := Wrap(LO + 1);
        if LO == 0 {
          HI := Wrap(HI + 1);
        }
      }
    }

    /** MADD and MADDU: the product is added to HI:LO modulo 2^64. */
    method MultiplyAdd(signed: bool, v1: word, v2: word)
      modifies this`HI, this`LO
      ensures var sum := old(Accumulator(HI, LO)) + (if signed then Signed(v1) * Signed(v2) else v1 * v2);
        HI == Upper(sum) && LO == Lower(sum)
    {
      hide Wrap, Accumulator, Upper, Lower, Signed;
      var lo, hi := LO, HI;
      Multiply(signed, v1, v2);
      AddProduct(hi, lo, if signed then Signed(v1) * Signed(v2) else v1 * v2);
      var tmp := Wrap(lo as int + LO);
      if tmp < LO || tmp < lo {
        hi := Wrap(hi as int + 1);
      }
      LO := tmp;
      HI := Wrap(hi as int + HI);
    }

    /** MSUB and MSUBU: the product is subtracted from HI:LO modulo 2^64. */
    method MultiplySubtract(signed: bool, v1: word, v2: word)
      modifies this`HI, this`LO
      ensures var difference := old(Accumulator(HI, LO)) - (if signed then Signed(v1) * Signed(v2) else v1 * v2);
        HI == Upper(difference) && LO == Lower(difference)
    {
      hide Wrap, Accumulator, Upper, Lower, Signed;
      var lo, hi := LO, HI;
      Multiply(signed, v1, v2);
      SubtractProduct(hi, lo, if signed then Signed(v1) * Signed(v2) else v1 * v2);
      var tmp := Wrap(lo as int - LO);
      if LO > lo {
        hi := Wrap(hi as int - 1);
      }
      LO := tmp;
      HI := Wrap(hi as int - HI);
    }

    method Multiply(signed: bool, v1: word, v2: word)
      modifies this`HI, this`LO
      ensures var p := if signed then Signed(v1) * Signed(v2) else v1 * v2;
        HI == Upper(p) && LO == Lower(p)
    {
      if signed {
        SignedMultiply(v1, v2);
      } else {
        UnsignedMultiply(v1, v2);
        WordsOfAccumulator(HI, LO);
      }
    }

    // ---- Instructions ----

    /** LOAD_INST_BASE: the value goes to its register at once, or into the first pending slot. */
    method LoadInst(r: reg, v: word)
      requires Valid()
      modifies R, this`slot1
      ensures Registers() == (if delayedLoads then old(Registers()) else old(Registers())[r := v])
      ensures slot1 == if delayedLoads then Pending(r, v) else old(slot1)
    {
      if delayedLoads {
        slot1 := Pending(r, v);
      } else {
        R[r] := v;
      }
    }

    /** The pending value of the load before last arrives and the slots move up. */
    method DoDelayedUpdate()
      requires Valid()
      modifies R, this`slot1, this`slot2
      ensures Registers() == Fill(old(Registers()), old(slot2)) && slot1 == Empty && slot2 == old(slot1)
    {
      if slot2.Pending? {
        R[slot2.r] := slot2.v;
      }
      slot2 := slot1;
      slot1 := Empty;
    }

    /** BRANCH_INST: PC is left one instruction short of where control goes. */
    method BranchInst(test: bool, target: word, nullify: bool)
      modifies this`PC
      ensures Wrap(PC + 4) == if test then target else if nullify then Wrap(old(PC) + 8) else Wrap(old(PC) + 4)
    {
      if test {
        PC := Wrap(target - 4);
        WrapBack(target);
      } else if nullify {
        WrapTwice(PC);
        PC := Wrap(PC + 4);
      }
    }

    method BranchInstruction(i: Inst)
      requires Valid() && IsBranch(i.op) && outcome == Running
      modifies this`PC, R
      ensures Did(ExecuteBranch(i, old(R[i.rs]), old(R[i.rt]), old(Rest())), old(Registers()), old(slot1))
    {
      hide Displacement, Wrap, Taken, BranchTest;
      var vt := R[i.rt];
      if i.op.BGEZAL? || i.op.BGEZALL? || i.op.BLTZAL? || i.op.BLTZALL? {
        R[31] := Wrap(PC + 4);
      }
      var vs := R[i.rs];
      var target := Wrap(PC + Displacement(i.imm));
      SignTests(i.op, vs, vt);
      BranchInst(BranchTest(i.op, vs, vt), target, IsLikely(i.op));
    }

    method JumpInstruction(i: Inst)
      requires Valid() && IsJump(i.op) && outcome == Running
      modifies this`PC, R
      ensures Did(ExecuteJump(i, old(R[i.rs]), old(Rest())), old(Registers()), old(slot1))
    {
      hide Or, Wrap;
      var target := if i.op.J? || i.op.JAL? then Or(PC / 0x1000_0000 * 0x1000_0000, Wrap(i.target * 4)) else R[i.rs];
      if i.op.JAL? {
        R[31] := Wrap(PC + 4);
      } else if i.op.JALR? {
        R[i.rd] := Wrap(PC + 4);
      }
      PC := Wrap(target - 4);
      WrapBack(target);
    }

    /** ADD, ADDI and SUB: the sum wraps, and the overflow trap looks at sign bits. */
    method CheckedInstruction(i: Inst)
      requires Valid() && (i.op.ADD? || i.op.ADDI? || i.op.SUB?) && outcome == Running
      modifies this`outcome, R
      ensures Did(ExecuteAlu(i, old(R[i.rs]), old(R[i.rt]), old(Rest())), old(Registers()), old(slot1))
    {
      hide ExecuteAlu, Checked, Wrap, Signed, SignBit;
      CheckedMeans(i, R[i.rs], R[i.rt], Rest());
      var vs := R[i.rs];
      if i.op.ADD? {
        var vt := R[i.rt];
        var sum := Wrap(vs as int + vt);
        OverflowTests(vs, vt);
        SetOrTrap(i.rd, sum, SignBit(vs) == SignBit(vt) && SignBit(vs) != SignBit(sum), Signed(vs) + Signed(vt));
      } else if i.op.ADDI? {
        var imm := Wrap(i.imm);
        var sum := Wrap(vs as int + imm);
        OverflowTestImmediate(vs, i.imm);
        SetOrTrap(i.rt, sum, SignBit(vs) == SignBit(imm) && SignBit(vs) != SignBit(sum), Signed(vs) + i.imm);
      } else {
        var vt := R[i.rt];
        var diff := Wrap(vs as int - vt);
        OverflowTests(vs, vt);
        SetOrTrap(i.rd, diff, SignBit(vs) != SignBit(vt) && SignBit(vs) != SignBit(diff), Signed(vs) - Signed(vt));
      }
    }

    // The end of each of them: a trap, or the wrapped result x in its register.
    method SetOrTrap(rd: reg, value: word, overflow: bool, ghost x: int)
      requires Valid() && outcome == Running
      requires value == Wrap(x) && (overflow <==> !(-0x8000_0000 <= x < 0x8000_0000))
      modifies this`outcome, R
      ensures Did(Checked(old(Rest()), rd, x), old(Registers()), old(slot1))
    {
      hide Wrap;
      if overflow {
        outcome := Trap(OVERFLOW);
      } else {
        R[rd] := value;
      }
    }

    /** The operations that only compute a register. */
    method ComputeInstruction(i: Inst)
      requires Valid() && (IsRegisterOp(i.op) || IsImmediateOp(i.op) || IsShift(i.op)) && outcome == Running
      modifies R
      ensures Did(ExecuteAlu(i, old(R[i.rs]), old(R[i.rt]), old(Rest())), old(Registers()), old(slot1))
    {
      hide RegisterOp, ImmediateOp, ShiftOp, IsRegisterOp, IsImmediateOp, IsShift, Wrap;
      if IsRegisterOp(i.op) {
        RegisterInstruction(i);
      } else if IsImmediateOp(i.op) {
        ImmediateInstruction(i);
      } else {
        ShiftInstruction(i);
      }
    }

    /** Register operands, case by case as in C. */
    method RegisterInstruction(i: Inst)
      requires Valid() && IsRegisterOp(i.op)
      modifies R
      ensures R[..] == old(R[..])[i.rd := RegisterOp(i.op, old(R[i.rs]), old(R[i.rt]))]
    {
      hide Wrap, And, Or, Xor, Not, Signed;
      var vs, vt := R[i.rs], R[i.rt];
      if i.op.ADDU? {
        R[i.rd] := Wrap(vs as int + vt);
      } else if i.op.AND? {
        R[i.rd] := And(vs, vt);
      } else if i.op.NOR? {
        R[i.rd] := Not(Or(vs, vt));
      } else if i.op.OR? {
        R[i.rd] := Or(vs, vt);
      } else if i.op.SLT? {
        R[i.rd] := if Signed(vs) < Signed(vt) then 1 else 0;
      } else if i.op.SLTU? {
        R[i.rd] := if vs < vt then 1 else 0;
      } else if i.op.SUBU? {
        R[i.rd] := Wrap(vs as int - vt);
      } else if i.op.XOR? {
        R[i.rd] := Xor(vs, vt);
      } else {
        ShiftByRegister(i);
      }
    }

    /** The distance is masked to five bits, so that the range test that follows always holds. */
    method ShiftByRegister(i: Inst)
      requires Valid() && (i.op.SLLV? || i.op.SRAV? || i.op.SRLV?)
      modifies R
      ensures R[..] == old(R[..])[i.rd := RegisterOp(i.op, old(R[i.rs]), old(R[i.rt]))]
    {
      hide And, ShiftLeft, ShiftRight, ShiftRightArith;
      var val := R[i.rt];
      var shamt := And(R[i.rs], 0x1f);
      MaskFive(R[i.rs]);
      assert 0 <= shamt < 32;
      if i.op.SLLV? {
        R[i.rd] := ShiftLeft(val, shamt);
      } else if i.op.SRAV? {
        R[i.rd] := ShiftRightArith(val, shamt);
      } else {
        R[i.rd] := ShiftRight(val, shamt);
      }
    }

    method ShiftInstruction(i: Inst)
      requires Valid() && IsShift(i.op)
      modifies R
      ensures R[..] == old(R[..])[i.rd := ShiftOp(i.op, old(R[i.rt]), i.shamt)]
    {
      hide ShiftLeft, ShiftRight, ShiftRightArith;
      var val := R[i.rt];
      if i.shamt >= 0 && i.shamt < 32 {
        if i.op.SLL? {
          R[i.rd] := ShiftLeft(val, i.shamt);
        } else if i.op.SRA? {
          R[i.rd] := ShiftRightArith(val, i.shamt);
        } else {
          R[i.rd] := ShiftRight(val, i.shamt);
        }
      } else {
        R[i.rd] := val;
      }
    }

    /** The immediate is a short: in C it is sign-extended wherever it is used, and the logical
        operations mask the extension off again. */
    method ImmediateInstruction(i: Inst)
      requires Valid() && IsImmediateOp(i.op)
      modifies R
      ensures R[..] == old(R[..])[i.rt := ImmediateOp(i.op, old(R[i.rs]), i.imm)]
    {
      hide Wrap, And, Or, Xor, Signed, ShiftLeft, Unsigned16;
      var vs, imm := R[i.rs], Wrap(i.imm);
      MaskHalf(i.imm);
      WrapSteps(i.imm, vs);
      if i.op.ADDIU? {
        R[i.rt] := Wrap(vs as int + imm);
      } else if i.op.ANDI? {
        R[i.rt] := And(vs, And(0xffff, imm));
      } else if i.op.LUI? {
        MaskUpper(i.imm);
        R[i.rt] := And(ShiftLeft(imm, 16), 0xffff_0000);
      } else if i.op.ORI? {
        R[i.rt] := Or(vs, And(0xffff, imm));
      } else if i.op.SLTI? {
        SignedImmediate(i.imm);
        R[i.rt] := if Signed(vs) < Signed(imm) then 1 else 0;
      } else if i.op.SLTIU? {
        R[i.rt] := if vs < imm then 1 else 0;
      } else {
        R[i.rt] := Xor(vs, And(0xffff, imm));
      }
    }

    method ConditionalMove(i: Inst)
      requires Valid() && (i.op.MOVN? || i.op.MOVZ?) && outcome == Running
      modifies R
      ensures Did(ExecuteAlu(i, old(R[i.rs]), old(R[i.rt]), old(Rest())), old(Registers()), old(slot1))
    {
      hide Wrap, ExecuteAlu;
      MoveMeans(i, R[i.rs], R[i.rt], Rest());
      if (R[i.rt] != 0) == i.op.MOVN? {
        R[i.rd] := R[i.rs];
      }
    }

    /** C's division truncates; the cases it leaves undefined are skipped. */
    method DivideInst(signed: bool, vs: word, vt: word)
      modifies this`HI, this`LO
      ensures if DivisionSkipped(vs, vt) then HI == old(HI) && LO == old(LO)
              else if signed then HI == Wrap(TruncRem(Signed(vs), Signed(vt))) && LO == Wrap(TruncDiv(Signed(vs), Signed(vt)))
              else HI == Wrap(vs % vt) && LO == Wrap(vs / vt)
    {
      if vt != 0 && !(vs == 0x8000_0000 && vt == 0xffff_ffff) {
        if signed {
          LO := Wrap(TruncDiv(Signed(vs), Signed(vt)));
          HI := Wrap(TruncRem(Signed(vs), Signed(vt)));
        } else {
          LO := Wrap(vs / vt);
          HI := Wrap(vs % vt);
        }
      }
    }

    /** The HI and LO instructions. */
    method HiLoInstruction(i: Inst)
      requires Valid() && IsHiLo(i.op) && outcome == Running
      modifies this`HI, this`LO, R
      ensures Did(ExecuteMulDiv(i, old(R[i.rs]), old(R[i.rt]), old(Rest())), old(Registers()), old(slot1))
    {
      hide Signed, TruncDiv, TruncRem, Wrap, Upper, Lower, Accumulator, ExecuteMemory;
      var vs, vt := R[i.rs], R[i.rt];
      if i.op.DIV? || i.op.DIVU? {
        DivideInst(i.op.DIV?, vs, vt);
      } else if i.op.MFHI? {
        R[i.rd] := HI;
      } else if i.op.MFLO? {
        R[i.rd] := LO;
      } else if i.op.MTHI? {
        HI := vs;
      } else if i.op.MTLO? {
        LO := vs;
      } else {
        MultiplyInstruction(i);
      }
    }

    method MultiplyInstruction(i: Inst)
      requires Valid() && IsHiLo(i.op) && outcome == Running
      requires !(i.op.DIV? || i.op.DIVU? || i.op.MFHI? || i.op.MFLO? || i.op.MTHI? || i.op.MTLO?)
      modifies this`HI, this`LO, R
      ensures Did(ExecuteMulDiv(i, old(R[i.rs]), old(R[i.rt]), old(Rest())), old(Registers()), old(slot1))
    {
      hide ExecuteMulDiv, Upper, Lower, Signed, Wrap, Accumulator;
      MultiplyMeans(i, R[i.rs], R[i.rt], Rest());
      var vs, vt := R[i.rs], R[i.rt];
      if i.op.MADD? || i.op.MADDU? {
        MultiplyAdd(i.op.MADD?, vs, vt);
      } else if i.op.MSUB? || i.op.MSUBU? {
        MultiplySubtract(i.op.MSUB?, vs, vt);
      } else if i.op.MULT? || i.op.MUL? {
        SignedMultiply(vs, vt);
        if i.op.MUL? {
          R[i.rd] := LO;
        }
      } else {
        UnsignedMultiply(vs, vt);
        WordsOfAccumulator(HI, LO);
      }
    }

    // ---- Memory ----

    /** read_mem_word: 0 and an exception when the address is unaligned or not mapped. */
    method ReadMemWord(a: word) returns (v: word)
      requires outcome == Running
      modifies this`outcome
      ensures if a % 4 != 0 then outcome == Trap(ADDRESS_ERROR_LOAD) && v == 0
              else if !Mapped(mem, a, 4) then outcome == Trap(BUS_ERROR_DATA) && v == 0
              else outcome == Running && v == WordAt(mem, a)
    {
      v := 0;
      if a % 4 != 0 {
        outcome := Trap(ADDRESS_ERROR_LOAD);
      } else if !Mapped(mem, a, 4) {
        outcome := Trap(BUS_ERROR_DATA);
      } else {
        v := WordAt(mem, a);
      }
    }

    /** set_mem_word. */
    method SetMemWord(a: word, v: word)
      requires outcome == Running
      modifies this`outcome, this`mem
      ensures if a % 4 != 0 then outcome == Trap(ADDRESS_ERROR_STORE) && mem == old(mem)
              else if !Mapped(old(mem), a, 4) then outcome == Trap(BUS_ERROR_DATA) && mem == old(mem)
              else outcome == Running && mem == PutWord(old(mem), a, v)
    {
      if a % 4 != 0 {
        outcome := Trap(ADDRESS_ERROR_STORE);
      } else if !Mapped(mem, a, 4) {
        outcome := Trap(BUS_ERROR_DATA);
      } else {
        mem := PutWord(mem, a, v);
      }
    }

    /** LWL: the low bytes of the aligned word go above the low bytes of the register. */
    method LoadWordLeft(i: Inst)
      requires Valid() && i.op.LWL? && outcome == Running
      modifies this`outcome, this`slot1, R
      ensures Did(LoadLeft(old(Rest()), i.rt, Wrap(old(R[i.rs]) + i.imm), old(R[i.rt])), old(Registers()), old(slot1))
    {
      var a := Wrap(R[i.rs] + i.imm);
      hide Wrap, Or, WordAt, MergeLeft, MergeRight, LeftMasks, RightMasks, Mapped, WordBase;
      var regVal := R[i.rt];
      var w := ReadMemWord(WordBase(a));
      if outcome == Running {
        MergeLeftMasks(mem, a, w, regVal);
        w := LeftMasks(a % 4, w, regVal);
      }
      LoadInst(i.rt, w);
    }

    method LoadWordRight(i: Inst)
      requires Valid() && i.op.LWR? && outcome == Running
      modifies this`outcome, this`slot1, R
      ensures Did(LoadRight(old(Rest()), i.rt, Wrap(old(R[i.rs]) + i.imm), old(R[i.rt])), old(Registers()), old(slot1))
    {
      var a := Wrap(R[i.rs] + i.imm);
      hide Wrap, Or, WordAt, MergeLeft, MergeRight, LeftMasks, RightMasks, Mapped, WordBase;
      var regVal := R[i.rt];
      var w := ReadMemWord(WordBase(a));
      if outcome == Running {
        MergeRightMasks(mem, a, w, regVal);
        w := RightMasks(a % 4, w, regVal);
      }
      LoadInst(i.rt, w);
    }

    /** SWL: the aligned word is read, merged and written back whole. */
    method StoreWordLeft(i: Inst)
      requires Valid() && i.op.SWL? && outcome == Running
      modifies this`outcome, this`mem
      ensures Did(StoreLeft(old(Rest()), Wrap(old(R[i.rs]) + i.imm), old(R[i.rt])), old(Registers()), old(slot1))
    {
      hide Wrap;
      StoreLeftAt(Wrap(R[i.rs] + i.imm), R[i.rt]);
    }

    method StoreLeftAt(a: word, v: word)
      requires Valid() && outcome == Running
      modifies this`outcome, this`mem
      ensures Did(StoreLeft(old(Rest()), a, v), Registers(), slot1)
    {
      hide Wrap, Or, WordAt, PutWord, SpreadLeft, SpreadRight, StoreLeftMasks, StoreRightMasks, Mapped, WordBase;
      var data := ReadMemWord(WordBase(a));
      if outcome == Running {
        SpreadLeftMasks(mem, a, data, v);
        SetMemWord(WordBase(a), StoreLeftMasks(a % 4, data, v));
      }
    }

    method StoreWordRight(i: Inst)
      requires Valid() && i.op.SWR? && outcome == Running
      modifies this`outcome, this`mem
      ensures Did(StoreRight(old(Rest()), Wrap(old(R[i.rs]) + i.imm), old(R[i.rt])), old(Registers()), old(slot1))
    {
      hide Wrap;
      StoreRightAt(Wrap(R[i.rs] + i.imm), R[i.rt]);
    }

    method StoreRightAt(a: word, v: word)
      requires Valid() && outcome == Running
      modifies this`outcome, this`mem
      ensures Did(StoreRight(old(Rest()), a, v), Registers(), slot1)
    {
      hide Wrap, Or, WordAt, PutWord, SpreadLeft, SpreadRight, StoreLeftMasks, StoreRightMasks, Mapped, WordBase;
      var data := ReadMemWord(WordBase(a));
      if outcome == Running {
        SpreadRightMasks(mem, a, data, v);
        SetMemWord(WordBase(a), StoreRightMasks(a % 4, data, v));
      }
    }

    method LoadInstruction(i: Inst)
      requires Valid() && IsLoad(i.op) && outcome == Running
      modifies this`outcome, this`slot1, R
      ensures Did(ExecuteMemory(i, Wrap(old(R[i.rs]) + i.imm), old(R[i.rt]), old(Rest())), old(Registers()), old(slot1))
    {
      hide ExecuteMemory, Wrap, WordAt, Mapped, HalfAt, LoadLeft, LoadRight, SignExtendByte, SignExtendHalf;
      LoadMeans(i, Wrap(R[i.rs] + i.imm), R[i.rt], Rest());
      if i.op.LWL? {
        LoadWordLeft(i);
        return;
      }
      if i.op.LWR? {
        LoadWordRight(i);
        return;
      }
      var a := Wrap(R[i.rs] + i.imm);
      var v := 0;
      if i.op.LB? || i.op.LBU? {
        v := ReadMemByte(a);
        v := if i.op.LBU? then v % 0x100 else v;
      } else if i.op.LH? || i.op.LHU? {
        v := ReadMemHalf(a);
        v := if i.op.LHU? then v % 0x1_0000 else v;
      } else {
        v := ReadMemWord(a);
      }
      LoadInst(i.rt, v);
    }

    /** read_mem_byte gives the byte sign-extended: the segments are arrays of signed bytes. */
    method ReadMemByte(a: word) returns (v: word)
      requires outcome == Running
      modifies this`outcome
      ensures if a !in mem then outcome == Trap(BUS_ERROR_DATA) && v == 0
              else outcome == Running && v == SignExtendByte(mem[a]) && v % 0x100 == mem[a]
      ensures v == 0 ==> v % 0x100 == 0
    {
      if a !in mem {
        outcome, v := Trap(BUS_ERROR_DATA), 0;
      } else {
        v := SignExtendByte(mem[a]);
      }
    }

    method ReadMemHalf(a: word) returns (v: word)
      requires outcome == Running
      modifies this`outcome
      ensures if a % 2 != 0 then outcome == Trap(ADDRESS_ERROR_LOAD) && v == 0
              else if !Mapped(mem, a, 2) then outcome == Trap(BUS_ERROR_DATA) && v == 0
              else outcome == Running && v == SignExtendHalf(HalfAt(mem, a)) && v % 0x1_0000 == HalfAt(mem, a)
      ensures v == 0 ==> v % 0x1_0000 == 0
    {
      v := 0;
      if a % 2 != 0 {
        outcome := Trap(ADDRESS_ERROR_LOAD);
      } else if !Mapped(mem, a, 2) {
        outcome := Trap(BUS_ERROR_DATA);
      } else {
        v := SignExtendHalf(HalfAt(mem, a));
      }
    }

    method StoreInstruction(i: Inst)
      requires Valid() && IsStore(i.op) && outcome == Running
      modifies this`outcome, this`mem
      ensures Did(ExecuteMemory(i, Wrap(old(R[i.rs]) + i.imm), old(R[i.rt]), old(Rest())), old(Registers()), old(slot1))
    {
      hide Wrap, StoreByte, StoreHalf, StoreWord, StoreLeft, StoreRight, Did;
      if i.op.SWL? {
        StoreWordLeft(i);
      } else if i.op.SWR? {
        StoreWordRight(i);
      } else if i.op.SB? {
        StoreByteOf(Wrap(R[i.rs] + i.imm), R[i.rt]);
      } else if i.op.SH? {
        StoreHalfOf(Wrap(R[i.rs] + i.imm), R[i.rt]);
      } else {
        StoreWordOf(Wrap(R[i.rs] + i.imm), R[i.rt]);
      }
    }

    method StoreByteOf(a: word, v: word)
      requires Valid() && outcome == Running
      modifies this`outcome, this`mem
      ensures Did(StoreByte(old(Rest()), a, v), Registers(), slot1)
    {
      hide Wrap, ByteOf;
      if a !in mem {
        outcome := Trap(BUS_ERROR_DATA);
      } else {
        mem := mem[a := ByteOf(v, 0)];
      }
    }

    method StoreHalfOf(a: word, v: word)
      requires Valid() && outcome == Running
      modifies this`outcome, this`mem
      ensures Did(StoreHalf(old(Rest()), a, v), Registers(), slot1)
    {
      hide Wrap, PutHalf, Mapped;
      if a % 2 != 0 {
        outcome := Trap(ADDRESS_ERROR_STORE);
      } else if !Mapped(mem, a, 2) {
        outcome := Trap(BUS_ERROR_DATA);
      } else {
        mem := PutHalf(mem, a, v);
      }
    }

    method StoreWordOf(a: word, v: word)
      requires Valid() && outcome == Running
      modifies this`outcome, this`mem
      ensures Did(StoreWord(old(Rest()), a, v), Registers(), slot1)
    {
      hide Wrap, PutWord, Mapped;
      SetMemWord(a, v);
    }

    /** The instruction switch. */
    method ExecuteInstruction(i: Inst)
      requires Valid() && outcome == Running
      modifies this`HI, this`LO, this`PC, this`mem, this`outcome, this`slot1, R
      ensures Did(Execute(i, old(R[i.rs]), old(R[i.rt]), old(Rest())), old(Registers()), old(slot1))
    {
      hide ExecuteBranch, ExecuteJump, ExecuteMemory, RegsAfter, SlotAfter, RegisterOp, ImmediateOp, ShiftOp, Wrap, Signed;
      if IsBranch(i.op) {
        BranchInstruction(i);
      } else if IsJump(i.op) {
        JumpInstruction(i);
      } else if i.op.BREAK? {
        FaultDid(Rest(), Registers(), slot1);
        outcome := Trap(BREAKPOINT);
      } else {
        ExecuteOther(i);
      }
    }

    method ExecuteOther(i: Inst)
      requires Valid() && outcome == Running && !IsBranch(i.op) && !IsJump(i.op) && !i.op.BREAK?
      modifies this`HI, this`LO, this`mem, this`outcome, this`slot1, R
      ensures Did(ExecuteAlu(i, old(R[i.rs]), old(R[i.rt]), old(Rest())), old(Registers()), old(slot1))
    {
      OtherGroups(i, R[i.rs], R[i.rt], Rest());
      hide ExecuteAlu, ExecuteMulDiv, ExecuteMemory, RegsAfter, SlotAfter, Wrap;
      if IsRegisterOp(i.op) || IsImmediateOp(i.op) || IsShift(i.op) {
        ComputeInstruction(i);
      } else if i.op.ADD? || i.op.ADDI? || i.op.SUB? {
        CheckedInstruction(i);
      } else if i.op.MOVN? || i.op.MOVZ? {
        ConditionalMove(i);
      } else if IsHiLo(i.op) {
        HiLoInstruction(i);
      } else if IsLoad(i.op) {
        LoadInstruction(i);
      } else {
        StoreInstruction(i);
      }
    }

    /** One turn of the execution loop is one step of the specified machine, with immediate or with
        delayed loads. */
    method Step(text: Text)
      requires Valid()
      modifies this, R
      ensures Valid()
      ensures Snapshot() == StepLoads(delayedLoads, text, old(Snapshot()))
    {
      hide Execute, Wrap, RegsAfter, SlotAfter;
      if outcome != Running {
        return;
      }
      R[0] := 0;
      if PC !in text {
        outcome := NoInstruction;
        return;
      }
      var i := text[PC];
      if delayedLoads {
        DoDelayedUpdate();
      }
      ExecuteInstruction(i);
      if outcome == Running {
        PC := Wrap(PC + 4);
      }
    }

    /** One turn with delayed branches: a taken branch or a jump runs the instruction after it by a
        nested turn of the loop, and goes to its target when that is done. */
    method StepWithSlot(text: Text)
      requires Valid() && !delayedLoads && (PC in text ==> SlotAllowed(text, PC))
      modifies this, R
      ensures Valid()
      ensures Snapshot() == old(Snapshot()).(s := TurnDelayed(text, old(Snapshot()).s))
    {
      hide StepDelayed, StepLoads, Perform, Wrap, IsBranch, IsJump;
      if outcome != Running {
        return;
      }
      if PC !in text {
        R[0] := 0;
        outcome := NoInstruction;
        return;
      }
      var i := text[PC];
      if !Transfers(i.op) {
        PlainTurn(text, Snapshot().s);
        ImmediateIsStep(text, Snapshot());
        Step(text);
      } else if IsBranch(i.op) {
        ZeroedTransfer(text, Snapshot().s);
        R[0] := 0;
        BranchWithSlot(text, i);
      } else {
        ZeroedTransfer(text, Snapshot().s);
        R[0] := 0;
        JumpWithSlot(text, i);
      }
    }

    method RunSlot(text: Text)
      requires Valid() && !delayedLoads && outcome == Running && Wrap(PC + 4) in text
      modifies this, R
      ensures Valid()
      ensures Snapshot()
              == old(Snapshot()).(s := Perform(text[Wrap(old(PC) + 4)], old(Snapshot()).s.(PC := Wrap(old(PC) + 4))))
    {
      hide StepLoads, Perform, Wrap;
      PC := Wrap(PC + 4);
      ImmediateIsStep(text, Snapshot());
      Step(text);
    }

    method BranchWithSlot(text: Text, i: Inst)
      requires Valid() && !delayedLoads && outcome == Running
      requires PC in text && text[PC] == i && IsBranch(i.op)
      requires Wrap(PC + 4) in text && !Transfers(text[Wrap(PC + 4)].op) && R[0] == 0
      modifies this, R
      ensures Valid()
      ensures Snapshot() == old(Snapshot()).(s := StepDelayed(text, old(Snapshot()).s))
    {
      hide StepLoads, Perform, Wrap, Displacement, Taken, IsBranch, IsJump, IsLikely, Links, AtSlot;
      SlotPc(i, Snapshot().s);
      var taken := LinkAndTest(i);
      if taken {
        var target := Wrap(PC + Displacement(i.imm));
        target := Wrap(target as int + 4);
        WrapSteps(PC + Displacement(i.imm), 4);
        RunSlot(text);
        PC := target;
      } else if IsLikely(i.op) {
        PC := Wrap(PC + 8);
      } else {
        PC := Wrap(PC + 4);
      }
    }

    /** The link is written before the test. */
    method LinkAndTest(i: Inst) returns (taken: bool)
      requires Valid() && IsBranch(i.op) && R[0] == 0
      modifies R
      ensures R[..] == AtSlot(i, old(Snapshot()).s).R
      ensures taken == Taken(i.op, Tested(i, old(R[i.rs]), Wrap(PC + 8)), old(R[i.rt]))
    {
      hide Wrap, Taken, BranchTest, IsBranch;
      assert ZeroR0(R[..]) == R[..];
      BranchIsNoJump(i.op);
      var vt := R[i.rt];
      if i.op.BGEZAL? || i.op.BGEZALL? || i.op.BLTZAL? || i.op.BLTZALL? {
        R[31] := Wrap(PC + 8);
      }
      var vs := R[i.rs];
      SignTests(i.op, vs, vt);
      taken := BranchTest(i.op, vs, vt);
    }

    lemma SlotPc(i: Inst, s: State)
      ensures AtSlot(i, s) == s.(R := AtSlot(i, s).R, PC := Wrap(s.PC + 4))
      ensures s.R[0] == 0 ==> ZeroR0(s.R) == s.R
    {
      hide Wrap;
      assert s.R[0] == 0 ==> ZeroR0(s.R) == s.R;
    }

    /** J and JAL take the top bits of the PC after the slot has run. */
    method JumpWithSlot(text: Text, i: Inst)
      requires Valid() && !delayedLoads && outcome == Running
      requires PC in text && text[PC] == i && IsJump(i.op) && !IsBranch(i.op)
      requires Wrap(PC + 4) in text && !Transfers(text[Wrap(PC + 4)].op) && R[0] == 0
      modifies this, R
      ensures Valid()
      ensures Snapshot() == old(Snapshot()).(s := StepDelayed(text, old(Snapshot()).s))
    {
      hide StepLoads, Perform, Wrap, Or, IsBranch;
      assert ZeroR0(R[..]) == R[..];
      var tmp := R[i.rs];
      if i.op.JAL? {
        R[31] := Wrap(PC + 8);
      } else if i.op.JALR? {
        R[i.rd] := Wrap(PC + 8);
      }
      RunSlot(text);
      PC := if i.op.J? || i.op.JAL? then Or(PC / 0x1000_0000 * 0x1000_0000, Wrap(i.target * 4)) else tmp;
    }

    /** Running for a number of turns with delayed branches. */
    method RunWithSlots(text: Text, turns: nat)
      requires Valid() && !delayedLoads && SlotsAllowed(text)
      modifies this, R
      ensures Valid()
      ensures Snapshot() == old(Snapshot()).(s := RunDelayed(text, old(Snapshot()).s, turns))
    {
      hide TurnDelayed, SlotAllowed;
      var turn := 0;
      while turn < turns
        invariant Valid() && turn <= turns
        invariant Snapshot() == old(Snapshot()).(s := RunDelayed(text, old(Snapshot()).s, turn))
      {
        OneMoreTurn(text, old(Snapshot()).s, turn);
        StepWithSlot(text);
        turn := turn + 1;
      }
    }

    /** Running for a number of steps. */
    method RunSteps(text: Text, steps: nat)
      requires Valid()
      modifies this, R
      ensures Valid()
      ensures Snapshot() == RunLoads(delayedLoads, text, old(Snapshot()), steps)
    {
      hide StepLoads;
      var step := 0;
      RunLoadsAdd(delayedLoads, text, Snapshot(), 0, 0);
      while step < steps
        invariant Valid() && step <= steps
        invariant Snapshot() == RunLoads(delayedLoads, text, old(Snapshot()), step)
      {
        RunLoadsAdd(delayedLoads, text, old(Snapshot()), step, 1);
        Step(text);
        step := step + 1;
      }
    }
  }

  lemma BranchIsNoJump(op: Opcode)
    ensures IsBranch(op) ==> !op.JAL? && !op.JALR?
  {
  }

  lemma PlainTurn(text: Text, s: State)
    requires s.outcome == Running && s.PC in text && !Transfers(text[s.PC].op)
    ensures StepDelayed(text, s) == Perform(text[s.PC], s)
  {
    hide Perform, Transfers;
  }

  lemma ZeroedTransfer(text: Text, s: State)
    requires s.outcome == Running && s.PC in text && SlotAllowed(text, s.PC)
    requires Transfers(text[s.PC].op)
    ensures StepDelayed(text, s.(R := ZeroR0(s.R))) == StepDelayed(text, s)
  {
    hide Perform, Wrap, Taken, BranchTarget, JumpTarget;
    assert ZeroR0(ZeroR0(s.R)) == ZeroR0(s.R);
  }

  lemma {:induction false} RunLoadsAdd(delayed: bool, text: Text, m: Machine, j: nat, k: nat)
    ensures RunLoads(delayed, text, m, j + k) == RunLoads(delayed, text, RunLoads(delayed, text, m, j), k)
    ensures k == 1 ==> RunLoads(delayed, text, m, j + k) == StepLoads(delayed, text, RunLoads(delayed, text, m, j))
    decreases j
  {
    hide StepLoads;
    if j > 0 {
      RunLoadsAdd(delayed, text, StepLoads(delayed, text, m), j - 1, k);
    }
  }

  // A fault changes nothing but the outcome.
  lemma FaultDid(m: Core, R: Regs, slot: Slot)
    ensures RegsAfter(true, R, Fault(m, BREAKPOINT)) == R && RegsAfter(false, R, Fault(m, BREAKPOINT)) == R
    ensures SlotAfter(true, slot, Fault(m, BREAKPOINT)) == slot && SlotAfter(false, slot, Fault(m, BREAKPOINT)) == slot
  {
  }

  predicate IsStore(op: Opcode) {
    op.SB? || op.SC? || op.SH? || op.SW? || op.SWL? || op.SWR?
  }

  // Which function of the specification covers which group of instructions.
  lemma OtherGroups(i: Inst, a: word, b: word, m: Core)
    requires !IsBranch(i.op) && !IsJump(i.op) && !i.op.BREAK?
    ensures IsHiLo(i.op) ==> ExecuteAlu(i, a, b, m) == ExecuteMulDiv(i, a, b, m)
    ensures IsLoad(i.op) || IsStore(i.op) ==> ExecuteAlu(i, a, b, m) == ExecuteMemory(i, Wrap(a + i.imm), b, m)
    ensures IsRegisterOp(i.op) || IsImmediateOp(i.op) || IsShift(i.op) || i.op.ADD? || i.op.ADDI? || i.op.SUB?
            || i.op.MOVN? || i.op.MOVZ? || IsHiLo(i.op) || IsLoad(i.op) || IsStore(i.op)
  {
    hide Wrap, ExecuteMemory, Signed, Upper, Lower;
  }

  predicate IsHiLo(op: Opcode) {
    || op.DIV? || op.DIVU? || op.MADD? || op.MADDU? || op.MFHI? || op.MFLO? || op.MSUB? || op.MSUBU?
    || op.MTHI? || op.MTLO? || op.MUL? || op.MULT? || op.MULTU?
  }

  // ---- Partial words with masks --------------------------------------------------------------------

  function LeftMasks(k: nat, w: word, regVal: word): word
    requires k < 4
  {
    if k == 0 then Or(w % 0x100 * 0x100_0000, regVal % 0x100_0000)
    else if k == 1 then Or(w % 0x1_0000 * 0x1_0000, regVal % 0x1_0000)
    else if k == 2 then Or(w % 0x100_0000 * 0x100, regVal % 0x100)
    else w
  }

  function RightMasks(k: nat, w: word, regVal: word): word
    requires k < 4
  {
    if k == 0 then w
    else if k == 1 then Or(regVal / 0x100_0000 * 0x100_0000, w / 0x100)
    else if k == 2 then Or(regVal / 0x1_0000 * 0x1_0000, w / 0x1_0000)
    else Or(regVal / 0x100 * 0x100, w / 0x100_0000)
  }

  function StoreLeftMasks(k: nat, data: word, reg: word): word
    requires k < 4
  {
    if k == 0 then Or(data / 0x100 * 0x100, reg / 0x100_0000)
    else if k == 1 then Or(data / 0x1_0000 * 0x1_0000, reg / 0x1_0000)
    else if k == 2 then Or(data / 0x100_0000 * 0x100_0000, reg / 0x100)
    else reg
  }

  function StoreRightMasks(k: nat, data: word, reg: word): word
    requires k < 4
  {
    if k == 0 then reg
    else if k == 1 then Or(reg % 0x100_0000 * 0x100, data % 0x100)
    else if k == 2 then Or(reg % 0x1_0000 * 0x1_0000, data % 0x1_0000)
    else Or(reg % 0x100 * 0x100_0000, data % 0x100_0000)
  }

  // Splitting words at byte boundaries.
  lemma WordParts(b0: byte, b1: byte, b2: byte, b3: byte)
    ensures var x := Join(b0, b1, b2, b3);
      && x % 0x100 == b0 && x % 0x1_0000 == b0 + 0x100 * b1 && x % 0x100_0000 == b0 + 0x100 * b1 + 0x1_0000 * b2
      && x / 0x100 == b1 + 0x100 * b2 + 0x1_0000 * b3 && x / 0x1_0000 == b2 + 0x100 * b3 && x / 0x100_0000 == b3
  {
  }

  function Scale(k: nat): nat {
    if k == 8 then 0x100 else if k == 16 then 0x1_0000 else 0x100_0000
  }

  lemma OrParts(high: nat, low: nat, k: nat)
    requires (k == 8 && high < 0x100_0000) || (k == 16 && high < 0x1_0000) || (k == 24 && high < 0x100)
    requires low < Scale(k)
    ensures high * Scale(k) + low < TWO32 && Or(high * Scale(k), low) == high * Scale(k) + low
  {
    Pow2Values();
    hide Or, Pow2;
    if k == 8 {
      QuotientIs(high * 0x100, 0x100, high, 0);
    } else if k == 16 {
      QuotientIs(high * 0x1_0000, 0x1_0000, high, 0);
    } else {
      QuotientIs(high * 0x100_0000, 0x100_0000, high, 0);
    }
    OrIsPlus(high * Scale(k), low, k);
  }

  lemma LeftMasksJoin(k: nat, w0: byte, w1: byte, w2: byte, w3: byte, r0: byte, r1: byte, r2: byte, r3: byte)
    requires k < 4
    ensures LeftMasks(k, Join(w0, w1, w2, w3), Join(r0, r1, r2, r3))
            == if k == 0 then Join(r0, r1, r2, w0) else if k == 1 then Join(r0, r1, w0, w1)
               else if k == 2 then Join(r0, w0, w1, w2) else Join(w0, w1, w2, w3)
  {
    hide Or;
    var w, r := Join(w0, w1, w2, w3), Join(r0, r1, r2, r3);
    WordParts(w0, w1, w2, w3);
    WordParts(r0, r1, r2, r3);
    if k == 0 {
      OrParts(w % 0x100, r % 0x100_0000, 24);
    } else if k == 1 {
      OrParts(w % 0x1_0000, r % 0x1_0000, 16);
    } else if k == 2 {
      OrParts(w % 0x100_0000, r % 0x100, 8);
    }
  }

  lemma RightMasksJoin(k: nat, w0: byte, w1: byte, w2: byte, w3: byte, r0: byte, r1: byte, r2: byte, r3: byte)
    requires k < 4
    ensures RightMasks(k, Join(w0, w1, w2, w3), Join(r0, r1, r2, r3))
            == if k == 0 then Join(w0, w1, w2, w3) else if k == 1 then Join(w1, w2, w3, r3)
               else if k == 2 then Join(w2, w3, r2, r3) else Join(w3, r1, r2, r3)
  {
    hide Or;
    var w, r := Join(w0, w1, w2, w3), Join(r0, r1, r2, r3);
    WordParts(w0, w1, w2, w3);
    WordParts(r0, r1, r2, r3);
    if k == 1 {
      OrParts(r / 0x100_0000, w / 0x100, 24);
    } else if k == 2 {
      OrParts(r / 0x1_0000, w / 0x1_0000, 16);
    } else if k == 3 {
      OrParts(r / 0x100, w / 0x100_0000, 8);
    }
  }

  lemma StoreLeftMasksJoin(k: nat, d0: byte, d1: byte, d2: byte, d3: byte, r0: byte, r1: byte, r2: byte, r3: byte)
    requires k < 4
    ensures StoreLeftMasks(k, Join(d0, d1, d2, d3), Join(r0, r1, r2, r3))
            == if k == 0 then Join(r3, d1, d2, d3) else if k == 1 then Join(r2, r3, d2, d3)
               else if k == 2 then Join(r1, r2, r3, d3) else Join(r0, r1, r2, r3)
  {
    hide Or;
    var d, r := Join(d0, d1, d2, d3), Join(r0, r1, r2, r3);
    WordParts(d0, d1, d2, d3);
    WordParts(r0, r1, r2, r3);
    if k == 0 {
      OrParts(d / 0x100, r / 0x100_0000, 8);
    } else if k == 1 {
      OrParts(d / 0x1_0000, r / 0x1_0000, 16);
    } else if k == 2 {
      OrParts(d / 0x100_0000, r / 0x100, 24);
    }
  }

  lemma StoreRightMasksJoin(k: nat, d0: byte, d1: byte, d2: byte, d3: byte, r0: byte, r1: byte, r2: byte, r3: byte)
    requires k < 4
    ensures StoreRightMasks(k, Join(d0, d1, d2, d3), Join(r0, r1, r2, r3))
            == if k == 0 then Join(r0, r1, r2, r3) else if k == 1 then Join(d0, r0, r1, r2)
               else if k == 2 then Join(d0, d1, r0, r1) else Join(d0, d1, d2, r0)
  {
    hide Or;
    var d, r := Join(d0, d1, d2, d3), Join(r0, r1, r2, r3);
    WordParts(d0, d1, d2, d3);
    WordParts(r0, r1, r2, r3);
    if k == 1 {
      OrParts(r % 0x100_0000, d % 0x100, 8);
    } else if k == 2 {
      OrParts(r % 0x1_0000, d % 0x1_0000, 16);
    } else if k == 3 {
      OrParts(r % 0x100, d % 0x100_0000, 24);
    }
  }

  lemma MergeLeftMasks(mem: Bytes, a: word, w: word, r: word)
    requires Mapped(mem, WordBase(a), 4) && w == WordAt(mem, WordBase(a))
    ensures LeftMasks(a % 4, w, r) == MergeLeft(mem, a, r)
  {
    hide LeftMasks, Join, ByteOf;
    var a0 := WordBase(a);
    BytesJoin(r);
    LeftMasksJoin(a % 4, mem[a0], mem[a0 + 1], mem[a0 + 2], mem[a0 + 3],
                  ByteOf(r, 0), ByteOf(r, 1), ByteOf(r, 2), ByteOf(r, 3));
  }

  lemma MergeRightMasks(mem: Bytes, a: word, w: word, r: word)
    requires Mapped(mem, WordBase(a), 4) && w == WordAt(mem, WordBase(a))
    ensures RightMasks(a % 4, w, r) == MergeRight(mem, a, r)
  {
    hide RightMasks, Join, ByteOf;
    var a0 := WordBase(a);
    BytesJoin(r);
    RightMasksJoin(a % 4, mem[a0], mem[a0 + 1], mem[a0 + 2], mem[a0 + 3],
                   ByteOf(r, 0), ByteOf(r, 1), ByteOf(r, 2), ByteOf(r, 3));
  }

  // Writing the merged word back changes just the bytes that the instruction names.
  lemma SpreadLeftMasks(mem: Bytes, a: word, d: word, r: word)
    requires Mapped(mem, WordBase(a), 4) && d == WordAt(mem, WordBase(a))
    ensures PutWord(mem, WordBase(a), StoreLeftMasks(a % 4, d, r)) == SpreadLeft(mem, a, r)
  {
    hide StoreLeftMasks, Join, ByteOf;
    var a0, k := WordBase(a), a % 4;
    var d0, d1, d2, d3 := mem[a0], mem[a0 + 1], mem[a0 + 2], mem[a0 + 3];
    var r0, r1, r2, r3 := ByteOf(r, 0), ByteOf(r, 1), ByteOf(r, 2), ByteOf(r, 3);
    BytesJoin(r);
    StoreLeftMasksJoin(k, d0, d1, d2, d3, r0, r1, r2, r3);
    JoinBytes(r3, d1, d2, d3);
    JoinBytes(r2, r3, d2, d3);
    JoinBytes(r1, r2, r3, d3);
  }

  lemma SpreadRightMasks(mem: Bytes, a: word, d: word, r: word)
    requires Mapped(mem, WordBase(a), 4) && d == WordAt(mem, WordBase(a))
    ensures PutWord(mem, WordBase(a), StoreRightMasks(a % 4, d, r)) == SpreadRight(mem, a, r)
  {
    hide StoreRightMasks, Join, ByteOf;
    var a0, k := WordBase(a), a % 4;
    var d0, d1, d2, d3 := mem[a0], mem[a0 + 1], mem[a0 + 2], mem[a0 + 3];
    var r0, r1, r2, r3 := ByteOf(r, 0), ByteOf(r, 1), ByteOf(r, 2), ByteOf(r, 3);
    BytesJoin(r);
    StoreRightMasksJoin(k, d0, d1, d2, d3, r0, r1, r2, r3);
    JoinBytes(d0, r0, r1, r2);
    JoinBytes(d0, d1, r0, r1);
    JoinBytes(d0, d1, d2, r0);
  }

  lemma WrapBack(x: word)
    ensures Wrap(Wrap(x - 4) + 4) == x
  {
  }

  lemma WrapTwice(x: word)
    ensures Wrap(Wrap(x + 4) + 4) == Wrap(x + 8)
  {
  }

  lemma WordsOfAccumulator(hi: word, lo: word)
    ensures Upper(Accumulator(hi, lo)) == hi && Lower(Accumulator(hi, lo)) == lo
  {
    UpperLower(hi, lo);
    SmallWrap(hi);
  }

  lemma MagnitudeProduct(v1: word, v2: word, m1: word, m2: word)
    requires m1 == (if SignBit(v1) then Wrap(0 - v1) else v1) && m2 == (if SignBit(v2) then Wrap(0 - v2) else v2)
    ensures Signed(v1) * Signed(v2) == if SignBit(v1) != SignBit(v2) then -(m1 * m2) else m1 * m2
  {
    assert m1 == Abs(Signed(v1)) && m2 == Abs(Signed(v2));
    MulSigns(m1, m2);
  }

  // Adding the words of a product is adding the product, modulo 2^64.
  lemma AccumulatorOf(x: int, p: int, hi: word, lo: word)
    requires hi == Upper(p) && lo == Lower(p)
    ensures Upper(x + Accumulator(hi, lo)) == Upper(x + p) && Lower(x + Accumulator(hi, lo)) == Lower(x + p)
    ensures Upper(x - Accumulator(hi, lo)) == Upper(x - p) && Lower(x - Accumulator(hi, lo)) == Lower(x - p)
  {
    SplitLong(p);
    var k, q := p / TWO64, Accumulator(hi, lo);
    assert p == k * TWO64 + q;
    LongShift(x + q, k);
    LongShift(x - q, -k);
  }

  // What MADD and MSUB compute from the words of a product p.
  lemma AddProduct(hi: word, lo: word, p: int)
    ensures var phi, plo := Upper(p), Lower(p);
      var tmp := Wrap(lo + plo);
      var carried := if tmp < plo || tmp < lo then Wrap(hi + 1) else hi;
      tmp == Lower(Accumulator(hi, lo) + p) && Wrap(carried + phi) == Upper(Accumulator(hi, lo) + p)
  {
    hide Wrap, Accumulator, Upper, Lower;
    SmallWrap(hi);
    AddWithCarry(hi, lo, Upper(p), Lower(p));
    AccumulatorOf(Accumulator(hi, lo), p, Upper(p), Lower(p));
  }

  lemma SubtractProduct(hi: word, lo: word, p: int)
    ensures var phi, plo := Upper(p), Lower(p);
      var borrowed := if plo > lo then Wrap(hi - 1) else hi;
      Wrap(lo - plo) == Lower(Accumulator(hi, lo) - p) && Wrap(borrowed - phi) == Upper(Accumulator(hi, lo) - p)
  {
    hide Wrap, Accumulator, Upper, Lower;
    SmallWrap(hi);
    SubtractWithBorrow(hi, lo, Upper(p), Lower(p));
    AccumulatorOf(Accumulator(hi, lo), p, Upper(p), Lower(p));
  }

  lemma LongShift(y: int, k: int)
    ensures Upper(y + k * TWO64) == Upper(y) && Lower(y + k * TWO64) == Lower(y)
  {
    QuotientIs(y + k * TWO64, TWO64, y / TWO64 + k, y % TWO64);
    QuotientIs(y + k * TWO64, TWO32, y / TWO32 + k * TWO32, y % TWO32);
  }
}
