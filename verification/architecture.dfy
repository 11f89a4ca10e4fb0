/** The codes of the integer instructions as the architecture tabulates them ("MIPS32 Architecture For
    Programmers, Volume I", appendix A): each table is indexed by a field of the word, three bits of which
    choose its row and three its column. */
module ArchitectureCodes {
  import opened CodeOrder
  import opened OpcodeTable

  /** By the major opcode, the six high bits. */
  function Primary(major: bv32): string {
    if major & 0x38 == 0x0 then PrimaryRow0(major & 7)
    else if major & 0x38 == 0x8 then PrimaryRow1(major & 7)
    else if major & 0x38 == 0x10 then PrimaryRow2(major & 7)
    else if major & 0x38 == 0x20 then PrimaryRow4(major & 7)
    else if major & 0x38 == 0x28 then PrimaryRow5(major & 7)
    else if major & 0x38 == 0x30 then PrimaryRow6(major & 7)
    else if major & 0x38 == 0x38 then PrimaryRow7(major & 7)
    else ""
  }

  function PrimaryRow0(k: bv32): string {
    if k == 2 then "j" else if k == 3 then "jal" else if k == 4 then "beq" else if k == 5 then "bne" else if k == 6 then "blez" else if k == 7 then "bgtz" else ""
  }

  function PrimaryRow1(k: bv32): string {
    if k == 0 then "addi" else if k == 1 then "addiu" else if k == 2 then "slti" else if k == 3 then "sltiu" else if k == 4 then "andi" else if k == 5 then "ori" else if k == 6 then "xori" else if k == 7 then "lui" else ""
  }

  function PrimaryRow2(k: bv32): string {
    if k == 4 then "beql" else if k == 5 then "bnel" else if k == 6 then "blezl" else if k == 7 then "bgtzl" else ""
  }

  function PrimaryRow4(k: bv32): string {
    if k == 0 then "lb" else if k == 1 then "lh" else if k == 2 then "lwl" else if k == 3 then "lw" else if k == 4 then "lbu" else if k == 5 then "lhu" else if k == 6 then "lwr" else ""
  }

  function PrimaryRow5(k: bv32): string {
    if k == 0 then "sb" else if k == 1 then "sh" else if k == 2 then "swl" else if k == 3 then "sw" else if k == 6 then "swr" else if k == 7 then "cache" else ""
  }

  function PrimaryRow6(k: bv32): string {
    if k == 0 then "ll" else if k == 1 then "lwc1" else if k == 2 then "lwc2" else if k == 3 then "pref" else if k == 5 then "ldc1" else if k == 6 then "ldc2" else ""
  }

  function PrimaryRow7(k: bv32): string {
    if k == 0 then "sc" else if k == 1 then "swc1" else if k == 2 then "swc2" else if k == 5 then "sdc1" else if k == 6 then "sdc2" else ""
  }

  /** By the function, the six low bits, where the major opcode is 0. */
  function Special(f: bv32): string {
    if f & 0x38 == 0x0 then SpecialRow0(f & 7)
    else if f & 0x38 == 0x8 then SpecialRow1(f & 7)
    else if f & 0x38 == 0x10 then SpecialRow2(f & 7)
    else if f & 0x38 == 0x18 then SpecialRow3(f & 7)
    else if f & 0x38 == 0x20 then SpecialRow4(f & 7)
    else if f & 0x38 == 0x28 then SpecialRow5(f & 7)
    else if f & 0x38 == 0x30 then SpecialRow6(f & 7)
    else ""
  }

  function SpecialRow0(k: bv32): string {
    if k == 0 then "sll" else if k == 1 then "movf" else if k == 2 then "srl" else if k == 3 then "sra" else if k == 4 then "sllv" else if k == 6 then "srlv" else if k == 7 then "srav" else ""
  }

  function SpecialRow1(k: bv32): string {
    if k == 0 then "jr" else if k == 1 then "jalr" else if k == 2 then "movz" else if k == 3 then "movn" else if k == 4 then "syscall" else if k == 5 then "break" else if k == 7 then "sync" else ""
  }

  function SpecialRow2(k: bv32): string {
    if k == 0 then "mfhi" else if k == 1 then "mthi" else if k == 2 then "mflo" else if k == 3 then "mtlo" else ""
  }

  function SpecialRow3(k: bv32): string {
    if k == 0 then "mult" else if k == 1 then "multu" else if k == 2 then "div" else if k == 3 then "divu" else ""
  }

  function SpecialRow4(k: bv32): string {
    if k == 0 then "add" else if k == 1 then "addu" else if k == 2 then "sub" else if k == 3 then "subu" else if k == 4 then "and" else if k == 5 then "or" else if k == 6 then "xor" else if k == 7 then "nor" else ""
  }

  function SpecialRow5(k: bv32): string {
    if k == 2 then "slt" else if k == 3 then "sltu" else ""
  }

  function SpecialRow6(k: bv32): string {
    if k == 0 then "tge" else if k == 1 then "tgeu" else if k == 2 then "tlt" else if k == 3 then "tltu" else if k == 4 then "teq" else if k == 6 then "tne" else ""
  }

  /** By the five bits in the place of rt, where the major opcode is 1. */
  function RegImm(rt: bv32): string {
    if rt & 0x38 == 0x0 then RegImmRow0(rt & 7)
    else if rt & 0x38 == 0x8 then RegImmRow1(rt & 7)
    else if rt & 0x38 == 0x10 then RegImmRow2(rt & 7)
    else if rt & 0x38 == 0x18 then RegImmRow3(rt & 7)
    else ""
  }

  function RegImmRow0(k: bv32): string {
    if k == 0 then "bltz" else if k == 1 then "bgez" else if k == 2 then "bltzl" else if k == 3 then "bgezl" else ""
  }

  function RegImmRow1(k: bv32): string {
    if k == 0 then "tgei" else if k == 1 then "tgeiu" else if k == 2 then "tlti" else if k == 3 then "tltiu" else if k == 4 then "teqi" else if k == 6 then "tnei" else ""
  }

  function RegImmRow2(k: bv32): string {
    if k == 0 then "bltzal" else if k == 1 then "bgezal" else if k == 2 then "bltzall" else if k == 3 then "bgezall" else ""
  }

  function RegImmRow3(k: bv32): string {
    if k == 7 then "synci" else ""
  }

  /** By the function, where the major opcode is 0x1c. */
  function SpecialTwo(f: bv32): string {
    if f & 0x38 == 0x0 then SpecialTwoRow0(f & 7)
    else if f & 0x38 == 0x20 then SpecialTwoRow4(f & 7)
    else if f & 0x38 == 0x38 then SpecialTwoRow7(f & 7)
    else ""
  }

  function SpecialTwoRow0(k: bv32): string {
    if k == 0 then "madd" else if k == 1 then "maddu" else if k == 2 then "mul" else if k == 4 then "msub" else if k == 5 then "msubu" else ""
  }

  function SpecialTwoRow4(k: bv32): string {
    if k == 0 then "clz" else if k == 1 then "clo" else ""
  }

  function SpecialTwoRow7(k: bv32): string {
    if k == 7 then "sdbbp" else ""
  }

  /** The rows that the four tables name: not those of the coprocessors 0 and 2, nor those of SPECIAL3. */
  predicate InTables(row: Row) {
    row.code >> 26 != 0x10 && row.code >> 26 != 0x12 && row.code >> 26 != 0x1f
  }

  /** The row's code is the one the architecture gives its name. */
  predicate Tabulated(row: Row) {
    var code := row.code;
    if code >> 26 == 0 then code == code & 0x3f && row.name == Special(code & 0x3f)
    else if code >> 26 == 1 then code == code & 0x041f0000 && row.name == RegImm((code >> 16) & 0x1f)
    else if code >> 26 == 0x1c then code == code & 0x7000003f && row.name == SpecialTwo(code & 0x3f)
    else code == code & 0xfc000000 && row.name == Primary(code >> 26)
  }

  predicate Agrees(row: Row) {
    InTables(row) ==> (Tabulated(row) <==> row.name != "synci")
  }

  predicate AllAgree(rows: Rows) {
    match rows
    case Nil => true
    case Cons(row, rest) => Agrees(row) && AllAgree(rest)
  }

  /** Every row that a decoder sees in full has the code that the architecture gives its name, but for synci,
      to which the source gives another one. */
  lemma CodesAreArchitectural(row: Row)
    requires Has(SeenRows(), row) && InTables(row)
    ensures Tabulated(row) <==> row.name != "synci"
  {
    hide Agrees, SeenRows;
    SeenAgree();
    EachAgrees(SeenRows(), row);
    AgreesMeans(row);
  }

  lemma AgreesMeans(row: Row)
    requires Agrees(row) && InTables(row)
    ensures Tabulated(row) <==> row.name != "synci"
  {
    hide Tabulated, InTables;
  }

  lemma {:induction false} EachAgrees(rows: Rows, row: Row)
    requires AllAgree(rows) && Has(rows, row)
    ensures Agrees(row)
  {
    hide Agrees;
    if rows.head != row {
      EachAgrees(rows.tail, row);
    }
  }

  lemma {:induction false} BothAgree(a: Rows, b: Rows)
    requires AllAgree(a) && AllAgree(b)
    ensures AllAgree(Append(a, b))
  {
    hide Agrees;
    if a.Cons? {
      BothAgree(a.tail, b);
    }
  }

  lemma SpecialAAgree()
    ensures AllAgree(SpecialA())
  {
  }

  lemma SpecialBAgree()
    ensures AllAgree(SpecialB())
  {
  }

  lemma SpecialCAgree()
    ensures AllAgree(SpecialC())
  {
  }

  lemma SpecialDAgree()
    ensures AllAgree(SpecialD())
  {
  }

  lemma SpecialEAgree()
    ensures AllAgree(SpecialE())
  {
  }

  lemma RegImmAAgree()
    ensures AllAgree(RegImmA())
  {
  }

  lemma RegImmBAgree()
    ensures AllAgree(RegImmB())
  {
  }

  lemma ImmediateAAgree()
    ensures AllAgree(ImmediateA())
  {
  }

  lemma ImmediateBAgree()
    ensures AllAgree(ImmediateB())
  {
  }

  lemma Coprocessor0AAgree()
    ensures AllAgree(Coprocessor0A())
  {
  }

  lemma Coprocessor0BAgree()
    ensures AllAgree(Coprocessor0B())
  {
  }

  lemma Coprocessor2Agree()
    ensures AllAgree(Coprocessor2())
  {
  }

  lemma LikelyAgree()
    ensures AllAgree(Likely())
  {
  }

  lemma Special2Agree()
    ensures AllAgree(Special2())
  {
  }

  lemma Special3Agree()
    ensures AllAgree(Special3())
  {
  }

  lemma LoadStoreAAgree()
    ensures AllAgree(LoadStoreA())
  {
  }

  lemma LoadStoreBAgree()
    ensures AllAgree(LoadStoreB())
  {
  }

  lemma LoadStoreCAgree()
    ensures AllAgree(LoadStoreC())
  {
  }

  lemma SeenAgree()
    ensures AllAgree(SeenRows())
  {
    hide AllAgree;
    hide SpecialA, SpecialB, SpecialC, SpecialD, SpecialE, RegImmA, RegImmB, ImmediateA, ImmediateB, Coprocessor0A, Coprocessor0B, Coprocessor2, Likely, Special2, Special3, LoadStoreA, LoadStoreB, LoadStoreC;
    SpecialAAgree();
    SpecialBAgree();
    SpecialCAgree();
    SpecialDAgree();
    SpecialEAgree();
    RegImmAAgree();
    RegImmBAgree();
    ImmediateAAgree();
    ImmediateBAgree();
    Coprocessor0AAgree();
    Coprocessor0BAgree();
    Coprocessor2Agree();
    LikelyAgree();
    Special2Agree();
    Special3Agree();
    LoadStoreAAgree();
    LoadStoreBAgree();
    LoadStoreCAgree();
    var t17 := LoadStoreC();
    BothAgree(LoadStoreB(), t17);
    var t16 := Append(LoadStoreB(), t17);
    BothAgree(LoadStoreA(), t16);
    var t15 := Append(LoadStoreA(), t16);
    BothAgree(Special3(), t15);
    var t14 := Append(Special3(), t15);
    BothAgree(Special2(), t14);
    var t13 := Append(Special2(), t14);
    BothAgree(Likely(), t13);
    var t12 := Append(Likely(), t13);
    BothAgree(Coprocessor2(), t12);
    var t11 := Append(Coprocessor2(), t12);
    BothAgree(Coprocessor0B(), t11);
    var t10 := Append(Coprocessor0B(), t11);
    BothAgree(Coprocessor0A(), t10);
    var t9 := Append(Coprocessor0A(), t10);
    BothAgree(ImmediateB(), t9);
    var t8 := Append(ImmediateB(), t9);
    BothAgree(ImmediateA(), t8);
    var t7 := Append(ImmediateA(), t8);
    BothAgree(RegImmB(), t7);
    var t6 := Append(RegImmB(), t7);
    BothAgree(RegImmA(), t6);
    var t5 := Append(RegImmA(), t6);
    BothAgree(SpecialE(), t5);
    var t4 := Append(SpecialE(), t5);
    BothAgree(SpecialD(), t4);
    var t3 := Append(SpecialD(), t4);
    BothAgree(SpecialC(), t3);
    var t2 := Append(SpecialC(), t3);
    BothAgree(SpecialB(), t2);
    var t1 := Append(SpecialB(), t2);
    BothAgree(SpecialA(), t1);
  }
}
