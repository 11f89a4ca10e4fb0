/** The opcode table: every row of op.h that has a code, except the floating-point rows with the major
    opcodes COP1 and COP1X.  The rows are in the order of their codes, in groups by major opcode, with
    those whose code a decoder cannot see in full at the end. */
module OpcodeTable {
  import opened CodeOrder

  datatype Format =
    | R3 | R3sh | R2sh | R2st | R2ds | R2td | R1s | R1d
    | I2 | B2 | I2a | I1t | B1 | I1s
    | J | NoArg | Float

  datatype Row = Row(name: string, format: Format, code: bv32)

  datatype Rows = Nil | Cons(head: Row, tail: Rows)

  function Append(a: Rows, b: Rows): Rows {
    match a
    case Nil => b
    case Cons(row, rest) => Cons(row, Append(rest, b))
  }

  predicate Has(rows: Rows, row: Row) {
    match rows
    case Nil => false
    case Cons(head, rest) => head == row || Has(rest, row)
  }

  // ---- The bits that select an opcode --------------------------------------------------------------

  /** The bits of a word that a decoder looks up, which depend on its major opcode. */
  function KeyMask(val: bv32): bv32 {
    var major := val & 0xfc000000;
    if major == 0 || major == 0x70000000 then 0xfc00003f
    else if major == 0x04000000 then 0xfc1f0000
    else if major == 0x40000000 then 0xffe0001f
    else if major == 0x44000000 then if val & 0xff000000 == 0x45000000 then 0xffe10000 else 0xffe0003f
    else if major == 0x48000000 || major == 0x4c000000 then 0xffe00000
    else 0xfc000000
  }

  function Key(val: bv32): bv32 {
    val & KeyMask(val)
  }

  /** The bits that a format fills with operands. */
  function FieldBits(format: Format): bv32 {
    match format
    case R3 => 0x03fff800
    case R3sh => 0x03fff800
    case R2sh => 0x001fffc0
    case R2st => 0x03ff0000
    case R2ds => 0x03e0f800
    case R2td => 0x001ff800
    case R1s => 0x03e00000
    case R1d => 0x0000f800
    case I2 => 0x03ffffff
    case B2 => 0x03ffffff
    case I2a => 0x03ffffff
    case I1t => 0x03ffffff
    case B1 => 0x03e0ffff
    case I1s => 0x03e0ffff
    case J => 0x03ffffff
    case NoArg => 0
    case Float => 0x03ffffff
  }

  /** A row that a decoder can recover: its code survives the mask, and neither its code nor the bits
      looked up overlap its operands. */
  predicate Sound(row: Row) {
    && Key(row.code) == row.code
    && Apart(row.code, FieldBits(row.format))
    && Apart(KeyMask(row.code), FieldBits(row.format))
  }

  predicate Apart(a: bv32, b: bv32) {
    a & b == 0
  }

  /** synci and cop2 overlap their operands. */
  predicate Overlaps(code: bv32) {
    code == 0x04140000 || code == 0x4a000000
  }

  // ---- The rows ------------------------------------------------------------------------------------

  function SpecialA(): Rows {
    Cons(Row("sll", R2sh, 0x00000000),
    Cons(Row("movf", Float, 0x00000001),
    Cons(Row("srl", R2sh, 0x00000002),
    Cons(Row("sra", R2sh, 0x00000003),
    Cons(Row("sllv", R3sh, 0x00000004),
    Cons(Row("srlv", R3sh, 0x00000006),
    Cons(Row("srav", R3sh, 0x00000007),
    Cons(Row("jr", R1s, 0x00000008),
    Nil))))))))
  }

  function SpecialB(): Rows {
    Cons(Row("jalr", R2ds, 0x00000009),
    Cons(Row("movz", R3, 0x0000000a),
    Cons(Row("movn", R3, 0x0000000b),
    Cons(Row("syscall", NoArg, 0x0000000c),
    Cons(Row("break", R1d, 0x0000000d),
    Cons(Row("sync", NoArg, 0x0000000f),
    Cons(Row("mfhi", R1d, 0x00000010),
    Cons(Row("mthi", R1s, 0x00000011),
    Nil))))))))
  }

  function SpecialC(): Rows {
    Cons(Row("mflo", R1d, 0x00000012),
    Cons(Row("mtlo", R1s, 0x00000013),
    Cons(Row("mult", R2st, 0x00000018),
    Cons(Row("multu", R2st, 0x00000019),
    Cons(Row("div", R2st, 0x0000001a),
    Cons(Row("divu", R2st, 0x0000001b),
    Cons(Row("add", R3, 0x00000020),
    Cons(Row("addu", R3, 0x00000021),
    Nil))))))))
  }

  function SpecialD(): Rows {
    Cons(Row("sub", R3, 0x00000022),
    Cons(Row("subu", R3, 0x00000023),
    Cons(Row("and", R3, 0x00000024),
    Cons(Row("or", R3, 0x00000025),
    Cons(Row("xor", R3, 0x00000026),
    Cons(Row("nor", R3, 0x00000027),
    Cons(Row("slt", R3, 0x0000002a),
    Cons(Row("sltu", R3, 0x0000002b),
    Nil))))))))
  }

  function SpecialE(): Rows {
    Cons(Row("tge", R2st, 0x00000030),
    Cons(Row("tgeu", R2st, 0x00000031),
    Cons(Row("tlt", R2st, 0x00000032),
    Cons(Row("tltu", R2st, 0x00000033),
    Cons(Row("teq", R2st, 0x00000034),
    Cons(Row("tne", R2st, 0x00000036),
    Nil))))))
  }

  function RegImmA(): Rows {
    Cons(Row("bltz", B1, 0x04000000),
    Cons(Row("bgez", B1, 0x04010000),
    Cons(Row("bltzl", B1, 0x04020000),
    Cons(Row("bgezl", B1, 0x04030000),
    Cons(Row("tgei", I1s, 0x04080000),
    Cons(Row("tgeiu", I1s, 0x04090000),
    Cons(Row("tlti", I1s, 0x040a0000),
    Cons(Row("tltiu", I1s, 0x040b0000),
    Nil))))))))
  }

  function RegImmB(): Rows {
    Cons(Row("teqi", I1s, 0x040c0000),
    Cons(Row("tnei", I1s, 0x040e0000),
    Cons(Row("bltzal", B1, 0x04100000),
    Cons(Row("bgezal", B1, 0x04110000),
    Cons(Row("bltzall", B1, 0x04120000),
    Cons(Row("bgezall", B1, 0x04130000),
    Cons(Row("synci", I2, 0x04140000),
    Nil)))))))
  }

  function ImmediateA(): Rows {
    Cons(Row("j", J, 0x08000000),
    Cons(Row("jal", J, 0x0c000000),
    Cons(Row("beq", B2, 0x10000000),
    Cons(Row("bne", B2, 0x14000000),
    Cons(Row("blez", B1, 0x18000000),
    Cons(Row("bgtz", B1, 0x1c000000),
    Cons(Row("addi", I2, 0x20000000),
    Nil)))))))
  }

  function ImmediateB(): Rows {
    Cons(Row("addiu", I2, 0x24000000),
    Cons(Row("slti", I2, 0x28000000),
    Cons(Row("sltiu", I2, 0x2c000000),
    Cons(Row("andi", I2, 0x30000000),
    Cons(Row("ori", I2, 0x34000000),
    Cons(Row("xori", I2, 0x38000000),
    Cons(Row("lui", I1t, 0x3c000000),
    Nil)))))))
  }

  function Coprocessor0A(): Rows {
    Cons(Row("mfc0", R2td, 0x40000000),
    Cons(Row("cfc0", Float, 0x40400000),
    Cons(Row("mtc0", R2td, 0x40800000),
    Cons(Row("ctc0", Float, 0x40c00000),
    Cons(Row("rdpgpr", R2td, 0x41400000),
    Cons(Row("wrpgpr", R2td, 0x41c00000),
    Cons(Row("tlbr", NoArg, 0x42000001),
    Nil)))))))
  }

  function Coprocessor0B(): Rows {
    Cons(Row("tlbwi", NoArg, 0x42000002),
    Cons(Row("tlbwr", NoArg, 0x42000006),
    Cons(Row("tlbp", NoArg, 0x42000008),
    Cons(Row("rfe", NoArg, 0x42000010),
    Cons(Row("eret", NoArg, 0x42000018),
    Cons(Row("deret", NoArg, 0x4200001f),
    Nil))))))
  }

  function Coprocessor2(): Rows {
    Cons(Row("mfc2", R2td, 0x48000000),
    Cons(Row("cfc2", Float, 0x48400000),
    Cons(Row("mfhc2", R2td, 0x48600000),
    Cons(Row("mtc2", R2td, 0x48800000),
    Cons(Row("ctc2", Float, 0x48c00000),
    Cons(Row("mthc2", R2td, 0x48e00000),
    Cons(Row("bc2f", Float, 0x49000000),
    Cons(Row("cop2", J, 0x4a000000),
    Nil))))))))
  }

  function Likely(): Rows {
    Cons(Row("beql", B2, 0x50000000),
    Cons(Row("bnel", B2, 0x54000000),
    Cons(Row("blezl", B1, 0x58000000),
    Cons(Row("bgtzl", B1, 0x5c000000),
    Nil))))
  }

  function Special2(): Rows {
    Cons(Row("madd", R2st, 0x70000000),
    Cons(Row("maddu", R2st, 0x70000001),
    Cons(Row("mul", R3, 0x70000002),
    Cons(Row("msub", R2st, 0x70000004),
    Cons(Row("msubu", R2st, 0x70000005),
    Cons(Row("clz", R3, 0x70000020),
    Cons(Row("clo", R3, 0x70000021),
    Cons(Row("sdbbp", NoArg, 0x7000003f),
    Nil))))))))
  }

  function Special3(): Rows {
    Cons(Row("ext", Float, 0x7c000000),
    Nil)
  }

  function LoadStoreA(): Rows {
    Cons(Row("lb", I2a, 0x80000000),
    Cons(Row("lh", I2a, 0x84000000),
    Cons(Row("lwl", I2a, 0x88000000),
    Cons(Row("lw", I2a, 0x8c000000),
    Cons(Row("lbu", I2a, 0x90000000),
    Cons(Row("lhu", I2a, 0x94000000),
    Cons(Row("lwr", I2a, 0x98000000),
    Cons(Row("sb", I2a, 0xa0000000),
    Nil))))))))
  }

  function LoadStoreB(): Rows {
    Cons(Row("sh", I2a, 0xa4000000),
    Cons(Row("swl", I2a, 0xa8000000),
    Cons(Row("sw", I2a, 0xac000000),
    Cons(Row("swr", I2a, 0xb8000000),
    Cons(Row("cache", I2, 0xbc000000),
    Cons(Row("ll", I2a, 0xc0000000),
    Cons(Row("lwc1", Float, 0xc4000000),
    Cons(Row("lwc2", I2a, 0xc8000000),
    Nil))))))))
  }

  function LoadStoreC(): Rows {
    Cons(Row("pref", I2, 0xcc000000),
    Cons(Row("ldc1", Float, 0xd4000000),
    Cons(Row("ldc2", I2a, 0xd8000000),
    Cons(Row("sc", I2a, 0xe0000000),
    Cons(Row("swc1", Float, 0xe4000000),
    Cons(Row("swc2", I2a, 0xe8000000),
    Cons(Row("sdc1", Float, 0xf4000000),
    Cons(Row("sdc2", I2a, 0xf8000000),
    Nil))))))))
  }

  /** The rows whose code does not survive the mask. */
  function MaskedA(): Rows {
    Cons(Row("ssnop", R2sh, 0x00000040),
    Cons(Row("ehb", NoArg, 0x000000c0),
    Cons(Row("jr.hb", R1s, 0x00000408),
    Cons(Row("jalr.hb", R2ds, 0x00000409),
    Cons(Row("movt", Float, 0x00010001),
    Cons(Row("rotr", R2sh, 0x00200002),
    Cons(Row("rotrv", R2sh, 0x00200003),
    Cons(Row("di", I1t, 0x41606000),
    Cons(Row("ei", I1t, 0x41606020),
    Nil)))))))))
  }

  function MaskedB(): Rows {
    Cons(Row("bc2t", Float, 0x49010000),
    Cons(Row("bc2fl", Float, 0x49020000),
    Cons(Row("bc2tl", Float, 0x49030000),
    Cons(Row("ins", Float, 0x7c000004),
    Cons(Row("rdhwr", R3, 0x7c00003b),
    Cons(Row("wsbh", R2td, 0x7c0000a0),
    Cons(Row("seb", R2td, 0x7c000420),
    Cons(Row("seh", R2td, 0x7c000620),
    Nil))))))))
  }

  function SeenRows(): Rows {
    Append(SpecialA(),
    Append(SpecialB(),
    Append(SpecialC(),
    Append(SpecialD(),
    Append(SpecialE(),
    Append(RegImmA(),
    Append(RegImmB(),
    Append(ImmediateA(),
    Append(ImmediateB(),
    Append(Coprocessor0A(),
    Append(Coprocessor0B(),
    Append(Coprocessor2(),
    Append(Likely(),
    Append(Special2(),
    Append(Special3(),
    Append(LoadStoreA(),
    Append(LoadStoreB(),
    LoadStoreC())))))))))))))))))
  }

  predicate InTable(row: Row) {
    Has(SeenRows(), row) || IsMasked(row)
  }

  predicate IsMasked(row: Row) {
    Has(MaskedA(), row) || Has(MaskedB(), row)
  }

  // ---- What holds of the rows ----------------------------------------------------------------------

  /** Strictly ascending, above prev and below hi. */
  predicate Strict(prev: bv32, rows: Rows, hi: bv32)
    decreases rows
  {
    match rows
    case Nil => Less(prev, hi)
    case Cons(row, rest) => Less(prev, row.code) && Strict(row.code, rest, hi)
  }

  /** Strictly ascending, not below lo and below hi. */
  predicate Ascends(rows: Rows, lo: bv32, hi: bv32) {
    rows.Cons? && !Less(rows.head.code, lo) && Strict(rows.head.code, rows.tail, hi)
  }

  /** Integer rows are sound, but for the two that overlap; no row belongs to COP1 or COP1X. */
  predicate Regular(rows: Rows) {
    match rows
    case Nil => true
    case Cons(row, rest) => RegularRow(row) && Regular(rest)
  }

  predicate RegularRow(row: Row) {
    && (!row.format.Float? ==> (Sound(row) <==> !Overlaps(row.code)))
    && !IsCoprocessor1(row.code)
  }

  predicate IsCoprocessor1(code: bv32) {
    code & 0xfc000000 == 0x44000000 || code & 0xfc000000 == 0x4c000000
  }

  lemma {:induction false} JoinStrict(prev: bv32, a: Rows, b: Rows, mid: bv32, hi: bv32)
    requires Strict(prev, a, mid) && Ascends(b, mid, hi)
    ensures Strict(prev, Append(a, b), hi)
    decreases a
  {
    hide Less;
    match a
    case Nil =>
      LessIsAnOrder(prev, mid, b.head.code);
    case Cons(row, rest) =>
      JoinStrict(row.code, rest, b, mid, hi);
  }

  lemma {:induction false} JoinRegular(a: Rows, b: Rows)
    requires Regular(a) && Regular(b)
    ensures Regular(Append(a, b))
  {
    hide RegularRow;
    if a.Cons? {
      JoinRegular(a.tail, b);
    }
  }

  lemma Join(a: Rows, b: Rows, lo: bv32, mid: bv32, hi: bv32)
    requires Ascends(a, lo, mid) && Ascends(b, mid, hi) && Regular(a) && Regular(b)
    ensures Ascends(Append(a, b), lo, hi) && Regular(Append(a, b))
  {
    hide Less, RegularRow;
    JoinStrict(a.head.code, a.tail, b, mid, hi);
    JoinRegular(a, b);
  }

  lemma SpecialAOrder()
    ensures Ascends(SpecialA(), 0x00000000, 0x00000009)
  {
  }

  lemma SpecialARegular()
    ensures Regular(SpecialA())
  {
  }

  lemma SpecialBOrder()
    ensures Ascends(SpecialB(), 0x00000009, 0x00000012)
  {
  }

  lemma SpecialBEnd()
    ensures Regular(SpecialB().tail.tail.tail.tail)
  {
  }

  lemma SpecialBRegular()
    ensures Regular(SpecialB())
  {
    SpecialBEnd();
  }

  lemma SpecialCOrder()
    ensures Ascends(SpecialC(), 0x00000012, 0x00000022)
  {
  }

  lemma SpecialCRegular()
    ensures Regular(SpecialC())
  {
  }

  lemma SpecialDOrder()
    ensures Ascends(SpecialD(), 0x00000022, 0x00000030)
  {
  }

  lemma SpecialDRegular()
    ensures Regular(SpecialD())
  {
  }

  lemma SpecialEOrder()
    ensures Ascends(SpecialE(), 0x00000030, 0x04000000)
  {
  }

  lemma SpecialERegular()
    ensures Regular(SpecialE())
  {
  }

  lemma RegImmAOrder()
    ensures Ascends(RegImmA(), 0x04000000, 0x040c0000)
  {
  }

  lemma RegImmARegular()
    ensures Regular(RegImmA())
  {
  }

  lemma RegImmBOrder()
    ensures Ascends(RegImmB(), 0x040c0000, 0x08000000)
  {
  }

  lemma RegImmBRegular()
    ensures Regular(RegImmB())
  {
  }

  lemma ImmediateAOrder()
    ensures Ascends(ImmediateA(), 0x08000000, 0x24000000)
  {
  }

  lemma ImmediateAEnd()
    ensures Regular(ImmediateA().tail.tail.tail.tail)
  {
  }

  lemma ImmediateARegular()
    ensures Regular(ImmediateA())
  {
    ImmediateAEnd();
  }

  lemma ImmediateBOrder()
    ensures Ascends(ImmediateB(), 0x24000000, 0x40000000)
  {
  }

  lemma ImmediateBRegular()
    ensures Regular(ImmediateB())
  {
  }

  lemma Coprocessor0AOrder()
    ensures Ascends(Coprocessor0A(), 0x40000000, 0x42000002)
  {
  }

  lemma Coprocessor0ARegular()
    ensures Regular(Coprocessor0A())
  {
  }

  lemma Coprocessor0BOrder()
    ensures Ascends(Coprocessor0B(), 0x42000002, 0x48000000)
  {
  }

  lemma Coprocessor0BRegular()
    ensures Regular(Coprocessor0B())
  {
  }

  lemma Coprocessor2Order()
    ensures Ascends(Coprocessor2(), 0x48000000, 0x50000000)
  {
  }

  lemma Coprocessor2Regular()
    ensures Regular(Coprocessor2())
  {
  }

  lemma LikelyOrder()
    ensures Ascends(Likely(), 0x50000000, 0x70000000)
  {
  }

  lemma LikelyRegular()
    ensures Regular(Likely())
  {
  }

  lemma Special2Order()
    ensures Ascends(Special2(), 0x70000000, 0x7c000000)
  {
  }

  lemma Special2Regular()
    ensures Regular(Special2())
  {
  }

  lemma Special3Order()
    ensures Ascends(Special3(), 0x7c000000, 0x80000000)
  {
  }

  lemma Special3Regular()
    ensures Regular(Special3())
  {
  }

  lemma LoadStoreAOrder()
    ensures Ascends(LoadStoreA(), 0x80000000, 0xa4000000)
  {
  }

  lemma LoadStoreARegular()
    ensures Regular(LoadStoreA())
  {
  }

  lemma LoadStoreBOrder()
    ensures Ascends(LoadStoreB(), 0xa4000000, 0xcc000000)
  {
  }

  lemma LoadStoreBRegular()
    ensures Regular(LoadStoreB())
  {
  }

  lemma LoadStoreCOrder()
    ensures Ascends(LoadStoreC(), 0xcc000000, 0xffffffff)
  {
  }

  lemma LoadStoreCRegular()
    ensures Regular(LoadStoreC())
  {
  }

  /** The rows a decoder sees in full are strictly ascending, and sound but for two exceptions. */
  lemma TableIsRegular()
    ensures Ascends(SeenRows(), 0, 0xffffffff) && Regular(SeenRows())
  {
    hide Ascends, Regular;
    hide SpecialA, SpecialB, SpecialC, SpecialD, SpecialE, RegImmA, RegImmB, ImmediateA, ImmediateB, Coprocessor0A, Coprocessor0B, Coprocessor2, Likely, Special2, Special3, LoadStoreA, LoadStoreB, LoadStoreC;
    SpecialAOrder();
    SpecialARegular();
    SpecialBOrder();
    SpecialBRegular();
    SpecialCOrder();
    SpecialCRegular();
    SpecialDOrder();
    SpecialDRegular();
    SpecialEOrder();
    SpecialERegular();
    RegImmAOrder();
    RegImmARegular();
    RegImmBOrder();
    RegImmBRegular();
    ImmediateAOrder();
    ImmediateARegular();
    ImmediateBOrder();
    ImmediateBRegular();
    Coprocessor0AOrder();
    Coprocessor0ARegular();
    Coprocessor0BOrder();
    Coprocessor0BRegular();
    Coprocessor2Order();
    Coprocessor2Regular();
    LikelyOrder();
    LikelyRegular();
    Special2Order();
    Special2Regular();
    Special3Order();
    Special3Regular();
    LoadStoreAOrder();
    LoadStoreARegular();
    LoadStoreBOrder();
    LoadStoreBRegular();
    LoadStoreCOrder();
    LoadStoreCRegular();
    var t17 := LoadStoreC();
    Join(LoadStoreB(), t17, 0xa4000000, 0xcc000000, 0xffffffff);
    var t16 := Append(LoadStoreB(), t17);
    Join(LoadStoreA(), t16, 0x80000000, 0xa4000000, 0xffffffff);
    var t15 := Append(LoadStoreA(), t16);
    Join(Special3(), t15, 0x7c000000, 0x80000000, 0xffffffff);
    var t14 := Append(Special3(), t15);
    Join(Special2(), t14, 0x70000000, 0x7c000000, 0xffffffff);
    var t13 := Append(Special2(), t14);
    Join(Likely(), t13, 0x50000000, 0x70000000, 0xffffffff);
    var t12 := Append(Likely(), t13);
    Join(Coprocessor2(), t12, 0x48000000, 0x50000000, 0xffffffff);
    var t11 := Append(Coprocessor2(), t12);
    Join(Coprocessor0B(), t11, 0x42000002, 0x48000000, 0xffffffff);
    var t10 := Append(Coprocessor0B(), t11);
    Join(Coprocessor0A(), t10, 0x40000000, 0x42000002, 0xffffffff);
    var t9 := Append(Coprocessor0A(), t10);
    Join(ImmediateB(), t9, 0x24000000, 0x40000000, 0xffffffff);
    var t8 := Append(ImmediateB(), t9);
    Join(ImmediateA(), t8, 0x08000000, 0x24000000, 0xffffffff);
    var t7 := Append(ImmediateA(), t8);
    Join(RegImmB(), t7, 0x040c0000, 0x08000000, 0xffffffff);
    var t6 := Append(RegImmB(), t7);
    Join(RegImmA(), t6, 0x04000000, 0x040c0000, 0xffffffff);
    var t5 := Append(RegImmA(), t6);
    Join(SpecialE(), t5, 0x00000030, 0x04000000, 0xffffffff);
    var t4 := Append(SpecialE(), t5);
    Join(SpecialD(), t4, 0x00000022, 0x00000030, 0xffffffff);
    var t3 := Append(SpecialD(), t4);
    Join(SpecialC(), t3, 0x00000012, 0x00000022, 0xffffffff);
    var t2 := Append(SpecialC(), t3);
    Join(SpecialB(), t2, 0x00000009, 0x00000012, 0xffffffff);
    var t1 := Append(SpecialB(), t2);
    Join(SpecialA(), t1, 0x00000000, 0x00000009, 0xffffffff);
  }
}
