/** Binary instructions: encoding by op.h's codes and formats, and decoding by a binary search in the
    table of codes. */
module Encoding {
  import opened Options
  import opened CodeOrder
  import opened OpcodeTable

  /** The operands of an instruction; a format leaves the ones it does not have at 0. */
  datatype Fields = Fields(rs: bv32, rt: bv32, rd: bv32, shamt: bv32, imm: bv32, target: bv32)

  datatype Instruction = Instruction(row: Row, fields: Fields)

  // Each five-bit operand has one place in a word.
  function AtRs(r: bv32): bv32 { (r & 0x1f) << 21 }
  function AtRt(r: bv32): bv32 { (r & 0x1f) << 16 }
  function AtRd(r: bv32): bv32 { (r & 0x1f) << 11 }
  function AtSa(r: bv32): bv32 { (r & 0x1f) << 6 }

  function Rs(val: bv32): bv32 { (val >> 21) & 0x1f }
  function Rt(val: bv32): bv32 { (val >> 16) & 0x1f }
  function Rd(val: bv32): bv32 { (val >> 11) & 0x1f }
  function Sa(val: bv32): bv32 { (val >> 6) & 0x1f }
  function Imm(val: bv32): bv32 { val & 0xffff }

  const ZERO := Fields(0, 0, 0, 0, 0, 0)

  /** The operands in their places. */
  function Operands(format: Format, f: Fields): bv32 {
    match format
    case R3 => AtRs(f.rs) | AtRt(f.rt) | AtRd(f.rd)
    case R3sh => AtRs(f.rs) | AtRt(f.rt) | AtRd(f.rd)
    case R2sh => AtRt(f.rt) | AtRd(f.rd) | AtSa(f.shamt)
    case R2st => AtRs(f.rs) | AtRt(f.rt)
    case R2ds => AtRs(f.rs) | AtRd(f.rd)
    case R2td => AtRt(f.rt) | AtRd(f.rd)
    case R1s => AtRs(f.rs)
    case R1d => AtRd(f.rd)
    case I2 => AtRs(f.rs) | AtRt(f.rt) | Imm(f.imm)
    case B2 => AtRs(f.rs) | AtRt(f.rt) | Imm(f.imm)
    case I2a => AtRs(f.rs) | AtRt(f.rt) | Imm(f.imm)
    case I1t => AtRs(f.rs) | AtRt(f.rt) | Imm(f.imm)
    case B1 => AtRs(f.rs) | Imm(f.imm)
    case I1s => AtRs(f.rs) | Imm(f.imm)
    case J => f.target
    case NoArg => 0
    case Float => 0
  }

  function Encode(i: Instruction): bv32 {
    i.row.code | Operands(i.row.format, i.fields)
  }

  /** The operands read back.  The mask of a jump's target has a hole at bit 24. */
  function Extract(format: Format, val: bv32): Fields {
    match format
    case R3 => Fields(Rs(val), Rt(val), Rd(val), 0, 0, 0)
    case R3sh => Fields(Rs(val), Rt(val), Rd(val), 0, 0, 0)
    case R2sh => Fields(0, Rt(val), Rd(val), Sa(val), 0, 0)
    case R2st => Fields(Rs(val), Rt(val), 0, 0, 0, 0)
    case R2ds => Fields(Rs(val), 0, Rd(val), 0, 0, 0)
    case R2td => Fields(0, Rt(val), Rd(val), 0, 0, 0)
    case R1s => Fields(Rs(val), 0, 0, 0, 0, 0)
    case R1d => Fields(0, 0, Rd(val), 0, 0, 0)
    case I2 => Fields(Rs(val), Rt(val), 0, 0, Imm(val), 0)
    case B2 => Fields(Rs(val), Rt(val), 0, 0, Imm(val), 0)
    case I2a => Fields(Rs(val), Rt(val), 0, 0, Imm(val), 0)
    case I1t => Fields(Rs(val), Rt(val), 0, 0, Imm(val), 0)
    case B1 => Fields(Rs(val), 0, 0, 0, Imm(val), 0)
    case I1s => Fields(Rs(val), 0, 0, 0, Imm(val), 0)
    case J => ZERO.(target := val & 0x2ffffff)
    case NoArg => ZERO
    case Float => ZERO
  }

  /** Operands in range, and 0 where the format has none. */
  predicate WellFormed(format: Format, f: Fields) {
    && f.rs < 32 && f.rt < 32 && f.rd < 32 && f.shamt < 32 && f.imm < 0x10000 && f.target < 0x4000000
    && match format
       case R3 => f.shamt == 0 && f.imm == 0 && f.target == 0
       case R3sh => f.shamt == 0 && f.imm == 0 && f.target == 0
       case R2sh => f.rs == 0 && f.imm == 0 && f.target == 0
       case R2st => f.rd == 0 && f.shamt == 0 && f.imm == 0 && f.target == 0
       case R2ds => f.rt == 0 && f.shamt == 0 && f.imm == 0 && f.target == 0
       case R2td => f.rs == 0 && f.shamt == 0 && f.imm == 0 && f.target == 0
       case R1s => f.rt == 0 && f.rd == 0 && f.shamt == 0 && f.imm == 0 && f.target == 0
       case R1d => f.rs == 0 && f.rt == 0 && f.shamt == 0 && f.imm == 0 && f.target == 0
       case I2 => f.rd == 0 && f.shamt == 0 && f.target == 0
       case B2 => f.rd == 0 && f.shamt == 0 && f.target == 0
       case I2a => f.rd == 0 && f.shamt == 0 && f.target == 0
       case I1t => f.rd == 0 && f.shamt == 0 && f.target == 0
       case B1 => f.rt == 0 && f.rd == 0 && f.shamt == 0 && f.target == 0
       case I1s => f.rt == 0 && f.rd == 0 && f.shamt == 0 && f.target == 0
       case J => f.rs == 0 && f.rt == 0 && f.rd == 0 && f.shamt == 0 && f.imm == 0
       case NoArg => f == ZERO
       case Float => f == ZERO
  }

  // ---- The sorted table and the search -------------------------------------------------------------

  ghost predicate Sorted(table: seq<Row>) {
    forall i, j :: 0 <= i < j < |table| ==> !SignedLess(table[j].code, table[i].code)
  }

  /** Any sorted arrangement of the table's rows, the floating-point rows of COP1 and COP1X, and the
      rows of directives and pseudo-instructions, whose code is -1. */
  ghost predicate OpcodeArray(table: seq<Row>) {
    && Sorted(table)
    && (forall row :: InTable(row) ==> row in table)
    && (forall row :: row in table ==> InTable(row) || IsCoprocessor1(row.code) || row.code == 0xffffffff)
  }

  /** Sorting the rows, as is done before the table is first used. */
  function Sort(rows: Rows): seq<Row> {
    match rows
    case Nil => []
    case Cons(row, rest) => Insert(row, Sort(rest))
  }

  function Insert(row: Row, table: seq<Row>): seq<Row> {
    if table == [] then [row]
    else if SignedLess(table[0].code, row.code) then [table[0]] + Insert(row, table[1..])
    else [row] + table
  }

  lemma {:induction false} InsertKeeps(row: Row, table: seq<Row>)
    requires Sorted(table)
    ensures Sorted(Insert(row, table))
    ensures forall r :: r in Insert(row, table) <==> r == row || r in table
  {
    hide SignedLess;
    if table != [] {
      var rest := table[1..];
      if SignedLess(table[0].code, row.code) {
        InsertKeeps(row, rest);
        SignedOrder(table[0].code, row.code, row.code);
        assert forall r :: r in rest ==> !SignedLess(r.code, table[0].code);
        Lead(table[0], Insert(row, rest));
      } else {
        forall k | 0 <= k < |rest|
          ensures !SignedLess(rest[k].code, row.code)
        {
          SignedOrder(rest[k].code, row.code, table[0].code);
        }
        Lead(row, table);
      }
    }
  }

  lemma Lead(row: Row, table: seq<Row>)
    requires Sorted(table) && forall r :: r in table ==> !SignedLess(r.code, row.code)
    ensures Sorted([row] + table)
  {
    hide SignedLess;
  }

  lemma {:induction false} SortKeeps(rows: Rows)
    ensures Sorted(Sort(rows))
    ensures forall r :: r in Sort(rows) <==> Has(rows, r)
  {
    hide SignedLess, Insert;
    if rows.Cons? {
      SortKeeps(rows.tail);
      InsertKeeps(rows.head, Sort(rows.tail));
    }
  }

  lemma {:induction false} HasAppend(a: Rows, b: Rows, row: Row)
    ensures Has(Append(a, b), row) <==> Has(a, row) || Has(b, row)
  {
    if a.Cons? {
      HasAppend(a.tail, b, row);
    }
  }

  /** Sorting the rows gives such a table. */
  lemma SortedTable()
    ensures OpcodeArray(Sort(Append(SeenRows(), Append(MaskedA(), MaskedB()))))
  {
    hide SeenRows, MaskedA, MaskedB, Has, Sorted, Sort, Append;
    var rows := Append(SeenRows(), Append(MaskedA(), MaskedB()));
    SortKeeps(rows);
    forall row
      ensures row in Sort(rows) <==> InTable(row)
    {
      HasAppend(SeenRows(), Append(MaskedA(), MaskedB()), row);
      HasAppend(MaskedA(), MaskedB(), row);
    }
  }

  /** The binary search finds a row with the code exactly when there is one. */
  method Search(table: seq<Row>, num: bv32) returns (r: Option<Row>)
    requires Sorted(table)
    ensures r.Some? ==> r.value in table && r.value.code == num
    ensures r.None? ==> forall row :: row in table ==> row.code != num
  {
    hide SignedLess;
    var low, hi := 0, |table| - 1;
    while low <= hi
      invariant 0 <= low <= hi + 1 <= |table|
      invariant forall k :: 0 <= k < low ==> SignedLess(table[k].code, num)
      invariant forall k :: hi < k < |table| ==> SignedLess(num, table[k].code)
    {
      var mid := (low + hi) / 2;
      if table[mid].code == num {
        return Some(table[mid]);
      } else if SignedLess(table[mid].code, num) {
        forall k | 0 <= k <= mid ensures SignedLess(table[k].code, num) {
          SignedOrder(table[mid].code, num, table[k].code);
        }
        low := mid + 1;
      } else {
        forall k | mid <= k < |table| ensures SignedLess(num, table[k].code) {
          SignedOrder(table[mid].code, num, num);
          SignedOrder(num, table[mid].code, table[k].code);
        }
        hi := mid - 1;
      }
    }
    SignedOrder(num, num, num);
    r := None;
  }

  // ---- Decoding ------------------------------------------------------------------------------------

  /** d is what decoding val gives: an instruction of a row with the right code, or None for an invalid
      instruction if there is no such row. */
  ghost predicate DecodesTo(table: seq<Row>, val: bv32, d: Option<Instruction>) {
    match d
    case None => forall row :: row in table ==> row.code != Key(val)
    case Some(i) => i.row in table && i.row.code == Key(val) && i.fields == Extract(i.row.format, val)
  }

  method Decode(table: seq<Row>, val: bv32) returns (d: Option<Instruction>)
    requires Sorted(table)
    ensures DecodesTo(table, val, d)
  {
    hide Key, Extract;
    var r := Search(table, Key(val));
    d := if r.None? then None else Some(Instruction(r.value, Extract(r.value.format, val)));
  }

  ghost predicate RoundTrips(table: seq<Row>, i: Instruction) {
    forall d :: DecodesTo(table, Encode(i), d) <==> d == Some(i)
  }

  predicate Within(a: bv32, bits: bv32) {
    a & !bits == 0
  }

  // ---- Fields --------------------------------------------------------------------------------------

  lemma OperandsInPlace(format: Format, f: Fields)
    requires WellFormed(format, f)
    ensures Within(Operands(format, f), FieldBits(format))
  {
  }

  // The operands come back, whatever else the word holds outside their places.
  lemma FieldsReturn(format: Format, f: Fields, code: bv32)
    requires WellFormed(format, f) && format != J
    requires Apart(code, FieldBits(format))
    ensures Extract(format, code | Operands(format, f)) == f
  {
    hide WellFormed, Extract, Operands, FieldBits;
    match format
    case R3 => ThreeRegistersReturn(format, f, code);
    case R3sh => ThreeRegistersReturn(format, f, code);
    case R2sh => ShiftReturns(format, f, code);
    case R2st => SourcesReturn(format, f, code);
    case R2ds => DestinationReturns(format, f, code);
    case R2td => TargetReturns(format, f, code);
    case R1s => OneRegisterReturns(format, f, code);
    case R1d => OneRegisterReturns(format, f, code);
    case I2 => TwoAndImmediateReturn(format, f, code);
    case B2 => TwoAndImmediateReturn(format, f, code);
    case I2a => TwoAndImmediateReturn(format, f, code);
    case I1t => TwoAndImmediateReturn(format, f, code);
    case B1 => OneAndImmediateReturn(format, f, code);
    case I1s => OneAndImmediateReturn(format, f, code);
    case _ => NothingReturns(format, f, code);
  }

  /** Where the architecture puts the operands, whatever the format. */
  function Layout(f: Fields): bv32 {
    (f.rs << 21) | (f.rt << 16) | (f.rd << 11) | (f.shamt << 6) | f.imm | f.target
  }

  /** One layout for all formats but the floating-point ones. */
  lemma EncodedLayout(row: Row, f: Fields)
    requires WellFormed(row.format, f) && !row.format.Float?
    ensures Encode(Instruction(row, f)) == row.code | Layout(f)
  {
    hide Operands, Layout, WellFormed;
    OperandsLayout(row.format, f);
  }

  lemma OperandsLayout(format: Format, f: Fields)
    requires WellFormed(format, f) && !format.Float?
    ensures Operands(format, f) == Layout(f)
  {
    hide WellFormed, Operands, Layout;
    match format
    case I2 => ImmediatesLayout(format, f);
    case B2 => ImmediatesLayout(format, f);
    case I2a => ImmediatesLayout(format, f);
    case I1t => ImmediatesLayout(format, f);
    case B1 => ImmediatesLayout(format, f);
    case I1s => ImmediatesLayout(format, f);
    case J => NoRegistersLayout(format, f);
    case NoArg => NoRegistersLayout(format, f);
    case R1s => OneRegisterLayout(format, f);
    case R1d => OneRegisterLayout(format, f);
    case _ => RegistersLayout(format, f);
  }

  lemma RegistersLayout(format: Format, f: Fields)
    requires format.R3? || format.R3sh? || format.R2sh? || format.R2st? || format.R2ds? || format.R2td?
    requires WellFormed(format, f)
    ensures Operands(format, f) == Layout(f)
  {
    hide Layout, AtRs, AtRt, AtRd, AtSa, Imm;
    match format
    case R2sh => LayoutR2sh(f.rt, f.rd, f.shamt);
    case R2st => LayoutR2st(f.rs, f.rt);
    case R2ds => LayoutR2ds(f.rs, f.rd);
    case R2td => LayoutR2td(f.rt, f.rd);
    case _ => LayoutR3(f.rs, f.rt, f.rd);
  }

  lemma OneRegisterLayout(format: Format, f: Fields)
    requires (format.R1s? || format.R1d?) && WellFormed(format, f)
    ensures Operands(format, f) == Layout(f)
  {
    hide Layout, AtRs, AtRt, AtRd, AtSa, Imm;
    if format.R1s? {
      LayoutR1s(f.rs);
    } else {
      LayoutR1d(f.rd);
    }
  }

  lemma ImmediatesLayout(format: Format, f: Fields)
    requires format.I2? || format.B2? || format.I2a? || format.I1t? || format.B1? || format.I1s?
    requires WellFormed(format, f)
    ensures Operands(format, f) == Layout(f)
  {
    hide Layout, AtRs, AtRt, AtRd, AtSa, Imm;
    if format.B1? || format.I1s? {
      LayoutB1(f.rs, f.imm);
    } else {
      LayoutI2(f.rs, f.rt, f.imm);
    }
  }

  lemma NoRegistersLayout(format: Format, f: Fields)
    requires (format.J? || format.NoArg?) && WellFormed(format, f)
    ensures Operands(format, f) == Layout(f)
  {
    hide Layout, AtRs, AtRt, AtRd, AtSa, Imm;
    LayoutJ(f.target);
  }

  lemma LayoutR3(rs: bv32, rt: bv32, rd: bv32)
    requires rs < 32 && rt < 32 && rd < 32
    ensures Layout(Fields(rs, rt, rd, 0, 0, 0)) == AtRs(rs) | AtRt(rt) | AtRd(rd)
  {
  }

  lemma LayoutR2sh(rt: bv32, rd: bv32, sa: bv32)
    requires rt < 32 && rd < 32 && sa < 32
    ensures Layout(Fields(0, rt, rd, sa, 0, 0)) == AtRt(rt) | AtRd(rd) | AtSa(sa)
  {
  }

  lemma LayoutR2st(rs: bv32, rt: bv32)
    requires rs < 32 && rt < 32
    ensures Layout(Fields(rs, rt, 0, 0, 0, 0)) == AtRs(rs) | AtRt(rt)
  {
  }

  lemma LayoutR2ds(rs: bv32, rd: bv32)
    requires rs < 32 && rd < 32
    ensures Layout(Fields(rs, 0, rd, 0, 0, 0)) == AtRs(rs) | AtRd(rd)
  {
  }

  lemma LayoutR2td(rt: bv32, rd: bv32)
    requires rt < 32 && rd < 32
    ensures Layout(Fields(0, rt, rd, 0, 0, 0)) == AtRt(rt) | AtRd(rd)
  {
  }

  lemma LayoutR1s(rs: bv32)
    requires rs < 32
    ensures Layout(Fields(rs, 0, 0, 0, 0, 0)) == AtRs(rs)
  {
  }

  lemma LayoutR1d(rd: bv32)
    requires rd < 32
    ensures Layout(Fields(0, 0, rd, 0, 0, 0)) == AtRd(rd)
  {
  }

  lemma LayoutI2(rs: bv32, rt: bv32, imm: bv32)
    requires rs < 32 && rt < 32 && imm < 0x10000
    ensures Layout(Fields(rs, rt, 0, 0, imm, 0)) == AtRs(rs) | AtRt(rt) | Imm(imm)
  {
  }

  lemma LayoutB1(rs: bv32, imm: bv32)
    requires rs < 32 && imm < 0x10000
    ensures Layout(Fields(rs, 0, 0, 0, imm, 0)) == AtRs(rs) | Imm(imm)
  {
  }

  lemma LayoutJ(target: bv32)
    ensures Layout(Fields(0, 0, 0, 0, 0, target)) == target
  {
  }

  /** What decoding gives for any word at all: well-formed operands that, laid out, are the bits of the word
      in the places that the format has. */
  lemma DecodedLayout(table: seq<Row>, val: bv32, i: Instruction)
    requires DecodesTo(table, val, Some(i)) && IsInteger(i.row.format)
    ensures WellFormed(i.row.format, i.fields) && Layout(i.fields) == val & FieldBits(i.row.format)
  {
    hide Extract, Layout, WellFormed, FieldBits, Key;
    ExtractLayout(i.row.format, val);
  }

  lemma ExtractLayout(format: Format, val: bv32)
    requires IsInteger(format)
    ensures WellFormed(format, Extract(format, val)) && Layout(Extract(format, val)) == val & FieldBits(format)
  {
    hide WellFormed, Extract, Layout, FieldBits;
    match format
    case I2 => ReadImmediates(format, val);
    case B2 => ReadImmediates(format, val);
    case I2a => ReadImmediates(format, val);
    case I1t => ReadImmediates(format, val);
    case B1 => ReadImmediates(format, val);
    case I1s => ReadImmediates(format, val);
    case NoArg => ReadNothing(val);
    case R1s => ReadOneRegister(format, val);
    case R1d => ReadOneRegister(format, val);
    case _ => ReadRegisters(format, val);
  }

  predicate InRange(f: Fields) {
    f.rs < 32 && f.rt < 32 && f.rd < 32 && f.shamt < 32 && f.imm < 0x10000 && f.target < 0x4000000
  }

  lemma ReadRegisters(format: Format, val: bv32)
    requires format.R3? || format.R3sh? || format.R2sh? || format.R2st? || format.R2ds? || format.R2td?
    ensures WellFormed(format, Extract(format, val)) && Layout(Extract(format, val)) == val & FieldBits(format)
  {
    hide Layout, Rs, Rt, Rd, Sa, Imm;
    match format
    case R2sh => ReadR2sh(val);
    case R2st => ReadR2st(val);
    case R2ds => ReadR2ds(val);
    case R2td => ReadR2td(val);
    case _ => ReadR3(val);
  }

  lemma ReadOneRegister(format: Format, val: bv32)
    requires format.R1s? || format.R1d?
    ensures WellFormed(format, Extract(format, val)) && Layout(Extract(format, val)) == val & FieldBits(format)
  {
    hide Layout, Rs, Rt, Rd, Sa, Imm;
    if format.R1s? {
      ReadR1s(val);
    } else {
      ReadR1d(val);
    }
  }

  lemma ReadImmediates(format: Format, val: bv32)
    requires format.I2? || format.B2? || format.I2a? || format.I1t? || format.B1? || format.I1s?
    ensures WellFormed(format, Extract(format, val)) && Layout(Extract(format, val)) == val & FieldBits(format)
  {
    hide Layout, Rs, Rt, Rd, Sa, Imm;
    if format.B1? || format.I1s? {
      ReadB1(val);
    } else {
      ReadI2(val);
    }
  }

  lemma ReadNothing(val: bv32)
    ensures WellFormed(NoArg, Extract(NoArg, val)) && Layout(Extract(NoArg, val)) == val & FieldBits(NoArg)
  {
    hide Layout, Rs, Rt, Rd, Sa, Imm;
    LayoutJ(0);
  }

  lemma ReadR3(val: bv32)
    ensures var f := Fields(Rs(val), Rt(val), Rd(val), 0, 0, 0); Layout(f) == val & 0x03fff800 && InRange(f)
  {
  }

  lemma ReadR2sh(val: bv32)
    ensures var f := Fields(0, Rt(val), Rd(val), Sa(val), 0, 0); Layout(f) == val & 0x001fffc0 && InRange(f)
  {
  }

  lemma ReadR2st(val: bv32)
    ensures var f := Fields(Rs(val), Rt(val), 0, 0, 0, 0); Layout(f) == val & 0x03ff0000 && InRange(f)
  {
  }

  lemma ReadR2ds(val: bv32)
    ensures var f := Fields(Rs(val), 0, Rd(val), 0, 0, 0); Layout(f) == val & 0x03e0f800 && InRange(f)
  {
  }

  lemma ReadR2td(val: bv32)
    ensures var f := Fields(0, Rt(val), Rd(val), 0, 0, 0); Layout(f) == val & 0x001ff800 && InRange(f)
  {
  }

  lemma ReadR1s(val: bv32)
    ensures var f := Fields(Rs(val), 0, 0, 0, 0, 0); Layout(f) == val & 0x03e00000 && InRange(f)
  {
  }

  lemma ReadR1d(val: bv32)
    ensures var f := Fields(0, 0, Rd(val), 0, 0, 0); Layout(f) == val & 0x0000f800 && InRange(f)
  {
  }

  lemma ReadI2(val: bv32)
    ensures var f := Fields(Rs(val), Rt(val), 0, 0, Imm(val), 0); Layout(f) == val & 0x03ffffff && InRange(f)
  {
  }

  lemma ReadB1(val: bv32)
    ensures var f := Fields(Rs(val), 0, 0, 0, Imm(val), 0); Layout(f) == val & 0x03e0ffff && InRange(f)
  {
  }

  lemma ThreeRegistersReturn(format: Format, f: Fields, code: bv32)
    requires format.R3? || format.R3sh?
    requires WellFormed(format, f) && Apart(code, FieldBits(format))
    ensures Extract(format, code | Operands(format, f)) == f
  {
    hide Apart, AtRs, AtRt, AtRd, AtSa, Rs, Rt, Rd, Sa, Imm;
    ThreeRegisters(format, f, code | Operands(format, f));
    hide WellFormed, FieldBits, Operands, Extract;
    RsRtRdReturn(f.rs, f.rt, f.rd, code);
  }

  lemma ThreeRegisters(format: Format, f: Fields, v: bv32)
    requires (format.R3? || format.R3sh?) && WellFormed(format, f)
    ensures FieldBits(format) == 0x03fff800 && Operands(format, f) == AtRs(f.rs) | AtRt(f.rt) | AtRd(f.rd)
    ensures f.rs < 32 && f.rt < 32 && f.rd < 32 && f == Fields(f.rs, f.rt, f.rd, 0, 0, 0)
    ensures Extract(format, v) == Fields(Rs(v), Rt(v), Rd(v), 0, 0, 0)
  {
    hide AtRs, AtRt, AtRd, AtSa, Rs, Rt, Rd, Sa, Imm;
  }

  lemma ShiftReturns(format: Format, f: Fields, code: bv32)
    requires format.R2sh?
    requires WellFormed(format, f) && Apart(code, FieldBits(format))
    ensures Extract(format, code | Operands(format, f)) == f
  {
    hide Apart, AtRs, AtRt, AtRd, AtSa, Rs, Rt, Rd, Sa, Imm;
    RtRdSaReturn(f.rt, f.rd, f.shamt, code);
  }

  lemma SourcesReturn(format: Format, f: Fields, code: bv32)
    requires format.R2st?
    requires WellFormed(format, f) && Apart(code, FieldBits(format))
    ensures Extract(format, code | Operands(format, f)) == f
  {
    hide Apart, AtRs, AtRt, AtRd, AtSa, Rs, Rt, Rd, Sa, Imm;
    RsRtReturn(f.rs, f.rt, code);
  }

  lemma DestinationReturns(format: Format, f: Fields, code: bv32)
    requires format.R2ds?
    requires WellFormed(format, f) && Apart(code, FieldBits(format))
    ensures Extract(format, code | Operands(format, f)) == f
  {
    hide Apart, AtRs, AtRt, AtRd, AtSa, Rs, Rt, Rd, Sa, Imm;
    RsRdReturn(f.rs, f.rd, code);
  }

  lemma TargetReturns(format: Format, f: Fields, code: bv32)
    requires format.R2td?
    requires WellFormed(format, f) && Apart(code, FieldBits(format))
    ensures Extract(format, code | Operands(format, f)) == f
  {
    hide Apart, AtRs, AtRt, AtRd, AtSa, Rs, Rt, Rd, Sa, Imm;
    RtRdReturn(f.rt, f.rd, code);
  }

  lemma OneRegisterReturns(format: Format, f: Fields, code: bv32)
    requires format.R1s? || format.R1d?
    requires WellFormed(format, f) && Apart(code, FieldBits(format))
    ensures Extract(format, code | Operands(format, f)) == f
  {
    hide Apart, AtRs, AtRt, AtRd, AtSa, Rs, Rt, Rd, Sa, Imm;
    if format.R1s? {
      OnlyRsReturn(f.rs, code);
    } else {
      OnlyRdReturn(f.rd, code);
    }
  }

  lemma TwoAndImmediateReturn(format: Format, f: Fields, code: bv32)
    requires format.I2? || format.B2? || format.I2a? || format.I1t?
    requires WellFormed(format, f) && Apart(code, FieldBits(format))
    ensures Extract(format, code | Operands(format, f)) == f
  {
    hide Apart, AtRs, AtRt, AtRd, AtSa, Rs, Rt, Rd, Sa, Imm;
    TwoAndImmediate(format, f, code | Operands(format, f));
    hide WellFormed, FieldBits, Operands, Extract;
    RsRtImmReturn(f.rs, f.rt, f.imm, code);
  }

  lemma TwoAndImmediate(format: Format, f: Fields, v: bv32)
    requires (format.I2? || format.B2? || format.I2a? || format.I1t?) && WellFormed(format, f)
    ensures FieldBits(format) == 0x03ffffff && Operands(format, f) == AtRs(f.rs) | AtRt(f.rt) | Imm(f.imm)
    ensures f.rs < 32 && f.rt < 32 && f.imm < 0x10000 && f == Fields(f.rs, f.rt, 0, 0, f.imm, 0)
    ensures Extract(format, v) == Fields(Rs(v), Rt(v), 0, 0, Imm(v), 0)
  {
    hide AtRs, AtRt, AtRd, AtSa, Rs, Rt, Rd, Sa, Imm;
  }

  lemma OneAndImmediateReturn(format: Format, f: Fields, code: bv32)
    requires format.B1? || format.I1s?
    requires WellFormed(format, f) && Apart(code, FieldBits(format))
    ensures Extract(format, code | Operands(format, f)) == f
  {
    hide Apart, AtRs, AtRt, AtRd, AtSa, Rs, Rt, Rd, Sa, Imm;
    OneAndImmediate(format, f, code | Operands(format, f));
    hide WellFormed, FieldBits, Operands, Extract;
    RsImmReturn(f.rs, f.imm, code);
  }

  lemma OneAndImmediate(format: Format, f: Fields, v: bv32)
    requires (format.B1? || format.I1s?) && WellFormed(format, f)
    ensures FieldBits(format) == 0x03e0ffff && Operands(format, f) == AtRs(f.rs) | Imm(f.imm)
    ensures f.rs < 32 && f.imm < 0x10000 && f == Fields(f.rs, 0, 0, 0, f.imm, 0)
    ensures Extract(format, v) == Fields(Rs(v), 0, 0, 0, Imm(v), 0)
  {
    hide AtRs, AtRt, AtRd, AtSa, Rs, Rt, Rd, Sa, Imm;
  }

  lemma NothingReturns(format: Format, f: Fields, code: bv32)
    requires format.NoArg? || format.Float?
    requires WellFormed(format, f) && Apart(code, FieldBits(format))
    ensures Extract(format, code | Operands(format, f)) == f
  {
    hide FieldBits, Operands, AtRs, AtRt, AtRd, AtSa, Rs, Rt, Rd, Sa, Imm;
  }

  lemma RsRtRdReturn(rs: bv32, rt: bv32, rd: bv32, code: bv32)
    requires rs < 32 && rt < 32 && rd < 32 && Apart(code, 0x03fff800)
    ensures var v := code | (AtRs(rs) | AtRt(rt) | AtRd(rd));
      Rs(v) == rs && Rt(v) == rt && Rd(v) == rd
  {
  }

  lemma RtRdSaReturn(rt: bv32, rd: bv32, sa: bv32, code: bv32)
    requires rt < 32 && rd < 32 && sa < 32 && Apart(code, 0x001fffc0)
    ensures var v := code | (AtRt(rt) | AtRd(rd) | AtSa(sa));
      Rt(v) == rt && Rd(v) == rd && Sa(v) == sa
  {
  }

  lemma RsRtReturn(rs: bv32, rt: bv32, code: bv32)
    requires rs < 32 && rt < 32 && Apart(code, 0x03ff0000)
    ensures var v := code | (AtRs(rs) | AtRt(rt));
      Rs(v) == rs && Rt(v) == rt
  {
  }

  lemma RsRdReturn(rs: bv32, rd: bv32, code: bv32)
    requires rs < 32 && rd < 32 && Apart(code, 0x03e0f800)
    ensures var v := code | (AtRs(rs) | AtRd(rd));
      Rs(v) == rs && Rd(v) == rd
  {
  }

  lemma RtRdReturn(rt: bv32, rd: bv32, code: bv32)
    requires rt < 32 && rd < 32 && Apart(code, 0x001ff800)
    ensures var v := code | (AtRt(rt) | AtRd(rd));
      Rt(v) == rt && Rd(v) == rd
  {
  }

  lemma OnlyRsReturn(rs: bv32, code: bv32)
    requires rs < 32 && Apart(code, 0x03e00000)
    ensures var v := code | AtRs(rs);
      Rs(v) == rs
  {
  }

  lemma OnlyRdReturn(rd: bv32, code: bv32)
    requires rd < 32 && Apart(code, 0x0000f800)
    ensures var v := code | AtRd(rd);
      Rd(v) == rd
  {
  }

  lemma RsRtImmReturn(rs: bv32, rt: bv32, imm: bv32, code: bv32)
    requires rs < 32 && rt < 32 && imm < 0x10000 && Apart(code, 0x03ffffff)
    ensures var v := code | (AtRs(rs) | AtRt(rt) | Imm(imm));
      Rs(v) == rs && Rt(v) == rt && Imm(v) == imm
  {
  }

  lemma RsImmReturn(rs: bv32, imm: bv32, code: bv32)
    requires rs < 32 && imm < 0x10000 && Apart(code, 0x03e0ffff)
    ensures var v := code | (AtRs(rs) | Imm(imm));
      Rs(v) == rs && Imm(v) == imm
  {
  }

  // ---- Keys ----------------------------------------------------------------------------------------

  // Operands outside the bits looked up do not disturb the key.
  lemma KeyStays(code: bv32, operands: bv32, bits: bv32)
    requires Apart(bits, 0xfc000000) && Within(operands, bits) && Apart(KeyMask(code), bits)
    ensures Key(code | operands) == Key(code)
  {
    hide KeyMask, Apart, Within;
    MajorStays(code, operands, bits);
    KeyOfParts(code, operands, bits, KeyMask(code));
  }

  lemma MajorStays(code: bv32, operands: bv32, bits: bv32)
    requires Apart(bits, 0xfc000000) && Within(operands, bits) && Apart(KeyMask(code), bits)
    ensures KeyMask(code | operands) == KeyMask(code)
  {
    assert (code | operands) & 0xfc000000 == code & 0xfc000000;
  }

  lemma KeyOfParts(code: bv32, operands: bv32, bits: bv32, mask: bv32)
    requires Within(operands, bits) && Apart(mask, bits)
    ensures (code | operands) & mask == code & mask
  {
  }

  // ---- The table -----------------------------------------------------------------------------------

  lemma {:induction false} AboveAll(prev: bv32, rows: Rows, hi: bv32, row: Row)
    requires Strict(prev, rows, hi) && Has(rows, row)
    ensures Less(prev, row.code) && Less(row.code, hi)
    decreases rows
  {
    hide Less;
    LessIsAnOrder(prev, rows.head.code, row.code);
    if rows.head != row {
      AboveAll(rows.head.code, rows.tail, hi, row);
    } else {
      BelowEnd(row.code, rows.tail, hi);
    }
  }

  lemma {:induction false} BelowEnd(prev: bv32, rows: Rows, hi: bv32)
    requires Strict(prev, rows, hi)
    ensures Less(prev, hi)
    decreases rows
  {
    hide Less;
    if rows.Cons? {
      BelowEnd(rows.head.code, rows.tail, hi);
      LessIsAnOrder(prev, rows.head.code, hi);
    }
  }

  lemma {:induction false} OneRowPerCode(prev: bv32, rows: Rows, hi: bv32, a: Row, b: Row)
    requires Strict(prev, rows, hi) && Has(rows, a) && Has(rows, b) && a.code == b.code
    ensures a == b
    decreases rows
  {
    hide Less;
    LessIsAnOrder(a.code, a.code, a.code);
    var head, rest := rows.head, rows.tail;
    if Has(rest, a) && Has(rest, b) {
      OneRowPerCode(head.code, rest, hi, a, b);
    } else if Has(rest, a) {
      AboveAll(head.code, rest, hi, a);
    } else if Has(rest, b) {
      AboveAll(head.code, rest, hi, b);
    }
  }

  lemma {:induction false} EachRegular(rows: Rows, row: Row)
    requires Regular(rows) && Has(rows, row)
    ensures RegularRow(row)
  {
    hide RegularRow;
    if rows.head != row {
      EachRegular(rows.tail, row);
    }
  }

  lemma MaskedRows(row: Row)
    requires IsMasked(row)
    ensures Key(row.code) != row.code
  {
    hide Key, MaskedA, MaskedB;
    NoneSurvivesHere();
    EachMasked(if Has(MaskedA(), row) then MaskedA() else MaskedB(), row);
  }

  predicate NoneSurvives(rows: Rows) {
    match rows
    case Nil => true
    case Cons(row, rest) => Key(row.code) != row.code && NoneSurvives(rest)
  }

  lemma NoneSurvivesHere()
    ensures NoneSurvives(MaskedA()) && NoneSurvives(MaskedB())
  {
  }

  lemma {:induction false} EachMasked(rows: Rows, row: Row)
    requires NoneSurvives(rows) && Has(rows, row)
    ensures Key(row.code) != row.code
  {
    hide Key;
    if rows.head != row {
      EachMasked(rows.tail, row);
    }
  }

  lemma OneRow(rows: Rows, lo: bv32, hi: bv32, a: Row, b: Row)
    requires Ascends(rows, lo, hi) && Has(rows, a)
    ensures Less(a.code, hi)
    ensures Has(rows, b) && a.code == b.code ==> a == b
  {
    hide Less;
    var head, rest := rows.head, rows.tail;
    LessIsAnOrder(a.code, a.code, a.code);
    if Has(rest, a) {
      AboveAll(head.code, rest, hi, a);
    } else {
      BelowEnd(head.code, rest, hi);
    }
    if Has(rows, b) && a.code == b.code && a != b {
      if Has(rest, a) && Has(rest, b) {
        OneRowPerCode(head.code, rest, hi, a, b);
      } else if Has(rest, b) {
        AboveAll(head.code, rest, hi, b);
      }
    }
  }

  /** A code that survives the mask belongs to one row of the table only. */
  lemma UniqueCode(table: seq<Row>, a: Row, b: Row)
    requires OpcodeArray(table) && InTable(a) && b in table && a.code == b.code && Key(a.code) == a.code
    ensures a == b
  {
    hide Key, SeenRows, IsMasked, Less, Regular, Ascends, RegularRow, Sorted, Has, IsCoprocessor1;
    TableIsRegular();
    if IsMasked(a) {
      MaskedRows(a);
    } else {
      EachRegular(SeenRows(), a);
      NotCoprocessor1(a);
      OneRow(SeenRows(), 0, 0xffffffff, a, b);
      LessIsAnOrder(a.code, a.code, a.code);
      if IsMasked(b) {
        MaskedRows(b);
      }
    }
  }

  lemma NotCoprocessor1(row: Row)
    requires RegularRow(row)
    ensures !IsCoprocessor1(row.code)
  {
    hide IsCoprocessor1, Sound, Overlaps;
  }

  // ---- Round trips ---------------------------------------------------------------------------------

  predicate IsInteger(format: Format) {
    !format.J? && !format.Float?
  }

  // An encoding whose key and operands can be read back goes round.
  lemma GoesRound(table: seq<Row>, i: Instruction)
    requires OpcodeArray(table) && InTable(i.row) && Key(i.row.code) == i.row.code
    requires Key(Encode(i)) == i.row.code && Extract(i.row.format, Encode(i)) == i.fields
    ensures RoundTrips(table, i)
  {
    hide InTable, Sorted, Key, Encode, Extract, IsCoprocessor1;
    forall d
      ensures DecodesTo(table, Encode(i), d) <==> d == Some(i)
    {
      if d.Some? && DecodesTo(table, Encode(i), d) {
        UniqueCode(table, i.row, d.value.row);
      }
    }
  }

  lemma KeyOfEncoding(row: Row, f: Fields)
    requires Apart(KeyMask(row.code), FieldBits(row.format)) && WellFormed(row.format, f)
    ensures Key(Encode(Instruction(row, f))) == Key(row.code)
  {
    hide Key, KeyMask, WellFormed, Operands, FieldBits, Within, Apart;
    OperandsInPlace(row.format, f);
    FieldsInLowBits(row.format);
    KeyStays(row.code, Operands(row.format, f), FieldBits(row.format));
  }

  lemma FieldsInLowBits(format: Format)
    ensures Apart(FieldBits(format), 0xfc000000)
  {
  }

  lemma SoundRoundTrip(table: seq<Row>, row: Row, f: Fields)
    requires OpcodeArray(table) && InTable(row) && IsInteger(row.format) && Sound(row) && WellFormed(row.format, f)
    ensures RoundTrips(table, Instruction(row, f))
  {
    hide InTable, OpcodeArray, Key, KeyMask, WellFormed, Extract, Operands, FieldBits, Apart, RoundTrips;
    KeyOfEncoding(row, f);
    FieldsReturn(row.format, f, row.code);
    GoesRound(table, Instruction(row, f));
  }

  // ---- And when they fail --------------------------------------------------------------------------

  /** All operands zero, and all their bits set. */
  function AllBits(format: Format): Fields {
    match format
    case R3 => ZERO.(rs := 31, rt := 31, rd := 31)
    case R3sh => ZERO.(rs := 31, rt := 31, rd := 31)
    case R2sh => ZERO.(rt := 31, rd := 31, shamt := 31)
    case R2st => ZERO.(rs := 31, rt := 31)
    case R2ds => ZERO.(rs := 31, rd := 31)
    case R2td => ZERO.(rt := 31, rd := 31)
    case R1s => ZERO.(rs := 31)
    case R1d => ZERO.(rd := 31)
    case I2 => ZERO.(rs := 31, rt := 31, imm := 0xffff)
    case B2 => ZERO.(rs := 31, rt := 31, imm := 0xffff)
    case I2a => ZERO.(rs := 31, rt := 31, imm := 0xffff)
    case I1t => ZERO.(rs := 31, rt := 31, imm := 0xffff)
    case B1 => ZERO.(rs := 31, imm := 0xffff)
    case I1s => ZERO.(rs := 31, imm := 0xffff)
    case J => ZERO
    case NoArg => ZERO
    case Float => ZERO
  }

  lemma AllBitsFill(format: Format)
    requires IsInteger(format)
    ensures WellFormed(format, AllBits(format)) && Operands(format, AllBits(format)) == FieldBits(format)
  {
  }

  // Empty operands mean empty places.
  lemma EmptyRs(code: bv32)
    requires Rs(code) == 0
    ensures Apart(code, 0x03e00000)
  {
  }

  lemma EmptyRt(code: bv32)
    requires Rt(code) == 0
    ensures Apart(code, 0x001f0000)
  {
  }

  lemma EmptyRd(code: bv32)
    requires Rd(code) == 0
    ensures Apart(code, 0x0000f800)
  {
  }

  lemma EmptySa(code: bv32)
    requires Sa(code) == 0
    ensures Apart(code, 0x000007c0)
  {
  }

  lemma EmptyImm(code: bv32)
    requires Imm(code) == 0
    ensures Apart(code, 0x0000ffff)
  {
  }

  lemma ApartFromBoth(code: bv32, a: bv32, b: bv32)
    requires Apart(code, a) && Apart(code, b)
    ensures Apart(code, a | b)
  {
  }

  lemma EmptyParts(code: bv32)
    ensures Rs(code) == 0 ==> Apart(code, 0x03e00000)
    ensures Rt(code) == 0 ==> Apart(code, 0x001f0000)
    ensures Rd(code) == 0 ==> Apart(code, 0x0000f800)
    ensures Sa(code) == 0 ==> Apart(code, 0x000007c0)
    ensures Imm(code) == 0 ==> Apart(code, 0x0000ffff)
  {
    hide Rs, Rt, Rd, Sa, Imm, Apart;
    if Rs(code) == 0 {
      EmptyRs(code);
    }
    if Rt(code) == 0 {
      EmptyRt(code);
    }
    if Rd(code) == 0 {
      EmptyRd(code);
    }
    if Sa(code) == 0 {
      EmptySa(code);
    }
    if Imm(code) == 0 {
      EmptyImm(code);
    }
  }

  lemma EmptyPlaces(format: Format, code: bv32)
    requires IsInteger(format) && Extract(format, code) == ZERO
    ensures Apart(code, FieldBits(format))
  {
    hide Extract, FieldBits, Apart;
    match format
    case I2 => EmptyImmediate(format, code);
    case B2 => EmptyImmediate(format, code);
    case I2a => EmptyImmediate(format, code);
    case I1t => EmptyImmediate(format, code);
    case B1 => EmptyShort(format, code);
    case I1s => EmptyShort(format, code);
    case _ => EmptyRegisters(format, code);
  }

  lemma EmptyImmediate(format: Format, code: bv32)
    requires format.I2? || format.B2? || format.I2a? || format.I1t?
    requires Extract(format, code) == ZERO
    ensures Apart(code, FieldBits(format))
  {
    hide Rs, Rt, Rd, Sa, Imm, Apart;
    EmptyParts(code);
    ApartFromBoth(code, 0x03e00000, 0x001f0000);
    ApartFromBoth(code, 0x03ff0000, 0x0000ffff);
  }

  lemma EmptyShort(format: Format, code: bv32)
    requires format.B1? || format.I1s?
    requires Extract(format, code) == ZERO
    ensures Apart(code, FieldBits(format))
  {
    hide Rs, Rt, Rd, Sa, Imm, Apart;
    EmptyParts(code);
    ApartFromBoth(code, 0x03e00000, 0x0000ffff);
  }

  lemma EmptyRegisters(format: Format, code: bv32)
    requires IsInteger(format) && Extract(format, code) == ZERO
    requires !(format.I2? || format.B2? || format.I2a? || format.I1t? || format.B1? || format.I1s?)
    ensures Apart(code, FieldBits(format))
  {
    hide Apart;
    match format
    case R3 => EmptyThree(format, code);
    case R3sh => EmptyThree(format, code);
    case R2sh => EmptyThree(format, code);
    case NoArg => ApartFromNothing(code);
    case _ => EmptyTwo(format, code);
  }

  lemma EmptyThree(format: Format, code: bv32)
    requires format.R3? || format.R3sh? || format.R2sh?
    requires Extract(format, code) == ZERO
    ensures Apart(code, FieldBits(format))
  {
    hide Rs, Rt, Rd, Sa, Imm, Apart;
    EmptyParts(code);
    if format.R2sh? {
      ApartFromBoth(code, 0x001f0000, 0x0000f800);
      ApartFromBoth(code, 0x001ff800, 0x000007c0);
    } else {
      ApartFromBoth(code, 0x03e00000, 0x001f0000);
      ApartFromBoth(code, 0x03ff0000, 0x0000f800);
    }
  }

  lemma EmptyTwo(format: Format, code: bv32)
    requires format.R2st? || format.R2ds? || format.R2td? || format.R1s? || format.R1d?
    requires Extract(format, code) == ZERO
    ensures Apart(code, FieldBits(format))
  {
    hide Rs, Rt, Rd, Sa, Imm, Apart;
    EmptyParts(code);
    if format.R2st? {
      ApartFromBoth(code, 0x03e00000, 0x001f0000);
    } else if format.R2ds? {
      ApartFromBoth(code, 0x03e00000, 0x0000f800);
    } else if format.R2td? {
      ApartFromBoth(code, 0x001f0000, 0x0000f800);
    }
  }

  lemma ApartFromNothing(code: bv32)
    ensures Apart(code, 0)
  {
  }

  lemma ZeroOperands(format: Format, code: bv32)
    requires IsInteger(format)
    ensures WellFormed(format, ZERO) && code | Operands(format, ZERO) == code
  {
    assert Operands(format, ZERO) == 0;
  }

  lemma FailingOperands(row: Row) returns (f: Fields)
    requires IsInteger(row.format) && !Sound(row) && (Key(row.code) == row.code ==> !IsCoprocessor1(row.code))
    ensures WellFormed(row.format, f)
    ensures var val := Encode(Instruction(row, f)); Key(val) != row.code || Extract(row.format, val) != f
  {
    hide IsCoprocessor1, Key, KeyMask, WellFormed, Extract, FieldBits, Apart, Encode;
    if Key(row.code) != row.code || !Apart(row.code, FieldBits(row.format)) {
      f := ZERO;
      EncodeNothing(row);
      if Extract(row.format, row.code) == ZERO {
        EmptyPlaces(row.format, row.code);
      }
    } else {
      f := AllBits(row.format);
      EncodeAll(row);
      FieldsInLowBits(row.format);
      KeyDisturbed(row.code, FieldBits(row.format));
    }
  }

  lemma EncodeNothing(row: Row)
    requires IsInteger(row.format)
    ensures WellFormed(row.format, ZERO) && Encode(Instruction(row, ZERO)) == row.code
  {
    hide WellFormed, Operands;
    ZeroOperands(row.format, row.code);
  }

  lemma EncodeAll(row: Row)
    requires IsInteger(row.format)
    ensures var f := AllBits(row.format);
      WellFormed(row.format, f) && Encode(Instruction(row, f)) == row.code | FieldBits(row.format)
  {
    hide WellFormed, Operands, FieldBits, AllBits;
    AllBitsFill(row.format);
  }

  lemma KeyDisturbed(code: bv32, bits: bv32)
    requires Apart(bits, 0xfc000000) && !IsCoprocessor1(code)
    requires Key(code) == code && Apart(code, bits) && !Apart(KeyMask(code), bits)
    ensures Key(code | bits) != code
  {
    SameMask(code, bits);
    Disturbed(code, bits, KeyMask(code));
  }

  lemma SameMask(code: bv32, bits: bv32)
    requires Apart(bits, 0xfc000000) && !IsCoprocessor1(code)
    ensures KeyMask(code | bits) == KeyMask(code)
  {
    assert (code | bits) & 0xfc000000 == code & 0xfc000000;
  }

  lemma Disturbed(code: bv32, bits: bv32, mask: bv32)
    requires Apart(code, bits) && !Apart(mask, bits)
    ensures (code | bits) & mask != code
  {
  }

  /** For an integer row that is not sound there are operands that do not go round. */
  lemma UnsoundFails(table: seq<Row>, row: Row) returns (f: Fields)
    requires InTable(row) && IsInteger(row.format) && !Sound(row)
    ensures WellFormed(row.format, f) && !RoundTrips(table, Instruction(row, f))
  {
    hide Key, WellFormed, Extract, FieldBits, IsMasked, IsCoprocessor1, SeenRows, Has, Regular, Ascends, Encode, Sound;
    if IsMasked(row) {
      MaskedRows(row);
    } else {
      TableIsRegular();
      EachRegular(SeenRows(), row);
      NotCoprocessor1(row);
    }
    f := FailingOperands(row);
    assert !DecodesTo(table, Encode(Instruction(row, f)), Some(Instruction(row, f)));
  }

  /** Decoding recovers every well-formed instruction of an integer row exactly if the row is sound. */
  lemma RoundTripExactly(table: seq<Row>, row: Row)
    requires OpcodeArray(table) && InTable(row) && IsInteger(row.format)
    ensures (forall f :: WellFormed(row.format, f) ==> RoundTrips(table, Instruction(row, f))) <==> Sound(row)
  {
    hide InTable, OpcodeArray, WellFormed, RoundTrips, Sound, IsInteger;
    if Sound(row) {
      forall f | WellFormed(row.format, f)
        ensures RoundTrips(table, Instruction(row, f))
      {
        SoundRoundTrip(table, row, f);
      }
    } else {
      var f := UnsoundFails(table, row);
    }
  }

  /** The rows that are not sound: those whose code the mask cuts, and synci and cop2. */
  lemma SoundRows(row: Row)
    requires InTable(row) && !row.format.Float?
    ensures Sound(row) <==> !IsMasked(row) && !Overlaps(row.code)
  {
    hide IsMasked, SeenRows, Has, Regular, Ascends, Key, IsCoprocessor1, Overlaps, Apart, FieldBits, KeyMask;
    if IsMasked(row) {
      MaskedRows(row);
    } else {
      TableIsRegular();
      EachRegular(SeenRows(), row);
    }
  }

  // ---- Jumps ---------------------------------------------------------------------------------------

  /** A jump (j or jal) goes round exactly if bit 24 of its target is clear: the mask that reads it has a hole there. */
  lemma JumpRoundTrip(table: seq<Row>, row: Row, f: Fields)
    requires OpcodeArray(table) && InTable(row) && row.format.J? && Sound(row) && WellFormed(J, f)
    ensures RoundTrips(table, Instruction(row, f)) <==> f.target & 0x01000000 == 0
  {
    hide InTable, Key, KeyMask, Extract, Operands, FieldBits, Apart, OpcodeArray, Encode, RoundTrips, WellFormed;
    var i := Instruction(row, f);
    KeyOfEncoding(row, f);
    TargetRead(row, f);
    if Extract(J, Encode(i)) == f {
      GoesRound(table, i);
    } else {
      DoesNotGoRound(table, i);
    }
  }

  lemma DoesNotGoRound(table: seq<Row>, i: Instruction)
    requires Extract(i.row.format, Encode(i)) != i.fields
    ensures !RoundTrips(table, i)
  {
    hide Extract, Encode, Key;
    assert !DecodesTo(table, Encode(i), Some(i));
  }

  lemma TargetRead(row: Row, f: Fields)
    requires row.format.J? && Apart(row.code, FieldBits(J)) && WellFormed(J, f)
    ensures Extract(J, Encode(Instruction(row, f))) == f <==> f.target & 0x01000000 == 0
  {
    Hole(row.code, f.target);
  }

  lemma Hole(code: bv32, target: bv32)
    requires code & 0x03ffffff == 0 && target < 0x4000000
    ensures (code | target) & 0x2ffffff == target <==> target & 0x01000000 == 0
  {
  }
}
