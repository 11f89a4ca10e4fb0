/** Forward references.  An instruction that mentions a label not yet defined is assembled with an
    empty field and recorded in the label's list of uses; defining the label fills the fields in.

    A load or store that needs a 32-bit address is assembled as LUI, an ADDU if it has a base
    register, and the access.  The access sign-extends its half of the address, so resolving it may
    have to add 1 to the other half, which is the business of the LUI one or two instructions
    earlier.  This works because uses are resolved newest first. */
module Symbols {
  import opened Options
  import opened Words
  import opened Isa
  import opened Immediates
  import opened ControlTransfer

  type Name = string

  /** An immediate expression: label + offset, or part of it, or its distance from the instruction. */
  datatype Expr = Expr(offset: word, symbol: Name, part: Part, pcRelative: bool)

  /** An instruction in the text segment, with the expression its field comes from. */
  datatype Entry = Entry(inst: Inst, expr: Option<Expr>)

  function Filled(e: Entry, imm: short): Entry {
    e.(inst := e.inst.(imm := imm))
  }

  function Aimed(e: Entry, target: word): Entry {
    e.(inst := e.inst.(target := target))
  }

  /** The value of an expression whose label has the given address. */
  function Eval(e: Expr, address: word): word {
    Evaluate(Constant(Wrap(e.offset + address), e.part))
  }

  /** Does the entry before an access hold the upper half of the same address, still unresolved? */
  predicate IsOwnLui(e: Entry, symbol: Name) {
    e.inst.op.LUI? && e.expr.Some? && e.expr.value.symbol == symbol && e.inst.imm == 0
  }

  function Bumped(e: Entry): Entry {
    if e.expr.Some? then e.(expr := Some(e.expr.value.(offset := Wrap(e.expr.value.offset + 0x1_0000)))) else e
  }

  /** The fix-up for a negative low half: the LUI directly before the access at index i, or else the
      one before that, gets 0x10000 more. */
  function CarryIntoLui(text: seq<Entry>, i: nat, symbol: Name): (r: seq<Entry>)
    requires i < |text|
    ensures |r| == |text|
  {
    if i >= 1 && IsOwnLui(text[i - 1], symbol) then text[i - 1 := Bumped(text[i - 1])]
    else if i >= 2 && IsOwnLui(text[i - 2], symbol) then text[i - 2 := Bumped(text[i - 2])]
    else text
  }

  /** resolve_a_label_sub: the instruction at index i, at address pc, learns the label's address. */
  function ResolveOne(text: seq<Entry>, i: nat, pc: word, address: word): (r: seq<Entry>)
    ensures |r| == |text|
  {
    if i >= |text| || text[i].expr.None? then text
    else
      var entry := text[i];
      var expr := if entry.expr.value.pcRelative then entry.expr.value.(offset := Wrap(0 - pc)) else entry.expr.value;
      var moved := entry.(expr := Some(expr));
      var value := Eval(expr, address);
      if IsBranch(entry.inst.op) then text[i := Filled(moved, BranchField(value))]
      else if TakesTarget(entry.inst.op) then text[i := Aimed(moved, JumpField(value))]
      else if IsLoadStore(entry.inst.op) && value / 0x8000 % 2 == 1 then
        CarryIntoLui(text, i, expr.symbol)[i := Filled(moved, ToShort(value))]
      else text[i := Filled(moved, ToShort(value))]
  }

  /** resolve_label_uses: all recorded uses, in the order of the list; index 0 is at address base. */
  function ResolveAll(text: seq<Entry>, base: int, uses: seq<nat>, address: word): (r: seq<Entry>)
    ensures |r| == |text|
    decreases |uses|
  {
    if uses == [] then text
    else ResolveAll(ResolveOne(text, uses[0], Wrap(base + 4 * uses[0]), address), base, uses[1..], address)
  }

  // ---- Assembling with undefined labels ------------------------------------------------------------

  /** One instruction of the source, or of the expansion of a pseudo-instruction; a branch says how
      many instructions of its source line come before it. */
  datatype Item =
    | Plain(inst: Inst)
    | Access(op: Opcode, rt: reg, rs: reg, symbol: Name, offset: word)
    | Compute(op: Opcode, rt: reg, rs: reg, symbol: Name, offset: word)
    | BranchTo(op: Opcode, rt: reg, rs: reg, symbol: Name, before: nat)
    | JumpTo(op: Opcode, symbol: Name)

  predicate ValidItem(item: Item) {
    match item
    case Plain(_) => true
    case Access(op, _, rs, _, _) => IsLoadStore(op) && rs != 1
    case Compute(op, _, rs, _, _) => IsComputation(op) && rs != 1
    case BranchTo(op, _, _, _, before) => IsBranch(op) && before < 0x1000
    case JumpTo(op, _) => TakesTarget(op)
  }

  predicate Mentions(item: Item, symbol: Name) {
    !item.Plain? && item.symbol == symbol
  }

  function Half(op: Opcode, rt: reg, rs: reg, symbol: Name, offset: word, part: Part): Entry {
    Entry(IType(op, rt, rs, 0), Some(Expr(offset, symbol, part, false)))
  }

  /** The entries emitted for an item, with empty fields. */
  function Emitted(item: Item): seq<Entry>
    requires ValidItem(item)
  {
    match item
    case Plain(i) => [Entry(i, None)]
    case Access(op, rt, rs, symbol, offset) =>
      [Half(LUI, 1, 0, symbol, offset, Upper16)]
      + (if rs != 0 then [Entry(RType(ADDU, 1, 1, rs), None)] else [])
      + [Half(op, rt, 1, symbol, offset, Lower16)]
    case Compute(op, rt, rs, symbol, offset) =>
      if (op.ORI? || op.ADDI? || op.ADDIU?) && rs == 0 then
        [Half(LUI, 1, 0, symbol, offset, Upper16), Half(ORI, rt, 1, symbol, offset, Lower16)]
      else
        [Half(LUI, 1, 0, symbol, offset, Upper16), Half(ORI, 1, 1, symbol, offset, Lower16),
         Entry(RType(ImmediateOpToOp(op), rt, rs, 1), None)]
    case BranchTo(op, rt, rs, symbol, _) =>
      [Entry(IType(op, rt, rs, 0), Some(Expr(0, symbol, Lower16, true)))]
    case JumpTo(op, symbol) =>
      [Entry(JType(op, 0), Some(Expr(0, symbol, Whole, false)))]
  }

  /** The indices recorded as uses of its label, newest first, for an item that begins at index i. */
  function UsesIn(item: Item, i: nat): seq<nat> {
    match item
    case Plain(_) => []
    case Access(_, _, rs, _, _) => [if rs != 0 then i + 2 else i + 1, i]
    case Compute(_, _, _, _, _) => [i + 1, i]
    case BranchTo(_, _, _, _, _) => [i]
    case JumpTo(_, _) => [i]
  }

  // ---- What the fields must become -----------------------------------------------------------------

  /** The upper half that makes up for the sign extension of the lower one. */
  function UpperField(v: word): short {
    ToShort(Wrap(v + 0x8000) / TWO16)
  }

  /** The instructions of an item that begins at address pc, once its label has its address. */
  function Resolved(item: Item, pc: word, address: word): seq<Inst>
    requires ValidItem(item)
  {
    match item
    case Plain(i) => [i]
    case Access(op, rt, rs, _, offset) =>
      var v := Wrap(offset + address);
      [IType(LUI, 1, 0, UpperField(v))]
      + (if rs != 0 then [RType(ADDU, 1, 1, rs)] else [])
      + [IType(op, rt, 1, ToShort(v))]
    case Compute(op, rt, rs, _, offset) =>
      var v := Wrap(offset + address);
      if (op.ORI? || op.ADDI? || op.ADDIU?) && rs == 0 then
        [IType(LUI, 1, 0, ToShort(v / TWO16)), IType(ORI, rt, 1, ToShort(v))]
      else
        [IType(LUI, 1, 0, ToShort(v / TWO16)), IType(ORI, 1, 1, ToShort(v)),
         RType(ImmediateOpToOp(op), rt, rs, 1)]
    case BranchTo(op, rt, rs, _, _) =>
      [IType(op, rt, rs, LabelField(false, true, pc, address))]
    case JumpTo(op, _) =>
      [JType(op, JumpField(address))]
  }

  /** The instructions of an item whose label is known already. */
  function KnownCode(item: Item, pc: word, address: word): seq<Inst>
    requires ValidItem(item)
  {
    match item
    case Plain(i) => [i]
    case Access(op, rt, rs, _, offset) => Code(op, rt, rs, Wrap(offset + address))
    case Compute(op, rt, rs, _, offset) => Code(op, rt, rs, Wrap(offset + address))
    case BranchTo(op, rt, rs, _, before) =>
      [IType(op, rt, rs, LabelField(false, CutToLower(true, Wrap(pc - 4 * before), address), pc, address))]
    case JumpTo(op, _) =>
      [JType(op, JumpField(address))]
  }

  function Insts(text: seq<Entry>): (r: seq<Inst>)
    ensures |r| == |text| && forall k :: 0 <= k < |text| ==> r[k] == text[k].inst
  {
    seq(|text|, k requires 0 <= k < |text| => text[k].inst)
  }

  // ---- The whole text ------------------------------------------------------------------------------

  /** Whether the label of an item was known when it was assembled, or came later.  A use is lost when
      its label is defined with address 0, which drops the list of uses and leaves the label undefined. */
  datatype Status = Early | Late | Lost

  datatype Line = Line(item: Item, status: Status)

  predicate ValidLine(line: Line) {
    ValidItem(line.item) && (line.item.Plain? ==> line.status.Early?)
  }

  /** What a line must be in the end. */
  function Final(line: Line, pc: word, address: word): seq<Inst>
    requires ValidItem(line.item)
  {
    if line.status.Early? then KnownCode(line.item, pc, address) else Resolved(line.item, pc, address)
  }

  /** The state of a line's entries while some labels have their addresses and others do not: what it
      must be in the end, or still as emitted. */
  ghost predicate BlockFor(line: Line, block: seq<Entry>, pc: word, addresses: map<Name, word>) {
    && ValidLine(line)
    && if line.item.Plain? then Insts(block) == [line.item.inst]
       else if line.status.Lost? then block == Emitted(line.item)
       else if line.item.symbol in addresses then Insts(block) == Final(line, pc, addresses[line.item.symbol])
       else line.status.Late? && block == Emitted(line.item)
  }

  function Flat(blocks: seq<seq<Entry>>): seq<Entry> {
    if blocks == [] then [] else Flat(blocks[..|blocks| - 1]) + blocks[|blocks| - 1]
  }

  ghost predicate BlocksFor(lines: seq<Line>, blocks: seq<seq<Entry>>, base: int, addresses: map<Name, word>) {
    && |lines| == |blocks|
    && forall k :: 0 <= k < |lines| ==> BlockFor(lines[k], blocks[k], Wrap(base + 4 * |Flat(blocks[..k])|), addresses)
  }

  predicate Waits(line: Line, symbol: Name) {
    line.status.Late? && Mentions(line.item, symbol)
  }

  /** The recorded uses of an undefined label: those of a later line come before those of an earlier one. */
  function Pending(lines: seq<Line>, blocks: seq<seq<Entry>>, symbol: Name): seq<nat>
    requires |lines| == |blocks|
  {
    if lines == [] then []
    else
      var n := |lines| - 1;
      (if Waits(lines[n], symbol) then UsesIn(lines[n].item, |Flat(blocks[..n])|) else [])
      + Pending(lines[..n], blocks[..n], symbol)
  }

  // ---- One item ------------------------------------------------------------------------------------

  /** Resolving inside the front of a text does not look at what follows it. */
  lemma ResolveFront(front: seq<Entry>, back: seq<Entry>, i: nat, pc: word, address: word)
    requires i < |front|
    ensures ResolveOne(front + back, i, pc, address) == ResolveOne(front, i, pc, address) + back
  {
    hide Eval, BranchField, ToShort, IsBranch, IsLoadStore, Wrap, IsOwnLui;
  }

  lemma {:induction false} ResolveAllFront(front: seq<Entry>, back: seq<Entry>, base: int, uses: seq<nat>, address: word)
    requires forall k :: 0 <= k < |uses| ==> uses[k] < |front|
    ensures ResolveAll(front + back, base, uses, address) == ResolveAll(front, base, uses, address) + back
    decreases |uses|
  {
    hide ResolveOne;
    if uses != [] {
      ResolveFront(front, back, uses[0], Wrap(base + 4 * uses[0]), address);
      ResolveAllFront(ResolveOne(front, uses[0], Wrap(base + 4 * uses[0]), address), back, base, uses[1..], address);
    }
  }

  lemma {:induction false} ResolveAllAppend(text: seq<Entry>, base: int, us: seq<nat>, vs: seq<nat>, address: word)
    ensures ResolveAll(text, base, us + vs, address) == ResolveAll(ResolveAll(text, base, us, address), base, vs, address)
    decreases |us|
  {
    hide ResolveOne;
    if us == [] {
      assert us + vs == vs;
    } else {
      assert (us + vs)[1..] == us[1..] + vs;
      ResolveAllAppend(ResolveOne(text, us[0], Wrap(base + 4 * us[0]), address), base, us[1..], vs, address);
    }
  }

  lemma CarryArithmetic(offset: word, address: word)
    ensures var v := Wrap(offset + address);
      && v % TWO16 / 0x8000 % 2 == (if v % TWO16 >= 0x8000 then 1 else 0)
      && Wrap(Wrap(offset + 0x1_0000) + address) == Wrap(v + 0x1_0000)
      && (v % TWO16 >= 0x8000 ==> ToShort(Wrap(v + 0x1_0000) / TWO16) == UpperField(v))
      && (v % TWO16 < 0x8000 ==> ToShort(v / TWO16) == UpperField(v))
      && ToShort(v % TWO16) == ToShort(v)
  {
    hide Wrap;
    var v := Wrap(offset + address);
    WrapSteps(offset + 0x1_0000, address);
    WrapSteps(offset + address, 0x1_0000);
    if v % TWO16 >= 0x8000 {
      UpperAfterNegative(v);
    } else {
      UpperAfterPositive(v);
    }
  }

  lemma UpperAfterNegative(v: word)
    requires v % TWO16 >= 0x8000
    ensures Wrap(v + 0x1_0000) / TWO16 == Wrap(v + 0x8000) / TWO16
  {
    hide Wrap;
    var h, l := v / TWO16, v % TWO16;
    if h == 0xffff {
      WrapNear(v + 0x1_0000);
      WrapNear(v + 0x8000);
    } else {
      SmallWrap(v + 0x1_0000);
      SmallWrap(v + 0x8000);
      QuotientIs(v + 0x1_0000, TWO16, h + 1, l);
      QuotientIs(v + 0x8000, TWO16, h + 1, l - 0x8000);
    }
  }

  lemma UpperAfterPositive(v: word)
    requires v % TWO16 < 0x8000
    ensures v / TWO16 == Wrap(v + 0x8000) / TWO16
  {
    hide Wrap;
    SmallWrap(v + 0x8000);
    QuotientIs(v + 0x8000, TWO16, v / TWO16, v % TWO16 + 0x8000);
  }

  // Resolving an access fills its own field and, for a negative low half, bumps its own LUI.
  lemma AccessResolves(front: seq<Entry>, item: Item, pc: word, address: word)
    requires item.Access? && ValidItem(item)
    ensures var text, n, i := front + Emitted(item), |front|, UsesIn(item, |front|)[0];
      var v := Wrap(item.offset + address);
      var carry := v % TWO16 >= 0x8000;
      var lui := if carry then Bumped(text[n]) else text[n];
      ResolveOne(text, i, pc, address) == text[n := lui][i := Filled(text[i], ToShort(v))]
  {
    hide Wrap, ToShort, IsBranch, IsLoadStore, UpperField;
    var text, i := front + Emitted(item), UsesIn(item, |front|)[0];
    CarryArithmetic(item.offset, address);
    NotBranch(item.op);
    var v := Wrap(item.offset + address);
    assert Eval(text[i].expr.value, address) == v % TWO16;
  }

  lemma NotBranch(op: Opcode)
    ensures IsLoadStore(op) || TakesTarget(op) ==> !IsBranch(op)
    ensures IsLoadStore(op) ==> !TakesTarget(op)
    ensures !IsBranch(LUI) && !IsLoadStore(LUI) && !IsBranch(ORI) && !IsLoadStore(ORI)
  {
  }

  lemma LuiResolves(text: seq<Entry>, n: nat, pc: word, address: word)
    requires n < |text| && (text[n].inst.op.LUI? || text[n].inst.op.ORI?) && text[n].expr.Some? && !text[n].expr.value.pcRelative
    ensures ResolveOne(text, n, pc, address) == text[n := Filled(text[n], ToShort(Eval(text[n].expr.value, address)))]
  {
    hide Eval, ToShort, Wrap;
  }

  /** The uses of the last item of a text resolve that item completely and nothing else. */
  lemma LastItem(front: seq<Entry>, item: Item, base: int, symbol: Name, address: word) returns (last: seq<Entry>)
    requires ValidItem(item) && Mentions(item, symbol)
    ensures ResolveAll(front + Emitted(item), base, UsesIn(item, |front|), address) == front + last
    ensures Insts(last) == Resolved(item, Wrap(base + 4 * |front|), address)
  {
    var n := |front|;
    match item
    case Access(_, _, _, _, _) =>
      last := LastAccess(front, item, base, address);
    case Compute(_, _, _, _, _) =>
      last := LastCompute(front, item, base, address);
    case BranchTo(_, _, _, _, _) =>
      last := LastBranch(front, item, base, address);
    case JumpTo(_, _) =>
      last := LastJump(front, item, base, address);
  }

  lemma TwoUses(text: seq<Entry>, base: int, i: nat, j: nat, address: word)
    ensures ResolveAll(text, base, [i, j], address)
            == ResolveOne(ResolveOne(text, i, Wrap(base + 4 * i), address), j, Wrap(base + 4 * j), address)
    ensures ResolveAll(text, base, [i], address) == ResolveOne(text, i, Wrap(base + 4 * i), address)
  {
    hide ResolveOne;
    assert [i, j][1..] == [j] && [j][1..] == [] && [i][1..] == [];
    var next := ResolveOne(text, i, Wrap(base + 4 * i), address);
    assert ResolveAll(next, base, [j], address) == ResolveAll(ResolveOne(next, j, Wrap(base + 4 * j), address), base, [], address);
    assert ResolveAll(text, base, [i, j], address) == ResolveAll(next, base, [j], address);
  }

  lemma LastAccess(front: seq<Entry>, item: Item, base: int, address: word) returns (last: seq<Entry>)
    requires item.Access? && ValidItem(item)
    ensures ResolveAll(front + Emitted(item), base, UsesIn(item, |front|), address) == front + last
    ensures Insts(last) == Resolved(item, Wrap(base + 4 * |front|), address)
  {
    hide ResolveOne, ResolveAll, Wrap, ToShort, UpperField, IsLoadStore;
    var text, n, i := front + Emitted(item), |front|, UsesIn(item, |front|)[0];
    var v := Wrap(item.offset + address);
    TwoUses(text, base, i, n, address);
    AccessResolves(front, item, Wrap(base + 4 * i), address);
    CarryArithmetic(item.offset, address);
    var next := ResolveOne(text, i, Wrap(base + 4 * i), address);
    assert next[n] == if v % TWO16 >= 0x8000 then Bumped(text[n]) else text[n];
    LuiResolves(next, n, Wrap(base + 4 * n), address);
    var lui := Filled(next[n], UpperField(v));
    assert ToShort(Eval(next[n].expr.value, address)) == UpperField(v);
    last := Emitted(item)[0 := lui][i - n := Filled(text[i], ToShort(v))];
    assert next[n := lui] == front + last;
  }

  lemma LastCompute(front: seq<Entry>, item: Item, base: int, address: word) returns (last: seq<Entry>)
    requires item.Compute? && ValidItem(item)
    ensures ResolveAll(front + Emitted(item), base, UsesIn(item, |front|), address) == front + last
    ensures Insts(last) == Resolved(item, Wrap(base + 4 * |front|), address)
  {
    hide ResolveOne, ResolveAll, Wrap, ToShort, IsComputation;
    var text, n := front + Emitted(item), |front|;
    var v := Wrap(item.offset + address);
    TwoUses(text, base, n + 1, n, address);
    LuiResolves(text, n + 1, Wrap(base + 4 * (n + 1)), address);
    CarryArithmetic(item.offset, address);
    var next := ResolveOne(text, n + 1, Wrap(base + 4 * (n + 1)), address);
    LuiResolves(next, n, Wrap(base + 4 * n), address);
    last := Emitted(item)[1 := Filled(text[n + 1], ToShort(v))][0 := Filled(text[n], ToShort(v / TWO16))];
    assert next[n := Filled(text[n], ToShort(v / TWO16))] == front + last;
  }

  lemma LastBranch(front: seq<Entry>, item: Item, base: int, address: word) returns (last: seq<Entry>)
    requires item.BranchTo? && ValidItem(item)
    ensures ResolveAll(front + Emitted(item), base, UsesIn(item, |front|), address) == front + last
    ensures Insts(last) == Resolved(item, Wrap(base + 4 * |front|), address)
  {
    hide ResolveAll, BranchField, IsBranch;
    var text, n, pc := front + Emitted(item), |front|, Wrap(base + 4 * |front|);
    TwoUses(text, base, n, n, address);
    var entry := text[n];
    var moved := entry.(expr := Some(entry.expr.value.(offset := Wrap(0 - (pc as int)))));
    WrapSteps(0 - (pc as int), address);
    assert Eval(moved.expr.value, address) == Wrap(address - pc) % TWO16;
    last := [Filled(moved, LabelField(false, true, pc, address))];
    assert text[n := last[0]] == front + last;
  }

  lemma LastJump(front: seq<Entry>, item: Item, base: int, address: word) returns (last: seq<Entry>)
    requires item.JumpTo? && ValidItem(item)
    ensures ResolveAll(front + Emitted(item), base, UsesIn(item, |front|), address) == front + last
    ensures Insts(last) == Resolved(item, Wrap(base + 4 * |front|), address)
  {
    hide ResolveAll, JumpField, IsBranch, Wrap;
    var text, n := front + Emitted(item), |front|;
    TwoUses(text, base, n, n, address);
    NotBranch(item.op);
    SmallWrap(address);
    assert Eval(text[n].expr.value, address) == address;
    last := [Aimed(text[n], JumpField(address))];
    assert text[n := last[0]] == front + last;
  }

  // ---- All lines -----------------------------------------------------------------------------------

  lemma {:induction false} PendingInText(lines: seq<Line>, blocks: seq<seq<Entry>>, base: int, symbol: Name, addresses: map<Name, word>)
    requires BlocksFor(lines, blocks, base, addresses) && symbol !in addresses
    ensures forall k :: 0 <= k < |Pending(lines, blocks, symbol)| ==> Pending(lines, blocks, symbol)[k] < |Flat(blocks)|
  {
    hide Insts, Resolved, KnownCode, Wrap, ValidItem;
    if lines != [] {
      var n := |lines| - 1;
      FrontBlocks(lines, blocks, base, addresses);
      PendingInText(lines[..n], blocks[..n], base, symbol, addresses);
    }
  }

  lemma FrontBlocks(lines: seq<Line>, blocks: seq<seq<Entry>>, base: int, addresses: map<Name, word>)
    requires BlocksFor(lines, blocks, base, addresses) && lines != []
    ensures BlocksFor(lines[..|lines| - 1], blocks[..|lines| - 1], base, addresses)
  {
    hide BlockFor, Wrap, Flat;
    var n := |lines| - 1;
    forall k | 0 <= k < n
      ensures BlockFor(lines[..n][k], blocks[..n][k], Wrap(base + 4 * |Flat(blocks[..n][..k])|), addresses)
    {
      assert blocks[..n][..k] == blocks[..k];
    }
  }

  lemma LastBlock(lines: seq<Line>, blocks: seq<seq<Entry>>, base: int, addresses: map<Name, word>, symbol: Name)
    requires BlocksFor(lines, blocks, base, addresses) && lines != []
    ensures var n := |lines| - 1;
      && BlockFor(lines[n], blocks[n], Wrap(base + 4 * |Flat(blocks[..n])|), addresses)
      && Flat(blocks) == Flat(blocks[..n]) + blocks[n]
      && Pending(lines, blocks, symbol)
         == (if Waits(lines[n], symbol) then UsesIn(lines[n].item, |Flat(blocks[..n])|) else [])
            + Pending(lines[..n], blocks[..n], symbol)
  {
    hide BlockFor, Wrap, Waits, UsesIn;
  }

  lemma SameCount(lines: seq<Line>, blocks: seq<seq<Entry>>, base: int, addresses: map<Name, word>)
    requires BlocksFor(lines, blocks, base, addresses)
    ensures |lines| == |blocks|
  {
  }

  lemma NoLines(base: int, addresses: map<Name, word>, symbol: Name)
    ensures BlocksFor([], [], base, addresses) && Flat([]) == [] && Pending([], [], symbol) == []
  {
  }

  lemma {:induction false} FlatLength(a: seq<seq<Entry>>, b: seq<seq<Entry>>)
    requires |a| == |b| && forall k :: 0 <= k < |a| ==> |a[k]| == |b[k]|
    ensures |Flat(a)| == |Flat(b)|
  {
    if a != [] {
      FlatLength(a[..|a| - 1], b[..|b| - 1]);
    }
  }

  lemma AddBlock(lines: seq<Line>, blocks: seq<seq<Entry>>, base: int, addresses: map<Name, word>, line: Line, block: seq<Entry>)
    requires BlocksFor(lines, blocks, base, addresses)
    requires BlockFor(line, block, Wrap(base + 4 * |Flat(blocks)|), addresses)
    ensures BlocksFor(lines + [line], blocks + [block], base, addresses)
    ensures Flat(blocks + [block]) == Flat(blocks) + block
  {
    hide BlockFor, Wrap, Flat;
    var ls, bs, n := lines + [line], blocks + [block], |lines|;
    forall k | 0 <= k < |ls|
      ensures BlockFor(ls[k], bs[k], Wrap(base + 4 * |Flat(bs[..k])|), addresses)
    {
      assert bs[..k] == blocks[..k];
      assert k == n ==> blocks[..k] == blocks;
    }
    FlatAdd(blocks, block);
  }

  lemma FlatAdd(blocks: seq<seq<Entry>>, block: seq<Entry>)
    ensures Flat(blocks + [block]) == Flat(blocks) + block
  {
    assert (blocks + [block])[..|blocks|] == blocks;
  }

  lemma InstsAppend(a: seq<Entry>, b: seq<Entry>)
    ensures Insts(a + b) == Insts(a) + Insts(b)
  {
  }

  // A line that does not wait for the label is as it must be, before and after its definition.
  lemma NotWaiting(line: Line, block: seq<Entry>, pc: word, addresses: map<Name, word>, symbol: Name, address: word)
    requires BlockFor(line, block, pc, addresses) && symbol !in addresses && !Waits(line, symbol)
    ensures BlockFor(line, block, pc, addresses[symbol := address])
  {
    hide Insts, Resolved, KnownCode, ValidItem;
  }

  lemma WaitingLine(line: Line, block: seq<Entry>, after: seq<Entry>, pc: word, addresses: map<Name, word>, symbol: Name, address: word)
    requires BlockFor(line, block, pc, addresses) && symbol !in addresses && Waits(line, symbol)
    ensures block == Emitted(line.item) && ValidItem(line.item)
    ensures Insts(after) == Resolved(line.item, pc, address) ==> BlockFor(line, after, pc, addresses[symbol := address])
  {
    hide Insts, Resolved, KnownCode, ValidItem;
  }

  /** Defining a label: every line that waited for it becomes what it must be, wherever it stands
      among other lines, and every other line stays as it was. */
  lemma {:induction false} DefinitionResolves(lines: seq<Line>, blocks: seq<seq<Entry>>, base: int,
                                              addresses: map<Name, word>, symbol: Name, address: word)
    returns (resolved: seq<seq<Entry>>)
    requires BlocksFor(lines, blocks, base, addresses) && symbol !in addresses
    ensures BlocksFor(lines, resolved, base, addresses[symbol := address])
    ensures Flat(resolved) == ResolveAll(Flat(blocks), base, Pending(lines, blocks, symbol), address)
    ensures forall k :: 0 <= k < |lines| ==>
              |resolved[k]| == |blocks[k]| && (!Waits(lines[k], symbol) ==> resolved[k] == blocks[k])
    decreases |lines|
  {
    hide ResolveAll, BlocksFor, BlockFor, UsesIn, Wrap, Waits, Flat, Pending;
    SameCount(lines, blocks, base, addresses);
    if lines == [] {
      resolved := [];
      NoLines(base, addresses[symbol := address], symbol);
      NoUses([], base, address);
    } else {
      var n := |lines| - 1;
      var front, line, block := Flat(blocks[..n]), lines[n], blocks[n];
      var uses := Pending(lines[..n], blocks[..n], symbol);
      FrontBlocks(lines, blocks, base, addresses);
      LastBlock(lines, blocks, base, addresses, symbol);
      PendingInText(lines[..n], blocks[..n], base, symbol, addresses);
      var before := DefinitionResolves(lines[..n], blocks[..n], base, addresses, symbol, address);
      var last, mine := LastLine(front, line, block, base, addresses, symbol, address);
      ResolveAllAppend(front + block, base, mine, uses, address);
      ResolveAllFront(front, last, base, uses, address);
      SameCount(lines[..n], before, base, addresses[symbol := address]);
      FlatLength(before, blocks[..n]);
      AddBlock(lines[..n], before, base, addresses[symbol := address], line, last);
      resolved := before + [last];
      assert lines[..n] + [line] == lines;
    }
  }

  // The last line's own part of that.
  lemma LastLine(front: seq<Entry>, line: Line, block: seq<Entry>, base: int,
                 addresses: map<Name, word>, symbol: Name, address: word)
    returns (last: seq<Entry>, mine: seq<nat>)
    requires BlockFor(line, block, Wrap(base + 4 * |front|), addresses) && symbol !in addresses
    ensures ValidItem(line.item) && mine == if Waits(line, symbol) then UsesIn(line.item, |front|) else []
    ensures ResolveAll(front + block, base, mine, address) == front + last && |last| == |block|
    ensures BlockFor(line, last, Wrap(base + 4 * |front|), addresses[symbol := address])
    ensures !Waits(line, symbol) ==> last == block
  {
    hide ResolveAll, Resolved, Insts, UsesIn, Emitted, Wrap, ValidItem, KnownCode;
    if Waits(line, symbol) {
      last := LastItem(front, line.item, base, symbol, address);
      mine := UsesIn(line.item, |front|);
      WaitingLine(line, block, last, Wrap(base + 4 * |front|), addresses, symbol, address);
    } else {
      last, mine := block, [];
      NoUses(front + block, base, address);
      NotWaiting(line, block, Wrap(base + 4 * |front|), addresses, symbol, address);
    }
  }

  lemma NoUses(text: seq<Entry>, base: int, address: word)
    ensures ResolveAll(text, base, [], address) == text
  {
  }

  // ---- Running the patched text --------------------------------------------------------------------

  /** A patched access: what comes before it touches only $1, and it accesses R[rs] + label + offset
      modulo 2^32, for every label address and also when the low half is sign-extended. */
  lemma SymbolAccessCorrect(text: Text, s: State, item: Item, address: word) returns (n: nat)
    requires item.Access? && ValidItem(item) && s.outcome == Running
    requires Placed(text, s.PC, Resolved(item, s.PC, address))
    ensures n + 1 == |Resolved(item, s.PC, address)|
    ensures var t, access := Run(text, s, n), Resolved(item, s.PC, address)[n];
      && t.outcome == Running && t.PC == s.PC + 4 * n && t.PC in text && text[t.PC] == access
      && OnlyRegs(s, t, {1})
      && access.op == item.op && access.rt == item.rt
      && EffectiveAddress(access, t) == Wrap(Reg(s, item.rs) + Wrap(item.offset + address))
  {
    hide ToShort, Wrap, Run, IsLoadStore;
    var v, code := Wrap(item.offset + address), Resolved(item, s.PC, address);
    var high: half := Wrap((v as int) + 0x8000) / TWO16;
    FirstTwo(text, s.PC, code);
    HighPart(text, s, item.rs, high, [IType(item.op, item.rt, 1, ToShort(v))]);
    PatchedHalves(v, Reg(s, item.rs));
    n := if item.rs != 0 then 2 else 1;
  }

  // The patched upper half and the sign-extended lower half add up to v.
  lemma PatchedHalves(v: word, base: word)
    ensures Wrap(Wrap(Wrap(v + 0x8000) / TWO16 * TWO16 + base) + ToShort(v)) == Wrap(base + v)
  {
    hide Wrap;
    var high: int := Wrap(v + 0x8000) / TWO16;
    if AdjustedHigh(v) < TWO16 {
      HalvesAddUp(v, base);
      CarryOrNot(v);
    } else {
      CarryOrNot(v);
      SmallWrap(base);
      WrapSteps(base - TWO32, v);
      WrapLess(base + v);
    }
  }

  lemma CarryOrNot(v: word)
    ensures Wrap(v + 0x8000) / TWO16 == if AdjustedHigh(v) < TWO16 then AdjustedHigh(v) else 0
    ensures AdjustedHigh(v) == TWO16 ==> ToShort(v) == v - TWO32
  {
    hide Wrap;
    if v % TWO16 < 0x8000 {
      UpperAfterPositive(v);
    } else if v / TWO16 == 0xffff {
      WrapNear(v + 0x8000);
    } else {
      SmallWrap(v + 0x8000);
      QuotientIs(v + 0x8000, TWO16, v / TWO16 + 1, v % TWO16 - 0x8000);
    }
  }

  lemma WrapLess(x: int)
    ensures Wrap(x - TWO32) == Wrap(x)
  {
  }

  /** A patched computation gives rt what the operation means with label + offset as its operand. */
  lemma SymbolComputeCorrect(text: Text, s: State, item: Item, address: word) returns (n: nat)
    requires item.Compute? && ValidItem(item) && s.outcome == Running
    requires Placed(text, s.PC, Resolved(item, s.PC, address))
    ensures n == |Resolved(item, s.PC, address)|
    ensures Computed(s, Run(text, s, n), n, item.rt, Meant(item.op, Reg(s, item.rs), Wrap(item.offset + address)))
  {
    hide ToShort, Wrap, Run, IsComputation, Meant, ImmediateOpToOp, Placed, Computed;
    var v, code := Wrap(item.offset + address), Resolved(item, s.PC, address);
    n := |code|;
    assert code[..2] + code[2..] == code;
    PlacedParts(text, s.PC, code[..2], code[2..]);
    if n == 2 {
      LuiThenOri(text, s, item.rt, v, code);
      ZeroOperand(item.op, v);
      ComputedValue(s, Run(text, s, 2), 2, item.rt, v);
    } else {
      LuiThenOri(text, s, 1, v, code[..2]);
      ThirdOne(text, s, item, v, code[2]);
    }
  }

  lemma ComputedValue(s: State, t: State, n: nat, rt: reg, v: word)
    requires t.outcome == Running && t.PC == s.PC + 4 * n && t.R[rt] == v && OnlyRegs(s, t, {1, rt})
    ensures Computed(s, t, n, rt, Value(v))
  {
  }

  lemma ThirdOne(text: Text, s: State, item: Item, v: word, last: Inst)
    requires item.Compute? && ValidItem(item) && s.outcome == Running
    requires last == RType(ImmediateOpToOp(item.op), item.rt, item.rs, 1)
    requires Placed(text, s.PC + 8, [last])
    requires var t := Run(text, s, 2);
      t.outcome == Running && t.PC == s.PC + 8 && t.R[1] == v && OnlyRegs(s, t, {1})
    ensures Computed(s, Run(text, s, 3), 3, item.rt, Meant(item.op, Reg(s, item.rs), v))
  {
    hide Run, Perform, Wrap, IsComputation, Meant, ImmediateOpToOp;
    var t := Run(text, s, 2);
    FirstTwo(text, s.PC + 8, [last]);
    RegisterForm(t, item.op, item.rt, item.rs, v);
    StepTo(text, s, 2, t, last);
    SmallWrap(t.PC + 4);
  }

  lemma LuiThenOri(text: Text, s: State, rt: reg, v: word, code: seq<Inst>)
    requires s.outcome == Running
    requires code == [IType(LUI, 1, 0, ToShort(v / TWO16)), IType(ORI, rt, 1, ToShort(v))]
    requires Placed(text, s.PC, code)
    ensures var t := Run(text, s, 2);
      t.outcome == Running && t.PC == s.PC + 8 && t.R[rt] == v && OnlyRegs(s, t, {1, rt})
  {
    hide ToShort, Perform, Or, Wrap;
    FirstTwo(text, s.PC, code);
    SmallWrap(s.PC + 4);
    SmallWrap(s.PC + 8);
    LuiOri(v);
    ShortRoundTrip(v / TWO16);
    ShortRoundTrip(v % TWO16);
    LowShort(v);
    assert Run(text, s, 0) == s;
    hide Run;
    DoLuiOrOri(s, 1, 0, ToShort(v / TWO16), 0);
    StepTo(text, s, 0, s, code[0]);
    var s1 := After(s, 1, v / TWO16 * TWO16);
    DoLuiOrOri(s1, rt, 1, 0, ToShort(v));
    StepTo(text, s, 1, s1, code[1]);
  }

  lemma LowShort(v: word)
    ensures ToShort(v % TWO16) == ToShort(v)
  {
  }

  /** The block of the k-th line, in the whole text. */
  lemma {:induction false} BlockAt(blocks: seq<seq<Entry>>, k: nat) returns (rest: seq<Entry>)
    requires k < |blocks|
    ensures Flat(blocks) == Flat(blocks[..k]) + blocks[k] + rest
    decreases |blocks|
  {
    var n := |blocks| - 1;
    if k < n {
      assert blocks[..n][..k] == blocks[..k];
      rest := BlockAt(blocks[..n], k);
      rest := rest + blocks[n];
    } else {
      rest := [];
    }
  }

  lemma BlockPlaced(text: Text, base: int, blocks: seq<seq<Entry>>, k: nat)
    requires k < |blocks| && Placed(text, base, Insts(Flat(blocks)))
    ensures 0 <= base && Placed(text, base + 4 * |Flat(blocks[..k])|, Insts(blocks[k]))
  {
    hide Flat, Insts, Placed;
    SmallPlace(text, base, Insts(Flat(blocks)));
    var rest := BlockAt(blocks, k);
    var front := Flat(blocks[..k]);
    InstsAppend(front + blocks[k], rest);
    InstsAppend(front, blocks[k]);
    PlacedParts(text, base, Insts(front + blocks[k]), Insts(rest));
    PlacedParts(text, base, Insts(front), Insts(blocks[k]));
  }

  lemma SmallPlace(text: Text, base: int, code: seq<Inst>)
    requires Placed(text, base, code)
    ensures 0 <= base < TWO32
  {
  }

  lemma FinalBlock(line: Line, block: seq<Entry>, pc: word, addresses: map<Name, word>)
    requires BlockFor(line, block, pc, addresses)
    requires !line.item.Plain? && !line.status.Lost? && line.item.symbol in addresses
    ensures ValidItem(line.item) && Insts(block) == Final(line, pc, addresses[line.item.symbol])
  {
    hide Insts, Final;
  }

  /** From source to effective address: wherever a load or store stands in the assembled text, and
      whether its label was defined before or after it, once the label has an address the code accesses
      R[rs] + label + offset and touches nothing but $1 on the way.  The one exception is a sum that
      was known to fit 16 bits unsigned when the line was assembled. */
  lemma AssembledAccessCorrect(lines: seq<Line>, blocks: seq<seq<Entry>>, base: int, addresses: map<Name, word>,
                               k: nat, text: Text, s: State)
    returns (n: nat)
    requires BlocksFor(lines, blocks, base, addresses) && Placed(text, base, Insts(Flat(blocks)))
    requires k < |lines| && lines[k].item.Access? && lines[k].item.symbol in addresses && !lines[k].status.Lost?
    requires s.outcome == Running && s.PC == base + 4 * |Flat(blocks[..k])|
    ensures n + 1 == |blocks[k]|
    ensures var t, item := Run(text, s, n), lines[k].item;
      var v := Wrap(item.offset + addresses[item.symbol]);
      && t.outcome == Running && t.PC == s.PC + 4 * n && t.PC in text
      && OnlyRegs(s, t, {1})
      && text[t.PC].op == item.op && text[t.PC].rt == item.rt
      && (EffectiveAddress(text[t.PC], t) == Wrap(Reg(s, item.rs) + v) <==> !(lines[k].status.Early? && Misassembled(v)))
  {
    hide Wrap, Run, EffectiveAddress, Flat, Emitted, Resolved, Code, Insts, IsLoadStore, Placed, BlockFor, Misassembled;
    var line, item := lines[k], lines[k].item;
    BlockPlaced(text, base, blocks, k);
    SmallWrap(s.PC);
    FinalBlock(line, blocks[k], s.PC, addresses);
    if line.status.Early? {
      n := AddressCorrect(text, s, item.op, item.rt, item.rs, Wrap(item.offset + addresses[item.symbol]));
    } else {
      n := SymbolAccessCorrect(text, s, item, addresses[item.symbol]);
    }
  }

  /** The same for a computation with a label as its operand: there is no exception. */
  lemma AssembledComputeCorrect(lines: seq<Line>, blocks: seq<seq<Entry>>, base: int, addresses: map<Name, word>,
                                k: nat, text: Text, s: State)
    returns (n: nat)
    requires BlocksFor(lines, blocks, base, addresses) && Placed(text, base, Insts(Flat(blocks)))
    requires k < |lines| && lines[k].item.Compute? && lines[k].item.symbol in addresses && !lines[k].status.Lost?
    requires s.outcome == Running && s.PC == base + 4 * |Flat(blocks[..k])|
    ensures n == |blocks[k]|
    ensures var item := lines[k].item;
      ValidItem(item) &&
      Computed(s, Run(text, s, n), n, item.rt, Meant(item.op, Reg(s, item.rs), Wrap(item.offset + addresses[item.symbol])))
  {
    hide Wrap, Run, Flat, Emitted, Resolved, Code, Insts, IsComputation, Placed, BlockFor, Computed, Meant;
    var line, item := lines[k], lines[k].item;
    BlockPlaced(text, base, blocks, k);
    SmallWrap(s.PC);
    FinalBlock(line, blocks[k], s.PC, addresses);
    if line.status.Early? {
      n := ComputationCorrect(text, s, item.op, item.rt, item.rs, Wrap(item.offset + addresses[item.symbol]));
    } else {
      n := SymbolComputeCorrect(text, s, item, addresses[item.symbol]);
    }
  }

  /** And for a branch: it is the branch to the label at its own address, known or not when it was
      assembled, and its target is the label exactly when the label is in reach. */
  lemma AssembledBranchCorrect(lines: seq<Line>, blocks: seq<seq<Entry>>, base: int, addresses: map<Name, word>, k: nat, pc: word)
    requires BlocksFor(lines, blocks, base, addresses)
    requires k < |lines| && lines[k].item.BranchTo? && lines[k].item.symbol in addresses && !lines[k].status.Lost?
    requires pc == Wrap(base + 4 * |Flat(blocks[..k])|) && pc % 4 == 0 && addresses[lines[k].item.symbol] % 4 == 0
    requires 4 * lines[k].item.before <= pc
    ensures var item, address := lines[k].item, addresses[lines[k].item.symbol];
      && Insts(blocks[k]) == [IType(item.op, item.rt, item.rs, LabelField(false, true, pc, address))]
      && (BranchTarget(false, pc, Insts(blocks[k])[0].imm) == address <==> InReach(pc, address))
  {
    hide Wrap, Flat, Emitted, BranchTarget, LabelField, InReach, CutToLower, Insts;
    var item, address := lines[k].item, addresses[lines[k].item.symbol];
    var parsePc := pc - 4 * item.before;
    FinalBlock(lines[k], blocks[k], pc, addresses);
    SmallWrap(parsePc);
    SameField(parsePc, pc, address);
    BranchArrives(false, false, pc, pc, address);
    NotCut(pc, address);
  }

  /** And for a jump: it carries the label in its field, known or not when it was assembled, and it is
      sent to an aligned label exactly when the label is in its own region of 2^28 bytes. */
  lemma AssembledJumpCorrect(lines: seq<Line>, blocks: seq<seq<Entry>>, base: int, addresses: map<Name, word>, k: nat, m: Core)
    requires BlocksFor(lines, blocks, base, addresses)
    requires k < |lines| && lines[k].item.JumpTo? && lines[k].item.symbol in addresses && !lines[k].status.Lost?
    requires addresses[lines[k].item.symbol] % 4 == 0
    ensures var item, address := lines[k].item, addresses[lines[k].item.symbol];
      && Insts(blocks[k]) == [JType(item.op, JumpField(address))]
      && (JumpTarget(m, Insts(blocks[k])[0].target) == address <==> m.PC / 0x1000_0000 == address / 0x1000_0000)
  {
    hide Wrap, Flat, Emitted, JumpTarget, JumpField, Insts;
    var item, address := lines[k].item, addresses[lines[k].item.symbol];
    FinalBlock(lines[k], blocks[k], Wrap(base + 4 * |Flat(blocks[..k])|), addresses);
    JumpArrives(m, address);
  }

  lemma NotCut(pc: word, address: word)
    ensures CutToLower(false, pc, address)
  {
  }

  /** Resolving the LUI of an access before the access itself would be wrong exactly for the
      addresses whose low half is sign-extended: the order of the list of uses matters. */
  lemma OrderMatters(item: Item, base: int, address: word)
    requires item.Access? && ValidItem(item)
    ensures var v, i := Wrap(item.offset + address), UsesIn(item, 0)[0];
      Insts(ResolveAll(Emitted(item), base, [0, i], address)) == Resolved(item, Wrap(base), address)
      <==> v % TWO16 < 0x8000
  {
    hide ResolveAll, Wrap, ToShort, UpperField, IsLoadStore, ResolveOne;
    var text, i := Emitted(item), UsesIn(item, 0)[0];
    var v := Wrap(item.offset + address);
    TwoUses(text, base, 0, i, address);
    LuiResolves(text, 0, Wrap(base + 4 * 0), address);
    assert Eval(text[0].expr.value, address) == v / TWO16;
    var early := text[0 := Filled(text[0], ToShort(v / TWO16))];
    AccessAlone(early, item, Wrap(base + 4 * i), address);
    EarlyUpper(v);
    var late := ResolveOne(early, i, Wrap(base + 4 * i), address);
    assert Insts(late)[0] == IType(LUI, 1, 0, ToShort(v / TWO16));
    assert Resolved(item, Wrap(base), address)[0] == IType(LUI, 1, 0, UpperField(v));
    assert Insts(late)[0] == Resolved(item, Wrap(base), address)[0] <==> v % TWO16 < 0x8000;
    assert forall k :: 1 <= k < |late| ==> Insts(late)[k] == Resolved(item, Wrap(base), address)[k];
  }

  lemma EarlyUpper(v: word)
    ensures ToShort(v / TWO16) == UpperField(v) <==> v % TWO16 < 0x8000
  {
    hide Wrap;
    CarryOrNot(v);
  }

  // Resolving an access changes no instruction but its own.
  lemma AccessAlone(text: seq<Entry>, item: Item, pc: word, address: word)
    requires item.Access? && ValidItem(item) && |text| == |Emitted(item)|
    requires forall k :: 1 <= k < |text| ==> text[k] == Emitted(item)[k]
    ensures var i, v := UsesIn(item, 0)[0], Wrap(item.offset + address);
      var next := ResolveOne(text, i, pc, address);
      && |next| == |text| && next[i].inst == text[i].inst.(imm := ToShort(v))
      && forall k :: 0 <= k < |text| && k != i ==> next[k].inst == text[k].inst
  {
    hide Wrap, ToShort, IsBranch, IsLoadStore;
    NotBranch(item.op);
    var i, v := UsesIn(item, 0)[0], Wrap(item.offset + address);
    CarryArithmetic(item.offset, address);
    assert Eval(text[i].expr.value, address) == v % TWO16;
  }
}
