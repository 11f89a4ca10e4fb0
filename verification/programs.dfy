/** From the grammar to the machine: the lines of a valid segment, wherever they stand and whenever their
    labels were defined, are in the text the code that the theorems on pseudo-instructions are about. */
module Programs {
  import opened Words
  import opened Isa
  import opened Immediates
  import opened ControlTransfer
  import opened PseudoOps
  import opened PseudoArithmetic
  import opened Symbols
  import opened TextSegment
  import opened Grammar

  /** A listing that a valid segment has, and a text that holds its instructions from base on. */
  ghost predicate LoadedAt(l: Listing, base: int, text: Text) {
    BlocksFor(l.lines, l.blocks, base, l.addresses) && Placed(text, base, Insts(Flat(l.blocks)))
  }

  /** The address of the k-th line. */
  function LinePc(l: Listing, base: int, k: nat): int
    requires k <= |l.blocks|
  {
    base + 4 * |Flat(l.blocks[..k])|
  }

  /** The items stand at line k, none of them lost, and the labels of their branches are defined. */
  ghost predicate StandAt(l: Listing, k: nat, items: seq<Item>) {
    k + |items| <= |l.lines| && forall j :: 0 <= j < |items| ==> Stands(l.lines[k + j], items[j], l.addresses, j)
  }

  predicate Stands(line: Line, item: Item, addresses: map<Name, word>, j: nat) {
    line.item == item && OneWord(item, addresses, j) && !line.status.Lost?
  }

  /** An instruction as it is; or a branch whose label has an aligned address, on a source line that began
      at most j instructions before it; or a jump to such a label. */
  predicate OneWord(item: Item, addresses: map<Name, word>, j: nat) {
    item.Plain?
    || (item.BranchTo? && item.symbol in addresses && addresses[item.symbol] % 4 == 0 && item.before <= j)
    || (item.JumpTo? && item.symbol in addresses && addresses[item.symbol] % 4 == 0)
  }

  /** The instruction an item is, at its address. */
  function InstOf(item: Item, pc: int, addresses: map<Name, word>, j: nat): Inst
    requires OneWord(item, addresses, j)
  {
    if item.Plain? then item.inst
    else if item.JumpTo? then JType(item.op, JumpField(addresses[item.symbol]))
    else To(item.op, item.rt, item.rs, pc, addresses[item.symbol])
  }

  function CodeOf(items: seq<Item>, pc: int, addresses: map<Name, word>): (r: seq<Inst>)
    requires forall j :: 0 <= j < |items| ==> OneWord(items[j], addresses, j)
    ensures |r| == |items| && forall j :: 0 <= j < |items| ==> r[j] == InstOf(items[j], pc + 4 * j, addresses, j)
  {
    seq(|items|, j requires 0 <= j < |items| => InstOf(items[j], pc + 4 * j, addresses, j))
  }

  lemma StandAfter(before: Listing, after: Listing, items: seq<Item>)
    requires Follows(before, after, items)
    requires forall j :: 0 <= j < |items| ==> OneWord(items[j], after.addresses, j)
    ensures StandAt(after, |before.lines|, items)
  {
    forall j | 0 <= j < |items|
      ensures Stands(after.lines[|before.lines| + j], items[j], after.addresses, j)
    {
      assert OneWord(items[j], after.addresses, j);
      assert after.lines[|before.lines| + j] == LineFor(items[j], after.addresses);
    }
  }

  // ---- One line ------------------------------------------------------------------------------------

  lemma OneLine(l: Listing, base: int, text: Text, k: nat, j: nat)
    requires LoadedAt(l, base, text) && k < |l.lines| && OneWord(l.lines[k].item, l.addresses, j)
    requires !l.lines[k].status.Lost? && 0 <= LinePc(l, base, k) - 4 * j
    requires base % 4 == 0
    ensures |l.blocks[k]| == 1
    ensures var pc := LinePc(l, base, k);
      && 0 <= pc && pc % 4 == 0 && pc + 4 < TWO32
      && pc in text && text[pc] == InstOf(l.lines[k].item, pc, l.addresses, j)
  {
    hide BlocksFor, Flat, Insts, BranchTarget, InReach, Wrap, BranchField, IsBranch;
    SameCount(l.lines, l.blocks, base, l.addresses);
    var line, pc := l.lines[k], LinePc(l, base, k);
    BlockPlaced(text, base, l.blocks, k);
    BlockHolds(l.lines, l.blocks, base, l.addresses, k);
    OneInText(text, pc, Insts(l.blocks[k]));
    if line.item.BranchTo? {
      SmallWrap(pc);
      AssembledBranchCorrect(l.lines, l.blocks, base, l.addresses, k, pc);
    } else if line.item.JumpTo? {
      FinalBlock(line, l.blocks[k], Wrap(pc), l.addresses);
    }
  }

  lemma OneInText(text: Text, pc: int, code: seq<Inst>)
    requires Placed(text, pc, code)
    ensures 0 <= pc && pc % 4 == 0 && pc + 4 * |code| < TWO32
    ensures |code| == 1 ==> pc in text && text[pc] == code[0]
  {
    assert |code| == 1 ==> pc + 4 * 0 in text && text[pc + 4 * 0] == code[0];
  }

  lemma BlockHolds(lines: seq<Line>, blocks: seq<seq<Entry>>, base: int, addresses: map<Name, word>, k: nat)
    requires BlocksFor(lines, blocks, base, addresses) && k < |lines|
    ensures BlockFor(lines[k], blocks[k], Wrap(base + 4 * |Flat(blocks[..k])|), addresses)
    ensures lines[k].item.Plain? ==> Insts(blocks[k]) == [lines[k].item.inst]
  {
    hide Wrap, Flat, Insts;
  }

  // ---- A group of lines ----------------------------------------------------------------------------

  /** The items of consecutive lines are consecutive instructions. */
  lemma {:induction false} LinesInText(l: Listing, base: int, text: Text, k: nat, items: seq<Item>)
    requires LoadedAt(l, base, text) && base % 4 == 0 && StandAt(l, k, items) && k <= |l.blocks|
    ensures LinePc(l, base, k) >= 0
    ensures Placed(text, LinePc(l, base, k), CodeOf(items, LinePc(l, base, k), l.addresses))
  {
    hide BlocksFor, Flat, Insts, To;
    SameCount(l.lines, l.blocks, base, l.addresses);
    SmallPlace(text, base, Insts(Flat(l.blocks)));
    var pc := LinePc(l, base, k);
    if items == [] {
      NoCode(l, base, text, k);
    } else {
      var n := |items| - 1;
      StandFront(l, k, items, n);
      StandEach(l, k, items);
      LinesInText(l, base, text, k, items[..n]);
      FrontLength(l, base, text, k, items, n);
      StandOne(l, k, items, n);
      OneLine(l, base, text, k + n, n);
      var front, code := CodeOf(items[..n], pc, l.addresses), CodeOf(items, pc, l.addresses);
      assert code == front + [InstOf(items[n], pc + 4 * n, l.addresses, n)];
      PlacedOneMore(text, pc, front, code[n]);
    }
  }

  lemma StandOne(l: Listing, k: nat, items: seq<Item>, n: nat)
    requires StandAt(l, k, items) && n < |items|
    ensures k + n < |l.lines| && Stands(l.lines[k + n], items[n], l.addresses, n)
  {
  }

  lemma StandFront(l: Listing, k: nat, items: seq<Item>, n: nat)
    requires StandAt(l, k, items) && n <= |items|
    ensures StandAt(l, k, items[..n])
  {
    hide Stands;
    forall j | 0 <= j < n
      ensures Stands(l.lines[k + j], items[..n][j], l.addresses, j)
    {
      assert items[..n][j] == items[j];
      StandOne(l, k, items, j);
    }
  }

  lemma StandEach(l: Listing, k: nat, items: seq<Item>)
    requires StandAt(l, k, items)
    ensures forall j :: 0 <= j < |items| ==> OneWord(items[j], l.addresses, j)
  {
    forall j | 0 <= j < |items|
      ensures OneWord(items[j], l.addresses, j)
    {
      StandOne(l, k, items, j);
    }
  }

  lemma PlacedOneMore(text: Text, pc: int, front: seq<Inst>, i: Inst)
    requires Placed(text, pc, front) && pc + 4 * |front| in text && text[pc + 4 * |front|] == i
    requires pc + 4 * |front| + 4 < TWO32
    ensures Placed(text, pc, front + [i])
  {
  }

  lemma NoCode(l: Listing, base: int, text: Text, k: nat)
    requires LoadedAt(l, base, text) && base % 4 == 0 && k <= |l.blocks|
    ensures Placed(text, LinePc(l, base, k), [])
  {
    hide BlocksFor, Insts;
    FlatFront(l.blocks, k);
  }

  lemma {:induction false} FlatFront(blocks: seq<seq<Entry>>, k: nat)
    requires k <= |blocks|
    ensures |Flat(blocks[..k])| <= |Flat(blocks)|
    decreases |blocks|
  {
    if k < |blocks| {
      var n := |blocks| - 1;
      assert blocks[..n][..k] == blocks[..k];
      FlatFront(blocks[..n], k);
    } else {
      assert blocks[..k] == blocks;
    }
  }

  // Lines of one instruction each put the n-th one n words further on.
  lemma {:induction false} FrontLength(l: Listing, base: int, text: Text, k: nat, items: seq<Item>, n: nat)
    requires LoadedAt(l, base, text) && base % 4 == 0 && 0 <= base && StandAt(l, k, items) && k <= |l.blocks| == |l.lines| && n <= |items|
    ensures LinePc(l, base, k + n) == LinePc(l, base, k) + 4 * n
    decreases n
  {
    hide BlocksFor, Insts, To, Flat;
    if n > 0 {
      FrontLength(l, base, text, k, items, n - 1);
      StandOne(l, k, items, n - 1);
      OneLine(l, base, text, k + n - 1, n - 1);
      NextBlock(l.blocks, k + n - 1);
    }
  }

  lemma NextBlock(blocks: seq<seq<Entry>>, k: nat)
    requires k < |blocks|
    ensures Flat(blocks[..k + 1]) == Flat(blocks[..k]) + blocks[k]
  {
    assert blocks[..k + 1][..k] == blocks[..k];
  }

  // ---- The code of the actions ---------------------------------------------------------------------

  lemma PlainCode(code: seq<Inst>, pc: int, addresses: map<Name, word>)
    ensures forall j :: 0 <= j < |code| ==> OneWord(Plainly(code)[j], addresses, j)
    ensures CodeOf(Plainly(code), pc, addresses) == code
  {
  }

  lemma BranchItemsCode(op: Relation, rs: reg, rt: reg, symbol: Name, pc: int, addresses: map<Name, word>)
    requires IsBranchPseudo(op) && symbol in addresses && addresses[symbol] % 4 == 0
    ensures var items := BranchItems(op, rs, rt, symbol);
      && (forall j :: 0 <= j < |items| ==> OneWord(items[j], addresses, j))
      && CodeOf(items, pc, addresses) == BranchCode(op, rs, rt, pc, addresses[symbol])
  {
    hide To;
  }

  lemma BranchImmediateItemsCode(op: Relation, rs: reg, v: word, symbol: Name, pc: int, addresses: map<Name, word>)
    requires symbol in addresses && addresses[symbol] % 4 == 0
    ensures var items := BranchImmediateItems(op, rs, v, symbol);
      && (forall j :: 0 <= j < |items| ==> OneWord(items[j], addresses, j))
      && CodeOf(items, pc, addresses) == BranchImmediateCode(op, rs, v, pc, addresses[symbol])
  {
    hide To, Code, Skip, ThenBranch, CodeOf, OneWord, EqualFirstCode;
    var goal := addresses[symbol];
    if op.EQ? || op.NE? {
      var branch := if op.EQ? then BEQ else BNE;
      ThenBranchCode(if v == 0 then [] else Code(ORI, 1, 0, v), branch, rs, if v == 0 then 0 else 1, symbol, pc, addresses);
      assert [] + [To(branch, rs, 0, pc, goal)] == [To(branch, rs, 0, pc, goal)];
    } else if op.GT? || op.LE? {
      ThenBranchCode(Code(SLTI, 1, rs, Wrap(v + 1)), if op.GT? then BEQ else BNE, 0, 1, symbol, pc, addresses);
    } else if op.GTU? || op.LEU? {
      UnsignedItemsCode(op, rs, v, symbol, pc, addresses);
    } else {
      ThenBranchCode(Code(if IsUnsigned(op) then SLTIU else SLTI, 1, rs, v), if OnFailure(op) then BEQ else BNE, 0, 1,
                     symbol, pc, addresses);
    }
  }

  lemma ThenBranchCode(front: seq<Inst>, op: Opcode, rt: reg, rs: reg, symbol: Name, pc: int, addresses: map<Name, word>)
    requires symbol in addresses && addresses[symbol] % 4 == 0
    ensures var items := ThenBranch(front, op, rt, rs, symbol);
      && (forall j :: 0 <= j < |items| ==> OneWord(items[j], addresses, j))
      && CodeOf(items, pc, addresses) == front + [To(op, rt, rs, pc + 4 * |front|, addresses[symbol])]
  {
    hide To;
  }

  lemma UnsignedItemsCode(op: Relation, rs: reg, v: word, symbol: Name, pc: int, addresses: map<Name, word>)
    requires (op.GTU? || op.LEU?) && symbol in addresses && addresses[symbol] % 4 == 0
    ensures var items := BranchImmediateItems(op, rs, v, symbol);
      && (forall j :: 0 <= j < |items| ==> OneWord(items[j], addresses, j))
      && CodeOf(items, pc, addresses) == BranchImmediateCode(op, rs, v, pc, addresses[symbol])
  {
    hide To, Code, Skip;
  }

  // ---- Whole programs ------------------------------------------------------------------------------

  /** The code of any action without a label stands in the text as the theorems about it require. */
  lemma ActionPlaced(l: Listing, base: int, text: Text, k: nat, code: seq<Inst>)
    requires LoadedAt(l, base, text) && base % 4 == 0 && k <= |l.blocks| && StandAt(l, k, Plainly(code))
    ensures LinePc(l, base, k) >= 0 && Placed(text, LinePc(l, base, k), code)
  {
    hide LoadedAt, Placed;
    LinesInText(l, base, text, k, Plainly(code));
    PlainCode(code, LinePc(l, base, k), l.addresses);
  }

  /** A set pseudo-instruction at any line of a loaded program leaves its result in rd. */
  lemma SetRuns(l: Listing, base: int, text: Text, k: nat, s: State, op: Relation, rd: reg, rs: reg, rt: reg) returns (n: nat)
    requires LoadedAt(l, base, text) && base % 4 == 0 && k <= |l.blocks|
    requires IsSetPseudo(op) && rd != 0 && StandAt(l, k, Plainly(SetCode(op, rd, rs, rt)))
    requires s.outcome == Running && s.PC == LinePc(l, base, k)
    ensures Leaves(s, Run(text, s, n), s.PC + 4 * |SetCode(op, rd, rs, rt)|, rd, Flag(Holds(op, Reg(s, rs), Reg(s, rt))), {rd})
  {
    hide LoadedAt, SetCode, Run, Leaves, Placed;
    ActionPlaced(l, base, text, k, SetCode(op, rd, rs, rt));
    n := SetCorrect(text, s, op, rd, rs, rt);
  }

  /** A branch pseudo-instruction on two registers at any line, its label defined before or after it, goes
      to the label or past itself as the comparison says. */
  lemma BranchRuns(l: Listing, base: int, text: Text, k: nat, s: State, op: Relation, rs: reg, rt: reg, symbol: Name)
    returns (n: nat)
    requires LoadedAt(l, base, text) && base % 4 == 0 && k <= |l.blocks|
    requires IsBranchPseudo(op) && rs != 1 && rt != 1 && StandAt(l, k, BranchItems(op, rs, rt, symbol))
    requires symbol in l.addresses && InReachAt(s.PC + 4, l.addresses[symbol])
    requires s.outcome == Running && s.PC == LinePc(l, base, k)
    ensures Branched(s, Run(text, s, n), Holds(op, Reg(s, rs), Reg(s, rt)), l.addresses[symbol], s.PC + 8)
  {
    hide LoadedAt, BranchItems, BranchCode, Run, Branched, Placed, InReach;
    BranchItemsCode(op, rs, rt, symbol, s.PC, l.addresses);
    LinesInText(l, base, text, k, BranchItems(op, rs, rt, symbol));
    n := BranchCorrect(text, s, op, rs, rt, l.addresses[symbol]);
  }

  /** The same with a constant. */
  lemma BranchImmediateRuns(l: Listing, base: int, text: Text, k: nat, s: State, op: Relation, rs: reg, v: word, symbol: Name)
    returns (n: nat)
    requires LoadedAt(l, base, text) && base % 4 == 0 && k <= |l.blocks|
    requires rs != 1 && StandAt(l, k, BranchImmediateItems(op, rs, v, symbol))
    requires symbol in l.addresses
    requires BranchesReach(op, s.PC, |BranchImmediateItems(op, rs, v, symbol)|, l.addresses[symbol])
    requires s.outcome == Running && s.PC == LinePc(l, base, k)
    ensures Branched(s, Run(text, s, n), TakenImmediate(op, Reg(s, rs), v), l.addresses[symbol],
                     s.PC + 4 * |BranchImmediateItems(op, rs, v, symbol)|)
  {
    hide LoadedAt, BranchImmediateItems, BranchImmediateCode, Run, Branched, Placed, InReach;
    BranchImmediateItemsCode(op, rs, v, symbol, s.PC, l.addresses);
    LinesInText(l, base, text, k, BranchImmediateItems(op, rs, v, symbol));
    n := BranchImmediateCorrect(text, s, op, rs, v, l.addresses[symbol]);
  }

  /** A multiplication pseudo-instruction at any line of a loaded program. */
  lemma MulRuns(l: Listing, base: int, text: Text, k: nat, s: State, signed: bool, rd: reg, rs: reg, rt: reg) returns (n: nat)
    requires LoadedAt(l, base, text) && base % 4 == 0 && k <= |l.blocks|
    requires rd != 0 && rd != 1 && StandAt(l, k, Plainly(MulEmitted(signed, rd, rs, rt)))
    requires s.outcome == Running && s.PC == LinePc(l, base, k)
    ensures var t, p := Run(text, s, n), Product(signed, Reg(s, rs), Reg(s, rt));
      if FitsWord(signed, p) then t.outcome == Running && (if signed then Signed(t.R[rd]) else t.R[rd]) == p
      else t.outcome == Trap(BREAKPOINT)
  {
    hide LoadedAt, MulCode, Run, Placed, Upper, Lower, FitsWord, Product;
    ActionPlaced(l, base, text, k, MulCode(signed, rd, rs, rt));
    n := MulCorrect(text, s, signed, rd, rs, rt);
  }

  /** After a jump or a call: at the goal exactly when it is in the jump's own region of 2^28 bytes, with
      the return address in $31 after a call, and nothing else changed. */
  predicate Jumped(s: State, t: State, op: Opcode, goal: word) {
    && t.outcome == Running
    && (t.PC == goal <==> s.PC / 0x1000_0000 == goal / 0x1000_0000)
    && t == s.(PC := t.PC, R := if op.JAL? then ZeroR0(s.R)[31 := Wrap(s.PC + 4)] else ZeroR0(s.R))
  }

  /** A jump at any line, its label defined before or after it, takes one step to the label, if it is in
      the region of the jump, and a call leaves its return address. */
  lemma JumpRuns(l: Listing, base: int, text: Text, k: nat, s: State, op: Opcode, symbol: Name)
    requires LoadedAt(l, base, text) && base % 4 == 0 && k <= |l.blocks|
    requires TakesTarget(op) && symbol in l.addresses && l.addresses[symbol] % 4 == 0
    requires StandAt(l, k, [JumpTo(op, symbol)])
    requires s.outcome == Running && s.PC == LinePc(l, base, k)
    ensures Jumped(s, Run(text, s, 1), op, l.addresses[symbol])
  {
    hide LoadedAt, BlocksFor, Placed, JumpField, JumpTarget, Flat, Wrap, Or;
    var address, items := l.addresses[symbol], [JumpTo(op, symbol)];
    var jump := JType(op, JumpField(address));
    LinesInText(l, base, text, k, items);
    assert CodeOf(items, s.PC, l.addresses) == [jump];
    FirstTwo(text, s.PC, [jump]);
    OneInText(text, s.PC, [jump]);
    assert Run(text, s, 0) == s;
    StepTo(text, s, 0, s, jump);
    JumpArrives(CoreOf(s), address);
    JumpEffect(s, jump);
  }

  lemma JumpEffect(s: State, i: Inst)
    requires s.outcome == Running && TakesTarget(i.op)
    ensures var t := Perform(i, s);
      t == s.(PC := JumpTarget(CoreOf(s), i.target),
              R := if i.op.JAL? then ZeroR0(s.R)[31 := Wrap(s.PC + 4)] else ZeroR0(s.R))
  {
    hide JumpTarget, Wrap;
  }

  /** A subroutine called at line k that comes to `jr $31`, after any number of steps and with $31 as the
      call left it, returns to the instruction after the call. */
  lemma CallReturns(l: Listing, base: int, text: Text, k: nat, s: State, symbol: Name, n: nat)
    requires LoadedAt(l, base, text) && base % 4 == 0 && k <= |l.blocks|
    requires symbol in l.addresses && l.addresses[symbol] % 4 == 0 && StandAt(l, k, [JumpTo(JAL, symbol)])
    requires s.outcome == Running && s.PC == LinePc(l, base, k)
    requires var t := Run(text, s, 1 + n);
      && t.outcome == Running && t.PC in text && text[t.PC] == RType(JR, 0, 31, 0)
      && t.R[31] == Run(text, s, 1).R[31]
    ensures Run(text, s, 1 + n + 1).outcome == Running && Run(text, s, 1 + n + 1).PC == Wrap(s.PC + 4)
  {
    hide LoadedAt, StandAt, Run, Wrap;
    JumpRuns(l, base, text, k, s, JAL, symbol);
    StepTo(text, s, 1 + n, Run(text, s, 1 + n), RType(JR, 0, 31, 0));
  }

  /** A pseudo-branch to a label that is defined only afterwards stands in the listing as BranchRuns
      requires. */
  method BranchForward(seg: Segment, op: Relation, rs: reg, rt: reg, symbol: Name, address: word)
    requires seg.Valid() && IsBranchPseudo(op) && symbol !in seg.addresses && address != 0 && address % 4 == 0
    modifies seg
    ensures seg.Valid() && symbol in seg.addresses && seg.addresses[symbol] == address
    ensures StandAt(seg.Listed(), |old(seg.lines)|, BranchItems(op, rs, rt, symbol))
  {
    hide Segment.Valid, BranchItems;
    ghost var before := seg.Listed();
    BranchInst(seg, op, rs, rt, symbol);
    ghost var lines, items := seg.lines, BranchItems(op, rs, rt, symbol);
    var ok := seg.Define(symbol, address);
    BranchItemsCode(op, rs, rt, symbol, 0, seg.addresses);
    forall j | 0 <= j < |items|
      ensures Stands(seg.lines[|before.lines| + j], items[j], seg.addresses, j)
    {
      assert lines[|before.lines| + j] == LineFor(items[j], before.addresses);
      assert OneWord(items[j], seg.addresses, j);
    }
  }
  /** The same for a jump or a call. */
  method JumpForward(seg: Segment, op: Opcode, symbol: Name, address: word)
    requires seg.Valid() && TakesTarget(op) && symbol !in seg.addresses && address != 0
    modifies seg
    ensures seg.Valid() && symbol in seg.addresses && seg.addresses[symbol] == address
    ensures address % 4 == 0 ==> StandAt(seg.Listed(), |old(seg.lines)|, [JumpTo(op, symbol)])
  {
    hide Segment.Valid;
    ghost var before := seg.Listed();
    JumpInst(seg, op, symbol);
    ghost var lines := seg.lines;
    var ok := seg.Define(symbol, address);
    assert lines[|before.lines|] == LineFor(JumpTo(op, symbol), before.addresses);
  }
  /** Uses that were recorded before their label was defined with address 0 are lost: giving the label
      another address later changes nothing in the text. */
  method ZeroLosesUses(seg: Segment, symbol: Name, address: word)
    requires seg.Valid() && symbol !in seg.addresses && address != 0
    modifies seg
    ensures seg.Valid() && symbol in seg.addresses && seg.addresses[symbol] == address
    ensures seg.text == old(seg.text)
  {
    ghost var blocks := seg.blocks;
    var ok := seg.Define(symbol, 0);
    assert forall k :: 0 <= k < |seg.lines| ==> !Waits(seg.lines[k], symbol);
    ok := seg.Define(symbol, address);
    assert seg.blocks == blocks;
  }
}
