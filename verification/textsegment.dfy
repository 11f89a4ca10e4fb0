/** The assembler at work on the text segment: instructions are appended at the next text address,
    uses of undefined labels are chained in front of earlier ones, and defining a label patches the
    instructions on its chain. */
module TextSegment {
  import opened Options
  import opened Words
  import opened Isa
  import opened Immediates
  import opened ControlTransfer
  import opened Symbols

  /** Entries for instructions without a label. */
  function Bare(code: seq<Inst>): (r: seq<Entry>)
    ensures |r| == |code| && forall k :: 0 <= k < |code| ==> r[k] == Entry(code[k], None)
  {
    seq(|code|, k requires 0 <= k < |code| => Entry(code[k], None))
  }

  lemma ThreeParts(a: seq<Inst>, b: seq<Inst>, c: seq<Inst>)
    ensures Bare(a + b + c) == Bare(a) + Bare(b) + Bare(c)
  {
  }

  lemma NoneOrOne()
    ensures Bare([]) == [] && forall i: Inst :: Bare([i]) == [Entry(i, None)]
  {
  }

  /** The items that are these instructions, as they stand. */
  function Plainly(code: seq<Inst>): (r: seq<Item>)
    ensures |r| == |code| && forall k :: 0 <= k < |code| ==> r[k] == Plain(code[k])
  {
    seq(|code|, k requires 0 <= k < |code| => Plain(code[k]))
  }

  function LineFor(item: Item, addresses: map<Name, word>): Line {
    Line(item, if item.Plain? || item.symbol in addresses then Early else Late)
  }

  /** The lines that items become while these labels are known. */
  function LinesFor(items: seq<Item>, addresses: map<Name, word>): (r: seq<Line>)
    ensures |r| == |items| && forall k :: 0 <= k < |items| ==> r[k] == LineFor(items[k], addresses)
  {
    seq(|items|, k requires 0 <= k < |items| => LineFor(items[k], addresses))
  }

  /** What has been assembled so far. */
  datatype Listing = Listing(lines: seq<Line>, blocks: seq<seq<Entry>>, addresses: map<Name, word>)

  /** Some items have been assembled, one after the other, after what was there. */
  ghost predicate Follows(before: Listing, after: Listing, items: seq<Item>) {
    && after.addresses == before.addresses && before.blocks <= after.blocks
    && after.lines == before.lines + LinesFor(items, before.addresses)
  }

  /** The lines after the uses of a label have been dropped. */
  function Dropped(lines: seq<Line>, symbol: Name): (r: seq<Line>)
    ensures |r| == |lines|
    ensures forall k :: 0 <= k < |lines| ==> r[k] == if Waits(lines[k], symbol) then lines[k].(status := Lost) else lines[k]
  {
    seq(|lines|, k requires 0 <= k < |lines| => if Waits(lines[k], symbol) then lines[k].(status := Lost) else lines[k])
  }

  class Segment {
    const base: int
    var text: seq<Entry>
    var addresses: map<Name, word>
    var uses: map<Name, seq<nat>>
    // The source lines so far, and the part of the text that each of them produced.
    ghost var lines: seq<Line>
    ghost var blocks: seq<seq<Entry>>

    function UsesOf(symbol: Name): seq<nat>
      reads this
    {
      if symbol in uses then uses[symbol] else []
    }

    /** Every line is as it must be, or unresolved with all its uses on the chain of its label. */
    ghost predicate Valid()
      reads this
    {
      && text == Flat(blocks)
      && BlocksFor(lines, blocks, base, addresses)
      && |lines| == |blocks|
      && forall symbol: Name :: symbol !in addresses ==> UsesOf(symbol) == Pending(lines, blocks, symbol)
    }

    ghost function Listed(): Listing
      reads this
    {
      Listing(lines, blocks, addresses)
    }

    constructor (base: int)
      ensures Valid() && this.base == base && text == [] && lines == [] && addresses == map[]
    {
      this.base := base;
      text, addresses, uses, lines, blocks := [], map[], map[], [], [];
    }

    method StoreInstruction(entry: Entry)
      modifies this`text
      ensures text == old(text) + [entry]
    {
      text := text + [entry];
    }

    // ---- Constants ------------------------------------------------------------------------------

    /** i_type_inst for an expression without an undefined label. */
    method ITypeInst(op: Opcode, rt: reg, rs: reg, e: Constant)
      requires TakesImmediate(op)
      modifies this`text
      ensures text == old(text) + Bare(Emit(op, rt, rs, e))
      decreases if Fits(op, Evaluate(e)) then 0 else 4
    {
      hide TakesImmediate, Field, Fits;
      var v := Evaluate(e);
      if Fits(op, v) {
        StoreInstruction(Entry(IType(op, rt, rs, Field(op, v)), None));
      } else {
        ITypeInstFullWord(op, rt, rs, e, v);
      }
    }

    method ITypeInstFullWord(op: Opcode, rt: reg, rs: reg, e: Constant, v: word)
      requires TakesImmediate(op)
      modifies this`text
      ensures text == old(text) + Bare(EmitFullWord(op, rt, rs, e, v))
      decreases 3
    {
      hide ProduceImmediate, Fits, IsComputation, IsLoadStore;
      LowFits(op, e.offset);
      if IsLoadStore(op) {
        SplitAccess(op, rt, rs, e, v);
      } else if IsBranch(op) {
        ITypeInst(op, rt, rs, LowerBits(e));
      } else if (op.ORI? || op.ADDI? || op.ADDIU? || op.LUI?) && rs == 0 {
        EmitImmediate(rt, e, v);
      } else {
        EmitImmediate(1, e, v);
        StoreInstruction(Entry(RType(ImmediateOpToOp(op), rt, rs, 1), None));
      }
    }

    method SplitAccess(op: Opcode, rt: reg, rs: reg, e: Constant, v: word)
      requires IsLoadStore(op)
      modifies this`text
      ensures text == old(text) + Bare(EmitFullWord(op, rt, rs, e, v))
      decreases 2
    {
      hide IsLoadStore, Fits;
      LowFits(op, v);
      AccessParts(op, rt, rs, e, v);
      hide Emit, EmitFullWord, Bare;
      var high, low := v / TWO16, v % TWO16;
      if high != 0 && !(high == 0xffff && low >= 0x8000) {
        if low >= 0x8000 {
          high := high + 1;
        }
        ThroughAt(op, rt, rs, high, low);
      } else {
        ITypeInst(op, rt, rs, Constant(low, Whole));
      }
    }

    method ThroughAt(op: Opcode, rt: reg, rs: reg, high: half, low: half)
      requires IsLoadStore(op)
      modifies this`text
      ensures text == old(text) + Bare(Emit(LUI, 1, 0, Constant(high, Whole))
                                       + (if rs != 0 then [RType(ADDU, 1, 1, rs)] else [])
                                       + Emit(op, rt, 1, Constant(low, Whole)))
      decreases 1
    {
      hide IsLoadStore, Fits, Emit, Bare;
      LowFits(op, low);
      NoneOrOne();
      ThreeParts(Emit(LUI, 1, 0, Constant(high, Whole)), if rs != 0 then [RType(ADDU, 1, 1, rs)] else [],
                 Emit(op, rt, 1, Constant(low, Whole)));
      ITypeInst(LUI, 1, 0, Constant(high, Whole));
      if rs != 0 {
        StoreInstruction(Entry(RType(ADDU, 1, 1, rs), None));
      }
      ITypeInst(op, rt, 1, Constant(low, Whole));
    }

    method EmitImmediate(rt: reg, e: Constant, v: word)
      modifies this`text
      ensures text == old(text) + Bare(ProduceImmediate(e, rt, v))
      decreases 1
    {
      if v % TWO16 == 0 {
        ITypeInst(LUI, rt, 0, UpperBits(e));
      } else if v / TWO16 == 0 {
        ITypeInst(ORI, rt, 0, LowerBits(e));
      } else {
        ITypeInst(LUI, 1, 0, UpperBits(e));
        ITypeInst(ORI, rt, 1, LowerBits(e));
      }
    }

    // ---- Labels ---------------------------------------------------------------------------------

    /** An instruction whose field waits for an undefined label. */
    method InstFor(inst: Inst, expr: Expr)
      modifies this`text, this`uses
      ensures text == old(text) + [Entry(inst, Some(expr))]
      ensures uses == old(uses)[expr.symbol := [|old(text)|] + old(UsesOf(expr.symbol))]
    {
      uses := uses[expr.symbol := [|text|] + UsesOf(expr.symbol)];
      StoreInstruction(Entry(inst, Some(expr)));
    }

    /** One source line whose label is defined, or that has none. */
    method EmitKnown(item: Item, pc: word, address: word)
      requires ValidItem(item)
      modifies this`text
      ensures text == old(text) + Bare(KnownCode(item, pc, address))
    {
      hide Code, LabelField, IsLoadStore, IsComputation, IsBranch;
      match item
      case Plain(inst) =>
        StoreInstruction(Entry(inst, None));
      case Access(op, rt, rs, _, offset) =>
        ITypeInst(op, rt, rs, Constant(Wrap(offset + address), Whole));
        CodeIsEmit(op, rt, rs, Wrap(offset + address));
      case Compute(op, rt, rs, _, offset) =>
        ITypeInst(op, rt, rs, Constant(Wrap(offset + address), Whole));
        CodeIsEmit(op, rt, rs, Wrap(offset + address));
      case BranchTo(op, rt, rs, _, before) =>
        var lower := CutToLower(true, Wrap(pc as int - 4 * before), address);
        StoreInstruction(Entry(IType(op, rt, rs, LabelField(false, lower, pc, address)), None));
      case JumpTo(op, _) =>
        StoreInstruction(Entry(JType(op, JumpField(address)), None));
    }

    /** One source line whose label is not defined yet. */
    method EmitUnknown(item: Item)
      requires ValidItem(item) && !item.Plain?
      modifies this`text, this`uses
      ensures text == old(text) + Emitted(item)
      ensures uses == old(uses)[item.symbol := UsesIn(item, |old(text)|) + old(UsesOf(item.symbol))]
    {
      hide IsLoadStore, IsComputation, IsBranch;
      ghost var chain, i := UsesOf(item.symbol), |text|;
      assert [i + 1] + ([i] + chain) == [i + 1, i] + chain && [i + 2] + ([i] + chain) == [i + 2, i] + chain;
      match item
      case Access(op, rt, rs, symbol, offset) =>
        InstFor(IType(LUI, 1, 0, 0), Expr(offset, symbol, Upper16, false));
        if rs != 0 {
          StoreInstruction(Entry(RType(ADDU, 1, 1, rs), None));
        }
        InstFor(IType(op, rt, 1, 0), Expr(offset, symbol, Lower16, false));
      case Compute(op, rt, rs, symbol, offset) =>
        var direct := (op.ORI? || op.ADDI? || op.ADDIU?) && rs == 0;
        InstFor(IType(LUI, 1, 0, 0), Expr(offset, symbol, Upper16, false));
        InstFor(IType(ORI, if direct then rt else 1, 1, 0), Expr(offset, symbol, Lower16, false));
        if !direct {
          StoreInstruction(Entry(RType(ImmediateOpToOp(op), rt, rs, 1), None));
        }
      case BranchTo(op, rt, rs, symbol, _) =>
        InstFor(IType(op, rt, rs, 0), Expr(0, symbol, Lower16, true));
      case JumpTo(op, symbol) =>
        InstFor(JType(op, 0), Expr(0, symbol, Whole, false));
    }

    /** One source line. */
    method Assemble(item: Item)
      requires Valid() && ValidItem(item)
      modifies this
      ensures Valid() && Follows(old(Listed()), Listed(), [item])
      ensures old(text) <= text && blocks == old(blocks) + [text[|old(text)|..]]
    {
      hide Flat, BlocksFor, Emitted, KnownCode, Wrap, ValidItem, Pending;
      var pc := Wrap(base + 4 * |text|);
      ghost var start, was := |text|, text;
      ghost var line := LineFor(item, addresses);
      if item.Plain? || item.symbol in addresses {
        var address := if item.Plain? then 0 else addresses[item.symbol];
        EmitKnown(item, pc, address);
        KnownBlock(item, text[start..], pc, address, addresses);
      } else {
        EmitUnknown(item);
        UnknownBlock(item, pc, addresses);
      }
      ghost var block := text[start..];
      assert text == was + block;
      AddBlock(lines, blocks, base, addresses, line, block);
      forall symbol: Name | symbol !in addresses
        ensures UsesOf(symbol) == Pending(lines + [line], blocks + [block], symbol)
      {
        PendingAdd(lines, blocks, line, block, symbol);
      }
      lines, blocks := lines + [line], blocks + [block];
    }

    /** Any instruction with a constant, however many real ones it takes. */
    method AssembleImmediate(op: Opcode, rt: reg, rs: reg, e: Constant)
      requires Valid() && TakesImmediate(op)
      modifies this
      ensures Valid() && Follows(old(Listed()), Listed(), Plainly(Emit(op, rt, rs, e)))
    {
      hide Flat, BlocksFor, Emit, Pending, TakesImmediate;
      ITypeInst(op, rt, rs, e);
      ghost var code := Emit(op, rt, rs, e);
      AddPlain(lines, blocks, base, addresses, code);
      lines, blocks := lines + LinesFor(Plainly(code), addresses), blocks + Singles(code);
    }

    /** One use of a label that now has its address. */
    method ResolveUse(i: nat, pc: word, address: word)
      modifies this`text
      ensures text == ResolveOne(old(text), i, pc, address)
    {
      hide Eval, BranchField, JumpField, ToShort, IsBranch, IsLoadStore, IsOwnLui, Wrap;
      if i < |text| && text[i].expr.Some? {
        var entry := text[i];
        if entry.expr.value.pcRelative {
          entry := entry.(expr := Some(entry.expr.value.(offset := Wrap(0 - (pc as int)))));
        }
        var expr := entry.expr.value;
        var value := Eval(expr, address);
        if IsBranch(entry.inst.op) {
          text := text[i := Filled(entry, BranchField(value))];
        } else if TakesTarget(entry.inst.op) {
          text := text[i := Aimed(entry, JumpField(value))];
        } else {
          if IsLoadStore(entry.inst.op) && value / 0x8000 % 2 == 1 {
            if i >= 1 && IsOwnLui(text[i - 1], expr.symbol) {
              text := text[i - 1 := Bumped(text[i - 1])];
            } else if i >= 2 && IsOwnLui(text[i - 2], expr.symbol) {
              text := text[i - 2 := Bumped(text[i - 2])];
            }
          }
          text := text[i := Filled(entry, ToShort(value))];
        }
      }
    }

    /** Gives a label its address and patches all its uses.  A second definition is refused.  An
        address of 0 leaves the label undefined, and its uses so far are dropped without being
        patched. */
    method Define(symbol: Name, address: word) returns (ok: bool)
      requires Valid()
      modifies this
      ensures Valid() && |blocks| == |old(blocks)|
      ensures ok <==> symbol !in old(addresses)
      ensures lines == if ok && address == 0 then Dropped(old(lines), symbol) else old(lines)
      ensures addresses == if ok && address != 0 then old(addresses)[symbol := address] else old(addresses)
      ensures !ok || address == 0 ==> text == old(text) && blocks == old(blocks)
      ensures !ok ==> uses == old(uses)
      ensures forall k :: 0 <= k < |lines| && !Waits(lines[k], symbol) ==> blocks[k] == old(blocks)[k]
    {
      hide Flat, BlocksFor, Wrap, Pending, ResolveOne, Waits;
      ok := symbol !in addresses;
      if !ok {
        return;
      }
      if address == 0 {
        Drop(symbol);
        return;
      }
      ghost var goal := ResolveAll(text, base, UsesOf(symbol), address);
      ghost var resolved := DefinitionResolves(lines, blocks, base, addresses, symbol, address);
      var chain := UsesOf(symbol);
      while chain != []
        invariant goal == ResolveAll(text, base, chain, address)
        modifies this`text
        decreases |chain|
      {
        ResolveUse(chain[0], Wrap(base + 4 * chain[0]), address);
        chain := chain[1..];
      }
      SameCount(lines, resolved, base, addresses[symbol := address]);
      forall other: Name
        ensures Pending(lines, resolved, other) == Pending(lines, blocks, other)
      {
        PendingSame(lines, blocks, resolved, other);
      }
      uses := uses - {symbol};
      addresses := addresses[symbol := address];
      blocks := resolved;
    }

    method Drop(symbol: Name)
      requires Valid() && symbol !in addresses
      modifies this`uses, this`lines
      ensures Valid() && lines == Dropped(old(lines), symbol)
    {
      hide Flat, BlocksFor, Pending, Waits;
      DroppedBlocks(lines, blocks, base, addresses, symbol);
      forall other: Name
        ensures Pending(Dropped(lines, symbol), blocks, other) == if other == symbol then [] else Pending(lines, blocks, other)
      {
        DroppedPending(lines, blocks, symbol, other);
      }
      uses := uses - {symbol};
      lines := Dropped(lines, symbol);
    }
  }

  lemma DroppedBlocks(lines: seq<Line>, blocks: seq<seq<Entry>>, base: int, addresses: map<Name, word>, symbol: Name)
    requires BlocksFor(lines, blocks, base, addresses) && symbol !in addresses
    ensures BlocksFor(Dropped(lines, symbol), blocks, base, addresses)
  {
    hide Flat, Wrap, Insts, Emitted, KnownCode, Resolved, ValidItem;
  }

  lemma {:induction false} DroppedPending(lines: seq<Line>, blocks: seq<seq<Entry>>, symbol: Name, other: Name)
    requires |lines| == |blocks|
    ensures Pending(Dropped(lines, symbol), blocks, other) == if other == symbol then [] else Pending(lines, blocks, other)
  {
    hide UsesIn, Flat;
    if lines != [] {
      var n := |lines| - 1;
      assert Dropped(lines, symbol)[..n] == Dropped(lines[..n], symbol);
      DroppedPending(lines[..n], blocks[..n], symbol, other);
    }
  }

  /** One block for each instruction. */
  function Singles(code: seq<Inst>): (r: seq<seq<Entry>>)
    ensures |r| == |code| && forall k :: 0 <= k < |code| ==> r[k] == [Entry(code[k], None)]
  {
    seq(|code|, k requires 0 <= k < |code| => [Entry(code[k], None)])
  }

  lemma {:induction false} AddPlain(lines: seq<Line>, blocks: seq<seq<Entry>>, base: int, addresses: map<Name, word>, code: seq<Inst>)
    requires BlocksFor(lines, blocks, base, addresses) && |lines| == |blocks|
    ensures BlocksFor(lines + LinesFor(Plainly(code), addresses), blocks + Singles(code), base, addresses)
    ensures Flat(blocks + Singles(code)) == Flat(blocks) + Bare(code)
    ensures forall symbol: Name ::
              Pending(lines + LinesFor(Plainly(code), addresses), blocks + Singles(code), symbol) == Pending(lines, blocks, symbol)
  {
    hide Flat, BlocksFor, Pending;
    if code == [] {
      assert lines + LinesFor(Plainly(code), addresses) == lines && blocks + Singles(code) == blocks;
      assert Bare(code) == [];
    } else {
      var n := |code| - 1;
      var front, i := code[..n], code[n];
      AddPlain(lines, blocks, base, addresses, front);
      var ls, bs := lines + LinesFor(Plainly(front), addresses), blocks + Singles(front);
      var line, block := LineFor(Plain(i), addresses), [Entry(i, None)];
      PlainBlock(i, Wrap(base + 4 * |Flat(bs)|), addresses);
      AddBlock(ls, bs, base, addresses, line, block);
      assert lines + LinesFor(Plainly(code), addresses) == ls + [line];
      assert blocks + Singles(code) == bs + [block];
      assert Bare(code) == Bare(front) + block;
      forall symbol: Name
        ensures Pending(ls + [line], bs + [block], symbol) == Pending(ls, bs, symbol)
      {
        PendingAdd(ls, bs, line, block, symbol);
      }
    }
  }

  lemma PlainBlock(i: Inst, pc: word, addresses: map<Name, word>)
    ensures BlockFor(LineFor(Plain(i), addresses), [Entry(i, None)], pc, addresses)
  {
    assert Insts([Entry(i, None)]) == [i];
  }

  lemma LowFits(op: Opcode, v: word)
    ensures IsLoadStore(op) ==> !IsComputation(op) && Fits(op, v % TWO16)
    ensures IsBranch(op) ==> Fits(op, v % TWO16)
    ensures forall h: half :: Fits(LUI, h)
  {
  }

  lemma AccessParts(op: Opcode, rt: reg, rs: reg, e: Constant, v: word)
    requires IsLoadStore(op)
    ensures var high, low := v / TWO16, v % TWO16;
      EmitFullWord(op, rt, rs, e, v)
      == if high != 0 && !(high == 0xffff && low >= 0x8000)
         then Emit(LUI, 1, 0, Constant(if low >= 0x8000 then high + 1 else high, Whole))
              + (if rs != 0 then [RType(ADDU, 1, 1, rs)] else [])
              + Emit(op, rt, 1, Constant(low, Whole))
         else Emit(op, rt, rs, Constant(low, Whole))
  {
    hide IsLoadStore, Emit;
  }

  lemma CodeIsEmit(op: Opcode, rt: reg, rs: reg, v: word)
    requires TakesImmediate(op)
    ensures Code(op, rt, rs, v) == Emit(op, rt, rs, Constant(v, Whole))
  {
  }

  lemma KnownBlock(item: Item, block: seq<Entry>, pc: word, address: word, addresses: map<Name, word>)
    requires ValidItem(item) && block == Bare(KnownCode(item, pc, address))
    requires !item.Plain? ==> item.symbol in addresses && addresses[item.symbol] == address
    ensures BlockFor(LineFor(item, addresses), block, pc, addresses)
  {
    hide Code, LabelField, IsLoadStore, IsComputation, IsBranch;
    assert Insts(block) == KnownCode(item, pc, address);
  }

  lemma UnknownBlock(item: Item, pc: word, addresses: map<Name, word>)
    requires ValidItem(item) && !item.Plain? && item.symbol !in addresses
    ensures BlockFor(LineFor(item, addresses), Emitted(item), pc, addresses)
  {
    hide Emitted, IsLoadStore, IsComputation, IsBranch;
  }

  lemma PendingAdd(lines: seq<Line>, blocks: seq<seq<Entry>>, line: Line, block: seq<Entry>, symbol: Name)
    requires |lines| == |blocks|
    ensures Pending(lines + [line], blocks + [block], symbol)
            == (if Waits(line, symbol) then UsesIn(line.item, |Flat(blocks)|) else []) + Pending(lines, blocks, symbol)
  {
    hide UsesIn, Waits, Flat;
    assert (lines + [line])[..|lines|] == lines && (blocks + [block])[..|lines|] == blocks;
  }

  lemma {:induction false} PendingSame(lines: seq<Line>, a: seq<seq<Entry>>, b: seq<seq<Entry>>, symbol: Name)
    requires |lines| == |a| == |b| && forall k :: 0 <= k < |a| ==> |a[k]| == |b[k]|
    ensures Pending(lines, a, symbol) == Pending(lines, b, symbol)
  {
    hide UsesIn, Waits, Flat;
    if lines != [] {
      var n := |lines| - 1;
      FlatLength(a[..n], b[..n]);
      PendingSame(lines[..n], a[..n], b[..n], symbol);
    }
  }
}
