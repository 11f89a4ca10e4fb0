/** Whole runs of memory accesses: a flat byte map answers every one of them as the segments do. */
module MemoryRuns {
  import opened Words
  import opened Isa
  import opened Memory

  /** One call of the memory: a typed read or write, or an expansion of the data segment. */
  datatype Call = Read(a: word, size: nat) | Write(a: word, size: nat, v: word) | GrowData(bytes: int)

  predicate IsSize(size: nat) {
    size == 1 || size == 2 || size == 4
  }

  predicate ValidCall(c: Call) {
    !c.GrowData? ==> IsSize(c.size)
  }

  /** The boundaries, which decide what is served, and a flat byte map, which decides the values. */
  datatype Flat = Flat(shape: Layout, mem: Bytes)

  /** The address range of an access is in the byte map. */
  predicate Held(mem: Bytes, a: word, size: nat) {
    a + size <= TWO32 && Mapped(mem, a, size)
  }

  /** The answer of the flat byte map. */
  function Answer(f: Flat, c: Call): Result
    requires ValidCall(c)
  {
    match c
    case Read(a, size) =>
      if f.shape.Accessible(a, size) && Held(f.mem, a, size) then Done(Store.Loaded(f.mem, a, size))
      else f.shape.Refusal(a, size, ADDRESS_ERROR_LOAD)
    case Write(a, size, _) =>
      if f.shape.Accessible(a, size) && a + size <= TWO32 then Done(0) else f.shape.Refusal(a, size, ADDRESS_ERROR_STORE)
    case GrowData(bytes) =>
      if f.shape.CanGrowData(bytes) then Done(0) else RunError
  }

  ghost function Next(f: Flat, c: Call): Flat
    requires ValidCall(c)
  {
    match c
    case Read(a, size) => f.(shape := f.shape.Touched(a, size))
    case Write(a, size, v) =>
      Flat(f.shape.Touched(a, size),
           if f.shape.Accessible(a, size) && a + size <= TWO32 then Store.Written(f.mem, a, size, v) else f.mem)
    case GrowData(bytes) =>
      var grown := f.shape.DataGrown(bytes);
      Flat(grown, f.mem + ZeroBytesFrom(f.shape.dataTop, grown.dataTop))
  }

  predicate ValidCalls(cs: seq<Call>) {
    forall k :: 0 <= k < |cs| ==> ValidCall(cs[k])
  }

  ghost function After(f: Flat, cs: seq<Call>): Flat
    requires ValidCalls(cs)
  {
    if cs == [] then f else Next(After(f, cs[..|cs| - 1]), cs[|cs| - 1])
  }

  ghost function Answers(f: Flat, cs: seq<Call>): (r: seq<Result>)
    requires ValidCalls(cs)
    ensures |r| == |cs|
  {
    if cs == [] then []
    else Answers(f, cs[..|cs| - 1]) + [Answer(After(f, cs[..|cs| - 1]), cs[|cs| - 1])]
  }

  // ---- The segments give these answers -------------------------------------------------------------

  ghost function FlatOf(store: Store): Flat
    reads store, store.dataSeg, store.stackSeg, store.kDataSeg
    requires store.Valid()
  {
    Flat(store.Shape(), store.View())
  }

  method Do(store: Store, c: Call) returns (r: Result)
    requires store.Valid() && ValidCall(c)
    modifies store, store.dataSeg, store.stackSeg, store.kDataSeg
    ensures store.Valid() && SameOrFresh(store)
    ensures r == Answer(old(FlatOf(store)), c) && FlatOf(store) == Next(old(FlatOf(store)), c)
  {
    hide Store.View, Store.Loaded, Store.Written, Layout.Refusal, Layout.Touched, Layout.DataGrown;
    match c
    case Read(a, size) =>
      if size == 4 {
        r := store.ReadMemWord(a);
      } else if size == 2 {
        r := store.ReadMemHalf(a);
      } else {
        r := store.ReadMemByte(a);
      }
    case Write(a, size, v) =>
      r := store.SetMem(a, size, v);
    case GrowData(bytes) =>
      var ok := store.ExpandData(bytes);
      r := if ok then Done(0) else RunError;
  }

  /** The arrays are the ones before, or new. */
  twostate predicate SameOrFresh(store: Store)
    reads store
  {
    && (store.dataSeg == old(store.dataSeg) || fresh(store.dataSeg))
    && (store.stackSeg == old(store.stackSeg) || fresh(store.stackSeg))
    && (store.kDataSeg == old(store.kDataSeg) || fresh(store.kDataSeg))
  }

  /** Over any sequence of reads and writes of bytes, halves and words, and of expansions, the segments
      answer every call, and end, exactly as the flat byte map does. */
  method Execute(store: Store, cs: seq<Call>) returns (rs: seq<Result>)
    requires store.Valid() && ValidCalls(cs)
    modifies store, store.dataSeg, store.stackSeg, store.kDataSeg
    ensures store.Valid() && SameOrFresh(store)
    ensures rs == Answers(old(FlatOf(store)), cs) && FlatOf(store) == After(old(FlatOf(store)), cs)
  {
    hide Next, Answer, FlatOf;
    rs := [];
    ghost var start := FlatOf(store);
    var i := 0;
    while i < |cs|
      invariant 0 <= i <= |cs| && store.Valid() && SameOrFresh(store)
      invariant rs == Answers(start, cs[..i]) && FlatOf(store) == After(start, cs[..i])
    {
      assert cs[..i + 1][..i] == cs[..i];
      var r := Do(store, cs[i]);
      rs := rs + [r];
      i := i + 1;
    }
    assert cs[..i] == cs;
  }

  // ---- Growing does not show -----------------------------------------------------------------------

  predicate IsAccess(c: Call) {
    !c.GrowData? && IsSize(c.size)
  }

  predicate Accesses(cs: seq<Call>) {
    forall k :: 0 <= k < |cs| ==> IsAccess(cs[k])
  }

  /** A byte map and nothing else: no boundaries and no stack that grows. */
  function PureNext(mem: Bytes, c: Call): Bytes
    requires IsAccess(c)
  {
    if c.Write? && c.a + c.size <= TWO32 then Store.Written(mem, c.a, c.size, c.v) else mem
  }

  function PureAfter(mem: Bytes, cs: seq<Call>): Bytes
    requires Accesses(cs)
  {
    if cs == [] then mem else PureNext(PureAfter(mem, cs[..|cs| - 1]), cs[|cs| - 1])
  }

  function PureAnswer(mem: Bytes, c: Call): Result
    requires IsAccess(c)
  {
    if c.Write? then Done(0)
    else if Held(mem, c.a, c.size) then Done(Store.Loaded(mem, c.a, c.size))
    else RunError
  }

  /** No call of the run is refused. */
  ghost predicate AllServed(f: Flat, cs: seq<Call>)
    requires ValidCalls(cs)
  {
    forall k :: 0 <= k < |cs| ==> Answers(f, cs)[k].Done?
  }

  lemma OneServed(f: Flat, c: Call)
    requires IsAccess(c) && Answer(f, c).Done?
    ensures Answer(f, c) == PureAnswer(f.mem, c) && Next(f, c).mem == PureNext(f.mem, c)
  {
    hide Layout.Accessible, Layout.Refusal, Layout.Touched, Store.Loaded, Store.Written;
    RefusalIsNotDone(f.shape, c.a, c.size);
  }

  /** Growth is invisible: in a run that is served, every answer and the memory at the end are those of
      the byte map alone, so that they do not depend on how large the stack was at any time. */
  lemma {:induction false} GrowthInvisible(f: Flat, cs: seq<Call>)
    requires Accesses(cs) && ValidCalls(cs) && AllServed(f, cs)
    ensures After(f, cs).mem == PureAfter(f.mem, cs)
    ensures forall k :: 0 <= k < |cs| ==> Answers(f, cs)[k] == PureAnswer(PureAfter(f.mem, cs[..k]), cs[k])
  {
    hide Answer, Next, PureAnswer, PureNext;
    if cs != [] {
      var n := |cs| - 1;
      var front, c := cs[..n], cs[n];
      assert forall k :: 0 <= k < n ==> Answers(f, front)[k] == Answers(f, cs)[k];
      GrowthInvisible(f, front);
      assert Answers(f, cs)[n] == Answer(After(f, front), c);
      assert Answers(f, cs)[n].Done?;
      OneServed(After(f, front), c);
      forall k | 0 <= k < |cs|
        ensures Answers(f, cs)[k] == PureAnswer(PureAfter(f.mem, cs[..k]), cs[k])
      {
        assert k < n ==> cs[..k] == front[..k];
      }
    }
  }

  lemma RefusalIsNotDone(shape: Layout, a: word, size: nat)
    requires size > 0
    ensures !shape.Refusal(a, size, ADDRESS_ERROR_LOAD).Done? && !shape.Refusal(a, size, ADDRESS_ERROR_STORE).Done?
  {
  }

  // ---- Bytes ---------------------------------------------------------------------------------------

  /** The byte at address b after the calls: that of the last write that covers it, or what was there. */
  function LastByte(mem: Bytes, cs: seq<Call>, b: word): byte
    requires Accesses(cs) && b in mem
  {
    if cs == [] then mem[b]
    else
      var c := cs[|cs| - 1];
      if c.Write? && c.a <= b < c.a + c.size then ByteOf(c.v, b - c.a)
      else LastByte(mem, cs[..|cs| - 1], b)
  }

  lemma WrittenByte(mem: Bytes, a: word, size: nat, v: word, b: word)
    requires IsSize(size) && a + size <= TWO32 && b in mem
    ensures var after := Store.Written(mem, a, size, v);
      b in after && after[b] == if a <= b < a + size then ByteOf(v, b - a) else mem[b]
  {
    hide ByteOf;
  }

  /** In the byte map, and therefore in the segments, every byte is that of the last write that covers
      it, whatever the sizes of the writes. */
  lemma {:induction false} LastWriteCounts(mem: Bytes, cs: seq<Call>, b: word)
    requires Accesses(cs) && b in mem
    requires forall k :: 0 <= k < |cs| && cs[k].Write? ==> cs[k].a + cs[k].size <= TWO32
    ensures b in PureAfter(mem, cs) && PureAfter(mem, cs)[b] == LastByte(mem, cs, b)
  {
    hide ByteOf, Store.Written;
    if cs != [] {
      var front, c := cs[..|cs| - 1], cs[|cs| - 1];
      LastWriteCounts(mem, front, b);
      if c.Write? {
        WrittenByte(PureAfter(mem, front), c.a, c.size, c.v, b);
      }
    }
  }

  // ---- What stays accessible -----------------------------------------------------------------------

  /** An address that an access has touched, or that was in a segment, is in a segment from then on. */
  lemma {:induction false} StaysServed(f: Flat, cs: seq<Call>, a: word)
    requires ValidCalls(cs) && f.shape.InSegment(a) && f.shape.stackBot <= STACK_TOP
    ensures After(f, cs).shape.InSegment(a) && After(f, cs).shape.stackBot <= f.shape.stackBot
    ensures f.shape.dataTop <= After(f, cs).shape.dataTop
  {
    hide RoundUp;
    if cs != [] {
      StaysServed(f, cs[..|cs| - 1], a);
      NeverShrinks(After(f, cs[..|cs| - 1]), cs[|cs| - 1]);
    }
  }

  lemma NeverShrinks(f: Flat, c: Call)
    requires ValidCall(c) && f.shape.stackBot <= STACK_TOP
    ensures var s := Next(f, c).shape;
      && s.stackBot <= f.shape.stackBot && f.shape.dataTop <= s.dataTop
      && s.kDataTop == f.shape.kDataTop
    ensures (c.Read? || c.Write?) && f.shape.Accessible(c.a, c.size) ==> Next(f, c).shape.InSegment(c.a)
  {
    hide RoundUp, Store.Written;
  }

  /** But an address that has not been touched need not stay accessible: the stack at least doubles, so
      growing for one address can put another one, within the limit, out of reach. */
  lemma DoublingRefuses()
    ensures var l := Layout(DATA_BOT, STACK_TOP - 0x1_0000, K_DATA_BOT, TEXT_BOT, 0, 0x8_0000);
      var near, far := STACK_TOP - 0x4_0000, STACK_TOP - 0x6_0000;
      && l.Accessible(near, 4) && l.Accessible(far, 4)
      && far > STACK_TOP - l.stackLimit
      && !l.Touched(near, 4).Accessible(far, 4)
  {
  }

  /** Exactly when an accessible address stays accessible after an access, of whatever sizes, has made the
      stack grow: when it is now inside the stack, or the stack may double once more. */
  lemma StaysAccessible(l: Layout, a: word, m: nat, b: word, n: nat)
    requires m > 0 && l.Accessible(a, m) && !l.InSegment(a)
    requires n > 0 && l.Accessible(b, n) && !l.InSegment(b)
    requires l.stackBot % 4 == 0 && l.stackBot < STACK_TOP
    ensures var size := l.GrownStack(a);
      l.Touched(a, m).Accessible(b, n) <==> STACK_TOP - b <= size || 2 * size <= l.stackLimit
  {
    hide Layout.GrownStack;
    GrownAgain(l, l.(stackBot := STACK_TOP - l.GrownStack(a)), a, b);
  }

  // The part of that about the stack alone: b is now inside it, or still makes it grow.
  lemma GrownAgain(l: Layout, l': Layout, a: word, b: word)
    requires l.GrowsStack(b) && l.GrownStack(b) <= l.stackLimit && l.stackBot % 4 == 0 && l.stackBot < STACK_TOP
    requires l' == l.(stackBot := STACK_TOP - l.GrownStack(a))
    ensures b < l'.stackBot ==> l'.GrowsStack(b)
    ensures b < l'.stackBot ==> (l'.GrownStack(b) <= l.stackLimit <==> 2 * l.GrownStack(a) <= l.stackLimit)
  {
    hide RoundUp;
    GrownIsWhole(l, a);
    var grown := l.stackBot - l'.stackBot;
    assert grown == l.GrownStack(a) - (STACK_TOP - l.stackBot);
    FourDivides(l.GrownStack(a), STACK_TOP - l.stackBot);
    RoundUpShifted(l.stackBot - b + 4, grown);
    assert l'.stackBot - b + 4 == l.stackBot - b + 4 - grown;
  }

  lemma GrownIsWhole(l: Layout, a: word)
    requires l.stackBot % 4 == 0 && l.stackBot < STACK_TOP
    ensures l.GrownStack(a) % 4 == 0 && (STACK_TOP - l.stackBot) % 4 == 0 && l.GrownStack(a) >= STACK_TOP - l.stackBot
  {
    hide RoundUp;
    var size, delta := STACK_TOP - l.stackBot, RoundUp(l.stackBot - a + 4);
    FourDivides(STACK_TOP, l.stackBot);
    SumOfFours(size, delta);
    SumOfFours(size, size);
  }

  lemma FourDivides(x: int, y: int)
    requires x % 4 == 0 && y % 4 == 0
    ensures (x - y) % 4 == 0
  {
  }

  lemma RoundUpShifted(x: int, d: int)
    requires d % 4 == 0
    ensures RoundUp(x - d) == RoundUp(x) - d
  {
    QuotientIs(x - d + 3, 4, (x + 3) / 4 - d / 4, (x + 3) % 4);
  }
  /** A call answers with an address error, of its own kind, exactly when it is not aligned to its size, and
      otherwise with success exactly when its address is in a segment or the stack may grow to it. */
  lemma AnswersByAlignment(f: Flat, a: word, size: nat, v: word)
    requires IsSize(size) && Held(f.mem, a, size)
    ensures Answer(f, Read(a, size)) == Fault(4) <==> a % size != 0
    ensures Answer(f, Write(a, size, v)) == Fault(5) <==> a % size != 0
    ensures Answer(f, Read(a, size)).Done? == Answer(f, Write(a, size, v)).Done? == f.shape.Accessible(a, size)
  {
    hide Store.Loaded, Layout.InSegment, Layout.GrowsStack, Layout.GrownStack;
  }
}
