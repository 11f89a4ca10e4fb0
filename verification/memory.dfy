/** The simulated memory: three segments of words that are also read and written as halves and bytes,
    and a stack that grows when the program touches the addresses below it.

    The text segments and the console registers are outside this class: an access to them is reported
    as such to the caller. */
module Memory {
  import opened Words
  import opened Isa

  const DATA_BOT := 0x1000_0000
  const STACK_TOP := 0x8000_0000
  const K_DATA_BOT := 0x9000_0000
  const TEXT_BOT := 0x40_0000
  const MM_IO_BOT := 0xffff_0000
  const STACK_REACH := 16 * 1024 * 1024

  datatype Result = Done(v: word) | Fault(code: nat) | TextAccess | DeviceAccess | RunError

  // ---- Words, halves and bytes of a segment ------------------------------------------------------

  function SegByte(seg: seq<word>, o: nat): byte
    requires o < 4 * |seg|
  {
    ByteOf(seg[o / 4], o % 4)
  }

  function ReplaceByte(w: word, k: nat, b: byte): word
    requires k < 4
  {
    if k == 0 then Join(b, ByteOf(w, 1), ByteOf(w, 2), ByteOf(w, 3))
    else if k == 1 then Join(ByteOf(w, 0), b, ByteOf(w, 2), ByteOf(w, 3))
    else if k == 2 then Join(ByteOf(w, 0), ByteOf(w, 1), b, ByteOf(w, 3))
    else Join(ByteOf(w, 0), ByteOf(w, 1), ByteOf(w, 2), b)
  }

  lemma ReplacedByte(w: word, k: nat, b: byte, j: nat)
    requires k < 4 && j < 4
    ensures ByteOf(ReplaceByte(w, k, b), j) == if j == k then b else ByteOf(w, j)
  {
    hide ByteOf, Join;
    var b0, b1, b2, b3 := ByteOf(w, 0), ByteOf(w, 1), ByteOf(w, 2), ByteOf(w, 3);
    JoinBytes(b, b1, b2, b3);
    JoinBytes(b0, b, b2, b3);
    JoinBytes(b0, b1, b, b3);
    JoinBytes(b0, b1, b2, b);
  }

  /** The bytes after one byte of a segment has been replaced. */
  lemma ByteWritten(seg: seq<word>, o: nat, b: byte, j: nat)
    requires o < 4 * |seg| && j < 4 * |seg|
    ensures SegByte(seg[o / 4 := ReplaceByte(seg[o / 4], o % 4, b)], j) == if j == o then b else SegByte(seg, j)
  {
    hide ReplaceByte, ByteOf;
    if j / 4 == o / 4 {
      ReplacedByte(seg[o / 4], o % 4, b, j % 4);
    }
  }

  lemma WordWritten(seg: seq<word>, o: nat, v: word, j: nat)
    requires o % 4 == 0 && o < 4 * |seg| && j < 4 * |seg|
    ensures SegByte(seg[o / 4 := v], j) == if o <= j < o + 4 then ByteOf(v, j - o) else SegByte(seg, j)
  {
    hide ByteOf;
  }

  lemma SegWord(seg: seq<word>, o: nat)
    requires o % 4 == 0 && o < 4 * |seg|
    ensures seg[o / 4] == Join(SegByte(seg, o), SegByte(seg, o + 1), SegByte(seg, o + 2), SegByte(seg, o + 3))
  {
    hide ByteOf, Join;
    BytesJoin(seg[o / 4]);
    assert (o + 1) / 4 == o / 4 && (o + 2) / 4 == o / 4 && (o + 3) / 4 == o / 4;
    assert (o + 1) % 4 == 1 && (o + 2) % 4 == 2 && (o + 3) % 4 == 3;
  }

  /** The half at offset o in its word w. */
  function HalfOf(w: word, o: nat): half {
    if o % 4 == 0 then w % 0x1_0000 else w / 0x1_0000
  }

  // A half is the lower or the upper part of its word.
  lemma SegHalf(seg: seq<word>, o: nat)
    requires o % 2 == 0 && o < 4 * |seg|
    ensures o + 1 < 4 * |seg|
    ensures HalfOf(seg[o / 4], o)
            == JoinHalf(SegByte(seg, o), SegByte(seg, o + 1))
  {
    hide ByteOf;
    var w := seg[o / 4];
    assert (o + 1) / 4 == o / 4 && (o + 1) % 4 == o % 4 + 1;
    WordHalves(w);
  }

  lemma WordHalves(w: word)
    ensures w % 0x1_0000 == JoinHalf(ByteOf(w, 0), ByteOf(w, 1)) && w / 0x1_0000 == JoinHalf(ByteOf(w, 2), ByteOf(w, 3))
  {
    NestedQuotients(w);
    BytesJoin(w);
  }

  function Zeros(n: nat): seq<word> {
    seq(n, _ => 0)
  }

  lemma ZeroByte(seg: seq<word>, o: nat)
    requires o < 4 * |seg| && forall k :: 0 <= k < |seg| ==> seg[k] == 0
    ensures SegByte(seg, o) == 0
  {
  }

  // A segment grown by d words of zeros below it, or above it.
  lemma GrownBelow(seg: seq<word>, d: nat, j: nat)
    requires j < 4 * (d + |seg|)
    ensures SegByte(Zeros(d) + seg, j) == if j < 4 * d then 0 else SegByte(seg, j - 4 * d)
  {
    var grown := Zeros(d) + seg;
    if j < 4 * d {
      assert grown[j / 4] == 0;
    } else {
      assert (j - 4 * d) / 4 == j / 4 - d && (j - 4 * d) % 4 == j % 4;
      assert grown[j / 4] == seg[j / 4 - d];
    }
  }

  lemma GrownAbove(seg: seq<word>, d: nat, j: nat)
    requires j < 4 * (|seg| + d)
    ensures SegByte(seg + Zeros(d), j) == if j < 4 * |seg| then SegByte(seg, j) else 0
  {
    var grown := seg + Zeros(d);
    if j >= 4 * |seg| {
      assert grown[j / 4] == 0;
    }
  }

  function RoundUp(x: int): (r: int)
    ensures r % 4 == 0 && x <= r < x + 4
  {
    (x + 3) / 4 * 4
  }

  lemma SumOfFours(x: int, y: int)
    requires x % 4 == 0 && y % 4 == 0
    ensures (x + y) % 4 == 0
  {
  }

  lemma FoursLess(x: int, k: int)
    ensures (x - 4 * k) % 4 == x % 4
  {
    QuotientIs(x - 4 * k, 4, x / 4 - k, x % 4);
  }

  predicate Between(lo: int, a: word, hi: int) {
    lo <= a < hi
  }

  /** Addresses from lo to hi - 1, all zero. */
  ghost function ZeroBytesFrom(lo: int, hi: int): Bytes {
    map a: word | Between(lo, a, hi) :: 0
  }

  /** The boundaries that decide which accesses are served. */
  datatype Layout = Layout(dataTop: int, stackBot: int, kDataTop: int, textTop: int, dataLimit: int, stackLimit: int) {
    predicate InSegment(a: word) {
      DATA_BOT <= a < dataTop || stackBot <= a < STACK_TOP || K_DATA_BOT <= a < kDataTop
    }

    /** Addresses that make the stack grow: below it, above the data and within 16 MB. */
    predicate GrowsStack(a: word) {
      dataTop < a < stackBot && a > stackBot - STACK_REACH
    }

    /** How large the stack becomes when it must reach down to address a: at least twice as large. */
    function GrownStack(a: word): int {
      var size, delta := STACK_TOP - stackBot, RoundUp(stackBot - a + 4);
      size + if delta > size then delta else size
    }

    /** An access of the given size succeeds: it is aligned, and it falls in a segment or grows the
        stack within its limit. */
    predicate Accessible(a: word, size: nat)
      requires size > 0
    {
      a % size == 0 && (InSegment(a) || (GrowsStack(a) && GrownStack(a) <= stackLimit))
    }

    /** What an access that does not succeed reports. */
    function Refusal(a: word, size: nat, unaligned: nat): Result
      requires size > 0
    {
      if a % size != 0 then Fault(unaligned)
      else if TEXT_BOT <= a < textTop then TextAccess
      else if GrowsStack(a) then RunError
      else if a >= MM_IO_BOT then DeviceAccess
      else Fault(BUS_ERROR_DATA)
    }

    /** The boundaries after an access. */
    function Touched(a: word, size: nat): Layout
      requires size > 0
    {
      if Accessible(a, size) && !InSegment(a) then this.(stackBot := STACK_TOP - GrownStack(a)) else this
    }

    predicate CanGrowData(bytes: int) {
      bytes >= 0 && dataTop - DATA_BOT + RoundUp(bytes) <= dataLimit
    }

    function DataGrown(bytes: int): Layout {
      if CanGrowData(bytes) then this.(dataTop := dataTop + RoundUp(bytes)) else this
    }
  }

  class Store {
    var dataSeg: array<word>
    var dataTop: word
    var stackSeg: array<word>
    var stackBot: word
    var kDataSeg: array<word>
    var kDataTop: word
    const textTop: word
    const dataLimit: nat
    const stackLimit: nat

    /** The layout: every segment is as long as its boundaries say, and data and stack cannot meet
        within their limits. */
    ghost predicate Valid()
      reads this
    {
      && dataTop == DATA_BOT + 4 * dataSeg.Length
      && stackBot + 4 * stackSeg.Length == STACK_TOP
      && kDataTop == K_DATA_BOT + 4 * kDataSeg.Length
      && DATA_BOT + dataLimit < STACK_TOP - stackLimit && stackLimit % 4 == 0
      && 4 * dataSeg.Length <= dataLimit && 4 * stackSeg.Length <= stackLimit
      && TEXT_BOT <= textTop <= DATA_BOT && kDataTop <= MM_IO_BOT
      && dataSeg != stackSeg && stackSeg != kDataSeg && dataSeg != kDataSeg
    }

    predicate InData(a: word)
      reads this
    {
      DATA_BOT <= a < dataTop
    }

    predicate InStack(a: word)
      reads this
    {
      stackBot <= a < STACK_TOP
    }

    predicate InKData(a: word)
      reads this
    {
      K_DATA_BOT <= a < kDataTop
    }

    predicate InSegment(a: word)
      reads this
    {
      InData(a) || InStack(a) || InKData(a)
    }

    function SegmentOf(a: word): array<word>
      reads this
      requires InSegment(a)
    {
      if InData(a) then dataSeg else if InStack(a) then stackSeg else kDataSeg
    }

    function OffsetOf(a: word): (o: nat)
      reads this
      requires Valid() && InSegment(a)
      ensures o < 4 * SegmentOf(a).Length && o % 4 == a % 4
    {
      FoursLess(a, DATA_BOT / 4);
      FoursLess(a, STACK_TOP / 4 - stackSeg.Length);
      FoursLess(a, K_DATA_BOT / 4);
      if InData(a) then a - DATA_BOT else if InStack(a) then a - stackBot else a - K_DATA_BOT
    }

    function ByteAt(a: word): byte
      reads this, dataSeg, stackSeg, kDataSeg
      requires Valid() && InSegment(a)
    {
      SegByte(SegmentOf(a)[..], OffsetOf(a))
    }

    /** The flat byte map that the segments stand for, with the stack as large as its limit allows and
        zero where it has not grown yet. */
    ghost function View(): Bytes
      reads this, dataSeg, stackSeg, kDataSeg
      requires Valid()
    {
      map a: word | 0 <= a < TWO32 && (InSegment(a) || STACK_TOP - stackLimit <= a < stackBot)
        :: if InSegment(a) then ByteAt(a) else 0
    }

    constructor (dataSize: nat, dataMax: nat, stackSize: nat, stackMax: nat, kDataSize: nat, top: word)
      requires dataMax >= 65536 && RoundUp(dataSize) <= dataMax && RoundUp(stackSize) <= stackMax && stackMax % 4 == 0
      requires DATA_BOT + dataMax < STACK_TOP - stackMax
      requires K_DATA_BOT + RoundUp(kDataSize) <= MM_IO_BOT && TEXT_BOT <= top <= DATA_BOT
      ensures Valid() && fresh(dataSeg) && fresh(stackSeg) && fresh(kDataSeg)
      ensures forall a: word :: InSegment(a) ==> ByteAt(a) == 0
      ensures dataTop == DATA_BOT + (if dataSize <= 65536 then 65536 else RoundUp(dataSize))
      ensures stackBot == STACK_TOP - RoundUp(stackSize) && kDataTop == K_DATA_BOT + RoundUp(kDataSize)
    {
      var size := if dataSize <= 65536 then 65536 else dataSize;
      dataSeg := new word[RoundUp(size) / 4](_ => 0);
      dataTop := DATA_BOT + RoundUp(size);
      stackSeg := new word[RoundUp(stackSize) / 4](_ => 0);
      stackBot := STACK_TOP - RoundUp(stackSize);
      kDataSeg := new word[RoundUp(kDataSize) / 4](_ => 0);
      kDataTop := K_DATA_BOT + RoundUp(kDataSize);
      textTop, dataLimit, stackLimit := top, dataMax, stackMax;
      new;
      hide SegByte;
      forall a: word | InSegment(a)
        ensures ByteAt(a) == 0
      {
        ZeroByte(SegmentOf(a)[..], OffsetOf(a));
      }
    }

    // ---- Growing ----

    function Shape(): Layout
      reads this
    {
      Layout(dataTop, stackBot, kDataTop, textTop, dataLimit, stackLimit)
    }

    method ExpandStack(bytes: nat) returns (ok: bool)
      requires Valid()
      modifies this`stackSeg, this`stackBot
      ensures Valid()
      ensures var size := STACK_TOP - old(stackBot);
        var grown := size + if RoundUp(bytes) > size then RoundUp(bytes) else size;
        && ok == (grown <= stackLimit)
        && stackBot == (if ok then STACK_TOP - grown else old(stackBot))
        && (if ok then fresh(stackSeg) else stackSeg == old(stackSeg))
      ensures View() == old(View())
    {
      hide View, RoundUp;
      var size := 4 * stackSeg.Length;
      var delta := RoundUp(bytes);
      SumOfFours(size, delta);
      SumOfFours(size, size);
      var newSize := size + if delta > size then delta else size;
      if newSize > stackLimit {
        return false;
      }
      GrowTo(newSize);
      ok := true;
    }

    method GrowTo(newSize: nat)
      requires Valid() && newSize % 4 == 0 && 4 * stackSeg.Length <= newSize <= stackLimit
      modifies this`stackSeg, this`stackBot
      ensures Valid() && fresh(stackSeg) && stackBot == STACK_TOP - newSize
      ensures View() == old(View())
    {
      hide ByteOf, SegByte, Zeros, RoundUp;
      ghost var d := newSize / 4 - stackSeg.Length;
      ghost var was := stackSeg[..];
      stackBot := stackBot - (newSize - 4 * stackSeg.Length);
      stackSeg := CopyToTop(stackSeg, newSize / 4);
      forall a: word | InStack(a)
        ensures ByteAt(a) == if a < old(stackBot) then 0 else old(ByteAt(a))
      {
        GrownBelow(was, d, a - stackBot);
      }
    }

    // ---- Reading ----

    /** An access of the given size succeeds. */
    predicate Accessible(a: word, size: nat)
      reads this
      requires size > 0
    {
      Shape().Accessible(a, size)
    }

    // The bytes of an aligned access that starts in a segment are all in that segment.
    lemma StaysInSegment(a: word, size: nat, k: nat)
      requires Valid() && (size == 1 || size == 2 || size == 4) && a % size == 0 && k < size
      requires InSegment(a)
      ensures a + size <= TWO32 && InSegment(a + k)
      ensures SegmentOf(a + k) == SegmentOf(a) && OffsetOf(a + k) == OffsetOf(a) + k
    {
      var top := if InData(a) then dataTop as int else if InStack(a) then STACK_TOP else kDataTop as int;
      AlignedBelow(a, size, top);
    }

    // The bytes of an aligned access that grows the stack are all zero so far.
    lemma StaysBelowStack(a: word, size: nat, k: nat)
      requires Valid() && (size == 1 || size == 2 || size == 4) && a % size == 0 && k < size
      requires !InSegment(a) && Shape().GrowsStack(a) && Shape().GrownStack(a) <= stackLimit
      ensures a + size <= TWO32 && a + k in View() && View()[a + k] == 0
    {
      AlignedBelow(a, size, stackBot);
    }

    lemma AccessibleIsMapped(a: word, size: nat)
      requires Valid() && (size == 1 || size == 2 || size == 4) && Accessible(a, size)
      ensures a + size <= TWO32 && Mapped(View(), a, size)
    {
      if InSegment(a) {
        StaysInSegment(a, size, 0);
      } else {
        StaysBelowStack(a, size, 0);
      }
      forall k: word | a <= k < a + size
        ensures k in View()
      {
        if InSegment(a) {
          StaysInSegment(a, size, k - a);
        } else {
          StaysBelowStack(a, size, k - a);
        }
      }
    }

    /** The stack grows down to an address below it, if its limit allows. */
    method ReachDown(a: word) returns (ok: bool)
      requires Valid() && Shape().GrowsStack(a)
      modifies this`stackSeg, this`stackBot
      ensures Valid() && View() == old(View())
      ensures ok == (old(Shape()).GrownStack(a) <= stackLimit) && (ok ==> InStack(a))
      ensures if ok then fresh(stackSeg) && stackBot == STACK_TOP - old(Shape()).GrownStack(a)
              else stackSeg == old(stackSeg) && stackBot == old(stackBot)
    {
      hide View, RoundUp;
      ok := ExpandStack(stackBot - a + 4);
    }

    /** bad_mem_read: the cases that no segment serves.  Touching the stack below itself grows it and
        reads 0. */
    method BadMemRead(a: word, size: nat) returns (r: Result)
      requires Valid() && (size == 1 || size == 2 || size == 4)
      requires !(InSegment(a) && a % size == 0)
      modifies this`stackSeg, this`stackBot
      ensures Valid() && View() == old(View())
      ensures Shape() == old(Shape()).Touched(a, size) && (stackSeg == old(stackSeg) || fresh(stackSeg))
      ensures r == if old(Accessible(a, size)) then Done(0) else old(Shape().Refusal(a, size, ADDRESS_ERROR_LOAD))
    {
      hide View, Layout.GrownStack;
      if a % size != 0 {
        return Fault(ADDRESS_ERROR_LOAD);
      }
      if TEXT_BOT <= a < textTop {
        return TextAccess;
      }
      if dataTop < a < stackBot && a > stackBot - STACK_REACH {
        var ok := ReachDown(a);
        return if ok then Done(0) else RunError;
      }
      return if a >= MM_IO_BOT then DeviceAccess else Fault(BUS_ERROR_DATA);
    }

    /** The value at an address of the view, read as a word, a sign-extended half or a sign-extended
        byte. */
    static function Loaded(mem: Bytes, a: word, size: nat): word
      requires (size == 1 || size == 2 || size == 4) && a + size <= TWO32 && Mapped(mem, a, size)
    {
      if size == 4 then WordAt(mem, a)
      else if size == 2 then SignExtendHalf(HalfAt(mem, a))
      else SignExtendByte(mem[a])
    }

    /** A read succeeds exactly when the address is accessible, gives what the flat byte map has
        there, and leaves that map as it was even when the stack grows. */
    ghost predicate ReadsFrom(mem: Bytes, a: word, size: nat, accessible: bool, refusal: Result, r: Result)
      requires size == 1 || size == 2 || size == 4
    {
      if accessible then a + size <= TWO32 && Mapped(mem, a, size) && r == Done(Loaded(mem, a, size))
      else r == refusal
    }

    lemma SegmentView(a: word)
      requires Valid() && InSegment(a)
      ensures a in View() && View()[a] == SegByte(SegmentOf(a)[..], OffsetOf(a))
    {
    }

    method ReadMemWord(a: word) returns (r: Result)
      requires Valid()
      modifies this`stackSeg, this`stackBot
      ensures Valid() && View() == old(View())
      ensures Shape() == old(Shape()).Touched(a, 4) && (stackSeg == old(stackSeg) || fresh(stackSeg))
      ensures ReadsFrom(old(View()), a, 4, old(Accessible(a, 4)), old(Shape().Refusal(a, 4, ADDRESS_ERROR_LOAD)), r)
    {
      hide View, SegByte, Join, OffsetOf, SegmentOf, Layout.Refusal;
      if InSegment(a) && a % 4 == 0 {
        var seg, o := SegmentOf(a), OffsetOf(a);
        r := Done(seg[o / 4]);
        SegWord(seg[..], o);
        AccessibleIsMapped(a, 4);
        ByteUnder(a, 4, 0);
        ByteUnder(a, 4, 1);
        ByteUnder(a, 4, 2);
        ByteUnder(a, 4, 3);
      } else {
        if Accessible(a, 4) {
          AccessibleIsMapped(a, 4);
          ZeroBytes(a, 4);
        }
        r := BadMemRead(a, 4);
      }
    }

    // A byte of the view under an aligned access is that byte of its segment.
    lemma ByteUnder(a: word, size: nat, k: nat)
      requires Valid() && (size == 1 || size == 2 || size == 4) && a % size == 0 && InSegment(a) && k < size
      ensures a + k < TWO32 && a + k in View() && OffsetOf(a) + k < 4 * SegmentOf(a).Length
      ensures View()[a + k] == SegByte(SegmentOf(a)[..], OffsetOf(a) + k)
    {
      hide SegByte, View;
      StaysInSegment(a, size, k);
      SegmentView(a + k);
    }

    lemma ZeroBytes(a: word, size: nat)
      requires Valid() && (size == 1 || size == 2 || size == 4) && Accessible(a, size) && !InSegment(a)
      ensures a + size <= TWO32 && Mapped(View(), a, size) && Loaded(View(), a, size) == 0
    {
      hide View;
      AccessibleIsMapped(a, size);
      StaysBelowStack(a, size, 0);
      if size > 1 {
        StaysBelowStack(a, size, 1);
      }
      if size > 2 {
        StaysBelowStack(a, size, 2);
        StaysBelowStack(a, size, 3);
      }
    }

    /** Halves are read as `short`: sign-extended. */
    method ReadMemHalf(a: word) returns (r: Result)
      requires Valid()
      modifies this`stackSeg, this`stackBot
      ensures Valid() && View() == old(View())
      ensures Shape() == old(Shape()).Touched(a, 2) && (stackSeg == old(stackSeg) || fresh(stackSeg))
      ensures ReadsFrom(old(View()), a, 2, old(Accessible(a, 2)), old(Shape().Refusal(a, 2, ADDRESS_ERROR_LOAD)), r)
    {
      hide View, SegByte, JoinHalf, SignExtendHalf, HalfOf, OffsetOf, SegmentOf, Layout.Refusal;
      if InSegment(a) && a % 2 == 0 {
        var seg, o := SegmentOf(a), OffsetOf(a);
        OffsetAligned(a, 2);
        SegHalf(seg[..], o);
        r := Done(SignExtendHalf(HalfOf(seg[o / 4], o)));
        AccessibleIsMapped(a, 2);
        ByteUnder(a, 2, 0);
        ByteUnder(a, 2, 1);
      } else {
        if Accessible(a, 2) {
          AccessibleIsMapped(a, 2);
          ZeroBytes(a, 2);
        }
        r := BadMemRead(a, 2);
      }
    }

    /** Bytes are read as `signed char`. */
    method ReadMemByte(a: word) returns (r: Result)
      requires Valid()
      modifies this`stackSeg, this`stackBot
      ensures Valid() && View() == old(View())
      ensures Shape() == old(Shape()).Touched(a, 1) && (stackSeg == old(stackSeg) || fresh(stackSeg))
      ensures ReadsFrom(old(View()), a, 1, old(Accessible(a, 1)), old(Shape().Refusal(a, 1, ADDRESS_ERROR_LOAD)), r)
    {
      hide View, SignExtendByte;
      if InSegment(a) {
        var seg, o := SegmentOf(a), OffsetOf(a);
        r := Done(SignExtendByte(ByteOf(seg[o / 4], o % 4)));
        AccessibleIsMapped(a, 1);
        ByteUnder(a, 1, 0);
      } else {
        if Accessible(a, 1) {
          AccessibleIsMapped(a, 1);
          ZeroBytes(a, 1);
        }
        r := BadMemRead(a, 1);
      }
    }

    // ---- Writing ----

    /** The flat byte map after a write of the given size. */
    static function Written(mem: Bytes, a: word, size: nat, v: word): Bytes
      requires (size == 1 || size == 2 || size == 4) && a + size <= TWO32
    {
      if size == 4 then PutWord(mem, a, v) else if size == 2 then PutHalf(mem, a, v) else mem[a := ByteOf(v, 0)]
    }

    /** The word of a segment after an aligned write of the given size at offset o. */
    static function Merged(w: word, o: nat, size: nat, v: word): word
      requires size == 1 || size == 2 || size == 4
    {
      if size == 4 then v
      else if size == 2 then
        if o % 4 == 0 then Join(ByteOf(v, 0), ByteOf(v, 1), ByteOf(w, 2), ByteOf(w, 3))
        else Join(ByteOf(w, 0), ByteOf(w, 1), ByteOf(v, 0), ByteOf(v, 1))
      else ReplaceByte(w, o % 4, ByteOf(v, 0))
    }

    // Addresses in one segment are as far apart as their offsets.
    lemma OffsetsAgree(a: word, b: word)
      requires Valid() && InSegment(a) && InSegment(b) && SegmentOf(a) == SegmentOf(b)
      ensures OffsetOf(b) - OffsetOf(a) == b - a
    {
    }

    method PutBytes(a: word, size: nat, v: word)
      requires Valid() && (size == 1 || size == 2 || size == 4) && a % size == 0 && InSegment(a)
      modifies dataSeg, stackSeg, kDataSeg
      ensures Valid()
      ensures forall b: word :: InSegment(b) ==> ByteAt(b) == if a <= b < a + size then ByteOf(v, b - a) else old(ByteAt(b))
    {
      hide SegByte, ByteOf, Merged, OffsetOf;
      StaysInSegment(a, size, 0);
      var seg, o := SegmentOf(a), OffsetOf(a);
      OffsetAligned(a, size);
      ghost var was := seg[..];
      seg[o / 4] := Merged(seg[o / 4], o, size, v);
      assert seg[..] == was[o / 4 := Merged(was[o / 4], o, size, v)];
      forall b: word | InSegment(b)
        ensures ByteAt(b) == if a <= b < a + size then ByteOf(v, b - a) else old(ByteAt(b))
      {
        if a <= b < a + size {
          StaysInSegment(a, size, b - a);
        }
        if SegmentOf(b) == seg {
          OffsetsAgree(a, b);
          MergedBytes(was, o, size, v, OffsetOf(b));
        }
      }
    }

    lemma OffsetAligned(a: word, size: nat)
      requires Valid() && (size == 1 || size == 2 || size == 4) && a % size == 0 && InSegment(a)
      ensures OffsetOf(a) % size == 0
    {
      hide OffsetOf;
      SameModTwo(OffsetOf(a), a);
    }

    // One aligned write into a segment is that write to the view.
    method PutInSegment(a: word, size: nat, v: word)
      requires Valid() && (size == 1 || size == 2 || size == 4) && a % size == 0 && InSegment(a)
      modifies dataSeg, stackSeg, kDataSeg
      ensures Valid() && a + size <= TWO32 && View() == Written(old(View()), a, size, v)
    {
      hide SegByte, ByteOf, Written, ByteAt;
      AccessibleIsMapped(a, size);
      PutBytes(a, size, v);
      StaysInSegment(a, size, 0);
      ViewWritten(old(View()), View(), a, size, v) by {
        forall b: word | b in View()
          ensures View()[b] == if a <= b < a + size then ByteOf(v, b - a) else old(View())[b]
        {
          if a <= b < a + size {
            StaysInSegment(a, size, b - a);
          }
        }
      }
    }

    /** A write succeeds exactly when the address is accessible, and is then that write to the flat
        byte map, whether or not the stack has to grow first; otherwise nothing changes. */
    ghost predicate WritesTo(before: Bytes, after: Bytes, a: word, size: nat, v: word, accessible: bool,
                             refusal: Result, r: Result)
      requires size == 1 || size == 2 || size == 4
    {
      if accessible then a + size <= TWO32 && after == Written(before, a, size, v) && r == Done(0)
      else after == before && r == refusal
    }

    /** bad_mem_write: after the stack has grown, the address is always inside it. */
    method BadMemWrite(a: word, size: nat, v: word) returns (r: Result)
      requires Valid() && (size == 1 || size == 2 || size == 4)
      requires !(InSegment(a) && a % size == 0)
      modifies this`stackSeg, this`stackBot, dataSeg, stackSeg, kDataSeg
      ensures Valid() && (stackSeg == old(stackSeg) || fresh(stackSeg))
      ensures Shape() == old(Shape()).Touched(a, size)
      ensures old(Accessible(a, size)) ==> InSegment(a)
      ensures old(InSegment(a)) ==> stackSeg == old(stackSeg) && stackBot == old(stackBot)
      ensures WritesTo(old(View()), View(), a, size, v, old(Accessible(a, size)),
                       old(Shape().Refusal(a, size, ADDRESS_ERROR_STORE)), r)
    {
      hide View, Written, Layout.GrownStack;
      if a % size != 0 {
        return Fault(ADDRESS_ERROR_STORE);
      }
      if TEXT_BOT <= a < textTop {
        return TextAccess;
      }
      if dataTop < a < stackBot && a > stackBot - STACK_REACH {
        var ok := ReachDown(a);
        if !ok {
          return RunError;
        }
        PutInSegment(a, size, v);
        return Done(0);
      }
      return if a >= MM_IO_BOT then DeviceAccess else Fault(BUS_ERROR_DATA);
    }

    /** set_mem_byte, set_mem_half and set_mem_word, by size. */
    method SetMem(a: word, size: nat, v: word) returns (r: Result)
      requires Valid() && (size == 1 || size == 2 || size == 4)
      modifies this`stackSeg, this`stackBot, dataSeg, stackSeg, kDataSeg
      ensures Valid() && (stackSeg == old(stackSeg) || fresh(stackSeg))
      ensures Shape() == old(Shape()).Touched(a, size)
      ensures old(Accessible(a, size)) ==> InSegment(a)
      ensures old(InSegment(a)) ==> stackSeg == old(stackSeg) && stackBot == old(stackBot)
      ensures WritesTo(old(View()), View(), a, size, v, old(Accessible(a, size)),
                       old(Shape().Refusal(a, size, ADDRESS_ERROR_STORE)), r)
    {
      hide View, Written;
      if InSegment(a) && a % size == 0 {
        PutInSegment(a, size, v);
        r := Done(0);
      } else {
        r := BadMemWrite(a, size, v);
      }
    }

    /** sbrk: the data segment grows by zeros and keeps its bytes; past the limit nothing changes. */
    method ExpandData(bytes: int) returns (ok: bool)
      requires Valid()
      modifies this`dataSeg, this`dataTop
      ensures Valid()
      ensures dataSeg == old(dataSeg) || fresh(dataSeg)
      ensures ok == old(Shape()).CanGrowData(bytes) && Shape() == old(Shape()).DataGrown(bytes)
      ensures View() == old(View()) + ZeroBytesFrom(old(dataTop), dataTop)
      ensures forall a: word :: InSegment(a) ==>
        ByteAt(a) == if old(dataTop) <= a < dataTop then 0 else old(ByteAt(a))
      ensures forall a: word :: old(InSegment(a)) ==> InSegment(a)
    {
      hide ByteAt, OffsetOf, RoundUp;
      var delta := RoundUp(bytes);
      if bytes < 0 || 4 * dataSeg.Length + delta > dataLimit {
        return false;
      }
      GrowDataBy(delta);
      ok := true;
    }

    method GrowDataBy(delta: nat)
      requires Valid() && delta % 4 == 0 && 4 * dataSeg.Length + delta <= dataLimit
      modifies this`dataSeg, this`dataTop
      ensures Valid() && fresh(dataSeg) && dataTop == old(dataTop) + delta
      ensures forall a: word :: InSegment(a) ==>
        ByteAt(a) == if old(dataTop) <= a < dataTop then 0 else old(ByteAt(a))
    {
      hide SegByte, Zeros;
      ghost var was := dataSeg[..];
      dataSeg := CopyToBottom(dataSeg, dataSeg.Length + delta / 4);
      dataTop := dataTop + delta;
      forall a: word | InSegment(a)
        ensures ByteAt(a) == if old(dataTop) <= a < dataTop then 0 else old(ByteAt(a))
      {
        if InData(a) {
          GrownAbove(was, delta / 4, a - DATA_BOT);
        }
      }
    }
  }

  /** realloc: a longer array that begins with the words of seg, zeroed behind them. */
  method CopyToBottom(seg: array<word>, length: nat) returns (newSeg: array<word>)
    requires length >= seg.Length
    ensures fresh(newSeg) && newSeg.Length == length && newSeg[..] == seg[..] + Zeros(length - seg.Length)
  {
    newSeg := new word[length];
    var p := 0;
    while p < seg.Length
      invariant 0 <= p <= seg.Length
      invariant forall k :: 0 <= k < p ==> newSeg[k] == seg[k]
    {
      newSeg[p] := seg[p];
      p := p + 1;
    }
    while p < length
      invariant seg.Length <= p <= length
      invariant forall k :: 0 <= k < seg.Length ==> newSeg[k] == seg[k]
      invariant forall k :: seg.Length <= k < p ==> newSeg[k] == 0
    {
      newSeg[p] := 0;
      p := p + 1;
    }
  }

  // The bytes of a segment after an aligned write.
  lemma MergedBytes(seg: seq<word>, o: nat, size: nat, v: word, j: nat)
    requires (size == 1 || size == 2 || size == 4) && o % size == 0 && o < 4 * |seg| && j < 4 * |seg|
    ensures SegByte(seg[o / 4 := Store.Merged(seg[o / 4], o, size, v)], j)
            == if o <= j < o + size then ByteOf(v, j - o) else SegByte(seg, j)
  {
    hide ByteOf, Join;
    if size == 1 {
      ByteWritten(seg, o, ByteOf(v, 0), j);
    } else if size == 4 {
      WordWritten(seg, o, v, j);
    } else {
      var w := seg[o / 4];
      JoinBytes(ByteOf(v, 0), ByteOf(v, 1), ByteOf(w, 2), ByteOf(w, 3));
      JoinBytes(ByteOf(w, 0), ByteOf(w, 1), ByteOf(v, 0), ByteOf(v, 1));
    }
  }

  lemma ViewWritten(before: Bytes, after: Bytes, a: word, size: nat, v: word)
    requires (size == 1 || size == 2 || size == 4) && a + size <= TWO32 && Mapped(before, a, size)
    requires after.Keys == before.Keys
    requires forall b: word :: b in after ==> after[b] == if a <= b < a + size then ByteOf(v, b - a) else before[b]
    ensures after == Store.Written(before, a, size, v)
  {
    hide ByteOf;
  }

  lemma SameModTwo(x: nat, y: nat)
    requires x % 4 == y % 4
    ensures x % 2 == y % 2
  {
    var r := x % 4;
    QuotientIs(x, 2, 2 * (x / 4) + r / 2, r % 2);
    QuotientIs(y, 2, 2 * (y / 4) + r / 2, r % 2);
  }

  lemma AlignedBelow(a: nat, size: nat, top: nat)
    requires (size == 1 || size == 2 || size == 4) && a % size == 0 && top % 4 == 0 && a < top
    ensures a + size <= top
  {
  }

  /** A new, longer array with the words of seg at its top and zeros below. */
  method CopyToTop(seg: array<word>, length: nat) returns (newSeg: array<word>)
    requires length >= seg.Length
    ensures fresh(newSeg) && newSeg.Length == length && newSeg[..] == Zeros(length - seg.Length) + seg[..]
  {
    newSeg := new word[length];
    var po, pn, d := seg.Length, length, length - seg.Length;
    while po > 0
      invariant 0 <= po <= seg.Length && pn == po + d
      invariant forall k :: pn <= k < length ==> newSeg[k] == seg[k - d]
    {
      po, pn := po - 1, pn - 1;
      newSeg[pn] := seg[po];
    }
    while pn > 0
      invariant 0 <= pn <= d
      invariant forall k :: pn <= k < d ==> newSeg[k] == 0
      invariant forall k :: d <= k < length ==> newSeg[k] == seg[k - d]
    {
      pn := pn - 1;
      newSeg[pn] := 0;
    }
    assert newSeg[..] == Zeros(d) + seg[..];
  }

  // ---- Typed reads of typed writes -----------------------------------------------------------------

  /** A word read back is the word written, and so is every byte of it. */
  lemma ReadWrittenWord(mem: Bytes, a: word, v: word, k: nat)
    requires a + 4 <= TWO32 && k < 4
    ensures Mapped(PutWord(mem, a, v), a, 4) && Store.Loaded(PutWord(mem, a, v), a, 4) == v
    ensures Store.Loaded(PutWord(mem, a, v), a + k, 1) == SignExtendByte(ByteOf(v, k))
  {
    hide ByteOf, Join;
    BytesJoin(v);
  }

  /** A write does not show in a read of other bytes, whatever the two sizes. */
  lemma ReadElsewhere(mem: Bytes, a: word, size: nat, v: word, b: word, other: nat)
    requires (size == 1 || size == 2 || size == 4) && (other == 1 || other == 2 || other == 4)
    requires a + size <= TWO32 && b + other <= TWO32 && Mapped(mem, b, other)
    requires b + other <= a || a + size <= b
    ensures var after := Store.Written(mem, a, size, v);
      Mapped(after, b, other) && Store.Loaded(after, b, other) == Store.Loaded(mem, b, other)
  {
    hide ByteOf, Join, JoinHalf, SignExtendByte, SignExtendHalf;
  }
  /** What a read returns, as an integer: that of a word, a short or a signed char. */
  lemma ReadInteger(mem: Bytes, a: word, size: nat)
    requires (size == 1 || size == 2 || size == 4) && a + size <= TWO32 && Mapped(mem, a, size)
    ensures var x: int := Store.Loaded(mem, a, size);
      && (size == 1 ==> Signed(x) == if mem[a] < 0x80 then mem[a] as int else mem[a] as int - 0x100)
      && (size == 2 ==> var h: int := mem[a] as int + 0x100 * mem[a + 1] as int;
                        Signed(x) == if h < 0x8000 then h else h - 0x1_0000)
      && (size == 4 ==> x == mem[a] as int + 0x100 * mem[a + 1] as int + 0x1_0000 * mem[a + 2] as int
                             + 0x100_0000 * mem[a + 3] as int)
  {
  }

  /** In a layout whose segments lie in their order each refusal has its own region, so that the order of the
      tests does not matter: an unaligned address faults, the text and the devices are told apart from the
      rest, and RunError is left for addresses within reach of the stack. */
  lemma RefusalRegions(l: Layout, a: word, size: nat, unaligned: nat)
    requires size > 0 && unaligned != BUS_ERROR_DATA
    requires TEXT_BOT <= l.textTop <= DATA_BOT <= l.dataTop <= l.stackBot <= STACK_TOP
    ensures l.Refusal(a, size, unaligned) == Fault(unaligned) <==> a % size != 0
    ensures l.Refusal(a, size, unaligned) == TextAccess <==> a % size == 0 && TEXT_BOT <= a < l.textTop
    ensures l.Refusal(a, size, unaligned) == DeviceAccess <==> a % size == 0 && a >= MM_IO_BOT
    ensures l.Refusal(a, size, unaligned) == RunError
            <==> a % size == 0 && l.dataTop < a < l.stackBot && l.stackBot - a < 16 * 1024 * 1024
  {
  }
  /** How far the stack grows for an address below it: it doubles, or goes as far as the address needs, and
      no further. */
  lemma GrowthSuffices(l: Layout, a: word)
    requires l.GrowsStack(a) && l.stackBot < STACK_TOP
    ensures var size, grown := STACK_TOP - l.stackBot, l.GrownStack(a);
      && grown >= 2 * size && STACK_TOP - grown <= a
      && (grown > 2 * size ==> a - 8 < STACK_TOP - grown)
  {
  }

  /** How far the data segment grows: to whole words, and never beyond its limit, short of which nothing is
      refused. */
  lemma DataGrowth(l: Layout, bytes: int)
    requires bytes >= 0 && l.dataTop <= DATA_BOT + l.dataLimit && (l.dataLimit - (l.dataTop - DATA_BOT)) % 4 == 0
    ensures var grown := l.DataGrown(bytes);
      && (l.CanGrowData(bytes) <==> l.dataTop + bytes <= DATA_BOT + l.dataLimit)
      && (if l.CanGrowData(bytes) then l.dataTop + bytes <= grown.dataTop < l.dataTop + bytes + 4 && (grown.dataTop - l.dataTop) % 4 == 0
          else grown == l)
  {
  }
}
