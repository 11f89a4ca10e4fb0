/** Data directives: bytes, halves, words and strings laid down at the data location counter, at any
    alignment. */
module DataDirectives {
  import opened Words
  import opened Isa
  import opened Memory

  /** mem with the bytes of s at a and the addresses after it. */
  function Laid(mem: Bytes, a: word, s: seq<byte>): Bytes
    requires a + |s| <= TWO32
  {
    map k: word | 0 <= k < TWO32 && (k in mem || a <= k < a + |s|) :: if a <= k < a + |s| then s[k - a] else mem[k]
  }

  function HalfBytes(v: word): seq<byte> {
    [ByteOf(v, 0), ByteOf(v, 1)]
  }

  function WordBytes(v: word): seq<byte> {
    [ByteOf(v, 0), ByteOf(v, 1), ByteOf(v, 2), ByteOf(v, 3)]
  }

  lemma LaidTwice(mem: Bytes, a: word, s: seq<byte>, t: seq<byte>)
    requires a + |s| + |t| < TWO32
    ensures Laid(Laid(mem, a, s), a + |s|, t) == Laid(mem, a, s + t)
  {
  }

  /** What has been laid is read back by the memory: the word, and the half with its sign. */
  lemma LaidReadsBack(mem: Bytes, a: word, v: word)
    requires a + 4 <= TWO32
    ensures Mapped(Laid(mem, a, WordBytes(v)), a, 4) && Store.Loaded(Laid(mem, a, WordBytes(v)), a, 4) == v
    ensures Mapped(Laid(mem, a, HalfBytes(v)), a, 2)
            && Store.Loaded(Laid(mem, a, HalfBytes(v)), a, 2) == SignExtendHalf(v % TWO16)
  {
    hide ByteOf, Join, SignExtendHalf;
    BytesJoin(v);
    WordHalves(v);
  }

  // The halves and bytes that the recursive split passes on are the value's own bytes.
  lemma SplitBytes(v: word)
    ensures HalfBytes(v % TWO16) + HalfBytes(v / TWO16 % TWO16) == WordBytes(v)
    ensures ByteOf(v % 0x100, 0) == ByteOf(v, 0) && ByteOf(v / 0x100 % 0x100, 0) == ByteOf(v, 1)
  {
    NestedQuotients(v);
    var b0: int, b1: int, b2: int, b3: int := ByteOf(v, 0), ByteOf(v, 1), ByteOf(v, 2), ByteOf(v, 3);
    BytesJoin(v);
    QuotientIs(v, TWO16, b2 + 0x100 * b3, b0 + 0x100 * b1);
    HalfSplits(b0, b1);
    HalfSplits(b2, b3);
    SmallModulo(b2 + 0x100 * b3, TWO16);
  }

  lemma HalfSplits(b0: byte, b1: byte)
    ensures HalfBytes(b0 + 0x100 * b1) == [b0, b1]
  {
    QuotientIs(b0 + 0x100 * b1, 0x100, b1, b0);
    SmallModulo(b1, 0x100);
  }

  lemma PutIsLaid(mem: Bytes, a: word, v: word)
    ensures a + 1 <= TWO32 ==> mem[a := ByteOf(v, 0)] == Laid(mem, a, [ByteOf(v, 0)])
    ensures a + 2 <= TWO32 ==> PutHalf(mem, a, v) == Laid(mem, a, HalfBytes(v))
    ensures a + 4 <= TWO32 ==> PutWord(mem, a, v) == Laid(mem, a, WordBytes(v))
  {
    hide ByteOf;
  }

  class Assembler {
    const store: Store
    var nextDataPc: word
    var nextKDataPc: word
    var inKernel: bool
    var autoAlignment: bool

    constructor (s: Store, pc: word, kpc: word)
      ensures store == s && nextDataPc == pc && nextKDataPc == kpc && !inKernel && autoAlignment
    {
      store, nextDataPc, nextKDataPc, inKernel, autoAlignment := s, pc, kpc, false, true;
    }

    function DataPc(): word
      reads this
    {
      if inKernel then nextKDataPc else nextDataPc
    }

    /** The next n bytes are in a segment. */
    predicate Room(n: nat)
      reads this, store
    {
      DataPc() + n < TWO32 && forall a: word :: DataPc() <= a < DataPc() + n ==> store.InSegment(a)
    }

    method Bump(delta: nat)
      modifies this`nextDataPc, this`nextKDataPc
      ensures DataPc() == Wrap(old(DataPc()) + delta)
      ensures if inKernel then nextDataPc == old(nextDataPc) else nextKDataPc == old(nextKDataPc)
    {
      if inKernel {
        nextKDataPc := Wrap(nextKDataPc as int + delta);
      } else {
        nextDataPc := Wrap(nextDataPc as int + delta);
      }
    }

    /** What a directive that lays down the bytes s does: when they all fall in a segment, the view
        gets exactly those bytes, and in any case the location counter of the segment that is being filled
        moves past them, and the other one stays. */
    twostate predicate Lays(s: seq<byte>)
      reads this, store, store.dataSeg, store.stackSeg, store.kDataSeg
      requires old(store.Valid()) && store.Valid()
    {
      && (if inKernel then nextKDataPc == Wrap(old(nextKDataPc) + |s|) && nextDataPc == old(nextDataPc)
          else nextDataPc == Wrap(old(nextDataPc) + |s|) && nextKDataPc == old(nextKDataPc))
      && (old(Room(|s|)) ==>
            && store.View() == Laid(old(store.View()), old(DataPc()), s)
            && store.stackSeg == old(store.stackSeg) && store.stackBot == old(store.stackBot))
    }

    // A value that fits the size and the alignment is written in one piece.
    method Place(size: nat, v: word, ghost s: seq<byte>)
      requires store.Valid() && (size == 1 || size == 2 || size == 4) && DataPc() % size == 0
      requires s == if size == 4 then WordBytes(v) else if size == 2 then HalfBytes(v) else [ByteOf(v, 0)]
      modifies this`nextDataPc, this`nextKDataPc
      modifies store`stackSeg, store`stackBot, store.dataSeg, store.stackSeg, store.kDataSeg
      ensures store.Valid() && Lays(s)
      ensures store.stackSeg == old(store.stackSeg) || fresh(store.stackSeg)
    {
      hide ByteOf, Store.View, Laid, WordBytes, HalfBytes, Wrap;
      assert |s| == size by { BytesLength(v); }
      PutIsLaid(store.View(), DataPc(), v);
      assert store.InSegment(DataPc()) ==> store.Accessible(DataPc(), size);
      var r := store.SetMem(DataPc(), size, v);
      Bump(size);
    }

    lemma BytesLength(v: word)
      ensures |WordBytes(v)| == 4 && |HalfBytes(v)| == 2
    {
    }

    method StoreByte(value: word)
      requires store.Valid()
      modifies this`nextDataPc, this`nextKDataPc
      modifies store`stackSeg, store`stackBot, store.dataSeg, store.stackSeg, store.kDataSeg
      ensures store.Valid() && Lays([ByteOf(value, 0)])
      ensures store.stackSeg == old(store.stackSeg) || fresh(store.stackSeg)
    {
      Place(1, value, [ByteOf(value, 0)]);
    }

    /** .half: at an odd location it is laid down as two bytes. */
    method StoreHalf(value: word)
      requires store.Valid()
      modifies this`nextDataPc, this`nextKDataPc
      modifies store`stackSeg, store`stackBot, store.dataSeg, store.stackSeg, store.kDataSeg
      ensures store.Valid() && Lays(HalfBytes(value))
      ensures store.stackSeg == old(store.stackSeg) || fresh(store.stackSeg)
    {
      hide Store.View, Laid, ByteOf, Wrap;
      if DataPc() % 2 != 0 {
        var low, high: word := value % 0x100, value / 0x100 % 0x100;
        SplitBytes(value);
        WrapSteps(DataPc() + 1, 1);
        if Room(2) {
          LaidTwice(store.View(), DataPc(), [ByteOf(value, 0)], [ByteOf(value, 1)]);
          SmallWrap(DataPc() + 1);
        }
        assert [ByteOf(value, 0)] + [ByteOf(value, 1)] == HalfBytes(value);
        StoreByte(low);
        StoreByte(high);
      } else {
        Place(2, value, HalfBytes(value));
      }
    }

    /** .word: away from a word boundary it is laid down as two halves, each of which may be two
        bytes.  The bytes laid down are the same at every location. */
    method StoreWord(value: word)
      requires store.Valid()
      modifies this`nextDataPc, this`nextKDataPc
      modifies store`stackSeg, store`stackBot, store.dataSeg, store.stackSeg, store.kDataSeg
      ensures store.Valid() && Lays(WordBytes(value))
      ensures store.stackSeg == old(store.stackSeg) || fresh(store.stackSeg)
    {
      hide Store.View, Laid, ByteOf, HalfBytes, Wrap;
      BytesLength(value);
      if DataPc() % 4 != 0 {
        var low, high: word := value % TWO16, value / TWO16 % TWO16;
        BytesLength(low);
        BytesLength(high);
        SplitBytes(value);
        WrapSteps(DataPc() + 2, 2);
        if Room(4) {
          LaidTwice(store.View(), DataPc(), HalfBytes(low), HalfBytes(high));
          SmallWrap(DataPc() + 2);
        }
        StoreHalf(low);
        StoreHalf(high);
      } else {
        Place(4, value, WordBytes(value));
      }
    }

    /** .ascii and .asciiz. */
    method StoreString(s: seq<byte>, nullTerminate: bool)
      requires store.Valid()
      modifies this`nextDataPc, this`nextKDataPc
      modifies store`stackSeg, store`stackBot, store.dataSeg, store.stackSeg, store.kDataSeg
      ensures store.Valid() && Lays(s + if nullTerminate then [0] else [])
      ensures store.stackSeg == old(store.stackSeg) || fresh(store.stackSeg)
    {
      hide Store.View, Laid, ByteOf, Wrap;
      var bytes := s + if nullTerminate then [0] else [];
      var i := 0;
      LaidNothing(store.View(), DataPc());
      SmallWrap(DataPc());
      while i < |bytes|
        invariant i <= |bytes| && store.Valid() && Lays(bytes[..i])
        invariant store.stackSeg == old(store.stackSeg) || fresh(store.stackSeg)
      {
        assert bytes[..i + 1] == bytes[..i] + [bytes[i]];
        WrapSteps(old(DataPc()) + i, 1);
        if old(Room(i + 1)) {
          SmallWrap(old(DataPc()) + i);
          LaidTwice(old(store.View()), old(DataPc()), bytes[..i], [bytes[i]]);
        }
        LowByte(bytes[i]);
        StoreByte(bytes[i]);
        i := i + 1;
      }
      assert bytes[..i] == bytes;
    }

    lemma LowByte(b: byte)
      ensures ByteOf(b, 0) == b
    {
    }

    lemma LaidNothing(mem: Bytes, a: word)
      ensures Laid(mem, a, []) == mem
    {
    }

    /** .align: 0 turns automatic alignment off; otherwise the counter moves to the next multiple of
        2^alignment. */
    method AlignData(alignment: nat)
      requires alignment < 32
      modifies this`nextDataPc, this`nextKDataPc, this`autoAlignment
      ensures alignment == 0 ==> !autoAlignment && DataPc() == old(DataPc())
      ensures alignment > 0 ==> autoAlignment == old(autoAlignment)
      ensures alignment > 0 && old(DataPc()) + Pow2(alignment) <= TWO32 ==>
        && DataPc() % Pow2(alignment) == 0
        && old(DataPc()) <= DataPc() < old(DataPc()) + Pow2(alignment)
      ensures if inKernel then nextDataPc == old(nextDataPc) else nextKDataPc == old(nextKDataPc)
    {
      hide Wrap, Pow2;
      if alignment == 0 {
        autoAlignment := false;
      } else if inKernel {
        AlignedUp(nextKDataPc, alignment);
        nextKDataPc := Align(nextKDataPc, alignment);
      } else {
        AlignedUp(nextDataPc, alignment);
        nextDataPc := Align(nextDataPc, alignment);
      }
    }
  }

  /** (pc + 2^k - 1) with its k low bits cleared. */
  function Align(pc: word, k: nat): word {
    var x := Wrap(pc + Pow2(k) - 1);
    ClearedBits(x, Pow2(k));
    x / Pow2(k) * Pow2(k)
  }

  lemma ClearedBits(x: nat, p: nat)
    requires p > 0
    ensures 0 <= x / p * p <= x && x - x / p * p < p && (x / p * p) % p == 0
  {
    DivisionHolds(x, p);
    QuotientIs(x / p * p, p, x / p, 0);
  }

  lemma AlignedUp(pc: word, k: nat)
    requires k > 0
    ensures pc + Pow2(k) <= TWO32 ==> Align(pc, k) % Pow2(k) == 0 && pc <= Align(pc, k) < pc + Pow2(k)
  {
    hide Pow2;
    var p := Pow2(k);
    if pc + p <= TWO32 {
      SmallWrap(pc + p - 1);
      ClearedBits(pc + p - 1, p);
    }
  }
}
