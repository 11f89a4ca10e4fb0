/** The order of 32-bit words, as unsigned numbers and as signed ones.  Words are compared byte by byte
    from the top, which gives the usual order and keeps its laws easy to verify. */
module CodeOrder {
  function Byte3(a: bv32): bv8 {
    (a >> 24) as bv8
  }

  function Byte2(a: bv32): bv8 {
    ((a >> 16) & 0xff) as bv8
  }

  function Byte1(a: bv32): bv8 {
    ((a >> 8) & 0xff) as bv8
  }

  function Byte0(a: bv32): bv8 {
    (a & 0xff) as bv8
  }

  predicate Before(x: bv8, y: bv8) {
    x < y
  }

  predicate Less(a: bv32, b: bv32) {
    || Before(Byte3(a), Byte3(b))
    || (Byte3(a) == Byte3(b)
        && (|| Before(Byte2(a), Byte2(b))
            || (Byte2(a) == Byte2(b)
                && (Before(Byte1(a), Byte1(b)) || (Byte1(a) == Byte1(b) && Before(Byte0(a), Byte0(b)))))))
  }

  /** Flipping the sign bit turns the order of signed numbers into that of unsigned ones. */
  function Flip(a: bv32): bv32 {
    a ^ 0x80000000
  }

  predicate SignedLess(a: bv32, b: bv32) {
    Less(Flip(a), Flip(b))
  }

  lemma ByteOrder(x: bv8, y: bv8, z: bv8)
    ensures Before(x, y) && Before(y, z) ==> Before(x, z)
    ensures Before(x, y) || Before(y, x) || x == y
    ensures !Before(x, x)
  {
  }

  lemma SameBytes(a: bv32, b: bv32)
    requires Byte3(a) == Byte3(b) && Byte2(a) == Byte2(b) && Byte1(a) == Byte1(b) && Byte0(a) == Byte0(b)
    ensures a == b
  {
  }

  lemma Irreflexive(a: bv32)
    ensures !Less(a, a)
  {
    hide Byte3, Byte2, Byte1, Byte0, Before;
    ByteOrder(Byte3(a), 0, 0);
    ByteOrder(Byte2(a), 0, 0);
    ByteOrder(Byte1(a), 0, 0);
    ByteOrder(Byte0(a), 0, 0);
  }

  lemma Total(a: bv32, b: bv32)
    ensures Less(a, b) || Less(b, a) || a == b
  {
    hide Byte3, Byte2, Byte1, Byte0, Before;
    ByteOrder(Byte3(a), Byte3(b), 0);
    ByteOrder(Byte2(a), Byte2(b), 0);
    ByteOrder(Byte1(a), Byte1(b), 0);
    ByteOrder(Byte0(a), Byte0(b), 0);
    if !Less(a, b) && !Less(b, a) {
      SameBytes(a, b);
    }
  }

  lemma Transitive(a: bv32, b: bv32, c: bv32)
    requires Less(a, b) && Less(b, c)
    ensures Less(a, c)
  {
    hide Byte3, Byte2, Byte1, Byte0, Before;
    ByteOrder(Byte3(a), Byte3(b), Byte3(c));
    ByteOrder(Byte2(a), Byte2(b), Byte2(c));
    ByteOrder(Byte1(a), Byte1(b), Byte1(c));
    ByteOrder(Byte0(a), Byte0(b), Byte0(c));
  }

  /** It is the order of unsigned numbers. */
  lemma LessIsUnsigned(a: bv32, b: bv32)
    ensures Less(a, b) <==> a < b
  {
    hide Less;
    if Less(a, b) {
      BytesDecide(a, b);
    }
    if a < b {
      Decided(a, b);
    }
  }

  lemma Decided(a: bv32, b: bv32)
    requires a < b
    ensures Less(a, b)
  {
    hide Less;
    Total(a, b);
    Asymmetric(a, b);
    if Less(b, a) {
      BytesDecide(b, a);
    }
  }

  lemma BytesDecide(a: bv32, b: bv32)
    requires Less(a, b)
    ensures a < b
  {
    hide Byte3, Byte2, Byte1, Byte0, Before;
    if Before(Byte3(a), Byte3(b)) {
      TopByte(a, b);
    } else {
      if Before(Byte2(a), Byte2(b)) {
        SecondByte(a, b);
      } else {
        UpperHalf(a, b);
        if Before(Byte1(a), Byte1(b)) {
          ThirdByte(a, b);
        } else {
          UpperBytes(a, b);
          LastByte(a, b);
        }
      }
    }
  }

  lemma TopByte(a: bv32, b: bv32)
    requires Before(Byte3(a), Byte3(b))
    ensures a < b
  {
  }

  lemma SecondByte(a: bv32, b: bv32)
    requires Byte3(a) == Byte3(b) && Before(Byte2(a), Byte2(b))
    ensures a < b
  {
  }

  lemma UpperHalf(a: bv32, b: bv32)
    requires Byte3(a) == Byte3(b) && Byte2(a) == Byte2(b)
    ensures a >> 16 == b >> 16
  {
  }

  lemma ThirdByte(a: bv32, b: bv32)
    requires a >> 16 == b >> 16 && Before(Byte1(a), Byte1(b))
    ensures a < b
  {
  }

  lemma UpperBytes(a: bv32, b: bv32)
    requires a >> 16 == b >> 16 && Byte1(a) == Byte1(b)
    ensures a >> 8 == b >> 8
  {
  }

  lemma LastByte(a: bv32, b: bv32)
    requires a >> 8 == b >> 8 && Before(Byte0(a), Byte0(b))
    ensures a < b
  {
  }

  lemma Asymmetric(a: bv32, b: bv32)
    ensures !(a < b && b < a)
  {
  }

  lemma LessIsAnOrder(a: bv32, b: bv32, c: bv32)
    ensures Less(a, b) && Less(b, c) ==> Less(a, c)
    ensures Less(a, b) && !Less(c, b) ==> Less(a, c)
    ensures !Less(a, a)
  {
    hide Less;
    Irreflexive(a);
    Total(b, c);
    if Less(a, b) && Less(b, c) {
      Transitive(a, b, c);
    }
  }

  lemma FlipTwice(a: bv32)
    ensures Flip(Flip(a)) == a
  {
  }

  lemma SignedOrder(a: bv32, b: bv32, c: bv32)
    ensures !SignedLess(a, a)
    ensures SignedLess(a, b) ==> !SignedLess(b, a)
    ensures !SignedLess(a, b) && !SignedLess(b, a) ==> a == b
    ensures SignedLess(a, b) && !SignedLess(c, b) ==> SignedLess(a, c)
    ensures SignedLess(a, b) && !SignedLess(a, c) ==> SignedLess(c, b)
  {
    hide Flip, Less;
    LessIsAnOrder(Flip(a), Flip(b), Flip(c));
    LessIsAnOrder(Flip(a), Flip(b), Flip(a));
    Total(Flip(a), Flip(b));
    Total(Flip(c), Flip(b));
    LessIsAnOrder(Flip(c), Flip(a), Flip(b));
    LessIsAnOrder(Flip(a), Flip(c), Flip(b));
    Total(Flip(a), Flip(c));
    FlipTwice(a);
    FlipTwice(b);
  }
  /** And on signed words: a negative one is less than any other, and equal signs leave it to the bits. */
  lemma SignedLessIsSigned(a: bv32, b: bv32)
    ensures SignedLess(a, b) <==> (if (a >= 0x80000000) == (b >= 0x80000000) then a < b else a >= 0x80000000)
  {
    hide Less, SignedLess;
    FlippedLess(a, b);
    LessIsUnsigned(a ^ 0x80000000, b ^ 0x80000000);
    FlippedOrder(a, b);
  }

  lemma FlippedLess(a: bv32, b: bv32)
    ensures SignedLess(a, b) <==> Less(a ^ 0x80000000, b ^ 0x80000000)
  {
    hide Less;
  }

  lemma FlippedOrder(a: bv32, b: bv32)
    ensures a ^ 0x80000000 < b ^ 0x80000000
            <==> (if (a >= 0x80000000) == (b >= 0x80000000) then a < b else a >= 0x80000000)
  {
  }
}
