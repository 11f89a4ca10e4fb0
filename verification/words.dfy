/** 32-bit words as integers.

    The simulator keeps registers in `int32`/`uint32` variables and moves freely between the
    signed and the unsigned reading.  Here a word is the unsigned value; `Signed` gives the other
    reading and `Wrap` is the truncation that every 32-bit C operation performs. */
module Words {

  const TWO16 := 0x1_0000
  const TWO32 := 0x1_0000_0000

  type word = x: int | 0 <= x < TWO32
  type half = x: int | 0 <= x < TWO16
  type byte = x: int | 0 <= x < 0x100
  type short = x: int | -0x8000 <= x < 0x8000

  function Wrap(x: int): word {
    x % TWO32
  }

  lemma SmallWrap(x: word)
    ensures Wrap(x) == x
  {
  }

  /** Wrapping a sum or a difference of words adds or drops one 2^32 at most. */
  lemma WrapNear(x: int)
    requires -TWO32 <= x < 2 * TWO32
    ensures Wrap(x) == if x < 0 then x + TWO32 else if x < TWO32 then x else x - TWO32
  {
    if x < 0 {
      QuotientIs(x, TWO32, -1, x + TWO32);
    } else if x >= TWO32 {
      QuotientIs(x, TWO32, 1, x - TWO32);
    }
  }

  function Signed(x: word): int {
    if x < 0x8000_0000 then x else x - TWO32
  }

  /** The value of the low 16 bits of x read as a two's-complement `short`. */
  function ToShort(x: int): short {
    var h := x % TWO16;
    if h < 0x8000 then h else h - TWO16
  }

  predicate Negative(x: word) {
    x >= 0x8000_0000
  }

  function Abs(x: int): nat {
    if x < 0 then -x else x
  }

  /** C's division of integers: the quotient is truncated toward zero. */
  function TruncDiv(a: int, b: int): int
    requires b != 0
  {
    if (a < 0) == (b < 0) then Abs(a) / Abs(b) else -(Abs(a) / Abs(b))
  }

  /** C's remainder: it has the sign of the dividend. */
  function TruncRem(a: int, b: int): int
    requires b != 0
  {
    if a < 0 then -(Abs(a) % Abs(b)) else Abs(a) % Abs(b)
  }

  // A nonzero multiple of y is at least as far from zero as y.
  lemma MulAtLeast(x: int, y: int)
    requires x != 0
    ensures Abs(x * y) >= Abs(y)
  {
    if x > 0 {
      if y >= 0 { assert x * y >= y; } else { assert x * y <= y; }
    } else {
      if y >= 0 { assert x * y <= -y; } else { assert x * y >= -y; }
    }
  }

  lemma QuotientIs(x: int, d: int, q: int, r: int)
    requires x == d * q + r && 0 <= r < d
    ensures x / d == q && x % d == r
  {
    var k := q - x / d;
    assert k * d == q * d - (x / d) * d;
    assert k * d == x % d - r;
    if k != 0 {
      MulAtLeast(k, d);
    }
  }

  lemma SmallModulo(x: nat, d: nat)
    requires x < d
    ensures x % d == x && x / d == 0
  {
    QuotientIs(x, d, 0, x);
  }

  lemma QuotientBound(x: nat, d: nat)
    requires d > 0
    ensures 0 <= x / d <= x
  {
    var q := x / d;
    DivisionHolds(x, d);
    if q > x {
      assert q * d >= q by { MulAtLeast(d, q); }
    }
  }

  lemma WrapSteps(x: int, y: int)
    ensures Wrap(Wrap(x) + y) == Wrap(x + y)
  {
    var q := x / TWO32;
    assert x == q * TWO32 + Wrap(x);
    QuotientIs(x + y, TWO32, q + (Wrap(x) + y) / TWO32, (Wrap(x) + y) % TWO32);
  }

  lemma TruncDivHolds(a: int, b: int)
    requires b != 0
    ensures a == TruncDiv(a, b) * b + TruncRem(a, b)
    ensures Abs(TruncRem(a, b)) < Abs(b) && (TruncRem(a, b) == 0 || (TruncRem(a, b) < 0 <==> a < 0))
  {
    DivisionHolds(Abs(a), Abs(b));
    SignedProduct(a, b, Abs(a) / Abs(b));
  }

  lemma SignedProduct(a: int, b: int, m: int)
    ensures (if (a < 0) == (b < 0) then m else -m) * b == (if a < 0 then -(m * Abs(b)) else m * Abs(b))
  {
    MulSigns(m, Abs(b));
  }

  lemma DivisionHolds(u: nat, v: nat)
    requires v > 0
    ensures u == u / v * v + u % v && 0 <= u % v < v
  {
  }

  lemma MulSigns(m: int, b: int)
    ensures (-m) * b == -(m * b) && m * (-b) == -(m * b) && (-m) * (-b) == m * b
  {
  }

  /** The pair C computes is the one quotient/remainder pair whose remainder is smaller than the
      divisor and carries the dividend's sign. */
  lemma TruncDivUnique(a: int, b: int, q: int, r: int)
    requires b != 0
    ensures q == TruncDiv(a, b) && r == TruncRem(a, b)
            <==> a == q * b + r && Abs(r) < Abs(b) && (r == 0 || (r < 0 <==> a < 0))
  {
    var q0, r0 := TruncDiv(a, b), TruncRem(a, b);
    TruncDivHolds(a, b);
    if a == q * b + r && Abs(r) < Abs(b) && (r == 0 || (r < 0 <==> a < 0)) {
      RemaindersClose(r0, r, a, b);
      ProductDifference(q, q0, b);
      if q != q0 {
        MulAtLeast(q - q0, b);
      }
    }
  }

  lemma ProductDifference(x: int, y: int, z: int)
    ensures (x - y) * z == x * z - y * z
  {
  }

  lemma RemaindersClose(r0: int, r: int, a: int, b: int)
    requires Abs(r) < Abs(b) && Abs(r0) < Abs(b)
    requires r == 0 || (r < 0 <==> a < 0)
    requires r0 == 0 || (r0 < 0 <==> a < 0)
    ensures Abs(r0 - r) < Abs(b)
  {
  }

  // ---- Powers of two and bits -------------------------------------------------------------

  function Pow2(k: nat): (p: nat)
    ensures p >= 1
  {
    if k == 0 then 1 else 2 * Pow2(k - 1)
  }

  lemma {:induction false} Pow2Add(j: nat, k: nat)
    ensures Pow2(j + k) == Pow2(j) * Pow2(k)
  {
    if j > 0 {
      Pow2Add(j - 1, k);
      assert 2 * (Pow2(j - 1) * Pow2(k)) == (2 * Pow2(j - 1)) * Pow2(k);
    }
  }

  lemma {:induction false} Pow2Monotonic(j: nat, k: nat)
    requires j <= k
    ensures Pow2(j) <= Pow2(k)
  {
    Pow2Add(j, k - j);
    assert Pow2(j) * Pow2(k - j) >= Pow2(j);
  }

  lemma Pow2Values()
    ensures Pow2(1) == 2 && Pow2(2) == 4 && Pow2(8) == 0x100 && Pow2(16) == TWO16
    ensures Pow2(24) == 0x100_0000 && Pow2(31) == 0x8000_0000 && Pow2(32) == TWO32
  {
    assert Pow2(8) == 0x100;
    Pow2Add(8, 8);
    Pow2Add(8, 16);
    Pow2Add(16, 16);
    assert Pow2(32) == 2 * Pow2(31);
  }

  function Bit(x: nat, j: nat): nat {
    x / Pow2(j) % 2
  }

  datatype Gate = AndGate | OrGate | XorGate

  function OneBit(g: Gate, x: nat, y: nat): nat {
    match g
    case AndGate => if x == 1 && y == 1 then 1 else 0
    case OrGate => if x == 1 || y == 1 then 1 else 0
    case XorGate => if x != y then 1 else 0
  }

  /** Gate g applied to the n low bits of x and y. */
  function Bits(g: Gate, x: nat, y: nat, n: nat): (r: nat)
    ensures r < Pow2(n)
  {
    if n == 0 then 0 else OneBit(g, x % 2, y % 2) + 2 * Bits(g, x / 2, y / 2, n - 1)
  }

  function And(x: word, y: word): word {
    Pow2Values();
    Bits(AndGate, x, y, 32)
  }

  function Or(x: word, y: word): word {
    Pow2Values();
    Bits(OrGate, x, y, 32)
  }

  function Xor(x: word, y: word): word {
    Pow2Values();
    Bits(XorGate, x, y, 32)
  }

  function Not(x: word): word {
    TWO32 - 1 - x
  }

  lemma DivDiv(x: nat, a: nat, b: nat)
    requires a > 0 && b > 0
    ensures a * b > 0
    ensures x / a / b == x / (a * b)
    ensures x % (a * b) == x % a + a * (x / a % b)
  {
    var q, r := x / a, x % a;
    var q2, r2 := q / b, q % b;
    DivisionHolds(x, a);
    DivisionHolds(q, b);
    TwoLevels(a, b, q2, r2, r);
    QuotientIs(x, a * b, q2, a * r2 + r);
  }

  lemma TwoLevels(a: nat, b: nat, q2: nat, r2: nat, r: nat)
    requires r2 < b && r < a
    ensures (q2 * b + r2) * a + r == (a * b) * q2 + (a * r2 + r)
    ensures a * r2 + r < a * b
  {
    assert a * (r2 + 1) <= a * b by { ProductMonotonic(a, r2 + 1, b); }
    assert a * (r2 + 1) == a * r2 + a;
    assert (q2 * b + r2) * a == q2 * b * a + r2 * a;
    assert q2 * b * a == (a * b) * q2;
  }

  lemma ProductMonotonic(a: nat, x: nat, y: nat)
    requires x <= y
    ensures a * x <= a * y
  {
  }

  // x without its k low bits, and the k low bits alone.
  function High(x: nat, k: nat): nat {
    if k == 0 then x else High(x / 2, k - 1)
  }

  function Low(x: nat, k: nat): nat {
    if k == 0 then 0 else x % 2 + 2 * Low(x / 2, k - 1)
  }

  lemma {:induction false} HighLow(x: nat, k: nat)
    ensures High(x, k) == x / Pow2(k)
    ensures Low(x, k) == x % Pow2(k)
  {
    if k > 0 {
      HighLow(x / 2, k - 1);
      DivDiv(x, 2, Pow2(k - 1));
    }
  }

  // x moved up by k bits.
  function Up(x: nat, k: nat): nat {
    if k == 0 then x else 2 * Up(x, k - 1)
  }

  lemma {:induction false} UpIsTimes(x: nat, k: nat)
    ensures Up(x, k) == x * Pow2(k)
  {
    if k > 0 {
      UpIsTimes(x, k - 1);
      Double(x, Pow2(k - 1));
    }
  }

  lemma Double(x: int, p: int)
    ensures 2 * (x * p) == x * (2 * p)
  {
  }

  lemma LowHalf(x: nat, k: nat)
    requires k > 0
    ensures Low(x, k) % 2 == x % 2 && Low(x, k) / 2 == Low(x / 2, k - 1)
    ensures High(x, k) == High(x / 2, k - 1)
  {
    var low := Low(x / 2, k - 1);
    QuotientIs(x % 2 + 2 * low, 2, low, x % 2);
  }

  /** Bitwise gates work on the low k bits and on the rest independently. */
  lemma {:induction false} BitsHighLow(g: Gate, x: nat, y: nat, k: nat, n: nat)
    requires k <= n
    ensures Bits(g, x, y, n)
            == Up(Bits(g, High(x, k), High(y, k), n - k), k) + Bits(g, Low(x, k), Low(y, k), k)
  {
    if k > 0 {
      hide Pow2, OneBit, Low, High;
      LowHalf(x, k);
      LowHalf(y, k);
      BitsHighLow(g, x / 2, y / 2, k - 1, n - 1);
      FirstBit(g, x, y, n);
      FirstBit(g, Low(x, k), Low(y, k), k);
    }
  }

  lemma {:induction false} BitsZero(g: Gate, x: nat, n: nat)
    ensures Bits(g, x, 0, n) == if g == AndGate then 0 else x % Pow2(n)
    ensures Bits(g, 0, x, n) == if g == AndGate then 0 else x % Pow2(n)
  {
    if n > 0 {
      BitsZero(g, x / 2, n - 1);
      DivDiv(x, 2, Pow2(n - 1));
    }
  }

  lemma Pow2Step(n: nat)
    ensures n > 0 ==> Pow2(n) == 2 * Pow2(n - 1)
    ensures Pow2(0) == 1
  {
  }

  /** A mask of k ones keeps the k low bits. */
  lemma {:induction false} BitsMask(x: nat, k: nat, n: nat)
    requires k <= n
    ensures Bits(AndGate, x, Pow2(k) - 1, n) == x % Pow2(k)
  {
    hide Pow2, Bits;
    Pow2Step(k);
    if k == 0 {
      BitsZero(AndGate, x, n);
    } else {
      QuotientIs(Pow2(k) - 1, 2, Pow2(k - 1) - 1, 1);
      BitsMask(x / 2, k - 1, n - 1);
      FirstBit(AndGate, x, Pow2(k) - 1, n);
      DivDiv(x, 2, Pow2(k - 1));
    }
  }

  lemma {:induction false} BitsSame(x: nat, n: nat)
    ensures Bits(OrGate, x, x, n) == x % Pow2(n)
  {
    if n > 0 {
      BitsSame(x / 2, n - 1);
      DivDiv(x, 2, Pow2(n - 1));
    }
  }

  lemma {:induction false} BitsCommute(g: Gate, x: nat, y: nat, n: nat)
    ensures Bits(g, x, y, n) == Bits(g, y, x, n)
  {
    if n > 0 {
      BitsCommute(g, x / 2, y / 2, n - 1);
    }
  }

  lemma {:induction false} HighLowFit(x: nat, k: nat, n: nat)
    requires k <= n
    ensures x < Pow2(k) ==> High(x, k) == 0 && Low(x, k) == x
    ensures x < Pow2(n) ==> High(x, k) < Pow2(n - k)
    ensures x == Up(High(x, k), k) + Low(x, k)
  {
    if k > 0 {
      HighLowFit(x / 2, k - 1, n - 1);
    }
  }

  // OR of an x whose low k bits are clear with a y that has only those bits, in n bits.
  lemma OrFields(x: nat, y: nat, k: nat, n: nat)
    requires k <= n && x < Pow2(n) && Low(x, k) == 0 && y < Pow2(k)
    ensures Bits(OrGate, x, y, n) == x + y
  {
    hide *;
    BitsHighLow(OrGate, x, y, k, n);
    HighLowFit(y, k, n);
    HighLowFit(x, k, n);
    BitsZero(OrGate, High(x, k), n - k);
    BitsZero(OrGate, y, k);
    SmallModulo(High(x, k), Pow2(n - k));
    SmallModulo(y, Pow2(k));
  }

  /** OR of a value with its low k bits clear and a value below 2^k is their sum: the idiom by
      which the assembler and the interpreter glue bit fields together. */
  lemma OrIsPlus(hi: word, lo: nat, k: nat)
    requires k <= 32
    requires hi % Pow2(k) == 0 && lo < Pow2(k)
    ensures lo < TWO32 && hi + lo < TWO32
    ensures Or(hi, lo) == hi + lo
    ensures Or(lo, hi) == hi + lo
  {
    Pow2Values();
    Pow2Monotonic(k, 32);
    HighLow(hi, k);
    OrFields(hi, lo, k, 32);
    BitsCommute(OrGate, hi, lo, 32);
  }

  /** Bit j of a gate's result is the gate of the two bits j. */
  lemma {:induction false} BitOfBits(g: Gate, x: nat, y: nat, n: nat, j: nat)
    requires j < n
    ensures Bit(Bits(g, x, y, n), j) == OneBit(g, Bit(x, j), Bit(y, j))
  {
    hide Bits, OneBit;
    var r := Bits(g, x, y, n);
    FirstBit(g, x, y, n);
    if j > 0 {
      hide Bit;
      BitOfBits(g, x / 2, y / 2, n - 1, j - 1);
      BitHalf(r, j);
      BitHalf(x, j);
      BitHalf(y, j);
    }
  }

  lemma FirstBit(g: Gate, x: nat, y: nat, n: nat)
    requires n > 0
    ensures Bits(g, x, y, n) % 2 == OneBit(g, x % 2, y % 2) && Bits(g, x, y, n) / 2 == Bits(g, x / 2, y / 2, n - 1)
  {
    var first, rest := OneBit(g, x % 2, y % 2), Bits(g, x / 2, y / 2, n - 1);
    assert first < 2;
    QuotientIs(first + 2 * rest, 2, rest, first);
  }

  lemma BitHalf(x: nat, j: nat)
    requires j > 0
    ensures Bit(x, j) == Bit(x / 2, j - 1)
  {
    DivDiv(x, 2, Pow2(j - 1));
  }
}
