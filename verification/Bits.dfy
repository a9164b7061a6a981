/**
  The 64-bit words of the kernel and C's bitwise operators on them.

  A `uint64_t` is an integer below 2^64. The operators `|`, `&` and `~` are defined
  bit by bit, and the lemmas say what the kernel's idioms (set a bit, clear a bit,
  pack flags under a page-aligned address, mask out a field) compute.
 */
module Bits {
  const TWO_64: int := 0x1_0000_0000_0000_0000

  type u64 = x: int | 0 <= x < TWO_64

  /** What unsigned 64-bit arithmetic leaves of an integer. */
  function Wrap(x: int): u64 {
    x % TWO_64
  }

  function Pow2(n: nat): (p: nat)
    ensures p > 0
  {
    if n == 0 then 1 else 2 * Pow2(n - 1)
  }

  predicate TestBit(a: nat, k: nat) {
    if k == 0 then a % 2 == 1 else TestBit(a / 2, k - 1)
  }

  function BitOr(a: nat, b: nat): nat
    decreases a + b
  {
    if a == 0 && b == 0 then 0
    else (if a % 2 == 1 || b % 2 == 1 then 1 else 0) + 2 * BitOr(a / 2, b / 2)
  }

  function BitAnd(a: nat, b: nat): nat
    decreases a + b
  {
    if a == 0 || b == 0 then 0
    else (if a % 2 == 1 && b % 2 == 1 then 1 else 0) + 2 * BitAnd(a / 2, b / 2)
  }

  function BitNot64(a: u64): u64 {
    TWO_64 - 1 - a
  }

  /** The bits of `a` from position `n` up, and those below it. */
  function High(a: nat, n: nat): nat {
    if n == 0 then a else High(a / 2, n - 1)
  }

  function Low(a: nat, n: nat): nat {
    if n == 0 then 0 else a % 2 + 2 * Low(a / 2, n - 1)
  }

  lemma {:induction false} Split(a: nat, n: nat)
    ensures a == High(a, n) * Pow2(n) + Low(a, n) && Low(a, n) < Pow2(n)
    ensures High(a, n) == a / Pow2(n) && Low(a, n) == a % Pow2(n)
  {
    if n > 0 {
      Split(a / 2, n - 1);
      Doubling(High(a, n), Pow2(n - 1));
    }
    QuotientRemainder(a, Pow2(n), High(a, n), Low(a, n));
  }

  lemma QuotientRemainder(a: nat, d: nat, q: nat, r: nat)
    requires d > 0 && a == q * d + r && r < d
    ensures a / d == q && a % d == r
  {
    var k := q - a / d;
    MultipleAway(k, d);
    assert k * d == q * d - a / d * d;
  }

  lemma MultipleAway(k: int, d: int)
    requires d > 0
    ensures k >= 1 ==> k * d >= d
    ensures k <= -1 ==> k * d <= -d
  {}

  lemma PowersOfTwo()
    ensures Pow2(7) == 128 && Pow2(9) == 512 && Pow2(12) == 4096
    ensures Pow2(41) == 0x200_0000_0000 && Pow2(64) == TWO_64
  {
    assert Pow2(9) == 512;
    assert Pow2(12) == 4096 by { PowSum(9, 3); }
    assert Pow2(24) == 0x100_0000 by { PowSum(12, 12); }
    assert Pow2(40) == 0x100_0000_0000 by { PowSum(24, 12); PowSum(36, 4); }
    assert Pow2(64) == Pow2(40) * Pow2(24) by { PowSum(40, 24); }
  }

  lemma {:induction false} PowSum(m: nat, n: nat)
    ensures Pow2(m + n) == Pow2(m) * Pow2(n)
  {
    if n > 0 {
      PowSum(m, n - 1);
      Doubling(Pow2(m), Pow2(n - 1));
    } else {
      assert Pow2(m) * 1 == Pow2(m);
    }
  }

  lemma {:induction false} OrTest(a: nat, b: nat, k: nat)
    ensures TestBit(BitOr(a, b), k) == (TestBit(a, k) || TestBit(b, k))
  {
    if a == 0 && b == 0 {
      ZeroTest(k);
    } else if k > 0 {
      OrTest(a / 2, b / 2, k - 1);
    }
  }

  lemma {:induction false} ZeroTest(k: nat)
    ensures !TestBit(0, k)
  {
    if k > 0 {
      ZeroTest(k - 1);
    }
  }

  lemma {:induction false} AndTest(a: nat, b: nat, k: nat)
    ensures TestBit(BitAnd(a, b), k) == (TestBit(a, k) && TestBit(b, k))
  {
    if a == 0 || b == 0 {
      ZeroTest(k);
    } else if k > 0 {
      AndTest(a / 2, b / 2, k - 1);
    }
  }

  lemma {:induction false} PowTest(n: nat, k: nat)
    ensures TestBit(Pow2(n), k) == (k == n)
  {
    if n == 0 {
      if k > 0 {
        ZeroTest(k - 1);
      }
    } else if k > 0 {
      PowTest(n - 1, k - 1);
    }
  }

  lemma {:induction false} NotTest(a: nat, n: nat, k: nat)
    requires a < Pow2(n) && k < n
    ensures TestBit(Pow2(n) - 1 - a, k) == !TestBit(a, k)
  {
    if k > 0 {
      NotTest(a / 2, n - 1, k - 1);
      assert (Pow2(n) - 1 - a) / 2 == Pow2(n - 1) - 1 - a / 2;
    }
  }

  /** Two words with the same bits are the same word. */
  lemma {:induction false} SameBits(a: nat, b: nat, n: nat)
    requires a < Pow2(n) && b < Pow2(n)
    requires forall k | 0 <= k < n :: TestBit(a, k) == TestBit(b, k)
    ensures a == b
  {
    if n > 0 {
      forall k | 0 <= k < n - 1 ensures TestBit(a / 2, k) == TestBit(b / 2, k) {
        assert TestBit(a, k + 1) == TestBit(b, k + 1);
      }
      SameBits(a / 2, b / 2, n - 1);
      assert TestBit(a, 0) == TestBit(b, 0);
    }
  }

  /** A word with no clear bit is all-ones: the fast path of a bitmap scan skips nothing. */
  lemma FullWord(w: u64)
    requires forall k | 0 <= k < 64 :: TestBit(w, k)
    ensures w == TWO_64 - 1
  {
    PowersOfTwo();
    forall k | 0 <= k < 64 ensures TestBit(w, k) == TestBit(Pow2(64) - 1, k) {
      OnesTest(64, k);
    }
    SameBits(w, Pow2(64) - 1, 64);
  }

  lemma OnesTest(n: nat, k: nat)
    requires k < n
    ensures TestBit(Pow2(n) - 1, k)
  {
    NotTest(0, n, k);
    ZeroTest(k);
  }

  lemma {:induction false} OrBound(a: nat, b: nat, n: nat)
    requires a < Pow2(n) && b < Pow2(n)
    ensures BitOr(a, b) < Pow2(n)
  {
    if n > 0 {
      OrBound(a / 2, b / 2, n - 1);
    }
  }

  lemma Or64(a: u64, b: u64)
    ensures BitOr(a, b) < TWO_64
  {
    PowersOfTwo();
    OrBound(a, b, 64);
  }

  lemma {:induction false} AndBound(a: nat, b: nat)
    ensures BitAnd(a, b) <= a
    decreases a + b
  {
    if a != 0 && b != 0 {
      AndBound(a / 2, b / 2);
    }
  }

  /** Or-ing a value into bits that are clear adds it. */
  lemma {:induction false} OrDisjoint(a: nat, b: nat, n: nat)
    requires Low(a, n) == 0 && b < Pow2(n)
    ensures BitOr(a, b) == a + b
  {
    if n == 0 {
      OrZero(a);
    } else {
      OrDisjoint(a / 2, b / 2, n - 1);
    }
  }

  lemma {:induction false} OrZero(a: nat)
    ensures BitOr(a, 0) == a
  {
    if a > 0 {
      OrZero(a / 2);
    }
  }

  lemma {:induction false} OrHigh(a: nat, b: nat, n: nat)
    ensures High(BitOr(a, b), n) == BitOr(High(a, n), High(b, n))
  {
    if n > 0 {
      OrHigh(a / 2, b / 2, n - 1);
    }
  }

  /** Masking with 2^n - 1 keeps the remainder modulo 2^n. */
  lemma {:induction false} AndLow(a: nat, n: nat)
    ensures BitAnd(a, Pow2(n) - 1) == Low(a, n)
    decreases n
  {
    if n > 0 {
      AndLow(a / 2, n - 1);
      assert (Pow2(n) - 1) / 2 == Pow2(n - 1) - 1;
      if a == 0 {
        LowZero(n);
      }
    }
  }

  lemma {:induction false} LowZero(n: nat)
    ensures Low(0, n) == 0
  {
    if n > 0 {
      LowZero(n - 1);
    }
  }

  lemma {:induction false} AndShifted(a: nat, m: nat, n: nat)
    ensures BitAnd(a, m * Pow2(n)) == BitAnd(High(a, n), m) * Pow2(n)
  {
    if n > 0 {
      var p, r := Pow2(n - 1), BitAnd(High(a, n), m);
      AndShifted(a / 2, m, n - 1);
      AndEven(a, m * p);
      Doubling(m, p);
      Doubling(r, p);
    }
  }

  lemma Doubling(m: nat, p: nat)
    ensures m * (2 * p) == 2 * (m * p)
  {}

  lemma AndEven(a: nat, x: nat)
    ensures BitAnd(a, 2 * x) == 2 * BitAnd(a / 2, x)
  {}

  lemma AndZero(a: nat)
    ensures BitAnd(a, 0) == 0
  {}

  /** `w & (1 << k)` is nonzero exactly when bit k of w is set. */
  lemma {:induction false} AndPow(a: nat, k: nat)
    ensures BitAnd(a, Pow2(k)) != 0 <==> TestBit(a, k)
  {
    if a == 0 {
      ZeroTest(k);
    } else if k > 0 {
      AndPow(a / 2, k - 1);
    } else {
      AndZero(a / 2);
    }
  }

  lemma {:induction false} ShiftTest(m: nat, n: nat, k: nat)
    ensures TestBit(m * Pow2(n), k) == (n <= k && TestBit(m, k - n))
  {
    if n > 0 {
      Doubling(m, Pow2(n - 1));
      if k > 0 {
        ShiftTest(m, n - 1, k - 1);
      }
    }
  }

  lemma {:induction false} SmallTest(a: nat, n: nat, k: nat)
    requires a < Pow2(n) <= Pow2(k)
    ensures !TestBit(a, k)
  {
    if n > 0 && k > 0 {
      SmallTest(a / 2, n - 1, k - 1);
    } else {
      ZeroTest(k);
    }
  }

  lemma {:induction false} PowMonotone(m: nat, n: nat)
    requires m <= n
    ensures Pow2(m) <= Pow2(n)
  {
    if m < n {
      PowMonotone(m, n - 1);
    }
  }

  lemma MaskFits(k: nat)
    requires k < 64
    ensures Pow2(k) < TWO_64
  {
    PowersOfTwo();
    PowMonotone(k, 63);
  }

  /** Storing byte `v` at byte offset `j` of a little-endian word. */
  function StoreByte(w: u64, j: nat, v: nat): u64
    requires j < 8 && v < 256
  {
    ByteFits(j, 255);
    ByteFits(j, v);
    AndBound(w, BitNot64(255 * Pow2(8 * j)));
    Or64(BitAnd(w, BitNot64(255 * Pow2(8 * j))), v * Pow2(8 * j));
    BitOr(BitAnd(w, BitNot64(255 * Pow2(8 * j))), v * Pow2(8 * j))
  }

  lemma ByteFits(j: nat, v: nat)
    requires j < 8 && v < 256
    ensures v * Pow2(8 * j) < TWO_64
  {
    PowersOfTwo();
    PowMonotone(8 * j, 56);
    PowSum(56, 8);
    assert Pow2(8) == 256;
    assert v * Pow2(8 * j) <= 255 * Pow2(56) by {
      MulMonotone(v, Pow2(8 * j), 255, Pow2(56));
    }
  }

  lemma MulMonotone(a: nat, b: nat, c: nat, d: nat)
    requires a <= c && b <= d
    ensures a * b <= c * d
  {
    assert a * b <= c * b <= c * d;
  }

  /** A byte value at byte offset `j` has its bits in positions 8j to 8j + 7. */
  lemma ByteTest(v: nat, j: nat, b: nat)
    requires v < 256
    ensures TestBit(v * Pow2(8 * j), b) == (b / 8 == j && TestBit(v, b % 8))
  {
    ShiftTest(v, 8 * j, b);
    assert Pow2(8) == 256;
    if 8 * j + 8 <= b {
      PowMonotone(8, b - 8 * j);
      SmallTest(v, 8, b - 8 * j);
    }
  }

  /** A stored byte replaces its eight bits of the word and no other. */
  lemma StoreByteBits(w: u64, j: nat, v: nat, b: nat)
    requires j < 8 && v < 256 && b < 64
    ensures TestBit(StoreByte(w, j, v), b) == if b / 8 == j then TestBit(v, b % 8) else TestBit(w, b)
  {
    hide BitAnd, BitOr, TestBit, Pow2;
    var mask := 255 * Pow2(8 * j);
    ByteFits(j, 255);
    ByteFits(j, v);
    PowersOfTwo();
    NotTest(mask, 64, b);
    ByteTest(255, j, b);
    ByteTest(v, j, b);
    LowOnes(b % 8);
    AndTest(w, BitNot64(mask), b);
    OrTest(BitAnd(w, BitNot64(mask)), v * Pow2(8 * j), b);
  }

  lemma LowOnes(k: nat)
    requires k < 8
    ensures TestBit(255, k)
  {
    assert Pow2(8) == 256;
    OnesTest(8, k);
  }
}
