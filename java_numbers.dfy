/** Java's fixed-width integer types and the bitwise operators the bit array uses,
    written out on unbounded integers. */
module JavaNumbers {

  const TWO_63: nat := 0x8000_0000_0000_0000
  const TWO_64: nat := 0x1_0000_0000_0000_0000

  /** A Java `int`. */
  type Int = x: int | -0x8000_0000 <= x < 0x8000_0000

  /** A Java `long`. */
  type Long = x: int | -0x8000_0000_0000_0000 <= x < 0x8000_0000_0000_0000

  /** A Java `byte`. */
  type JByte = x: int | -0x80 <= x < 0x80

  /** The Java `int` an `int` operation yields when its exact result is `x`: the one
      value in range that agrees with `x` modulo 2^32. */
  function IntOf(x: int): (r: Int)
    ensures (r - x) % 0x1_0000_0000 == 0
  {
    var m := x % 0x1_0000_0000;
    if m < 0x8000_0000 then m else m - 0x1_0000_0000
  }

  /** The 64-bit pattern of a Java `long`, read as an unsigned number
      (bit i of the pattern has weight 2^i). */
  type Word = x: nat | x < 0x1_0000_0000_0000_0000

  function Pow2(k: nat): (r: nat)
    ensures r >= 1
  {
    if k == 0 then 1 else 2 * Pow2(k - 1)
  }

  lemma {:induction false} Pow2Add(a: nat, b: nat)
    ensures Pow2(a + b) == Pow2(a) * Pow2(b)
  {
    if a > 0 {
      Pow2Add(a - 1, b);
      assert Pow2(a + b) == 2 * Pow2(a - 1 + b);
    }
  }

  lemma {:induction false} Pow2Monotone(a: nat, b: nat)
    requires a <= b
    ensures Pow2(a) <= Pow2(b)
  {
    if a < b {
      Pow2Monotone(a, b - 1);
    }
  }

  lemma Pow2Byte()
    ensures Pow2(8) == 0x100
  {
    assert Pow2(4) == 16;
    Pow2Add(4, 4);
  }

  lemma Pow2Constants()
    ensures Pow2(8) == 0x100
    ensures Pow2(63) == TWO_63 && Pow2(64) == TWO_64
  {
    Pow2Byte();
    Pow2Square(8, 0x100);
    Pow2Square(16, 0x1_0000);
    Pow2Square(32, 0x1_0000_0000);
    assert Pow2(64) == 2 * Pow2(63);
  }

  lemma Pow2Square(k: nat, v: nat)
    requires Pow2(k) == v
    ensures Pow2(2 * k) == v * v
  {
    Pow2Add(k, k);
  }

  lemma MulDistrib(a: int, b: int, c: int, p: int)
    requires a == b + c
    ensures a * p == b * p + c * p
  {
  }

  lemma MulAssoc(a: int, b: int, c: int)
    ensures (a * b) * c == a * (b * c)
  {
  }

  /** Scaling an equation between weighted sums by `t`. */
  lemma ScaleEquation(x: int, y: int, a: int, b: int, c: int, t: int)
    requires x + a * c == y + b * c
    ensures t * x + a * (t * c) == t * y + b * (t * c)
  {
    assert a * (t * c) == t * (a * c);
    assert b * (t * c) == t * (b * c);
    assert t * (x + a * c) == t * x + t * (a * c);
    assert t * (y + b * c) == t * y + t * (b * c);
  }

  /** The bit pattern of a Java `long`. */
  function Bits(v: Long): (w: Word)
    ensures Signed(w) == v
  {
    if v >= 0 then v else v + TWO_64
  }

  /** The Java `long` whose bit pattern is `w`. */
  function Signed(w: Word): Long
  {
    if w < TWO_63 then w else w - TWO_64
  }

  /** Bit `i` of a non-negative number. */
  function Bit(x: nat, i: nat): (b: nat)
    ensures b <= 1
  {
    if i == 0 then x % 2 else Bit(x / 2, i - 1)
  }

  /** `a | b` on non-negative bit patterns. */
  function Or(a: nat, b: nat): nat
    decreases a
  {
    if a == 0 then b
    else if b == 0 then a
    else 2 * Or(a / 2, b / 2) + (if a % 2 == 1 || b % 2 == 1 then 1 else 0)
  }

  /** `a & b` on non-negative bit patterns. */
  function And(a: nat, b: nat): nat
    decreases a
  {
    if a == 0 || b == 0 then 0
    else 2 * And(a / 2, b / 2) + (if a % 2 == 1 && b % 2 == 1 then 1 else 0)
  }

  /** `~w` on a 64-bit pattern. */
  function Not64(w: Word): Word
  {
    TWO_64 - 1 - w
  }

  /** `x << s` on a `long`: Java uses only the low six bits of the distance,
      and the bits shifted past bit 63 are lost. */
  function ShiftLeftLong(x: Word, s: int): Word
  {
    (x * Pow2(s % 64)) % TWO_64
  }

  lemma ModBelow(x: nat, m: nat)
    requires x < m
    ensures x % m == x
  {
  }

  /** A left shift that pushes no bit past bit 63 is multiplication by a power of two. */
  lemma ShiftLeftLongNoWrap(x: Word, s: int)
    requires x * Pow2(s % 64) < TWO_64
    ensures ShiftLeftLong(x, s) == x * Pow2(s % 64)
  {
    ModBelow(x * Pow2(s % 64), TWO_64);
  }

  /** `x >>> s` on a non-negative `int`: Java uses only the low five bits of the distance. */
  function UnsignedShiftRightInt(x: nat, s: int): (r: nat)
    requires x < 0x8000_0000
    ensures r <= x
    ensures s % 32 == 0 ==> r == x
    ensures x < Pow2(s % 32) ==> r == 0
  {
    var p := Pow2(s % 32);
    DivBelow(x, p);
    x / p
  }

  /** Dropping the last base-256 digit of a number below `p * 256` leaves one below `p`. */
  lemma DivByteBound(x: nat, p: nat)
    requires x < p * 0x100
    ensures x / 0x100 < p
  {
  }

  lemma DivBelow(x: nat, p: int)
    requires p >= 1
    ensures 0 <= x / p <= x
    ensures x < p ==> x / p == 0
    ensures p == 1 ==> x / p == x
  {
  }

  lemma {:induction false} BitOfOr(a: nat, b: nat, i: nat)
    ensures Bit(Or(a, b), i) == if Bit(a, i) == 1 || Bit(b, i) == 1 then 1 else 0
    decreases a
  {
    if a != 0 && b != 0 && i > 0 {
      BitOfOr(a / 2, b / 2, i - 1);
    } else if a == 0 {
      BitOfZero(i);
    } else if b == 0 {
      BitOfZero(i);
    }
  }

  lemma {:induction false} BitOfAnd(a: nat, b: nat, i: nat)
    ensures Bit(And(a, b), i) == if Bit(a, i) == 1 && Bit(b, i) == 1 then 1 else 0
    decreases a
  {
    if a != 0 && b != 0 && i > 0 {
      BitOfAnd(a / 2, b / 2, i - 1);
    } else if a == 0 || b == 0 {
      BitOfZero(i);
    }
  }

  lemma {:induction false} BitOfZero(i: nat)
    ensures Bit(0, i) == 0
  {
    if i > 0 {
      BitOfZero(i - 1);
    }
  }

  lemma {:induction false} BitOfPow2(k: nat, i: nat)
    ensures Bit(Pow2(k), i) == if i == k then 1 else 0
  {
    if i > 0 {
      if k == 0 {
        BitOfZero(i - 1);
      } else {
        BitOfPow2(k - 1, i - 1);
      }
    }
  }

  /** Bit `i` of `a + 2^k m`, where `a` has no bit at or above `k`: the bits below `k`
      come from `a`, the others from `m`. */
  lemma {:induction false} BitOfSum(a: nat, m: nat, k: nat, i: nat)
    requires a < Pow2(k)
    ensures Bit(a + Pow2(k) * m, i) == if i < k then Bit(a, i) else Bit(m, i - k)
  {
    if k > 0 {
      var c := Pow2(k - 1) * m;
      MulAssoc(2, Pow2(k - 1), m);
      assert a + Pow2(k) * m == a + 2 * c;
      if i > 0 {
        assert (a + 2 * c) / 2 == a / 2 + c;
        BitOfSum(a / 2, m, k - 1, i - 1);
      }
    }
  }

  /** ORing `x` shifted left by `s` into a pattern that has no bits at or above `s`
      is addition: the two patterns have no bit in common. */
  lemma {:induction false} OrDisjoint(a: nat, x: nat, s: nat)
    requires a < Pow2(s)
    ensures Or(a, x * Pow2(s)) == a + x * Pow2(s)
  {
    var b := x * Pow2(s);
    if s > 0 && a != 0 && b != 0 {
      var c := x * Pow2(s - 1);
      MulAssoc(x, 2, Pow2(s - 1));
      assert b == 2 * c;
      OrDisjoint(a / 2, x, s - 1);
      assert Or(a, b) == 2 * Or(a / 2, c) + a % 2;
    }
  }

  /** The number of binary digits of `x`: 0 for 0, otherwise one more than the
      position of its highest one-bit. */
  function BitLength(x: nat): (r: nat)
    ensures x < Pow2(r)
    ensures r > 0 ==> Pow2(r - 1) <= x
  {
    if x == 0 then 0 else 1 + BitLength(x / 2)
  }

  lemma {:induction false} BitLengthAtMost(x: nat, m: nat)
    requires x < Pow2(m)
    ensures BitLength(x) <= m
  {
    if x > 0 {
      BitLengthAtMost(x / 2, m - 1);
    }
  }

  lemma {:induction false} BitLengthIs(x: nat, r: nat)
    requires 0 < r && Pow2(r - 1) <= x < Pow2(r)
    ensures BitLength(x) == r
  {
    if r > 1 {
      BitLengthIs(x / 2, r - 1);
    }
  }
}
