/** The library calls the bit array and the factoring engine make
    (Long.numberOfLeadingZeros, BigInteger.bitLength, BigInteger.toByteArray),
    given by their documented results. */
module JavaLibrary {
  import opened JavaNumbers

  /** Long.numberOfLeadingZeros: the zero bits above the highest one-bit of the
      64-bit pattern, 64 for zero. */
  function NumberOfLeadingZeros(v: Long): (r: nat)
    ensures r <= 64
    ensures v == 0 <==> r == 64
    ensures v != 0 ==> Pow2(63 - r) <= Bits(v) < Pow2(64 - r)
  {
    Pow2Constants();
    BitLengthAtMost(Bits(v), 64);
    64 - BitLength(Bits(v))
  }

  /** `64 - Long.numberOfLeadingZeros(v)` is the bit length of `v` read unsigned:
      0 for 0, 64 for every negative value, and otherwise the number of binary
      digits of `v`. */
  lemma UnsignedBitLengthOfLong(v: Long)
    ensures var n := 64 - NumberOfLeadingZeros(v);
      (v == 0 <==> n == 0) &&
      (v < 0 ==> n == 64) &&
      (v > 0 ==> 0 < n < 64 && Pow2(n - 1) <= v < Pow2(n))
  {
    Pow2Constants();
    if v < 0 {
      BitLengthIs(Bits(v), 64);
    } else if v > 0 {
      BitLengthAtMost(v, 63);
    }
  }

  /** BigInteger.bitLength: the number of bits of the shortest two's-complement
      form of `v`, sign bit excluded. */
  function BigIntegerBitLength(v: int): (r: nat)
    ensures 0 <= v + Pow2(r) && v < Pow2(r)
    ensures r > 0 ==> v + Pow2(r - 1) < 0 || Pow2(r - 1) <= v
  {
    if v >= 0 then BitLength(v) else BitLength(-v - 1)
  }

  /** `b & 0xff`: the byte's bit pattern read unsigned. */
  function Unsigned8(b: JByte): (u: nat)
    ensures u < 0x100
  {
    b % 0x100
  }

  /** The Java byte whose bit pattern is `u`. */
  function SignedByte(u: nat): (b: JByte)
    requires u < 0x100
    ensures Unsigned8(b) == u
  {
    if u < 0x80 then u else u - 0x100
  }

  /** The bytes read as an unsigned big-endian number in base 256. */
  function BigEndian(bytes: seq<JByte>): (r: nat)
    ensures r < Pow2(8 * |bytes|)
  {
    if |bytes| == 0 then 0
    else
      var p := Pow2(8 * (|bytes| - 1));
      Pow2Constants();
      Pow2Add(8 * (|bytes| - 1), 8);
      DigitBound(Unsigned8(bytes[0]), p, BigEndian(bytes[1..]));
      Unsigned8(bytes[0]) * p + BigEndian(bytes[1..])
  }

  lemma DigitBound(u: nat, p: nat, rest: nat)
    requires u < 0x100 && rest < p
    ensures u * p + rest < p * 0x100
  {
    assert u * p <= 0xff * p;
  }

  lemma Distribute(u: nat, p: nat, q: nat, low: nat, rest: nat)
    ensures u * (p * q) + (low * q + rest) == (u * p + low) * q + rest
  {
    assert u * (p * q) == (u * p) * q;
    assert (u * p) * q + low * q == (u * p + low) * q;
  }

  /** Reading a concatenation big-endian: the first part supplies the high digits. */
  lemma {:induction false} BigEndianAppend(a: seq<JByte>, b: seq<JByte>)
    ensures BigEndian(a + b) == BigEndian(a) * Pow2(8 * |b|) + BigEndian(b)
  {
    if |a| > 0 {
      assert (a + b)[0] == a[0];
      assert (a + b)[1..] == a[1..] + b;
      BigEndianAppend(a[1..], b);
      Pow2Add(8 * (|a| - 1), 8 * |b|);
      assert 8 * (|a + b| - 1) == 8 * (|a| - 1) + 8 * |b|;
      Distribute(Unsigned8(a[0]), Pow2(8 * (|a| - 1)), Pow2(8 * |b|), BigEndian(a[1..]), BigEndian(b));
    } else {
      assert a + b == b;
    }
  }

  /** The `n` bytes of `x`, most significant first. */
  function BytesOf(x: nat, n: nat): (r: seq<JByte>)
    requires x < Pow2(8 * n)
    ensures |r| == n
    ensures BigEndian(r) == x
  {
    if n == 0 then []
    else
      var q, d := x / 0x100, x % 0x100;
      Pow2Byte();
      Pow2Add(8 * (n - 1), 8);
      DivByteBound(x, Pow2(8 * (n - 1)));
      var high := BytesOf(q, n - 1);
      var low := [SignedByte(d)];
      BigEndianAppend(high, low);
      assert BigEndian(low) == d && 8 * |low| == 8;
      assert BigEndian(high + low) == q * 0x100 + d;
      high + low
  }

  /** BigInteger.toByteArray: the shortest two's-complement form of `v` with room
      for a sign bit, as big-endian bytes; for a non-negative `v` the bytes read
      unsigned give back `v`. */
  function ToByteArray(v: int): (r: seq<JByte>)
    ensures |r| == BigIntegerBitLength(v) / 8 + 1
    ensures v >= 0 ==> BigEndian(r) == v
    ensures v < 0 ==> BigEndian(r) == v + Pow2(8 * |r|)
  {
    var n := BigIntegerBitLength(v) / 8 + 1;
    Pow2Monotone(BigIntegerBitLength(v), 8 * n);
    Pow2Add(8 * n - 1, 1);
    Pow2Monotone(BigIntegerBitLength(v), 8 * n - 1);
    BytesOf(if v >= 0 then v else v + Pow2(8 * n), n)
  }
}
