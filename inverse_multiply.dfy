/** The factoring engine's state: the product to factor, its bit length, and the
    working arrays (one carry and one subproduct slot per bit, plus spares) that the
    factoring loop is to use. `factor` has no body yet. */
module InverseMultiplication {
  import opened Results
  import opened JavaNumbers
  import opened JavaLibrary

  /** The smallest bit length whose `bits + (bits >>> 3)` no longer fits in an `int`. */
  const FIRST_OVERFLOWING_BITS: nat := 1_908_874_354

  /** `bits + (bits >>> 3)` evaluated in `int` arithmetic: one slot per bit plus one
      spare per eight bits, wrapping to a negative number for huge bit lengths. */
  function WidthWithSpares(bits: Int): (r: Int)
    requires bits >= 0
    ensures r >= 0 <==> bits < FIRST_OVERFLOWING_BITS
    ensures r >= 0 ==> r == bits + bits / 8
    ensures r < 0 ==> r == bits + bits / 8 - 0x1_0000_0000
  {
    IntOf(bits + bits / 8)
  }

  /** Targets of at most seven bits (-128 to 127) get no spare slots; each further
      eight bits add one. */
  lemma SparesPerEightBits(bits: Int)
    requires 0 <= bits < FIRST_OVERFLOWING_BITS
    ensures WidthWithSpares(bits) - bits == bits / 8
    ensures bits < 8 <==> WidthWithSpares(bits) == bits
  {
  }

  /** BigInteger.bitLength is 0 exactly for 0 and -1, and is the same for `t` and its
      one's complement `-t - 1`. */
  lemma {:induction false} TargetBitLength(t: int)
    ensures BigIntegerBitLength(t) == 0 <==> t == 0 || t == -1
    ensures BigIntegerBitLength(-t - 1) == BigIntegerBitLength(t)
  {
  }

  class InverseMultiply {
    /** The product to factor. */
    const target: int
    /** The bit length of `target`. */
    const bits: nat
    /** One carry per bit position, plus spares. */
    const carries: array<Int>
    /** One subproduct per bit position, plus spares; `None` is a null slot. */
    const subproducts: array<Option<int>>
    /** The running product, initially zero. */
    const product: int

    ghost predicate Valid()
      reads this
    {
      bits == BigIntegerBitLength(target) &&
      bits < FIRST_OVERFLOWING_BITS &&
      carries.Length == subproducts.Length == WidthWithSpares(bits)
    }

    /** The constructor after its null check: stores the target and its bit length,
        and allocates zeroed carries, null subproducts and a zero product. */
    constructor (t: int)
      requires BigIntegerBitLength(t) < FIRST_OVERFLOWING_BITS
      ensures Valid() && fresh(carries) && fresh(subproducts)
      ensures target == t && bits == BigIntegerBitLength(t) && product == 0
      ensures carries.Length == subproducts.Length == bits + bits / 8
      ensures forall i :: 0 <= i < carries.Length ==> carries[i] == 0
      ensures forall i :: 0 <= i < subproducts.Length ==> subproducts[i] == None
    {
      target := t;
      bits := BigIntegerBitLength(t);
      var bitsWithSpares := WidthWithSpares(BigIntegerBitLength(t));
      carries := new Int[bitsWithSpares](_ => 0);
      subproducts := new Option<int>[bitsWithSpares](_ => None);
      product := 0;
    }

    /** `factor`: has no body, so it changes nothing. */
    method Factor()
      requires Valid()
      ensures Valid()
      ensures unchanged(carries) && unchanged(subproducts)
    {
    }
  }

  /** `new InverseMultiply(target)`: a null target is refused with an argument error;
      a bit length too large for `bits + (bits >>> 3)` makes the array allocation
      fail; every other target, zero and negative ones included, is accepted. */
  method Create(target: Option<int>) returns (r: Result<InverseMultiply>)
    requires target.Some? ==> BigIntegerBitLength(target.value) < 0x8000_0000
    ensures r.Err? <==> target.None? || BigIntegerBitLength(target.value) >= FIRST_OVERFLOWING_BITS
    ensures target.None? ==> r == Err(MissingProduct)
    ensures target.Some? && r.Err? ==> r == Err(NegativeArraySize)
    ensures r.Ok? ==> fresh(r.value.carries) && fresh(r.value.subproducts) && r.value.Valid()
    ensures r.Ok? ==> r.value.target == target.value && r.value.product == 0
    ensures r.Ok? ==> r.value.carries.Length == r.value.subproducts.Length
                      == r.value.bits + r.value.bits / 8
    ensures r.Ok? ==> forall i :: 0 <= i < r.value.carries.Length ==> r.value.carries[i] == 0
    ensures r.Ok? ==> forall i :: 0 <= i < r.value.subproducts.Length ==> r.value.subproducts[i] == None
  {
    if target.None? {
      return Err(MissingProduct);
    }
    var t := target.value;
    if WidthWithSpares(BigIntegerBitLength(t)) < 0 {
      return Err(NegativeArraySize);
    }
    var engine := new InverseMultiply(t);
    return Ok(engine);
  }

  /** A zero target is accepted: no bits and empty working arrays. */
  method CreateForZero() returns (r: Result<InverseMultiply>)
    ensures r.Ok? && r.value.bits == 0
    ensures r.value.carries.Length == 0 && r.value.subproducts.Length == 0
  {
    TargetBitLength(0);
    r := Create(Some(0));
  }
}
