/** FactorBitArray: a non-negative number held as an array of 64-bit words
    (least significant word first) plus a bit count, with bit access by position.
    `get` and `set` are modelled as the Java code computes them, which is not what
    their documentation promises; `StoredBit` and `WithBit` are the documented
    behaviour, proved separately. */
module FactorBitArrays {
  import opened Results
  import opened JavaNumbers
  import opened JavaLibrary
  import opened WordPacking

  /** `Math.max(1, (1 + n) >>> 3)`: the words the BigInteger constructor allocates for `n` bytes. */
  function LongsLen(n: nat): nat
  {
    if (1 + n) / 8 < 1 then 1 else (1 + n) / 8
  }

  /** `bytesCnt >>> 3`: the word that the byte `bytesCnt` places from the end goes into. */
  function LongsIndex(bytesCnt: nat): nat
  {
    bytesCnt / 8
  }

  /** `(bytesCnt & 7) << 3`: that byte's bit offset inside its word. */
  function ShiftCount(bytesCnt: nat): nat
  {
    (bytesCnt % 8) * 8
  }

  /** Every word index the packing loop writes for `n` bytes lies below `len`. */
  ghost predicate PacksInto(n: nat, len: nat)
  {
    forall k :: 0 <= k < n ==> LongsIndex(k) < len
  }

  /** Every word index the packing loop writes for `n` bytes lies inside the array
      the constructor allocates. */
  ghost predicate PacksInBounds(n: nat)
  {
    PacksInto(n, LongsLen(n))
  }

  /** One word per eight bytes, rounded up, holds every byte the loop places. */
  lemma WordCountPacks(n: nat)
    ensures PacksInto(n, WordCount(n))
  {
    forall k | 0 <= k < n
      ensures LongsIndex(k) < WordCount(n)
    {
    }
  }

  /** The packing loop stays inside the array exactly when there are at most eight
      bytes or their number is 0 or 7 modulo 8; for every other count the last byte
      is written one word past the end. */
  lemma PacksInBoundsIff(n: nat)
    ensures PacksInBounds(n) <==> n <= 8 || n % 8 == 0 || n % 8 == 7
    ensures !PacksInBounds(n) ==> LongsIndex(n - 1) == LongsLen(n)
  {
    if n <= 8 || n % 8 == 0 || n % 8 == 7 {
      forall k | 0 <= k < n
        ensures LongsIndex(k) < LongsLen(n)
      {
      }
    } else {
      assert LongsIndex(n - 1) == LongsLen(n);
    }
  }

  /** Every value of 64 to 71 bits has nine bytes, gets a single word, and its ninth
      byte is written to word 1. */
  lemma PackingOverflowsFrom64Bits(value: int)
    requires 64 <= BigIntegerBitLength(value) < 72
    ensures |ToByteArray(value)| == 9 && LongsLen(9) == 1 && LongsIndex(8) == 1
    ensures !PacksInBounds(|ToByteArray(value)|)
  {
    PacksInBoundsIff(9);
  }

  /** When the loop stays in bounds, the array it fills has exactly the intended length. */
  lemma LongsLenInBounds(n: nat)
    requires PacksInBounds(n)
    ensures LongsLen(n) == WordCount(n)
  {
    PacksInBoundsIff(n);
  }

  /** The bit length of a value fits in the words its bytes pack into. */
  lemma SizeFits(value: int)
    ensures BigIntegerBitLength(value) < 8 * |ToByteArray(value)| <= 64 * WordCount(|ToByteArray(value)|)
  {
  }

  /** One iteration of the packing loop: ORing the shifted byte into a word whose
      bits at and above the shift are clear adds the byte at that offset. */
  lemma PackStep(w: Word, u: nat, s: nat)
    requires u < 0x100 && s <= 56 && w < Pow2(s)
    ensures ShiftLeftLong(u, s) == u * Pow2(s)
    ensures Or(w, ShiftLeftLong(u, s)) == w + u * Pow2(s) < Pow2(s + 8) <= TWO_64
  {
    ShiftedByteFits(u, s);
    OrDisjoint(w, u, s);
    DigitBound(u, Pow2(s), w);
  }

  /** A byte shifted by at most 56 stays inside the 64-bit word. */
  lemma ShiftedByteFits(u: nat, s: nat)
    requires u < 0x100 && s <= 56
    ensures Pow2(s + 8) == Pow2(s) * 0x100 <= TWO_64
    ensures ShiftLeftLong(u, s) == u * Pow2(s) < TWO_64
  {
    var p := Pow2(s);
    Pow2Constants();
    Pow2Add(s, 8);
    Pow2Monotone(s + 8, 64);
    DigitBound(u, p, 0);
    ModBelow(s, 64);
    ShiftLeftLongNoWrap(u, s);
  }

  /** The value of the words grows by the byte times its big-endian weight 256^k. */
  lemma PackStepValue(ws: seq<Word>, k: nat, u: nat, w': Word)
    requires LongsIndex(k) < |ws| && w' == ws[LongsIndex(k)] + u * Pow2(ShiftCount(k))
    ensures LittleEndian(ws[LongsIndex(k) := w']) == LittleEndian(ws) + u * Pow2(8 * k)
  {
    var j, s := LongsIndex(k), ShiftCount(k);
    var p, q := Pow2(64 * j), Pow2(s);
    LittleEndianUpdate(ws, j, w');
    Pow2Add(s, 64 * j);
    assert s + 64 * j == 8 * k;
    assert Pow2(8 * k) == q * p;
    MulDistrib(w', ws[j], u * q, p);
    MulAssoc(u, q, p);
  }

  /** What the packing loop keeps true after placing the last `k` of the bytes:
      the words hold their value, words no byte has reached are zero, and the word
      being filled has no bits at or above the next offset. */
  ghost predicate PackInvariant(ws: seq<Word>, bytes: seq<JByte>, k: nat)
  {
    k <= |bytes| &&
    LittleEndian(ws) == BigEndian(bytes[|bytes| - k..]) &&
    (forall j :: 0 <= j < |ws| && 8 * j >= k ==> ws[j] == 0) &&
    (LongsIndex(k) < |ws| ==> ws[LongsIndex(k)] < Pow2(ShiftCount(k)))
  }

  lemma PackInvariantStep(ws: seq<Word>, bytes: seq<JByte>, k: nat, w': Word)
    requires PackInvariant(ws, bytes, k) && k < |bytes| && LongsIndex(k) < |ws|
    requires w' == ws[LongsIndex(k)] + Unsigned8(bytes[|bytes| - (1 + k)]) * Pow2(ShiftCount(k))
    requires w' < Pow2(ShiftCount(k) + 8)
    ensures PackInvariant(ws[LongsIndex(k) := w'], bytes, k + 1)
  {
    var n, j, u := |bytes|, LongsIndex(k), Unsigned8(bytes[|bytes| - (1 + k)]);
    var ws' := ws[j := w'];
    PackStepValue(ws, k, u, w');
    BigEndianSuffixStep(bytes, k);
    assert LittleEndian(ws') == BigEndian(bytes[n - (k + 1)..]);
    NextOffset(k);
    forall i | 0 <= i < |ws'| && 8 * i >= k + 1
      ensures ws'[i] == 0
    {
      assert i != j && ws'[i] == ws[i];
    }
    var j1 := LongsIndex(k + 1);
    assert j1 < |ws'| ==> ws'[j1] < Pow2(ShiftCount(k + 1));
    assert k + 1 <= n;
  }

  /** The next byte from the end goes into the same word eight bits higher, or
      starts the next word at offset 0. */
  lemma NextOffset(k: nat)
    ensures LongsIndex(k + 1) == LongsIndex(k) ==> ShiftCount(k + 1) == ShiftCount(k) + 8
    ensures LongsIndex(k + 1) != LongsIndex(k) ==>
      LongsIndex(k + 1) == LongsIndex(k) + 1 && 8 * LongsIndex(k + 1) == k + 1 && ShiftCount(k + 1) == 0
    ensures 8 * LongsIndex(k) <= k
  {
  }

  /** Taking one more byte from the end adds it at big-endian weight 256^k. */
  lemma BigEndianSuffixStep(bytes: seq<JByte>, k: nat)
    requires k < |bytes|
    ensures BigEndian(bytes[|bytes| - (k + 1)..])
         == Unsigned8(bytes[|bytes| - (1 + k)]) * Pow2(8 * k) + BigEndian(bytes[|bytes| - k..])
  {
    var n := |bytes|;
    assert bytes[n - (k + 1)..][1..] == bytes[n - k..];
  }

  /** One iteration of the BigInteger constructor's packing loop keeps the loop invariant. */
  lemma PackLoopStep(ws: seq<Word>, bytes: seq<JByte>, k: nat)
    requires PackInvariant(ws, bytes, k) && k < |bytes| && LongsIndex(k) < |ws|
    ensures var j := LongsIndex(k);
      var w' := Or(ws[j], ShiftLeftLong(Unsigned8(bytes[|bytes| - (1 + k)]), ShiftCount(k)));
      w' < TWO_64 && PackInvariant(ws[j := w'], bytes, k + 1)
  {
    var j, u, s := LongsIndex(k), Unsigned8(bytes[|bytes| - (1 + k)]), ShiftCount(k);
    assert s <= 56 && ws[j] < Pow2(s);
    PackStep(ws[j], u, s);
    var w' := Or(ws[j], ShiftLeftLong(u, s));
    assert w' == ws[j] + u * Pow2(s) < Pow2(s + 8) <= TWO_64;
    PackInvariantStep(ws, bytes, k, w');
  }

  lemma PackInvariantStart(ws: seq<Word>, bytes: seq<JByte>)
    requires forall j :: 0 <= j < |ws| ==> ws[j] == 0
    ensures PackInvariant(ws, bytes, 0)
  {
    LittleEndianZero(ws);
    assert bytes[|bytes|..] == [];
  }

  /** Once every byte is placed, the words hold the bytes' value, and with one word
      per eight bytes they are the packing of the bytes. */
  lemma PackInvariantDone(ws: seq<Word>, bytes: seq<JByte>)
    requires PackInvariant(ws, bytes, |bytes|)
    ensures LittleEndian(ws) == BigEndian(bytes)
    ensures |ws| == WordCount(|bytes|) ==> ws == PackedWords(bytes)
  {
    assert bytes[|bytes| - |bytes|..] == bytes;
    if |ws| == WordCount(|bytes|) {
      PackedWordsUnique(bytes, ws);
    }
  }

  /** What the store in `set` writes: the old bit `retVal` (0 or 1, the result of `get`),
      not the old word, combined with the mask `1L << bitPos`. */
  function SetWordAsWritten(retVal: nat, bitPos: nat, value: int): (w: Word)
    requires retVal <= 1
    ensures w == if value == 0 then (if bitPos % 64 == 0 then 0 else retVal)
                 else (if bitPos % 64 == 0 then 1 else retVal + Pow2(bitPos % 64))
  {
    var mask := ShiftLeftLong(1, bitPos);
    MaskBits(retVal, bitPos);
    if value == 0 then And(retVal, Not64(mask)) else Or(retVal, mask)
  }

  /** `1L << bitPos` is the single bit `bitPos % 64`; clearing it from, or setting it
      in, a 0 or 1 gives the values below. */
  lemma MaskBits(retVal: nat, bitPos: nat)
    requires retVal <= 1
    ensures var j, mask := bitPos % 64, ShiftLeftLong(1, bitPos);
      mask == Pow2(j) &&
      And(retVal, Not64(mask)) == (if j == 0 then 0 else retVal) &&
      Or(retVal, mask) == (if j == 0 then 1 else retVal + Pow2(j)) &&
      Or(retVal, mask) < TWO_64
  {
    var j := bitPos % 64;
    MaskIsPow2(bitPos);
    ClearMask(retVal, j);
    SetMask(retVal, j);
  }

  lemma MaskIsPow2(bitPos: nat)
    ensures ShiftLeftLong(1, bitPos) == Pow2(bitPos % 64) <= TWO_63
  {
    Pow2Constants();
    Pow2Monotone(bitPos % 64, 63);
    ShiftLeftLongNoWrap(1, bitPos);
  }

  lemma ClearMask(retVal: nat, j: nat)
    requires retVal <= 1 && Pow2(j) <= TWO_63
    ensures And(retVal, Not64(Pow2(j))) == if j == 0 then 0 else retVal
  {
    var m := Not64(Pow2(j));
    assert m % 2 == (if j == 0 then 0 else 1) by {
      if j > 0 {
        assert Pow2(j) == 2 * Pow2(j - 1);
      }
    }
    if retVal == 1 {
      assert And(retVal, m) == 2 * And(0, m / 2) + m % 2;
    }
  }

  lemma SetMask(retVal: nat, j: nat)
    requires retVal <= 1 && Pow2(j) <= TWO_63
    ensures Or(retVal, Pow2(j)) == (if j == 0 then 1 else retVal + Pow2(j)) < TWO_64
  {
    if j > 0 {
      OrDisjoint(retVal, 1, j);
    } else if retVal == 1 {
      assert Or(1, 1) == 2 * Or(0, 0) + 1;
    }
  }

  /** The word `set` stores has no bit left of what the word held: apart from
      bit 0 and the bit being set, every bit reads 0. */
  lemma SetWordAsWrittenLosesWord(retVal: nat, bitPos: nat, value: int, i: nat)
    requires retVal <= 1 && 0 < i && i != bitPos % 64
    ensures Bit(SetWordAsWritten(retVal, bitPos, value), i) == 0
  {
    var j := bitPos % 64;
    var w := SetWordAsWritten(retVal, bitPos, value);
    BitOfZero(i - 1);
    if value != 0 && j != 0 {
      assert w / 2 == Pow2(j - 1);
      BitOfPow2(j - 1, i - 1);
    }
  }

  /** The bit at `pos` as the words hold it: what `get` is documented to return. */
  function StoredBit(ws: seq<Word>, pos: nat): nat
    requires pos / 64 < |ws|
  {
    Bit(ws[pos / 64], pos % 64)
  }

  /** The bit at `pos` of the words is bit `pos` of the number they hold. */
  lemma {:induction false} StoredBitIsValueBit(ws: seq<Word>, pos: nat)
    requires pos / 64 < |ws|
    ensures StoredBit(ws, pos) == Bit(LittleEndian(ws), pos)
    decreases pos
  {
    Pow2Constants();
    BitOfSum(ws[0], LittleEndian(ws[1..]), 64, pos);
    if pos >= 64 {
      StoredBitIsValueBit(ws[1..], pos - 64);
      assert (pos - 64) / 64 == pos / 64 - 1 && (pos - 64) % 64 == pos % 64;
    }
  }

  /** `x` with bit `j` replaced by `v`. */
  function SetBitOf(x: nat, j: nat, v: nat): nat
    requires v <= 1
  {
    if j == 0 then (x / 2) * 2 + v else SetBitOf(x / 2, j - 1, v) * 2 + x % 2
  }

  lemma {:induction false} BitOfSetBitOf(x: nat, j: nat, v: nat, i: nat)
    requires v <= 1
    ensures Bit(SetBitOf(x, j, v), i) == if i == j then v else Bit(x, i)
  {
    if j > 0 && i > 0 {
      BitOfSetBitOf(x / 2, j - 1, v, i - 1);
    }
  }

  lemma {:induction false} SetBitOfBound(x: nat, j: nat, v: nat, m: nat)
    requires v <= 1 && x < Pow2(m) && j < m
    ensures SetBitOf(x, j, v) < Pow2(m)
  {
    if j > 0 {
      SetBitOfBound(x / 2, j - 1, v, m - 1);
    }
  }

  /** The words with the bit at `pos` set to `v`: what `set` is documented to do. */
  function WithBit(ws: seq<Word>, pos: nat, v: nat): (r: seq<Word>)
    requires pos / 64 < |ws| && v <= 1
    ensures |r| == |ws|
    ensures forall i :: 0 <= i < |ws| && i != pos / 64 ==> r[i] == ws[i]
  {
    Pow2Constants();
    SetBitOfBound(ws[pos / 64], pos % 64, v, 64);
    ws[pos / 64 := SetBitOf(ws[pos / 64], pos % 64, v)]
  }

  /** The documented contract of `get` and `set`: after setting the bit at `pos` to
      `v`, that bit reads `v` and every other bit reads as before. */
  lemma StoredBitAfterWithBit(ws: seq<Word>, pos: nat, v: nat, q: nat)
    requires pos / 64 < |ws| && q / 64 < |ws| && v <= 1
    ensures StoredBit(WithBit(ws, pos, v), q) == if q == pos then v else StoredBit(ws, q)
  {
    if q / 64 == pos / 64 {
      BitOfSetBitOf(ws[pos / 64], pos % 64, v, q % 64);
    }
  }

  /** The loop of the BigInteger constructor: allocates `longsLen` zero words and ORs
      each byte, taken from the end, into word `bytesCnt >>> 3` at bit offset
      `(bytesCnt & 7) << 3`. */
  method PackBytes(bytes: seq<JByte>, longsLen: nat) returns (words: array<Word>)
    requires PacksInto(|bytes|, longsLen)
    ensures fresh(words) && words.Length == longsLen
    ensures LittleEndian(words[..]) == BigEndian(bytes)
    ensures longsLen == WordCount(|bytes|) ==> words[..] == PackedWords(bytes)
  {
    var n := |bytes|;
    words := new Word[longsLen](_ => 0);
    var bytesCnt := 0;
    PackInvariantStart(words[..], bytes);
    while bytesCnt < n
      invariant 0 <= bytesCnt <= n
      invariant PackInvariant(words[..], bytes, bytesCnt)
    {
      var bytesInd := n - (1 + bytesCnt);
      var longsInd := LongsIndex(bytesCnt);
      var shiftCnt := ShiftCount(bytesCnt);
      PackLoopStep(words[..], bytes, bytesCnt);
      words[longsInd] := Or(words[longsInd], ShiftLeftLong(Unsigned8(bytes[bytesInd]), shiftCnt));
      bytesCnt := bytesCnt + 1;
    }
    PackInvariantDone(words[..], bytes);
  }

  class FactorBitArray {
    /** The words of the array, least significant word first, each read unsigned. */
    const bits: array<Word>
    /** The number of bits in this array. */
    const size: nat

    ghost predicate Valid()
    {
      1 <= bits.Length && size <= 64 * bits.Length
    }

    /** The array of the bits of `value` read as an unsigned long. */
    constructor FromLong(value: Long)
      ensures Valid() && fresh(bits)
      ensures size == 64 - NumberOfLeadingZeros(value)
      ensures value == 0 ==> size == 0
      ensures value < 0 ==> size == 64
      ensures value > 0 ==> Pow2(size - 1) <= value < Pow2(size)
      ensures bits[..] == [Bits(value)] && Signed(bits[0]) == value
    {
      UnsignedBitLengthOfLong(value);
      size := 64 - NumberOfLeadingZeros(value);
      var words := new Word[1];
      words[0] := Bits(value);
      bits := words;
    }

    /** The array of the bits of `value`, repacked from the big-endian bytes of
        `toByteArray` into little-endian words. The loop indexes past the array
        unless the byte count is at most 8 or is 0 or 7 modulo 8. */
    constructor FromBigInteger(value: int)
      requires PacksInBounds(|ToByteArray(value)|)
      ensures Valid() && fresh(bits)
      ensures size == BigIntegerBitLength(value)
      ensures bits.Length == LongsLen(|ToByteArray(value)|)
      ensures bits[..] == PackedWords(ToByteArray(value))
      ensures value >= 0 ==> LittleEndian(bits[..]) == value
    {
      size := BigIntegerBitLength(value);
      var bytes := ToByteArray(value);
      LongsLenInBounds(|bytes|);
      var words := PackBytes(bytes, LongsLen(|bytes|));
      bits := words;
      SizeFits(value);
    }

    /** The BigInteger constructor with one word per eight bytes, rounded up: every
        value is accepted and packed. */
    constructor FromBigIntegerCorrected(value: int)
      ensures Valid() && fresh(bits)
      ensures size == BigIntegerBitLength(value)
      ensures bits.Length == WordCount(|ToByteArray(value)|)
      ensures bits[..] == PackedWords(ToByteArray(value))
      ensures value >= 0 ==> LittleEndian(bits[..]) == value
      ensures value >= 0 ==> forall p: Int :: 0 <= p < size ==> GetCorrected(p) == Ok(Bit(value, p))
    {
      size := BigIntegerBitLength(value);
      var bytes := ToByteArray(value);
      WordCountPacks(|bytes|);
      var words := PackBytes(bytes, WordCount(|bytes|));
      bits := words;
      SizeFits(value);
      new;
      forall p: Int | 0 <= p < size
        ensures GetCorrected(p) == Ok(Bit(LittleEndian(bits[..]), p))
      {
        GetCorrectedReadsValue(this, p);
      }
    }

    /** `get`: rejects a position outside [0, size); otherwise returns bit
        `bitPos & 0x3f` (taken modulo 32, as for any `int` shift) of the word
        INDEX `bitPos >>> 6`, never of the stored word. */
    function Get(bitPos: Int): (r: Result<int>)
      ensures r.Err? <==> bitPos < 0 || bitPos >= size
      ensures r.Err? ==> r.error == BitPosOutOfRange
      ensures r.Ok? ==> r.value == 0 || r.value == 1
    {
      if bitPos < 0 || bitPos >= size then Err(BitPosOutOfRange)
      else
        var longsInd := bitPos / 64;
        var bitsInd := bitPos % 64;
        var shifted := UnsignedShiftRightInt(longsInd, bitsInd);
        assert And(shifted, 1) == shifted % 2;
        Ok(And(shifted, 1))
    }

    /** `set`: first calls `get` (so a bad position is reported first), then rejects
        a value other than 0 or 1; otherwise overwrites word `bitPos >>> 6` with
        `SetWordAsWritten` and returns what `get` returned. */
    method Set(bitPos: Int, value: Int) returns (r: Result<int>)
      requires Valid()
      modifies bits
      ensures Get(bitPos).Err? ==> r == Get(bitPos)
      ensures Get(bitPos).Ok? && (value < 0 || value > 1) ==> r == Err(BitValueNotBinary)
      ensures r.Ok? <==> Get(bitPos).Ok? && (value == 0 || value == 1)
      ensures r.Err? ==> bits[..] == old(bits[..])
      ensures r.Ok? ==> r == Get(bitPos) && 0 <= bitPos < size && (value == 0 || value == 1)
      ensures r.Ok? ==>
        bits[..] == old(bits[..])[bitPos / 64 := SetWordAsWritten(r.value, bitPos, value)]
    {
      var retVal := Get(bitPos);
      if retVal.Err? {
        return retVal;
      }
      if value < 0 || value > 1 {
        return Err(BitValueNotBinary);
      }
      var longsInd := bitPos / 64;
      bits[longsInd] := SetWordAsWritten(retVal.value, bitPos, value);
      return retVal;
    }

    /** `get` as documented: the same range check, then the bit stored at `bitPos`. */
    function GetCorrected(bitPos: Int): (r: Result<int>)
      requires Valid()
      reads this, bits
      ensures r.Err? <==> bitPos < 0 || bitPos >= size
      ensures r.Err? ==> r.error == BitPosOutOfRange
      ensures r.Ok? ==> r.value == StoredBit(bits[..], bitPos) <= 1
    {
      if bitPos < 0 || bitPos >= size then Err(BitPosOutOfRange)
      else Ok(Bit(bits[bitPos / 64], bitPos % 64))
    }

    /** `set` as documented: the same checks in the same order, then only the bit at
        `bitPos` changes, so `get` reads back `value` there and every other position
        reads as before. */
    method SetCorrected(bitPos: Int, value: Int) returns (r: Result<int>)
      requires Valid()
      modifies bits
      ensures Valid()
      ensures GetCorrected(bitPos).Err? ==> r == old(GetCorrected(bitPos))
      ensures r.Ok? <==> 0 <= bitPos < size && (value == 0 || value == 1)
      ensures 0 <= bitPos < size && (value < 0 || value > 1) ==> r == Err(BitValueNotBinary)
      ensures r.Err? ==> bits[..] == old(bits[..])
      ensures r.Ok? ==> r == old(GetCorrected(bitPos)) && bits[..] == WithBit(old(bits[..]), bitPos, value)
      ensures r.Ok? ==> forall q: Int :: 0 <= q < size ==>
        GetCorrected(q) == if q == bitPos then Ok(value) else old(GetCorrected(q))
    {
      var retVal := GetCorrected(bitPos);
      if retVal.Err? {
        return retVal;
      }
      if value < 0 || value > 1 {
        return Err(BitValueNotBinary);
      }
      ghost var ws := bits[..];
      var longsInd := bitPos / 64;
      bits[longsInd] := WithBit(bits[..], bitPos, value)[longsInd];
      assert bits[..] == WithBit(ws, bitPos, value);
      forall q: Int | 0 <= q < size
        ensures GetCorrected(q) == if q == bitPos then Ok(value) else Ok(StoredBit(ws, q))
      {
        StoredBitAfterWithBit(ws, bitPos, value, q);
      }
      return retVal;
    }
  }

  /** The documented `get` reads the number the words hold, bit by bit. */
  lemma GetCorrectedReadsValue(a: FactorBitArray, pos: Int)
    requires a.Valid() && 0 <= pos < a.size
    ensures a.GetCorrected(pos) == Ok(Bit(LittleEndian(a.bits[..]), pos))
  {
    StoredBitIsValueBit(a.bits[..], pos);
  }

  /** Inside the first word `get` answers 0 whatever is stored, so it agrees with
      the stored bit exactly where that bit is 0. */
  lemma GetIgnoresStoredBits(a: FactorBitArray, pos: Int)
    requires a.Valid() && 0 <= pos < a.size && pos < 64
    ensures a.Get(pos) == Ok(0)
    ensures a.Get(pos) == Ok(StoredBit(a.bits[..], pos)) <==> Bit(a.bits[0], pos) == 0
  {
    assert UnsignedShiftRightInt(0, pos) == 0;
    assert pos / 64 == 0 && pos % 64 == pos;
    assert StoredBit(a.bits[..], pos) == Bit(a.bits[0], pos);
  }

  /** 3599 (0xE0F) has 12 bits and two bytes, which pack into the single word 3599. */
  lemma Packs3599()
    ensures BigIntegerBitLength(3599) == 12 && |ToByteArray(3599)| == 2
    ensures PacksInBounds(2) && LongsLen(2) == WordCount(2) == 1
    ensures PackedWords(ToByteArray(3599)) == [3599]
  {
    Pow2Byte();
    Pow2Add(8, 4);
    assert Pow2(4) == 16;
    assert Pow2(12) == 4096 == 2 * Pow2(11);
    BitLengthIs(3599, 12);
    assert BigIntegerBitLength(3599) == 12;
    PacksInBoundsIff(2);
  }

  /** The value 3599 (0xE0F), built as by the BigInteger constructor: `get(2)` and
      `get(5)`, the calls of `main`, both answer 0 although bit 2 is stored as 1;
      bit 0 is stored as 1 but `get(0)` answers 0; `set(1, 1)` then wipes bit 0 of
      the word, and `get(1)` still answers 0. */
  method GetAndSetOn3599() returns (sb1: Result<int>, sb0: Result<int>, stored2: nat,
                                    stored0: nat, get0: Result<int>, get1: Result<int>, stored0After: nat)
    ensures sb1 == Ok(0) && sb0 == Ok(0) && stored2 == 1
    ensures stored0 == 1 && get0 == Ok(0)
    ensures get1 == Ok(0) && stored0After == 0
  {
    Packs3599();
    var fba := new FactorBitArray.FromBigInteger(3599);
    assert fba.bits[0] == fba.bits[..][0] == 3599;
    sb1 := fba.Get(2);
    sb0 := fba.Get(5);
    stored2 := StoredBit(fba.bits[..], 2);
    assert stored2 == Bit(3599, 2) == 1;
    stored0 := StoredBit(fba.bits[..], 0);
    assert stored0 == Bit(3599, 0) == 1;
    get0 := fba.Get(0);
    assert UnsignedShiftRightInt(0, 1) == 0;
    var set1 := fba.Set(1, 1);
    assert set1 == Ok(0);
    assert fba.bits[0] == 2;
    get1 := fba.Get(1);
    stored0After := StoredBit(fba.bits[..], 0);
    assert stored0After == Bit(2, 0) == 0;
  }

  /** The same value with the documented `get` and `set`: bit 0 reads 1, and after
      `set(1, 1)` bit 1 reads 1 while bit 0 still reads 1. */
  method CorrectedOn3599() returns (get0: Result<int>, get1: Result<int>, get0After: Result<int>)
    ensures get0 == Ok(1) && get1 == Ok(1) && get0After == Ok(1)
  {
    Packs3599();
    var fba := new FactorBitArray.FromBigIntegerCorrected(3599);
    assert fba.bits[0] == fba.bits[..][0] == 3599;
    get0 := fba.GetCorrected(0);
    var set1 := fba.SetCorrected(1, 1);
    get1 := fba.GetCorrected(1);
    get0After := fba.GetCorrected(0);
  }
}
