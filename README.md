# FactorBitArray and InverseMultiply, modelled in Dafny

This project models the two core classes of an early revision of the Factor
program. The program is an experiment in factoring a product of two primes by
reconstructing its factors bit by bit.

- `FactorBitArray` holds a non-negative number as a fixed array of 64-bit words,
  least significant word first, plus a bit count `size`. It has two constructors:
  - one from a `long`, which stores the long as it is;
  - one from a `BigInteger`, which repacks the number's big-endian bytes into
    little-endian words.

  It has bit access by position through `get` and `set`.
- `InverseMultiply` is the factoring engine. So far it only sets up its state:
  - the target product and its bit length;
  - a carry array and a subproduct array, both sized `bits + (bits >>> 3)`;
  - a zero running product.

  Its `factor()` method is empty.

The model follows the Java code as written, including three defects:

- the BigInteger constructor allocates too few words for many byte counts;
- `get` reads the word index instead of the stored word;
- `set` overwrites the whole word.

Each defect is proved in general and shown on a concrete value. The `get` and
`set` defects are shown on the value 3599 that `main` uses (`GetAndSetOn3599`).
The allocation defect does not arise for 3599; it is shown on every value of 64
to 71 bits, such as 2^64 (`PackingOverflowsFrom64Bits`). Next to each defect,
the model has the behaviour the doc comments promise, with that promise proved.

Files:

- `results.dfy`: `Option` stands for a possibly-null reference. `Result` and
  `Error` stand for the exceptions.
- `java_numbers.dfy`: Java's `int`, `long` and `byte` types, and the 64-bit
  pattern of a `long` read unsigned (`Word`). Also the operators `|`, `&`, `~`,
  `<<` and `>>>` written out on unbounded integers, with Java's masking of shift
  distances (6 bits for `long`, 5 bits for `int`) and 32-bit `int` wrap-around.
- `java_library.dfy`: `Long.numberOfLeadingZeros`, `BigInteger.bitLength` and
  `BigInteger.toByteArray`, each given by its documented result.
- `word_packing.dfy`: reading words little-endian in base 2^64, and the intended
  packing of bytes into words.
- `factor_bit_array.dfy`: the `FactorBitArray` class, its packing loop, `get`,
  `set`, and their corrected counterparts.
- `inverse_multiply.dfy`: the `InverseMultiply` class and its construction.

## Model

| member | source | states |
|---|---|---|
| JavaLibrary.NumberOfLeadingZeros | src/com/dilatush/factor/FactorBitArray.java:26 | the leading zero count of a long is at most 64; it is 64 exactly for 0; otherwise, with r leading zeros, the 64-bit pattern lies in [2^(63-r), 2^(64-r)) |
| JavaLibrary.UnsignedBitLengthOfLong | src/com/dilatush/factor/FactorBitArray.java:26 | `64 - numberOfLeadingZeros(v)` is 0 exactly for 0 and 64 for every negative long; for a positive long n it lies strictly between 0 and 64, with 2^(n-1) <= v < 2^n |
| FactorBitArrays.FactorBitArray.FromLong | src/com/dilatush/factor/FactorBitArray.java:25-28 | `size` is the unsigned bit length of the value (0 for 0, 64 for a negative value, else the number of binary digits); the array is one word whose signed reading is the value unchanged |
| JavaLibrary.BigIntegerBitLength | src/com/dilatush/factor/FactorBitArray.java:38 | the result r is the least r with -2^r <= v < 2^r: v fits in r bits plus a sign, and not in r-1 |
| JavaLibrary.ToByteArray | src/com/dilatush/factor/FactorBitArray.java:41 | `toByteArray` has bitLength/8 + 1 bytes; read big-endian they give back a non-negative value, and a negative value plus 2^(8·length) (two's complement) |
| FactorBitArrays.PacksInBoundsIff | src/com/dilatush/factor/FactorBitArray.java:44-60 | every word index the loop writes for n bytes is inside the `max(1, (1 + n) >>> 3)` words exactly when n <= 8 or n mod 8 is 0 or 7; for every other n the last byte goes to the word one past the end |
| FactorBitArrays.PackingOverflowsFrom64Bits | src/com/dilatush/factor/FactorBitArray.java:44-60 | every value of 64 to 71 bits has 9 bytes and gets 1 word, and its ninth byte is written to word 1, outside the array |
| FactorBitArrays.LongsLenInBounds | src/com/dilatush/factor/FactorBitArray.java:44 | whenever the loop stays in bounds, the allocated word count equals one word per eight bytes rounded up |
| FactorBitArrays.WordCountPacks | src/com/dilatush/factor/FactorBitArray.java:44 | with one word per eight bytes rounded up, every index the loop writes is inside the array, for every byte count |
| FactorBitArrays.PackStep | src/com/dilatush/factor/FactorBitArray.java:60 | ORing a byte shifted by at most 56 into a word with no bits at or above the shift adds the byte times 2^shift, and the result stays below 2^(shift+8) |
| FactorBitArrays.PackStepValue | src/com/dilatush/factor/FactorBitArray.java:54-60 | adding a byte at offset `(k & 7) << 3` of word `k >>> 3` adds the byte times 256^k to the words' little-endian value |
| FactorBitArrays.PackInvariantStep | src/com/dilatush/factor/FactorBitArray.java:51-60 | placing byte `bytes[n-1-k]` keeps the loop invariant: the words hold the value of the last k+1 bytes, words no byte has reached are zero, and the word being filled has no bits at or above the next offset |
| FactorBitArrays.PackLoopStep | src/com/dilatush/factor/FactorBitArray.java:48-61 | one iteration of the packing loop, with its OR, shift and byte mask as written, keeps the loop invariant, and the new word fits in 64 bits |
| FactorBitArrays.PackInvariantDone | src/com/dilatush/factor/FactorBitArray.java:48-61 | when the loop ends, the words hold the bytes' big-endian value; with one word per eight bytes, they are exactly the intended packing |
| FactorBitArrays.PackBytes | src/com/dilatush/factor/FactorBitArray.java:44-61 | the loop, run on an array of the given length whose indices it stays inside, yields a fresh array of that length; its words read little-endian equal the bytes read big-endian, and with one word per eight bytes they are the intended packing |
| FactorBitArrays.SizeFits | src/com/dilatush/factor/FactorBitArray.java:38-45 | the bit length is below 8 times the byte count, which is at most 64 times the intended word count, so `size` bits always fit in the words |
| WordPacking.PackedWordsValue | src/com/dilatush/factor/FactorBitArray.java:48-61 | the intended packing, read little-endian in base 2^64, equals the bytes read big-endian in base 256 |
| WordPacking.PackedWordsUnique | src/com/dilatush/factor/FactorBitArray.java:48-61 | the intended packing is the only word sequence of its length with the bytes' value |
| FactorBitArrays.FactorBitArray.FromBigInteger | src/com/dilatush/factor/FactorBitArray.java:36-62 | when the loop stays in bounds: `size` is `bitLength`; there are `max(1, (1 + n) >>> 3)` words; they are the packing of `toByteArray`; for a non-negative value they read back as the value |
| FactorBitArrays.FactorBitArray.FromBigIntegerCorrected | src/com/dilatush/factor/FactorBitArray.java:36-62 | with one word per eight bytes, every value is accepted; the array has the same size, packing and read-back value as above; for a non-negative value, the documented `get` of every position below `size` answers that bit of the value |
| JavaNumbers.UnsignedShiftRightInt | src/com/dilatush/factor/FactorBitArray.java:80 | `x >>> s` on a non-negative int uses only the low five bits of s: it never exceeds x, is x when s is a multiple of 32, and is 0 when x < 2^(s mod 32) |
| FactorBitArrays.FactorBitArray.Get | src/com/dilatush/factor/FactorBitArray.java:71-81 | `get` fails with an argument error exactly for positions outside [0, size); otherwise it returns 0 or 1; it reads no word of the array |
| FactorBitArrays.GetIgnoresStoredBits | src/com/dilatush/factor/FactorBitArray.java:77-80 | for every position in the first word, `get` returns 0 whatever is stored, so it agrees with the stored bit exactly when that bit is 0 |
| FactorBitArrays.SetWordAsWritten | src/com/dilatush/factor/FactorBitArray.java:105-108 | the stored word is built from `retVal` (0 or 1), not the old word: clearing gives 0 or `retVal`; setting gives 1, or `retVal` plus 2^(bitPos mod 64) |
| FactorBitArrays.MaskBits | src/com/dilatush/factor/FactorBitArray.java:107-108 | `1L << bitPos` is 2^(bitPos mod 64); ANDing 0 or 1 with its complement and ORing it in give the values above |
| FactorBitArrays.SetWordAsWrittenLosesWord | src/com/dilatush/factor/FactorBitArray.java:105-108 | in the word `set` stores, every bit other than bit 0 and the bit being set is 0, whatever the word held before |
| FactorBitArrays.FactorBitArray.Set | src/com/dilatush/factor/FactorBitArray.java:92-111 | the position check (through `get`) comes before the value check; on either error nothing changes; on success it returns what `get` returned, replaces only word `bitPos >>> 6`, and `size` is untouched |
| FactorBitArrays.StoredBitAfterWithBit | src/com/dilatush/factor/FactorBitArray.java:84-90 | after the bit at p is set to v, the bit at p reads v and every other bit reads as before |
| FactorBitArrays.StoredBitIsValueBit | src/com/dilatush/factor/FactorBitArray.java:76-80 | the bit at position p of the words (word p/64, bit p%64) is bit p of the number the words hold, little-endian |
| FactorBitArrays.GetCorrectedReadsValue | src/com/dilatush/factor/FactorBitArray.java:65-80 | the documented `get` of a position inside `size` answers that bit of the number the words hold |
| FactorBitArrays.FactorBitArray.GetCorrected | src/com/dilatush/factor/FactorBitArray.java:65-69 | the documented `get`: the same range error, otherwise the bit stored at the position |
| FactorBitArrays.FactorBitArray.SetCorrected | src/com/dilatush/factor/FactorBitArray.java:84-90 | the documented `set`: the same checks in the same order; on success it returns the old bit, `get` then reads the new value at the position, and every other position reads as before |
| FactorBitArrays.Packs3599 | src/com/dilatush/factor/FactorBitArray.java:116 | 3599 has 12 bits and 2 bytes, stays in bounds, and packs into the single word 3599 |
| FactorBitArrays.GetAndSetOn3599 | src/com/dilatush/factor/FactorBitArray.java:116-118 | for 3599: `get(2)` and `get(5)` (the calls in `main`) answer 0 although bit 2 is 1; `get(0)` answers 0 although bit 0 is 1; after `set(1, 1)`, bit 0 of the word is 0 and `get(1)` still answers 0 |
| FactorBitArrays.CorrectedOn3599 | src/com/dilatush/factor/FactorBitArray.java:116 | for 3599 with the corrected members, `get(0)` answers 1; after `set(1, 1)`, `get(1)` answers 1 and `get(0)` still answers 1 |
| JavaNumbers.BitOfOr | src/com/dilatush/factor/FactorBitArray.java:60 | each bit of the bitwise OR of a and b is 1 exactly when that bit of a or of b is 1 |
| JavaNumbers.BitOfAnd | src/com/dilatush/factor/FactorBitArray.java:107 | each bit of the bitwise AND of a and b is 1 exactly when that bit of both a and b is 1 |
| JavaNumbers.BitOfSum | src/com/dilatush/factor/FactorBitArray.java:77-78 | in a + 2^k·m with a < 2^k, the bits below k are those of a and bit i ≥ k is bit i-k of m |
| JavaNumbers.OrDisjoint | src/com/dilatush/factor/FactorBitArray.java:60 | ORing x·2^s into a number below 2^s is addition |
| JavaNumbers.IntOf | src/com/dilatush/factor/InverseMultiply.java:22 | an `int` result is the one value in the `int` range that agrees with the exact result modulo 2^32 |
| InverseMultiplication.WidthWithSpares | src/com/dilatush/factor/InverseMultiply.java:22 | `bits + (bits >>> 3)` in `int` arithmetic is non-negative exactly for bit lengths below 1,908,874,354; below that it is `bits + bits/8`, and above it wraps by 2^32 |
| InverseMultiplication.SparesPerEightBits | src/com/dilatush/factor/InverseMultiply.java:22 | there is one spare slot per full eight bits, and none exactly when the bit length is below 8 |
| InverseMultiplication.TargetBitLength | src/com/dilatush/factor/InverseMultiply.java:21 | the bit length is 0 exactly for the targets 0 and -1, and is the same for t and -t-1 |
| InverseMultiplication.InverseMultiply.constructor | src/com/dilatush/factor/InverseMultiply.java:19-25 | it stores the target unchanged and `bits` = its bit length; `carries` and `subproducts` are fresh, both of length `bits + bits/8`; carries are all 0, subproducts all null, and `product` is 0 |
| InverseMultiplication.Create | src/com/dilatush/factor/InverseMultiply.java:15-26 | a null target fails with "Missing product"; a bit length whose `bits + (bits >>> 3)` overflows fails at allocation; every other target (zero and negative ones included) yields the state above |
| InverseMultiplication.CreateForZero | src/com/dilatush/factor/InverseMultiply.java:17-24 | a zero target is accepted, with `bits` 0 and empty working arrays |
| InverseMultiplication.InverseMultiply.Factor | src/com/dilatush/factor/InverseMultiply.java:29-31 | `factor()` changes neither working array |

## Left out

- `Factor.java` is not part of this model. It is the command-line shell: flag parsing, decimal and Base64 encoding, printing and `System.exit`.
- `NumberUtils.java` is not part of this model. It holds wrappers over `SecureRandom`, `BigInteger.probablePrime` and `Integer.parseInt`.
- `FactorBitArray.main` (FactorBitArray.java:114-121) is a demonstration. Only its value 3599 and its calls `get(2)` and `get(5)` are used, in `GetAndSetOn3599`. Its `hashCode()` call is left out.
- The internals of `Long.numberOfLeadingZeros`, `BigInteger.bitLength` and `BigInteger.toByteArray` are not modelled. Each is a function defined by its documented result.
- FactorBitArrays.FactorBitArray.FromBigInteger: requires the loop to stay inside the array, so it does not model the `ArrayIndexOutOfBoundsException` the Java code throws for other byte counts. `PacksInBoundsIff` and `PackingOverflowsFrom64Bits` prove exactly which inputs reach that exception. `FromBigIntegerCorrected` handles every value.
- The `int` overflow of `1 + bytes.length` (FactorBitArray.java:44) is not modelled. It cannot happen: `bitLength()` is an `int`, so `toByteArray()` returns at most 2^28 bytes.
- A null `BigInteger` makes the BigInteger constructor throw `NullPointerException` at `_value.bitLength()` (FactorBitArray.java:38). The model's `value: int` cannot be null, so this case is not modelled.
- InverseMultiplication.Create: requires the target's bit length to be below 2^31. That is the range of the `int` that `BigInteger.bitLength` returns.
- InverseMultiplication.InverseMultiply.Factor: states only that the working arrays are unchanged. The method has no body; the other fields are constants in the model, so they cannot change either.
- The working-array margin follows the code (`bits >>> 3`, one spare per eight bits). It does not follow the design's "at least 32 spare bits or width/16, whichever is larger", which this revision does not implement.
- Range-clear, highest-set-bit, conversion back to an integer, the candidate-factor arrays and the carry/subproduct factoring loop do not appear in this revision of the code, so they are not modelled.

## Findings

| source | as written | input that shows it | evidently intended | confidence | as-written member | corrected member |
|---|---|---|---|---|---|---|
| src/com/dilatush/factor/FactorBitArray.java:44 | allocates `max(1, (1 + n) >>> 3)` words for n bytes | any value of 64 to 71 bits, e.g. 2^64: 9 bytes, 1 word, and the ninth byte is written to word 1 | one word per eight bytes, rounded up: `(n + 7) >>> 3` | high, not executed | FactorBitArrays.PackingOverflowsFrom64Bits | FactorBitArrays.FactorBitArray.FromBigIntegerCorrected |
| src/com/dilatush/factor/FactorBitArray.java:80 | `(longsInd >>> bitsInd) & 1` shifts the word index, not the stored word | 3599: `get(0)` returns 0 although bit 0 is 1 | `(bits[longsInd] >>> bitsInd) & 1` | high, not executed | FactorBitArrays.GetIgnoresStoredBits | FactorBitArrays.FactorBitArray.GetCorrected |
| src/com/dilatush/factor/FactorBitArray.java:105-108 | combines the mask with `retVal`, the old bit (0 or 1), instead of the old word | 3599: `set(1, 1)` stores the word 2, losing bits 0, 2, 3, 9, 10 and 11 | the old word `bits[longsInd]` with the mask cleared or ORed in | high, not executed | FactorBitArrays.SetWordAsWrittenLosesWord | FactorBitArrays.FactorBitArray.SetCorrected |
