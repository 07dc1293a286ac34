/** Repacking big-endian bytes into little-endian 64-bit words: the value a word
    sequence stands for, and the packing the BigInteger constructor of the bit array
    is meant to produce (one word per eight bytes, rounded up, never fewer than one). */
module WordPacking {
  import opened JavaNumbers
  import opened JavaLibrary

  /** The words read as an unsigned little-endian number in base 2^64. */
  function LittleEndian(ws: seq<Word>): nat
  {
    if |ws| == 0 then 0 else ws[0] + TWO_64 * LittleEndian(ws[1..])
  }

  /** Changing word `j` changes the value by the difference times its weight 2^(64 j). */
  lemma {:induction false} LittleEndianUpdate(ws: seq<Word>, j: nat, w: Word)
    requires j < |ws|
    ensures LittleEndian(ws[j := w]) + ws[j] * Pow2(64 * j)
         == LittleEndian(ws) + w * Pow2(64 * j)
  {
    if j == 0 {
      assert ws[j := w][1..] == ws[1..];
    } else {
      var t := ws[1..];
      assert ws[j := w][1..] == t[j - 1 := w];
      LittleEndianUpdate(t, j - 1, w);
      Pow2Constants();
      Pow2Add(64, 64 * (j - 1));
      var p := Pow2(64 * (j - 1));
      assert Pow2(64 * j) == TWO_64 * p;
      ScaleEquation(LittleEndian(t[j - 1 := w]), LittleEndian(t), ws[j], w, p, TWO_64);
    }
  }

  lemma {:induction false} LittleEndianZero(ws: seq<Word>)
    requires forall i :: 0 <= i < |ws| ==> ws[i] == 0
    ensures LittleEndian(ws) == 0
  {
    if |ws| > 0 {
      LittleEndianZero(ws[1..]);
    }
  }

  /** Two word sequences of one length with the same value are the same. */
  lemma {:induction false} LittleEndianInjective(a: seq<Word>, b: seq<Word>)
    requires |a| == |b| && LittleEndian(a) == LittleEndian(b)
    ensures a == b
  {
    if |a| > 0 {
      assert a[0] == b[0] && LittleEndian(a[1..]) == LittleEndian(b[1..]);
      LittleEndianInjective(a[1..], b[1..]);
      assert a == [a[0]] + a[1..] && b == [b[0]] + b[1..];
    }
  }

  /** One word per eight bytes, rounded up, and at least one word. */
  function WordCount(n: nat): nat
  {
    if n == 0 then 1 else (n + 7) / 8
  }

  /** The last eight bytes become word 0, the eight before them word 1, and so on;
      a short first group fills the low bytes of the last word. */
  function PackedWords(bytes: seq<JByte>): (ws: seq<Word>)
    ensures |ws| == WordCount(|bytes|)
    decreases |bytes|
  {
    var n := |bytes|;
    var low := if n <= 8 then bytes else bytes[n - 8..];
    Pow2Constants();
    Pow2Monotone(8 * |low|, 64);
    var w: Word := BigEndian(low);
    if n <= 8 then [w] else [w] + PackedWords(bytes[..n - 8])
  }

  /** The packed words, read little-endian in base 2^64, are the bytes read
      big-endian in base 256. */
  lemma {:induction false} PackedWordsValue(bytes: seq<JByte>)
    ensures LittleEndian(PackedWords(bytes)) == BigEndian(bytes)
  {
    var n := |bytes|;
    if n > 8 {
      var high, low := bytes[..n - 8], bytes[n - 8..];
      var ws := PackedWords(bytes);
      assert bytes == high + low;
      BigEndianAppend(high, low);
      PackedWordsValue(high);
      Pow2Constants();
      assert ws[0] == BigEndian(low) && ws[1..] == PackedWords(high);
      assert LittleEndian(ws) == BigEndian(low) + TWO_64 * LittleEndian(PackedWords(high));
      assert BigEndian(bytes) == BigEndian(high) * TWO_64 + BigEndian(low);
    } else {
      assert PackedWords(bytes) == [BigEndian(bytes)];
      assert PackedWords(bytes)[1..] == [];
    }
  }

  /** The packing is the only word sequence of its length with the bytes' value. */
  lemma PackedWordsUnique(bytes: seq<JByte>, ws: seq<Word>)
    requires |ws| == WordCount(|bytes|) && LittleEndian(ws) == BigEndian(bytes)
    ensures ws == PackedWords(bytes)
  {
    PackedWordsValue(bytes);
    LittleEndianInjective(ws, PackedWords(bytes));
  }
}
