/** Scalars modulo the prime subgroup order (scalar.rs): word packing, Horner reduction and canonical bytes. */
module Scalar {
  import opened Bytes
  import opened Modular
  import opened Wrappers

  const SCALAR_BYTES: nat := 38
  const HASH_BYTES: nat := 76
  const UINT_WORDS: nat := 5
  const UINT_BYTES: nat := 40

  function Add(order: nat, a: nat, b: nat): nat
    requires order > 0
  {
    Reduce(order, a + b)
  }

  function Mul(order: nat, a: nat, b: nat): nat
    requires order > 0
  {
    Reduce(order, Product(a, b))
  }

  // ----- Packing bytes into words

  /** The eight-byte words of a byte string; the last one may be short. */
  function WordsOfBytes(bytes: seq<byte>): (words: seq<u64>)
    ensures |words| == (|bytes| + 7) / 8
  {
    if bytes == [] then []
    else
      var take := if |bytes| < 8 then |bytes| else 8;
      WordBound(bytes[..take]);
      [LeInt(bytes[..take])] + WordsOfBytes(bytes[take..])
  }

  lemma {:induction false} WordsOfBytesInt(bytes: seq<byte>)
    ensures WordsInt(WordsOfBytes(bytes)) == LeInt(bytes)
  {
    if bytes != [] {
      var take := if |bytes| < 8 then |bytes| else 8;
      var lo, hi := bytes[..take], bytes[take..];
      WordsOfBytesInt(hi);
      assert bytes == lo + hi;
      LeIntAppend(lo, hi);
      RadixIsExp2();
      assert WordsOfBytes(bytes)[1..] == WordsOfBytes(hi);
    }
  }

  lemma {:induction false} WordsOfBytesAt(bytes: seq<byte>, i: nat)
    requires 8 * i < |bytes|
    ensures var end := if 8 * i + 8 < |bytes| then 8 * i + 8 else |bytes|;
      WordsOfBytes(bytes)[i] == LeInt(bytes[8 * i..end])
  {
    hide LeInt;
    if i > 0 {
      WordsOfBytesAt(bytes[8..], i - 1);
      var end := if 8 * i + 8 < |bytes| then 8 * i + 8 else |bytes|;
      SliceOfTail(bytes, 8 * (i - 1), end - 8);
    }
  }

  lemma SliceOfTail(bytes: seq<byte>, start: nat, end: nat)
    requires start <= end && end + 8 <= |bytes|
    ensures bytes[8..][start..end] == bytes[start + 8..end + 8]
  {
  }

  // ----- Horner reduction

  /** One round: multiply by the radix and add the next word, all modulo the order. */
  lemma HornerStep(order: nat, accumulator: int, rest: int, word: int, radix: int)
    requires order > 0 && accumulator == Reduce(order, rest)
    ensures Reduce(order, Reduce(order, accumulator * Reduce(order, radix)) + Reduce(order, word))
      == Reduce(order, word + radix * rest)
  {
    hide Cong, Reduce;
    var product, addend := Reduce(order, accumulator * Reduce(order, radix)), Reduce(order, word);
    CongReduce(order, rest);
    CongReduce(order, word);
    CongReduce(order, radix);
    CongReduce(order, accumulator * Reduce(order, radix));
    CongMul(order, accumulator, rest, Reduce(order, radix), radix);
    CongTrans(order, product, accumulator * Reduce(order, radix), rest * radix);
    CongAdd(order, product, rest * radix, addend, word);
    assert rest * radix == radix * rest;
    ReduceIffCong(order, product + addend, word + radix * rest);
  }

  /** Reduces any number of words, most significant first. */
  method ReduceWords(order: nat, words: array<u64>) returns (accumulator: nat)
    requires order > 0
    ensures accumulator == Reduce(order, WordsInt(words[..]))
  {
    hide Reduce;
    accumulator := 0;
    SmallReduce(order, 0);
    var index := words.Length;
    while index != 0
      invariant 0 <= index <= words.Length
      invariant accumulator == Reduce(order, WordsInt(words[index..]))
    {
      index := index - 1;
      var addend := Reduce(order, words[index]);
      var product := Reduce(order, accumulator * Reduce(order, RADIX));
      HornerStep(order, accumulator, WordsInt(words[index + 1..]), words[index], RADIX);
      assert words[index..] == [words[index]] + words[index + 1..];
      accumulator := Reduce(order, product + addend);
    }
    assert words[0..] == words[..];
  }

  /** Loads the words of a 38-byte or 76-byte string and reduces them. */
  method ReducePrunedLe(order: nat, bytes: seq<byte>) returns (r: nat)
    requires order > 0 && |bytes| == SCALAR_BYTES
    ensures r == Reduce(order, LeInt(bytes))
  {
    var words := new u64[5](_ => 0);
    var index := 0;
    while index < 4
      invariant 0 <= index <= 4
      invariant forall j :: 0 <= j < index ==> words[j] == WordsOfBytes(bytes)[j]
    {
      var offset := index * 8;
      WordBound(bytes[offset..offset + 8]);
      WordsOfBytesAt(bytes, index);
      words[index] := LeInt(bytes[offset..offset + 8]);
      index := index + 1;
    }
    var high := bytes[32..38] + Zeros(2);
    WordBound(high);
    LeIntWiden(bytes[32..38], 2);
    WordsOfBytesAt(bytes, 4);
    words[4] := LeInt(high);
    assert words[..] == WordsOfBytes(bytes);
    WordsOfBytesInt(bytes);
    r := ReduceWords(order, words);
  }

  method ReduceHashLe(order: nat, bytes: seq<byte>) returns (r: nat)
    requires order > 0 && |bytes| == HASH_BYTES
    ensures r == Reduce(order, LeInt(bytes))
  {
    var words := new u64[10](_ => 0);
    var index := 0;
    while index < 9
      invariant 0 <= index <= 9
      invariant forall j :: 0 <= j < index ==> words[j] == WordsOfBytes(bytes)[j]
    {
      var offset := index * 8;
      WordBound(bytes[offset..offset + 8]);
      WordsOfBytesAt(bytes, index);
      words[index] := LeInt(bytes[offset..offset + 8]);
      index := index + 1;
    }
    var high := bytes[72..76] + Zeros(4);
    WordBound(high);
    LeIntWiden(bytes[72..76], 4);
    WordsOfBytesAt(bytes, 9);
    words[9] := LeInt(high);
    assert words[..] == WordsOfBytes(bytes);
    WordsOfBytesInt(bytes);
    r := ReduceWords(order, words);
  }

  // ----- Canonical bytes

  function FromCanonicalBytes(order: nat, bytes: seq<byte>): Option<nat>
    requires |bytes| == SCALAR_BYTES
  {
    var integer := LeInt(bytes + Zeros(UINT_BYTES - SCALAR_BYTES));
    if integer < order then Some(integer) else None
  }

  /** The low count words of n. */
  function ToWords(n: nat, count: nat): (words: seq<u64>)
    ensures |words| == count
  {
    if count == 0 then [] else [n % RADIX] + ToWords(n / RADIX, count - 1)
  }

  lemma {:induction false} ToWordsAt(n: nat, count: nat, i: nat)
    requires i < count
    ensures ToWords(n, count)[i] == ShiftRight(n, 64 * i) % RADIX
  {
    if i > 0 {
      ToWordsAt(n / RADIX, count - 1, i - 1);
      RadixIsExp2();
      Exp2Add(64, 64 * (i - 1));
      DivDiv(n, Exp2(64), Exp2(64 * (i - 1)));
    }
  }

  lemma {:induction false} LeBytesSplit(n: nat, lo: nat, hi: nat)
    ensures LeBytes(n, lo + hi) == LeBytes(n, lo) + LeBytes(ShiftRight(n, 8 * lo), hi)
  {
    if lo > 0 {
      LeBytesSplit(n / 256, lo - 1, hi);
      Exp2Bytes(lo - 1);
      DivDiv(n, 256, Exp2(8 * (lo - 1)));
    }
  }

  /** The low bytes of n are those of n modulo a larger power of 256. */
  lemma {:induction false} LeBytesOfMod(n: nat, len: nat, extra: nat)
    ensures LeBytes(n % Exp2(8 * (len + extra)), len) == LeBytes(n, len)
  {
    if len > 0 {
      var e := Exp2(8 * (len - 1 + extra));
      Exp2Bytes(len - 1 + extra);
      ModThenDivide(n, e);
      LeBytesOfMod(n / 256, len - 1, extra);
    }
  }

  lemma ModThenDivide(n: nat, e: nat)
    requires e > 0
    ensures n % (256 * e) % 256 == n % 256
    ensures n % (256 * e) / 256 == n / 256 % e
  {
    var q, r := n / 256, n % 256;
    var k, s := q / e, q % e;
    RecombineDigits(256, e, k, s, r);
    QuotientUnique(n, 256 * e, k, 256 * s + r);
  }

  /** The bytes copied from one word, whole or partial. */
  lemma ChunkBytes(n: nat, count: nat, i: nat, take: nat)
    requires i < count && take <= 8
    ensures LeBytes(ToWords(n, count)[i], 8)[..take] == LeBytes(ShiftRight(n, 64 * i), take)
  {
    ToWordsAt(n, count, i);
    RadixIsExp2();
    LeBytesPrefix(ToWords(n, count)[i], take, 8);
    LeBytesOfMod(ShiftRight(n, 64 * i), take, 8 - take);
  }

  lemma WriteNothing(s: nat)
    ensures LeBytes(s, 0) == []
  {
  }

  /** Writes the words of s into a caller-owned buffer, the last one truncated. */
  method WriteCanonicalBytes(s: nat, output: array<byte>)
    requires output.Length == SCALAR_BYTES
    modifies output
    ensures output[..] == LeBytes(s, SCALAR_BYTES)
  {
    hide ToWords, LeBytes, ShiftRight, Exp2;
    var words := ToWords(s, UINT_WORDS);
    WriteNothing(s);
    var wordIndex, offset := 0, 0;
    while offset < SCALAR_BYTES
      invariant 0 <= offset <= SCALAR_BYTES && 0 <= wordIndex <= UINT_WORDS
      invariant offset < SCALAR_BYTES ==> offset == 8 * wordIndex
      invariant output[..offset] == LeBytes(s, offset)
    {
      var encoded := LeBytes(words[wordIndex], 8);
      var remaining := SCALAR_BYTES - offset;
      var take := if remaining < |encoded| then remaining else |encoded|;
      ghost var before := output[..offset];
      forall i | 0 <= i < take {
        output[offset + i] := encoded[i];
      }
      assert output[..offset + take] == before + encoded[..take];
      ChunkBytes(s, UINT_WORDS, wordIndex, take);
      LeBytesSplit(s, offset, take);
      offset := offset + take;
      wordIndex := wordIndex + 1;
    }
    assert output[..] == output[..offset];
  }

  /** Parsing accepts exactly the integers below the order, and writing an accepted scalar reproduces the input. */
  lemma ParseThenWrite(order: nat, bytes: seq<byte>)
    requires |bytes| == SCALAR_BYTES
    ensures FromCanonicalBytes(order, bytes) == if LeInt(bytes) < order then Some(LeInt(bytes)) else None
    ensures FromCanonicalBytes(order, bytes).Some? ==>
      LeBytes(FromCanonicalBytes(order, bytes).value, SCALAR_BYTES) == bytes
  {
    LeIntWiden(bytes, UINT_BYTES - SCALAR_BYTES);
    LeBytesOfLeInt(bytes);
  }

  /** Writing a scalar below the order and parsing it back returns it. */
  lemma WriteThenParse(order: nat, s: nat)
    requires s < order && FitsIn(order, 8 * SCALAR_BYTES)
    ensures FromCanonicalBytes(order, LeBytes(s, SCALAR_BYTES)) == Some(s)
  {
    FitsInIff(order, 8 * SCALAR_BYTES);
    LeIntWiden(LeBytes(s, SCALAR_BYTES), UINT_BYTES - SCALAR_BYTES);
    LeIntOfLeBytes(s, SCALAR_BYTES);
  }
}
