/** Little-endian integers: byte strings, 64-bit words and bits. */
module Bytes {
  import opened Modular

  type byte = bv8

  function Exp2(n: nat): (r: nat)
    ensures r > 0
  {
    if n == 0 then 1 else 2 * Exp2(n - 1)
  }

  /** The unsigned little-endian integer of a byte string. */
  function LeInt(bs: seq<byte>): nat {
    if bs == [] then 0 else bs[0] as int + 256 * LeInt(bs[1..])
  }

  /** The low len bytes of n, least significant first. */
  function LeBytes(n: nat, len: nat): (bs: seq<byte>)
    ensures |bs| == len
  {
    if len == 0 then [] else [(n % 256) as byte] + LeBytes(n / 256, len - 1)
  }

  function Zeros(len: nat): (bs: seq<byte>)
    ensures |bs| == len
  {
    seq(len, _ => 0 as byte)
  }

  // ----- Powers of two

  lemma {:induction false} Exp2Add(m: nat, n: nat)
    ensures Exp2(m + n) == Exp2(m) * Exp2(n)
  {
    if m != 0 {
      Exp2Add(m - 1, n);
    }
  }

  lemma Exp2Byte()
    ensures Exp2(8) == 256
  {
    assert Exp2(4) == 16;
  }

  lemma {:induction false} Exp2Monotone(m: nat, n: nat)
    requires m <= n
    ensures Exp2(m) <= Exp2(n)
  {
    if m < n {
      Exp2Monotone(m, n - 1);
    }
  }

  lemma Exp2Bytes(len: nat)
    ensures Exp2(8 * (len + 1)) == 256 * Exp2(8 * len)
  {
    Exp2Byte();
    Exp2Add(8, 8 * len);
  }

  /** n < 2^bits, decided by halving. */
  predicate FitsIn(n: nat, bits: nat)
    decreases n, bits
  {
    if bits == 0 then n == 0 else FitsIn(n / 2, bits - 1)
  }

  lemma {:induction false} FitsInIff(n: nat, bits: nat)
    ensures FitsIn(n, bits) <==> n < Exp2(bits)
    decreases bits
  {
    if bits != 0 {
      FitsInIff(n / 2, bits - 1);
    }
  }

  lemma FitsInMonotone(n: nat, n': nat, bits: nat, bits': nat)
    requires n <= n' && bits <= bits' && FitsIn(n', bits)
    ensures FitsIn(n, bits')
  {
    FitsInIff(n', bits);
    FitsInIff(n, bits');
    Exp2Monotone(bits, bits');
  }

  /** 2^(bits-1) <= n < 2^bits. */
  predicate HasBitLength(n: nat, bits: nat)
    requires bits > 0
  {
    FitsIn(n, bits) && !FitsIn(n, bits - 1)
  }

  lemma BitLengthRange(n: nat, bits: nat)
    requires bits > 0
    ensures HasBitLength(n, bits) <==> Exp2(bits - 1) <= n < Exp2(bits)
  {
    FitsInIff(n, bits);
    FitsInIff(n, bits - 1);
  }

  // ----- LeInt and LeBytes are inverse

  lemma IntOfByte(b: byte)
    ensures (b as int) as byte == b
  {
  }

  /** Every integer below 256 is the value of a byte, found by counting up from c. */
  lemma {:induction false} SomeByte(n: int, c: byte) returns (b: byte)
    requires c as int <= n < 256
    ensures b as int == n
    decreases n - c as int
  {
    if c as int == n {
      b := c;
    } else {
      b := SomeByte(n, c + 1);
    }
  }

  lemma ByteOfInt(n: int)
    requires 0 <= n < 256
    ensures (n as byte) as int == n
  {
    var b := SomeByte(n, 0);
    IntOfByte(b);
  }

  lemma SplitByte(b: int, rest: int)
    requires 0 <= b < 256
    ensures (b + 256 * rest) % 256 == b && (b + 256 * rest) / 256 == rest
  {
  }

  /** Writing keeps the low bytes of n, that is, n modulo 2^(8*len). */
  lemma {:induction false} LeIntOfLeBytes(n: nat, len: nat)
    ensures n < Exp2(8 * len) ==> LeInt(LeBytes(n, len)) == n
  {
    if len > 0 {
      Exp2Bytes(len - 1);
      LeIntOfLeBytes(n / 256, len - 1);
      ByteOfInt(n % 256);
      assert LeBytes(n, len)[1..] == LeBytes(n / 256, len - 1);
    }
  }

  lemma PrependByte(b: byte, n: nat, len: nat)
    ensures LeBytes(b as int + 256 * n, len + 1) == [b] + LeBytes(n, len)
  {
    SplitByte(b as int, n);
    IntOfByte(b);
  }

  lemma {:induction false} LeBytesOfLeInt(bs: seq<byte>)
    ensures LeBytes(LeInt(bs), |bs|) == bs
  {
    if bs != [] {
      hide LeBytes;
      LeBytesOfLeInt(bs[1..]);
      PrependByte(bs[0], LeInt(bs[1..]), |bs| - 1);
      assert bs == [bs[0]] + bs[1..];
    }
  }

  lemma {:induction false} LeIntBound(bs: seq<byte>)
    ensures LeInt(bs) < Exp2(8 * |bs|)
  {
    if bs != [] {
      LeIntBound(bs[1..]);
      Exp2Bytes(|bs| - 1);
    }
  }

  lemma {:induction false} LeIntAppend(lo: seq<byte>, hi: seq<byte>)
    ensures LeInt(lo + hi) == LeInt(lo) + Exp2(8 * |lo|) * LeInt(hi)
  {
    if lo == [] {
      assert lo + hi == hi;
    } else {
      assert (lo + hi)[1..] == lo[1..] + hi;
      LeIntAppend(lo[1..], hi);
      Exp2Bytes(|lo| - 1);
      ScaleByte(lo[0] as int, LeInt(lo[1..]), Exp2(8 * (|lo| - 1)), LeInt(hi));
    }
  }

  lemma ScaleByte(b: int, rest: int, e: int, hi: int)
    ensures b + 256 * (rest + e * hi) == (b + 256 * rest) + (256 * e) * hi
  {
  }

  lemma {:induction false} LeIntZeros(len: nat)
    ensures LeInt(Zeros(len)) == 0
  {
    if len > 0 {
      assert Zeros(len)[1..] == Zeros(len - 1);
      LeIntZeros(len - 1);
    }
  }

  /** Copying into a wider zeroed buffer does not change the integer. */
  lemma LeIntWiden(bs: seq<byte>, extra: nat)
    ensures LeInt(bs + Zeros(extra)) == LeInt(bs)
  {
    LeIntAppend(bs, Zeros(extra));
    LeIntZeros(extra);
  }

  lemma {:induction false} LeBytesPrefix(n: nat, len: nat, longer: nat)
    requires len <= longer
    ensures LeBytes(n, longer)[..len] == LeBytes(n, len)
  {
    if len > 0 {
      LeBytesPrefix(n / 256, len - 1, longer - 1);
      var all := LeBytes(n, longer);
      assert all[..len] == [all[0]] + all[1..][..len - 1];
    }
  }

  // ----- Bits

  predicate Lsb(b: byte) {
    b & 1 != 0
  }

  predicate IsOdd(n: int) {
    n % 2 == 1
  }

  /** n without its low k bits. */
  function ShiftRight(n: nat, k: nat): nat {
    QuotientNonnegative(n, Exp2(k));
    n / Exp2(k)
  }

  lemma QuotientNonnegative(n: nat, d: nat)
    requires d > 0
    ensures n / d >= 0
  {
  }

  /** Bit i of an integer. */
  predicate Bit(n: nat, i: nat) {
    IsOdd(ShiftRight(n, i))
  }

  /** Bit k of a byte. */
  predicate ByteBit(b: byte, k: nat)
    requires k < 8
  {
    Lsb(b >> k)
  }

  /** Bit i of a byte string, read with a shift inside byte i/8. */
  predicate BitOfBytes(bs: seq<byte>, i: nat)
    requires i < 8 * |bs|
  {
    ByteBit(bs[i / 8], i % 8)
  }

  lemma LsbParity(b: byte) ensures Lsb(b) == IsOdd(b as int) {}
  lemma Shift0(b: byte) ensures Lsb(b >> 0) == IsOdd(b as int) {}
  lemma Shift1(b: byte) ensures Lsb(b >> 1) == IsOdd(b as int / 2) {}
  lemma Shift2(b: byte) ensures Lsb(b >> 2) == IsOdd(b as int / 4) {}
  lemma Shift3(b: byte) ensures Lsb(b >> 3) == IsOdd(b as int / 8) {}
  lemma Shift4(b: byte) ensures Lsb(b >> 4) == IsOdd(b as int / 16) {}
  lemma Shift5(b: byte) ensures Lsb(b >> 5) == IsOdd(b as int / 32) {}
  lemma Shift6(b: byte) ensures Lsb(b >> 6) == IsOdd(b as int / 64) {}
  lemma Shift7(b: byte) ensures Lsb(b >> 7) == IsOdd(b as int / 128) {}

  // ----- The bits of a byte string are the bits of its integer

  lemma QuotientUnique(n: int, d: int, k: int, r: int)
    requires n == d * k + r && 0 <= r < d
    ensures n / d == k && n % d == r
  {
    var k' := n / d;
    assert n == d * k' + n % d;
    assert d * (k' - k) == r - n % d;
    if k' > k {
      MulAtLeast(d, k' - k);
    } else if k' < k {
      MulAtLeast(d, k - k');
    }
  }

  lemma DivDiv(n: nat, a: nat, e: nat)
    requires a > 0 && e > 0
    ensures a * e > 0 && n / (a * e) == (n / a) / e
  {
    var q, r := n / a, n % a;
    var k, s := q / e, q % e;
    assert a * e > 0;
    RecombineDigits(a, e, k, s, r);
    QuotientUnique(n, a * e, k, a * s + r);
  }

  lemma RecombineDigits(a: int, e: int, k: int, s: int, r: int)
    requires a > 0 && 0 <= s < e && 0 <= r < a
    ensures a * (e * k + s) + r == (a * e) * k + (a * s + r)
    ensures 0 <= a * s + r < a * e
  {
    DigitBound(a, e, s, r);
    Distribute(a, e * k, s);
    MulRegroup(a, e, k);
  }

  lemma Distribute(a: int, b: int, c: int)
    ensures a * (b + c) == a * b + a * c
  {
  }

  lemma DigitBound(a: int, e: int, s: int, r: int)
    requires a > 0 && 0 <= s < e && 0 <= r < a
    ensures 0 <= a * s + r < a * e
  {
    Distribute(a, s, e - s);
    MulAtLeast(a, e - s);
  }

  lemma SmallPowers()
    ensures Exp2(0) == 1 && Exp2(1) == 2 && Exp2(2) == 4 && Exp2(3) == 8
    ensures Exp2(4) == 16 && Exp2(5) == 32 && Exp2(6) == 64 && Exp2(7) == 128
  {
  }

  /** Bytes above the first do not touch its bits. */
  lemma LowPart(v: int, rest: nat, i: nat)
    requires 0 <= v < 256 && i < 8
    ensures Bit(v + 256 * rest, i) == Bit(v, i)
  {
    hide Exp2;
    var f := Exp2(7 - i);
    Exp2Add(i, 8 - i);
    Exp2Byte();
    Exp2Add(1, 7 - i);
    SmallPowers();
    AddMultiple(v, Exp2(i), f, rest);
  }

  lemma AddMultiple(v: nat, e: nat, f: nat, rest: nat)
    requires e > 0 && e * (2 * f) == 256
    ensures IsOdd((v + 256 * rest) / e) == IsOdd(v / e)
  {
    RegroupMultiple(v, e, f, v / e, v % e, rest);
    QuotientUnique(v + 256 * rest, e, v / e + 2 * (f * rest), v % e);
    OddShift(v / e, f * rest);
  }

  lemma OddShift(q: int, k: int)
    ensures IsOdd(q + 2 * k) == IsOdd(q)
  {
  }

  lemma RegroupMultiple(v: int, e: int, f: int, q: int, r: int, rest: int)
    requires v == e * q + r && e * (2 * f) == 256
    ensures v + 256 * rest == e * (q + 2 * (f * rest)) + r
  {
    MulRegroup(e, 2 * f, rest);
    MulRegroup(2, f, rest);
    Distribute(e, q, 2 * (f * rest));
  }

  /** The bits of a byte string from the ninth on are those of its tail. */
  lemma HighPart(v: int, rest: nat, i: nat)
    requires 0 <= v < 256 && i >= 8
    ensures Bit(v + 256 * rest, i) == Bit(rest, i - 8)
  {
    hide Exp2, IsOdd;
    Exp2Byte();
    Exp2Add(8, i - 8);
    DivDiv(v + 256 * rest, 256, Exp2(i - 8));
    SplitByte(v, rest);
  }

  lemma ShiftedByte(b: byte, i: nat)
    requires i < 8
    ensures Bit(b as int, i) == ByteBit(b, i)
  {
    hide Lsb, IsOdd, Exp2;
    SmallPowers();
    if i == 0 {
      Shift0(b);
    } else if i == 1 {
      Shift1(b);
    } else if i == 2 {
      Shift2(b);
    } else if i == 3 {
      Shift3(b);
    } else if i == 4 {
      Shift4(b);
    } else if i == 5 {
      Shift5(b);
    } else if i == 6 {
      Shift6(b);
    } else {
      Shift7(b);
    }
  }

  lemma {:induction false} BitOfLeInt(bs: seq<byte>, i: nat)
    requires i < 8 * |bs|
    ensures Bit(LeInt(bs), i) == BitOfBytes(bs, i)
  {
    hide ByteBit, Bit;
    var v, rest := bs[0] as int, LeInt(bs[1..]);
    if i < 8 {
      LowPart(v, rest, i);
      ShiftedByte(bs[0], i);
    } else {
      BitOfLeInt(bs[1..], i - 8);
      HighPart(v, rest, i);
    }
  }

  /** The integer whose bits i, i+1, ..., count-1 are given by a bit source, shifted down by i. */
  function TopBits(bit: nat -> bool, i: nat, count: nat): nat
    requires i <= count
    decreases count - i, bit
  {
    if i == count then 0 else 2 * TopBits(bit, i + 1, count) + (if bit(i) then 1 else 0)
  }

  /** Reading the bits of n from the top yields n shifted right. */
  lemma {:induction false} TopBitsOfInt(bit: nat -> bool, n: nat, i: nat, count: nat)
    requires i <= count && n < Exp2(count)
    requires forall j :: i <= j < count ==> bit(j) == Bit(n, j)
    ensures TopBits(bit, i, count) == ShiftRight(n, i)
    decreases count - i
  {
    if i == count {
      QuotientUnique(n, Exp2(i), 0, n);
    } else {
      TopBitsOfInt(bit, n, i + 1, count);
      DivDiv(n, Exp2(i), 2);
      assert Exp2(i + 1) == Exp2(i) * 2;
    }
  }

  // ----- Words

  type u64 = x: int | 0 <= x < 0x1_0000_0000_0000_0000

  const RADIX: nat := 0x1_0000_0000_0000_0000

  /** The unsigned little-endian integer of a sequence of words. */
  function WordsInt(words: seq<u64>): nat {
    if words == [] then 0 else words[0] + RADIX * WordsInt(words[1..])
  }

  lemma RadixIsExp2()
    ensures RADIX == Exp2(64)
  {
    Exp2Byte();
    Exp2Add(8, 8);
    assert Exp2(16) == 0x1_0000;
    Exp2Add(16, 16);
    assert Exp2(32) == 0x1_0000_0000;
    Exp2Add(32, 32);
  }

  /** An eight-byte chunk is a word. */
  lemma WordBound(chunk: seq<byte>)
    requires |chunk| <= 8
    ensures 0 <= LeInt(chunk) < RADIX
  {
    LeIntBound(chunk);
    Exp2Monotone(8 * |chunk|, 64);
    RadixIsExp2();
  }
}
