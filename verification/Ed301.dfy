/** The ED301-v1 parameters, and that they are sound for the scheme given the primality of p and of the order. */
module Ed301 {
  import opened Bytes
  import opened Modular
  import opened Wrappers
  import opened EdwardsAlgebra
  import opened EdwardsCurve
  import opened EdwardsGroup
  import opened Edwards
  import opened Multiples
  import opened ScalarMul
  import opened PointCodec
  import opened Signature
  import opened Signing
  import F = Field
  import Fermat

  const P: nat := 0x1ffffffffffffffffffffffffffffffffffffffffffffffffff80000000000000000000003b3
  const EDWARDS_A: nat := 2086388329
  const EDWARDS_D: nat := 301
  const SQRT_EXPONENT: nat := 0x7fffffffffffffffffffffffffffffffffffffffffffffffffe0000000000000000000000ed
  const ORDER: nat := 0x800000000000000000000000000000000000016dcc80892809847fb4a312602e3a1d0be9603
  const ORDER_WORD_0: seq<byte> := [0x03, 0x96, 0xbe, 0xd0, 0xa1, 0xe3, 0x02, 0x26]
  const ORDER_WORD_1: seq<byte> := [0x31, 0x4a, 0xfb, 0x47, 0x98, 0x80, 0x92, 0x08]
  const ORDER_WORD_2: seq<byte> := [0xc8, 0xdc, 0x16, 0x00, 0x00, 0x00, 0x00, 0x00]
  const ORDER_WORD_3: seq<byte> := [0x00, 0x00, 0x00, 0x00, 0x00, 0x00, 0x00, 0x00]
  const ORDER_WORD_4: seq<byte> := [0x00, 0x00, 0x00, 0x00, 0x00, 0x08]
  const PRIME_ORDER_BYTES: seq<byte> :=
    ORDER_WORD_0 + (ORDER_WORD_1 + (ORDER_WORD_2 + (ORDER_WORD_3 + ORDER_WORD_4)))
  const BASE_X: nat := 0x3aee68393be0acb6161a27835cdbb15e84b52add4942cad7bf841f3f76e2adfb00c03d1f
  const BASE_Y: nat := 0x1888d3028aa8c8f26c9e4173225567ac249292b147f3d7f76f6dcf3fe83c65800c5a753ff76b
  const BASE_T: nat := 0x1db90e5effbb0246816daaa5ae2c602cc687276039c215c9ee6a9b1002ef74365f44b45598d

  const BASE_Y_WORD_0: seq<byte> := [0x6b, 0xf7, 0x3f, 0x75, 0x5a, 0x0c, 0x80, 0x65]
  const BASE_Y_WORD_1: seq<byte> := [0x3c, 0xe8, 0x3f, 0xcf, 0x6d, 0x6f, 0xf7, 0xd7]
  const BASE_Y_WORD_2: seq<byte> := [0xf3, 0x47, 0xb1, 0x92, 0x92, 0x24, 0xac, 0x67]
  const BASE_Y_WORD_3: seq<byte> := [0x55, 0x22, 0x73, 0x41, 0x9e, 0x6c, 0xf2, 0xc8]

  /** The published encoding of the base point: 38 bytes, the last one 0x98. */
  const BASEPOINT_ENCODING: seq<byte> :=
    BASE_Y_WORD_0 + (BASE_Y_WORD_1 + (BASE_Y_WORD_2 + (BASE_Y_WORD_3 + [0xa8, 0x8a, 0x02, 0xd3, 0x88, 0x98])))

  const CURVE := Curve(P, EDWARDS_A, EDWARDS_D)
  const BASEPOINT := ExtPoint(BASE_X, BASE_Y, 1, BASE_T)
  const SUITE := Suite(CURVE, SQRT_EXPONENT, ORDER, PRIME_ORDER_BYTES, BASEPOINT)

  /** A square root of a, which completeness needs. */
  const ROOT_OF_A: nat := 45677

  /** A square root of -d. As p = 3 (mod 4), it certifies that d is not a square. */
  const ROOT_OF_MINUS_D: nat := 0x182ec46b050189cd620375f2efdca1c509ff3c33c1d78ca91d270557d320a0306ea495300ff1

  // ----- Plain arithmetic on the literals

  lemma PowersOfTwo()
    ensures Exp2(99) == 0x8000000000000000000000000
    ensures Exp2(299) == 0x800000000000000000000000000000000000000000000000000000000000000000000000000
    ensures Exp2(300) == 2 * Exp2(299) && Exp2(301) == 2 * Exp2(300)
  {
    hide Exp2;
    SmallPowers();
    Exp2Byte();
    RadixIsExp2();
    Exp2Add(64, 64);
    Exp2Add(128, 128);
    Exp2Add(16, 16);
    Exp2Add(8, 8);
    Exp2Add(64, 32);
    Exp2Add(96, 3);
    Exp2Add(256, 32);
    Exp2Add(288, 8);
    Exp2Add(296, 3);
    Exp2Add(1, 299);
    Exp2Add(1, 300);
  }

  /** The modulus is 2^301 - 2^99 + 947, the square-root exponent is (p+1)/4, a = 45677^2 and d = 301. */
  lemma FieldConstants()
    ensures SUITE.curve.p == Exp2(301) - Exp2(99) + 947 && 4 * SUITE.sqrtExponent == SUITE.curve.p + 1
    ensures SUITE.curve.a == 45677 * 45677 && SUITE.curve.d == 301
    ensures P == Exp2(301) - Exp2(99) + 947
    ensures P % 4 == 3 && 4 * SQRT_EXPONENT == P + 1
    ensures HasBitLength(P, 301)
    ensures EDWARDS_A == ROOT_OF_A * ROOT_OF_A
  {
    hide Exp2, FitsIn;
    PowersOfTwo();
    BitLengthRange(P, 301);
  }

  /** The order is 2^299 plus a 129-bit number, odd, and is the integer of the byte string used for subgroup checks. */
  lemma OrderConstants()
    ensures SUITE.order == Exp2(299) + 0x16dcc80892809847fb4a312602e3a1d0be9603
    ensures LeInt(SUITE.orderBytes) == SUITE.order
    ensures ORDER % 2 == 1
    ensures HasBitLength(ORDER, 300)
    ensures LeInt(PRIME_ORDER_BYTES) == ORDER
  {
    hide Exp2, FitsIn;
    PowersOfTwo();
    BitLengthRange(ORDER, 300);
    OrderBytes();
  }

  lemma PrependWord(w: seq<byte>, rest: seq<byte>)
    requires |w| == 8
    ensures LeInt(w + rest) == LeInt(w) + RADIX * LeInt(rest)
  {
    hide LeInt, Exp2;
    LeIntAppend(w, rest);
    RadixIsExp2();
  }

  /** The integer of four words and a short fifth one. */
  lemma FiveWords(w0: seq<byte>, w1: seq<byte>, w2: seq<byte>, w3: seq<byte>, w4: seq<byte>)
    requires |w0| == 8 && |w1| == 8 && |w2| == 8 && |w3| == 8
    ensures LeInt(w0 + (w1 + (w2 + (w3 + w4)))) ==
      LeInt(w0) + RADIX * (LeInt(w1) + RADIX * (LeInt(w2) + RADIX * (LeInt(w3) + RADIX * LeInt(w4))))
  {
    hide LeInt;
    PrependWord(w3, w4);
    PrependWord(w2, w3 + w4);
    PrependWord(w1, w2 + (w3 + w4));
    PrependWord(w0, w1 + (w2 + (w3 + w4)));
  }

  lemma OrderBytes()
    ensures |PRIME_ORDER_BYTES| == F.FIELD_BYTES && LeInt(PRIME_ORDER_BYTES) == ORDER
  {
    hide LeInt, Exp2;
    OrderWords();
    FiveWords(ORDER_WORD_0, ORDER_WORD_1, ORDER_WORD_2, ORDER_WORD_3, ORDER_WORD_4);
  }

  lemma OrderWords()
    ensures LeInt(ORDER_WORD_0) == 0x2602e3a1d0be9603
    ensures LeInt(ORDER_WORD_1) == 0x892809847fb4a31
    ensures LeInt(ORDER_WORD_2) == 0x16dcc8
    ensures LeInt(ORDER_WORD_3) == 0x0
    ensures LeInt(ORDER_WORD_4) == 0x80000000000
  {
    hide LeInt;
    LeIntLiteral(ORDER_WORD_0);
    LeIntLiteral(ORDER_WORD_1);
    LeIntLiteral(ORDER_WORD_2);
    LeIntLiteral(ORDER_WORD_3);
    LeIntLiteral(ORDER_WORD_4);
  }

  lemma LeIntLiteral(bs: seq<byte>)
    requires 6 <= |bs| <= 8
    ensures LeInt(bs) == bs[0] as int + 0x100 * bs[1] as int + 0x1_0000 * bs[2] as int + 0x100_0000 * bs[3] as int
      + 0x1_0000_0000 * (bs[4] as int + 0x100 * bs[5] as int
        + (if |bs| > 6 then 0x1_0000 * bs[6] as int else 0) + (if |bs| > 7 then 0x100_0000 * bs[7] as int else 0))
  {
    hide LeInt;
    LeIntFour(bs, 0);
    if |bs| == 8 {
      LeIntFour(bs, 4);
    } else {
      LeIntTail(bs, 4);
      LeIntTail(bs, 5);
      LeIntTail(bs, 6);
      if |bs| == 7 {
        LeIntTail(bs, 7);
      }
    }
    LeIntTail(bs, |bs|);
  }

  lemma LeIntFour(bs: seq<byte>, i: nat)
    requires i + 4 <= |bs|
    ensures LeInt(bs[i..]) == bs[i] as int + 0x100 * bs[i + 1] as int + 0x1_0000 * bs[i + 2] as int
      + 0x100_0000 * bs[i + 3] as int + 0x1_0000_0000 * LeInt(bs[i + 4..])
    ensures i == 0 ==> bs[i..] == bs
  {
    hide LeInt;
    LeIntTail(bs, i);
    LeIntTail(bs, i + 1);
    LeIntTail(bs, i + 2);
    LeIntTail(bs, i + 3);
  }

  lemma LeIntTail(bs: seq<byte>, i: nat)
    requires i <= |bs|
    ensures LeInt(bs[i..]) == if i == |bs| then 0 else bs[i] as int + 256 * LeInt(bs[i + 1..])
    ensures i == 0 ==> bs[i..] == bs
  {
    if i < |bs| {
      assert bs[i..][1..] == bs[i + 1..];
    }
  }

  lemma BaseArithmetic()
    ensures BASE_T - BASE_X * BASE_Y
      == P * -0x2d2ec7fe8da1d9f6446236c16050609093253cb37e089efb612e9793e72385f15ac062f8
    ensures BASE_Y * BASE_Y + EDWARDS_A * (BASE_X * BASE_X) - (1 + EDWARDS_D * (BASE_T * BASE_T))
      == P * 0x2711f25ca40ed9036f0a989b9750e20548138936a758795c2e3b3e79cb9eb4a78f822d84a624
    ensures BASE_X < P && BASE_Y < P && BASE_T < P
  {
  }

  lemma RootArithmetic()
    ensures ROOT_OF_MINUS_D * ROOT_OF_MINUS_D + EDWARDS_D
      == P * 0x12466af9f0d1165c94a4f42c7b24426d5b43a9de14d17ad5d81fa5c265f3155c57b9d005c6ba
  {
  }

  // ----- Soundness of the parameters

  /** The base point, in affine coordinates. */
  const BASE := Affine(BASE_X, BASE_Y)

  /** What cannot be read off the literals: p and the order are prime, and [order]B is the neutral element. */
  ghost predicate Certified() {
    IsPrime(P) && IsPrime(ORDER) && InSubgroup(CURVE, ORDER, BASE)
  }

  /** a is a square because 45677^2 = a; d is not, because -d is a square and p = 3 (mod 4). */
  lemma CurveComplete()
    requires IsPrime(P)
    ensures Complete(CURVE)
  {
    hide IsPrime, IsSquare, Cong, Product;
    FieldConstants();
    RootArithmetic();
    SmallNonzero(P, EDWARDS_A);
    SmallNonzero(P, EDWARDS_D);
    CongRefl(P, EDWARDS_A);
    SquareIntro(P, ROOT_OF_A, EDWARDS_A);
    var d: int := EDWARDS_D;
    CongIntro(P, ROOT_OF_MINUS_D * ROOT_OF_MINUS_D, -d,
      0x12466af9f0d1165c94a4f42c7b24426d5b43a9de14d17ad5d81fa5c265f3155c57b9d005c6ba);
    SquareIntro(P, ROOT_OF_MINUS_D, -d);
    Fermat.NegatedSquareIsNonsquare(P, d);
  }

  lemma SmallNonzero(m: nat, n: nat)
    requires 0 < n < m
    ensures !Cong(m, n, 0)
  {
    if Cong(m, n, 0) {
      CongCanonical(m, n, 0);
    }
  }

  lemma BaseOnCurve()
    ensures OnCurve(CURVE, BASE) && BASE != Neutral
    ensures Cong(P, BASE_T, BASE_X * BASE_Y)
  {
    hide Cong, Product;
    BaseArithmetic();
    CongIntro(P, BASE_T, BASE_X * BASE_Y, -0x2d2ec7fe8da1d9f6446236c16050609093253cb37e089efb612e9793e72385f15ac062f8);
    CongIntro(P, BASE_Y * BASE_Y + EDWARDS_A * (BASE_X * BASE_X), 1 + EDWARDS_D * (BASE_T * BASE_T),
      0x2711f25ca40ed9036f0a989b9750e20548138936a758795c2e3b3e79cb9eb4a78f822d84a624);
    EquationFromT(CURVE, BASE, BASE_T);
  }

  /** The curve equation may be checked with t in place of the product x*y. */
  lemma EquationFromT(c: Curve, p: Affine, t: int)
    requires Cong(c.p, t, p.x * p.y)
    requires Cong(c.p, p.y * p.y + c.a * (p.x * p.x), 1 + c.d * (t * t))
    ensures CurveEquation(c, p)
  {
    hide Cong, Product;
    Products();
    var s := p.x * p.y;
    CongMul(c.p, t, s, t, s);
    CongScale(c.p, c.d, t * t, s * s);
    CongRefl(c.p, 1);
    CongAdd(c.p, 1, 1, c.d * (t * t), c.d * (s * s));
    CongTrans(c.p, p.y * p.y + c.a * (p.x * p.x), 1 + c.d * (t * t), 1 + c.d * (s * s));
  }

  lemma BaseDenotes(c: Curve, p: Affine, t: int)
    requires IsPrime(c.p) && OnCurve(c, p) && F.IsElement(c.p, t) && Cong(c.p, t, p.x * p.y)
    ensures Denotes(c, ExtPoint(p.x, p.y, 1, t), p)
  {
    hide Cong, Product, Divides;
    Products();
    SmallUnits(c.p);
    CongRefl(c.p, p.x);
    CongRefl(c.p, p.y);
  }

  // ----- The encoding of the base point

  lemma BaseYWords()
    ensures LeInt(BASE_Y_WORD_0) == 0x65800c5a753ff76b
    ensures LeInt(BASE_Y_WORD_1) == 0xd7f76f6dcf3fe83c
    ensures LeInt(BASE_Y_WORD_2) == 0x67ac249292b147f3
    ensures LeInt(BASE_Y_WORD_3) == 0xc8f26c9e41732255
  {
    hide LeInt;
    LeIntLiteral(BASE_Y_WORD_0);
    LeIntLiteral(BASE_Y_WORD_1);
    LeIntLiteral(BASE_Y_WORD_2);
    LeIntLiteral(BASE_Y_WORD_3);
  }

  lemma EncodingFromBytes(p: Affine, yBytes: seq<byte>)
    requires |yBytes| == F.FIELD_BYTES && LeInt(yBytes) == p.y && p.x >= 0
    ensures EncodeAffine(p) == yBytes[LAST := yBytes[LAST] | (if IsOdd(p.x) then 0x80 else 0)]
  {
    hide LeInt, LeBytes, IsOdd;
    LeBytesOfLeInt(yBytes);
    LeBytesPrefix(p.y, F.FIELD_BYTES, F.UINT_BYTES);
    F.FirstByteParity(p.x);
  }

  lemma BaseEncoding()
    ensures |BASEPOINT_ENCODING| == F.FIELD_BYTES && EncodeAffine(BASE) == BASEPOINT_ENCODING
  {
    hide LeInt, EncodeAffine;
    var top: seq<byte> := [0xa8, 0x8a, 0x02, 0xd3, 0x88, 0x18];
    var head := BASE_Y_WORD_0 + (BASE_Y_WORD_1 + (BASE_Y_WORD_2 + BASE_Y_WORD_3));
    var yBytes := BASE_Y_WORD_0 + (BASE_Y_WORD_1 + (BASE_Y_WORD_2 + (BASE_Y_WORD_3 + top)));
    BaseYWords();
    LeIntLiteral(top);
    FiveWords(BASE_Y_WORD_0, BASE_Y_WORD_1, BASE_Y_WORD_2, BASE_Y_WORD_3, top);
    EncodingFromBytes(BASE, yBytes);
    assert yBytes == head + top;
    assert BASEPOINT_ENCODING == head + [0xa8, 0x8a, 0x02, 0xd3, 0x88, 0x98];
  }

  /** Encoding and decoding a point with Z = 1 and T = X*Y. */
  lemma CodecOfAffine(c: Curve, sqrtExponent: nat, p: Affine, t: int, bytes: seq<byte>)
    requires CodecParameters(c, sqrtExponent) && OnCurve(c, p) && bytes == EncodeAffine(p)
    requires F.IsElement(c.p, t) && Cong(c.p, t, p.x * p.y)
    ensures Encode(c, ExtPoint(p.x, p.y, 1, t)) == Ok(bytes)
    ensures Decode(c, sqrtExponent, bytes) == Ok(ExtPoint(p.x, p.y, 1, t))
  {
    hide Cong, Product, EncodeAffine, Decode, IsPrime, IsSquare, CurveEquation, FitsIn, IsValid, ToAffine, Denotes,
      Reduce;
    BaseDenotes(c, p, t);
    DenotesValid(c, ExtPoint(p.x, p.y, 1, t), p);
    DecodeOfEncode(c, sqrtExponent, p);
    CongSym(c.p, t, p.x * p.y);
    F.MulCanonical(c.p, p.x, p.y, t);
  }

  /** The base point encodes to the published bytes, and they decode to it. */
  lemma BasePointCodec()
    requires IsPrime(P)
    ensures Encode(SUITE.curve, SUITE.base) == Ok(BASEPOINT_ENCODING)
    ensures |BASEPOINT_ENCODING| == 38 && Decode(SUITE.curve, SUITE.sqrtExponent, BASEPOINT_ENCODING) == Ok(SUITE.base)
  {
    hide IsPrime, IsSquare, Cong, Product, FitsIn, Exp2, OnCurve, Complete, Encode, Decode, EncodeAffine;
    CurveComplete();
    FieldConstants();
    BaseArithmetic();
    BaseOnCurve();
    BaseEncoding();
    CodecOfAffine(CURVE, SQRT_EXPONENT, BASE, BASE_T, BASEPOINT_ENCODING);
  }

  /** The published parameters meet every condition of the scheme. */
  lemma SuiteSound()
    requires Certified()
    ensures Sound(SUITE)
    ensures |BASEPOINT_ENCODING| == 38 && Decode(SUITE.curve, SUITE.sqrtExponent, BASEPOINT_ENCODING) == Ok(SUITE.base)
    ensures Encode(SUITE.curve, SUITE.base) == Ok(BASEPOINT_ENCODING)
  {
    hide IsPrime, IsSquare, Cong, Product, FitsIn, Exp2, LeInt, OnCurve, Complete, Denotes, Times, Encode, Decode;
    BasePointCodec();
    CurveComplete();
    FieldConstants();
    OrderConstants();
    BaseArithmetic();
    BaseOnCurve();
    BaseDenotes(CURVE, BASE, BASE_T);
  }

  /** Sign-then-verify for the published parameters: every 38-byte seed, message and hash function. */
  lemma SignThenVerify(h: Hash, seed: seq<byte>, message: seq<byte>)
    requires Certified()
    ensures Sound(SUITE)
    ensures Verify(SUITE, h, DerivedSecret(SUITE, h, seed).publicKey, message, SignatureBytes(SUITE, h, seed, message))
  {
    SuiteSound();
    hide *;
    SignatureVerifies(SUITE, h, seed, message);
  }
}
