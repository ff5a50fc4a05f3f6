/**
 Key derivation and deterministic signing (signature.rs): the buffers, the self-checks, and why none of them
 fails.
*/
module Signing {
  import opened Bytes
  import opened Modular
  import opened Wrappers
  import opened EdwardsCurve
  import opened EdwardsGroup
  import opened Multiples
  import opened Edwards
  import opened ScalarMul
  import opened PointCodec
  import opened Signature
  import Scalar
  import F = Field

  datatype ExpandedSecret = ExpandedSecret(reducedScalar: nat, prefix: seq<byte>, publicKey: seq<byte>)

  // ----- The written rule, on integers and affine points

  /** The low half of the expanded seed with the two pruned bytes. */
  function Pruned(lower: seq<byte>): (bytes: seq<byte>)
    requires |lower| == F.FIELD_BYTES
    ensures |bytes| == F.FIELD_BYTES
  {
    lower[0 := lower[0] & 0xfc][LAST := (lower[LAST] & 0x0f) | 0x10]
  }

  function SecretBytes(h: Hash, seed: seq<byte>): (bytes: seq<byte>)
    ensures |bytes| == F.FIELD_BYTES
  {
    Pruned(h(seed)[..F.FIELD_BYTES])
  }

  function SecretInteger(h: Hash, seed: seq<byte>): nat {
    LeInt(SecretBytes(h, seed))
  }

  function Prefix(h: Hash, seed: seq<byte>): seq<byte> {
    h(seed)[F.FIELD_BYTES..]
  }

  /** A = [s]B. */
  ghost function PublicPoint(s: Suite, h: Hash, seed: seq<byte>): Affine
    requires s.curve.p > 0
  {
    Times(s.curve, SecretInteger(h, seed), Base(s))
  }

  /** r and R = [r]B. */
  function NonceScalar(s: Suite, h: Hash, seed: seq<byte>, message: seq<byte>): nat
    requires s.order > 0
  {
    Reduce(s.order, LeInt(h(Prefix(h, seed) + message)))
  }

  ghost function CommitmentPoint(s: Suite, h: Hash, seed: seq<byte>, message: seq<byte>): Affine
    requires s.curve.p > 0 && s.order > 0
  {
    Times(s.curve, NonceScalar(s, h, seed, message), Base(s))
  }

  // ----- The pruned integer

  lemma PrunedByteBits(b: byte, k: nat)
    requires k < 8
    ensures ByteBit(b & 0xfc, k) == (k >= 2 && ByteBit(b, k))
    ensures ByteBit((b & 0x0f) | 0x10, k) == (k == 4 || (k < 4 && ByteBit(b, k)))
  {
    assert k == 0 || k == 1 || k == 2 || k == 3 || k == 4 || k == 5 || k == 6 || k == 7;
  }

  /** Pruning clears bits 0 and 1 and everything above bit 300, sets bit 300, and keeps the bits between. */
  lemma PrunedBits(lower: seq<byte>, i: nat)
    requires |lower| == F.FIELD_BYTES && i < 8 * F.FIELD_BYTES
    ensures Bit(LeInt(Pruned(lower)), i) == (i == 300 || (2 <= i < 300 && Bit(LeInt(lower), i)))
  {
    hide Bit, LeInt, ByteBit, Pruned;
    BitOfLeInt(lower, i);
    BitOfLeInt(Pruned(lower), i);
    PrunedBytes(lower, i / 8);
    PrunedByteBits(lower[i / 8], i % 8);
    Position(i / 8, i % 8, i);
  }

  lemma PrunedBytes(lower: seq<byte>, q: nat)
    requires |lower| == F.FIELD_BYTES && q <= LAST
    ensures Pruned(lower)[q] ==
      if q == 0 then lower[q] & 0xfc else if q == LAST then (lower[q] & 0x0f) | 0x10 else lower[q]
  {
  }

  /** Bit k of byte q relative to the pruned positions. */
  lemma Position(q: nat, k: nat, i: nat)
    requires i == 8 * q + k && k < 8 && q <= LAST
    ensures q == 0 ==> i == k && i < 300
    ensures q == LAST ==> i == 296 + k
    ensures 0 < q < LAST ==> 2 <= i < 300
  {
  }

  lemma PrunedFirstByte(b: byte)
    ensures (b & 0xfc) as int == 4 * (b as int / 4)
  {
  }

  lemma PrunedLastByte(b: byte)
    ensures ((b & 0x0f) | 0x10) as int == 16 + b as int % 16
  {
  }

  /** As an integer: the low 300 bits of the input without the lowest two, plus 2^300. */
  lemma PrunedInteger(lower: seq<byte>)
    requires |lower| == F.FIELD_BYTES
    ensures LeInt(Pruned(lower)) == Exp2(300) + 4 * ((LeInt(lower) / 4) % Exp2(298))
  {
    hide Exp2, LeInt, Pruned;
    var middle, e := LeInt(lower[1..LAST]), Exp2(294);
    PrunedParts(lower);
    ByteSandwich(lower, middle);
    ByteSandwich(Pruned(lower), middle);
    LeIntBound(lower[1..LAST]);
    PowersFrom294();
    PruneArithmetic(lower[0] as int, middle, lower[LAST] as int, e, LeInt(lower), LeInt(Pruned(lower)));
  }

  lemma PowersFrom294()
    ensures Exp2(294) == 64 * Exp2(288) && Exp2(298) == 16 * Exp2(294) && Exp2(300) == 64 * Exp2(294)
  {
    hide Exp2;
    SmallPowers();
    Exp2Add(288, 6);
    Exp2Add(294, 4);
    Exp2Add(294, 6);
  }

  lemma PrunedParts(lower: seq<byte>)
    requires |lower| == F.FIELD_BYTES
    ensures Pruned(lower)[0] as int == 4 * (lower[0] as int / 4)
    ensures Pruned(lower)[1..LAST] == lower[1..LAST]
    ensures Pruned(lower)[LAST] as int == 16 + lower[LAST] as int % 16
  {
    PrunedFirstByte(lower[0]);
    PrunedLastByte(lower[LAST]);
  }

  /** The integer of 38 bytes, split into the first byte, the middle and the last. */
  lemma ByteSandwich(bytes: seq<byte>, middle: nat)
    requires |bytes| == F.FIELD_BYTES && middle == LeInt(bytes[1..LAST])
    ensures LeInt(bytes) == bytes[0] as int + 256 * middle + (4 * Exp2(294)) * bytes[LAST] as int
  {
    hide Exp2;
    var rest, last := bytes[1..], bytes[LAST..];
    assert rest == bytes[1..LAST] + last;
    assert last[1..] == [];
    assert LeInt(last) == bytes[LAST] as int;
    assert LeInt(bytes) == bytes[0] as int + 256 * LeInt(rest);
    hide LeInt;
    LeIntAppend(bytes[1..LAST], last);
    PowersFrom294();
    SandwichArithmetic(bytes[0] as int, middle, bytes[LAST] as int, Exp2(288), Exp2(294));
  }

  lemma SandwichArithmetic(first: int, middle: int, last: int, e: int, e': int)
    requires e' == 64 * e
    ensures first + 256 * (middle + e * last) == first + 256 * middle + (4 * e') * last
  {
    MulRegroup(256, e, last);
  }

  lemma PruneArithmetic(first: nat, middle: nat, last: nat, e: nat, n: nat, pruned: nat)
    requires first < 256 && 64 * (middle + 1) <= e
    requires n == first + 256 * middle + (4 * e) * last
    requires pruned == 4 * (first / 4) + 256 * middle + (4 * e) * (16 + last % 16)
    ensures pruned == 64 * e + 4 * ((n / 4) % (16 * e))
  {
    var low := first / 4 + 64 * middle;
    MulRegroup(4, e, last);
    QuotientUnique(n, 4, low + e * last, first % 4);
    Distribute(e, 16 * (last / 16), last % 16);
    MulRegroup(16, e, last / 16);
    MulRegroup(e, 16, last / 16);
    DigitBound(e, 16, last % 16, low);
    QuotientUnique(low + e * last, 16 * e, last / 16, low + e * (last % 16));
    Distribute(4 * e, 16, last % 16);
    MulRegroup(4, e, last % 16);
  }

  /** The masks force 2^300 <= s < 2^301 and 4 | s. */
  lemma SecretRange(h: Hash, seed: seq<byte>)
    ensures HasBitLength(SecretInteger(h, seed), 301)
    ensures SecretInteger(h, seed) % 4 == 0
  {
    hide Exp2, FitsIn;
    var lower := h(seed)[..F.FIELD_BYTES];
    PrunedParts(lower);
    PrunedRange(SecretBytes(h, seed));
  }

  lemma PrunedRange(bytes: seq<byte>)
    requires |bytes| == F.FIELD_BYTES && bytes[0] as int % 4 == 0 && 16 <= bytes[LAST] as int < 32
    ensures HasBitLength(LeInt(bytes), 301)
    ensures LeInt(bytes) % 4 == 0
  {
    hide Exp2, FitsIn;
    LastByteOfElement(bytes);
    BitLengthRange(LeInt(bytes), 301);
    FitsInIff(LeInt(bytes), 301);
    var lo, hi := bytes[..LAST], bytes[LAST..];
    assert bytes == lo + hi;
    LeIntAppend(lo, hi);
    assert hi[1..] == [];
    Exp2Add(8 * LAST, 4);
    SmallPowers();
    MulMonotone(Exp2(8 * LAST), 16, bytes[LAST] as int);
    LowTwoBits(bytes[0] as int, LeInt(bytes[1..]));
  }

  lemma MulMonotone(e: nat, a: int, b: int)
    requires a <= b
    ensures e * a <= e * b
  {
  }

  lemma LowTwoBits(b: int, rest: int)
    requires b % 4 == 0
    ensures (b + 256 * rest) % 4 == 0
  {
    assert b + 256 * rest == 4 * (b / 4 + 64 * rest);
  }

  /** A multiple of four between 2^300 and 2^301 is not a multiple of an odd order between 2^299 and 2^300. */
  lemma NotMultipleOfOrder(s: Suite, n: nat)
    requires Sound(s) && HasBitLength(n, 301) && n % 4 == 0
    ensures Reduce(s.order, n) != 0
  {
    hide Reduce, IsPrime, IsSquare, Exp2, FitsIn, InSubgroup, IsValid;
    BitLengthRange(n, 301);
    BitLengthRange(s.order, 300);
    assert Exp2(301) == 2 * Exp2(300) && Exp2(300) == 2 * Exp2(299) by {
      Exp2Add(1, 300);
      Exp2Add(1, 299);
      SmallPowers();
    }
    OddDoesNotDivide(s.order, n);
  }

  lemma OddDoesNotDivide(order: nat, n: nat)
    requires order % 2 == 1 && 0 < n < 4 * order && n % 4 == 0
    ensures Reduce(order, n) != 0
  {
    ReduceIsMod(order, n);
    if n % order == 0 {
      MultipleBelowFour(order, n / order, n);
      OddMultiples(order);
    }
  }

  lemma MultipleBelowFour(order: nat, m: nat, n: nat)
    requires n == order * m && 0 < n < 4 * order
    ensures n == order || n == 2 * order || n == 3 * order
  {
    if m >= 4 {
      MulMonotone(order, 4, m);
    }
    assert m == 0 || m == 1 || m == 2 || m == 3;
  }

  lemma OddMultiples(order: nat)
    requires order % 2 == 1
    ensures order % 4 != 0 && (2 * order) % 4 != 0 && (3 * order) % 4 != 0
  {
  }

  /** The derived public point is a full public key: nonneutral and of order exactly the subgroup order. */
  lemma PublicPointValid(s: Suite, h: Hash, seed: seq<byte>)
    requires Sound(s)
    ensures IsPublicPoint(s, PublicPoint(s, h, seed))
  {
    hide Reduce, IsPrime, IsSquare, IsValid, ToAffine, CurveEquation, FitsIn, Times, SecretInteger;
    var n := SecretInteger(h, seed);
    BaseFacts(s);
    SecretRange(h, seed);
    NotMultipleOfOrder(s, n);
    TimesOnCurve(s.curve, n, Base(s));
    ExactOrder(s.curve, s.order, n, Base(s));
    MultipleInSubgroup(s.curve, s.order, n, Base(s));
  }

  /** Multiplying by the unreduced pruned integer and by its reduction gives the same public point. */
  lemma SecretPathsAgree(s: Suite, h: Hash, seed: seq<byte>)
    requires Sound(s)
    ensures PublicPoint(s, h, seed) == Times(s.curve, Reduce(s.order, SecretInteger(h, seed)), Base(s))
  {
    hide Reduce, IsPrime, IsSquare, IsValid, ToAffine, OnCurve, FitsIn, Times, SecretInteger;
    BaseFacts(s);
    TimesReduced(s.curve, s.order, SecretInteger(h, seed), Base(s));
  }

  // ----- Derivation

  ghost function DerivedSecret(s: Suite, h: Hash, seed: seq<byte>): ExpandedSecret
    requires Sound(s)
  {
    PublicPointValid(s, h, seed);
    ExpandedSecret(Reduce(s.order, SecretInteger(h, seed)), Prefix(h, seed), EncodeAffine(PublicPoint(s, h, seed)))
  }

  /** The point computed from the pruned bytes passes the strict check and encodes. */
  lemma PublicChecks(s: Suite, h: Hash, seed: seq<byte>)
    requires Sound(s)
    ensures var a, e := PublicPoint(s, h, seed), ScalarMulEncoded(s.curve, s.base, SecretBytes(h, seed));
      && Elements(s.curve, e)
      && IsPrimeSubgroupNonidentity(s.curve, s.orderBytes, e)
      && OnCurve(s.curve, a)
      && Encode(s.curve, e) == Ok(EncodeAffine(a))
  {
    hide Reduce, IsPrime, IsSquare, IsValid, ToAffine, CurveEquation, FitsIn, Times, Denotes, LeInt, EncodeAffine,
      ScalarMulEncoded, IsPrimeSubgroupNonidentity, InSubgroup, Encode, SecretBytes;
    var a, e := PublicPoint(s, h, seed), ScalarMulEncoded(s.curve, s.base, SecretBytes(h, seed));
    BaseFacts(s);
    SecretRange(h, seed);
    PublicPointValid(s, h, seed);
    ScalarMulEncodedDenotes(s.curve, s.base, Base(s), SecretBytes(h, seed));
    ScalarsFit(s);
    SubgroupDecides(s.curve, s.orderBytes, e, a);
    DenotesValid(s.curve, e, a);
    DenotesElements(s.curve, e, a);
    EncodeOfValid(s.curve, e);
  }

  /** Masks a copy of the hash in place, multiplies, checks and encodes. The checks always pass. */
  method Derive(s: Suite, h: Hash, seed: seq<byte>) returns (r: Result<ExpandedSecret, SignatureError>)
    requires Sound(s) && |seed| == SEED_BYTES
    ensures r == Ok(DerivedSecret(s, h, seed))
    ensures var n := Exp2(300) + 4 * ((LeInt(h(seed)[..38]) / 4) % Exp2(298));
      r == Ok(ExpandedSecret(Reduce(s.order, n), h(seed)[38..], EncodeAffine(Times(s.curve, n, Base(s)))))
  {
    hide Reduce, IsPrime, IsSquare, IsValid, ToAffine, OnCurve, FitsIn, Times, Denotes, LeInt, EncodeAffine, Ladder,
      IsPrimeSubgroupNonidentity, InSubgroup, Encode, Elements;
    var expandedHash := ExpandSeed(h, seed);
    var prunedScalar := new byte[F.FIELD_BYTES](i requires 0 <= i < F.FIELD_BYTES => expandedHash[i]);
    assert prunedScalar[..] == expandedHash[..F.FIELD_BYTES];
    prunedScalar[0] := prunedScalar[0] & 0xfc;
    prunedScalar[LAST] := (prunedScalar[LAST] & 0x0f) | 0x10;
    var prefix := expandedHash[F.FIELD_BYTES..];
    var secretBytes := prunedScalar[..];
    assert secretBytes == SecretBytes(h, seed);
    PublicChecks(s, h, seed);
    WrittenRule(s, h, seed, []);

    var reducedScalar := Scalar.ReducePrunedLe(s.order, secretBytes);
    var publicPoint := ScalarMulWith(s.curve, s.base, EncodedBits(secretBytes));
    if !IsPrimeSubgroupNonidentity(s.curve, s.orderBytes, publicPoint) {
      return Err(InternalFailure);
    }
    var publicKey := EncodeInner(s.curve, publicPoint);
    if publicKey.Err? {
      return Err(InternalFailure);
    }
    return Ok(ExpandedSecret(reducedScalar, prefix, publicKey.value));
  }

  lemma DenotesElements(c: Curve, e: ExtPoint, p: Affine)
    requires Denotes(c, e, p)
    ensures Elements(c, e)
  {
  }

  // ----- Signing

  /** S = (r + k*s) mod L, with the unreduced secret integer. */
  ghost function ResponseScalar(s: Suite, h: Hash, seed: seq<byte>, message: seq<byte>): (response: nat)
    requires Sound(s)
    ensures response < s.order
  {
    PublicPointValid(s, h, seed);
    CommitmentOnCurve(s, h, seed, message);
    var commitment := EncodeAffine(CommitmentPoint(s, h, seed, message));
    var challenge := LeInt(h(commitment + EncodeAffine(PublicPoint(s, h, seed)) + message));
    Reduce(s.order, NonceScalar(s, h, seed, message) + Product(challenge, SecretInteger(h, seed)))
  }

  /** The 76 signature bytes of the written rule. */
  ghost function SignatureBytes(s: Suite, h: Hash, seed: seq<byte>, message: seq<byte>): (bytes: seq<byte>)
    requires Sound(s)
    ensures |bytes| == SIGNATURE_BYTES
  {
    CommitmentOnCurve(s, h, seed, message);
    EncodeAffine(CommitmentPoint(s, h, seed, message))
      + LeBytes(ResponseScalar(s, h, seed, message), Scalar.SCALAR_BYTES)
  }

  lemma CommitmentOnCurve(s: Suite, h: Hash, seed: seq<byte>, message: seq<byte>)
    requires Sound(s)
    ensures OnCurve(s.curve, CommitmentPoint(s, h, seed, message))
    ensures InSubgroup(s.curve, s.order, CommitmentPoint(s, h, seed, message))
  {
    hide Reduce, IsPrime, IsSquare, IsValid, ToAffine, CurveEquation, FitsIn, Times, NonceScalar;
    BaseFacts(s);
    TimesOnCurve(s.curve, NonceScalar(s, h, seed, message), Base(s));
    MultipleInSubgroup(s.curve, s.order, NonceScalar(s, h, seed, message), Base(s));
  }

  /** Key and signature written out over the hash alone, with the unreduced 608-bit nonce and challenge. */
  lemma WrittenRule(s: Suite, h: Hash, seed: seq<byte>, message: seq<byte>)
    requires Sound(s)
    ensures var n := Exp2(300) + 4 * ((LeInt(h(seed)[..38]) / 4) % Exp2(298));
      var publicKey := EncodeAffine(Times(s.curve, n, Base(s)));
      var nonce := LeInt(h(h(seed)[38..] + message));
      var commitment := EncodeAffine(Times(s.curve, nonce, Base(s)));
      var challenge := LeInt(h(commitment + publicKey + message));
      && DerivedSecret(s, h, seed) == ExpandedSecret(Reduce(s.order, n), h(seed)[38..], publicKey)
      && SignatureBytes(s, h, seed, message) == commitment + LeBytes(Reduce(s.order, nonce + Product(challenge, n)), 38)
  {
    hide Reduce, IsPrime, IsSquare, IsValid, ToAffine, OnCurve, FitsIn, Times, LeInt, LeBytes, EncodeAffine, Exp2,
      Product, InSubgroup, Pruned, Denotes;
    var n := SecretInteger(h, seed);
    PrunedInteger(h(seed)[..F.FIELD_BYTES]);
    BaseFacts(s);
    var nonce := LeInt(h(h(seed)[38..] + message));
    TimesReduced(s.curve, s.order, nonce, Base(s));
    var commitment := EncodeAffine(Times(s.curve, nonce, Base(s)));
    var challenge := LeInt(h(commitment + EncodeAffine(Times(s.curve, n, Base(s))) + message));
    ResponseFromUnreduced(s.order, nonce, challenge, n);
  }

  /** The same bytes, from the expanded secret alone. */
  lemma ExpandedRule(s: Suite, h: Hash, seed: seq<byte>, message: seq<byte>)
    requires Sound(s)
    ensures var expanded := DerivedSecret(s, h, seed);
      var nonce := LeInt(h(expanded.prefix + message));
      var commitment := EncodeAffine(Times(s.curve, nonce, Base(s)));
      var challenge := LeInt(h(commitment + expanded.publicKey + message));
      SignatureBytes(s, h, seed, message)
        == commitment + LeBytes(Reduce(s.order, nonce + Product(challenge, expanded.reducedScalar)), 38)
  {
    hide Reduce, IsPrime, IsSquare, IsValid, ToAffine, OnCurve, FitsIn, Times, LeInt, LeBytes, EncodeAffine, Product,
      InSubgroup, SecretInteger, Denotes;
    var expanded := DerivedSecret(s, h, seed);
    BaseFacts(s);
    var nonce := LeInt(h(expanded.prefix + message));
    TimesReduced(s.curve, s.order, nonce, Base(s));
    var commitment := EncodeAffine(Times(s.curve, nonce, Base(s)));
    var challenge := LeInt(h(commitment + expanded.publicKey + message));
    ResponseFromUnreduced(s.order, nonce, challenge, SecretInteger(h, seed));
    ReducedFactor(s.order, nonce, challenge, SecretInteger(h, seed));
  }

  lemma ReducedFactor(order: nat, r: nat, k: nat, n: nat)
    requires order > 0
    ensures Reduce(order, r + Product(k, Reduce(order, n))) == Reduce(order, r + Product(k, n))
  {
    hide Cong, Reduce, Product;
    Products();
    CongReduce(order, n);
    CongScale(order, k, Reduce(order, n), n);
    CongRefl(order, r);
    CongAdd(order, r, r, k * Reduce(order, n), k * n);
    ReduceIffCong(order, r + k * Reduce(order, n), r + k * n);
  }

  lemma ResponseFromUnreduced(order: nat, r: nat, k: nat, n: nat)
    requires order > 0
    ensures Reduce(order, Reduce(order, r) + Product(k, n)) == Reduce(order, r + Product(k, n))
  {
    hide Cong, Reduce, Product;
    Products();
    CongReduce(order, r);
    CongRefl(order, k * n);
    CongAdd(order, Reduce(order, r), r, k * n, k * n);
    ReduceIffCong(order, Reduce(order, r) + k * n, r + k * n);
  }

  /** With R = [r]B, A = [n]B and S = r + k*n modulo the order, the cofactored equation holds. */
  lemma EquationHolds(s: Suite, r: nat, n: nat, k: nat, e: nat)
    requires Sound(s) && e == r + Product(k, n)
    ensures CofactoredEquation(s, Times(s.curve, r, Base(s)), Times(s.curve, n, Base(s)), Reduce(s.order, e), k)
  {
    hide Reduce, IsPrime, IsSquare, IsValid, Base, OnCurve, FitsIn, Times, Add, InSubgroup;
    BaseFacts(s);
    FourFoldSum(s.curve, r, n, k, e, Base(s));
    ResponseReduced(s, e);
  }

  lemma ResponseReduced(s: Suite, e: nat)
    requires Sound(s)
    ensures Times(s.curve, 4 * Reduce(s.order, e), Base(s)) == Times(s.curve, 4 * e, Base(s))
  {
    hide Reduce, IsPrime, IsSquare, IsValid, Base, OnCurve, FitsIn, Times, Add, InSubgroup;
    BaseFacts(s);
    TimesReduced(s.curve, s.order, e, Base(s));
    TimesFour(s.curve, e, Base(s));
    TimesFour(s.curve, Reduce(s.order, e), Base(s));
  }

  /** [4]([r]B) + [4k]([n]B) = [4*(r + k*n)]B. */
  lemma FourFoldSum(c: Curve, r: nat, n: nat, k: nat, e: nat, b: Affine)
    requires Complete(c) && OnCurve(c, b) && e == r + Product(k, n)
    ensures Times(c, 4 * e, b) == Add(c, Times(c, 4, Times(c, r, b)), Times(c, 4 * k, Times(c, n, b)))
  {
    hide Reduce, IsPrime, IsSquare, OnCurve, Times, Add;
    TimesFour(c, r, b);
    TimesTimes(c, 4 * k, n, b);
    FourTimes(r, k, n);
    TimesAdd(c, 4 * r, Product(n, 4 * k), b);
  }

  lemma FourTimes(r: int, k: int, n: int)
    ensures 4 * r + Product(n, 4 * k) == 4 * (r + Product(k, n))
  {
    ProductIsMul(n, 4 * k);
    ProductIsMul(k, n);
  }

  /** Signatures produced by the written rule are accepted under the derived public key. */
  lemma SignatureVerifies(s: Suite, h: Hash, seed: seq<byte>, message: seq<byte>)
    requires Sound(s)
    ensures Verify(s, h, DerivedSecret(s, h, seed).publicKey, message, SignatureBytes(s, h, seed, message))
  {
    hide Reduce, IsPrime, IsSquare, IsValid, ToAffine, CurveEquation, FitsIn, Times, InSubgroup, EncodeAffine, Verify,
      CofactoredEquation, NonceScalar, SecretInteger, LeInt;
    var a, r := PublicPoint(s, h, seed), CommitmentPoint(s, h, seed, message);
    PublicPointValid(s, h, seed);
    CommitmentOnCurve(s, h, seed, message);
    var k := LeInt(h(EncodeAffine(r) + EncodeAffine(a) + message));
    ProductNonnegative(k, SecretInteger(h, seed));
    EquationHolds(s, NonceScalar(s, h, seed, message), SecretInteger(h, seed), k,
      NonceScalar(s, h, seed, message) + Product(k, SecretInteger(h, seed)));
    VerifyParts(s, h, message, a, r, ResponseScalar(s, h, seed, message));
  }

  /** The response computed from reduced scalars is the response of the written rule. */
  lemma ResponseAgrees(order: nat, r: nat, k: nat, n: nat)
    requires order > 0
    ensures Scalar.Add(order, r, Scalar.Mul(order, Reduce(order, k), Reduce(order, n)))
      == Reduce(order, r + Product(k, n))
  {
    hide Cong, Reduce, Product;
    Products();
    var k', n' := Reduce(order, k), Reduce(order, n);
    CongReduce(order, k);
    CongReduce(order, n);
    CongMul(order, k', k, n', n);
    CongReduce(order, k' * n');
    CongTrans(order, Scalar.Mul(order, k', n'), k' * n', k * n);
    CongRefl(order, r);
    CongAdd(order, r, r, Scalar.Mul(order, k', n'), k * n);
    ReduceIffCong(order, r + Scalar.Mul(order, k', n'), r + k * n);
  }

  /** The point computed from the nonce passes the first self-check and encodes. */
  lemma CommitmentChecks(s: Suite, h: Hash, seed: seq<byte>, message: seq<byte>)
    requires Sound(s)
    ensures var r := CommitmentPoint(s, h, seed, message);
      var e := ScalarMulScalar(s.curve, s.base, NonceScalar(s, h, seed, message));
      && Elements(s.curve, e)
      && IsPrimeSubgroup(s.curve, s.orderBytes, e)
      && OnCurve(s.curve, r)
      && Encode(s.curve, e) == Ok(EncodeAffine(r))
  {
    hide Reduce, IsPrime, IsSquare, IsValid, ToAffine, CurveEquation, FitsIn, Times, Denotes, EncodeAffine,
      ScalarMulScalar, IsPrimeSubgroup, InSubgroup, Encode, NonceScalar;
    var r := CommitmentPoint(s, h, seed, message);
    var e := ScalarMulScalar(s.curve, s.base, NonceScalar(s, h, seed, message));
    NonceBound(s, h, seed, message);
    BaseFacts(s);
    ScalarsFit(s);
    CommitmentOnCurve(s, h, seed, message);
    ScalarMulDenotes(s.curve, s.base, Base(s), NonceScalar(s, h, seed, message));
    SubgroupDecides(s.curve, s.orderBytes, e, r);
    DenotesElements(s.curve, e, r);
    DenotesValid(s.curve, e, r);
    EncodeOfValid(s.curve, e);
  }

  lemma NonceBound(s: Suite, h: Hash, seed: seq<byte>, message: seq<byte>)
    requires s.order > 0
    ensures NonceScalar(s, h, seed, message) < s.order
  {
  }

  /** The assembled bytes parse, and pass the second subgroup check and the final verification. */
  lemma SerializedChecks(s: Suite, h: Hash, seed: seq<byte>, message: seq<byte>)
    requires Sound(s)
    ensures var signature := SignatureFromBytes(s, SignatureBytes(s, h, seed, message));
      var key := VerifyingKeyFromBytes(s, DerivedSecret(s, h, seed).publicKey);
      && signature.Ok? && key.Ok?
      && signature.value.encoded == SignatureBytes(s, h, seed, message)
      && IsPrimeSubgroup(s.curve, s.orderBytes, signature.value.commitment)
      && VerifyParsed(s, h, key.value, message, signature.value)
  {
    hide Reduce, IsPrime, IsSquare, IsValid, ToAffine, CurveEquation, FitsIn, Times, Denotes, EncodeAffine,
      IsPrimeSubgroup, InSubgroup, ResponseScalar, VerifyParsed, VerifyingKeyFromBytes, SignatureFromBytes;
    var r := CommitmentPoint(s, h, seed, message);
    CommitmentOnCurve(s, h, seed, message);
    SignatureOfParts(s, r, ResponseScalar(s, h, seed, message));
    SignatureVerifies(s, h, seed, message);
    FromAffineDenotes(s.curve, r.x, r.y);
    ScalarsFit(s);
    SubgroupDecides(s.curve, s.orderBytes, FromAffine(s.curve, r.x, r.y), r);
  }

  /** The bytes assembled from reduced scalars are those of the written rule. */
  lemma AssembledBytes(s: Suite, h: Hash, seed: seq<byte>, message: seq<byte>)
    requires Sound(s)
    ensures OnCurve(s.curve, CommitmentPoint(s, h, seed, message))
    ensures NonceScalar(s, h, seed, message) == Reduce(s.order, LeInt(h(DerivedSecret(s, h, seed).prefix + message)))
    ensures var commitment := EncodeAffine(CommitmentPoint(s, h, seed, message));
      var expanded := DerivedSecret(s, h, seed);
      var challenge := Reduce(s.order, LeInt(h(commitment + expanded.publicKey + message)));
      var response := Scalar.Add(s.order, NonceScalar(s, h, seed, message),
                                 Scalar.Mul(s.order, challenge, expanded.reducedScalar));
      SignatureBytes(s, h, seed, message) == commitment + LeBytes(response, Scalar.SCALAR_BYTES)
  {
    hide Reduce, IsPrime, IsSquare, CurveEquation, FitsIn, Times, Denotes, LeInt, LeBytes, EncodeAffine,
      InSubgroup, SecretInteger, Scalar.Add, Scalar.Mul;
    CommitmentOnCurve(s, h, seed, message);
    PublicPointValid(s, h, seed);
    ResponseAgrees(s.order, NonceScalar(s, h, seed, message),
      LeInt(h(EncodeAffine(CommitmentPoint(s, h, seed, message)) + EncodeAffine(PublicPoint(s, h, seed)) + message)),
      SecretInteger(h, seed));
  }

  /** The buffer of the code: the commitment bytes followed by the serialised response. */
  method FillSignature(commitment: seq<byte>, response: nat) returns (bytes: seq<byte>)
    requires |commitment| == F.FIELD_BYTES
    ensures bytes == commitment + LeBytes(response, Scalar.SCALAR_BYTES)
  {
    var encoded := new byte[SIGNATURE_BYTES](_ => 0);
    forall i | 0 <= i < F.FIELD_BYTES {
      encoded[i] := commitment[i];
    }
    var responseBytes := new byte[F.FIELD_BYTES](_ => 0);
    Scalar.WriteCanonicalBytes(response, responseBytes);
    forall i | 0 <= i < F.FIELD_BYTES {
      encoded[F.FIELD_BYTES + i] := responseBytes[i];
    }
    assert encoded[..] == commitment + responseBytes[..];
    return encoded[..];
  }

  /** Signs with self-checks on the way. No internal failure is reachable. */
  method SignExpanded(s: Suite, h: Hash, expanded: ExpandedSecret, message: seq<byte>, ghost seed: seq<byte>)
    returns (r: Result<ParsedSignature, SignatureError>)
    requires Sound(s) && expanded == DerivedSecret(s, h, seed)
    ensures r == SignatureFromBytes(s, SignatureBytes(s, h, seed, message))
    ensures r.Ok? && r.value.encoded == SignatureBytes(s, h, seed, message)
    ensures var nonce := LeInt(h(expanded.prefix + message));
      var commitment := EncodeAffine(Times(s.curve, nonce, Base(s)));
      var challenge := LeInt(h(commitment + expanded.publicKey + message));
      r.value.encoded == commitment + LeBytes(Reduce(s.order, nonce + Product(challenge, expanded.reducedScalar)), 38)
    ensures forall key :: VerifyingKeyFromBytes(s, expanded.publicKey) == Ok(key) ==>
      VerifyParsed(s, h, key, message, r.value)
  {
    hide Reduce, IsPrime, IsSquare, IsValid, ToAffine, OnCurve, HasBitLength, Times, Denotes, LeInt, LeBytes,
      EncodeAffine, Ladder, TopBits, IsPrimeSubgroup, IsPublicPoint, SignatureFromBytes, VerifyingKeyFromBytes,
      VerifyParsed, Encode, SecretInteger, Scalar.Add, Scalar.Mul, SignatureBytes, Elements, DerivedSecret, NonceScalar,
      CommitmentPoint, Product;
    CommitmentChecks(s, h, seed, message);
    SerializedChecks(s, h, seed, message);
    AssembledBytes(s, h, seed, message);
    ExpandedRule(s, h, seed, message);

    var nonce := Scalar.ReduceHashLe(s.order, NonceHash(h, expanded.prefix, message));
    var commitmentPoint := ScalarMulWith(s.curve, s.base, ScalarBits(nonce));
    if !IsPrimeSubgroup(s.curve, s.orderBytes, commitmentPoint) {
      return Err(InternalFailure);
    }
    var commitment := EncodeInner(s.curve, commitmentPoint);
    if commitment.Err? {
      return Err(InternalFailure);
    }

    var challenge := Scalar.ReduceHashLe(s.order, ChallengeHash(h, commitment.value, expanded.publicKey, message));
    var secretResponseTerm := Scalar.Mul(s.order, challenge, expanded.reducedScalar);
    var response := Scalar.Add(s.order, nonce, secretResponseTerm);
    var encoded := FillSignature(commitment.value, response);

    var signature := SignatureFromBytes(s, encoded);
    if signature.Err? {
      return Err(InternalFailure);
    }
    if !IsPrimeSubgroup(s.curve, s.orderBytes, signature.value.commitment) {
      return Err(InternalFailure);
    }
    var verifyingKey := VerifyingKeyFromBytes(s, expanded.publicKey);
    if verifyingKey.Err? {
      return Err(InternalFailure);
    }
    if !VerifyParsed(s, h, verifyingKey.value, message, signature.value) {
      return Err(InternalFailure);
    }
    return signature;
  }

  lemma EncodeOfValid(c: Curve, e: ExtPoint)
    requires c.p > 0 && IsValid(c, e)
    ensures Encode(c, e) == Ok(EncodeAffine(ToAffine(c, e)))
  {
  }

  // ----- The public functions

  /** Derives the public verification key of a seed: the point [n]B, with n read off the hash of the seed. */
  method VerifyingKeyOfSeed(s: Suite, h: Hash, seed: seq<byte>) returns (r: Result<VerifyingKey, SignatureError>)
    requires Sound(s)
    ensures |seed| != 38 ==> r == Err(InvalidSeedLength)
    ensures |seed| == 38 ==>
      var n := Exp2(300) + 4 * ((LeInt(h(seed)[..38]) / 4) % Exp2(298));
      var a := Times(s.curve, n, Base(s));
      && OnCurve(s.curve, a) && a != Neutral && Times(s.curve, s.order, a) == Neutral
      && r == Ok(VerifyingKey(EncodeAffine(a), FromAffine(s.curve, a.x, a.y)))
      && Denotes(s.curve, r.value.point, a)
      && r == VerifyingKeyFromBytes(s, r.value.encoded)
  {
    if |seed| != SEED_BYTES {
      return Err(InvalidSeedLength);
    }
    hide DerivedSecret, VerifyingKeyFromBytes, Sound, Times, Exp2, LeInt, EncodeAffine;
    var derived := Derive(s, h, seed);
    DerivedKeyParses(s, h, seed);
    match derived
    case Err(e) => return Err(e);
    case Ok(expanded) =>
      var key := VerifyingKeyFromBytes(s, expanded.publicKey);
      if key.Err? {
        return Err(InternalFailure);
      }
      return key;
  }

  /** The derived public key parses, to the point [n]B. */
  lemma DerivedKeyParses(s: Suite, h: Hash, seed: seq<byte>)
    requires Sound(s)
    ensures var n := Exp2(300) + 4 * ((LeInt(h(seed)[..38]) / 4) % Exp2(298));
      var a := Times(s.curve, n, Base(s));
      && OnCurve(s.curve, a) && a != Neutral && Times(s.curve, s.order, a) == Neutral
      && VerifyingKeyFromBytes(s, EncodeAffine(a)) == Ok(VerifyingKey(EncodeAffine(a), FromAffine(s.curve, a.x, a.y)))
      && Denotes(s.curve, FromAffine(s.curve, a.x, a.y), a)
  {
    hide Reduce, IsPrime, IsSquare, IsValid, ToAffine, CurveEquation, FitsIn, Times, Denotes, LeInt, EncodeAffine, Exp2,
      VerifyingKeyFromBytes, Pruned;
    PrunedInteger(h(seed)[..F.FIELD_BYTES]);
    PublicPointValid(s, h, seed);
    var a := PublicPoint(s, h, seed);
    KeyParsing(s, EncodeAffine(a));
    FromAffineDenotes(s.curve, a.x, a.y);
  }

  /** Signing with a key of the right length. The key of the same seed accepts the result. */
  method SignWithKey(s: Suite, h: Hash, seed: seq<byte>, message: seq<byte>)
    returns (r: Result<ParsedSignature, SignatureError>)
    requires Sound(s) && |seed| == SEED_BYTES
    ensures r.Ok? && r == SignatureFromBytes(s, r.value.encoded)
    ensures r.value.encoded == SignatureBytes(s, h, seed, message)
    ensures var n := Exp2(300) + 4 * ((LeInt(h(seed)[..38]) / 4) % Exp2(298));
      forall key :: VerifyingKeyFromBytes(s, EncodeAffine(Times(s.curve, n, Base(s)))) == Ok(key) ==>
        VerifyParsed(s, h, key, message, r.value)
  {
    hide DerivedSecret, SignatureBytes, SignatureFromBytes, VerifyingKeyFromBytes, VerifyParsed, Sound, Times, Exp2,
      LeInt, LeBytes, EncodeAffine, Reduce, Product;
    var derived := Derive(s, h, seed);
    match derived
    case Err(e) => return Err(e);
    case Ok(expanded) =>
      var signed := SignExpanded(s, h, expanded, message, seed);
      return signed;
  }

  /**
   Signing is total and correct: only the seed length can fail, the bytes are those of the written rule over the hash,
   and verify accepts them.
  */
  method Sign(s: Suite, h: Hash, seed: seq<byte>, message: seq<byte>) returns (r: Result<seq<byte>, SignatureError>)
    requires Sound(s)
    ensures |seed| != 38 ==> r == Err(InvalidSeedLength)
    ensures |seed| == 38 ==>
      var n := Exp2(300) + 4 * ((LeInt(h(seed)[..38]) / 4) % Exp2(298));
      var publicKey := EncodeAffine(Times(s.curve, n, Base(s)));
      var nonce := LeInt(h(h(seed)[38..] + message));
      var commitment := EncodeAffine(Times(s.curve, nonce, Base(s)));
      var challenge := LeInt(h(commitment + publicKey + message));
      && r == Ok(commitment + LeBytes(Reduce(s.order, nonce + Product(challenge, n)), 38))
      && Verify(s, h, publicKey, message, r.value)
  {
    if |seed| != SEED_BYTES {
      return Err(InvalidSeedLength);
    }
    hide DerivedSecret, SignatureBytes, Verify, SignatureFromBytes, VerifyingKeyFromBytes, VerifyParsed, Sound, Times,
      Exp2, LeInt, LeBytes, EncodeAffine, Reduce, Product;
    SignatureVerifies(s, h, seed, message);
    WrittenRule(s, h, seed, message);
    var signed := SignWithKey(s, h, seed, message);
    match signed
    case Err(e) => return Err(e);
    case Ok(signature) => return Ok(signature.encoded);
  }
}
