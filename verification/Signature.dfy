/** Key derivation, signing and verification (signature.rs) over an arbitrary 76-byte hash. */
module Signature {
  import opened Bytes
  import opened Modular
  import opened Wrappers
  import opened EdwardsCurve
  import opened EdwardsGroup
  import opened Multiples
  import opened Edwards
  import opened ScalarMul
  import opened PointCodec
  import Scalar
  import F = Field

  const SEED_BYTES: nat := 38
  const PUBLIC_KEY_BYTES: nat := 38
  const SIGNATURE_BYTES: nat := 76

  type Digest = d: seq<byte> | |d| == Scalar.HASH_BYTES witness Zeros(Scalar.HASH_BYTES)

  /** The 76-byte SHAKE256 output, as an arbitrary total function of the concatenated input parts. */
  type Hash = seq<byte> -> Digest

  datatype SignatureError = InvalidSeedLength | InvalidPublicKey | InvalidSignature | InternalFailure

  /** Curve, square-root exponent, subgroup order with its byte form, and base point. */
  datatype Suite = Suite(curve: Curve, sqrtExponent: nat, order: nat, orderBytes: seq<byte>, base: ExtPoint)

  /** What the scheme needs of its parameters. */
  ghost predicate Sound(s: Suite) {
    && CodecParameters(s.curve, s.sqrtExponent)
    && IsPrime(s.order)
    && s.order % 2 == 1
    && HasBitLength(s.order, 300)
    && |s.orderBytes| == F.FIELD_BYTES
    && LeInt(s.orderBytes) == s.order
    && Denotes(s.curve, s.base, Base(s))
    && IsPublicPoint(s, Base(s))
  }

  /** The base point has Z = 1. */
  function Base(s: Suite): Affine {
    Affine(s.base.x, s.base.y)
  }

  /** A full public key: a nonneutral curve point of the prime subgroup. */
  ghost predicate IsPublicPoint(s: Suite, key: Affine)
    requires s.curve.p > 0
  {
    OnCurve(s.curve, key) && key != Neutral && InSubgroup(s.curve, s.order, key)
  }

  // ----- Transcripts

  function ExpandSeed(h: Hash, seed: seq<byte>): Digest {
    h(seed)
  }

  function NonceHash(h: Hash, prefix: seq<byte>, message: seq<byte>): Digest {
    h(prefix + message)
  }

  function ChallengeHash(h: Hash, commitment: seq<byte>, publicKey: seq<byte>, message: seq<byte>): Digest {
    h(commitment + publicKey + message)
  }

  function HashToScalar(s: Suite, digest: Digest): nat
    requires s.order > 0
  {
    Reduce(s.order, LeInt(digest))
  }

  // ----- Verification

  datatype VerifyingKey = VerifyingKey(encoded: seq<byte>, point: ExtPoint)

  datatype ParsedSignature = ParsedSignature(encoded: seq<byte>, commitmentEncoding: seq<byte>,
                                             commitment: ExtPoint, response: nat)

  function VerifyingKeyFromBytes(s: Suite, bytes: seq<byte>): Result<VerifyingKey, SignatureError>
    requires s.curve.p > 0
  {
    if |bytes| != PUBLIC_KEY_BYTES then Err(InvalidPublicKey)
    else
      match DecodeStrictSubgroup(s.curve, s.sqrtExponent, s.orderBytes, bytes)
      case Err(_) => Err(InvalidPublicKey)
      case Ok(point) => Ok(VerifyingKey(bytes, point))
  }

  function SignatureFromBytes(s: Suite, bytes: seq<byte>): Result<ParsedSignature, SignatureError>
    requires s.curve.p > 0
  {
    if |bytes| != SIGNATURE_BYTES then Err(InvalidSignature)
    else
      var commitmentEncoding, responseEncoding := bytes[..F.FIELD_BYTES], bytes[F.FIELD_BYTES..];
      match Decode(s.curve, s.sqrtExponent, commitmentEncoding)
      case Err(_) => Err(InvalidSignature)
      case Ok(commitment) =>
        match Scalar.FromCanonicalBytes(s.order, responseEncoding)
        case None => Err(InvalidSignature)
        case Some(response) => Ok(ParsedSignature(bytes, commitmentEncoding, commitment, response))
  }

  predicate VerifyParsed(s: Suite, h: Hash, key: VerifyingKey, message: seq<byte>, signature: ParsedSignature)
    requires s.curve.p > 0 && s.order > 0
  {
    var c := s.curve;
    var digest := ChallengeHash(h, signature.commitmentEncoding, key.encoded, message);
    var challenge := HashToScalar(s, digest);
    var left := MultiplyByCofactor(c, ScalarMulScalar(c, s.base, signature.response));
    var right := MultiplyByCofactor(c, AddPoints(c, signature.commitment, ScalarMulScalar(c, key.point, challenge)));
    CtEq(c, left, right)
  }

  predicate Verify(s: Suite, h: Hash, publicKey: seq<byte>, message: seq<byte>, signature: seq<byte>)
    requires s.curve.p > 0 && s.order > 0
  {
    match VerifyingKeyFromBytes(s, publicKey)
    case Err(_) => false
    case Ok(key) =>
      match SignatureFromBytes(s, signature)
      case Err(_) => false
      case Ok(parsed) => VerifyParsed(s, h, key, message, parsed)
  }

  predicate ValidatePublicKey(s: Suite, publicKey: seq<byte>)
    requires s.curve.p > 0
  {
    VerifyingKeyFromBytes(s, publicKey).Ok?
  }

  // ----- What verification decides

  /** [4S]B = [4]R + [4k]A. */
  ghost predicate CofactoredEquation(s: Suite, commitment: Affine, key: Affine, response: nat, challenge: nat)
    requires s.curve.p > 0
  {
    Times(s.curve, 4 * response, Base(s)) ==
      Add(s.curve, Times(s.curve, 4, commitment), Times(s.curve, 4 * challenge, key))
  }

  lemma BaseFacts(s: Suite)
    requires Sound(s)
    ensures OnCurve(s.curve, Base(s)) && Denotes(s.curve, s.base, Base(s))
    ensures IsPublicPoint(s, Base(s))
  {
  }

  lemma ScalarsFit(s: Suite)
    requires Sound(s)
    ensures FitsIn(s.order, FIELD_BITS) && FitsIn(s.order, 8 * Scalar.SCALAR_BYTES)
    ensures forall n: nat :: n < s.order ==> FitsIn(n, FIELD_BITS)
  {
    hide IsPrime, FitsIn;
    FitsInMonotone(s.order, s.order, 300, FIELD_BITS);
    FitsInMonotone(s.order, s.order, 300, 8 * Scalar.SCALAR_BYTES);
    forall n: nat | n < s.order ensures FitsIn(n, FIELD_BITS) {
      FitsInMonotone(n, s.order, 300, FIELD_BITS);
    }
  }

  /** Key parsing accepts exactly the encodings of public points, and fails in one way. */
  lemma KeyParsing(s: Suite, bytes: seq<byte>)
    requires Sound(s)
    ensures ValidatePublicKey(s, bytes) <==> exists key :: IsPublicPoint(s, key) && EncodeAffine(key) == bytes
    ensures forall key :: IsPublicPoint(s, key) && EncodeAffine(key) == bytes ==>
      VerifyingKeyFromBytes(s, bytes) == Ok(VerifyingKey(bytes, FromAffine(s.curve, key.x, key.y)))
    ensures !(exists key :: IsPublicPoint(s, key) && EncodeAffine(key) == bytes) ==>
      VerifyingKeyFromBytes(s, bytes) == Err(InvalidPublicKey)
  {
    hide Reduce, IsPrime, IsSquare, IsValid, ToAffine, InSubgroup, CurveEquation, FitsIn, Decode, EncodeAffine,
      IsPrimeSubgroupNonidentity, Denotes;
    ScalarsFit(s);
    if |bytes| == PUBLIC_KEY_BYTES && Decode(s.curve, s.sqrtExponent, bytes).Ok? {
      var e := Decode(s.curve, s.sqrtExponent, bytes).value;
      EncodeOfDecode(s.curve, s.sqrtExponent, bytes);
      SubgroupDecides(s.curve, s.orderBytes, e, ToAffine(s.curve, e));
    }
    forall key | IsPublicPoint(s, key) && EncodeAffine(key) == bytes
      ensures VerifyingKeyFromBytes(s, bytes) == Ok(VerifyingKey(bytes, FromAffine(s.curve, key.x, key.y)))
    {
      DecodeOfEncode(s.curve, s.sqrtExponent, key);
      FromAffineDenotes(s.curve, key.x, key.y);
      SubgroupDecides(s.curve, s.orderBytes, FromAffine(s.curve, key.x, key.y), key);
    }
  }

  /** Signature parsing accepts exactly the strings made of an encoded curve point and a scalar below the order. */
  lemma SignatureParsing(s: Suite, bytes: seq<byte>)
    requires Sound(s)
    ensures SignatureFromBytes(s, bytes).Ok? ==>
      var parsed := SignatureFromBytes(s, bytes).value; var r := ToAffine(s.curve, parsed.commitment);
      && OnCurve(s.curve, r) && Denotes(s.curve, parsed.commitment, r) && parsed.response < s.order
      && parsed.commitmentEncoding == EncodeAffine(r)
      && bytes == EncodeAffine(r) + LeBytes(parsed.response, Scalar.SCALAR_BYTES)
  {
    hide Reduce, IsPrime, IsSquare, IsValid, ToAffine, InSubgroup, CurveEquation, FitsIn, Decode, EncodeAffine, Denotes,
      Scalar.FromCanonicalBytes;
    if SignatureFromBytes(s, bytes).Ok? {
      var commitmentEncoding, responseEncoding := bytes[..F.FIELD_BYTES], bytes[F.FIELD_BYTES..];
      EncodeOfDecode(s.curve, s.sqrtExponent, commitmentEncoding);
      Scalar.ParseThenWrite(s.order, responseEncoding);
      assert bytes == commitmentEncoding + responseEncoding;
    }
  }

  lemma SignatureOfParts(s: Suite, r: Affine, response: nat)
    requires Sound(s) && OnCurve(s.curve, r) && response < s.order
    ensures var bytes := EncodeAffine(r) + LeBytes(response, Scalar.SCALAR_BYTES);
      SignatureFromBytes(s, bytes) ==
        Ok(ParsedSignature(bytes, EncodeAffine(r), FromAffine(s.curve, r.x, r.y), response))
  {
    hide Reduce, IsPrime, IsSquare, IsValid, ToAffine, InSubgroup, CurveEquation, FitsIn, Decode, EncodeAffine, Denotes,
      Scalar.FromCanonicalBytes;
    var first, second := EncodeAffine(r), LeBytes(response, Scalar.SCALAR_BYTES);
    ScalarsFit(s);
    DecodeOfEncode(s.curve, s.sqrtExponent, r);
    Scalar.WriteThenParse(s.order, response);
    assert (first + second)[..F.FIELD_BYTES] == first && (first + second)[F.FIELD_BYTES..] == second;
  }

  /** Every other string is rejected, in one way. */
  lemma SignatureRejection(s: Suite, bytes: seq<byte>)
    requires Sound(s)
    requires forall r, response: nat :: OnCurve(s.curve, r) && response < s.order ==>
      bytes != EncodeAffine(r) + LeBytes(response, Scalar.SCALAR_BYTES)
    ensures SignatureFromBytes(s, bytes) == Err(InvalidSignature)
  {
    hide Reduce, IsPrime, IsSquare, IsValid, ToAffine, InSubgroup, CurveEquation, FitsIn, Decode, EncodeAffine, Denotes,
      Scalar.FromCanonicalBytes, LeBytes;
    SignatureParsing(s, bytes);
  }

  /** The equation has the same truth value for the challenge and for the challenge reduced modulo the order. */
  lemma ChallengeReduced(s: Suite, r: Affine, key: Affine, response: nat, challenge: nat)
    requires Sound(s) && OnCurve(s.curve, r) && IsPublicPoint(s, key)
    ensures CofactoredEquation(s, r, key, response, challenge)
      <==> CofactoredEquation(s, r, key, response, Reduce(s.order, challenge))
  {
    hide Reduce, IsPrime, IsSquare, IsValid, ToAffine, OnCurve, FitsIn, Times, Add;
    TimesReduced(s.curve, s.order, challenge, key);
    TimesFour(s.curve, challenge, key);
    TimesFour(s.curve, Reduce(s.order, challenge), key);
  }

  /** verify decides the cofactored equation on the points its arguments denote. */
  lemma VerifyParsedDecides(s: Suite, h: Hash, key: VerifyingKey, message: seq<byte>, signature: ParsedSignature,
                            a: Affine, r: Affine)
    requires Sound(s) && IsPublicPoint(s, a) && OnCurve(s.curve, r)
    requires Denotes(s.curve, key.point, a) && Denotes(s.curve, signature.commitment, r) && signature.response < s.order
    ensures VerifyParsed(s, h, key, message, signature) <==>
      CofactoredEquation(s, r, a, signature.response,
        LeInt(h(signature.commitmentEncoding + key.encoded + message)))
  {
    hide Reduce, IsPrime, IsSquare, IsValid, ToAffine, OnCurve, FitsIn, Denotes, CtEq, AddPoints, MultiplyByCofactor,
      ScalarMulScalar, Times, Add;
    var c, b := s.curve, Base(s);
    var k := HashToScalar(s, ChallengeHash(h, signature.commitmentEncoding, key.encoded, message));
    BaseFacts(s);
    ScalarsFit(s);
    ScalarMulDenotes(c, s.base, b, signature.response);
    TimesOnCurve(c, signature.response, b);
    CofactorDenotes(c, ScalarMulScalar(c, s.base, signature.response), Times(c, signature.response, b));
    TimesFour(c, signature.response, b);
    TimesOnCurve(c, 4 * signature.response, b);

    ScalarMulDenotes(c, key.point, a, k);
    TimesOnCurve(c, k, a);
    AddRefines(c, signature.commitment, ScalarMulScalar(c, key.point, k), r, Times(c, k, a));
    Closure(c, r, Times(c, k, a));
    CofactorDenotes(c, AddPoints(c, signature.commitment, ScalarMulScalar(c, key.point, k)), Add(c, r, Times(c, k, a)));
    TimesSum(c, 4, r, Times(c, k, a));
    TimesFour(c, k, a);
    TimesOnCurve(c, 4, Add(c, r, Times(c, k, a)));

    var left := MultiplyByCofactor(c, ScalarMulScalar(c, s.base, signature.response));
    var right := MultiplyByCofactor(c, AddPoints(c, signature.commitment, ScalarMulScalar(c, key.point, k)));
    DenotesWithoutT(c, left, Times(c, 4 * signature.response, b));
    DenotesWithoutT(c, right, Times(c, 4, Add(c, r, Times(c, k, a))));
    CtEqDecides(c, left, right, Times(c, 4 * signature.response, b), Times(c, 4, Add(c, r, Times(c, k, a))));
    ChallengeReduced(s, r, a, signature.response, LeInt(h(signature.commitmentEncoding + key.encoded + message)));
  }

  /** Verification from bytes to verdict: the accepted triples are exactly those that satisfy the written rule. */
  lemma VerifyAccepts(s: Suite, h: Hash, publicKey: seq<byte>, message: seq<byte>, signature: seq<byte>)
    requires Sound(s)
    ensures Verify(s, h, publicKey, message, signature) <==>
      exists a: Affine, r: Affine, response: nat ::
        && OnCurve(s.curve, a) && a != Neutral && Times(s.curve, s.order, a) == Neutral
        && OnCurve(s.curve, r) && response < s.order
        && publicKey == EncodeAffine(a) && signature == EncodeAffine(r) + LeBytes(response, Scalar.SCALAR_BYTES)
        && Times(s.curve, 4 * response, Base(s)) ==
             Add(s.curve, Times(s.curve, 4, r), Times(s.curve, 4 * LeInt(h(EncodeAffine(r) + publicKey + message)), a))
  {
    hide Reduce, IsPrime, IsSquare, IsValid, ToAffine, CurveEquation, HasBitLength, Denotes, EncodeAffine, LeInt,
      VerifyParsed, Times, Add, VerifyingKeyFromBytes, SignatureFromBytes, LeBytes, Verify;
    if Verify(s, h, publicKey, message, signature) {
      var a, r, response := AcceptedParts(s, h, publicKey, message, signature);
    }
    if a: Affine, r: Affine, response: nat :|
        && OnCurve(s.curve, a) && a != Neutral && Times(s.curve, s.order, a) == Neutral
        && OnCurve(s.curve, r) && response < s.order
        && publicKey == EncodeAffine(a) && signature == EncodeAffine(r) + LeBytes(response, Scalar.SCALAR_BYTES)
        && Times(s.curve, 4 * response, Base(s)) ==
             Add(s.curve, Times(s.curve, 4, r), Times(s.curve, 4 * LeInt(h(EncodeAffine(r) + publicKey + message)), a))
    {
      VerifyParts(s, h, message, a, r, response);
    }
  }

  /** Verification of assembled bytes decides the cofactored equation on the parts. */
  lemma VerifyParts(s: Suite, h: Hash, message: seq<byte>, a: Affine, r: Affine, response: nat)
    requires Sound(s) && IsPublicPoint(s, a) && OnCurve(s.curve, r) && response < s.order
    ensures var signature := EncodeAffine(r) + LeBytes(response, Scalar.SCALAR_BYTES);
      Verify(s, h, EncodeAffine(a), message, signature) <==>
        CofactoredEquation(s, r, a, response, LeInt(h(EncodeAffine(r) + EncodeAffine(a) + message)))
  {
    hide Reduce, IsPrime, IsSquare, IsValid, ToAffine, CurveEquation, InSubgroup, FitsIn, Denotes, EncodeAffine,
      VerifyParsed, VerifyingKeyFromBytes, SignatureFromBytes, CofactoredEquation, LeBytes, FromAffine;
    KeyParsing(s, EncodeAffine(a));
    SignatureOfParts(s, r, response);
    FromAffineDenotes(s.curve, a.x, a.y);
    FromAffineDenotes(s.curve, r.x, r.y);
    var key := VerifyingKey(EncodeAffine(a), FromAffine(s.curve, a.x, a.y));
    var parsed := ParsedSignature(EncodeAffine(r) + LeBytes(response, Scalar.SCALAR_BYTES), EncodeAffine(r),
      FromAffine(s.curve, r.x, r.y), response);
    VerifyParsedDecides(s, h, key, message, parsed, a, r);
  }

  lemma AcceptedParts(s: Suite, h: Hash, publicKey: seq<byte>, message: seq<byte>, signature: seq<byte>)
    returns (a: Affine, r: Affine, response: nat)
    requires Sound(s) && Verify(s, h, publicKey, message, signature)
    ensures IsPublicPoint(s, a) && publicKey == EncodeAffine(a)
    ensures OnCurve(s.curve, r) && response < s.order
    ensures signature == EncodeAffine(r) + LeBytes(response, Scalar.SCALAR_BYTES)
    ensures CofactoredEquation(s, r, a, response, LeInt(h(EncodeAffine(r) + publicKey + message)))
  {
    hide Reduce, IsPrime, IsSquare, IsValid, ToAffine, CurveEquation, InSubgroup, FitsIn, Denotes, EncodeAffine,
      VerifyParsed, VerifyingKeyFromBytes, SignatureFromBytes, CofactoredEquation, LeBytes;
    KeyParsing(s, publicKey);
    SignatureParsing(s, signature);
    a :| IsPublicPoint(s, a) && EncodeAffine(a) == publicKey;
    var parsed := SignatureFromBytes(s, signature).value;
    r, response := ToAffine(s.curve, parsed.commitment), parsed.response;
    VerifyParts(s, h, message, a, r, response);
  }

  // ----- Consequences of the cofactored equation

  /** For a fixed challenge the verdict is unchanged when R moves by a point T with [4]T = O. */
  lemma TorsionInvariance(s: Suite, r: Affine, t: Affine, key: Affine, response: nat, challenge: nat)
    requires Sound(s) && OnCurve(s.curve, r) && OnCurve(s.curve, t) && Times(s.curve, 4, t) == Neutral
    ensures CofactoredEquation(s, Add(s.curve, r, t), key, response, challenge)
      <==> CofactoredEquation(s, r, key, response, challenge)
  {
    hide Reduce, IsPrime, IsSquare, IsValid, ToAffine, OnCurve, FitsIn, Times, Add;
    TimesSum(s.curve, 4, r, t);
    TimesOnCurve(s.curve, 4, r);
    NeutralRight(s.curve, Times(s.curve, 4, r));
  }

  /** The point [S]B - [k]A, around which the accepted commitments lie. */
  ghost function Center(s: Suite, key: Affine, response: nat, challenge: nat): Affine
    requires s.curve.p > 0
  {
    Add(s.curve, Times(s.curve, response, Base(s)), Negate(s.curve, Times(s.curve, challenge, key)))
  }

  /** The commitments that satisfy the equation for given S, k and A are [S]B - [k]A moved by a point on an axis. */
  lemma AcceptedCommitments(s: Suite, r: Affine, key: Affine, response: nat, challenge: nat)
    requires Sound(s) && OnCurve(s.curve, r) && IsPublicPoint(s, key)
    ensures CofactoredEquation(s, r, key, response, challenge)
      <==> exists t ::
        OnCurve(s.curve, t) && (t.x == 0 || t.y == 0) && r == Add(s.curve, Center(s, key, response, challenge), t)
  {
    hide Reduce, IsPrime, IsSquare, IsValid, ToAffine, OnCurve, FitsIn, Times, Add, Negate, InSubgroup;
    var c, b, center := s.curve, Base(s), Center(s, key, response, challenge);
    var sb, ka := Times(c, response, b), Times(c, challenge, key);
    BaseFacts(s);
    TimesOnCurve(c, response, b);
    TimesOnCurve(c, challenge, key);
    CenterPlus(c, sb, ka);
    // t = r - center
    NegateOnCurve(c, center);
    var t := Add(c, Negate(c, center), r);
    Closure(c, Negate(c, center), r);
    SubtractAdd(c, Negate(c, center), r);
    NegateNegate(c, center);
    TimesFour(c, response, b);
    TimesFour(c, challenge, key);
    if CofactoredEquation(s, r, key, response, challenge) {
      EquationAround(c, sb, ka, center, t);
      FourTorsion(c, t);
    }
    forall t | OnCurve(c, t) && (t.x == 0 || t.y == 0) && r == Add(c, center, t)
      ensures CofactoredEquation(s, r, key, response, challenge)
    {
      EquationAround(c, sb, ka, center, t);
      FourTorsion(c, t);
    }
  }

  lemma FourInvertible(order: nat)
    requires IsPrime(order) && order % 2 == 1
    ensures !Cong(order, 4, 0)
  {
    hide Cong, IsPrime;
    SmallUnits(order);
    PrimeProduct(order, 2, 2);
  }

  /** At most one response below the order satisfies the equation for given R, A and challenge. */
  lemma ResponseDetermined(s: Suite, r: Affine, key: Affine, response: nat, response': nat, challenge: nat)
    requires Sound(s) && OnCurve(s.curve, r) && IsPublicPoint(s, key) && response < s.order && response' < s.order
    requires CofactoredEquation(s, r, key, response, challenge) && CofactoredEquation(s, r, key, response', challenge)
    ensures response == response'
  {
    hide Reduce, IsPrime, IsSquare, IsValid, ToAffine, OnCurve, FitsIn, Times, Add, Cong, InSubgroup;
    BaseFacts(s);
    TimesInjective(s.curve, s.order, 4 * response, 4 * response', Base(s));
    ReduceIffCong(s.order, 4 * response, 4 * response');
    FourInvertible(s.order);
    PrimeCancel(s.order, 4, response, response');
    CongCanonical(s.order, response, response');
  }

  /** Two accepted signatures with the same commitment bytes, for one key and message, are the same 76 bytes. */
  lemma ResponseUnique(s: Suite, h: Hash, publicKey: seq<byte>, message: seq<byte>, signature: seq<byte>,
                       signature': seq<byte>)
    requires Sound(s)
    requires Verify(s, h, publicKey, message, signature) && Verify(s, h, publicKey, message, signature')
    requires signature[..F.FIELD_BYTES] == signature'[..F.FIELD_BYTES]
    ensures signature == signature'
  {
    hide Reduce, IsPrime, IsSquare, IsValid, ToAffine, CurveEquation, InSubgroup, FitsIn, Denotes, EncodeAffine, Verify,
      CofactoredEquation, LeBytes;
    var a, r, response := AcceptedParts(s, h, publicKey, message, signature);
    var a', r', response' := AcceptedParts(s, h, publicKey, message, signature');
    assert signature[..F.FIELD_BYTES] == EncodeAffine(r) && signature'[..F.FIELD_BYTES] == EncodeAffine(r');
    EncodeInjective(s.curve, s.sqrtExponent, a, a');
    EncodeInjective(s.curve, s.sqrtExponent, r, r');
    ResponseDetermined(s, r, a, response, response', LeInt(h(EncodeAffine(r) + publicKey + message)));
  }

  /** Parsing is faithful: encoding the parsed point and scalar again gives the 76 input bytes. */
  lemma ParsedSignatureFaithful(s: Suite, bytes: seq<byte>)
    requires Sound(s) && SignatureFromBytes(s, bytes).Ok?
    ensures var parsed := SignatureFromBytes(s, bytes).value;
      && Encode(s.curve, parsed.commitment).Ok?
      && bytes == parsed.encoded
      && bytes == Encode(s.curve, parsed.commitment).value + LeBytes(parsed.response, Scalar.SCALAR_BYTES)
  {
    hide Reduce, IsPrime, IsSquare, InSubgroup, FitsIn, Denotes, EncodeAffine, CurveEquation, LeBytes, Decode, IsValid,
      Scalar.FromCanonicalBytes;
    var parsed := SignatureFromBytes(s, bytes).value;
    EncodeOfDecode(s.curve, s.sqrtExponent, bytes[..F.FIELD_BYTES]);
    SignatureParsing(s, bytes);
  }
}
