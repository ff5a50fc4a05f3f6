/** The compressed point encoding of edwards.rs: 301 bits of y, two reserved bits and the parity of x. */
module PointCodec {
  import opened Bytes
  import opened Modular
  import opened Wrappers
  import opened EdwardsAlgebra
  import opened EdwardsCurve
  import opened EdwardsGroup
  import opened Edwards
  import opened ScalarMul
  import F = Field

  datatype PointError = PointError

  const LAST: nat := F.FIELD_BYTES - 1

  // ----- Encoding

  /** The encoding of an affine point, in one piece. */
  function EncodeAffine(p: Affine): (bytes: seq<byte>)
    requires 0 <= p.x && 0 <= p.y
    ensures |bytes| == F.FIELD_BYTES
  {
    var yBytes := F.ToCanonicalBytes(p.y);
    yBytes[LAST := yBytes[LAST] | SignBit(F.IsOddElement(p.x))]
  }

  function SignBit(sign: bool): byte {
    if sign then 0x80 else 0
  }

  /** What encoding a point should return: the encoding of its affine point, unless it is invalid. */
  ghost function Encode(c: Curve, e: ExtPoint): Result<seq<byte>, PointError>
    requires c.p > 0
  {
    if IsValid(c, e) then Ok(EncodeAffine(ToAffine(c, e))) else Err(PointError)
  }

  /** The code inverts Z, multiplies out, and patches the sign bit into the bytes of y. */
  method EncodeInner(c: Curve, e: ExtPoint) returns (r: Result<seq<byte>, PointError>)
    requires Complete(c) && Elements(c, e)
    ensures r == Encode(c, e)
    ensures r.Ok? <==> IsValid(c, e)
  {
    if !IsValid(c, e) {
      return Err(PointError);
    }
    var inverse := F.Invert(c.p, e.z);
    if inverse.None? {
      return Err(PointError);
    }
    var affineX := F.Mul(c.p, e.x, inverse.value);
    var affineY := F.Mul(c.p, e.y, inverse.value);
    var yBytes := F.ToCanonicalBytes(affineY);
    var encoded := new byte[F.FIELD_BYTES](i requires 0 <= i < F.FIELD_BYTES => yBytes[i]);
    encoded[LAST] := encoded[LAST] | SignBit(F.IsOddElement(affineX));
    AffineByInverse(c, e);
    assert encoded[..] == EncodeAffine(ToAffine(c, e));
    return Ok(encoded[..]);
  }

  lemma AffineByInverse(c: Curve, e: ExtPoint)
    requires Complete(c) && Elements(c, e) && e.z != 0
    ensures F.Invert(c.p, e.z).Some?
    ensures var inverse := F.Invert(c.p, e.z).value;
      ToAffine(c, e) == Affine(F.Mul(c.p, e.x, inverse), F.Mul(c.p, e.y, inverse))
  {
    hide Product, Reduce, Cong, IsPrime, IsSquare;
    Products();
    var inverse := F.Invert(c.p, e.z).value;
    F.InvertCorrect(c.p, e.z);
    F.ElementZero(c.p, e.z);
    CongReduce(c.p, e.z * inverse);
    ProductQuotient(c.p, e.x, e.z, inverse);
    ProductQuotient(c.p, e.y, e.z, inverse);
  }

  lemma ProductQuotient(m: nat, x: int, z: int, inverse: int)
    requires IsPrime(m) && !Cong(m, z, 0) && Cong(m, z * inverse, 1)
    ensures F.Mul(m, x, inverse) == Quot(m, x, z)
  {
    hide Product, Reduce, Cong, Divides;
    Products();
    var q := F.Mul(m, x, inverse);
    CongReduce(m, x * inverse);
    CongScale(m, z, q, x * inverse);
    assert (x * inverse) * z == x * (z * inverse) by { MulRegroup(x, inverse, z); }
    CongScale(m, x, z * inverse, 1);
    CongTrans(m, q * z, x * (z * inverse), x);
    QuotUnique(m, q, x, z);
  }

  // ----- Decoding

  /** x^2 as decoding recovers it from y. */
  function RecoveredSquare(c: Curve, y: int, denominatorInverse: int): int
    requires c.p > 0
  {
    F.Mul(c.p, F.Sub(c.p, 1, F.Square(c.p, y)), denominatorInverse)
  }

  function Denominator(c: Curve, y: int): (r: int)
    requires c.p > 0
    ensures F.IsElement(c.p, r)
  {
    F.Sub(c.p, c.a, F.Mul(c.p, c.d, F.Square(c.p, y)))
  }

  function MaskedY(encoded: seq<byte>): (yBytes: seq<byte>)
    requires |encoded| == F.FIELD_BYTES
    ensures |yBytes| == F.FIELD_BYTES
  {
    encoded[LAST := encoded[LAST] & 0x1f]
  }

  predicate Sign(encoded: seq<byte>)
    requires |encoded| == F.FIELD_BYTES
  {
    (encoded[LAST] >> 7) & 1 != 0
  }

  /** Decoding, check by check in the order of the code. */
  function Decode(c: Curve, sqrtExponent: nat, encoded: seq<byte>): Result<ExtPoint, PointError>
    requires c.p > 0 && |encoded| == F.FIELD_BYTES
  {
    if encoded[LAST] & 0x60 != 0 then Err(PointError)
    else
      var sign := Sign(encoded);
      match F.FromCanonicalBytes(c.p, MaskedY(encoded))
      case None => Err(PointError)
      case Some(y) =>
        match F.Invert(c.p, Denominator(c, y))
        case None => Err(PointError)
        case Some(denominatorInverse) =>
          match F.Sqrt(c.p, sqrtExponent, RecoveredSquare(c, y, denominatorInverse))
          case None => Err(PointError)
          case Some(root) =>
            if root == 0 && sign then Err(PointError)
            else
              var negate := F.IsOddElement(root) != sign;
              var point := FromAffine(c, F.ConditionalSelect(root, F.Neg(c.p, root), negate), y);
              if IsValid(c, point) then Ok(point) else Err(PointError)
  }

  /** The code keeps the masked copy of the input in a local buffer. */
  method DecodePoint(c: Curve, sqrtExponent: nat, encoded: seq<byte>) returns (r: Result<ExtPoint, PointError>)
    requires c.p > 0 && |encoded| == F.FIELD_BYTES
    ensures r == Decode(c, sqrtExponent, encoded)
  {
    if encoded[LAST] & 0x60 != 0 {
      return Err(PointError);
    }
    var sign := (encoded[LAST] >> 7) & 1 != 0;
    var yBytes := new byte[F.FIELD_BYTES](i requires 0 <= i < F.FIELD_BYTES => encoded[i]);
    yBytes[LAST] := yBytes[LAST] & 0x1f;
    assert yBytes[..] == MaskedY(encoded);
    var y := F.FromCanonicalBytes(c.p, yBytes[..]);
    if y.None? {
      return Err(PointError);
    }
    var yy := F.Square(c.p, y.value);
    var denominator := F.Sub(c.p, c.a, F.Mul(c.p, c.d, yy));
    var denominatorInverse := F.Invert(c.p, denominator);
    if denominatorInverse.None? {
      return Err(PointError);
    }
    var xSquared := F.Mul(c.p, F.Sub(c.p, 1, yy), denominatorInverse.value);
    var root := F.Sqrt(c.p, sqrtExponent, xSquared);
    if root.None? {
      return Err(PointError);
    }
    if root.value == 0 && sign {
      return Err(PointError);
    }
    var negate := F.IsOddElement(root.value) != sign;
    var x := F.ConditionalSelect(root.value, F.Neg(c.p, root.value), negate);
    var point := FromAffine(c, x, y.value);
    if !IsValid(c, point) {
      return Err(PointError);
    }
    return Ok(point);
  }

  /** Decoding that additionally requires a nonidentity point of the prime subgroup. */
  function DecodeStrictSubgroup(c: Curve, sqrtExponent: nat, orderBytes: seq<byte>, encoded: seq<byte>):
    Result<ExtPoint, PointError>
    requires c.p > 0 && |encoded| == F.FIELD_BYTES
  {
    match Decode(c, sqrtExponent, encoded)
    case Err(e) => Err(e)
    case Ok(point) => if IsPrimeSubgroupNonidentity(c, orderBytes, point) then Ok(point) else Err(PointError)
  }

  // ----- The last byte

  lemma SplitLastByte(b: byte)
    requires b & 0x60 == 0
    ensures (b & 0x1f) | SignBit((b >> 7) & 1 != 0) == b
  {
  }

  lemma MaskedByteSmall(b: byte)
    ensures (b & 0x1f) as int < 32
    ensures b as int < 32 ==> b & 0x1f == b
  {
  }

  lemma JoinLastByte(t: byte, sign: bool)
    requires t & 0x1f == t
    ensures var b := t | SignBit(sign); b & 0x60 == 0 && b & 0x1f == t && ((b >> 7) & 1 != 0) == sign
  {
  }

  /** Below 2^301 the last byte is below 32, and conversely. */
  lemma LastByteOfElement(bytes: seq<byte>)
    requires |bytes| == F.FIELD_BYTES
    ensures FitsIn(LeInt(bytes), FIELD_BITS) <==> bytes[LAST] as int < 32
  {
    hide Exp2, FitsIn;
    var lo, hi := bytes[..LAST], bytes[LAST..];
    assert bytes == lo + hi;
    LeIntAppend(lo, hi);
    assert hi[1..] == [];
    LeIntBound(lo);
    Exp2Add(8 * LAST, 5);
    SmallPowers();
    TopDigit(LeInt(lo), Exp2(8 * LAST), bytes[LAST] as int);
    FitsInIff(LeInt(bytes), FIELD_BITS);
  }

  lemma TopDigit(lo: nat, e: nat, b: nat)
    requires lo < e
    ensures lo + e * b < e * 32 <==> b < 32
  {
    if b < 32 {
      Distribute(e, b, 32 - b);
      MulAtLeast(e, 32 - b);
    } else if b > 32 {
      Distribute(e, 32, b - 32);
      MulAtLeast(e, b - 32);
    }
  }

  // ----- The recovered square

  /** The denominator a - d*y^2 never vanishes, because a is a square and d is not. */
  lemma DenominatorNonzero(c: Curve, y: int)
    requires Complete(c)
    ensures Cong(c.p, Denominator(c, y), c.a - c.d * (y * y))
    ensures Denominator(c, y) != 0 && !Cong(c.p, Denominator(c, y), 0)
  {
    hide IsPrime, IsSquare;
    var m, den := c.p, Denominator(c, y);
    CongRefl(m, y);
    CongRefl(m, c.a);
    CongRefl(m, c.d);
    F.MulCong(m, y, y, y, y);
    F.MulCong(m, c.d, c.d, F.Square(m, y), y * y);
    F.AddCong(m, c.a, c.a, F.Mul(m, c.d, F.Square(m, y)), c.d * (y * y));
    CongRefl(m, 0);
    if Cong(m, den, 0) {
      var alpha, beta := RotationExists(c);
      CongSym(m, den, c.a - c.d * (y * y));
      CongTrans(m, c.a - c.d * (y * y), den, 0);
      CongRefl(m, c.d * (y * y));
      CongAdd(m, c.a - c.d * (y * y), 0, c.d * (y * y), c.d * (y * y));
      if Cong(m, y, 0) {
        CongScale(m, y, y, 0);
        CongScale(m, c.d, y * y, 0);
        CongTrans(m, c.a, c.d * (y * y), 0);
      }
      CongTrans(m, alpha * alpha, c.a, c.d * (y * y));
      SquareQuotient(m, c.d, y, alpha);
    }
  }

  /** The curve equation for (x, y), solved for x^2. */
  lemma SolvedEquation(c: Curve, x: int, y: int)
    ensures CurveEquation(c, Affine(x, y)) <==> Cong(c.p, (x * x) * (c.a - c.d * (y * y)), 1 - y * y)
  {
    hide Product, Reduce, Cong;
    Products();
    var m, xx, yy := c.p, x * x, y * y;
    Square(x, y);
    SolveEquation(c.a, c.d, xx, yy);
    CongRefl(m, yy);
    CongRefl(m, c.d * (xx * yy));
    if Cong(m, yy + c.a * xx, 1 + c.d * (xx * yy)) {
      CongAdd(m, yy + c.a * xx, 1 + c.d * (xx * yy), yy, yy);
      CongAdd(m, c.a * xx, 1 + c.d * (xx * yy) - yy, c.d * (xx * yy), c.d * (xx * yy));
    }
    if Cong(m, xx * (c.a - c.d * yy), 1 - yy) {
      CongAdd(m, xx * (c.a - c.d * yy), 1 - yy, yy, yy);
      CongAdd(m, xx * (c.a - c.d * yy) + yy, 1, c.d * (xx * yy), c.d * (xx * yy));
    }
  }

  lemma SolveEquation(a: int, d: int, xx: int, yy: int)
    ensures xx * (a - d * yy) == a * xx - d * (xx * yy)
  {
  }

  /** The recovered square is x^2 for every curve point (x, y), and only then. */
  lemma RecoveredSquareCorrect(c: Curve, x: int, y: int)
    requires Complete(c)
    ensures F.Invert(c.p, Denominator(c, y)).Some?
    ensures var w := RecoveredSquare(c, y, F.Invert(c.p, Denominator(c, y)).value);
      F.IsElement(c.p, w) && (CurveEquation(c, Affine(x, y)) <==> Cong(c.p, x * x, w))
  {
    hide Product, Reduce, IsPrime, IsSquare, Cong, CurveEquation;
    Products();
    var m, den, yy := c.p, Denominator(c, y), y * y;
    DenominatorNonzero(c, y);
    F.InvertCorrect(m, den);
    var inverse := F.Invert(m, den).value;
    var w := RecoveredSquare(c, y, inverse);
    CongRefl(m, y);
    CongRefl(m, 1);
    CongRefl(m, inverse);
    F.MulCong(m, y, y, y, y);
    F.AddCong(m, 1, 1, F.Square(m, y), yy);
    F.MulCong(m, F.Sub(m, 1, F.Square(m, y)), 1 - yy, inverse, inverse);
    // w * den = (1 - y^2) * (inverse * den) = 1 - y^2
    CongReduce(m, den * inverse);
    CongScale(m, 1 - yy, den * inverse, 1);
    CongScale(m, den, w, (1 - yy) * inverse);
    MulRegroup(den, 1 - yy, inverse);
    assert ((1 - yy) * inverse) * den == (1 - yy) * (den * inverse);
    CongTrans(m, w * den, (1 - yy) * (den * inverse), 1 - yy);
    // compare with x^2 * (a - d*y^2) = 1 - y^2
    SolvedEquation(c, x, y);
    CongScale(m, x * x, den, c.a - c.d * yy);
    CongIff(m, (x * x) * den, (x * x) * (c.a - c.d * yy), w * den, 1 - yy);
    assert (x * x) * den == den * (x * x) && w * den == den * w;
    CancelIff(m, den, x * x, w);
  }

  // ----- Decoding is the inverse of encoding

  /** The parameters the codec relies on: an odd prime below 2^301 and the exponent (p+1)/4. */
  ghost predicate CodecParameters(c: Curve, sqrtExponent: nat) {
    Complete(c) && 4 * sqrtExponent == c.p + 1 && FitsIn(c.p, FIELD_BITS)
  }

  /** Choosing the root by parity finds x among x and -x. */
  lemma SelectByParity(p: nat, root: int, x: int, sign: bool)
    requires IsPrime(p) && p % 4 == 3 && F.IsElement(p, root) && F.IsElement(p, x) && Cong(p, root * root, x * x)
    requires IsOdd(x) == sign
    ensures !(root == 0 && sign)
    ensures F.ConditionalSelect(root, F.Neg(p, root), F.IsOddElement(root) != sign) == x
  {
    hide Reduce, IsOdd, IsPrime, Cong, F.IsOddElement;
    F.RootsAreNegatives(p, root, x);
    F.FirstByteParity(root);
    if root == 0 {
      NegZero(p);
    } else {
      F.NegFlipsParity(p, root);
    }
  }

  lemma NegZero(p: nat)
    requires p > 0
    ensures F.Neg(p, 0) == 0 && !IsOdd(0)
  {
    SmallReduce(p, 0);
  }

  /** Every encoding of a curve point decodes, to the extended form of that very point. */
  lemma DecodeOfEncode(c: Curve, sqrtExponent: nat, p: Affine)
    requires CodecParameters(c, sqrtExponent) && OnCurve(c, p)
    ensures Decode(c, sqrtExponent, EncodeAffine(p)) == Ok(FromAffine(c, p.x, p.y))
  {
    hide Product, Reduce, IsPrime, IsSquare, Cong, CurveEquation, F.IsOddElement, F.ToCanonicalBytes,
      F.FromCanonicalBytes,
      F.Sqrt, F.Invert, Denominator, RecoveredSquare, IsValid, FitsIn;
    Products();
    var encoded, yBytes := EncodeAffine(p), F.ToCanonicalBytes(p.y);
    EncodedY(c, p);
    RecoveredSquareCorrect(c, p.x, p.y);
    var w := RecoveredSquare(c, p.y, F.Invert(c.p, Denominator(c, p.y)).value);
    F.SqrtCorrect(c.p, sqrtExponent, w);
    assert IsSquare(c.p, w) by {
      SquareIntro(c.p, p.x, w);
    }
    var root := F.Sqrt(c.p, sqrtExponent, w).value;
    CongReduce(c.p, root * root);
    CongSym(c.p, p.x * p.x, w);
    CongTrans(c.p, root * root, w, p.x * p.x);
    F.FirstByteParity(p.x);
    SelectByParity(c.p, root, p.x, F.IsOddElement(p.x));
    FromAffineDenotes(c, p.x, p.y);
    DenotesValid(c, FromAffine(c, p.x, p.y), p);
  }

  /** The y part of an encoding: no reserved bit, the sign, and the canonical bytes of y. */
  lemma EncodedY(c: Curve, p: Affine)
    requires 0 <= p.x < c.p && 0 <= p.y < c.p && FitsIn(c.p, FIELD_BITS)
    ensures var encoded := EncodeAffine(p);
      && encoded[LAST] & 0x60 == 0
      && Sign(encoded) == F.IsOddElement(p.x)
      && MaskedY(encoded) == F.ToCanonicalBytes(p.y)
      && F.FromCanonicalBytes(c.p, MaskedY(encoded)) == Some(p.y)
  {
    hide F.IsOddElement, F.ToCanonicalBytes, F.FromCanonicalBytes, FitsIn, SignBit;
    var encoded, yBytes := EncodeAffine(p), F.ToCanonicalBytes(p.y);
    FitsInMonotone(p.y, c.p, FIELD_BITS, FIELD_BITS);
    FitsInMonotone(p.y, c.p, FIELD_BITS, 8 * F.FIELD_BYTES);
    F.EncodeRoundTrip(c.p, p.y);
    LastByteOfElement(yBytes);
    MaskedByteSmall(yBytes[LAST]);
    JoinLastByte(yBytes[LAST], F.IsOddElement(p.x));
    assert MaskedY(encoded) == yBytes;
  }

  /** Whatever decodes is the encoding of the curve point it decodes to. */
  lemma EncodeOfDecode(c: Curve, sqrtExponent: nat, encoded: seq<byte>)
    requires CodecParameters(c, sqrtExponent) && |encoded| == F.FIELD_BYTES
    requires Decode(c, sqrtExponent, encoded).Ok?
    ensures var e := Decode(c, sqrtExponent, encoded).value; var p := ToAffine(c, e);
      && Elements(c, e) && IsValid(c, e) && e.z == 1
      && OnCurve(c, p) && Denotes(c, e, p)
      && EncodeAffine(p) == encoded
      && Encode(c, e) == Ok(encoded)
  {
    hide Reduce, IsPrime, IsSquare, Cong, CurveEquation, F.IsOddElement, F.ToCanonicalBytes, F.FromCanonicalBytes,
      F.Sqrt, F.Invert, Denominator, RecoveredSquare, IsValid, FitsIn, SignBit;
    var m, e := c.p, Decode(c, sqrtExponent, encoded).value;
    var yBytes, sign := MaskedY(encoded), Sign(encoded);
    F.CodecRoundTrip(m, yBytes);
    var y := e.y;
    var w := RecoveredSquare(c, y, F.Invert(m, Denominator(c, y)).value);
    var root := F.Sqrt(m, sqrtExponent, w).value;
    RecoveredSquareCorrect(c, root, y);
    F.SqrtCorrect(m, sqrtExponent, w);
    SelectedParity(m, root, sign);
    FromAffineDenotes(c, e.x, y);
    ValidDenotes(c, e);
    DenotesUnique(c, e, Affine(e.x, y));
    SplitLastByte(encoded[LAST]);
    assert EncodeAffine(Affine(e.x, y)) == encoded;
  }

  lemma SelectedParity(p: nat, root: int, sign: bool)
    requires p % 4 == 3 && F.IsElement(p, root) && !(root == 0 && sign)
    ensures var x := F.ConditionalSelect(root, F.Neg(p, root), F.IsOddElement(root) != sign);
      F.IsElement(p, x) && F.IsOddElement(x) == sign
  {
    hide F.IsOddElement, IsOdd, Reduce;
    F.FirstByteParity(root);
    F.FirstByteParity(F.Neg(p, root));
    if root == 0 {
      NegZero(p);
    } else {
      F.NegFlipsParity(p, root);
    }
  }

  /** Decoding accepts exactly the encodings of curve points. */
  lemma DecodeAccepts(c: Curve, sqrtExponent: nat, encoded: seq<byte>)
    requires CodecParameters(c, sqrtExponent) && |encoded| == F.FIELD_BYTES
    ensures Decode(c, sqrtExponent, encoded).Ok? <==> exists p :: OnCurve(c, p) && EncodeAffine(p) == encoded
  {
    hide CurveEquation, Decode, EncodeAffine, Encode, Elements, IsValid, ToAffine, Denotes, IsPrime, IsSquare, FitsIn;
    if Decode(c, sqrtExponent, encoded).Ok? {
      EncodeOfDecode(c, sqrtExponent, encoded);
    }
    if p :| OnCurve(c, p) && EncodeAffine(p) == encoded {
      DecodeOfEncode(c, sqrtExponent, p);
    }
  }

  /** Different curve points have different encodings. */
  lemma EncodeInjective(c: Curve, sqrtExponent: nat, p: Affine, q: Affine)
    requires CodecParameters(c, sqrtExponent) && OnCurve(c, p) && OnCurve(c, q) && EncodeAffine(p) == EncodeAffine(q)
    ensures p == q
  {
    hide Decode, EncodeAffine, CodecParameters;
    DecodeOfEncode(c, sqrtExponent, p);
    DecodeOfEncode(c, sqrtExponent, q);
  }

  /** The encoding is a canonical form: it decides the comparison of the code, whatever the two Z are. */
  lemma EncodeIsCanonical(c: Curve, sqrtExponent: nat, l: ExtPoint, r: ExtPoint)
    requires CodecParameters(c, sqrtExponent)
    requires Elements(c, l) && Elements(c, r) && IsValid(c, l) && IsValid(c, r)
    ensures Encode(c, l).Ok? && Encode(c, r).Ok?
    ensures Encode(c, l) == Encode(c, r) <==> CtEq(c, l, r)
    ensures var d := Decode(c, sqrtExponent, Encode(c, l).value); d.Ok? && CtEq(c, d.value, l)
  {
    hide Decode, EncodeAffine, CurveEquation, IsPrime, IsSquare, IsValid, CtEq, ToAffine, FitsIn;
    ValidDenotes(c, l);
    ValidDenotes(c, r);
    var p, q := ToAffine(c, l), ToAffine(c, r);
    CtEqDecides(c, l, r, p, q);
    if EncodeAffine(p) == EncodeAffine(q) {
      EncodeInjective(c, sqrtExponent, p, q);
    }
    DecodeOfEncode(c, sqrtExponent, p);
    FromAffineDenotes(c, p.x, p.y);
    CtEqDecides(c, FromAffine(c, p.x, p.y), l, p, p);
  }

  /** The rejections, spelled out. The zero denominator and the final validity check never reject. */
  lemma DecodeRejects(c: Curve, sqrtExponent: nat, encoded: seq<byte>)
    requires CodecParameters(c, sqrtExponent) && |encoded| == F.FIELD_BYTES
    ensures var y := LeInt(MaskedY(encoded));
      Decode(c, sqrtExponent, encoded).Err? <==>
        || encoded[LAST] & 0x60 != 0
        || y >= c.p
        || (forall x :: !CurveEquation(c, Affine(x, y)))
        || (CurveEquation(c, Affine(0, y)) && Sign(encoded))
  {
    hide Reduce, IsPrime, IsSquare, Cong, CurveEquation, F.IsOddElement, F.ToCanonicalBytes, F.FromCanonicalBytes,
      F.Sqrt, F.Invert, Denominator, RecoveredSquare, IsValid, FitsIn, SignBit;
    var m, y, sign := c.p, LeInt(MaskedY(encoded)), Sign(encoded);
    F.CodecRoundTrip(m, MaskedY(encoded));
    if encoded[LAST] & 0x60 == 0 && y < m {
      RecoveredSquareCorrect(c, 0, y);
      var w := RecoveredSquare(c, y, F.Invert(m, Denominator(c, y)).value);
      F.SqrtCorrect(m, sqrtExponent, w);
      var sqrt := F.Sqrt(m, sqrtExponent, w);
      if sqrt.None? {
        forall x ensures !CurveEquation(c, Affine(x, y)) {
          RecoveredSquareCorrect(c, x, y);
          if Cong(m, x * x, w) {
            SquareIntro(m, x, w);
          }
        }
      } else {
        forall x ensures CurveEquation(c, Affine(x, y)) <==> Cong(m, x * x, w) {
          RecoveredSquareCorrect(c, x, y);
        }
        DecodeWithRoot(c, y, w, sqrt.value, sign);
      }
    }
  }

  /** Once a root is found, only the negative zero can still be rejected. */
  lemma DecodeWithRoot(c: Curve, y: int, w: int, root: int, sign: bool)
    requires Complete(c) && c.p % 4 == 3
    requires F.IsElement(c.p, y) && F.IsElement(c.p, root) && F.Square(c.p, root) == w
    requires forall x :: CurveEquation(c, Affine(x, y)) <==> Cong(c.p, x * x, w)
    ensures CurveEquation(c, Affine(root, y))
    ensures root == 0 <==> CurveEquation(c, Affine(0, y))
    ensures IsValid(c, FromAffine(c, F.ConditionalSelect(root, F.Neg(c.p, root), F.IsOddElement(root) != sign), y))
  {
    hide Product, Reduce, IsPrime, IsSquare, Cong, CurveEquation, F.IsOddElement, IsValid;
    Products();
    var m := c.p;
    CongReduce(m, root * root);
    var x := F.ConditionalSelect(root, F.Neg(m, root), F.IsOddElement(root) != sign);
    CongRefl(m, root);
    F.NegCong(m, root, root);
    CongMul(m, F.Neg(m, root), -root, F.Neg(m, root), -root);
    assert -root * -root == root * root;
    CongTrans(m, F.Neg(m, root) * F.Neg(m, root), root * root, w);
    if CurveEquation(c, Affine(0, y)) {
      CongTrans(m, root * root, w, 0) by {
        CongSym(m, 0 * 0, w);
      }
      PrimeProduct(m, root, root);
      F.ElementZero(m, root);
    }
    FromAffineDenotes(c, x, y);
    DenotesValid(c, FromAffine(c, x, y), Affine(x, y));
  }
}
