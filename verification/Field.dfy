/** The prime field of field.rs: canonical residues modulo p, their byte codec and the fixed-exponent square root. */
module Field {
  import opened Bytes
  import opened Modular
  import opened Wrappers
  import Fermat

  /** Byte length of encoded field elements, points and scalars. */
  const FIELD_BYTES: nat := 38

  /** Byte length of the integer type behind the field. */
  const UINT_BYTES: nat := 40

  predicate IsElement(p: nat, x: int) {
    0 <= x < p
  }

  function Add(p: nat, x: int, y: int): int
    requires p > 0
  {
    Reduce(p, x + y)
  }

  function Sub(p: nat, x: int, y: int): int
    requires p > 0
  {
    Reduce(p, x - y)
  }

  function Neg(p: nat, x: int): int
    requires p > 0
  {
    Reduce(p, -x)
  }

  function Mul(p: nat, x: int, y: int): int
    requires p > 0
  {
    Reduce(p, Product(x, y))
  }

  function Square(p: nat, x: int): int
    requires p > 0
  {
    Mul(p, x, x)
  }

  /** The inverse, absent for zero. */
  function Invert(p: nat, x: int): Option<int>
    requires IsElement(p, x)
  {
    if x == 0 then None else Some(Quot(p, 1, x))
  }

  /** The candidate x^exponent, exposed only when it squares back to x. */
  function Sqrt(p: nat, exponent: nat, x: int): Option<int>
    requires p > 0
  {
    var candidate := Reduce(p, Fermat.Pow(x, exponent));
    if Square(p, candidate) == x then Some(candidate) else None
  }

  function ConditionalSelect<T>(whenFalse: T, whenTrue: T, choice: bool): T {
    if choice then whenTrue else whenFalse
  }

  // ----- Canonical bytes

  function FromCanonicalBytes(p: nat, bytes: seq<byte>): Option<int>
    requires |bytes| == FIELD_BYTES
  {
    var integer := LeInt(bytes + Zeros(UINT_BYTES - FIELD_BYTES));
    if integer < p then Some(integer) else None
  }

  function ToCanonicalBytes(x: nat): (bytes: seq<byte>)
    ensures |bytes| == FIELD_BYTES
  {
    LeBytes(x, UINT_BYTES)[..FIELD_BYTES]
  }

  /** Oddness of the canonical representative, read from the first byte. */
  predicate IsOddElement(x: nat) {
    Lsb(ToCanonicalBytes(x)[0])
  }

  // ----- The operations respect congruence

  lemma AddCong(p: nat, x: int, x': int, y: int, y': int)
    requires p > 0 && Cong(p, x, x') && Cong(p, y, y')
    ensures Cong(p, Add(p, x, y), x' + y')
    ensures Cong(p, Sub(p, x, y), x' - y')
  {
    CongAdd(p, x, x', y, y');
    CongReduce(p, x + y);
    CongReduce(p, x - y);
    CongTrans(p, Add(p, x, y), x + y, x' + y');
    CongTrans(p, Sub(p, x, y), x - y, x' - y');
  }

  lemma MulCong(p: nat, x: int, x': int, y: int, y': int)
    requires p > 0 && Cong(p, x, x') && Cong(p, y, y')
    ensures Cong(p, Mul(p, x, y), x' * y')
  {
    hide Product;
    Products();
    CongMul(p, x, x', y, y');
    CongReduce(p, x * y);
    CongTrans(p, Mul(p, x, y), x * y, x' * y');
  }

  lemma MulCanonical(p: nat, x: int, y: int, z: int)
    requires IsElement(p, z) && Cong(p, x * y, z)
    ensures Mul(p, x, y) == z
  {
    hide Product;
    Products();
    CongReduce(p, x * y);
    CongTrans(p, Mul(p, x, y), x * y, z);
    CongCanonical(p, Mul(p, x, y), z);
  }

  lemma NegCong(p: nat, x: int, x': int)
    requires p > 0 && Cong(p, x, x')
    ensures Cong(p, Neg(p, x), -x')
  {
    CongScale(p, -1, x, x');
    CongReduce(p, -x);
    CongTrans(p, Neg(p, x), -x, -x');
  }

  lemma ElementZero(p: nat, x: int)
    requires IsElement(p, x)
    ensures Cong(p, x, 0) <==> x == 0
  {
    CongRefl(p, 0);
    if Cong(p, x, 0) {
      CongCanonical(p, x, 0);
    }
  }

  lemma ElementEqual(p: nat, x: int, y: int)
    requires IsElement(p, x) && IsElement(p, y)
    ensures x == y <==> Cong(p, x, y)
  {
    CongRefl(p, x);
    if Cong(p, x, y) {
      CongCanonical(p, x, y);
    }
  }

  // ----- Inverses and square roots

  /** Inversion fails for zero only, and otherwise returns the element whose product with x is one. */
  lemma InvertCorrect(p: nat, x: int)
    requires IsPrime(p) && IsElement(p, x)
    ensures Invert(p, x).None? <==> x == 0
    ensures x != 0 ==> IsElement(p, Invert(p, x).value) && Mul(p, x, Invert(p, x).value) == 1
  {
    if x != 0 {
      hide Cong, Quot;
      ElementZero(p, x);
      QuotCorrect(p, 1, x);
      assert Quot(p, 1, x) * x == x * Quot(p, 1, x);
      MulCanonical(p, x, Quot(p, 1, x), 1);
    }
  }

  /** For p = 3 (mod 4) the exponent (p+1)/4 finds a root of every square and of nothing else. */
  lemma SqrtCorrect(p: nat, exponent: nat, x: int)
    requires IsPrime(p) && 4 * exponent == p + 1 && IsElement(p, x)
    ensures Sqrt(p, exponent, x).Some? <==> IsSquare(p, x)
    ensures Sqrt(p, exponent, x).Some? ==>
      var root := Sqrt(p, exponent, x).value; IsElement(p, root) && Square(p, root) == x
  {
    hide Product;
    Products();
    var candidate := Reduce(p, Fermat.Pow(x, exponent));
    CongReduce(p, Fermat.Pow(x, exponent));
    Fermat.FixedExponentRoot(p, x, candidate);
    CongReduce(p, candidate * candidate);
    CongRefl(p, x);
    CongIff(p, Square(p, candidate), candidate * candidate, x, x);
    ElementEqual(p, Square(p, candidate), x);
  }

  /** Of the two roots the fixed exponent finds the one that is itself a square. */
  lemma SqrtPrincipal(p: nat, exponent: nat, x: int, root: int)
    requires IsPrime(p) && 4 * exponent == p + 1 && IsElement(p, x)
    ensures Sqrt(p, exponent, x) == Some(root) <==> IsElement(p, root) && Square(p, root) == x && IsSquare(p, root)
  {
    hide Product, Reduce, Cong, IsPrime, IsSquare;
    Products();
    var sqrt, power := Sqrt(p, exponent, x), Fermat.Pow(x, exponent);
    SqrtCorrect(p, exponent, x);
    if IsSquare(p, x) {
      Fermat.PowOfSquare(p, x, exponent);
      CongReduce(p, power);
      SquareCong(p, power, sqrt.value);
    }
    if IsElement(p, root) && Square(p, root) == x && IsSquare(p, root) {
      CongReduce(p, root * root);
      CongSym(p, root * root, x);
      SquareIntro(p, root, x);
      CongReduce(p, sqrt.value * sqrt.value);
      CongTrans(p, sqrt.value * sqrt.value, x, root * root);
      RootsAreNegatives(p, sqrt.value, root);
      if root != sqrt.value {
        // both sqrt.value and its negation would be squares
        NegCong(p, sqrt.value, sqrt.value) by {
          CongRefl(p, sqrt.value);
        }
        SquareCong(p, root, -sqrt.value);
        ElementZero(p, sqrt.value);
        if sqrt.value != 0 {
          Fermat.NegatedSquareIsNonsquare(p, sqrt.value);
        } else {
          SmallReduce(p, 0);
        }
      }
    }
  }

  lemma NegNonzero(p: nat, x: int)
    requires IsElement(p, x) && x != 0
    ensures Neg(p, x) == p - x
  {
    CongReduce(p, -x);
    CongIntro(p, -x, p - x, -1);
    CongTrans(p, Neg(p, x), -x, p - x);
    CongCanonical(p, Neg(p, x), p - x);
  }

  /** A square has no roots besides r and -r. */
  lemma RootsAreNegatives(p: nat, r: int, s: int)
    requires IsPrime(p) && IsElement(p, r) && IsElement(p, s) && Cong(p, r * r, s * s)
    ensures s == r || s == Neg(p, r)
  {
    hide IsPrime, Cong, Reduce;
    CongSym(p, r * r, s * s);
    if r == 0 {
      PrimeProduct(p, s, s);
      ElementZero(p, s);
    } else {
      NegNonzero(p, r);
      SquareRoots(p, s, r);
    }
  }

  /** Negation flips the parity of a nonzero element, because p is odd. */
  lemma NegFlipsParity(p: nat, x: int)
    requires IsElement(p, x) && x != 0 && p % 2 == 1
    ensures IsElement(p, Neg(p, x)) && IsOdd(Neg(p, x)) != IsOdd(x)
  {
    hide Reduce;
    NegNonzero(p, x);
  }

  // ----- Codec

  /** Parsing accepts exactly the encodings of elements, and the encoding of an accepted element is the input. */
  lemma CodecRoundTrip(p: nat, bytes: seq<byte>)
    requires |bytes| == FIELD_BYTES
    ensures FromCanonicalBytes(p, bytes) == if LeInt(bytes) < p then Some(LeInt(bytes)) else None
    ensures FromCanonicalBytes(p, bytes).Some? ==> ToCanonicalBytes(FromCanonicalBytes(p, bytes).value) == bytes
  {
    LeIntWiden(bytes, UINT_BYTES - FIELD_BYTES);
    LeBytesPrefix(LeInt(bytes), FIELD_BYTES, UINT_BYTES);
    LeBytesOfLeInt(bytes);
  }

  lemma EncodeRoundTrip(p: nat, x: int)
    requires IsElement(p, x) && FitsIn(x, 8 * FIELD_BYTES)
    ensures LeInt(ToCanonicalBytes(x)) == x
    ensures FromCanonicalBytes(p, ToCanonicalBytes(x)) == Some(x)
  {
    FitsInIff(x, 8 * FIELD_BYTES);
    LeBytesPrefix(x, FIELD_BYTES, UINT_BYTES);
    LeIntOfLeBytes(x, FIELD_BYTES);
    LeIntWiden(ToCanonicalBytes(x), UINT_BYTES - FIELD_BYTES);
  }

  lemma FirstByteParity(x: nat)
    ensures IsOddElement(x) == IsOdd(x)
  {
    hide Lsb, IsOdd;
    var b := x % 256;
    ByteOfInt(b);
    LsbParity(b as byte);
    LowByteParity(x);
  }

  lemma LowByteParity(x: nat)
    ensures IsOdd(x % 256) == IsOdd(x)
  {
  }
}
