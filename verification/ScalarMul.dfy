/** The fixed-length double-and-add-always multiplier of edwards.rs. */
module ScalarMul {
  import opened Bytes
  import opened Modular
  import opened EdwardsCurve
  import opened EdwardsGroup
  import opened Edwards
  import opened Multiples
  import F = Field

  /** Bit length of the field, and number of rounds of the multiplier. */
  const FIELD_BITS: nat := 301

  function SelectPoint(whenFalse: ExtPoint, whenTrue: ExtPoint, choice: bool): ExtPoint {
    ExtPoint(
      F.ConditionalSelect(whenFalse.x, whenTrue.x, choice),
      F.ConditionalSelect(whenFalse.y, whenTrue.y, choice),
      F.ConditionalSelect(whenFalse.z, whenTrue.z, choice),
      F.ConditionalSelect(whenFalse.t, whenTrue.t, choice))
  }

  /** The accumulator after the rounds count-1, ..., i. */
  function Ladder(c: Curve, e: ExtPoint, bit: nat -> bool, i: nat, count: nat): ExtPoint
    requires c.p > 0 && i <= count
    decreases count - i, e
  {
    if i == count then Identity
    else
      var doubled := Double(c, Ladder(c, e, bit, i + 1, count));
      SelectPoint(doubled, AddPoints(c, doubled, e), bit(i))
  }

  /** After every round the accumulator is a valid representation of [n >> i]P. */
  lemma {:induction false} LadderDenotes(c: Curve, e: ExtPoint, p: Affine, bit: nat -> bool, i: nat, count: nat)
    requires Complete(c) && OnCurve(c, p) && Denotes(c, e, p) && i <= count
    ensures Denotes(c, Ladder(c, e, bit, i, count), Times(c, TopBits(bit, i, count), p))
    decreases count - i
  {
    hide Add, OnCurve, IsPrime, IsSquare, Denotes, AddPoints, Double;
    if i == count {
      IdentityDenotes(c);
    } else {
      LadderDenotes(c, e, p, bit, i + 1, count);
      var n := TopBits(bit, i + 1, count);
      var accumulator, q := Ladder(c, e, bit, i + 1, count), Times(c, n, p);
      TimesOnCurve(c, n, p);
      DenotesWithoutT(c, accumulator, q);
      DoubleRefines(c, accumulator, q);
      TimesAdd(c, n, n, p);
      Closure(c, q, q);
      AddRefines(c, Double(c, accumulator), e, Add(c, q, q), p);
      assert n + n == 2 * n;
    }
  }

  lemma DenotesWithoutT(c: Curve, e: ExtPoint, p: Affine)
    requires Denotes(c, e, p)
    ensures DenotesXyz(c, e, p)
  {
  }

  /** Every round doubles, adds and selects; the result is [n]P for the integer n supplied bit by bit. */
  method ScalarMulWith(c: Curve, e: ExtPoint, bit: nat -> bool) returns (accumulator: ExtPoint)
    requires c.p > 0
    ensures accumulator == Ladder(c, e, bit, 0, FIELD_BITS)
    ensures forall p :: Complete(c) && OnCurve(c, p) && Denotes(c, e, p) ==>
      Denotes(c, accumulator, Times(c, TopBits(bit, 0, FIELD_BITS), p))
  {
    hide AddPoints, Double, Complete, OnCurve, Denotes;
    accumulator := Identity;
    var bitIndex: nat := FIELD_BITS;
    while bitIndex != 0
      invariant bitIndex <= FIELD_BITS
      invariant accumulator == Ladder(c, e, bit, bitIndex, FIELD_BITS)
    {
      bitIndex := bitIndex - 1;
      var doubled := Double(c, accumulator);
      var added := AddPoints(c, doubled, e);
      accumulator := SelectPoint(doubled, added, bit(bitIndex));
    }
    forall p | Complete(c) && OnCurve(c, p) && Denotes(c, e, p)
      ensures Denotes(c, accumulator, Times(c, TopBits(bit, 0, FIELD_BITS), p))
    {
      LadderDenotes(c, e, p, bit, 0, FIELD_BITS);
    }
  }

  // ----- The two bit sources

  function ScalarBits(s: nat): nat -> bool {
    (i: nat) => Bit(s, i)
  }

  function EncodedBits(bytes: seq<byte>): nat -> bool {
    (i: nat) => i < 8 * |bytes| && BitOfBytes(bytes, i)
  }

  function ScalarMulScalar(c: Curve, e: ExtPoint, s: nat): ExtPoint
    requires c.p > 0
  {
    Ladder(c, e, ScalarBits(s), 0, FIELD_BITS)
  }

  function ScalarMulEncoded(c: Curve, e: ExtPoint, bytes: seq<byte>): ExtPoint
    requires c.p > 0
  {
    Ladder(c, e, EncodedBits(bytes), 0, FIELD_BITS)
  }

  lemma ScalarMulDenotes(c: Curve, e: ExtPoint, p: Affine, s: nat)
    requires Complete(c) && OnCurve(c, p) && Denotes(c, e, p) && FitsIn(s, FIELD_BITS)
    ensures Denotes(c, ScalarMulScalar(c, e, s), Times(c, s, p))
  {
    hide Complete, OnCurve, Denotes, Ladder, Bit, Exp2, FitsIn;
    LadderDenotes(c, e, p, ScalarBits(s), 0, FIELD_BITS);
    FitsInIff(s, FIELD_BITS);
    TopBitsOfInt(ScalarBits(s), s, 0, FIELD_BITS);
    DivideByOne(s);
  }

  lemma ScalarMulEncodedDenotes(c: Curve, e: ExtPoint, p: Affine, bytes: seq<byte>)
    requires Complete(c) && OnCurve(c, p) && Denotes(c, e, p)
    requires |bytes| == F.FIELD_BYTES && FitsIn(LeInt(bytes), FIELD_BITS)
    ensures Denotes(c, ScalarMulEncoded(c, e, bytes), Times(c, LeInt(bytes), p))
  {
    hide Complete, OnCurve, Denotes, Ladder, Bit, BitOfBytes, Exp2, FitsIn;
    LadderDenotes(c, e, p, EncodedBits(bytes), 0, FIELD_BITS);
    forall j | 0 <= j < FIELD_BITS ensures EncodedBits(bytes)(j) == Bit(LeInt(bytes), j) {
      BitOfLeInt(bytes, j);
    }
    FitsInIff(LeInt(bytes), FIELD_BITS);
    TopBitsOfInt(EncodedBits(bytes), LeInt(bytes), 0, FIELD_BITS);
    DivideByOne(LeInt(bytes));
  }

  lemma DivideByOne(n: nat)
    ensures ShiftRight(n, 0) == n
  {
  }

  /** Multiplying by the cofactor with two doublings is multiplication by four. */
  lemma CofactorDenotes(c: Curve, e: ExtPoint, p: Affine)
    requires Complete(c) && OnCurve(c, p) && Denotes(c, e, p)
    ensures Denotes(c, MultiplyByCofactor(c, e), Times(c, 4, p))
  {
    hide Add, Complete, OnCurve, Denotes, Double, Times;
    DenotesWithoutT(c, e, p);
    DoubleRefines(c, e, p);
    Closure(c, p, p);
    DenotesWithoutT(c, Double(c, e), Add(c, p, p));
    DoubleRefines(c, Double(c, e), Add(c, p, p));
    TimesTwo(c, p);
    TimesTwo(c, Add(c, p, p));
    TimesTimes(c, 2, 2, p);
    ProductIsMul(2, 2);
  }

  // ----- Subgroup membership

  /** [order]P is the identity, where the order is given by its bytes. */
  predicate IsPrimeSubgroup(c: Curve, orderBytes: seq<byte>, e: ExtPoint)
    requires c.p > 0
  {
    IsIdentity(ScalarMulEncoded(c, e, orderBytes))
  }

  predicate IsPrimeSubgroupNonidentity(c: Curve, orderBytes: seq<byte>, e: ExtPoint)
    requires c.p > 0
  {
    !IsIdentity(e) && IsPrimeSubgroup(c, orderBytes, e)
  }

  lemma SubgroupDecides(c: Curve, orderBytes: seq<byte>, e: ExtPoint, p: Affine)
    requires Complete(c) && OnCurve(c, p) && Denotes(c, e, p)
    requires |orderBytes| == F.FIELD_BYTES && FitsIn(LeInt(orderBytes), FIELD_BITS)
    ensures IsPrimeSubgroup(c, orderBytes, e) <==> InSubgroup(c, LeInt(orderBytes), p)
    ensures IsPrimeSubgroupNonidentity(c, orderBytes, e) <==> p != Neutral && InSubgroup(c, LeInt(orderBytes), p)
  {
    hide Reduce, IsPrime, IsSquare, OnCurve, Denotes, IsIdentity, ScalarMulEncoded, Times;
    var n, multiple := LeInt(orderBytes), ScalarMulEncoded(c, e, orderBytes);
    ScalarMulEncodedDenotes(c, e, p, orderBytes);
    TimesOnCurve(c, n, p);
    DenotesWithoutT(c, multiple, Times(c, n, p));
    DenotesWithoutT(c, e, p);
    IsIdentityDecides(c, multiple, Times(c, n, p));
    IsIdentityDecides(c, e, p);
  }
}
