/**
 The twisted Edwards curve a*x^2 + y^2 = 1 + d*x^2*y^2 over a prime field, with its affine addition law.
 For a square and d not a square the law is complete, and it makes the curve a commutative group.
 */
module EdwardsCurve {
  import opened Modular
  import opened EdwardsAlgebra

  datatype Curve = Curve(p: nat, a: nat, d: nat)

  /** An affine point, with both coordinates reduced. */
  datatype Affine = Affine(x: int, y: int)

  const Neutral := Affine(0, 1)

  /** The conditions that make the addition law complete. */
  ghost predicate Complete(c: Curve) {
    && c.p > 2
    && IsPrime(c.p)
    && !Cong(c.p, c.a, 0)
    && IsSquare(c.p, c.a)
    && !IsSquare(c.p, c.d)
  }

  ghost predicate CurveEquation(c: Curve, p: Affine) {
    Cong(c.p, Norm(c.a, p.x, p.y), 1 + Delta(c, p, p))
  }

  ghost predicate OnCurve(c: Curve, p: Affine) {
    0 <= p.x < c.p && 0 <= p.y < c.p && CurveEquation(c, p)
  }

  /** The product d*x1*x2*y1*y2, on which both denominators depend. */
  function Delta(c: Curve, p: Affine, q: Affine): int {
    Product(c.d, Product(Product(p.x, p.y), Product(q.x, q.y)))
  }

  ghost function Add(c: Curve, p: Affine, q: Affine): Affine
    requires c.p > 0
  {
    Affine(
      Quot(c.p, Cross(p.x, p.y, q.x, q.y), 1 + Delta(c, p, q)),
      Quot(c.p, Dot(c.a, p.x, p.y, q.x, q.y), 1 - Delta(c, p, q)))
  }

  function Negate(c: Curve, p: Affine): Affine
    requires c.p > 0
  {
    Affine(Reduce(c.p, -p.x), p.y)
  }

  // ----- Completeness

  lemma SmallUnits(m: int)
    requires IsPrime(m)
    ensures !Cong(m, 1, 0)
    ensures m != 2 ==> !Cong(m, 2, 0)
  {
    if Cong(m, 1, 0) {
      CongCanonical(m, 1, 0);
    }
    if m != 2 && Cong(m, 2, 0) {
      CongCanonical(m, 2, 0);
    }
  }

  lemma SquareQuotient(m: int, d: int, u: int, v: int)
    requires IsPrime(m) && !Cong(m, u, 0) && Cong(m, v * v, d * (u * u))
    ensures IsSquare(m, d)
  {
    hide Reduce, Cong, IsPrime, IsSquare;
    var i := UnitInverse(m, u);
    var w := v * i;
    Interchange(v, i, v, i);
    Interchange(u, i, u, i);
    CongScale(m, i * i, v * v, d * (u * u));
    assert (d * (u * u)) * (i * i) == d * ((u * i) * (u * i)) by {
      MulRegroup(d, u * u, i * i);
    }
    CongMul(m, u * i, 1, u * i, 1);
    CongScale(m, d, (u * i) * (u * i), 1);
    CongTrans(m, w * w, d * ((u * i) * (u * i)), d);
    SquareIntro(m, w, d);
  }

  /** If delta = e = 1/e then the second norm, scaled, is the first. */
  lemma NormTransfer(m: int, d: int, s1: int, s2: int, n1: int, n2: int, e: int)
    requires e * e == 1 && Cong(m, d * (s1 * s2), e)
    requires Cong(m, n1, 1 + d * (s1 * s1)) && Cong(m, n2, 1 + d * (s2 * s2))
    ensures Cong(m, (d * (s1 * s1)) * n2, n1)
  {
    hide Reduce, Cong;
    var u1, delta := d * (s1 * s1), d * (s1 * s2);
    CongScale(m, u1, n2, 1 + d * (s2 * s2));
    ScaledInterchange(d, s1, s1, s2, s2);
    CongMul(m, delta, e, delta, e);
    CongRefl(m, u1);
    CongAdd(m, u1, u1, delta * delta, 1);
    CongTrans(m, u1 * n2, u1 + delta * delta, 1 + u1);
    CongSym(m, n1, 1 + u1);
    CongTrans(m, u1 * n2, 1 + u1, n1);
  }

  /** The two squares compared in the completeness proof; e and f are signs. */
  lemma CompanionSquares(m: int, a: int, d: int, alpha: int, x1: int, y1: int, x2: int, y2: int, e: int, f: int)
    requires Cong(m, alpha * alpha, a) && e * e == 1 && f * f == 1
    requires Cong(m, d * ((x1 * y1) * (x2 * y2)), e)
    requires Cong(m, Norm(a, x1, y1), 1 + d * ((x1 * y1) * (x1 * y1)))
    requires Cong(m, Norm(a, x2, y2), 1 + d * ((x2 * y2) * (x2 * y2)))
    ensures Cong(m, (alpha * x1 + (f * e) * y1) * (alpha * x1 + (f * e) * y1),
                 d * (((x1 * y1) * (alpha * x2 + f * y2)) * ((x1 * y1) * (alpha * x2 + f * y2))))
  {
    hide Norm, Cong;
    var s1, s2 := x1 * y1, x2 * y2;
    var v, w := alpha * x1 + (f * e) * y1, alpha * x2 + f * y2;
    var n1, n2 := Norm(a, x1, y1), Norm(a, x2, y2);
    NormTransfer(m, d, s1, s2, n1, n2, e);
    Interchange(f, e, f, e);
    ExpandSquare(m, a, alpha, x1, y1, f * e);
    ExpandSquare(m, a, alpha, x2, y2, f);
    CompareSquares(m, d, alpha, s1, s2, n1, n2, e, f, v * v, w * w);
    Interchange(s1, w, s1, w);
    MulRegroup(d, s1 * s1, w * w);
  }

  lemma CompareSquares(m: int, d: int, alpha: int, s1: int, s2: int, n1: int, n2: int, e: int, f: int, vv: int, ww: int)
    requires Cong(m, d * (s1 * s2), e) && Cong(m, (d * (s1 * s1)) * n2, n1)
    requires Cong(m, vv, n1 + 2 * ((f * e) * (alpha * s1)))
    requires Cong(m, ww, n2 + 2 * (f * (alpha * s2)))
    ensures Cong(m, vv, (d * (s1 * s1)) * ww)
  {
    hide Reduce, Cong;
    var u1, delta, g, h := d * (s1 * s1), d * (s1 * s2), f * (alpha * s1), f * (alpha * s2);
    CrossFactor(d, s1, s2, f, alpha);
    CongScale(m, g, delta, e);
    CongAdd(m, u1 * n2, n1, u1 * h, g * e);
    CongAdd(m, u1 * n2 + u1 * h, n1 + g * e, u1 * h, g * e);
    CongScale(m, u1, ww, n2 + 2 * h);
    AddTwice(u1, n2, h);
    CongTrans(m, u1 * ww, u1 * n2 + u1 * h + u1 * h, n1 + g * e + g * e);
    MulRegroup(f, e, alpha * s1);
    CongSym(m, u1 * ww, n1 + g * e + g * e);
    CongTrans(m, vv, n1 + g * e + g * e, u1 * ww);
  }

  lemma AddTwice(u: int, n: int, h: int)
    ensures u * (n + 2 * h) == u * n + u * h + u * h
  {
  }

  lemma CrossFactor(d: int, s1: int, s2: int, f: int, alpha: int)
    ensures (d * (s1 * s1)) * (f * (alpha * s2)) == (f * (alpha * s1)) * (d * (s1 * s2))
  {
    Interchange(d, s1 * s1, f, alpha * s2);
    Interchange(f, alpha * s1, d, s1 * s2);
    Interchange(s1, s1, alpha, s2);
    Interchange(alpha, s1, s1, s2);
  }

  lemma ExpandSquare(m: int, a: int, alpha: int, x: int, y: int, g: int)
    requires Cong(m, alpha * alpha, a) && g * g == 1
    ensures Cong(m, (alpha * x + g * y) * (alpha * x + g * y), Norm(a, x, y) + 2 * (g * (alpha * (x * y))))
  {
    hide Product;
    Products();
    Foil(alpha * x, g * y, alpha * x, g * y);
    Interchange(alpha, x, alpha, x);
    Interchange(g, y, g, y);
    Interchange(alpha, x, g, y);
    assert (alpha * x) * (g * y) == g * (alpha * (x * y)) by {
      MulRegroup(alpha, g, x * y);
    }
    var rest := y * y + 2 * (g * (alpha * (x * y)));
    CongScale(m, x * x, alpha * alpha, a);
    CongRefl(m, rest);
    CongAdd(m, (alpha * alpha) * (x * x), a * (x * x), rest, rest);
  }

  /** The product d*x1*x2*y1*y2 of two solutions of the curve equation is never 1 or -1. */
  lemma DeltaNotUnit(c: Curve, p: Affine, q: Affine, e: int)
    requires Complete(c) && CurveEquation(c, p) && CurveEquation(c, q) && (e == 1 || e == -1)
    ensures !Cong(c.p, Delta(c, p, q), e)
  {
    hide Product;
    Products();
    var m, s1, s2 := c.p, p.x * p.y, q.x * q.y;
    if Cong(m, Delta(c, p, q), e) {
      var alpha := SquareElim(m, c.a);
      if Cong(m, s1, 0) {
        DeltaZero(m, c.d, s1, s2, e);
      }
      var wPlus, wMinus := alpha * q.x + 1 * q.y, alpha * q.x + -1 * q.y;
      CompanionSquares(m, c.a, c.d, alpha, p.x, p.y, q.x, q.y, e, 1);
      CompanionSquares(m, c.a, c.d, alpha, p.x, p.y, q.x, q.y, e, -1);
      if !Cong(m, s1 * wPlus, 0) {
        SquareQuotient(m, c.d, s1 * wPlus, alpha * p.x + (1 * e) * p.y);
      } else if !Cong(m, s1 * wMinus, 0) {
        SquareQuotient(m, c.d, s1 * wMinus, alpha * p.x + (-1 * e) * p.y);
      } else {
        PrimeProduct(m, s1, wPlus);
        PrimeProduct(m, s1, wMinus);
        CongAdd(m, wPlus, 0, wMinus, 0);
        SmallUnits(m);
        PrimeProduct(m, 2, q.y);
        CongScale(m, q.x, q.y, 0);
        assert s1 * s2 == s2 * s1;
        DeltaZero(m, c.d, s2, s1, e);
      }
    }
  }

  lemma DeltaZero(m: int, d: int, s: int, t: int, e: int)
    requires IsPrime(m) && Cong(m, s, 0) && (e == 1 || e == -1)
    ensures !Cong(m, d * (s * t), e)
  {
    if Cong(m, d * (s * t), e) {
      CongScale(m, t, s, 0);
      CongScale(m, d, s * t, 0);
      CongSym(m, d * (s * t), e);
      CongTrans(m, e, d * (s * t), 0);
      CongScale(m, e, e, 0);
      SmallUnits(m);
    }
  }

  /** Completeness: no pair of solutions makes a denominator vanish. */
  lemma DenominatorsInvertible(c: Curve, p: Affine, q: Affine)
    requires Complete(c) && CurveEquation(c, p) && CurveEquation(c, q)
    ensures !Cong(c.p, 1 + Delta(c, p, q), 0)
    ensures !Cong(c.p, 1 - Delta(c, p, q), 0)
  {
    var m, delta := c.p, Delta(c, p, q);
    DeltaNotUnit(c, p, q, -1);
    DeltaNotUnit(c, p, q, 1);
    CongRefl(m, 1);
    CongRefl(m, delta);
    if Cong(m, 1 + delta, 0) {
      CongAdd(m, 1 + delta, 0, 1, 1);
    }
    if Cong(m, 1 - delta, 0) {
      CongAdd(m, 1 - delta, 0, delta, delta);
      CongSym(m, 1, delta);
    }
  }
}
