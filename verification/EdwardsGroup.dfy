/** The affine points of a complete twisted Edwards curve form a commutative group. */
module EdwardsGroup {
  import opened Modular
  import opened EdwardsAlgebra
  import opened EdwardsCurve

  // ----- The sum as a relation

  /** r satisfies the two defining equations of p + q. */
  ghost predicate IsSum(c: Curve, p: Affine, q: Affine, r: Affine) {
    && Cong(c.p, Product(r.x, 1 + Delta(c, p, q)), Cross(p.x, p.y, q.x, q.y))
    && Cong(c.p, Product(r.y, 1 - Delta(c, p, q)), Dot(c.a, p.x, p.y, q.x, q.y))
  }

  lemma AddIsSum(c: Curve, p: Affine, q: Affine)
    requires Complete(c) && CurveEquation(c, p) && CurveEquation(c, q)
    ensures IsSum(c, p, q, Add(c, p, q))
    ensures 0 <= Add(c, p, q).x < c.p && 0 <= Add(c, p, q).y < c.p
  {
    hide Product;
    Products();
    DenominatorsInvertible(c, p, q);
    QuotCorrect(c.p, Cross(p.x, p.y, q.x, q.y), 1 + Delta(c, p, q));
    QuotCorrect(c.p, Dot(c.a, p.x, p.y, q.x, q.y), 1 - Delta(c, p, q));
  }

  lemma SumUnique(c: Curve, p: Affine, q: Affine, r: Affine)
    requires Complete(c) && CurveEquation(c, p) && CurveEquation(c, q) && IsSum(c, p, q, r)
    requires 0 <= r.x < c.p && 0 <= r.y < c.p
    ensures r == Add(c, p, q)
  {
    hide Product;
    Products();
    DenominatorsInvertible(c, p, q);
    QuotUnique(c.p, r.x, Cross(p.x, p.y, q.x, q.y), 1 + Delta(c, p, q));
    QuotUnique(c.p, r.y, Dot(c.a, p.x, p.y, q.x, q.y), 1 - Delta(c, p, q));
  }

  /** The curve and its law, written out. */
  lemma WrittenLaw(c: Curve, p: Affine, q: Affine)
    requires Complete(c)
    ensures OnCurve(c, p) <==>
      && 0 <= p.x < c.p && 0 <= p.y < c.p
      && (c.a * (p.x * p.x) + p.y * p.y) % c.p == (1 + c.d * ((p.x * p.x) * (p.y * p.y))) % c.p
    ensures OnCurve(c, p) && OnCurve(c, q) ==>
      var r, delta := Add(c, p, q), c.d * ((p.x * q.x) * (p.y * q.y));
      && 0 <= r.x < c.p && 0 <= r.y < c.p
      && (r.x * (1 + delta)) % c.p == (p.x * q.y + p.y * q.x) % c.p
      && (r.y * (1 - delta)) % c.p == (p.y * q.y - c.a * (p.x * q.x)) % c.p
  {
    hide Product, Cong, IsPrime, IsSquare, Add;
    Products();
    var x, y, r, delta := p.x, p.y, Add(c, p, q), c.d * ((p.x * q.x) * (p.y * q.y));
    EdwardsAlgebra.Square(x, y);
    ModIffCong(c.p, c.a * (x * x) + y * y, 1 + c.d * ((x * x) * (y * y)));
    if OnCurve(c, p) && OnCurve(c, q) {
      AddIsSum(c, p, q);
      Interchange(p.x, p.y, q.x, q.y);
      ModIffCong(c.p, r.x * (1 + delta), p.x * q.y + p.y * q.x);
      ModIffCong(c.p, r.y * (1 - delta), p.y * q.y - c.a * (p.x * q.x));
    }
  }

  // ----- Translation leaves differences unchanged

  lemma ResidualCong(m: int, u1: int, u2: int, u3: int, w: int, n1: int, n2: int, n3: int)
    requires u1 * u3 == w * w
    requires Cong(m, n1, 1 + u1) && Cong(m, n2, 1 + u2) && Cong(m, n3, 1 + u3)
    ensures Cong(m, Residual(u1, u2, u3, w, n1, n2, n3), 0)
  {
    hide Reduce, Cong;
    CongScale(m, 1 + w * u2, n2, 1 + u2);
    CongScale(m, 1 + w, n2 * (1 + w * u2), (1 + u2) * (1 + w * u2));
    CongMul(m, n1, 1 + u1, n3, 1 + u3);
    CongScale(m, u2, n1 * n3, (1 + u1) * (1 + u3));
    CongMul(m, n2, 1 + u2, n2, 1 + u2);
    CongScale(m, w, n2 * n2, (1 + u2) * (1 + u2));
    var k := (1 - u1 * u2) * (1 - u3 * u2);
    CongRefl(m, k);
    CongAdd(m, n2 * (1 + w * u2) * (1 + w), (1 + u2) * (1 + w * u2) * (1 + w),
      u2 * (n1 * n3), u2 * ((1 + u1) * (1 + u3)));
    CongAdd(m, n2 * (1 + w * u2) * (1 + w) - u2 * (n1 * n3),
      (1 + u2) * (1 + w * u2) * (1 + w) - u2 * ((1 + u1) * (1 + u3)),
      k, k);
    CongAdd(m, n2 * (1 + w * u2) * (1 + w) - u2 * (n1 * n3) - k,
      (1 + u2) * (1 + w * u2) * (1 + w) - u2 * ((1 + u1) * (1 + u3)) - k,
      w * (n2 * n2), w * ((1 + u2) * (1 + u2)));
    ResidualVanishes(u1, u2, u3, w);
  }

  /** Left and Right of the associativity identity agree on curve points. */
  lemma LeftCongRight(c: Curve, p: Affine, q: Affine, r: Affine)
    requires CurveEquation(c, p) && CurveEquation(c, q) && CurveEquation(c, r)
    ensures Cong(c.p,
              Left(c.a, c.d, p.x * p.y, q.x * q.y, r.x * r.y, Twist(c.a, q.x, q.y), Norm(c.a, q.x, q.y),
                   Cross(p.x, p.y, r.x, r.y), Dot(c.a, p.x, p.y, r.x, r.y)),
              Right(c.d, p.x * p.y, q.x * q.y, r.x * r.y,
                    Twist(c.a, p.x, p.y), Twist(c.a, q.x, q.y), Twist(c.a, r.x, r.y)))
  {
    hide Product, Reduce, Cong, Left, Right, Residual, Norm, Twist, Cross, Dot;
    Products();
    var m, s1, s2, s3 := c.p, p.x * p.y, q.x * q.y, r.x * r.y;
    var t1, t2, t3 := Twist(c.a, p.x, p.y), Twist(c.a, q.x, q.y), Twist(c.a, r.x, r.y);
    var n1, n2, n3 := Norm(c.a, p.x, p.y), Norm(c.a, q.x, q.y), Norm(c.a, r.x, r.y);
    var l, n := Cross(p.x, p.y, r.x, r.y), Dot(c.a, p.x, p.y, r.x, r.y);
    CrossDot(c.a, p.x, p.y, r.x, r.y);
    CrossSquared(c.a, p.x, p.y, r.x, r.y);
    TwistSquared(c.a, q.x, q.y);
    LeftMinusRight(c.a, c.d, s1, s2, s3, t1, t2, t3, n1, n2, n3, l, n);
    ScaledInterchange(c.d, s1, s1, s3, s3);
    var left, right := Left(c.a, c.d, s1, s2, s3, t2, n2, l, n), Right(c.d, s1, s2, s3, t1, t2, t3);
    ResidualCong(m, c.d * (s1 * s1), c.d * (s2 * s2), c.d * (s3 * s3), c.d * (s1 * s3), n1, n2, n3);
    CongRefl(m, right);
    CongAdd(m, left - right, 0, right, right);
  }

  /** The numerator of the translated difference, times 1 + d*s1*s3, is the numerator of the difference times Left. */
  lemma TranslatedNumerator(c: Curve, p: Affine, q: Affine, r: Affine, dots: int, crosses: int)
    requires CurveEquation(c, p) && CurveEquation(c, q) && CurveEquation(c, r)
    requires dots == Dot(c.a, p.x, p.y, q.x, q.y) * Dot(c.a, r.x, r.y, q.x, q.y)
    requires crosses == c.a * (Cross(p.x, p.y, q.x, q.y) * Cross(r.x, r.y, q.x, q.y))
    ensures Cong(c.p,
              (dots * ((1 + Delta(c, p, q)) * (1 + Delta(c, r, q)))
                + crosses * ((1 - Delta(c, p, q)) * (1 - Delta(c, r, q))))
                * (1 + Delta(c, p, r)),
              Codot(c.a, p.x, p.y, r.x, r.y)
                * Left(c.a, c.d, p.x * p.y, q.x * q.y, r.x * r.y, Twist(c.a, q.x, q.y), Norm(c.a, q.x, q.y),
                       Cross(p.x, p.y, r.x, r.y), Dot(c.a, p.x, p.y, r.x, r.y)))
  {
    hide Product, Reduce, Cong, Norm, Twist, Cross, Dot, Codot;
    Products();
    var m, a, d, s1, s2, s3 := c.p, c.a, c.d, p.x * p.y, q.x * q.y, r.x * r.y;
    var l, n, k := Cross(p.x, p.y, r.x, r.y), Dot(a, p.x, p.y, r.x, r.y), Codot(a, p.x, p.y, r.x, r.y);
    var t2, n2 := Twist(a, q.x, q.y), Norm(a, q.x, q.y);
    var n1, n3 := Norm(a, p.x, p.y), Norm(a, r.x, r.y);
    var del1, del3, w := Delta(c, p, q), Delta(c, r, q), Delta(c, p, r);
    DotProducts(a, p.x, p.y, q.x, q.y, r.x, r.y);
    CrossCodot(a, p.x, p.y, r.x, r.y);
    SplitSum(dots, crosses, del1, del3);
    var diff := n * t2 - 2 * (a * (s2 * l));
    // (del1 + del3) * (1 + w) = d * s2 * (s1*(1 + d*s3^2) + s3*(1 + d*s1^2)),
    // which the norms turn into d * s2 * (l * k)
    DeltaSum(d, s1, s2, s3);
    CongScale(m, s1, n3, 1 + d * (s3 * s3));
    CongScale(m, s3, n1, 1 + d * (s1 * s1));
    CongAdd(m, s1 * n3, s1 * (1 + d * (s3 * s3)), s3 * n1, s3 * (1 + d * (s1 * s1)));
    CongSym(m, l * k, s1 * (1 + d * (s3 * s3)) + s3 * (1 + d * (s1 * s1)));
    CongScale(m, d * s2, s1 * (1 + d * (s3 * s3)) + s3 * (1 + d * (s1 * s1)), l * k);
    CongScale(m, diff, (del1 + del3) * (1 + w), (d * s2) * (l * k));
    var head := (k * n2) * (1 + del1 * del3);
    CongRefl(m, head * (1 + w));
    CongAdd(m, head * (1 + w), head * (1 + w), diff * ((del1 + del3) * (1 + w)), diff * ((d * s2) * (l * k)));
    FactorCodot(n2, del1 * del3, w, diff, d, s2, l, k, del1 + del3);
  }

  lemma SplitSum(u: int, v: int, e: int, f: int)
    ensures u * ((1 + e) * (1 + f)) + v * ((1 - e) * (1 - f)) == (u + v) * (1 + e * f) + (u - v) * (e + f)
  {
  }

  lemma DeltaSum(d: int, s1: int, s2: int, s3: int)
    ensures (d * (s1 * s2) + d * (s3 * s2)) * (1 + d * (s1 * s3))
      == (d * s2) * (s1 * (1 + d * (s3 * s3)) + s3 * (1 + d * (s1 * s1)))
  {
    var w := d * (s1 * s3);
    assert d * (s1 * s2) + d * (s3 * s2) == (d * s2) * (s1 + s3);
    assert s1 * w == s3 * (d * (s1 * s1)) && s3 * w == s1 * (d * (s3 * s3)) by {
      MulRegroup(s1, d, s1 * s3);
      MulRegroup(s1, s1, s3);
      MulRegroup(s3, d, s1 * s1);
      MulRegroup(s3, d, s1 * s3);
      MulRegroup(s3, s1, s3);
      MulRegroup(s1, d, s3 * s3);
    }
    Foil(s1, s3, 1, w);
    MulRegroup(d * s2, s1 + s3, 1 + w);
  }

  lemma FactorCodot(n2: int, del13: int, w: int, diff: int, d: int, s2: int, l: int, k: int, sum: int)
    ensures ((k * n2) * (1 + del13) + diff * sum) * (1 + w)
      == ((k * n2) * (1 + del13)) * (1 + w) + diff * (sum * (1 + w))
    ensures ((k * n2) * (1 + del13)) * (1 + w) + diff * ((d * s2) * (l * k))
      == k * ((n2 * (1 + del13)) * (1 + w) + diff * (d * (s2 * l)))
  {
  }

  /** Codot(A, C) and 1 + d*sA*sC with the four denominators of A and C cleared. */
  lemma ClearDenominators(m: int, a: int, d: int, xA: int, yA: int, xC: int, yC: int, e: int, f: int,
                          nx1: int, ny1: int, nx3: int, ny3: int)
    requires Cong(m, xA * (1 + e), nx1) && Cong(m, yA * (1 - e), ny1)
    requires Cong(m, xC * (1 + f), nx3) && Cong(m, yC * (1 - f), ny3)
    ensures Cong(m, Codot(a, xA, yA, xC, yC) * ((1 - e * e) * (1 - f * f)),
              (ny1 * ny3) * ((1 + e) * (1 + f)) + (a * (nx1 * nx3)) * ((1 - e) * (1 - f)))
    ensures Cong(m, (1 + d * ((xA * yA) * (xC * yC))) * ((1 - e * e) * (1 - f * f)),
              (1 - e * e) * (1 - f * f) + d * ((nx1 * ny1) * (nx3 * ny3)))
  {
    hide Product, Reduce, Cong;
    Products();
    var j, k := (1 + e) * (1 + f), (1 - e) * (1 - f);
    var all := (1 - e * e) * (1 - f * f);
    Interchange(1 + e, 1 + f, 1 - e, 1 - f);
    Foil(1, e, 1, e);
    Foil(1, f, 1, f);
    assert j * k == all;

    CongMul(m, yA * (1 - e), ny1, yC * (1 - f), ny3);
    CongMul(m, xA * (1 + e), nx1, xC * (1 + f), nx3);
    Interchange(yA, 1 - e, yC, 1 - f);
    Interchange(xA, 1 + e, xC, 1 + f);
    CongScale(m, j, (yA * yC) * k, ny1 * ny3);
    CongScale(m, a, (xA * xC) * j, nx1 * nx3);
    CongScale(m, k, a * ((xA * xC) * j), a * (nx1 * nx3));
    CongAdd(m, ((yA * yC) * k) * j, (ny1 * ny3) * j, (a * ((xA * xC) * j)) * k, (a * (nx1 * nx3)) * k);
    CodotTimes(a, yA * yC, xA * xC, j, k);

    CongMul(m, xA * (1 + e), nx1, yA * (1 - e), ny1);
    CongMul(m, xC * (1 + f), nx3, yC * (1 - f), ny3);
    Interchange(xA, 1 + e, yA, 1 - e);
    Interchange(xC, 1 + f, yC, 1 - f);
    CongMul(m, (xA * yA) * (1 - e * e), nx1 * ny1, (xC * yC) * (1 - f * f), nx3 * ny3);
    Interchange(xA * yA, 1 - e * e, xC * yC, 1 - f * f);
    CongScale(m, d, ((xA * yA) * (xC * yC)) * all, (nx1 * ny1) * (nx3 * ny3));
    CongRefl(m, all);
    CongAdd(m, all, all, d * (((xA * yA) * (xC * yC)) * all), d * ((nx1 * ny1) * (nx3 * ny3)));
    OnePlusTimes(d, (xA * yA) * (xC * yC), all);
  }

  lemma CodotTimes(a: int, yy: int, xx: int, j: int, k: int)
    ensures (yy + a * xx) * (j * k) == (yy * k) * j + (a * (xx * j)) * k
  {
  }

  lemma OnePlusTimes(d: int, s: int, all: int)
    ensures (1 + d * s) * all == all + d * (s * all)
  {
  }

  /** The y-coordinates of (r + q) - (p + q) and of r - p agree, as an equation without denominators. */
  lemma DifferenceY(c: Curve, p: Affine, q: Affine, r: Affine, pq: Affine, rq: Affine)
    requires Complete(c) && CurveEquation(c, p) && CurveEquation(c, q) && CurveEquation(c, r)
    requires IsSum(c, p, q, pq) && IsSum(c, r, q, rq)
    ensures Cong(c.p, Codot(c.a, pq.x, pq.y, rq.x, rq.y) * (1 + Delta(c, p, r)),
                      Codot(c.a, p.x, p.y, r.x, r.y) * (1 + Delta(c, pq, rq)))
  {
    hide Product, Reduce, Cong, Norm, Twist, Cross, Dot, Codot, Left, CurveEquation, Complete;
    Products();
    var m, a, d, s1, s2, s3 := c.p, c.a, c.d, p.x * p.y, q.x * q.y, r.x * r.y;
    var e, f, w := Delta(c, p, q), Delta(c, r, q), Delta(c, p, r);
    var nx1, ny1 := Cross(p.x, p.y, q.x, q.y), Dot(a, p.x, p.y, q.x, q.y);
    var nx3, ny3 := Cross(r.x, r.y, q.x, q.y), Dot(a, r.x, r.y, q.x, q.y);
    var t1, t2, t3 := Twist(a, p.x, p.y), Twist(a, q.x, q.y), Twist(a, r.x, r.y);
    var k, kq := Codot(a, p.x, p.y, r.x, r.y), Codot(a, pq.x, pq.y, rq.x, rq.y);
    var left := Left(a, d, s1, s2, s3, t2, Norm(a, q.x, q.y), Cross(p.x, p.y, r.x, r.y), Dot(a, p.x, p.y, r.x, r.y));
    var right := Right(d, s1, s2, s3, t1, t2, t3);
    var all := (1 - e * e) * (1 - f * f);
    var num := (ny1 * ny3) * ((1 + e) * (1 + f)) + (a * (nx1 * nx3)) * ((1 - e) * (1 - f));
    ClearDenominators(m, a, d, pq.x, pq.y, rq.x, rq.y, e, f, nx1, ny1, nx3, ny3);
    CrossDot(a, p.x, p.y, q.x, q.y);
    CrossDot(a, r.x, r.y, q.x, q.y);
    TranslatedNumerator(c, p, q, r, ny1 * ny3, a * (nx1 * nx3));
    LeftCongRight(c, p, q, r);
    // kq * all * (1 + w) = num * (1 + w) = k * left = k * right = k * (1 + d*s*s) * all
    CongScale(m, 1 + w, kq * all, num);
    CongTrans(m, (kq * all) * (1 + w), num * (1 + w), k * left);
    CongScale(m, k, left, right);
    CongTrans(m, (kq * all) * (1 + w), k * left, k * right);
    CongScale(m, k, (1 + Delta(c, pq, rq)) * all, right);
    CongSym(m, k * ((1 + Delta(c, pq, rq)) * all), k * right);
    CongTrans(m, (kq * all) * (1 + w), k * right, k * ((1 + Delta(c, pq, rq)) * all));
    MulRegroup(all, kq, 1 + w);
    MulRegroup(k, all, 1 + Delta(c, pq, rq));
    AllInvertible(c, p, q, r);
    PrimeCancel(m, all, kq * (1 + w), k * (1 + Delta(c, pq, rq)));
  }

  lemma AllInvertible(c: Curve, p: Affine, q: Affine, r: Affine)
    requires Complete(c) && CurveEquation(c, p) && CurveEquation(c, q) && CurveEquation(c, r)
    ensures IsPrime(c.p)
    ensures !Cong(c.p, (1 - Delta(c, p, q) * Delta(c, p, q)) * (1 - Delta(c, r, q) * Delta(c, r, q)), 0)
  {
    hide Reduce, Cong, CurveEquation, IsPrime, IsSquare;
    var m, e, f := c.p, Delta(c, p, q), Delta(c, r, q);
    DenominatorsInvertible(c, p, q);
    DenominatorsInvertible(c, r, q);
    Foil(1, e, 1, e);
    Foil(1, f, 1, f);
    PrimeProduct(m, 1 + e, 1 - e);
    PrimeProduct(m, 1 + f, 1 - f);
    PrimeProduct(m, 1 - e * e, 1 - f * f);
  }

  // ----- Closure

  /** Translating a point by q and comparing it with itself shows that p + q satisfies the curve equation. */
  lemma SumOnCurve(c: Curve, p: Affine, q: Affine, pq: Affine)
    requires Complete(c) && CurveEquation(c, p) && CurveEquation(c, q) && IsSum(c, p, q, pq)
    ensures CurveEquation(c, pq)
  {
    hide Product;
    Products();
    var m, s, sq := c.p, p.x * p.y, pq.x * pq.y;
    var n, nq := Norm(c.a, p.x, p.y), Norm(c.a, pq.x, pq.y);
    DifferenceY(c, p, q, p, pq, pq);
    DenominatorsInvertible(c, p, p);
    assert n == Codot(c.a, p.x, p.y, p.x, p.y) && nq == Codot(c.a, pq.x, pq.y, pq.x, pq.y);
    CancelNorm(m, n, nq, c.d * (s * s), c.d * (sq * sq));
  }

  lemma CancelNorm(m: int, n: int, nq: int, u: int, uq: int)
    requires IsPrime(m) && !Cong(m, 1 + u, 0)
    requires Cong(m, n, 1 + u) && Cong(m, nq * (1 + u), n * (1 + uq))
    ensures Cong(m, nq, 1 + uq)
  {
    hide Reduce, Cong, IsPrime;
    CongScale(m, 1 + uq, n, 1 + u);
    CongTrans(m, nq * (1 + u), n * (1 + uq), (1 + u) * (1 + uq));
    assert nq * (1 + u) == (1 + u) * nq;
    PrimeCancel(m, 1 + u, nq, 1 + uq);
  }

  /** The sum of two curve points is a curve point. */
  lemma Closure(c: Curve, p: Affine, q: Affine)
    requires Complete(c) && OnCurve(c, p) && OnCurve(c, q)
    ensures OnCurve(c, Add(c, p, q))
  {
    AddIsSum(c, p, q);
    SumOnCurve(c, p, q, Add(c, p, q));
  }

  // ----- Commutativity, neutral element, inverses

  lemma Commutative(c: Curve, p: Affine, q: Affine)
    requires c.p > 0
    ensures Add(c, p, q) == Add(c, q, p)
  {
    hide Product;
    Products();
    assert Delta(c, p, q) == Delta(c, q, p);
    assert Cross(p.x, p.y, q.x, q.y) == Cross(q.x, q.y, p.x, p.y);
    assert Dot(c.a, p.x, p.y, q.x, q.y) == Dot(c.a, q.x, q.y, p.x, p.y);
  }

  lemma NeutralOnCurve(c: Curve)
    requires Complete(c)
    ensures OnCurve(c, Neutral)
  {
    CongRefl(c.p, 1);
  }

  lemma NeutralRight(c: Curve, p: Affine)
    requires Complete(c) && OnCurve(c, p)
    ensures Add(c, p, Neutral) == p
  {
    NeutralOnCurve(c);
    assert Delta(c, p, Neutral) == 0;
    CongRefl(c.p, p.x);
    CongRefl(c.p, p.y);
    SumUnique(c, p, Neutral, p);
  }

  lemma NegateCong(c: Curve, p: Affine)
    requires c.p > 0
    ensures Cong(c.p, Negate(c, p).x, -p.x) && 0 <= Negate(c, p).x < c.p
  {
    CongReduce(c.p, -p.x);
  }

  lemma NegateOnCurve(c: Curve, p: Affine)
    requires c.p > 0 && OnCurve(c, p)
    ensures OnCurve(c, Negate(c, p))
  {
    NegateCong(c, p);
    MirrorEquation(c, p);
    ReplaceX(c, Affine(-p.x, p.y), Negate(c, p).x);
  }

  lemma MirrorEquation(c: Curve, p: Affine)
    requires CurveEquation(c, p)
    ensures CurveEquation(c, Affine(-p.x, p.y))
  {
    hide Product, Reduce, Cong;
    Products();
    assert (-p.x) * (-p.x) == p.x * p.x;
    assert (-p.x) * p.y == -(p.x * p.y);
    assert -(p.x * p.y) * -(p.x * p.y) == (p.x * p.y) * (p.x * p.y);
  }

  /** The curve equation depends on the class of x only. */
  lemma ReplaceX(c: Curve, p: Affine, x: int)
    requires Cong(c.p, x, p.x) && CurveEquation(c, p)
    ensures CurveEquation(c, Affine(x, p.y))
  {
    hide Product, Reduce, Cong;
    Products();
    var m, y := c.p, p.y;
    CongMul(m, x, p.x, x, p.x);
    CongScale(m, c.a, x * x, p.x * p.x);
    CongRefl(m, y * y);
    CongAdd(m, y * y, y * y, c.a * (x * x), c.a * (p.x * p.x));
    CongScale(m, y * y, x * x, p.x * p.x);
    Square(x, y);
    Square(p.x, y);
    CongScale(m, c.d, (x * y) * (x * y), (p.x * y) * (p.x * y));
    CongRefl(m, 1);
    CongAdd(m, 1, 1, c.d * ((x * y) * (x * y)), c.d * ((p.x * y) * (p.x * y)));
    CongSym(m, 1 + c.d * ((x * y) * (x * y)), 1 + c.d * ((p.x * y) * (p.x * y)));
    CongTrans(m, Norm(c.a, x, y), Norm(c.a, p.x, y), 1 + c.d * ((p.x * y) * (p.x * y)));
    CongTrans(m, Norm(c.a, x, y), 1 + c.d * ((p.x * y) * (p.x * y)), 1 + c.d * ((x * y) * (x * y)));
  }

  lemma NegateNegate(c: Curve, p: Affine)
    requires c.p > 0 && OnCurve(c, p)
    ensures Negate(c, Negate(c, p)) == p
  {
    var m, x' := c.p, Negate(c, p).x;
    NegateCong(c, p);
    NegateCong(c, Negate(c, p));
    CongScale(m, -1, x', -p.x);
    CongTrans(m, Negate(c, Negate(c, p)).x, -x', p.x);
    CongCanonical(m, Negate(c, Negate(c, p)).x, p.x);
  }

  // ----- Differences

  /** d is the difference r - p, stated on p itself instead of its negation. */
  ghost predicate IsDifference(c: Curve, p: Affine, r: Affine, d: Affine) {
    && Cong(c.p, Product(d.x, 1 - Delta(c, p, r)), Product(p.y, r.x) - Product(p.x, r.y))
    && Cong(c.p, Product(d.y, 1 + Delta(c, p, r)), Codot(c.a, p.x, p.y, r.x, r.y))
  }

  lemma DifferenceIsSum(c: Curve, p: Affine, r: Affine, d: Affine)
    requires c.p > 0
    ensures IsDifference(c, p, r, d) <==> IsSum(c, Negate(c, p), r, d)
  {
    hide Product, Reduce, Cong;
    Products();
    var m, p' := c.p, Negate(c, p);
    var delta, delta' := Delta(c, p, r), Delta(c, p', r);
    NegateCong(c, p);
    NegatedFactors(m, c.d, p.x, p.y, p'.x, r.x * r.y);
    CongScale(m, d.x, 1 + delta', 1 - delta);
    CongScale(m, d.y, 1 - delta', 1 + delta);
    NegatedNumerators(m, c.a, p.x, p.y, p'.x, r.x, r.y);
    CongIff(m, d.x * (1 + delta'), d.x * (1 - delta), Cross(p'.x, p'.y, r.x, r.y), p.y * r.x - p.x * r.y);
    CongIff(m, d.y * (1 - delta'), d.y * (1 + delta), Dot(c.a, p'.x, p'.y, r.x, r.y), Codot(c.a, p.x, p.y, r.x, r.y));
  }

  /** Negating x changes the sign of the product d*x*y*s. */
  lemma NegatedFactors(m: int, d: int, x: int, y: int, x': int, s: int)
    requires Cong(m, x', -x)
    ensures Cong(m, 1 + d * ((x' * y) * s), 1 - d * ((x * y) * s))
    ensures Cong(m, 1 - d * ((x' * y) * s), 1 + d * ((x * y) * s))
  {
    hide Reduce, Cong;
    CongScale(m, y, x', -x);
    CongScale(m, s, x' * y, -x * y);
    CongScale(m, d, (x' * y) * s, (-x * y) * s);
    NegatedDelta(d, x, y, s);
    CongRefl(m, 1);
    CongAdd(m, 1, 1, d * ((x' * y) * s), -(d * ((x * y) * s)));
  }

  /** It turns the numerators of the sum into those of the difference. */
  lemma NegatedNumerators(m: int, a: int, x: int, y: int, x': int, u: int, v: int)
    requires Cong(m, x', -x)
    ensures Cong(m, Cross(x', y, u, v), y * u - x * v)
    ensures Cong(m, Dot(a, x', y, u, v), Codot(a, x, y, u, v))
  {
    hide Product, Reduce, Cong;
    Products();
    CongScale(m, v, x', -x);
    CongRefl(m, y * u);
    CongAdd(m, x' * v, -x * v, y * u, y * u);
    CongScale(m, u, x', -x);
    CongScale(m, a, x' * u, -x * u);
    CongRefl(m, y * v);
    CongAdd(m, y * v, y * v, a * (x' * u), a * (-x * u));
    assert a * (-x * u) == -(a * (x * u));
  }

  lemma NegatedDelta(d: int, x: int, y: int, s: int)
    ensures d * ((-x * y) * s) == -(d * ((x * y) * s))
  {
  }

  // ----- Rotation by the point of order four (1/alpha, 0), which exchanges the two coordinates

  function Rotate(alpha: int, beta: int, p: Affine): Affine {
    Affine(beta * p.y, -(alpha * p.x))
  }

  /** alpha is a root of a and beta its inverse. */
  ghost predicate IsRotation(c: Curve, alpha: int, beta: int) {
    && Cong(c.p, alpha * alpha, c.a)
    && Cong(c.p, alpha * beta, 1)
    && Cong(c.p, c.a * beta, alpha)
  }

  lemma RotationExists(c: Curve) returns (alpha: int, beta: int)
    requires Complete(c)
    ensures IsRotation(c, alpha, beta) && !Cong(c.p, alpha, 0)
  {
    var m := c.p;
    alpha := SquareElim(m, c.a);
    CongSym(m, alpha * alpha, c.a);
    if Cong(m, alpha, 0) {
      CongScale(m, alpha, alpha, 0);
      CongTrans(m, c.a, alpha * alpha, 0);
    }
    beta := UnitInverse(m, alpha);
    CongScale(m, beta, c.a, alpha * alpha);
    MulRegroup(alpha, alpha, beta);
    CongScale(m, alpha, alpha * beta, 1);
    CongTrans(m, c.a * beta, alpha * (alpha * beta), alpha);
  }

  lemma RotateProduct(c: Curve, alpha: int, beta: int, p: Affine)
    requires IsRotation(c, alpha, beta)
    ensures Cong(c.p, Rotate(alpha, beta, p).x * Rotate(alpha, beta, p).y, -(p.x * p.y))
  {
    hide Reduce, Cong;
    assert (beta * p.y) * -(alpha * p.x) == -((alpha * beta) * (p.x * p.y)) by {
      Interchange(beta, p.y, alpha, p.x);
      assert (beta * alpha) * (p.y * p.x) == (alpha * beta) * (p.x * p.y);
    }
    CongScale(c.p, -(p.x * p.y), alpha * beta, 1);
    assert -(p.x * p.y) * (alpha * beta) == -((alpha * beta) * (p.x * p.y));
  }

  lemma RotateDelta(c: Curve, alpha: int, beta: int, p: Affine, q: Affine)
    requires IsRotation(c, alpha, beta)
    ensures Cong(c.p, Delta(c, Rotate(alpha, beta, p), q), -Delta(c, p, q))
  {
    hide Product, Reduce, Cong, IsRotation;
    Products();
    var p', s := Rotate(alpha, beta, p), q.x * q.y;
    RotateProduct(c, alpha, beta, p);
    CongScale(c.p, s, p'.x * p'.y, -(p.x * p.y));
    CongScale(c.p, c.d, (p'.x * p'.y) * s, -(p.x * p.y) * s);
    NegatedDelta(c.d, p.x, p.y, s);
    assert -(p.x * p.y) == -p.x * p.y;
  }

  lemma RotateEquation(c: Curve, alpha: int, beta: int, p: Affine)
    requires IsRotation(c, alpha, beta) && CurveEquation(c, p)
    ensures CurveEquation(c, Rotate(alpha, beta, p))
  {
    hide Product;
    Products();
    var m, p', s := c.p, Rotate(alpha, beta, p), p.x * p.y;
    RotateNorm(m, c.a, alpha, beta, p.x, p.y);
    RotateProduct(c, alpha, beta, p);
    RightSide(m, c.d, p'.x * p'.y, s);
    CongSym(m, 1 + c.d * ((p'.x * p'.y) * (p'.x * p'.y)), 1 + c.d * (s * s));
    CongTrans(m, Norm(c.a, p'.x, p'.y), Norm(c.a, p.x, p.y), 1 + c.d * (s * s));
    CongTrans(m, Norm(c.a, p'.x, p'.y), 1 + c.d * (s * s), 1 + c.d * ((p'.x * p'.y) * (p'.x * p'.y)));
  }

  lemma RightSide(m: int, d: int, s': int, s: int)
    requires Cong(m, s', -s)
    ensures Cong(m, 1 + d * (s' * s'), 1 + d * (s * s))
  {
    CongMul(m, s', -s, s', -s);
    assert (-s) * (-s) == s * s;
    CongScale(m, d, s' * s', s * s);
    CongRefl(m, 1);
    CongAdd(m, 1, 1, d * (s' * s'), d * (s * s));
  }

  lemma RotateNorm(m: int, a: int, alpha: int, beta: int, x: int, y: int)
    requires Cong(m, alpha * alpha, a) && Cong(m, a * beta, alpha) && Cong(m, alpha * beta, 1)
    ensures Cong(m, Norm(a, beta * y, -(alpha * x)), Norm(a, x, y))
  {
    hide Product, Reduce, Cong;
    Products();
    Interchange(beta, y, beta, y);
    Interchange(alpha, x, alpha, x);
    assert -(alpha * x) * -(alpha * x) == (alpha * x) * (alpha * x);
    CongScale(m, x * x, alpha * alpha, a);
    CongScale(m, beta, a * beta, alpha);
    assert beta * (a * beta) == a * (beta * beta) by { MulRegroup(beta, a, beta); }
    assert beta * alpha == alpha * beta;
    CongTrans(m, a * (beta * beta), alpha * beta, 1);
    CongScale(m, y * y, a * (beta * beta), 1);
    MulRegroup(a, beta * beta, y * y);
    CongAdd(m, (alpha * alpha) * (x * x), a * (x * x), (a * (beta * beta)) * (y * y), y * y);
  }

  /** Rotating p rotates p + q. */
  lemma RotateSum(c: Curve, alpha: int, beta: int, p: Affine, q: Affine, pq: Affine)
    requires IsRotation(c, alpha, beta) && IsSum(c, p, q, pq)
    ensures IsSum(c, Rotate(alpha, beta, p), q, Rotate(alpha, beta, pq))
  {
    hide Product, Reduce, Cong, Delta;
    Products();
    var m, p', delta, delta' := c.p, Rotate(alpha, beta, p), Delta(c, p, q), Delta(c, Rotate(alpha, beta, p), q);
    var cross, dot := Cross(p.x, p.y, q.x, q.y), Dot(c.a, p.x, p.y, q.x, q.y);
    RotateDelta(c, alpha, beta, p, q);
    CongRefl(m, 1);
    CongAdd(m, 1, 1, delta', -delta);

    CongScale(m, beta * pq.y, 1 + delta', 1 - delta);
    CongScale(m, beta, pq.y * (1 - delta), dot);
    MulRegroup(beta, pq.y, 1 - delta);
    CongTrans(m, (beta * pq.y) * (1 + delta'), (beta * pq.y) * (1 - delta), beta * dot);
    RotateNumerators(m, c.a, alpha, beta, p, q);
    CongSym(m, Cross(p'.x, p'.y, q.x, q.y), beta * dot);
    CongTrans(m, (beta * pq.y) * (1 + delta'), beta * dot, Cross(p'.x, p'.y, q.x, q.y));

    CongScale(m, -(alpha * pq.x), 1 - delta', 1 + delta);
    CongScale(m, -alpha, pq.x * (1 + delta), cross);
    MulRegroup(-alpha, pq.x, 1 + delta);
    assert -(alpha * pq.x) == -alpha * pq.x;
    CongTrans(m, -(alpha * pq.x) * (1 - delta'), -(alpha * pq.x) * (1 + delta), -alpha * cross);
    CongSym(m, Dot(c.a, p'.x, p'.y, q.x, q.y), -alpha * cross);
    CongTrans(m, -(alpha * pq.x) * (1 - delta'), -alpha * cross, Dot(c.a, p'.x, p'.y, q.x, q.y));
  }

  lemma RotateNumerators(m: int, a: int, alpha: int, beta: int, p: Affine, q: Affine)
    requires Cong(m, a * beta, alpha)
    ensures var p' := Rotate(alpha, beta, p);
      && Cong(m, Cross(p'.x, p'.y, q.x, q.y), beta * Dot(a, p.x, p.y, q.x, q.y))
      && Cong(m, Dot(a, p'.x, p'.y, q.x, q.y), -alpha * Cross(p.x, p.y, q.x, q.y))
      && Cong(m, Codot(a, p'.x, p'.y, q.x, q.y), alpha * (p.y * q.x - p.x * q.y))
  {
    hide Product, Reduce, Cong;
    Products();
    var xx, xy, yx, yy := p.x * q.x, p.x * q.y, p.y * q.x, p.y * q.y;
    MulRegroup(beta, p.y, q.y);
    MulRegroup(beta, p.y, q.x);
    MulRegroup(alpha, p.x, q.x);
    MulRegroup(alpha, p.x, q.y);
    MulRegroup(beta, a, xx);
    MulRegroup(a, beta, yx);
    assert -(alpha * p.x) * q.x == -(alpha * xx) && -(alpha * p.x) * q.y == -(alpha * xy);
    CongSym(m, a * beta, alpha);
    CongScale(m, xx, alpha, a * beta);
    CongScale(m, yx, a * beta, alpha);
    CongRefl(m, beta * yy);
    CongAdd(m, beta * yy, beta * yy, alpha * xx, (a * beta) * xx);
    CongRefl(m, -(alpha * xy));
    CongAdd(m, -(alpha * xy), -(alpha * xy), (a * beta) * yx, alpha * yx);
    assert beta * (yy - a * xx) == beta * yy - (a * beta) * xx;
    assert -alpha * (xy + yx) == -(alpha * xy) - alpha * yx;
    assert alpha * (yx - xy) == alpha * yx - alpha * xy;
  }

  /** The x-coordinates of (r + q) - (p + q) and of r - p agree. */
  lemma DifferenceX(c: Curve, p: Affine, q: Affine, r: Affine, pq: Affine, rq: Affine)
    requires Complete(c) && CurveEquation(c, p) && CurveEquation(c, q) && CurveEquation(c, r)
    requires IsSum(c, p, q, pq) && IsSum(c, r, q, rq)
    ensures Cong(c.p, (pq.y * rq.x - pq.x * rq.y) * (1 - Delta(c, p, r)),
                      (p.y * r.x - p.x * r.y) * (1 - Delta(c, pq, rq)))
  {
    hide Product, Reduce, Cong, Codot, Delta, CurveEquation, IsSum, IsPrime, IsSquare;
    Products();
    var m := c.p;
    var alpha, beta := RotationExists(c);
    var p', pq' := Rotate(alpha, beta, p), Rotate(alpha, beta, pq);
    RotateEquation(c, alpha, beta, p);
    RotateSum(c, alpha, beta, p, q, pq);
    DifferenceY(c, p', q, r, pq', rq);
    RotateNumerators(m, c.a, alpha, beta, p, r);
    RotateNumerators(m, c.a, alpha, beta, pq, rq);
    RotateDelta(c, alpha, beta, p, r);
    RotateDelta(c, alpha, beta, pq, rq);
    CongRefl(m, 1);
    CongAdd(m, 1, 1, Delta(c, p', r), -Delta(c, p, r));
    CongAdd(m, 1, 1, Delta(c, pq', rq), -Delta(c, pq, rq));
    CancelRotation(m, alpha, pq.y * rq.x - pq.x * rq.y, p.y * r.x - p.x * r.y, 1 - Delta(c, p, r), 1 - Delta(c, pq, rq),
      Codot(c.a, pq'.x, pq'.y, rq.x, rq.y), Codot(c.a, p'.x, p'.y, r.x, r.y),
      1 + Delta(c, p', r), 1 + Delta(c, pq', rq));
  }

  lemma CancelRotation(m: int, alpha: int, kq: int, k: int, e: int, eq: int, rkq: int, rk: int, re: int, req: int)
    requires IsPrime(m) && !Cong(m, alpha, 0) && Cong(m, rkq * re, rk * req)
    requires Cong(m, rkq, alpha * kq) && Cong(m, rk, alpha * k) && Cong(m, re, e) && Cong(m, req, eq)
    ensures Cong(m, kq * e, k * eq)
  {
    hide Reduce, Cong, IsPrime;
    CongMul(m, rkq, alpha * kq, re, e);
    CongMul(m, rk, alpha * k, req, eq);
    CongIff(m, rkq * re, (alpha * kq) * e, rk * req, (alpha * k) * eq);
    MulRegroup(alpha, kq, e);
    MulRegroup(alpha, k, eq);
    PrimeCancel(m, alpha, kq * e, k * eq);
  }

  // ----- Associativity

  /** Translating both points by q does not change their difference. */
  lemma DifferenceInvariant(c: Curve, p: Affine, q: Affine, r: Affine, d: Affine)
    requires Complete(c) && CurveEquation(c, p) && CurveEquation(c, q) && CurveEquation(c, r)
    requires IsDifference(c, p, r, d)
    ensures IsDifference(c, Add(c, p, q), Add(c, r, q), d)
  {
    hide Product, Reduce, Cong, Codot, Delta, CurveEquation, IsPrime, IsSquare, Add;
    Products();
    var m, pq, rq := c.p, Add(c, p, q), Add(c, r, q);
    AddIsSum(c, p, q);
    AddIsSum(c, r, q);
    DifferenceX(c, p, q, r, pq, rq);
    DifferenceY(c, p, q, r, pq, rq);
    DenominatorsInvertible(c, p, r);
    TransferQuotient(m, d.x, 1 - Delta(c, p, r), 1 - Delta(c, pq, rq),
      p.y * r.x - p.x * r.y, pq.y * rq.x - pq.x * rq.y);
    TransferQuotient(m, d.y, 1 + Delta(c, p, r), 1 + Delta(c, pq, rq),
      Codot(c.a, p.x, p.y, r.x, r.y), Codot(c.a, pq.x, pq.y, rq.x, rq.y));
  }

  lemma TransferQuotient(m: int, q: int, den: int, den': int, num: int, num': int)
    requires IsPrime(m) && !Cong(m, den, 0)
    requires Cong(m, q * den, num) && Cong(m, num' * den, num * den')
    ensures Cong(m, q * den', num')
  {
    hide Reduce, Cong, IsPrime;
    CongScale(m, den', q * den, num);
    CongSym(m, num' * den, num * den');
    CongTrans(m, (q * den) * den', num * den', num' * den);
    MulRegroup(den, q, den');
    assert num' * den == den * num';
    PrimeCancel(m, den, q * den', num');
  }

  /** (p + q) - p = q and its consequences: subtraction undoes addition. */
  lemma SubtractAdd(c: Curve, p: Affine, q: Affine)
    requires Complete(c) && OnCurve(c, p) && OnCurve(c, q)
    ensures Add(c, Negate(c, p), Add(c, p, q)) == q
  {
    hide Reduce, Cong, IsPrime, IsSquare, Add, Negate, CurveEquation;
    NeutralOnCurve(c);
    NegateOnCurve(c, p);
    Closure(c, p, q);
    // q - O = q, translated by p
    NeutralDifference(c, q);
    DifferenceInvariant(c, Neutral, p, q, q);
    Commutative(c, Neutral, p);
    NeutralRight(c, p);
    Commutative(c, q, p);
    DifferenceIsSum(c, p, Add(c, p, q), q);
    SumUnique(c, Negate(c, p), Add(c, p, q), q);
  }

  lemma NeutralDifference(c: Curve, q: Affine)
    ensures IsDifference(c, Neutral, q, q)
  {
    hide Product;
    Products();
    assert Delta(c, Neutral, q) == 0;
    CongRefl(c.p, q.x);
    CongRefl(c.p, q.y);
  }

  lemma InverseRight(c: Curve, p: Affine)
    requires Complete(c) && OnCurve(c, p)
    ensures Add(c, p, Negate(c, p)) == Neutral
  {
    NeutralOnCurve(c);
    SubtractAdd(c, p, Neutral);
    NeutralRight(c, p);
    Commutative(c, Negate(c, p), p);
  }

  /** The addition law is associative. */
  lemma Associative(c: Curve, p: Affine, q: Affine, r: Affine)
    requires Complete(c) && OnCurve(c, p) && OnCurve(c, q) && OnCurve(c, r)
    ensures Add(c, Add(c, p, q), r) == Add(c, p, Add(c, q, r))
  {
    hide Reduce, Cong, IsPrime, IsSquare, Add, Negate, CurveEquation;
    var pq, qr := Add(c, p, q), Add(c, q, r);
    var sum := Add(c, p, qr);
    NegateOnCurve(c, q);
    NegateOnCurve(c, r);
    Closure(c, p, q);
    Closure(c, q, r);
    Closure(c, p, qr);
    // p - (-q) = p + q; translating both points by q + r gives (p + (q + r)) - r = p + q
    NegateNegate(c, q);
    Commutative(c, p, q);
    AddIsSum(c, q, p);
    DifferenceIsSum(c, Negate(c, q), p, pq);
    DifferenceInvariant(c, Negate(c, q), qr, p, pq);
    SubtractAdd(c, q, r);
    DifferenceIsSum(c, r, sum, pq);
    SumUnique(c, Negate(c, r), sum, pq);
    // add r on both sides
    SubtractAdd(c, Negate(c, r), sum);
    NegateNegate(c, r);
    Commutative(c, pq, r);
  }
}
