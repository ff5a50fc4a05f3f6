/** Integer multiples of a curve point, and what follows from a point having prime order. */
module Multiples {
  import opened Modular
  import opened EdwardsAlgebra
  import opened EdwardsCurve
  import opened EdwardsGroup
  import F = Field

  /** [n]P by repeated addition. */
  ghost function Times(c: Curve, n: nat, p: Affine): (r: Affine)
    requires c.p > 0
    ensures r.x >= 0 && r.y >= 0
  {
    if n == 0 then Neutral else Add(c, Times(c, n - 1, p), p)
  }

  lemma {:induction false} TimesOnCurve(c: Curve, n: nat, p: Affine)
    requires Complete(c) && OnCurve(c, p)
    ensures OnCurve(c, Times(c, n, p))
  {
    if n == 0 {
      NeutralOnCurve(c);
    } else {
      TimesOnCurve(c, n - 1, p);
      Closure(c, Times(c, n - 1, p), p);
    }
  }

  lemma TimesOne(c: Curve, p: Affine)
    requires Complete(c) && OnCurve(c, p)
    ensures Times(c, 1, p) == p
  {
    NeutralOnCurve(c);
    Commutative(c, Neutral, p);
    NeutralRight(c, p);
  }

  lemma TimesTwo(c: Curve, p: Affine)
    requires Complete(c) && OnCurve(c, p)
    ensures Times(c, 2, p) == Add(c, p, p)
  {
    TimesOne(c, p);
  }

  /** [m + n]P = [m]P + [n]P. */
  lemma {:induction false} TimesAdd(c: Curve, m: nat, n: nat, p: Affine)
    requires Complete(c) && OnCurve(c, p)
    ensures Times(c, m + n, p) == Add(c, Times(c, m, p), Times(c, n, p))
    decreases n
  {
    hide Add, OnCurve, Complete;
    TimesOnCurve(c, m, p);
    if n == 0 {
      NeutralRight(c, Times(c, m, p));
    } else {
      TimesAdd(c, m, n - 1, p);
      TimesOnCurve(c, n - 1, p);
      Associative(c, Times(c, m, p), Times(c, n - 1, p), p);
    }
  }

  /** [m*n]P = [m]([n]P). */
  lemma {:induction false} TimesTimes(c: Curve, m: nat, n: nat, p: Affine)
    requires Complete(c) && OnCurve(c, p)
    ensures Product(n, m) >= 0
    ensures Times(c, Product(n, m), p) == Times(c, m, Times(c, n, p))
    decreases m
  {
    hide Add, OnCurve, Complete;
    if m != 0 {
      TimesTimes(c, m - 1, n, p);
      TimesAdd(c, Product(n, m - 1), n, p);
    }
  }

  lemma TimesFour(c: Curve, n: nat, p: Affine)
    requires Complete(c) && OnCurve(c, p)
    ensures Times(c, 4 * n, p) == Times(c, 4, Times(c, n, p))
  {
    hide Add, OnCurve, Complete, Product;
    Products();
    TimesTimes(c, 4, n, p);
  }

  /** [n](P + Q) = [n]P + [n]Q. */
  lemma {:induction false} TimesSum(c: Curve, n: nat, p: Affine, q: Affine)
    requires Complete(c) && OnCurve(c, p) && OnCurve(c, q)
    ensures Times(c, n, Add(c, p, q)) == Add(c, Times(c, n, p), Times(c, n, q))
  {
    hide Add, OnCurve, Complete;
    if n == 0 {
      NeutralOnCurve(c);
      NeutralRight(c, Neutral);
    } else {
      TimesSum(c, n - 1, p, q);
      TimesOnCurve(c, n - 1, p);
      TimesOnCurve(c, n - 1, q);
      ExchangeSums(c, Times(c, n - 1, p), Times(c, n - 1, q), p, q);
    }
  }

  /** (P + Q) + (R + S) = (P + R) + (Q + S). */
  lemma ExchangeSums(c: Curve, p: Affine, q: Affine, r: Affine, s: Affine)
    requires Complete(c) && OnCurve(c, p) && OnCurve(c, q) && OnCurve(c, r) && OnCurve(c, s)
    ensures Add(c, Add(c, p, q), Add(c, r, s)) == Add(c, Add(c, p, r), Add(c, q, s))
  {
    hide Add, OnCurve, Complete;
    Closure(c, r, s);
    Closure(c, q, s);
    Associative(c, p, q, Add(c, r, s));
    Associative(c, q, r, s);
    Commutative(c, q, r);
    Associative(c, r, q, s);
    Associative(c, p, r, Add(c, q, s));
  }

  lemma {:induction false} TimesNeutral(c: Curve, n: nat)
    requires Complete(c)
    ensures Times(c, n, Neutral) == Neutral
  {
    hide Add, OnCurve, IsPrime, IsSquare, Cong;
    if n != 0 {
      TimesNeutral(c, n - 1);
      NeutralOnCurve(c);
      NeutralRight(c, Neutral);
    }
  }

  /** P + Q = P + R implies Q = R. */
  lemma CancelLeft(c: Curve, p: Affine, q: Affine, r: Affine)
    requires Complete(c) && OnCurve(c, p) && OnCurve(c, q) && OnCurve(c, r)
    requires Add(c, p, q) == Add(c, p, r)
    ensures q == r
  {
    SubtractAdd(c, p, q);
    SubtractAdd(c, p, r);
  }

  // ----- Points of small order

  /** Doubling gives the neutral element for the points with x = 0 only, (0, 1) and (0, -1). */
  lemma TwoTorsion(c: Curve, p: Affine)
    requires Complete(c) && OnCurve(c, p)
    ensures Add(c, p, p) == Neutral <==> p.x == 0
  {
    hide Add, CurveEquation, IsPrime, IsSquare, Cong, Reduce;
    var p' := Negate(c, p);
    NegateOnCurve(c, p);
    InverseRight(c, p);
    NegateCong(c, p);
    if Add(c, p, p) == Neutral {
      CancelLeft(c, p, p, p');
      DoubleZero(c.p, p.x);
    }
    SmallReduce(c.p, 0);
  }

  lemma DoubleZero(m: nat, x: int)
    requires IsPrime(m) && m > 2 && 0 <= x < m && Cong(m, x, -x)
    ensures x == 0
  {
    hide IsPrime, Cong;
    CongRefl(m, x);
    CongAdd(m, x, -x, x, x);
    SmallUnits(m);
    PrimeProduct(m, 2, x);
    CongCanonical(m, x, 0);
  }

  /** The points of order dividing four are those with a zero coordinate. */
  lemma FourTorsion(c: Curve, p: Affine)
    requires Complete(c) && OnCurve(c, p)
    ensures Times(c, 4, p) == Neutral <==> p.x == 0 || p.y == 0
  {
    hide Add, OnCurve, IsPrime, IsSquare, Cong, Times;
    Closure(c, p, p);
    TimesTimes(c, 2, 2, p);
    ProductIsMul(2, 2);
    TimesTwo(c, p);
    TimesTwo(c, Add(c, p, p));
    TwoTorsion(c, Add(c, p, p));
    DoubleX(c, p);
  }

  lemma DoubleX(c: Curve, p: Affine)
    requires Complete(c) && OnCurve(c, p)
    ensures Add(c, p, p).x == 0 <==> p.x == 0 || p.y == 0
  {
    hide Product, Add, IsPrime, IsSquare, Cong, CurveEquation;
    Products();
    var m, den, x := c.p, 1 + Delta(c, p, p), Add(c, p, p).x;
    AddIsSum(c, p, p);
    DenominatorsInvertible(c, p, p);
    F.ElementZero(m, x);
    F.ElementZero(m, p.x);
    F.ElementZero(m, p.y);
    // x * den = 2 * (p.x * p.y)
    SmallUnits(m);
    PrimeProduct(m, x, den);
    PrimeProduct(m, 2, p.x * p.y);
    PrimeProduct(m, p.x, p.y);
    assert Cross(p.x, p.y, p.x, p.y) == 2 * (p.x * p.y) by {
      assert p.y * p.x == p.x * p.y;
    }
    CongRefl(m, 0);
    CongIff(m, x * den, 2 * (p.x * p.y), 0, 0);
  }

  /** They are four: (0, 1), (0, -1) and the two points (b, 0) with a*b^2 = 1. */
  lemma AxisPoints(c: Curve) returns (b: int)
    requires Complete(c)
    ensures 0 < b < c.p && b != c.p - b && c.p - 1 != 1
    ensures forall p :: OnCurve(c, p) && (p.x == 0 || p.y == 0) <==>
      p == Neutral || p == Affine(0, c.p - 1) || p == Affine(b, 0) || p == Affine(c.p - b, 0)
  {
    var m := c.p;
    var alpha, beta := RotationExists(c);
    b := beta % m;
    AxisRoot(m, c.a, alpha, beta);
    hide Product, IsPrime, IsSquare, Cong, Reduce;
    Products();
    forall y | 0 <= y < m ensures OnCurve(c, Affine(0, y)) <==> y == 1 || y == m - 1 {
      SquareRoots(m, y, 1);
    }
    forall x | 0 <= x < m ensures OnCurve(c, Affine(x, 0)) <==> x == b || x == m - b {
      if Cong(m, c.a * (x * x), 1) {
        CongSym(m, c.a * (b * b), 1);
        CongTrans(m, c.a * (x * x), 1, c.a * (b * b));
        PrimeCancel(m, c.a, x * x, b * b);
      }
      SquareRoots(m, x, b);
      if Cong(m, x * x, b * b) {
        CongScale(m, c.a, x * x, b * b);
        CongTrans(m, c.a * (x * x), c.a * (b * b), 1);
      }
    }
  }

  lemma AxisRoot(m: int, a: int, alpha: int, beta: int)
    requires IsPrime(m) && m > 2 && Cong(m, alpha * beta, 1) && Cong(m, a * beta, alpha)
    ensures var b := beta % m; 0 < b < m && b != m - b && Cong(m, a * (b * b), 1)
  {
    hide IsPrime, Cong;
    var b := beta % m;
    CongMod(m, beta);
    CongMul(m, b, beta, b, beta);
    CongScale(m, a, b * b, beta * beta);
    CongScale(m, beta, a * beta, alpha);
    MulRegroup(a, beta, beta);
    CongTrans(m, a * (b * b), a * (beta * beta), alpha * beta);
    CongTrans(m, a * (b * b), alpha * beta, 1);
    SmallUnits(m);
    if b == 0 {
      CongSym(m, 0, 1);
    }
    if b == m - b {
      CongIntro(m, b, -b, 1);
      DoubleZero(m, b);
    }
  }

  /** (S - K) + K = S. */
  lemma CenterPlus(c: Curve, sb: Affine, ka: Affine)
    requires Complete(c) && OnCurve(c, sb) && OnCurve(c, ka)
    ensures OnCurve(c, Add(c, sb, Negate(c, ka)))
    ensures Add(c, Add(c, sb, Negate(c, ka)), ka) == sb
  {
    hide IsPrime, IsSquare, OnCurve, Add, Negate;
    NegateOnCurve(c, ka);
    Closure(c, sb, Negate(c, ka));
    Commutative(c, sb, Negate(c, ka));
    SubtractAdd(c, Negate(c, ka), sb);
    NegateNegate(c, ka);
    Commutative(c, ka, Add(c, sb, Negate(c, ka)));
  }

  /** If C + K = S then [4]S = [4](C + T) + [4]K exactly when [4]T = O. */
  lemma EquationAround(c: Curve, sb: Affine, ka: Affine, center: Affine, t: Affine)
    requires Complete(c) && OnCurve(c, sb) && OnCurve(c, ka) && OnCurve(c, center) && OnCurve(c, t)
    requires Add(c, center, ka) == sb
    ensures Times(c, 4, sb) == Add(c, Times(c, 4, Add(c, center, t)), Times(c, 4, ka)) <==> Times(c, 4, t) == Neutral
  {
    hide IsPrime, IsSquare, OnCurve, Add, Times;
    var center4, t4, ka4 := Times(c, 4, center), Times(c, 4, t), Times(c, 4, ka);
    TimesSum(c, 4, center, ka);
    TimesSum(c, 4, center, t);
    TimesOnCurve(c, 4, center);
    TimesOnCurve(c, 4, t);
    TimesOnCurve(c, 4, ka);
    Closure(c, center4, t4);
    NeutralOnCurve(c);
    NeutralRight(c, center4);
    Commutative(c, center4, ka4);
    Commutative(c, Add(c, center4, t4), ka4);
    if Add(c, ka4, center4) == Add(c, ka4, Add(c, center4, t4)) {
      CancelLeft(c, ka4, center4, Add(c, center4, t4));
      CancelLeft(c, center4, t4, Neutral);
    }
  }

  // ----- Points of prime order

  /** [order]P is the neutral element. */
  ghost predicate InSubgroup(c: Curve, order: nat, p: Affine)
    requires c.p > 0
  {
    Times(c, order, p) == Neutral
  }

  /** Multiples of a subgroup point depend on the multiplier modulo the order only. */
  lemma TimesReduced(c: Curve, order: nat, n: nat, p: Affine)
    requires Complete(c) && OnCurve(c, p) && order > 0 && InSubgroup(c, order, p)
    ensures Times(c, n, p) == Times(c, Reduce(order, n), p)
  {
    hide Add, OnCurve, Complete, Reduce;
    var q, r := n / order, Reduce(order, n);
    ReduceIsMod(order, n);
    ProductIsMul(order, q);
    assert Product(order, q) + r == n;
    TimesTimes(c, q, order, p);
    TimesAdd(c, Product(order, q), r, p);
    TimesNeutral(c, q);
    TimesOnCurve(c, r, p);
    Commutative(c, Neutral, Times(c, r, p));
    NeutralRight(c, Times(c, r, p));
  }

  lemma MultipleInSubgroup(c: Curve, order: nat, n: nat, p: Affine)
    requires Complete(c) && OnCurve(c, p) && InSubgroup(c, order, p)
    ensures InSubgroup(c, order, Times(c, n, p))
  {
    hide Add, OnCurve, Complete;
    TimesTimes(c, order, n, p);
    TimesTimes(c, n, order, p);
    TimesNeutral(c, n);
    ProductSym(order, n);
  }

  /** A nonneutral point in the subgroup of prime order has exactly that order. */
  lemma ExactOrder(c: Curve, order: nat, n: nat, p: Affine)
    requires Complete(c) && OnCurve(c, p) && IsPrime(order) && InSubgroup(c, order, p) && p != Neutral
    ensures Times(c, n, p) == Neutral <==> Reduce(order, n) == 0
  {
    hide Add, OnCurve, IsSquare, Cong, Reduce;
    TimesReduced(c, order, n, p);
    var r := Reduce(order, n);
    if r != 0 && Times(c, n, p) == Neutral {
      // r has an inverse i modulo the order, so P = [i*r]P would be neutral
      var i := Inverse(order, r);
      InverseCorrect(order, r);
      ReduceIffCong(order, r * i, 1);
      ProductIsMul(r, i);
      TimesTimes(c, i, r, p);
      TimesReduced(c, order, Product(r, i), p);
      TimesNeutral(c, i);
      SmallReduce(order, 1);
      TimesOne(c, p);
    }
  }

  /** Multiples of a point of prime order coincide exactly when the multipliers are congruent. */
  lemma TimesInjective(c: Curve, order: nat, m: nat, n: nat, p: Affine)
    requires Complete(c) && OnCurve(c, p) && IsPrime(order) && InSubgroup(c, order, p) && p != Neutral
    ensures Times(c, m, p) == Times(c, n, p) <==> Reduce(order, m) == Reduce(order, n)
  {
    TimesReduced(c, order, m, p);
    TimesReduced(c, order, n, p);
    hide *;
    if Times(c, m, p) == Times(c, n, p) {
      if m < n {
        TimesSeparate(c, order, n, m, p);
      } else {
        TimesSeparate(c, order, m, n, p);
      }
    }
  }

  lemma TimesSeparate(c: Curve, order: nat, m: nat, n: nat, p: Affine)
    requires Complete(c) && OnCurve(c, p) && IsPrime(order) && InSubgroup(c, order, p) && p != Neutral
    requires n <= m && Times(c, m, p) == Times(c, n, p)
    ensures Reduce(order, m) == Reduce(order, n)
  {
    hide Add, OnCurve, Complete;
    TimesDifference(c, m, n, p);
    ExactOrder(c, order, m - n, p);
    DifferenceMod(order, m, n);
  }

  lemma TimesDifference(c: Curve, m: nat, n: nat, p: Affine)
    requires Complete(c) && OnCurve(c, p) && n <= m && Times(c, m, p) == Times(c, n, p)
    ensures Times(c, m - n, p) == Neutral
  {
    hide Add, OnCurve, Complete;
    TimesAdd(c, n, m - n, p);
    TimesOnCurve(c, n, p);
    TimesOnCurve(c, m - n, p);
    NeutralOnCurve(c);
    NeutralRight(c, Times(c, n, p));
    CancelLeft(c, Times(c, n, p), Times(c, m - n, p), Neutral);
  }

  lemma DifferenceMod(order: nat, m: nat, n: nat)
    requires order > 0 && n <= m && Reduce(order, m - n) == 0
    ensures Reduce(order, m) == Reduce(order, n)
  {
    hide Cong, Reduce;
    CongReduce(order, m - n);
    CongRefl(order, n);
    CongAdd(order, m - n, 0, n, n);
    ReduceIffCong(order, m, n);
  }
}
