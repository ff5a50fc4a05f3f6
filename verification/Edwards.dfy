/** Extended-coordinate points of edwards.rs: the formulas, and their refinement of the affine group law. */
module Edwards {
  import opened Modular
  import opened EdwardsAlgebra
  import opened EdwardsCurve
  import EdwardsGroup
  import F = Field

  /** A point (X : Y : Z : T), with coordinates reduced modulo p. */
  datatype ExtPoint = ExtPoint(x: int, y: int, z: int, t: int)

  const Identity := ExtPoint(0, 1, 1, 0)

  predicate Elements(c: Curve, e: ExtPoint) {
    && F.IsElement(c.p, e.x)
    && F.IsElement(c.p, e.y)
    && F.IsElement(c.p, e.z)
    && F.IsElement(c.p, e.t)
  }

  function FromAffine(c: Curve, x: int, y: int): ExtPoint
    requires c.p > 0
  {
    ExtPoint(x, y, 1, F.Mul(c.p, x, y))
  }

  /** The point whose coordinates are the products of cross, sum, difference and twisted. */
  function Completed(p: nat, cross: int, sum: int, difference: int, twisted: int): ExtPoint
    requires p > 0
  {
    ExtPoint(F.Mul(p, cross, difference), F.Mul(p, sum, twisted), F.Mul(p, difference, sum), F.Mul(p, cross, twisted))
  }

  function AddPoints(c: Curve, l: ExtPoint, r: ExtPoint): ExtPoint
    requires c.p > 0
  {
    var p := c.p;
    var xx := F.Mul(p, l.x, r.x);
    var yy := F.Mul(p, l.y, r.y);
    var dt := F.Mul(p, F.Mul(p, c.d, l.t), r.t);
    var zz := F.Mul(p, l.z, r.z);
    var cross := F.Sub(p, F.Sub(p, F.Mul(p, F.Add(p, l.x, l.y), F.Add(p, r.x, r.y)), xx), yy);
    var difference := F.Sub(p, zz, dt);
    var sum := F.Add(p, zz, dt);
    var twisted := F.Sub(p, yy, F.Mul(p, c.a, xx));
    Completed(p, cross, sum, difference, twisted)
  }

  function Double(c: Curve, e: ExtPoint): ExtPoint
    requires c.p > 0
  {
    var p := c.p;
    var xx := F.Square(p, e.x);
    var yy := F.Square(p, e.y);
    var twoZz := F.Mul(p, 2, F.Square(p, e.z));
    var twistedXx := F.Mul(p, c.a, xx);
    var cross := F.Sub(p, F.Sub(p, F.Square(p, F.Add(p, e.x, e.y)), xx), yy);
    var sum := F.Add(p, twistedXx, yy);
    var difference := F.Sub(p, sum, twoZz);
    var twistedDifference := F.Sub(p, twistedXx, yy);
    Completed(p, cross, sum, difference, twistedDifference)
  }

  function NegatePoint(c: Curve, e: ExtPoint): ExtPoint
    requires c.p > 0
  {
    ExtPoint(F.Neg(c.p, e.x), e.y, e.z, F.Neg(c.p, e.t))
  }

  function MultiplyByCofactor(c: Curve, e: ExtPoint): ExtPoint
    requires c.p > 0
  {
    Double(c, Double(c, e))
  }

  predicate IsIdentity(e: ExtPoint) {
    e.x == 0 && e.y == e.z
  }

  predicate CtEq(c: Curve, l: ExtPoint, r: ExtPoint)
    requires c.p > 0
  {
    F.Mul(c.p, l.x, r.z) == F.Mul(c.p, r.x, l.z) && F.Mul(c.p, l.y, r.z) == F.Mul(c.p, r.y, l.z)
  }

  predicate IsValid(c: Curve, e: ExtPoint)
    requires c.p > 0
  {
    var p := c.p;
    var xx := F.Square(p, e.x);
    var yy := F.Square(p, e.y);
    var zz := F.Square(p, e.z);
    var left := F.Add(p, F.Mul(p, F.Mul(p, c.a, xx), zz), F.Mul(p, yy, zz));
    var right := F.Add(p, F.Square(p, zz), F.Mul(p, F.Mul(p, c.d, xx), yy));
    e.z != 0 && F.Mul(p, e.x, e.y) == F.Mul(p, e.z, e.t) && left == right
  }

  // ----- Meaning: the affine point (X/Z, Y/Z)

  ghost function ToAffine(c: Curve, e: ExtPoint): Affine
    requires c.p > 0
  {
    Affine(Quot(c.p, e.x, e.z), Quot(c.p, e.y, e.z))
  }

  /** X and Y are those of the affine point, scaled by a nonzero Z. */
  ghost predicate DenotesXyz(c: Curve, e: ExtPoint, p: Affine) {
    && Elements(c, e)
    && !Cong(c.p, e.z, 0)
    && Cong(c.p, e.x, Product(p.x, e.z))
    && Cong(c.p, e.y, Product(p.y, e.z))
  }

  /** In addition T is the product of the affine coordinates, scaled by Z. */
  ghost predicate Denotes(c: Curve, e: ExtPoint, p: Affine) {
    DenotesXyz(c, e, p) && Cong(c.p, e.t, Product(Product(p.x, p.y), e.z))
  }

  lemma CompletedDenotes(c: Curve, cross: int, sum: int, difference: int, twisted: int, r: Affine)
    requires IsPrime(c.p) && !Cong(c.p, sum, 0) && !Cong(c.p, difference, 0)
    requires Cong(c.p, cross, r.x * sum) && Cong(c.p, twisted, r.y * difference)
    ensures Denotes(c, Completed(c.p, cross, sum, difference, twisted), r)
  {
    var m, e := c.p, Completed(c.p, cross, sum, difference, twisted);
    hide Product, Reduce, Cong, IsPrime;
    Products();
    CongRefl(m, sum);
    CongRefl(m, difference);
    F.MulCong(m, cross, r.x * sum, difference, difference);
    F.MulCong(m, sum, sum, twisted, r.y * difference);
    F.MulCong(m, difference, difference, sum, sum);
    F.MulCong(m, cross, r.x * sum, twisted, r.y * difference);
    Interchange(r.x, sum, r.y, difference);
    assert sum * difference == difference * sum;
    MulRegroup(r.x, sum, difference);
    MulRegroup(sum, r.y, difference);
    CongSym(m, e.z, difference * sum);
    CongScale(m, r.x, difference * sum, e.z);
    CongScale(m, r.y, difference * sum, e.z);
    CongScale(m, r.x * r.y, difference * sum, e.z);
    CongTrans(m, e.x, r.x * (difference * sum), r.x * e.z);
    CongTrans(m, e.y, r.y * (difference * sum), r.y * e.z);
    CongTrans(m, e.t, (r.x * r.y) * (difference * sum), (r.x * r.y) * e.z);
    PrimeProduct(m, difference, sum);
    if Cong(m, e.z, 0) {
      CongTrans(m, difference * sum, e.z, 0);
    }
  }

  // ----- Addition

  /** The four intermediate values of AddPoints, as multiples of Z1*Z2. */
  lemma AddIntermediates(c: Curve, l: ExtPoint, r: ExtPoint, p: Affine, q: Affine)
    requires c.p > 0 && Denotes(c, l, p) && Denotes(c, r, q)
    ensures var zz := l.z * r.z;
      var xx', yy' := F.Mul(c.p, l.x, r.x), F.Mul(c.p, l.y, r.y);
      var dt', zz' := F.Mul(c.p, F.Mul(c.p, c.d, l.t), r.t), F.Mul(c.p, l.z, r.z);
      && Cong(c.p, F.Sub(c.p, F.Sub(c.p, F.Mul(c.p, F.Add(c.p, l.x, l.y), F.Add(c.p, r.x, r.y)), xx'), yy'),
                   Cross(p.x, p.y, q.x, q.y) * zz)
      && Cong(c.p, F.Sub(c.p, zz', dt'), (1 - Delta(c, p, q)) * zz)
      && Cong(c.p, F.Add(c.p, zz', dt'), (1 + Delta(c, p, q)) * zz)
      && Cong(c.p, F.Sub(c.p, yy', F.Mul(c.p, c.a, xx')), Dot(c.a, p.x, p.y, q.x, q.y) * zz)
  {
    hide Product, Reduce, Cong;
    Products();
    var m, zz := c.p, l.z * r.z;
    var xx', yy' := F.Mul(m, l.x, r.x), F.Mul(m, l.y, r.y);
    var dt', zz' := F.Mul(m, F.Mul(m, c.d, l.t), r.t), F.Mul(m, l.z, r.z);
    CongRefl(m, l.z);
    CongRefl(m, r.z);
    CongRefl(m, c.d);
    CongRefl(m, c.a);
    F.MulCong(m, l.x, p.x * l.z, r.x, q.x * r.z);
    F.MulCong(m, l.y, p.y * l.z, r.y, q.y * r.z);
    F.MulCong(m, l.z, l.z, r.z, r.z);
    F.MulCong(m, c.d, c.d, l.t, (p.x * p.y) * l.z);
    F.MulCong(m, F.Mul(m, c.d, l.t), c.d * ((p.x * p.y) * l.z), r.t, (q.x * q.y) * r.z);
    Interchange(p.x, l.z, q.x, r.z);
    Interchange(p.y, l.z, q.y, r.z);
    ScaleDelta(c.d, p.x * p.y, q.x * q.y, l.z, r.z);
    F.AddCong(m, zz', zz, dt', Delta(c, p, q) * zz);
    F.AddCong(m, l.x, p.x * l.z, l.y, p.y * l.z);
    F.AddCong(m, r.x, q.x * r.z, r.y, q.y * r.z);
    var both := F.Mul(m, F.Add(m, l.x, l.y), F.Add(m, r.x, r.y));
    F.MulCong(m, F.Add(m, l.x, l.y), p.x * l.z + p.y * l.z, F.Add(m, r.x, r.y), q.x * r.z + q.y * r.z);
    F.AddCong(m, both, (p.x * l.z + p.y * l.z) * (q.x * r.z + q.y * r.z), xx', (p.x * q.x) * zz);
    F.AddCong(m, F.Sub(m, both, xx'), (p.x * l.z + p.y * l.z) * (q.x * r.z + q.y * r.z) - (p.x * q.x) * zz,
      yy', (p.y * q.y) * zz);
    ScaleCross(p.x, p.y, q.x, q.y, l.z, r.z);
    F.MulCong(m, c.a, c.a, xx', (p.x * q.x) * zz);
    F.AddCong(m, yy', (p.y * q.y) * zz, F.Mul(m, c.a, xx'), c.a * ((p.x * q.x) * zz));
    ScaleDot(c.a, p.x * q.x, p.y * q.y, zz);
    ScaleUnit(Delta(c, p, q), zz);
  }

  lemma ScaleDelta(d: int, s1: int, s2: int, z1: int, z2: int)
    ensures (d * (s1 * z1)) * (s2 * z2) == (d * (s1 * s2)) * (z1 * z2)
  {
    MulRegroup(d, s1 * z1, s2 * z2);
    Interchange(s1, z1, s2, z2);
    MulRegroup(d, s1 * s2, z1 * z2);
  }

  lemma ScaleCross(x1: int, y1: int, x2: int, y2: int, z1: int, z2: int)
    ensures (x1 * z1 + y1 * z1) * (x2 * z2 + y2 * z2) - (x1 * x2) * (z1 * z2) - (y1 * y2) * (z1 * z2)
      == Cross(x1, y1, x2, y2) * (z1 * z2)
  {
    hide Product;
    Products();
    Foil(x1 * z1, y1 * z1, x2 * z2, y2 * z2);
    Interchange(x1, z1, x2, z2);
    Interchange(x1, z1, y2, z2);
    Interchange(y1, z1, x2, z2);
    Interchange(y1, z1, y2, z2);
    ScaleSum(x1 * y2, y1 * x2, z1 * z2);
  }

  lemma ScaleSum(u: int, v: int, z: int)
    ensures (u + v) * z == u * z + v * z && (u - v) * z == u * z - v * z
  {
  }

  lemma ScaleDot(a: int, xx: int, yy: int, z: int)
    ensures (yy - a * xx) * z == yy * z - a * (xx * z)
    ensures (yy + a * xx) * z == yy * z + a * (xx * z)
  {
    ScaleSum(yy, a * xx, z);
    MulRegroup(a, xx, z);
  }

  lemma ScaleUnit(delta: int, z: int)
    ensures (1 - delta) * z == z - delta * z && (1 + delta) * z == z + delta * z
  {
  }

  /** The inversion-free addition computes the affine sum; no pair of points is exceptional. */
  lemma AddRefines(c: Curve, l: ExtPoint, r: ExtPoint, p: Affine, q: Affine)
    requires Complete(c) && OnCurve(c, p) && OnCurve(c, q) && Denotes(c, l, p) && Denotes(c, r, q)
    ensures Denotes(c, AddPoints(c, l, r), EdwardsCurve.Add(c, p, q))
  {
    hide Product, Reduce, Cong, IsPrime, IsSquare, EdwardsCurve.Add, CurveEquation, Completed;
    Products();
    var m, s, zz := c.p, EdwardsCurve.Add(c, p, q), l.z * r.z;
    EdwardsGroup.AddIsSum(c, p, q);
    DenominatorsInvertible(c, p, q);
    AddIntermediates(c, l, r, p, q);
    PrimeProduct(m, l.z, r.z);
    var xx, yy, z := F.Mul(m, l.x, r.x), F.Mul(m, l.y, r.y), F.Mul(m, l.z, r.z);
    var dt := F.Mul(m, F.Mul(m, c.d, l.t), r.t);
    var cross := F.Sub(m, F.Sub(m, F.Mul(m, F.Add(m, l.x, l.y), F.Add(m, r.x, r.y)), xx), yy);
    FinishSum(c, s, zz, 1 + Delta(c, p, q), 1 - Delta(c, p, q), Cross(p.x, p.y, q.x, q.y), Dot(c.a, p.x, p.y, q.x, q.y),
      cross, F.Add(m, z, dt), F.Sub(m, z, dt), F.Sub(m, yy, F.Mul(m, c.a, xx)));
  }

  /** Shared last step of addition and doubling. */
  lemma FinishSum(c: Curve, s: Affine, zz: int, denX: int, denY: int, numX: int, numY: int,
                  cross: int, sum: int, difference: int, twisted: int)
    requires IsPrime(c.p) && !Cong(c.p, zz, 0) && !Cong(c.p, denX, 0) && !Cong(c.p, denY, 0)
    requires Cong(c.p, s.x * denX, numX) && Cong(c.p, s.y * denY, numY)
    requires Cong(c.p, cross, numX * zz) && Cong(c.p, sum, denX * zz)
    requires Cong(c.p, difference, denY * zz) && Cong(c.p, twisted, numY * zz)
    ensures Denotes(c, Completed(c.p, cross, sum, difference, twisted), s)
  {
    hide Reduce, Cong, IsPrime;
    ScaledQuotient(c.p, s.x, denX, numX, zz, sum, cross);
    ScaledQuotient(c.p, s.y, denY, numY, zz, difference, twisted);
    CompletedDenotes(c, cross, sum, difference, twisted, s);
  }

  lemma ScaledQuotient(m: int, q: int, den: int, num: int, zz: int, den': int, num': int)
    requires IsPrime(m) && !Cong(m, zz, 0) && !Cong(m, den, 0) && Cong(m, q * den, num)
    requires Cong(m, den', den * zz) && Cong(m, num', num * zz)
    ensures Cong(m, num', q * den') && !Cong(m, den', 0)
  {
    hide Reduce, Cong, IsPrime;
    CongSym(m, den', den * zz);
    CongScale(m, q, den * zz, den');
    CongSym(m, q * den, num);
    CongScale(m, zz, num, q * den);
    MulRegroup(q, den, zz);
    CongTrans(m, num', num * zz, q * (den * zz));
    CongTrans(m, num', q * (den * zz), q * den');
    PrimeProduct(m, den, zz);
    if Cong(m, den', 0) {
      CongTrans(m, den * zz, den', 0);
    }
  }

  // ----- Doubling

  lemma DoubleIntermediates(c: Curve, e: ExtPoint, p: Affine)
    requires c.p > 0 && DenotesXyz(c, e, p)
    ensures var zz := e.z * e.z;
      var xx', yy' := F.Square(c.p, e.x), F.Square(c.p, e.y);
      var sum' := F.Add(c.p, F.Mul(c.p, c.a, xx'), yy');
      && Cong(c.p, F.Sub(c.p, F.Sub(c.p, F.Square(c.p, F.Add(c.p, e.x, e.y)), xx'), yy'),
                   Cross(p.x, p.y, p.x, p.y) * zz)
      && Cong(c.p, sum', Norm(c.a, p.x, p.y) * zz)
      && Cong(c.p, F.Sub(c.p, sum', F.Mul(c.p, 2, F.Square(c.p, e.z))), Norm(c.a, p.x, p.y) * zz - 2 * zz)
      && Cong(c.p, F.Sub(c.p, F.Mul(c.p, c.a, xx'), yy'), -Dot(c.a, p.x, p.y, p.x, p.y) * zz)
  {
    hide Product, Reduce, Cong;
    Products();
    var m, zz := c.p, e.z * e.z;
    var xx', yy' := F.Square(m, e.x), F.Square(m, e.y);
    var x, y, z := p.x, p.y, e.z;
    CongRefl(m, z);
    CongRefl(m, 2);
    CongRefl(m, c.a);
    F.MulCong(m, e.x, x * z, e.x, x * z);
    F.MulCong(m, e.y, y * z, e.y, y * z);
    F.MulCong(m, z, z, z, z);
    Interchange(x, z, x, z);
    Interchange(y, z, y, z);
    F.AddCong(m, e.x, x * z, e.y, y * z);
    var both := F.Square(m, F.Add(m, e.x, e.y));
    F.MulCong(m, F.Add(m, e.x, e.y), x * z + y * z, F.Add(m, e.x, e.y), x * z + y * z);
    F.AddCong(m, both, (x * z + y * z) * (x * z + y * z), xx', (x * x) * zz);
    F.AddCong(m, F.Sub(m, both, xx'), (x * z + y * z) * (x * z + y * z) - (x * x) * zz, yy', (y * y) * zz);
    ScaleCross(x, y, x, y, z, z);
    F.MulCong(m, c.a, c.a, xx', (x * x) * zz);
    F.AddCong(m, F.Mul(m, c.a, xx'), c.a * ((x * x) * zz), yy', (y * y) * zz);
    ScaleDot(c.a, x * x, y * y, zz);
    F.MulCong(m, 2, 2, F.Square(m, z), zz);
    F.AddCong(m, F.Add(m, F.Mul(m, c.a, xx'), yy'), Norm(c.a, x, y) * zz, F.Mul(m, 2, F.Square(m, z)), 2 * zz);
    NegateScale(Dot(c.a, x, y, x, y), zz);
  }

  lemma NegateScale(n: int, z: int)
    ensures -n * z == -(n * z)
  {
  }

  /** The dedicated doubling formula, which never reads T, computes the affine sum of a point with itself. */
  lemma DoubleRefines(c: Curve, e: ExtPoint, p: Affine)
    requires Complete(c) && OnCurve(c, p) && DenotesXyz(c, e, p)
    ensures Denotes(c, Double(c, e), EdwardsCurve.Add(c, p, p))
  {
    hide Product, Reduce, Cong, IsPrime, IsSquare, EdwardsCurve.Add, Completed, Norm, Dot, Cross, Delta;
    var m, s, zz, delta := c.p, EdwardsCurve.Add(c, p, p), e.z * e.z, Delta(c, p, p);
    var norm, dot := Norm(c.a, p.x, p.y), Dot(c.a, p.x, p.y, p.x, p.y);
    EdwardsGroup.AddIsSum(c, p, p);
    DenominatorsInvertible(c, p, p);
    DoubleIntermediates(c, e, p);
    PrimeProduct(m, e.z, e.z);
    ProductIsMul(s.x, 1 + delta);
    ProductIsMul(s.y, 1 - delta);
    var xx, yy := F.Square(m, e.x), F.Square(m, e.y);
    var sum := F.Add(m, F.Mul(m, c.a, xx), yy);
    var difference := F.Sub(m, sum, F.Mul(m, 2, F.Square(m, e.z)));
    var cross := F.Sub(m, F.Sub(m, F.Square(m, F.Add(m, e.x, e.y)), xx), yy);
    DoubleDifference(m, norm, delta, zz, sum, difference);
    NegatedQuotient(m, s.y, 1 - delta, dot);
    FinishSum(c, s, zz, 1 + delta, -(1 - delta), Cross(p.x, p.y, p.x, p.y), -dot,
      cross, sum, difference, F.Sub(m, F.Mul(m, c.a, xx), yy));
  }

  /** The norm is 1 + delta, so the difference is (delta - 1) * zz. */
  lemma DoubleDifference(m: int, norm: int, delta: int, zz: int, sum: int, difference: int)
    requires Cong(m, norm, 1 + delta) && Cong(m, sum, norm * zz) && Cong(m, difference, norm * zz - 2 * zz)
    ensures Cong(m, sum, (1 + delta) * zz) && Cong(m, difference, -(1 - delta) * zz)
  {
    hide Cong;
    CongScale(m, zz, norm, 1 + delta);
    CongTrans(m, sum, norm * zz, (1 + delta) * zz);
    CongRefl(m, 2 * zz);
    CongAdd(m, norm * zz, (1 + delta) * zz, 2 * zz, 2 * zz);
    ScaleUnit(delta, zz);
    NegateScale(1 - delta, zz);
    CongTrans(m, difference, norm * zz - 2 * zz, -(1 - delta) * zz);
  }

  lemma NegatedQuotient(m: int, q: int, den: int, num: int)
    requires Cong(m, q * den, num) && !Cong(m, den, 0)
    ensures Cong(m, q * -den, -num) && !Cong(m, -den, 0)
  {
    CongScale(m, -1, q * den, num);
    assert -1 * (q * den) == q * -den;
    if Cong(m, -den, 0) {
      CongScale(m, -1, -den, 0);
    }
  }

  // ----- Negation, identity, equality

  lemma NegateRefines(c: Curve, e: ExtPoint, p: Affine)
    requires c.p > 0 && Denotes(c, e, p)
    ensures Denotes(c, NegatePoint(c, e), EdwardsCurve.Negate(c, p))
  {
    hide Reduce, Cong, Product;
    Products();
    var m, x' := c.p, EdwardsCurve.Negate(c, p).x;
    EdwardsGroup.NegateCong(c, p);
    CongSym(m, x', -p.x);
    NegateCoordinate(m, e.x, p.x, x', e.z);
    CongScale(m, p.y, -p.x, x');
    assert -p.x * p.y == -(p.x * p.y);
    NegateCoordinate(m, e.t, p.x * p.y, x' * p.y, e.z);
  }

  lemma NegateCoordinate(m: nat, u: int, x: int, x': int, z: int)
    requires m > 0 && Cong(m, u, x * z) && Cong(m, -x, x')
    ensures Cong(m, F.Neg(m, u), x' * z)
  {
    hide Reduce, Cong, Product;
    F.NegCong(m, u, x * z);
    CongScale(m, z, -x, x');
    assert -x * z == -(x * z);
    CongTrans(m, F.Neg(m, u), -x * z, x' * z);
  }

  lemma IdentityDenotes(c: Curve)
    requires IsPrime(c.p)
    ensures Denotes(c, Identity, Neutral)
  {
    SmallUnits(c.p);
    CongRefl(c.p, 0);
    CongRefl(c.p, 1);
  }

  lemma FromAffineDenotes(c: Curve, x: int, y: int)
    requires IsPrime(c.p) && F.IsElement(c.p, x) && F.IsElement(c.p, y)
    ensures Denotes(c, FromAffine(c, x, y), Affine(x, y))
  {
    hide Product;
    Products();
    SmallUnits(c.p);
    CongRefl(c.p, x);
    CongRefl(c.p, y);
    CongReduce(c.p, x * y);
  }

  /** Comparison by cross-multiplication decides equality of the affine points, whatever the two Z are. */
  lemma CtEqDecides(c: Curve, l: ExtPoint, r: ExtPoint, p: Affine, q: Affine)
    requires Complete(c) && OnCurve(c, p) && OnCurve(c, q) && DenotesXyz(c, l, p) && DenotesXyz(c, r, q)
    ensures CtEq(c, l, r) <==> p == q
  {
    hide Product;
    Products();
    CrossMultiply(c.p, l.x, p.x, l.z, r.x, q.x, r.z);
    CrossMultiply(c.p, l.y, p.y, l.z, r.y, q.y, r.z);
  }

  lemma CrossMultiply(m: nat, u: int, x: int, z: int, u': int, x': int, z': int)
    requires IsPrime(m) && !Cong(m, z, 0) && !Cong(m, z', 0)
    requires Cong(m, u, x * z) && Cong(m, u', x' * z') && 0 <= x < m && 0 <= x' < m
    ensures F.Mul(m, u, z') == F.Mul(m, u', z) <==> x == x'
  {
    hide Product, Reduce, Cong, IsPrime;
    Products();
    ReduceIffCong(m, u * z', u' * z);
    CongScale(m, z', u, x * z);
    CongScale(m, z, u', x' * z');
    MulRegroup(x, z, z');
    MulRegroup(x', z', z);
    assert z * z' == z' * z;
    CongIff(m, u * z', (z * z') * x, u' * z, (z * z') * x');
    PrimeProduct(m, z, z');
    if Cong(m, (z * z') * x, (z * z') * x') {
      PrimeCancel(m, z * z', x, x');
      CongCanonical(m, x, x');
    }
    CongRefl(m, (z * z') * x);
  }

  /** is_identity recognises (0, 1) and nothing else; in particular not the point (0, -1) of order two. */
  lemma IsIdentityDecides(c: Curve, e: ExtPoint, p: Affine)
    requires Complete(c) && OnCurve(c, p) && DenotesXyz(c, e, p)
    ensures IsIdentity(e) <==> p == Neutral
  {
    hide Product, Reduce, Cong, IsPrime, IsSquare, CurveEquation;
    Products();
    var m := c.p;
    F.ElementZero(m, e.x);
    F.ElementZero(m, p.x);
    PrimeProduct(m, p.x, e.z);
    CongRefl(m, 0);
    CongIff(m, e.x, p.x * e.z, 0, 0);
    F.ElementEqual(m, e.y, e.z);
    CongRefl(m, e.z);
    CongIff(m, e.y, p.y * e.z, e.z, e.z);
    if Cong(m, p.y * e.z, e.z) {
      assert p.y * e.z == e.z * p.y && e.z == e.z * 1;
      PrimeCancel(m, e.z, p.y, 1);
      CongCanonical(m, p.y, 1);
    }
  }

  // ----- Validity

  lemma ToAffineDenotes(c: Curve, e: ExtPoint)
    requires IsPrime(c.p) && Elements(c, e) && e.z != 0
    ensures DenotesXyz(c, e, ToAffine(c, e))
  {
    hide Product;
    Products();
    F.ElementZero(c.p, e.z);
    QuotCorrect(c.p, e.x, e.z);
    QuotCorrect(c.p, e.y, e.z);
    CongSym(c.p, ToAffine(c, e).x * e.z, e.x);
    CongSym(c.p, ToAffine(c, e).y * e.z, e.y);
  }

  /** The affine point of e is determined by X, Y and Z. */
  lemma DenotesUnique(c: Curve, e: ExtPoint, p: Affine)
    requires IsPrime(c.p) && DenotesXyz(c, e, p) && 0 <= p.x < c.p && 0 <= p.y < c.p
    ensures p == ToAffine(c, e)
  {
    hide Product;
    Products();
    CongSym(c.p, e.x, p.x * e.z);
    CongSym(c.p, e.y, p.y * e.z);
    QuotUnique(c.p, p.x, e.x, e.z);
    QuotUnique(c.p, p.y, e.y, e.z);
  }

  /** The left side of the projective curve equation is that of the affine one, scaled by Z^4. */
  lemma ValidLeft(c: Curve, e: ExtPoint, p: Affine)
    requires c.p > 0 && DenotesXyz(c, e, p)
    ensures var m, zz := c.p, e.z * e.z;
      var xx', yy', zz' := F.Square(m, e.x), F.Square(m, e.y), F.Square(m, e.z);
      Cong(m, F.Add(m, F.Mul(m, F.Mul(m, c.a, xx'), zz'), F.Mul(m, yy', zz')), (zz * zz) * Norm(c.a, p.x, p.y))
  {
    hide Product, Reduce, Cong;
    Products();
    var m, zz := c.p, e.z * e.z;
    var xx', yy', zz' := F.Square(m, e.x), F.Square(m, e.y), F.Square(m, e.z);
    var x, y, z := p.x, p.y, e.z;
    CongRefl(m, z);
    CongRefl(m, c.a);
    F.MulCong(m, e.x, x * z, e.x, x * z);
    F.MulCong(m, e.y, y * z, e.y, y * z);
    F.MulCong(m, z, z, z, z);
    Interchange(x, z, x, z);
    Interchange(y, z, y, z);
    F.MulCong(m, c.a, c.a, xx', (x * x) * zz);
    F.MulCong(m, F.Mul(m, c.a, xx'), c.a * ((x * x) * zz), zz', zz);
    F.MulCong(m, yy', (y * y) * zz, zz', zz);
    F.AddCong(m, F.Mul(m, F.Mul(m, c.a, xx'), zz'), (c.a * ((x * x) * zz)) * zz, F.Mul(m, yy', zz'),
      ((y * y) * zz) * zz);
    ScaleLeft(c.a, x * x, y * y, zz);
  }

  /** Likewise the right side. */
  lemma ValidRight(c: Curve, e: ExtPoint, p: Affine)
    requires c.p > 0 && DenotesXyz(c, e, p)
    ensures var m, zz := c.p, e.z * e.z;
      var xx', yy', zz' := F.Square(m, e.x), F.Square(m, e.y), F.Square(m, e.z);
      Cong(m, F.Add(m, F.Square(m, zz'), F.Mul(m, F.Mul(m, c.d, xx'), yy')),
              (zz * zz) * (1 + c.d * ((p.x * p.y) * (p.x * p.y))))
  {
    hide Product, Reduce, Cong;
    Products();
    var m, zz := c.p, e.z * e.z;
    var xx', yy', zz' := F.Square(m, e.x), F.Square(m, e.y), F.Square(m, e.z);
    var x, y, z := p.x, p.y, e.z;
    CongRefl(m, z);
    CongRefl(m, c.d);
    F.MulCong(m, e.x, x * z, e.x, x * z);
    F.MulCong(m, e.y, y * z, e.y, y * z);
    F.MulCong(m, z, z, z, z);
    Interchange(x, z, x, z);
    Interchange(y, z, y, z);
    F.MulCong(m, zz', zz, zz', zz);
    F.MulCong(m, c.d, c.d, xx', (x * x) * zz);
    F.MulCong(m, F.Mul(m, c.d, xx'), c.d * ((x * x) * zz), yy', (y * y) * zz);
    F.AddCong(m, F.Square(m, zz'), zz * zz, F.Mul(m, F.Mul(m, c.d, xx'), yy'), (c.d * ((x * x) * zz)) * ((y * y) * zz));
    ScaleRight(c.d, x, y, zz);
  }

  lemma ScaleRight(d: int, x: int, y: int, zz: int)
    ensures zz * zz + (d * ((x * x) * zz)) * ((y * y) * zz) == (zz * zz) * (1 + d * ((x * y) * (x * y)))
  {
    ScaleDelta(d, x * x, y * y, zz, zz);
    Square(x, y);
    ScaleUnit(d * ((x * x) * (y * y)), zz * zz);
  }

  /** And the product X*Y of the extended relation. */
  lemma ValidProduct(c: Curve, e: ExtPoint, p: Affine)
    requires c.p > 0 && DenotesXyz(c, e, p)
    ensures Cong(c.p, F.Mul(c.p, e.x, e.y), e.z * ((p.x * p.y) * e.z))
  {
    hide Product;
    Products();
    F.MulCong(c.p, e.x, p.x * e.z, e.y, p.y * e.z);
    Interchange(p.x, e.z, p.y, e.z);
    MulRegroup(e.z, p.x * p.y, e.z);
  }

  lemma ScaleLeft(a: int, xx: int, yy: int, zz: int)
    ensures (a * (xx * zz)) * zz + (yy * zz) * zz == (zz * zz) * (yy + a * xx)
  {
    MulRegroup(a, xx, zz);
    ScaleSum(yy, a * xx, zz);
    ScaleSum(yy * zz, (a * xx) * zz, zz);
    MulRegroup(yy + a * xx, zz, zz);
  }

  /** is_valid accepts exactly the representations of affine curve points. */
  lemma ValidDenotes(c: Curve, e: ExtPoint)
    requires Complete(c) && Elements(c, e)
    ensures IsValid(c, e) <==> OnCurve(c, ToAffine(c, e)) && Denotes(c, e, ToAffine(c, e))
  {
    hide Product, Reduce, Cong, IsPrime, IsSquare, Norm;
    Products();
    var m, p := c.p, ToAffine(c, e);
    F.ElementZero(m, e.z);
    if e.z != 0 {
      var zz, s := e.z * e.z, p.x * p.y;
      var norm, rhs := Norm(c.a, p.x, p.y), 1 + c.d * (s * s);
      ToAffineDenotes(c, e);
      ValidLeft(c, e, p);
      ValidRight(c, e, p);
      ValidProduct(c, e, p);
      var xx', yy', zz' := F.Square(m, e.x), F.Square(m, e.y), F.Square(m, e.z);
      var left := F.Add(m, F.Mul(m, F.Mul(m, c.a, xx'), zz'), F.Mul(m, yy', zz'));
      var right := F.Add(m, F.Square(m, zz'), F.Mul(m, F.Mul(m, c.d, xx'), yy'));
      F.ElementEqual(m, left, right);
      CongIff(m, left, (zz * zz) * norm, right, (zz * zz) * rhs);
      PrimeProduct(m, e.z, e.z);
      PrimeProduct(m, zz, zz);
      CancelIff(m, zz * zz, norm, rhs);
      var xy, zt := F.Mul(m, e.x, e.y), F.Mul(m, e.z, e.t);
      CongReduce(m, e.z * e.t);
      F.ElementEqual(m, xy, zt);
      CongIff(m, xy, e.z * (s * e.z), zt, e.z * e.t);
      CancelIff(m, e.z, s * e.z, e.t);
      CongFlip(m, s * e.z, e.t);
    }
  }

  lemma CancelIff(m: int, k: int, a: int, b: int)
    requires IsPrime(m) && !Cong(m, k, 0)
    ensures Cong(m, k * a, k * b) <==> Cong(m, a, b)
  {
    if Cong(m, k * a, k * b) {
      PrimeCancel(m, k, a, b);
    }
    if Cong(m, a, b) {
      CongScale(m, k, a, b);
    }
  }

  lemma CongFlip(m: int, a: int, b: int)
    ensures Cong(m, a, b) <==> Cong(m, b, a)
  {
    if Cong(m, a, b) {
      CongSym(m, a, b);
    }
    if Cong(m, b, a) {
      CongSym(m, b, a);
    }
  }

  /** Valid points are the representations of curve points, so the results above can be read on valid points. */
  lemma DenotesValid(c: Curve, e: ExtPoint, p: Affine)
    requires Complete(c) && OnCurve(c, p) && Denotes(c, e, p)
    ensures IsValid(c, e) && ToAffine(c, e) == p
  {
    DenotesUnique(c, e, p);
    ValidDenotes(c, e);
  }

  // ----- The point operations on valid points

  /**
   Completeness of the extended formulas: every pair of valid points, equal, opposite or the identity, has a
   valid sum.
  */
  lemma AddComplete(c: Curve, l: ExtPoint, r: ExtPoint)
    requires Complete(c) && Elements(c, l) && Elements(c, r) && IsValid(c, l) && IsValid(c, r)
    ensures Elements(c, AddPoints(c, l, r)) && IsValid(c, AddPoints(c, l, r))
    ensures ToAffine(c, AddPoints(c, l, r)) == EdwardsCurve.Add(c, ToAffine(c, l), ToAffine(c, r))
  {
    hide AddPoints, IsValid, ToAffine, EdwardsCurve.Add, OnCurve, IsPrime, IsSquare;
    ValidDenotes(c, l);
    ValidDenotes(c, r);
    var p, q := ToAffine(c, l), ToAffine(c, r);
    EdwardsGroup.Closure(c, p, q);
    AddRefines(c, l, r, p, q);
    DenotesValid(c, AddPoints(c, l, r), EdwardsCurve.Add(c, p, q));
  }

  /** Doubling a valid point gives the same affine point as adding it to itself, and the result is valid. */
  lemma DoubleAgreesWithAdd(c: Curve, e: ExtPoint)
    requires Complete(c) && Elements(c, e) && IsValid(c, e)
    ensures Elements(c, Double(c, e)) && IsValid(c, Double(c, e))
    ensures CtEq(c, Double(c, e), AddPoints(c, e, e))
    ensures ToAffine(c, Double(c, e)) == EdwardsCurve.Add(c, ToAffine(c, e), ToAffine(c, e))
    ensures forall t :: Double(c, e.(t := t)) == Double(c, e)
  {
    hide AddPoints, IsValid, ToAffine, EdwardsCurve.Add, OnCurve, IsPrime, IsSquare, CtEq;
    ValidDenotes(c, e);
    var p := ToAffine(c, e);
    EdwardsGroup.Closure(c, p, p);
    DoubleRefines(c, e, p);
    AddRefines(c, e, e, p, p);
    DenotesValid(c, Double(c, e), EdwardsCurve.Add(c, p, p));
    CtEqDecides(c, Double(c, e), AddPoints(c, e, e), EdwardsCurve.Add(c, p, p), EdwardsCurve.Add(c, p, p));
  }

  /** Identity, inverse and commutativity, as the comparison functions of the code report them. */
  lemma GroupLawsOnValidPoints(c: Curve, l: ExtPoint, r: ExtPoint)
    requires Complete(c) && Elements(c, l) && Elements(c, r) && IsValid(c, l) && IsValid(c, r)
    ensures CtEq(c, AddPoints(c, l, Identity), l)
    ensures IsIdentity(AddPoints(c, l, NegatePoint(c, l)))
    ensures CtEq(c, AddPoints(c, l, r), AddPoints(c, r, l))
    ensures CtEq(c, l, r) <==> ToAffine(c, l) == ToAffine(c, r)
    ensures IsIdentity(l) <==> ToAffine(c, l) == Neutral
  {
    hide AddPoints, IsValid, ToAffine, EdwardsCurve.Add, EdwardsCurve.Negate, OnCurve, IsPrime, IsSquare, CtEq,
      IsIdentity, NegatePoint;
    ValidDenotes(c, l);
    ValidDenotes(c, r);
    var p, q := ToAffine(c, l), ToAffine(c, r);
    var p' := EdwardsCurve.Negate(c, p);
    EdwardsGroup.Closure(c, p, q);
    EdwardsGroup.NeutralOnCurve(c);
    EdwardsGroup.NegateOnCurve(c, p);
    EdwardsGroup.NeutralRight(c, p);
    EdwardsGroup.InverseRight(c, p);
    EdwardsGroup.Commutative(c, p, q);
    IdentityDenotes(c);
    NegateRefines(c, l, p);
    AddRefines(c, l, Identity, p, Neutral);
    AddRefines(c, l, NegatePoint(c, l), p, p');
    AddRefines(c, l, r, p, q);
    AddRefines(c, r, l, q, p);
    CtEqDecides(c, AddPoints(c, l, Identity), l, p, p);
    IsIdentityDecides(c, AddPoints(c, l, NegatePoint(c, l)), Neutral);
    CtEqDecides(c, AddPoints(c, l, r), AddPoints(c, r, l), EdwardsCurve.Add(c, p, q), EdwardsCurve.Add(c, p, q));
    CtEqDecides(c, l, r, p, q);
    IsIdentityDecides(c, l, p);
  }
}
