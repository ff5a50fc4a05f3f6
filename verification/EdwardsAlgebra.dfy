/**
 Exact integer identities behind the twisted Edwards law. A point (x, y) contributes three quantities:
 s = x*y, t = y^2 - a*x^2 and its norm y^2 + a*x^2, which the curve equation makes congruent to 1 + d*s^2.
 */
module EdwardsAlgebra {
  import opened Modular

  function Norm(a: int, x: int, y: int): int {
    Product(y, y) + Product(a, Product(x, x))
  }

  function Twist(a: int, x: int, y: int): int {
    Product(y, y) - Product(a, Product(x, x))
  }

  /** Numerator of the x-coordinate of a sum. */
  function Cross(x1: int, y1: int, x2: int, y2: int): int {
    Product(x1, y2) + Product(y1, x2)
  }

  /** Numerator of the y-coordinate of a sum. */
  function Dot(a: int, x1: int, y1: int, x2: int, y2: int): int {
    Product(y1, y2) - Product(a, Product(x1, x2))
  }

  /** Numerator of the y-coordinate of a difference. */
  function Codot(a: int, x1: int, y1: int, x2: int, y2: int): int {
    Product(y1, y2) + Product(a, Product(x1, x2))
  }

  lemma Square(x: int, y: int)
    ensures (x * y) * (x * y) == (x * x) * (y * y)
  {
  }

  lemma Foil(p: int, q: int, r: int, s: int)
    ensures (p + q) * (r + s) == p * r + p * s + q * r + q * s
    ensures (p - q) * (r - s) == p * r - p * s - q * r + q * s
    ensures (p + q) * (r - s) == p * r - p * s + q * r - q * s
    ensures (p - q) * (r + s) == p * r + p * s - q * r - q * s
  {
  }

  lemma TwistSquared(a: int, x: int, y: int)
    ensures Twist(a, x, y) * Twist(a, x, y) == Norm(a, x, y) * Norm(a, x, y) - 4 * (a * ((x * y) * (x * y)))
  {
    hide Product;
    Products();
    var u, v := y * y, a * (x * x);
    Foil(u, v, u, v);
    Square(x, y);
    MulRegroup(y * y, a, x * x);
  }

  lemma CrossDot(a: int, x1: int, y1: int, x2: int, y2: int)
    ensures Cross(x1, y1, x2, y2) * Dot(a, x1, y1, x2, y2)
      == (x1 * y1) * Twist(a, x2, y2) + (x2 * y2) * Twist(a, x1, y1)
  {
    hide Product;
    Products();
  }

  lemma CrossCodot(a: int, x1: int, y1: int, x2: int, y2: int)
    ensures Cross(x1, y1, x2, y2) * Codot(a, x1, y1, x2, y2)
      == (x1 * y1) * Norm(a, x2, y2) + (x2 * y2) * Norm(a, x1, y1)
  {
    hide Product;
    Products();
  }

  lemma CrossSquared(a: int, x1: int, y1: int, x2: int, y2: int)
    ensures 2 * (a * (Cross(x1, y1, x2, y2) * Cross(x1, y1, x2, y2)))
      == Norm(a, x1, y1) * Norm(a, x2, y2) - Twist(a, x1, y1) * Twist(a, x2, y2) + 4 * (a * ((x1 * y1) * (x2 * y2)))
  {
    hide Product;
    Products();
    var l := Cross(x1, y1, x2, y2);
    Foil(x1 * y2, y1 * x2, x1 * y2, y1 * x2);
    Square(x1, y2);
    Square(y1, x2);
    Interchange(x1, y2, y1, x2);
    Foil(y1 * y1, a * (x1 * x1), y2 * y2, a * (x2 * x2));
    MulRegroup(a, x1 * x1, y2 * y2);
    MulRegroup(y1 * y1, a, x2 * x2);
  }

  lemma DotDot(a: int, x1: int, y1: int, x2: int, y2: int, x3: int, y3: int)
    ensures Dot(a, x1, y1, x2, y2) * Dot(a, x3, y3, x2, y2)
      == (y1 * y3) * (y2 * y2) - a * ((y1 * x3) * (x2 * y2)) - a * ((x1 * y3) * (x2 * y2))
        + a * (a * ((x1 * x3) * (x2 * x2)))
  {
    hide Product;
    Products();
    Foil(y1 * y2, a * (x1 * x2), y3 * y2, a * (x3 * x2));
    Interchange(y1, y2, y3, y2);
    Interchange(y1, y2, x3, x2);
    Interchange(x1, x2, y3, y2);
    Interchange(x1, x2, x3, x2);
    MulRegroup(y1 * y2, a, x3 * x2);
    MulRegroup(a, x1 * x2, y3 * y2);
    MulRegroup(a, x1 * x2, a * (x3 * x2));
    MulRegroup(x1 * x2, a, x3 * x2);
  }

  lemma CrossCross(x1: int, y1: int, x2: int, y2: int, x3: int, y3: int)
    ensures Cross(x1, y1, x2, y2) * Cross(x3, y3, x2, y2)
      == (x1 * x3) * (y2 * y2) + (x1 * y3) * (x2 * y2) + (y1 * x3) * (x2 * y2) + (y1 * y3) * (x2 * x2)
  {
    hide Product;
    Products();
  }

  lemma DotProducts(a: int, x1: int, y1: int, x2: int, y2: int, x3: int, y3: int)
    ensures Dot(a, x1, y1, x2, y2) * Dot(a, x3, y3, x2, y2) + a * (Cross(x1, y1, x2, y2) * Cross(x3, y3, x2, y2))
      == Codot(a, x1, y1, x3, y3) * Norm(a, x2, y2)
    ensures Dot(a, x1, y1, x2, y2) * Dot(a, x3, y3, x2, y2) - a * (Cross(x1, y1, x2, y2) * Cross(x3, y3, x2, y2))
      == Dot(a, x1, y1, x3, y3) * Twist(a, x2, y2) - 2 * (a * ((x2 * y2) * Cross(x1, y1, x3, y3)))
  {
    hide Product;
    Products();
    DotDot(a, x1, y1, x2, y2, x3, y3);
    CrossCross(x1, y1, x2, y2, x3, y3);
    CollectProducts(a, x1 * x3, y1 * y3, x1 * y3, y1 * x3, x2 * x2, y2 * y2, x2 * y2,
      Dot(a, x1, y1, x2, y2) * Dot(a, x3, y3, x2, y2), Cross(x1, y1, x2, y2) * Cross(x3, y3, x2, y2));
  }

  lemma CollectProducts(a: int, xx: int, yy: int, xy: int, yx: int, x2x2: int, y2y2: int, s2: int, dots: int,
                        crosses: int)
    requires dots == yy * y2y2 - a * (yx * s2) - a * (xy * s2) + a * (a * (xx * x2x2))
    requires crosses == xx * y2y2 + xy * s2 + yx * s2 + yy * x2x2
    ensures dots + a * crosses == (yy + a * xx) * (y2y2 + a * x2x2)
    ensures dots - a * crosses == (yy - a * xx) * (y2y2 - a * x2x2) - 2 * (a * (s2 * (xy + yx)))
  {
    Foil(yy, a * xx, y2y2, a * x2x2);
    MulRegroup(a, xx, y2y2);
    MulRegroup(yy, a, x2x2);
    MulRegroup(a, xx, a * x2x2);
    MulRegroup(xx, a, x2x2);
  }

  // ----- The identity behind associativity
  //
  // Let P1, P3 and Q = P2 be points, with the quantities s, t, norm of each. Translating P1 and P3 by Q must leave
  // their difference unchanged. After clearing denominators and cancelling the numerator of P3 - P1, what has to be
  // shown is that Left and Right below agree, once each norm is replaced by 1 + d*s^2.

  function Left(a: int, d: int, s1: int, s2: int, s3: int, t2: int, norm2: int, cross: int, dot: int): int {
    (norm2 * (1 + (d * (s1 * s2)) * (d * (s3 * s2)))) * (1 + d * (s1 * s3))
    + (dot * t2 - 2 * (a * (s2 * cross))) * (d * (s2 * cross))
  }

  function Right(d: int, s1: int, s2: int, s3: int, t1: int, t2: int, t3: int): int {
    (1 - (d * (s1 * s2)) * (d * (s1 * s2))) * (1 - (d * (s3 * s2)) * (d * (s3 * s2)))
    + d * ((s1 * t2 + s2 * t1) * (s3 * t2 + s2 * t3))
  }

  /** What is left of Left - Right when everything but the norms has cancelled. */
  function Residual(u1: int, u2: int, u3: int, w: int, norm1: int, norm2: int, norm3: int): int {
    norm2 * (1 + w * u2) * (1 + w) - u2 * (norm1 * norm3) - (1 - u1 * u2) * (1 - u3 * u2) - w * (norm2 * norm2)
  }

  lemma ScaledInterchange(d: int, p: int, q: int, r: int, s: int)
    ensures (d * (p * q)) * (d * (r * s)) == (d * (p * r)) * (d * (q * s))
  {
    Interchange(d, p * q, d, r * s);
    Interchange(d, p * r, d, q * s);
    Interchange(p, q, r, s);
  }

  lemma LeftExpanded(a: int, d: int, s1: int, s2: int, s3: int, t1: int, t2: int, t3: int,
                     norm1: int, norm2: int, norm3: int, cross: int, dot: int)
    requires cross * dot == s1 * t3 + s3 * t1
    requires 2 * (a * (cross * cross)) == norm1 * norm3 - t1 * t3 + 4 * (a * (s1 * s3))
    ensures Left(a, d, s1, s2, s3, t2, norm2, cross, dot)
      == norm2 * (1 + (d * (s1 * s3)) * (d * (s2 * s2))) * (1 + d * (s1 * s3))
       + d * ((s2 * t2) * (s1 * t3 + s3 * t1))
       - (d * (s2 * s2)) * (norm1 * norm3 - t1 * t3 + 4 * (a * (s1 * s3)))
  {
    ScaledInterchange(d, s1, s2, s3, s2);
    var k := d * (s2 * cross);
    assert (dot * t2 - 2 * (a * (s2 * cross))) * k == (dot * t2) * k - 2 * ((a * (s2 * cross)) * k);
    DotTerm(d, s2, t2, cross, dot);
    CrossTerm(a, d, s2, cross);
    assert (d * (s2 * s2)) * (2 * (a * (cross * cross))) == 2 * ((d * (s2 * s2)) * (a * (cross * cross)));
  }

  lemma DotTerm(d: int, s2: int, t2: int, cross: int, dot: int)
    ensures (dot * t2) * (d * (s2 * cross)) == d * ((s2 * t2) * (cross * dot))
  {
    MulRegroup(dot * t2, d, s2 * cross);
    Interchange(dot, t2, s2, cross);
    assert (dot * t2) * (s2 * cross) == (s2 * t2) * (cross * dot);
  }

  lemma CrossTerm(a: int, d: int, s2: int, cross: int)
    ensures (a * (s2 * cross)) * (d * (s2 * cross)) == (d * (s2 * s2)) * (a * (cross * cross))
  {
    Interchange(a, s2 * cross, d, s2 * cross);
    Square(s2, cross);
    Interchange(d, s2 * s2, a, cross * cross);
  }

  lemma RightExpanded(a: int, d: int, s1: int, s2: int, s3: int, t1: int, t2: int, t3: int, norm2: int)
    requires t2 * t2 == norm2 * norm2 - 4 * (a * (s2 * s2))
    ensures Right(d, s1, s2, s3, t1, t2, t3)
      == (1 - (d * (s1 * s1)) * (d * (s2 * s2))) * (1 - (d * (s3 * s3)) * (d * (s2 * s2)))
       + (d * (s1 * s3)) * (norm2 * norm2) - 4 * (a * ((d * (s2 * s2)) * (s1 * s3)))
       + d * ((s2 * t2) * (s1 * t3 + s3 * t1)) + (d * (s2 * s2)) * (t1 * t3)
  {
    ScaledInterchange(d, s1, s2, s1, s2);
    ScaledInterchange(d, s3, s2, s3, s2);
    Foil(s1 * t2, s2 * t1, s3 * t2, s2 * t3);
    Interchange(s1, t2, s3, t2);
    Interchange(s1, t2, s2, t3);
    Interchange(s2, t1, s3, t2);
    Interchange(s2, t1, s2, t3);
    Foil(s2 * t2, 0, s1 * t3, s3 * t1);
    RightCollected(a, d, s1 * s3, s2 * s2, t1 * t3, t2 * t2, norm2 * norm2, (s2 * t2) * (s1 * t3 + s3 * t1),
      (s1 * t2 + s2 * t1) * (s3 * t2 + s2 * t3));
  }

  lemma RightCollected(a: int, d: int, s13: int, s22: int, t13: int, t22: int, norm22: int, mixed: int, product: int)
    requires t22 == norm22 - 4 * (a * s22)
    requires product == s13 * t22 + mixed + s22 * t13
    ensures d * product == (d * s13) * norm22 - 4 * (a * ((d * s22) * s13)) + d * mixed + (d * s22) * t13
  {
    assert d * product == d * (s13 * t22) + d * mixed + d * (s22 * t13);
    assert (d * s13) * (norm22 - 4 * (a * s22)) == (d * s13) * norm22 - 4 * ((d * s13) * (a * s22));
    Interchange(d, s13, a, s22);
    Interchange(d, s22, a, s13);
    MulRegroup(a, d * s22, s13);
  }

  lemma LeftMinusRight(a: int, d: int, s1: int, s2: int, s3: int, t1: int, t2: int, t3: int,
                       norm1: int, norm2: int, norm3: int, cross: int, dot: int)
    requires cross * dot == s1 * t3 + s3 * t1
    requires 2 * (a * (cross * cross)) == norm1 * norm3 - t1 * t3 + 4 * (a * (s1 * s3))
    requires t2 * t2 == norm2 * norm2 - 4 * (a * (s2 * s2))
    ensures Left(a, d, s1, s2, s3, t2, norm2, cross, dot) - Right(d, s1, s2, s3, t1, t2, t3)
      == Residual(d * (s1 * s1), d * (s2 * s2), d * (s3 * s3), d * (s1 * s3), norm1, norm2, norm3)
  {
    hide Left, Right;
    LeftExpanded(a, d, s1, s2, s3, t1, t2, t3, norm1, norm2, norm3, cross, dot);
    RightExpanded(a, d, s1, s2, s3, t1, t2, t3, norm2);
    var u2, s13 := d * (s2 * s2), s1 * s3;
    assert u2 * (norm1 * norm3 - t1 * t3 + 4 * (a * s13))
      == u2 * (norm1 * norm3) - u2 * (t1 * t3) + 4 * (u2 * (a * s13));
    MulRegroup(u2, a, s13);
  }

  /** With every norm equal to 1 + d*s^2, and u1*u3 = w^2, nothing is left. */
  lemma ResidualVanishes(u1: int, u2: int, u3: int, w: int)
    requires u1 * u3 == w * w
    ensures Residual(u1, u2, u3, w, 1 + u1, 1 + u2, 1 + u3) == 0
  {
    assert u2 * ((1 + u1) * (1 + u3)) == u2 + u2 * u1 + u2 * u3 + u2 * (w * w) by {
      Foil(1, u1, 1, u3);
    }
    assert (1 - u1 * u2) * (1 - u3 * u2) == 1 - u1 * u2 - u3 * u2 + (w * w) * (u2 * u2) by {
      Foil(1, u1 * u2, 1, u3 * u2);
      Interchange(u1, u2, u3, u2);
    }
    ResidualHead(u2, w);
  }

  lemma ResidualHead(u: int, w: int)
    ensures (1 + u) * (1 + w * u) * (1 + w) - w * ((1 + u) * (1 + u)) == 1 + u + u * (w * w) + (w * w) * (u * u)
  {
  }
}
