/** Congruence of integers, and the facts about a prime modulus that the field and scalar layers need. */
module Modular {

  /**
   Multiplication as repeated addition. Definitions are written with this function, so that products in a contract
   stay plain terms; a proof that needs arithmetic on them asks for it with Products().
   */
  function Product(m: int, k: int): int
    decreases if k < 0 then -k else k
  {
    if k == 0 then 0 else if k > 0 then Product(m, k - 1) + m else Product(m, k + 1) - m
  }

  lemma {:induction false} ProductIsMul(m: int, k: int)
    ensures Product(m, k) == m * k
    decreases if k < 0 then -k else k
  {
    if k > 0 {
      ProductIsMul(m, k - 1);
    } else if k < 0 {
      ProductIsMul(m, k + 1);
    }
  }

  lemma ProductNonnegative(x: nat, y: nat)
    ensures Product(x, y) >= 0
  {
    ProductIsMul(x, y);
  }

  lemma ProductSym(x: int, y: int)
    ensures Product(x, y) == Product(y, x)
  {
    ProductIsMul(x, y);
    ProductIsMul(y, x);
  }

  lemma Products()
    ensures forall x: int, y: int :: Product(x, y) == x * y
  {
    forall x: int, y: int ensures Product(x, y) == x * y {
      ProductIsMul(x, y);
    }
  }

  ghost predicate Cong(m: int, a: int, b: int) {
    exists k: int :: a - b == Product(m, k)
  }

  ghost predicate Divides(k: int, m: int)
    requires k > 0
  {
    m % k == 0
  }

  ghost predicate IsPrime(m: int) {
    2 <= m && forall k :: 2 <= k < m ==> !Divides(k, m)
  }

  ghost predicate IsRoot(m: int, s: int, n: int) {
    Cong(m, Product(s, s), n)
  }

  /** n is a square modulo m. */
  ghost predicate IsSquare(m: int, n: int) {
    exists s: int :: IsRoot(m, s, n)
  }

  lemma SquareIntro(m: int, s: int, n: int)
    requires Cong(m, s * s, n)
    ensures IsSquare(m, n)
  {
    ProductIsMul(s, s);
    assert IsRoot(m, s, n);
  }

  lemma SquareElim(m: int, n: int) returns (s: int)
    requires IsSquare(m, n)
    ensures Cong(m, s * s, n)
  {
    s :| IsRoot(m, s, n);
    ProductIsMul(s, s);
  }

  // ----- Congruence is an equivalence relation and respects the ring operations

  lemma CongIntro(m: int, a: int, b: int, k: int)
    requires a - b == m * k
    ensures Cong(m, a, b)
  {
    ProductIsMul(m, k);
  }

  lemma CongElim(m: int, a: int, b: int) returns (k: int)
    requires Cong(m, a, b)
    ensures a == b + m * k
  {
    k :| a - b == Product(m, k);
    ProductIsMul(m, k);
  }

  lemma CongRefl(m: int, a: int)
    ensures Cong(m, a, a)
  {
    CongIntro(m, a, a, 0);
  }

  lemma CongSym(m: int, a: int, b: int)
    requires Cong(m, a, b)
    ensures Cong(m, b, a)
  {
    var k := CongElim(m, a, b);
    CongIntro(m, b, a, -k);
  }

  lemma CongTrans(m: int, a: int, b: int, c: int)
    requires Cong(m, a, b) && Cong(m, b, c)
    ensures Cong(m, a, c)
  {
    var k := CongElim(m, a, b);
    var l := CongElim(m, b, c);
    assert m * (k + l) == m * k + m * l;
    CongIntro(m, a, c, k + l);
  }

  lemma CongAdd(m: int, a: int, a': int, b: int, b': int)
    requires Cong(m, a, a') && Cong(m, b, b')
    ensures Cong(m, a + b, a' + b')
    ensures Cong(m, a - b, a' - b')
  {
    var k := CongElim(m, a, a');
    var l := CongElim(m, b, b');
    assert m * (k + l) == m * k + m * l && m * (k - l) == m * k - m * l;
    CongIntro(m, a + b, a' + b', k + l);
    CongIntro(m, a - b, a' - b', k - l);
  }

  lemma CongScale(m: int, c: int, a: int, a': int)
    requires Cong(m, a, a')
    ensures Cong(m, c * a, c * a') && Cong(m, a * c, a' * c)
  {
    var k := CongElim(m, a, a');
    assert c * (a' + m * k) == c * a' + m * (c * k);
    CongIntro(m, c * a, c * a', c * k);
  }

  lemma CongMul(m: int, a: int, a': int, b: int, b': int)
    requires Cong(m, a, a') && Cong(m, b, b')
    ensures Cong(m, a * b, a' * b')
  {
    CongScale(m, b, a, a');
    CongScale(m, a', b, b');
    CongTrans(m, a * b, a' * b, a' * b');
  }

  lemma CongIff(m: int, a: int, a': int, b: int, b': int)
    requires Cong(m, a, a') && Cong(m, b, b')
    ensures Cong(m, a, b) <==> Cong(m, a', b')
  {
    CongSym(m, a, a');
    CongSym(m, b, b');
    if Cong(m, a, b) {
      CongTrans(m, a', a, b);
      CongTrans(m, a', b, b');
    }
    if Cong(m, a', b') {
      CongTrans(m, a, a', b');
      CongTrans(m, a, b', b);
    }
  }

  lemma SquareCong(m: int, a: int, b: int)
    requires Cong(m, a, b) && IsSquare(m, a)
    ensures IsSquare(m, b)
  {
    var s := SquareElim(m, a);
    CongTrans(m, s * s, a, b);
    SquareIntro(m, s, b);
  }

  // ----- Canonical representatives

  /** The canonical representative of a, which is a % m. */
  function Reduce(m: nat, a: int): (r: nat)
    requires m > 0
    ensures r < m
    decreases if a < 0 then m - a else a
  {
    if a < 0 then Reduce(m, a + m) else if a < m then a else Reduce(m, a - m)
  }

  lemma {:induction false} ReduceIsMod(m: nat, a: int)
    requires m > 0
    ensures Reduce(m, a) == a % m
    decreases if a < 0 then m - a else a
  {
    if a < 0 {
      ReduceIsMod(m, a + m);
      ModShift(m, a);
    } else if a >= m {
      ReduceIsMod(m, a - m);
      ModShift(m, a - m);
    } else {
      SmallMod(m, a);
    }
  }

  lemma ModShift(m: nat, a: int)
    requires m > 0
    ensures (a + m) % m == a % m
  {
    CongIntro(m, a + m, a, 1);
    ModIffCong(m, a + m, a);
  }

  lemma SmallMod(m: nat, a: nat)
    requires a < m
    ensures a % m == a
  {
    CongMod(m, a);
    CongCanonical(m, a % m, a);
  }

  lemma CongReduce(m: nat, a: int)
    requires m > 0
    ensures Cong(m, Reduce(m, a), a) && Cong(m, a, Reduce(m, a))
  {
    ReduceIsMod(m, a);
    CongMod(m, a);
  }

  lemma SmallReduce(m: nat, a: nat)
    requires a < m
    ensures Reduce(m, a) == a
  {
  }

  lemma ReduceIffCong(m: nat, a: int, b: int)
    requires m > 0
    ensures Reduce(m, a) == Reduce(m, b) <==> Cong(m, a, b)
  {
    ReduceIsMod(m, a);
    ReduceIsMod(m, b);
    ModIffCong(m, a, b);
  }

  lemma CongMod(m: int, a: int)
    requires m > 0
    ensures Cong(m, a % m, a) && Cong(m, a, a % m)
    ensures 0 <= a % m < m
  {
    CongIntro(m, a, a % m, a / m);
    CongSym(m, a, a % m);
  }

  /** Two canonical representatives of one class are equal. */
  lemma CongCanonical(m: int, a: int, b: int)
    requires 0 <= a < m && 0 <= b < m && Cong(m, a, b)
    ensures a == b
  {
    var k := CongElim(m, a, b);
    if k >= 1 {
      MulAtLeast(m, k);
    } else if k <= -1 {
      MulAtLeast(m, -k);
    }
  }

  lemma MulAtLeast(m: int, k: int)
    requires m > 0 && k >= 1
    ensures m * k >= m
  {
    assert m * k == m + m * (k - 1);
    assert m * (k - 1) >= 0;
  }

  lemma ModIffCong(m: int, a: int, b: int)
    requires m > 0
    ensures a % m == b % m <==> Cong(m, a, b)
  {
    CongMod(m, a);
    CongMod(m, b);
    if a % m == b % m {
      CongTrans(m, a, a % m, b);
    }
    if Cong(m, a, b) {
      CongTrans(m, a % m, a, b);
      CongTrans(m, a % m, b, b % m);
      CongCanonical(m, a % m, b % m);
    }
  }

  lemma MulRegroup(a: int, b: int, c: int)
    ensures a * (b * c) == (b * a) * c == (a * b) * c == a * (c * b) == b * (a * c)
  {
  }

  lemma Interchange(a: int, b: int, c: int, d: int)
    ensures (a * b) * (c * d) == (a * c) * (b * d)
    ensures (a * b) * (c * d) == (a * d) * (b * c)
  {
  }

  // ----- Inversion modulo a prime

  /** Inverse of a residue by descent: m = q*a + r gives 1/a = -q/r. Zero goes to zero. */
  function Inverse(m: nat, a: nat): (r: nat)
    requires a < m
    ensures r < m
    decreases a
  {
    if a <= 1 then a else (-(m / a) * Inverse(m, m % a)) % m
  }

  lemma {:induction false} InverseCorrect(m: nat, a: nat)
    requires IsPrime(m) && 0 < a < m
    ensures Cong(m, a * Inverse(m, a), 1)
    decreases a
  {
    if a == 1 {
      CongRefl(m, 1);
    } else {
      var q, r := m / a, m % a;
      assert !Divides(a, m);
      InverseCorrect(m, r);
      // a * (-q * s) = (r - m) * s = r * s (mod m), where s = 1/r
      InverseFromRemainder(m, a, q, r, Inverse(m, r), Inverse(m, a));
    }
  }

  lemma InverseFromRemainder(m: nat, a: int, q: int, r: int, s: int, i: int)
    requires m > 0 && m == q * a + r && Cong(m, r * s, 1) && i == (-q * s) % m
    ensures Cong(m, a * i, 1)
  {
    hide Cong;
    CongMod(m, -q * s);
    CongScale(m, a, i, -q * s);
    InverseStep(m, a, q, r, s);
    CongIntro(m, a * (-q * s), r * s, -s);
    CongTrans(m, a * i, a * (-q * s), r * s);
    CongTrans(m, a * i, r * s, 1);
  }

  lemma InverseStep(m: int, a: int, q: int, r: int, s: int)
    requires m == q * a + r
    ensures a * (-q * s) - r * s == m * -s
  {
    assert a * (-q * s) == -(q * a * s);
    assert (q * a + r) * s == q * a * s + r * s;
  }

  /** A prime modulus has no zero divisors. */
  lemma PrimeCancel(m: int, c: int, a: int, b: int)
    requires IsPrime(m) && !Cong(m, c, 0) && Cong(m, c * a, c * b)
    ensures Cong(m, a, b)
  {
    CongMod(m, c);
    var i := UnitInverse(m, c);
    CongScale(m, i, c * a, c * b);
    MulRegroup(i, c, a);
    MulRegroup(i, c, b);
    CongScale(m, a, c * i, 1);
    CongScale(m, b, c * i, 1);
    CongSym(m, (c * i) * a, a);
    CongTrans(m, a, (c * i) * a, (c * i) * b);
    CongTrans(m, a, (c * i) * b, b);
  }

  lemma UnitInverse(m: int, c: int) returns (i: int)
    requires IsPrime(m) && !Cong(m, c, 0)
    ensures Cong(m, c * i, 1)
    ensures i == Inverse(m, c % m)
  {
    CongMod(m, c);
    i := Inverse(m, c % m);
    InverseCorrect(m, c % m);
    CongScale(m, i, c, c % m);
    CongTrans(m, c * i, (c % m) * i, 1);
  }

  lemma PrimeProduct(m: int, a: int, b: int)
    requires IsPrime(m)
    ensures Cong(m, a * b, 0) <==> Cong(m, a, 0) || Cong(m, b, 0)
  {
    if Cong(m, a * b, 0) && !Cong(m, a, 0) {
      PrimeCancel(m, a, b, 0);
    }
    if Cong(m, a, 0) {
      CongScale(m, b, a, 0);
    }
    if Cong(m, b, 0) {
      CongScale(m, a, b, 0);
    }
  }

  /** The reduced roots of b^2 are b and -b. */
  lemma SquareRoots(m: int, x: int, b: int)
    requires IsPrime(m) && 0 <= x < m && 0 < b < m
    ensures Cong(m, x * x, b * b) <==> x == b || x == m - b
  {
    hide IsPrime, Cong;
    assert (x - b) * (x + b) == x * x - b * b;
    CongRefl(m, b * b);
    if Cong(m, x * x, b * b) {
      CongAdd(m, x * x, b * b, b * b, b * b);
      PrimeProduct(m, x - b, x + b);
      if Cong(m, x - b, 0) {
        CongRefl(m, b);
        CongAdd(m, x - b, 0, b, b);
        CongCanonical(m, x, b);
      } else {
        CongIntro(m, m, 0, 1);
        CongAdd(m, m, 0, x + b, 0);
        CongSym(m, m - (x + b), 0);
        CongRefl(m, x);
        CongAdd(m, 0, m - (x + b), x, x);
        CongCanonical(m, x, m - b);
      }
    }
    if x == m - b {
      CongIntro(m, x, -b, 1);
      CongMul(m, x, -b, x, -b);
      assert -b * -b == b * b;
    }
  }

  // ----- Quotients

  /** The least residue q >= start with q * den = num modulo m, or zero if there is none. */
  function LeastQuotient(m: nat, num: int, den: int, start: nat): (q: nat)
    requires m > 0
    ensures q < m
    decreases m - start
  {
    if start >= m then 0
    else if Reduce(m, Product(start, den)) == Reduce(m, num) then start
    else LeastQuotient(m, num, den, start + 1)
  }

  /** The canonical residue q with q * den = num, for an invertible den. */
  function Quot(m: nat, num: int, den: int): (q: nat)
    requires m > 0
    ensures q < m
  {
    LeastQuotient(m, num, den, 0)
  }

  lemma {:induction false} LeastQuotientFinds(m: nat, num: int, den: int, start: nat, q: nat)
    requires start <= q < m && Cong(m, q * den, num)
    ensures Cong(m, LeastQuotient(m, num, den, start) * den, num)
    decreases m - start
  {
    ProductIsMul(start, den);
    ReduceIffCong(m, start * den, num);
    if !Cong(m, start * den, num) {
      LeastQuotientFinds(m, num, den, start + 1, q);
    }
  }

  lemma QuotCorrect(m: nat, num: int, den: int)
    requires IsPrime(m) && !Cong(m, den, 0)
    ensures Cong(m, Quot(m, num, den) * den, num)
  {
    hide Cong, IsPrime;
    var i := UnitInverse(m, den);
    var q := (num * i) % m;
    CongMod(m, num * i);
    CongScale(m, den, q, num * i);
    MulRegroup(num, i, den);
    CongScale(m, num, den * i, 1);
    CongTrans(m, q * den, num * (den * i), num);
    LeastQuotientFinds(m, num, den, 0, q);
  }

  lemma QuotUnique(m: nat, q: int, num: int, den: int)
    requires IsPrime(m) && !Cong(m, den, 0) && Cong(m, q * den, num)
    ensures Cong(m, q, Quot(m, num, den))
    ensures 0 <= q < m ==> q == Quot(m, num, den)
  {
    hide Cong, Divides;
    var r := Quot(m, num, den);
    QuotCorrect(m, num, den);
    CongSym(m, r * den, num);
    CongTrans(m, q * den, num, r * den);
    PrimeCancel(m, den, q, r);
    if 0 <= q < m {
      CongCanonical(m, q, r);
    }
  }
}
