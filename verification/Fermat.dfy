/** Fermat's little theorem, by permuting the nonzero residues. It is what makes a fixed-exponent square root work. */
module Fermat {
  import opened Modular

  function Pow(b: int, e: nat): int {
    if e == 0 then 1 else Product(b, Pow(b, e - 1))
  }

  lemma {:induction false} PowAdd(b: int, e: nat, f: nat)
    ensures Pow(b, e + f) == Pow(b, e) * Pow(b, f)
  {
    hide Product;
    Products();
    if e != 0 {
      PowAdd(b, e - 1, f);
      MulRegroup(b, Pow(b, e - 1), Pow(b, f));
    }
  }

  lemma {:induction false} PowSquare(b: int, e: nat)
    ensures Pow(b * b, e) == Pow(b, 2 * e)
  {
    hide Product;
    Products();
    if e != 0 {
      PowSquare(b, e - 1);
      MulRegroup(b, b, Pow(b, 2 * e - 2));
    }
  }

  lemma {:induction false} PowCong(m: int, a: int, b: int, e: nat)
    requires Cong(m, a, b)
    ensures Cong(m, Pow(a, e), Pow(b, e))
  {
    hide Product;
    Products();
    if e == 0 {
      CongRefl(m, 1);
    } else {
      PowCong(m, a, b, e - 1);
      CongMul(m, a, b, Pow(a, e - 1), Pow(b, e - 1));
    }
  }

  // ----- Products over sets of residues

  ghost function SetProduct(s: set<nat>): nat {
    if s == {} then 1 else var x :| x in s; x * SetProduct(s - {x})
  }

  lemma {:induction false} ProductRemove(s: set<nat>, x: nat)
    requires x in s
    ensures SetProduct(s) == x * SetProduct(s - {x})
  {
    var y :| y in s && SetProduct(s) == y * SetProduct(s - {y});
    if x != y {
      ProductRemove(s - {y}, x);
      ProductRemove(s - {x}, y);
      var q := SetProduct(s - {x} - {y});
      assert s - {y} - {x} == s - {x} - {y};
      assert SetProduct(s) == y * (x * q) && SetProduct(s - {x}) == y * q;
      MulRegroup(y, x, q);
    }
  }

  /** The nonzero residues 1, ..., m-1. */
  ghost function Residues(m: nat): (s: set<nat>)
    ensures forall i :: i in s <==> 0 < i < m
    ensures m > 0 ==> |s| == m - 1
  {
    if m <= 1 then {} else Residues(m - 1) + {m - 1}
  }

  function Scale(m: nat, a: nat, i: nat): nat
    requires m > 0
  {
    Reduce(m, a * i)
  }

  /** The residues a*i mod m, for i in s. */
  ghost function Scaled(m: nat, a: nat, s: set<nat>): set<nat>
    requires m > 0
  {
    set i | i in s :: Scale(m, a, i)
  }

  lemma ScaledInjective(m: nat, a: nat, i: nat, j: nat)
    requires IsPrime(m) && 0 < a < m && i < m && j < m
    requires Scale(m, a, i) == Scale(m, a, j)
    ensures i == j
  {
    if Cong(m, a, 0) {
      CongCanonical(m, a, 0);
    }
    ReduceIffCong(m, a * i, a * j);
    PrimeCancel(m, a, i, j);
    CongCanonical(m, i, j);
  }

  lemma ScaledNonzero(m: nat, a: nat, i: nat)
    requires IsPrime(m) && 0 < a < m && 0 < i < m
    ensures 0 < Scale(m, a, i) < m
  {
    if Scale(m, a, i) == 0 {
      ScaledInjective(m, a, i, 0);
    }
  }

  lemma ScaledSplit(m: nat, a: nat, s: set<nat>, x: nat)
    requires IsPrime(m) && 0 < a < m && s <= Residues(m) && x in s
    ensures Scale(m, a, x) in Scaled(m, a, s)
    ensures Scaled(m, a, s) - {Scale(m, a, x)} == Scaled(m, a, s - {x})
    ensures |Scaled(m, a, s)| == |Scaled(m, a, s - {x})| + 1
  {
    hide Scale, Cong, IsPrime, Residues;
    forall i | i in s - {x} ensures Scale(m, a, i) != Scale(m, a, x) {
      if Scale(m, a, i) == Scale(m, a, x) {
        ScaledInjective(m, a, i, x);
      }
    }
    assert Scaled(m, a, s) == Scaled(m, a, s - {x}) + {Scale(m, a, x)};
  }

  /** Scaling a set of residues by a multiplies its product by a power of a. */
  lemma {:induction false} ScaledProduct(m: nat, a: nat, s: set<nat>)
    requires IsPrime(m) && 0 < a < m && s <= Residues(m)
    ensures |Scaled(m, a, s)| == |s|
    ensures Cong(m, SetProduct(Scaled(m, a, s)), Pow(a, |s|) * SetProduct(s))
    decreases |s|
  {
    if s == {} {
      CongRefl(m, 1);
    } else {
      hide Scaled, Scale, Cong, IsPrime, Pow, SetProduct, Residues;
      var x :| x in s;
      var rest, y := s - {x}, Scale(m, a, x);
      ScaledProduct(m, a, rest);
      ScaledSplit(m, a, s, x);
      ProductRemove(Scaled(m, a, s), y);
      ProductRemove(s, x);
      ScaledProductStep(m, a, x, y, SetProduct(Scaled(m, a, rest)), |rest|, SetProduct(rest));
    }
  }

  lemma ScaledProductStep(m: nat, a: nat, x: nat, y: nat, scaledRest: nat, e: nat, rest: nat)
    requires m > 0 && y == Scale(m, a, x) && Cong(m, scaledRest, Pow(a, e) * rest)
    ensures Cong(m, y * scaledRest, Pow(a, e + 1) * (x * rest))
  {
    hide Product;
    Products();
    CongReduce(m, a * x);
    CongMul(m, y, a * x, scaledRest, Pow(a, e) * rest);
    Interchange(a, x, Pow(a, e), rest);
  }

  lemma {:induction false} ProductUnit(m: nat, s: set<nat>)
    requires IsPrime(m) && s <= Residues(m)
    ensures !Cong(m, SetProduct(s), 0)
  {
    if s == {} {
      if Cong(m, 1, 0) {
        CongCanonical(m, 1, 0);
      }
    } else {
      var x :| x in s;
      ProductUnit(m, s - {x});
      ProductRemove(s, x);
      PrimeProduct(m, x, SetProduct(s - {x}));
      if Cong(m, x, 0) {
        CongCanonical(m, x, 0);
      }
    }
  }

  lemma SubsetOfEqualSize(s: set<nat>, t: set<nat>)
    requires s <= t && |s| == |t|
    ensures s == t
  {
    assert |t - s| == |t| - |s|;
  }

  lemma ScalingPermutes(m: nat, a: nat)
    requires IsPrime(m) && 0 < a < m
    ensures Cong(m, SetProduct(Residues(m)), Pow(a, m - 1) * SetProduct(Residues(m)))
  {
    hide Scale, Cong, IsPrime, Pow, SetProduct, Residues;
    var s := Residues(m);
    forall i | i in s ensures Scale(m, a, i) in s {
      ScaledNonzero(m, a, i);
    }
    ScaledProduct(m, a, s);
    SubsetOfEqualSize(Scaled(m, a, s), s);
  }

  lemma CancelUnit(m: int, u: int, a: int)
    requires IsPrime(m) && !Cong(m, u, 0) && Cong(m, u, a * u)
    ensures Cong(m, a, 1)
  {
    CongSym(m, u, a * u);
    assert a * u == u * a;
    PrimeCancel(m, u, a, 1);
  }

  lemma FermatResidue(m: nat, a: nat)
    requires IsPrime(m) && 0 < a < m
    ensures Cong(m, Pow(a, m - 1), 1)
  {
    hide Cong, Pow, SetProduct, Residues, IsPrime;
    // The product u of all residues satisfies u = a^(m-1) * u, and u is a unit
    ScalingPermutes(m, a);
    ProductUnit(m, Residues(m));
    CancelUnit(m, SetProduct(Residues(m)), Pow(a, m - 1));
  }

  lemma FermatLittle(m: nat, a: int)
    requires IsPrime(m) && !Cong(m, a, 0)
    ensures Cong(m, Pow(a, m - 1), 1)
  {
    CongMod(m, a);
    FermatResidue(m, a % m);
    PowCong(m, a, a % m, m - 1);
    CongTrans(m, Pow(a, m - 1), Pow(a % m, m - 1), 1);
  }

  // ----- Square roots for a prime m = 3 (mod 4)

  /** The candidate n^((m+1)/4) squares to n exactly when n has any square root. */
  lemma FixedExponentRoot(m: nat, n: int, root: int)
    requires IsPrime(m) && m % 4 == 3
    requires Cong(m, root, Pow(n, (m + 1) / 4))
    ensures Cong(m, root * root, n) <==> IsSquare(m, n)
  {
    if Cong(m, root * root, n) {
      SquareIntro(m, root, n);
    }
    if IsSquare(m, n) {
      var s := SquareElim(m, n);
      RootOfSquare(m, n, s, root);
    }
  }

  lemma RootOfSquare(m: nat, n: int, s: int, root: int)
    requires IsPrime(m) && m % 4 == 3 && Cong(m, s * s, n)
    requires Cong(m, root, Pow(n, (m + 1) / 4))
    ensures Cong(m, root * root, n)
  {
    hide Pow, Cong, IsPrime;
    var e := (m + 1) / 4;
    CongMul(m, root, Pow(n, e), root, Pow(n, e));
    PowAdd(n, e, e);
    CongSym(m, s * s, n);
    PowCong(m, n, s * s, 2 * e);
    PowSquare(s, 2 * e);
    CongTrans(m, root * root, Pow(n, 2 * e), Pow(s, m + 1));
    PowFermat(m, s);
    CongTrans(m, root * root, Pow(s, m + 1), s * s);
    CongTrans(m, root * root, s * s, n);
  }

  /** Powers of a square are squares. */
  lemma PowOfSquare(m: int, n: int, e: nat)
    requires IsSquare(m, n)
    ensures IsSquare(m, Pow(n, e))
  {
    hide Pow;
    var s := SquareElim(m, n);
    PowCong(m, s * s, n, e);
    PowSquare(s, e);
    PowAdd(s, e, e);
    SquareIntro(m, Pow(s, e), Pow(n, e));
  }

  lemma PowFermat(m: nat, s: int)
    requires IsPrime(m)
    ensures Cong(m, Pow(s, m + 1), s * s)
  {
    hide Product;
    Products();
    PowAdd(s, m - 1, 2);
    assert Pow(s, 2) == s * Pow(s, 1) == s * (s * Pow(s, 0)) == s * s;
    if Cong(m, s, 0) {
      CongScale(m, s, s, 0);
      CongScale(m, Pow(s, m - 1), s * s, 0);
      CongSym(m, s * s, 0);
      CongTrans(m, Pow(s, m + 1), 0, s * s);
    } else {
      FermatLittle(m, s);
      CongScale(m, s * s, Pow(s, m - 1), 1);
    }
  }

  /** Minus one is not a square modulo a prime m = 3 (mod 4). */
  lemma MinusOneNonsquare(m: nat)
    requires IsPrime(m) && m % 4 == 3
    ensures !IsSquare(m, -1)
  {
    if IsSquare(m, -1) {
      var s := SquareElim(m, -1);
      NoRootOfMinusOne(m, s);
    }
  }

  lemma OddHalf(m: nat) returns (e: nat)
    requires m % 4 == 3
    ensures m - 1 == 2 * e && e % 2 == 1
  {
    e := 2 * (m / 4) + 1;
  }

  lemma NoRootOfMinusOne(m: nat, s: int)
    requires IsPrime(m) && m % 4 == 3 && m > 2
    ensures !Cong(m, s * s, -1)
  {
    hide Cong, Pow, IsPrime, Product;
    if Cong(m, s * s, -1) {
      var e := OddHalf(m);
      RootIsUnit(m, s);
      // (s^2)^((m-1)/2) is 1 by Fermat and (-1)^odd = -1 directly
      PowCong(m, s * s, -1, e);
      PowSquare(s, e);
      FermatLittle(m, s);
      PowMinusOne(e);
      CongSym(m, Pow(s, m - 1), 1);
      CongTrans(m, 1, Pow(s, m - 1), -1);
      CongRefl(m, 1);
      CongAdd(m, 1, -1, 1, 1);
      CongCanonical(m, 2, 0);
    }
  }

  lemma RootIsUnit(m: nat, s: int)
    requires m > 1 && Cong(m, s * s, -1)
    ensures !Cong(m, s, 0)
  {
    hide Cong, Product;
    if Cong(m, s, 0) {
      CongScale(m, s, s, 0);
      CongSym(m, s * s, 0);
      CongTrans(m, 0, s * s, -1);
      CongRefl(m, 1);
      CongAdd(m, 0, -1, 1, 1);
      CongCanonical(m, 1, 0);
    }
  }

  lemma {:induction false} PowMinusOne(e: nat)
    ensures Pow(-1, e) == if e % 2 == 0 then 1 else -1
  {
    hide Product;
    Products();
    if e != 0 {
      PowMinusOne(e - 1);
    }
  }

  /** A prime m = 3 (mod 4) cannot have both n and -n as nonzero squares. */
  lemma NegatedSquareIsNonsquare(m: nat, n: int)
    requires IsPrime(m) && m % 4 == 3 && !Cong(m, n, 0)
    requires IsSquare(m, -n)
    ensures !IsSquare(m, n)
  {
    if IsSquare(m, n) {
      var s := SquareElim(m, n);
      var t := SquareElim(m, -n);
      RootOfMinusOne(m, n, s, t);
      MinusOneNonsquare(m);
    }
  }

  /** (t/s)^2 = -n/n = -1. */
  lemma RootOfMinusOne(m: nat, n: int, s: int, t: int)
    requires IsPrime(m) && !Cong(m, n, 0) && Cong(m, s * s, n) && Cong(m, t * t, -n)
    ensures IsSquare(m, -1)
  {
    hide Cong, IsPrime, IsSquare;
    if Cong(m, s, 0) {
      CongScale(m, s, s, 0);
      CongSym(m, s * s, n);
      CongTrans(m, n, s * s, 0);
    }
    var i := UnitInverse(m, s);
    CongMul(m, s * i, 1, s * i, 1);
    Interchange(s, i, s, i);
    Interchange(t, i, t, i);
    CongScale(m, -1, s * s, n);
    CongSym(m, -1 * (s * s), -n);
    CongTrans(m, t * t, -n, -1 * (s * s));
    CongScale(m, i * i, t * t, -1 * (s * s));
    MulRegroup(-1, s * s, i * i);
    CongScale(m, -1, (s * s) * (i * i), 1);
    CongTrans(m, (t * i) * (t * i), -1 * ((s * s) * (i * i)), -1);
    SquareIntro(m, t * i, -1);
  }
}
