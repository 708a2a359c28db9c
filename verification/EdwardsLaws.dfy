/**
 * The addition of the Edwards curve is complete and closed, because d is not a square and -1 is one.
 * All equations are between integers, as field elements.
 */
module EdwardsLaws {
  import opened Arith
  import opened Field
  import opened Edwards

  ghost predicate NonSquare(d: nat) {
    d < P && forall y :: !IsRoot(y, d)
  }

  // ---- rules for equations ----

  lemma Sum(a: int, a': int, b: int, b': int)
    requires Eq(a, a') && Eq(b, b')
    ensures Eq(a + b, a' + b') && Eq(a - b, a' - b')
  {
    EqAdd(a, a', b, b');
  }

  lemma Scale(k: int, a: int, a': int)
    requires Eq(a, a')
    ensures Eq(k * a, k * a') && Eq(a * k, a' * k)
  {
    hide Eq;
    EqRules(k, k);
    EqMul(k, k, a, a');
    EqMul(a, a', k, k);
  }

  lemma Square(a: int, a': int)
    requires Eq(a, a')
    ensures Eq(a * a, a' * a')
  {
    EqMul(a, a', a, a');
  }

  // Stands for zero.
  ghost predicate Vanishes(a: int) {
    Eq(a, 0)
  }

  lemma VanishesMod(a: int)
    ensures Vanishes(a) <==> a % P == 0
  {
    EqIsMod(a, 0);
    hide Eq;
    ModSmall(0, P);
  }

  lemma VanishesEq(a: int, b: int)
    ensures Vanishes(a - b) <==> Eq(a, b)
    ensures Eq(a, b) ==> (Vanishes(a) <==> Vanishes(b))
    ensures Vanishes(0)
  {
    VanishesMod(a - b);
    VanishesMod(a);
    VanishesMod(b);
    VanishesMod(0);
    EqIsMod(a, b);
    hide P, Eq, Vanishes;
    DivMod(a - b, P);
    if (a - b) % P == 0 { ModEqual(a, b, P, (a - b) / P); }
    ModAdd(a, b, P);
    ModSmall(0, P);
    if a % P == b % P { assert (a % P - b % P) == 0; }
  }

  lemma VanishingFactor(a: int, b: int)
    requires PrimeP()
    ensures Vanishes(a * b) <==> Vanishes(a) || Vanishes(b)
  {
    VanishesMod(a * b);
    VanishesMod(a);
    VanishesMod(b);
    hide PrimeP, Vanishes, Eq;
    if Vanishes(a * b) { NoZeroDivisors(a, b); }
    VanishingProduct(a, b);
  }

  lemma VanishingProduct(a: int, b: int)
    ensures Vanishes(a) || Vanishes(b) ==> Vanishes(a * b)
  {
    VanishesMod(a * b);
    VanishesMod(a);
    VanishesMod(b);
    hide P, Vanishes, Eq;
    ModMul(a, b, P);
    ModSmall(0, P);
  }

  lemma CancelFactor(k: int, a: int, b: int)
    requires PrimeP() && !Vanishes(k) && Eq(k * a, k * b)
    ensures Eq(a, b)
  {
    hide PrimeP, Vanishes, Eq;
    VanishesEq(k * a, k * b);
    assert k * a - k * b == k * (a - b);
    VanishingFactor(k, a - b);
    VanishesEq(a, b);
  }

  // ---- completeness ----

  // If d times a square is a square, the square vanishes.
  lemma NoRatio(d: nat, a: int, b: int)
    requires PrimeP() && NonSquare(d) && Eq(a * a, d * (b * b))
    ensures Vanishes(b)
  {
    VanishesMod(b);
    hide Eq, Vanishes, Inv, PrimeP, IsRoot;
    if !Vanishes(b) {
      InvWorks(b);
      MulIsEq(b, Inv(b), 1);
      Square(b * Inv(b), 1);
      SquaresCommute(b, Inv(b));
      SquaresCommute(a, Inv(b));
      Ratio(a * a, b * b, Inv(b) * Inv(b), d);
      RootFromEq(d, a * Inv(b));
    }
  }

  lemma Ratio(s: int, t: int, j: int, d: int)
    requires Eq(t * j, 1) && Eq(s, d * t)
    ensures Eq(s * j, d)
  {
    hide Eq;
    EqRules(j, j);
    EqRules(d, d);
    EqMul(s, d * t, j, j);
    EqMul(d, d, t * j, 1);
    assert (d * t) * j == d * (t * j) && d * 1 == d;
    EqTrans(s * j, d * (t * j), d);
  }

  lemma MulIsEq(a: int, b: int, r: int)
    requires Mul(a, b) == r
    ensures Eq(a * b, r)
  {
    hide Eq;
    ReducedEq(a * b);
    EqRules((a * b) % P, a * b);
  }

  lemma RootFromEq(d: nat, y: int)
    requires d < P && Eq(y * y, d)
    ensures IsRoot(y, d)
  {
    EqIsMod(y * y, d);
    hide Eq;
  }

  // The cross term of two points, with the coordinates of each together.
  lemma CrossOf(d: int, x1: int, y1: int, x2: int, y2: int)
    ensures d * (x1 * x2) * (y1 * y2) == d * ((x1 * y1) * (x2 * y2))
  {
    assert (x1 * x2) * (y1 * y2) == (x1 * y1) * (x2 * y2);
    MulAssoc(d, x1 * x2, y1 * y2);
  }

  // (e y + i x)^2 = y^2 - x^2 + 2 e i x y, where e^2 = 1 and i^2 = -1.
  lemma SquareOfSum(e: int, y: int, i: int, x: int)
    requires e * e == 1 && Eq(i * i, -1)
    ensures Eq((e * y + i * x) * (e * y + i * x), (y * y - x * x) + (2 * i * (x * y)) * e)
  {
    hide Eq;
    SquareExpanded(e, y, i, x);
    Scale(x * x, i * i, -1);
    EqRules((y * y) + (2 * i * (x * y)) * e, 0);
    Sum((y * y) + (2 * i * (x * y)) * e, (y * y) + (2 * i * (x * y)) * e, (x * x) * (i * i), (x * x) * -1);
  }

  lemma SquareExpanded(e: int, y: int, i: int, x: int)
    requires e * e == 1
    ensures (e * y + i * x) * (e * y + i * x) == ((y * y) + (2 * i * (x * y)) * e) + (x * x) * (i * i)
    ensures ((y * y) + (2 * i * (x * y)) * e) + (x * x) * -1 == (y * y - x * x) + (2 * i * (x * y)) * e
  {
    assert (e * y) * (e * y) == (e * e) * (y * y);
    assert (e * y + i * x) * (e * y + i * x) == (e * y) * (e * y) + 2 * ((e * y) * (i * x)) + (i * x) * (i * x);
    assert (e * y) * (i * x) == (i * (x * y)) * e;
    assert (i * x) * (i * x) == (x * x) * (i * i);
  }

  // If the cross term of two points is e, with e^2 = 1, then d is a ratio of squares. Here f, h and z
  // stand for x y, y^2 - x^2 and e y + i x, with e = 1 for the second point.
  lemma SquareRelation(d: int, f1: int, f2: int, h1: int, h2: int, z1: int, z2: int, e: int, i: int)
    requires e * e == 1 && Eq(d * (f1 * f2), e)
    requires Eq(h1, 1 + d * (f1 * f1)) && Eq(h2, 1 + d * (f2 * f2))
    requires Eq(z1 * z1, h1 + (2 * i * f1) * e) && Eq(z2 * z2, h2 + 2 * i * f2)
    ensures Eq(z1 * z1, d * ((f1 * z2) * (f1 * z2)))
  {
    hide Eq;
    var c, k1, k2, w := d * (f1 * f2), 1 + d * (f1 * f1), 1 + d * (f2 * f2), 2 * i * f1;
    // The left side is k1 + w e.
    EqRules(w * e, 0);
    Sum(h1, k1, w * e, w * e);
    EqTrans(z1 * z1, h1 + w * e, k1 + w * e);
    // The right side is d f1^2 (k2 + 2 i f2) = d f1^2 + c^2 + w c.
    EqRules(2 * i * f2, 0);
    Sum(h2, k2, 2 * i * f2, 2 * i * f2);
    EqTrans(z2 * z2, h2 + 2 * i * f2, k2 + 2 * i * f2);
    Scale(d * (f1 * f1), z2 * z2, k2 + 2 * i * f2);
    RightSide(d, f1, f2, i, z2);
    Square(c, e);
    Scale(w, c, e);
    EqRules(d * (f1 * f1), 0);
    Sum(d * (f1 * f1), d * (f1 * f1), c * c, e * e);
    Sum(d * (f1 * f1) + c * c, d * (f1 * f1) + e * e, w * c, w * e);
    EqTrans(d * ((f1 * z2) * (f1 * z2)), d * (f1 * f1) + c * c + w * c, k1 + w * e);
    EqTransSym(z1 * z1, k1 + w * e, d * ((f1 * z2) * (f1 * z2)));
  }

  lemma RightSide(d: int, f1: int, f2: int, i: int, z: int)
    ensures (d * (f1 * f1)) * (z * z) == d * ((f1 * z) * (f1 * z))
    ensures var c := d * (f1 * f2);
            (d * (f1 * f1)) * ((1 + d * (f2 * f2)) + 2 * i * f2) == d * (f1 * f1) + c * c + (2 * i * f1) * c
  {
    ScaledSquare(d, f1, z);
    var a, b := d * (f1 * f1), d * (f2 * f2);
    assert a * ((1 + b) + 2 * i * f2) == a + a * b + a * (2 * i * f2) by {
      MulAdd(a, 1 + b, 2 * i * f2);
      MulAdd(a, 1, b);
    }
    ScaledProduct(d, f1, f2);
    MixedTerm(d, f1, f2, i);
  }

  lemma ScaledSquare(d: int, f: int, z: int)
    ensures (d * (f * f)) * (z * z) == d * ((f * z) * (f * z))
  {
    assert (f * z) * (f * z) == (f * f) * (z * z);
  }

  lemma ScaledProduct(d: int, f1: int, f2: int)
    ensures (d * (f1 * f1)) * (d * (f2 * f2)) == (d * (f1 * f2)) * (d * (f1 * f2))
  {
    assert (f1 * f1) * (f2 * f2) == (f1 * f2) * (f1 * f2);
    var a, b, c := f1 * f1, f2 * f2, f1 * f2;
    assert (d * a) * (d * b) == (d * d) * (a * b);
    assert (d * c) * (d * c) == (d * d) * (c * c);
  }

  lemma MixedTerm(d: int, f1: int, f2: int, i: int)
    ensures (d * (f1 * f1)) * (2 * i * f2) == (2 * i * f1) * (d * (f1 * f2))
  {
    assert (f1 * f1) * f2 == f1 * (f1 * f2);
    assert (d * (f1 * f1)) * (2 * i * f2) == (2 * (d * i)) * ((f1 * f1) * f2);
    assert (2 * i * f1) * (d * (f1 * f2)) == (2 * (d * i)) * (f1 * (f1 * f2));
  }

  lemma RootOfMinusOne()
    ensures var i: int := SQRT_M1; Eq(i * i, -1) && Eq(-i * -i, -1)
  {
    SqrtM1Squared();
    var i: int := SQRT_M1;
    assert -i * -i == i * i;
    EqIsMod(i * i, -1);
    hide Eq;
  }

  lemma UnitDoesNotVanish(e: int)
    requires e == 1 || e == -1
    ensures !Vanishes(e) && !Vanishes(2)
  {
    VanishesMod(e);
    VanishesMod(2);
    hide Vanishes;
  }

  // The factor that must vanish if the cross term were e.
  lemma CrossFactor(d: nat, p: Point, q: Point, e: int, i: int)
    requires PrimeP() && NonSquare(d) && OnCurve(d, p) && OnCurve(d, q)
    requires (e == 1 || e == -1) && Eq(i * i, -1)
    ensures Eq(Cross(d, p, q), e) ==> Vanishes((p.x * p.y) * (q.y + i * q.x))
  {
    CrossOf(d, p.x, p.y, q.x, q.y);
    CrossOf(d, p.x, p.y, p.x, p.y);
    CrossOf(d, q.x, q.y, q.x, q.y);
    hide Eq, PrimeP, NonSquare, Vanishes;
    SquareOfSum(e, p.y, i, p.x);
    SquareOfSum(1, q.y, i, q.x);
    assert 1 * q.y + i * q.x == q.y + i * q.x && (2 * i * (q.x * q.y)) * 1 == 2 * i * (q.x * q.y);
    if Eq(Cross(d, p, q), e) {
      SquareRelation(d, p.x * p.y, q.x * q.y, p.y * p.y - p.x * p.x, q.y * q.y - q.x * q.x,
                     e * p.y + i * p.x, q.y + i * q.x, e, i);
      NoRatio(d, e * p.y + i * p.x, (p.x * p.y) * (q.y + i * q.x));
    }
  }

  lemma CrossIsNoUnit(d: nat, p: Point, q: Point, e: int)
    requires PrimeP() && NonSquare(d) && OnCurve(d, p) && OnCurve(d, q) && (e == 1 || e == -1)
    ensures !Eq(Cross(d, p, q), e)
  {
    if Eq(Cross(d, p, q), e) {
      RootOfMinusOne();
      var i: int := SQRT_M1;
      CrossOf(d, p.x, p.y, q.x, q.y);
      assert Cross(d, p, q) == d * ((p.x * p.y) * (q.x * q.y));
      hide *;
      CrossFactor(d, p, q, e, i);
      CrossFactor(d, p, q, e, -i);
      UnitDoesNotVanish(e);
      var f1, f2 := p.x * p.y, q.x * q.y;
      VanishingFactor(f1, q.y + i * q.x);
      VanishingFactor(f1, q.y + -i * q.x);
      VanishingSum(q.y, i * q.x);
      VanishingFactor(q.x, q.y);
      VanishingFactor(f1, f2);
      VanishingFactor(d, f1 * f2);
      VanishesEq(d * (f1 * f2), e);
    }
  }

  lemma VanishingSum(a: int, b: int)
    requires PrimeP()
    ensures Vanishes(a + b) && Vanishes(a - b) ==> Vanishes(a)
  {
    VanishesMod(a + b);
    VanishesMod(a - b);
    VanishesMod(2 * a);
    hide PrimeP, Vanishes, Eq;
    UnitDoesNotVanish(1);
    VanishingFactor(2, a);
    hide P;
    ModAdd(a + b, a - b, P);
    ModSmall(0, P);
    assert (a + b) + (a - b) == 2 * a;
  }

  // Sums of curve points are always defined.
  lemma SumIsComplete(d: nat, p: Point, q: Point)
    requires PrimeP() && NonSquare(d) && OnCurve(d, p) && OnCurve(d, q)
    ensures Complete(d, p, q)
  {
    VanishesMod(1 + Cross(d, p, q));
    VanishesMod(1 - Cross(d, p, q));
    hide Eq, Vanishes;
    CrossIsNoUnit(d, p, q, 1);
    CrossIsNoUnit(d, p, q, -1);
    hide PrimeP, NonSquare, OnCurve, Cross;
    var c := Cross(d, p, q);
    VanishesEq(c, -1);
    VanishesEq(1, c);
    EqRules(1, c);
    assert c - -1 == 1 + c;
  }

  // 1 + d y^2 never vanishes: -1 is a square and d is not.
  lemma UnitPlusSquare(d: nat, y: int)
    requires PrimeP() && NonSquare(d)
    ensures !Vanishes(1 + d * (y * y))
  {
    hide *;
    var e := d * (y * y);
    if Vanishes(1 + e) {
      RootOfMinusOne();
      VanishesEq(-1, e);
      VanishesNegated(1 + e);
      assert -(1 + e) == -1 - e;
      EqTrans(SQRT_M1 * SQRT_M1, -1, e);
      NoRatio(d, SQRT_M1, y);
      VanishingProduct(y, y);
      VanishingProduct(d, y * y);
      UnitDoesNotVanish(-1);
    }
  }

  lemma VanishesNegated(a: int)
    ensures Vanishes(-a) <==> Vanishes(a)
  {
    VanishesMod(a);
    VanishesMod(-a);
    hide Vanishes, P;
    if a % P == 0 { ModMul(a, -1, P); ModSmall(0, P); }
    if -a % P == 0 { ModMul(-a, -1, P); ModSmall(0, P); }
  }

  // ---- closure ----

  // The numerators A and B of the sum, in terms of the curve equations.
  lemma DifferenceOfNumerators(x1: int, y1: int, x2: int, y2: int)
    ensures var (A, B) := (x1 * y2 + x2 * y1, y1 * y2 + x1 * x2);
            B * B - A * A == (y1 * y1 - x1 * x1) * (y2 * y2 - x2 * x2)
  {
    var u, v, m, n := x1 * y2, x2 * y1, y1 * y2, x1 * x2;
    SwapFactors(x1, y2, x2, y1);
    SquaresCommute(x1, y2);
    SquaresCommute(x2, y1);
    SquaresCommute(y1, y2);
    SquaresCommute(x1, x2);
    MulComm(x2 * x2, y1 * y1);
    SquareOfTwo(u, v);
    SquareOfTwo(m, n);
    DifferenceProduct(x1 * x1, y1 * y1, x2 * x2, y2 * y2);
  }

  lemma SwapFactors(a: int, b: int, c: int, d: int)
    ensures (a * b) * (c * d) == (d * b) * (a * c)
  {
  }

  lemma DifferenceProduct(a: int, b: int, c: int, d: int)
    ensures (b - a) * (d - c) == b * d - b * c - a * d + a * c
  {
  }

  lemma SumOfNumerators(x1: int, y1: int, x2: int, y2: int)
    ensures var (A, B) := (x1 * y2 + x2 * y1, y1 * y2 + x1 * x2);
            A * A + B * B == (y1 * y1 + x1 * x1) * (y2 * y2 + x2 * x2) + 4 * ((x1 * y1) * (x2 * y2))
  {
    var u, v, m, n := x1 * y2, x2 * y1, y1 * y2, x1 * x2;
    assert u * v == (x1 * y1) * (x2 * y2) && m * n == (x1 * y1) * (x2 * y2);
    SquaresCommute(x1, y2);
    SquaresCommute(x2, y1);
    SquaresCommute(y1, y2);
    SquaresCommute(x1, x2);
    MulAdd(y1 * y1 + x1 * x1, y2 * y2, x2 * x2);
    MulComm(x2 * x2, y1 * y1);
    SquareOfTwo(u, v);
    SquareOfTwo(m, n);
  }

  lemma SquaresCommute(a: int, b: int)
    ensures (a * b) * (a * b) == (a * a) * (b * b)
  {
  }

  lemma SquareOfTwo(a: int, b: int)
    ensures (a + b) * (a + b) == a * a + b * b + 2 * (a * b)
  {
  }

  lemma ProductOfNumerators(x1: int, y1: int, x2: int, y2: int)
    ensures (x1 * y2 + x2 * y1) * (y1 * y2 + x1 * x2)
         == (x1 * y1) * (y2 * y2 + x2 * x2) + (x2 * y2) * (y1 * y1 + x1 * x1)
  {
    assert (x1 * y2) * (y1 * y2) == (x1 * y1) * (y2 * y2) && (x1 * y2) * (x1 * x2) == (x2 * y2) * (x1 * x1);
    assert (x2 * y1) * (y1 * y2) == (x2 * y2) * (y1 * y1) && (x2 * y1) * (x1 * x2) == (x1 * y1) * (x2 * x2);
  }

  lemma SquareOfSquares(x: int, y: int)
    ensures (y * y + x * x) * (y * y + x * x) == (y * y - x * x) * (y * y - x * x) + 4 * ((x * y) * (x * y))
  {
    assert (x * x) * (y * y) == (x * y) * (x * y);
  }

  lemma ProductSquared(f1: int, f2: int, t1: int, t2: int)
    ensures (f1 * t2 + f2 * t1) * (f1 * t2 + f2 * t1)
         == (f1 * f1) * (t2 * t2) + (f2 * f2) * (t1 * t1) + 2 * ((f1 * f2) * (t1 * t2))
  {
    assert (f1 * t2) * (f1 * t2) == (f1 * f1) * (t2 * t2);
    assert (f2 * t1) * (f2 * t1) == (f2 * f2) * (t1 * t1);
    assert (f1 * t2) * (f2 * t1) == (f1 * f2) * (t1 * t2);
  }

  // What is left when the curve equations have been used is an identity in d, f1, f2 and t = t1 t2.
  lemma Residue(d: int, f1: int, f2: int, t: int)
    ensures var c := d * (f1 * f2);
            var (k1, k2) := (1 + d * (f1 * f1), 1 + d * (f2 * f2));
            (1 + c * c) * (k1 * k2) + (2 * c) * (t + 4 * (f1 * f2)) - (1 - c * c) * (1 - c * c)
              - d * ((f1 * f1) * (k2 * k2 + 4 * (f2 * f2)) + (f2 * f2) * (k1 * k1 + 4 * (f1 * f1)) + 2 * ((f1 * f2) * t))
            == 0
  {
  }

  lemma WeightedDifference(c: int, s: int, t: int)
    ensures ((1 + c) * (1 + c)) * s - ((1 - c) * (1 - c)) * t == (1 + c * c) * (s - t) + (2 * c) * (t + s)
  {
  }

  // (A B)^2, with the curve equations put in.
  lemma ProductEquation(x1: int, y1: int, x2: int, y2: int, k1: int, k2: int)
    requires Eq(y1 * y1 - x1 * x1, k1) && Eq(y2 * y2 - x2 * x2, k2)
    ensures var (f1, f2, t1, t2) := (x1 * y1, x2 * y2, y1 * y1 + x1 * x1, y2 * y2 + x2 * x2);
            var w := (x1 * y2 + x2 * y1) * (y1 * y2 + x1 * x2);
            Eq(w * w, (f1 * f1) * (k2 * k2 + 4 * (f2 * f2)) + (f2 * f2) * (k1 * k1 + 4 * (f1 * f1)) + 2 * ((f1 * f2) * (t1 * t2)))
  {
    hide Eq;
    var f1, f2, t1, t2 := x1 * y1, x2 * y2, y1 * y1 + x1 * x1, y2 * y2 + x2 * x2;
    ProductOfNumerators(x1, y1, x2, y2);
    ProductSquared(f1, f2, t1, t2);
    SquareOfSquares(x1, y1);
    SquareOfSquares(x2, y2);
    SquarePlus(t1 * t1, y1 * y1 - x1 * x1, k1, 4 * (f1 * f1));
    SquarePlus(t2 * t2, y2 * y2 - x2 * x2, k2, 4 * (f2 * f2));
    Scale(f1 * f1, t2 * t2, k2 * k2 + 4 * (f2 * f2));
    Scale(f2 * f2, t1 * t1, k1 * k1 + 4 * (f1 * f1));
    Sum((f1 * f1) * (t2 * t2), (f1 * f1) * (k2 * k2 + 4 * (f2 * f2)), (f2 * f2) * (t1 * t1), (f2 * f2) * (k1 * k1 + 4 * (f1 * f1)));
    EqRules(2 * ((f1 * f2) * (t1 * t2)), 0);
    Sum((f1 * f1) * (t2 * t2) + (f2 * f2) * (t1 * t1),
        (f1 * f1) * (k2 * k2 + 4 * (f2 * f2)) + (f2 * f2) * (k1 * k1 + 4 * (f1 * f1)),
        2 * ((f1 * f2) * (t1 * t2)), 2 * ((f1 * f2) * (t1 * t2)));
  }

  lemma SquarePlus(s: int, h: int, k: int, f: int)
    requires s == h * h + f && Eq(h, k)
    ensures Eq(s, k * k + f)
  {
    hide Eq;
    Square(h, k);
    EqRules(f, 0);
    Sum(h * h, k * k, f, f);
  }

  // The equation of the sum, multiplied by the squares of both denominators.
  lemma NumeratorEquation(d: int, x1: int, y1: int, x2: int, y2: int, c: int)
    requires c == d * ((x1 * y1) * (x2 * y2))
    requires Eq(y1 * y1 - x1 * x1, 1 + d * ((x1 * y1) * (x1 * y1)))
    requires Eq(y2 * y2 - x2 * x2, 1 + d * ((x2 * y2) * (x2 * y2)))
    ensures var (A, B) := (x1 * y2 + x2 * y1, y1 * y2 + x1 * x2);
            Eq(((1 + c) * (1 + c)) * (B * B) - ((1 - c) * (1 - c)) * (A * A),
               (1 - c * c) * (1 - c * c) + d * ((A * B) * (A * B)))
  {
    hide Eq;
    var A, B := x1 * y2 + x2 * y1, y1 * y2 + x1 * x2;
    var f1, f2, t := x1 * y1, x2 * y2, (y1 * y1 + x1 * x1) * (y2 * y2 + x2 * x2);
    var k1, k2 := 1 + d * (f1 * f1), 1 + d * (f2 * f2);
    var m := (f1 * f1) * (k2 * k2 + 4 * (f2 * f2)) + (f2 * f2) * (k1 * k1 + 4 * (f1 * f1)) + 2 * ((f1 * f2) * t);
    WeightedDifference(c, B * B, A * A);
    DifferenceOfNumerators(x1, y1, x2, y2);
    SumOfNumerators(x1, y1, x2, y2);
    EqMul(y1 * y1 - x1 * x1, k1, y2 * y2 - x2 * x2, k2);
    Scale(1 + c * c, B * B - A * A, k1 * k2);
    EqRules((2 * c) * (t + 4 * (f1 * f2)), 0);
    var left := (1 + c * c) * (B * B - A * A) + (2 * c) * (t + 4 * (f1 * f2));
    Sum((1 + c * c) * (B * B - A * A), (1 + c * c) * (k1 * k2), (2 * c) * (t + 4 * (f1 * f2)), (2 * c) * (t + 4 * (f1 * f2)));
    Residue(d, f1, f2, t);
    ProductEquation(x1, y1, x2, y2, k1, k2);
    Scale(d, (A * B) * (A * B), m);
    EqRules((1 - c * c) * (1 - c * c), 0);
    Sum((1 - c * c) * (1 - c * c), (1 - c * c) * (1 - c * c), d * ((A * B) * (A * B)), d * m);
    EqTransSym(left, (1 - c * c) * (1 - c * c) + d * m, (1 - c * c) * (1 - c * c) + d * ((A * B) * (A * B)));
  }

  lemma Weights(x: int, y: int, u: int, v: int)
    ensures ((u * v) * (u * v)) * (y * y) == (u * u) * ((y * v) * (y * v))
    ensures ((u * v) * (u * v)) * (x * x) == (v * v) * ((x * u) * (x * u))
  {
    SquaresCommute(u, v);
    SquaresCommute(y, v);
    SquaresCommute(x, u);
    assert ((u * u) * (v * v)) * (y * y) == (u * u) * ((y * y) * (v * v));
    assert ((u * u) * (v * v)) * (x * x) == (v * v) * ((x * x) * (u * u));
  }

  lemma WeightedTerm(d: int, x: int, y: int, u: int, v: int)
    ensures ((u * v) * (u * v)) * (1 + d * ((x * y) * (x * y)))
         == (u * v) * (u * v) + d * (((x * u) * (y * v)) * ((x * u) * (y * v)))
  {
    var w, f := u * v, x * y;
    assert (x * u) * (y * v) == w * f;
    SquaresCommute(w, f);
    MulAdd(w * w, 1, d * (f * f));
    assert (w * w) * (d * (f * f)) == d * ((w * w) * (f * f));
  }

  // The left side of the curve equation at the sum, weighted.
  lemma WeightedLeft(x: int, y: int, u: int, v: int, A: int, B: int)
    requires Eq(x * u, A) && Eq(y * v, B)
    ensures Eq(((u * v) * (u * v)) * (y * y - x * x), (u * u) * (B * B) - (v * v) * (A * A))
  {
    hide Eq;
    Weights(x, y, u, v);
    MulSub((u * v) * (u * v), y * y, x * x);
    Square(x * u, A);
    Square(y * v, B);
    Scale(u * u, (y * v) * (y * v), B * B);
    Scale(v * v, (x * u) * (x * u), A * A);
    Sum((u * u) * ((y * v) * (y * v)), (u * u) * (B * B), (v * v) * ((x * u) * (x * u)), (v * v) * (A * A));
  }

  lemma WeightedRight(d: int, x: int, y: int, u: int, v: int, A: int, B: int)
    requires Eq(x * u, A) && Eq(y * v, B)
    ensures Eq(((u * v) * (u * v)) * (1 + d * ((x * y) * (x * y))), (u * v) * (u * v) + d * ((A * B) * (A * B)))
  {
    hide Eq;
    WeightedTerm(d, x, y, u, v);
    EqMul(x * u, A, y * v, B);
    Square((x * u) * (y * v), A * B);
    Scale(d, ((x * u) * (y * v)) * ((x * u) * (y * v)), (A * B) * (A * B));
    EqRules((u * v) * (u * v), 0);
    Sum((u * v) * (u * v), (u * v) * (u * v), d * (((x * u) * (y * v)) * ((x * u) * (y * v))), d * ((A * B) * (A * B)));
  }

  // A sum whose coordinates are A / (1 + c) and B / (1 - c) satisfies the curve equation.
  lemma QuotientOnCurve(d: int, x1: int, y1: int, x2: int, y2: int, c: int, x: int, y: int)
    requires PrimeP() && c == d * ((x1 * y1) * (x2 * y2)) && !Vanishes(1 + c) && !Vanishes(1 - c)
    requires Eq(y1 * y1 - x1 * x1, 1 + d * ((x1 * y1) * (x1 * y1)))
    requires Eq(y2 * y2 - x2 * x2, 1 + d * ((x2 * y2) * (x2 * y2)))
    requires Eq(x * (1 + c), x1 * y2 + x2 * y1) && Eq(y * (1 - c), y1 * y2 + x1 * x2)
    ensures Eq(y * y - x * x, 1 + d * ((x * y) * (x * y)))
  {
    hide Eq, PrimeP, Vanishes;
    var u, v, A, B := 1 + c, 1 - c, x1 * y2 + x2 * y1, y1 * y2 + x1 * x2;
    WeightedLeft(x, y, u, v, A, B);
    WeightedRight(d, x, y, u, v, A, B);
    NumeratorEquation(d, x1, y1, x2, y2, c);
    assert u * v == 1 - c * c;
    var k := (u * v) * (u * v);
    EqTrans(k * (y * y - x * x), (u * u) * (B * B) - (v * v) * (A * A), k + d * ((A * B) * (A * B)));
    EqTransSym(k * (y * y - x * x), k + d * ((A * B) * (A * B)), k * (1 + d * ((x * y) * (x * y))));
    VanishingFactor(u, v);
    VanishingFactor(u * v, u * v);
    CancelFactor(k, y * y - x * x, 1 + d * ((x * y) * (x * y)));
  }

  // Sums of curve points are on the curve.
  lemma SumOnCurve(d: nat, p: Point, q: Point)
    requires PrimeP() && OnCurve(d, p) && OnCurve(d, q) && Complete(d, p, q)
    ensures OnCurve(d, Plus(d, p, q))
  {
    VanishesMod(1 + Cross(d, p, q));
    VanishesMod(1 - Cross(d, p, q));
    hide Vanishes;
    var s, c := Plus(d, p, q), Cross(d, p, q);
    CrossOf(d, p.x, p.y, q.x, q.y);
    CrossOf(d, p.x, p.y, p.x, p.y);
    CrossOf(d, q.x, q.y, q.x, q.y);
    CrossOf(d, s.x, s.y, s.x, s.y);
    QuotientTimes(p.x * q.y + q.x * p.y, 1 + c);
    QuotientTimes(p.y * q.y + p.x * q.x, 1 - c);
    hide Eq, PrimeP, Mul, Inv;
    QuotientOnCurve(d, p.x, p.y, q.x, q.y, c, s.x, s.y);
  }
}
