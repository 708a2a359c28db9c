/**
 * The Montgomery form of the curve and of its twist. The x-coordinate of a ladder is u = (1 + y) / (1 - y) on
 * the curve, by the birational map of section 4.1 of RFC 7748, and -(1 + y) / (1 - y) on the twist; the
 * identity has none.
 */
module Montgomery {
  import opened Arith
  import opened Field
  import opened Edwards
  import opened EdwardsLaws
  import opened Group
  import opened MontgomeryAlgebra

  // X : Z is the x-coordinate of p, and Z = 0 for the identity: X = (1 + y) k and Z = (1 - y) k.
  ghost predicate StandsFor(X: int, Z: int, p: Point) {
    !Vanishes(X + Z) && Eq(X - Z, p.y * (X + Z))
  }

  // ---- doubling ----

  // The curve equation, solved for x^2.
  lemma SolvedForX(d: nat, p: Point)
    requires OnCurve(d, p)
    ensures Eq((1 + d * (p.y * p.y)) * (p.x * p.x), p.y * p.y - 1)
  {
    var e, f := p.y * p.y, p.x * p.x;
    CrossOf(d, p.x, p.y, p.x, p.y);
    SquaresCommute(p.x, p.y);
    assert Cross(d, p, p) == d * (f * e);
    hide Eq;
    VanishesEq(e - f, 1 + d * (f * e));
    VanishesEq(e - 1, (1 + d * e) * f);
    assert (e - f) - (1 + d * (f * e)) == (e - 1) - (1 + d * e) * f by {
      MulAssoc(d, e, f);
      MulComm(e, f);
    }
    EqRules(e - 1, (1 + d * e) * f);
  }

  lemma RatioByFactor(n: int, s: int, k: int, den: int, num: int, y: int)
    requires PrimeP() && !Vanishes(k) && !Vanishes(den)
    requires Eq(n, k * num) && Eq(s, k * den) && Eq(y * den, num)
    ensures !Vanishes(s) && Eq(n, y * s)
  {
    hide Eq, Vanishes, PrimeP;
    VanishingFactor(k, den);
    VanishesEq(s, k * den);
    Scale(y, s, k * den);
    Scale(k, y * den, num);
    assert y * (k * den) == k * (y * den);
    EqTrans(y * s, k * (y * den), k * num);
    EqTransSym(n, k * num, y * s);
  }

  // What the ladder computes of one pair stands for the double.
  lemma DoubleStands(d: nat, c: int, a: int, b: int, x: int, z: int, p: Point)
    requires CurveLaws(d) && OnCurve(d, p) && !Vanishes(a) && Eq(b, p.y * a)
    requires Eq(c * (1 + d), 1) && !Vanishes(c)
    requires Eq(x, (a * a) * (b * b))
    requires Eq(z, ((a * a - b * b) * (c - 1) + a * a) * (a * a - b * b))
    ensures StandsFor(x, z, Plus(d, p, p))
  {
    hide *;
    var e, f, s := p.y * p.y, p.x * p.x, a * a;
    SumTermsOf(d, p, p);
    NotSquare(d);
    Square(b, p.y * a);
    SquaresCommute(p.y, a);
    DoubledPair(s, b * b, e, c, x, z);
    SolvedForX(d, p);
    DoubledTerms(c, d, e, f, s * s);
    UnitPlusSquare(d, p.y);
    assert !Vanishes((c * (s * s)) * (1 + d * e)) by {
      VanishingFactor(a, a);
      VanishingFactor(s, s);
      VanishingFactor(c, s * s);
      VanishingFactor(c * (s * s), 1 + d * e);
    }
    SumOfPairs(x, e * (s * s), z, ((1 - e) * (1 + (c - 1) * (1 - e))) * (s * s),
               (c * (s * s)) * (1 + d * e), e + f, 1 - (d * e) * f);
    RatioByFactor(x - z, x + z, (c * (s * s)) * (1 + d * e), 1 - (d * e) * f, e + f, Plus(d, p, p).y);
    StandsIs(x, z, Plus(d, p, p));
  }

  lemma NotSquare(d: nat)
    requires CurveLaws(d)
    ensures PrimeP() && NonSquare(d)
  {
    hide OnCurve, Plus, PrimeP, NonSquare;
  }

  // ---- differential addition ----

  function Negated(p: Point): Point {
    Point(Sub(0, p.x), p.y)
  }

  // n is the point p with the other x.
  ghost predicate Opposite(d: nat, p: Point, n: Point) {
    OnCurve(d, n) && n.y == p.y && Eq(n.x, -(p.x as int))
  }

  lemma OppositeIs(d: nat, p: Point, n: Point)
    requires Opposite(d, p, n)
    ensures OnCurve(d, n) && n.y == p.y && Eq(n.x, -(p.x as int))
  {
    hide OnCurve, Eq;
  }

  lemma NegatedIs(p: Point)
    ensures Negated(p).x < P && Eq(Negated(p).x, -(p.x as int)) && Negated(p).y == p.y
  {
    ReducedEq(0 - p.x);
    hide Eq;
  }

  // The denominators of a sum do not vanish.
  lemma Denominators(d: nat, p: Point, q: Point)
    requires CurveLaws(d) && OnCurve(d, p) && OnCurve(d, q)
    ensures !Vanishes(1 + Cross(d, p, q)) && !Vanishes(1 - Cross(d, p, q))
    ensures (1 + Cross(d, p, q)) % P != 0 && (1 - Cross(d, p, q)) % P != 0
  {
    CompleteIs(d, p, q);
    hide Cross, CurveLaws, OnCurve, Complete, Vanishes, Eq, P;
    Closed(d, p, q);
    VanishesMod(1 + Cross(d, p, q));
    VanishesMod(1 - Cross(d, p, q));
  }

  lemma CompleteIs(d: nat, p: Point, q: Point)
    ensures Complete(d, p, q) <==> (1 + Cross(d, p, q)) % P != 0 && (1 - Cross(d, p, q)) % P != 0
  {
    hide Cross, P;
  }

  lemma PlusIs(d: nat, p: Point, q: Point)
    ensures Plus(d, p, q).x == Mul(p.x * q.y + q.x * p.y, Inv(1 + Cross(d, p, q)))
    ensures Plus(d, p, q).y == Mul(p.y * q.y + p.x * q.x, Inv(1 - Cross(d, p, q)))
  {
    hide Cross, Mul, Inv;
  }

  // The terms of a sum of curve points, over m = y1 y2 and n = x1 x2.
  lemma SumTermsOf(d: nat, p: Point, q: Point)
    requires CurveLaws(d) && OnCurve(d, p) && OnCurve(d, q)
    ensures var (m, n) := (p.y * q.y, p.x * q.x);
            && Eq(Plus(d, p, q).y * (1 - (d * m) * n), m + n)
            && !Vanishes(1 - (d * m) * n) && !Vanishes(1 + (d * m) * n)
  {
    hide *;
    CrossForm(d, p, q);
    Denominators(d, p, q);
    Prime(d);
    PlusIs(d, p, q);
    QuotientTimes(p.y * q.y + p.x * q.x, 1 - Cross(d, p, q));
  }

  lemma CrossForm(d: nat, p: Point, q: Point)
    ensures Cross(d, p, q) == (d * (p.y * q.y)) * (p.x * q.x)
  {
    
    var m, n := p.y * q.y, p.x * q.x;
    MulAssoc(d, n, m);
    MulComm(n, m);
    MulAssoc(d, m, n);
  }

  // Subtracting undoes adding.
  lemma Difference(d: nat, p: Point, n: Point, g: Point)
    requires CurveLaws(d) && OnCurve(d, p) && OnCurve(d, g) && Opposite(d, p, n)
    ensures Plus(d, n, Plus(d, p, g)) == g
  {
    hide *;
    OppositeIs(d, p, n);
    SumWithOpposite(d, p, n);
    PlusCommutes(d, p, n);
    Associates(d, n, p, g);
    IdentityOf(d, g);
  }

  lemma NegatedQuotients(d: nat, p: Point, n: Point)
    requires CurveLaws(d) && OnCurve(d, p) && OnCurve(d, n) && n.y == p.y && Eq(n.x, -(p.x as int))
    ensures Eq(p.x * n.y + n.x * p.y, 0)
    ensures Eq(p.y * n.y + p.x * n.x, 1 - Cross(d, p, n))
  {
    hide Eq, Vanishes, CurveLaws;
    NegatedTerms(p.x, p.y, n.x, d);
  }

  lemma SumWithOpposite(d: nat, p: Point, n: Point)
    requires CurveLaws(d) && OnCurve(d, p) && Opposite(d, p, n)
    ensures Plus(d, p, n) == O
  {
    hide *;
    OppositeSumX(d, p, n);
    OppositeSumY(d, p, n);
    IdentityIs(Plus(d, p, n));
  }

  lemma OppositeSumX(d: nat, p: Point, n: Point)
    requires CurveLaws(d) && OnCurve(d, p) && Opposite(d, p, n)
    ensures Plus(d, p, n).x == 0
  {
    hide *;
    OppositeIs(d, p, n);
    NegatedQuotients(d, p, n);
    Denominators(d, p, n);
    Prime(d);
    PlusIs(d, p, n);
    QuotientIsUnit(p.x * n.y + n.x * p.y, 1 + Cross(d, p, n));
  }

  lemma OppositeSumY(d: nat, p: Point, n: Point)
    requires CurveLaws(d) && OnCurve(d, p) && Opposite(d, p, n)
    ensures Plus(d, p, n).y == 1
  {
    hide *;
    OppositeIs(d, p, n);
    NegatedQuotients(d, p, n);
    Denominators(d, p, n);
    Prime(d);
    PlusIs(d, p, n);
    QuotientIsUnit(p.y * n.y + p.x * n.x, 1 - Cross(d, p, n));
  }

  lemma IdentityIs(p: Point)
    ensures p == O <==> p.x == 0 && p.y == 1
  {
  }

  // The y-coordinates of the sum and the difference of two points, by those of the points.
  lemma SumAndDifferenceOf(d: nat, p: Point, q: Point, g: Point)
    requires CurveLaws(d) && OnCurve(d, p) && OnCurve(d, g) && q == Plus(d, p, g)
    ensures var (m, t, s) := (p.y * q.y, p.y * p.y + q.y * q.y, Plus(d, p, q).y);
            Eq(((1 + s) * (1 + g.y)) * (t - 2 * m), ((1 - s) * (1 - g.y)) * (t + 2 * m))
  {
    hide *;
    var m, n, n', t := p.y * q.y, p.x * q.x, q.x * Negated(p).x, p.y * p.y + q.y * q.y;
    Prime(d);
    Closed(d, p, g);
    SumTermsOf(d, p, q);
    DifferenceTerms(d, p, q, g);
    SquareOfX(d, p, q);
    SumAndDifference(Plus(d, p, q).y, g.y, m, n, t, d);
  }

  lemma DifferenceTerms(d: nat, p: Point, q: Point, g: Point)
    requires CurveLaws(d) && OnCurve(d, p) && OnCurve(d, q) && OnCurve(d, g) && q == Plus(d, p, g)
    ensures var (m, n) := (p.y * q.y, p.x * q.x); Eq(g.y * (1 + (d * m) * n), m - n)
  {
    hide CurveLaws, Plus, Coordinate;
    var r := Negated(p);
    assert Opposite(d, p, r) by {
      NegatedIs(p);
      hide Eq, Negated;
      NegatedEquation(p.x, r.x, p.y * p.y, d);
    }
    hide *;
    OppositeIs(d, p, r);
    Difference(d, p, r, g);
    OppositeTerms(d, p, r, q);
  }

  lemma OppositeTerms(d: nat, p: Point, r: Point, q: Point)
    requires CurveLaws(d) && OnCurve(d, r) && OnCurve(d, q) && r.y == p.y && Eq(r.x, -(p.x as int))
    ensures var (m, n) := (p.y * q.y, p.x * q.x); Eq(Plus(d, r, q).y * (1 + (d * m) * n), m - n)
  {
    hide *;
    SumTermsOf(d, r, q);
    Scale(q.x, r.x, -(p.x as int));
    var m, n, n' := p.y * q.y, p.x * q.x, r.x * q.x;
    assert -(p.x as int) * q.x == -n;
    NegatedInTerms(Plus(d, r, q).y, d * m, m, n, n');
  }

  // The product of the two curve equations.
  lemma SquareOfX(d: nat, p: Point, q: Point)
    requires CurveLaws(d) && OnCurve(d, p) && OnCurve(d, q)
    ensures var (m, n, t) := (p.y * q.y, p.x * q.x, p.y * p.y + q.y * q.y);
            var w := 1 + (d * m) * (d * m) + d * t;
            !Vanishes(w) && Eq((n * n) * w, 1 + m * m - t)
  {
    hide *;
    NotSquare(d);
    SolvedForX(d, p);
    SolvedForX(d, q);
    UnitPlusSquare(d, p.y);
    UnitPlusSquare(d, q.y);
    SquaresCommute(p.y, q.y);
    SquaresCommute(p.x, q.x);
    SolvedTogether(d, p.y * p.y, q.y * q.y, p.x * p.x, q.x * q.x, p.y * q.y, p.x * q.x);
  }

  // u is the x-coordinate of g, which is neither the identity nor the point of order two.
  ghost predicate Coordinate(u: int, g: Point) {
    Eq(u * (1 - g.y), 1 + g.y) && !Vanishes(1 - g.y) && !Vanishes(u)
  }

  // What the ladder computes of two pairs stands for the sum, if u is the x-coordinate of their difference.
  lemma AddStands(d: nat, a: int, b: int, a': int, b': int, u: int, x: int, z: int, p: Point, q: Point, g: Point)
    requires CurveLaws(d) && OnCurve(d, p) && OnCurve(d, g) && q == Plus(d, p, g) && Coordinate(u, g)
    requires !Vanishes(a) && Eq(b, p.y * a) && !Vanishes(a') && Eq(b', q.y * a')
    requires Eq(x, (b' * a + a' * b) * (b' * a + a' * b)) && Eq(z, ((b' * a - a' * b) * (b' * a - a' * b)) * u)
    ensures StandsFor(x, z, Plus(d, p, q))
  {
    hide *;
    NotSquare(d);
    AddedPair(a, b, a', b', p.y, q.y, u, x, z);
    VanishingFactor(a, a');
    VanishingFactor(a * a', a * a');
    AddedStands(d, u, (a * a') * (a * a'), x, z, p, q, g);
  }

  lemma AddedStands(d: nat, u: int, k: int, x: int, z: int, p: Point, q: Point, g: Point)
    requires CurveLaws(d) && OnCurve(d, p) && OnCurve(d, g) && q == Plus(d, p, g) && Coordinate(u, g) && !Vanishes(k)
    requires var (t, m) := (p.y * p.y + q.y * q.y, p.y * q.y); Eq(x, (t + 2 * m) * k) && Eq(z, ((t - 2 * m) * k) * u)
    ensures StandsFor(x, z, Plus(d, p, q))
  {
    hide *;
    var t, m, s := p.y * p.y + q.y * q.y, p.y * q.y, Plus(d, p, q).y;
    NotSquare(d);
    CoordinateIs(u, g);
    SumAndDifferenceOf(d, p, q, g);
    AddedRatio(s, g.y, u, t + 2 * m, t - 2 * m, k, x, z);
    NotBothVanish(u, k, t + 2 * m, t - 2 * m, x, z);
    SquaresRemain(d, u, p, q, g);
    SumRemains(x, z, s);
    StandsIs(x, z, Plus(d, p, q));
  }

  lemma CoordinateIs(u: int, g: Point)
    ensures Coordinate(u, g) <==> Eq(u * (1 - g.y), 1 + g.y) && !Vanishes(1 - g.y) && !Vanishes(u)
  {
    hide Eq, Vanishes;
  }

  lemma StandsIs(X: int, Z: int, p: Point)
    ensures StandsFor(X, Z, p) <==> !Vanishes(X + Z) && Eq(X - Z, p.y * (X + Z))
  {
    hide Eq, Vanishes;
  }

  lemma SquaresRemain(d: nat, u: int, p: Point, q: Point, g: Point)
    requires CurveLaws(d) && OnCurve(d, p) && OnCurve(d, g) && q == Plus(d, p, g) && Coordinate(u, g)
    ensures var (t, m) := (p.y * p.y + q.y * q.y, p.y * q.y); !(Vanishes(t + 2 * m) && Vanishes(t - 2 * m))
  {
    hide *;
    var y: int, y': int := p.y, q.y;
    NotSquare(d);
    VanishingSquare(y, y');
    VanishingSquare(y, -y');
    assert y * -y' == -(y * y') && -y' * -y' == y' * y';
    if Vanishes(y + y') && Vanishes(y - y') { BothVanish(y, y'); }
    SomeYRemains(d, u, p, q, g);
  }

  lemma SomeYRemains(d: nat, u: int, p: Point, q: Point, g: Point)
    requires CurveLaws(d) && OnCurve(d, p) && OnCurve(d, g) && q == Plus(d, p, g) && Coordinate(u, g)
    ensures !(Vanishes(p.y) && Vanishes(q.y))
  {
    CoordinateIs(u, g);
    hide *;
    NotSquare(d);
    Closed(d, p, g);
    var m, n, t := p.y * q.y, p.x * q.x, p.y * p.y + q.y * q.y;
    if Vanishes(p.y) && Vanishes(q.y) {
      VanishingProduct(p.y, q.y);
      VanishingProduct(p.y, p.y);
      VanishingProduct(q.y, q.y);
      OneMore(q.y * q.y, p.y * p.y);
      VanishesEq(q.y * q.y + p.y * p.y, q.y * q.y);
      DifferenceTerms(d, p, q, g);
      SquareOfX(d, p, q);
      QuarterPoints(g.y, m, n, t, d);
      VanishingFactor(1 + g.y, 1 - g.y);
      VanishesEq(u * (1 - g.y), 1 + g.y);
      VanishingFactor(u, 1 - g.y);
    }
  }

  // ---- the x-coordinate as a number ----

  // X : Z is the x-coordinate of p on a side.
  ghost predicate Stands(s: Side, X: int, Z: int, p: Point) {
    StandsFor(X, s.Signed(Z), p)
  }

  // The x-coordinate of p on a side, and zero for the identity.
  function UOf(s: Side, p: Point): (u: nat)
    ensures u < P
  {
    Mul(s.Signed(1 + p.y), Inv(1 - p.y))
  }

  // It is zero for the identity and the point of order two only.
  lemma UOfZero(s: Side, p: Point)
    requires PrimeP()
    ensures UOf(s, p) == 0 <==> Vanishes((1 + p.y) * (1 - p.y))
  {
    var n, den := s.Signed(1 + p.y), 1 - p.y;
    VanishesMod(n * Inv(den));
    VanishesMod(den);
    assert UOf(s, p) == (n * Inv(den)) % P;
    hide Eq, Vanishes, Inv, PrimeP, UOf;
    VanishingFactor(1 + p.y, den);
    VanishingFactor(n, Inv(den));
    VanishesNegated(1 + p.y);
    InverseRemains(den);
  }

  lemma InverseRemains(den: int)
    requires PrimeP()
    ensures Vanishes(Inv(den)) <==> Vanishes(den)
  {
    VanishesMod(den);
    VanishesMod(Inv(den));
    hide Eq, Vanishes, Mul, PrimeP, P;
    ModSmall(Inv(den), P);
    if den % P == 0 {
      InverseOfReduced(den);
      ZeroInverse();
    } else {
      InvWorks(den);
    }
  }

  lemma InverseOfReduced(den: int)
    requires den % P == 0
    ensures Inv(den) == Inv(0)
  {
    hide Mul;
    ZeroInverse();
    EqIsMod(den, 0);
    hide Eq, P;
    EqRules(Pow(den, P - 3), 0);
    SameMul(den, 0, Pow(den, P - 3), Pow(den, P - 3));
    MulZero(Pow(den, P - 3));
    assert Pow(den, P - 2) == Mul(den, Pow(den, P - 3));
  }

  // The quotient that ends the ladder, of pairs with one ratio: zero if both denominators vanish.
  lemma SameRatio(x: int, z: int, n: int, den: int)
    requires PrimeP() && Eq(x * den, z * n) && (Vanishes(z) <==> Vanishes(den))
    ensures Mul(x, Inv(z)) == Mul(n, Inv(den))
  {
    hide *;
    if Vanishes(z) {
      InverseVanishes(z);
      InverseVanishes(den);
      MulZero(x);
      MulZero(n);
    } else {
      SameQuotient(x, z, n, den);
    }
  }

  lemma InverseVanishes(den: int)
    requires PrimeP() && Vanishes(den)
    ensures Inv(den) == 0
  {
    VanishesMod(Inv(den));
    hide *;
    InverseRemains(den);
    ModSmall(Inv(den), P);
  }

  // The ratio of a pair is the x-coordinate of the point that it stands for.
  lemma RatioStands(s: Side, x: int, z: int, p: Point)
    requires PrimeP() && Stands(s, x, z, p)
    ensures Eq(x * (1 - p.y), z * s.Signed(1 + p.y)) && (Vanishes(z) <==> Vanishes(1 - p.y))
  {
    var w := s.Signed(z);
    StandsIs(x, w, p);
    hide Eq, Vanishes, PrimeP, StandsFor;
    CrossRatio(x, w, p.y);
    Infinite(x, w, p.y);
    VanishesNegated(z);
    assert w * (1 + p.y) == z * s.Signed(1 + p.y);
  }

  lemma UOfIsCoordinate(s: Side, g: Point)
    requires PrimeP() && UOf(s, g) != 0
    ensures Coordinate(s.Signed(UOf(s, g)), g)
  {
    var u: int, n, den := UOf(s, g), s.Signed(1 + g.y), 1 - g.y;
    VanishesMod(den);
    hide Eq, Vanishes, Mul, Inv, PrimeP;
    UOfZero(s, g);
    VanishingProduct(1 + g.y, den);
    QuotientTimes(n, den);
    SmallRemains(u);
    VanishesNegated(u);
    EqNegated(u * den, n);
    assert -u * den == -(u * den);
  }

  // ---- points of the Montgomery curves ----

  // g is a point of a side with x-coordinate u.
  ghost predicate IsPointAt(s: Side, g: Point, u: nat) {
    OnCurve(s.Coefficient(), g) && UOf(s, g) == u
  }

  lemma PointAt(s: Side, g: Point, u: nat)
    ensures IsPointAt(s, g, u) <==> OnCurve(s.Coefficient(), g) && UOf(s, g) == u
  {
    hide OnCurve, UOf;
  }

  lemma UnitCoordinate(e: int, y: int)
    requires PrimeP() && Eq(y * (e + 1), e - 1)
    ensures !Vanishes(1 - y) && Eq(1 + y, e * (1 - y))
  {
    hide Eq, Vanishes, PrimeP;
    VanishesEq(y * (e + 1), e - 1);
    VanishesEq(e * (1 - y), 1 + y);
    assert e * (1 - y) - (1 + y) == -(y * (e + 1) - (e - 1));
    VanishesNegated(y * (e + 1) - (e - 1));
    VanishingProduct(e, 1 - y);
    VanishingSum(1, y);
    UnitDoesNotVanish(1);
    EqRules(e * (1 - y), 1 + y);
  }

  lemma UOfIs(s: Side, p: Point)
    ensures UOf(s, p) == Mul(s.Signed(1 + p.y), Inv(1 - p.y))
  {
    hide Mul, Inv;
  }

  // Every point of either Montgomery curve with u != 0 comes from an Edwards point: x = c u / v, and
  // y = (u - 1) / (u + 1) with the sign of the side.
  lemma EdwardsPoint(s: Side, u: nat, v: int)
    requires PrimeP() && NonSquare(D) && 0 < u < P && s.Contains(u, v)
    ensures exists g :: IsPointAt(s, g, u)
  {
    var d, e, a, w, f := s.Coefficient(), s.Signed(u), s.Signed(A), s.Weight(v), s.Factor();
    ScaleSquared();
    CoefficientRatio();
    TwistScaleSquared();
    hide Eq, Vanishes, PrimeP, NonSquare, OnCurve, UOf, Mul, Inv, D, D_TWIST, SCALE, SQRT_M1;
    SmallRemains(u);
    FactorsRemain(s, u, v);
    var g := Quotients(f * u, v, e - 1, e + 1);
    assert Eq(w, e * (e * e + a * e + 1)) && Eq((g.x * g.x) * w, -(a + 2) * (e * e)) by {
      var r := if s.Curve? then -(A + 2) else A + 2;
      SquaredTimes(g.x, v, f * u);
      SquareOfScaled(u, f, r);
      EqTrans((g.x * g.x) * (v * v), (f * u) * (f * u), r * (u * u));
      assert e * e == u * u;
      if s.Twist? {
        TwistTerms(D, A, u, v * v, g.x * g.x);
        assert -(a + 2) == A - 2 && w == -(D * (v * v));
      } else {
        assert -(a + 2) == r && w == v * v;
      }
    }
    assert Eq(d * -(a + 2), a - 2);
    UnitCoordinate(e, g.y);
    EqNegated(1 + g.y, e * (1 - g.y));
    assert Eq(s.Signed(1 + g.y), u * (1 - g.y)) by { assert -e * (1 - g.y) == -(e * (1 - g.y)); }
    hide *;
    QuotientIs(s.Signed(1 + g.y), 1 - g.y, u);
    UOfIs(s, g);
    SquaredTimes(g.y, e + 1, e - 1);
    EdwardsEquation(a, e, w, g.y * g.y, g.x * g.x, d);
    SquaresOnCurve(d, g);
    PointAt(s, g, u);
  }

  // The point whose coordinates are two quotients.
  lemma Quotients(n: int, v: int, m: int, w: int) returns (g: Point)
    requires PrimeP() && !Vanishes(v) && !Vanishes(w)
    ensures g.x < P && g.y < P && Eq(g.x * v, n) && Eq(g.y * w, m)
  {
    VanishesMod(v);
    VanishesMod(w);
    hide *;
    g := Point(Mul(n, Inv(v)), Mul(m, Inv(w)));
    QuotientTimes(n, v);
    QuotientTimes(m, w);
  }

  lemma SquaresOnCurve(d: nat, g: Point)
    requires g.x < P && g.y < P && Eq(g.y * g.y - g.x * g.x, 1 + d * ((g.x * g.x) * (g.y * g.y)))
    ensures OnCurve(d, g)
  {
    MulAssoc(d, g.x * g.x, g.y * g.y);
    hide Eq;
  }

  lemma InverseOfD()
    requires PrimeP()
    ensures Eq(D * Inv(D), 1)
  {
    hide PrimeP, Mul, Inv, Eq;
    assert D % P != 0;
    InvWorks(D);
    MulIsEq(D, Inv(D), 1);
  }

  // If c is not a square, c / d is one.
  lemma TwistRoot(c: int) returns (v: int)
    requires PrimeP() && NonSquare(D) && c % P != 0 && forall r :: !IsRoot(r, c % P)
    ensures Eq(D * (v * v), c)
  {
    RootOfProduct(c);
    hide *;
    var w :| Eq(w * w, c * D);
    InverseOfD();
    v := w * Inv(D);
    RootQuotient(D, Inv(D), w, c);
  }

  lemma RootQuotient(d: int, i: int, w: int, c: int)
    requires Eq(d * i, 1) && Eq(w * w, c * d)
    ensures Eq(d * ((w * i) * (w * i)), c)
  {
    hide Eq;
    var k := d * (i * i);
    Scale(k, w * w, c * d);
    Square(d * i, 1);
    Scale(c, (d * i) * (d * i), 1);
    RootTerms(d, i, w, c);
    EqTrans((w * w) * k, (c * d) * k, c);
  }

  lemma RootTerms(d: int, i: int, w: int, c: int)
    ensures d * ((w * i) * (w * i)) == (w * w) * (d * (i * i))
    ensures (c * d) * (d * (i * i)) == c * ((d * i) * (d * i))
  {
    SquaresCommute(w, i);
    MulAssoc(d, w * w, i * i);
    MulComm(d, w * w);
    MulAssoc(w * w, d, i * i);
    SquaresCommute(d, i);
    MulAssoc(c, d, d * (i * i));
    MulAssoc(d, d, i * i);
  }

  lemma RootOfProduct(c: int)
    requires PrimeP() && NonSquare(D) && c % P != 0 && forall r :: !IsRoot(r, c % P)
    ensures exists w :: Eq(w * w, c * D)
  {
    var k := c % P;
    assert 0 < D < P;
    hide PrimeP, Eq, Mul, P, D;
    ProductOfNonSquares(k, D);
    var w :| IsRoot(w, Mul(k, D));
    MulIsEq(w, w, Mul(k, D));
    MulIsEq(k, D, Mul(k, D));
    EqTransSym(k * D, Mul(k, D), w * w);
    ReducedEq(c);
    Scale(D, k, c);
    EqTransSym(w * w, Mul(k, D), k * D);
    EqTrans(w * w, k * D, c * D);
  }

  // Every number is on one of the two.
  lemma OnSomeSide(u: nat) returns (s: Side, v: int)
    requires PrimeP() && NonSquare(D) && 0 < u < P
    ensures s.Contains(u, v)
  {
    var c := u * (u * u + A * u + 1);
    SmallRemains(u);
    CubicRemains(u);
    VanishesMod(c);
    hide Eq, Vanishes, PrimeP, NonSquare;
    if v' :| IsRoot(v', c % P) {
      s, v := Curve, v';
      MulIsEq(v, v, c % P);
      ReducedEq(c);
      EqTrans(v * v, c % P, c);
    } else {
      s := Twist;
      v := TwistRoot(c);
    }
  }
}
