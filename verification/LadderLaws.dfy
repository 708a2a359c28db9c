/** What the ladder of X25519 computes: x-coordinates of multiples of curve points. */
module LadderLaws {
  import opened Arith
  import opened Bits
  import opened Bytes
  import opened Field
  import opened Edwards
  import opened EdwardsLaws
  import opened Group
  import opened Montgomery
  import opened MontgomeryAlgebra
  import opened Options
  import opened X25519
  import C = Curve25519
  import Points

  // The pairs of a rung stand for p and q.
  ghost predicate RungStands(s: Side, r: Rung, p: Point, q: Point) {
    Stands(s, r.x2, r.z2, p) && Stands(s, r.x3, r.z3, q)
  }

  // One step doubles the first point and adds the two.
  lemma StepStands(s: Side, u: nat, r: Rung, p: Point, q: Point, g: Point)
    requires CurveLaws(s.Coefficient()) && OnCurve(s.Coefficient(), p) && OnCurve(s.Coefficient(), g)
    requires q == Plus(s.Coefficient(), p, g) && Coordinate(s.Signed(u), g) && RungStands(s, r, p, q)
    ensures RungStands(s, Step(u, r), Plus(s.Coefficient(), p, p), Plus(s.Coefficient(), p, q))
  {
    var d := s.Coefficient();
    RungIs(s, r, p, q);
    RungIs(s, Step(u, r), Plus(d, p, p), Plus(d, p, q));
    hide *;
    StepDoubles(s, u, r, p);
    StepAdds(s, u, r, p, q, g);
  }

  lemma RungIs(s: Side, r: Rung, p: Point, q: Point)
    ensures RungStands(s, r, p, q) <==> Stands(s, r.x2, r.z2, p) && Stands(s, r.x3, r.z3, q)
  {
    hide Stands;
  }

  // On the twist, the sum and the difference of a pair change places.
  ghost predicate PairStands(s: Side, a: int, b: int, p: Point) {
    if s.Curve? then !Vanishes(a) && Eq(b, p.y * a) else !Vanishes(b) && Eq(a, p.y * b)
  }

  lemma StepDoubles(s: Side, u: nat, r: Rung, p: Point)
    requires CurveLaws(s.Coefficient()) && OnCurve(s.Coefficient(), p) && Stands(s, r.x2, r.z2, p)
    ensures Stands(s, Step(u, r).x2, Step(u, r).z2, Plus(s.Coefficient(), p, p))
  {
    hide C.A24, Eq, Vanishes, Field.Add, Field.Sub, Field.Mul, CurveLaws, OnCurve, Stands, Plus;
    var a, b := Field.Add(r.x2, r.z2), Field.Sub(r.x2, r.z2);
    var x, z := Step(u, r).x2, Step(u, r).z2;
    assert Eq(x, (a * a) * (b * b)) && Eq(z, ((a * a - b * b) * C.A24 + a * a) * (a * a - b * b)) by {
      var s, t, n := Field.Mul(a, a), Field.Mul(b, b), a * a - b * b;
      var e := Field.Sub(s, t);
      Reduced(a, a);
      Reduced(b, b);
      MulOfReduced(s, a * a, t, b * b);
      SumOfReduced(s, a * a, t, b * b);
      EqRules(C.A24, C.A24);
      MulOfReduced(e, n, C.A24, C.A24);
      SumOfReduced(Field.Mul(e, C.A24), n * C.A24, s, a * a);
      MulOfReduced(Field.Add(Field.Mul(e, C.A24), s), n * C.A24 + a * a, e, n);
    }
    hide *;
    Reduced(r.x2, r.z2);
    PairOf(s, r.x2, r.z2, a, b, p);
    PairDoubles(s, a, b, x, z, p);
  }

  lemma PairOf(s: Side, x: int, z: int, a: int, b: int, p: Point)
    requires Stands(s, x, z, p) && Eq(a, x + z) && Eq(b, x - z)
    ensures PairStands(s, a, b, p)
  {
    StandsIs(x, s.Signed(z), p);
    hide Eq, Vanishes, StandsFor;
    if s.Curve? { PairTerms(x, z, p.y, a, b); } else { PairTerms(x, -z, p.y, b, a); }
  }

  lemma PairDoubles(s: Side, a: int, b: int, x: int, z: int, p: Point)
    requires CurveLaws(s.Coefficient()) && OnCurve(s.Coefficient(), p) && PairStands(s, a, b, p)
    requires Eq(x, (a * a) * (b * b)) && Eq(z, ((a * a - b * b) * C.A24 + a * a) * (a * a - b * b))
    ensures Stands(s, x, z, Plus(s.Coefficient(), p, p))
  {
    assert C.A24 == C4 - 1;
    hide C.A24, C4, Eq, Vanishes, CurveLaws, OnCurve, StandsFor, Plus, Side.Coefficient;
    QuarterIs(s);
    if s.Curve? {
      DoubleStands(s.Coefficient(), s.Quarter(), a, b, x, z, p);
    } else {
      var e, k := a * a - b * b, C.A24 as int;
      MulComm(a * a, b * b);
      TwistedProduct(a * a, b * b, k);
      EqNegated(z, (e * k + a * a) * e);
      DoubleStands(s.Coefficient(), s.Quarter(), b, a, x, -z, p);
    }
  }

  lemma TwistedProduct(aa: int, bb: int, k: int)
    ensures ((bb - aa) * (-k - 1) + bb) * (bb - aa) == -(((aa - bb) * k + aa) * (aa - bb))
  {
    var e := aa - bb;
    assert (bb - aa) * (-k - 1) == e * k + e;
    assert (e * k + aa) * -e == -((e * k + aa) * e);
  }

  lemma StepAdds(s: Side, u: nat, r: Rung, p: Point, q: Point, g: Point)
    requires CurveLaws(s.Coefficient()) && OnCurve(s.Coefficient(), p) && OnCurve(s.Coefficient(), g)
    requires q == Plus(s.Coefficient(), p, g) && Coordinate(s.Signed(u), g)
    requires Stands(s, r.x2, r.z2, p) && Stands(s, r.x3, r.z3, q)
    ensures Stands(s, Step(u, r).x3, Step(u, r).z3, Plus(s.Coefficient(), p, q))
  {
    hide C.A24, Eq, Vanishes, Field.Add, Field.Sub, Field.Mul, CurveLaws, OnCurve, Stands, Coordinate, Plus;
    var a, b := Field.Add(r.x2, r.z2), Field.Sub(r.x2, r.z2);
    var a', b' := Field.Add(r.x3, r.z3), Field.Sub(r.x3, r.z3);
    var x, z := Step(u, r).x3, Step(u, r).z3;
    assert Eq(x, (b' * a + a' * b) * (b' * a + a' * b)) && Eq(z, ((b' * a - a' * b) * (b' * a - a' * b)) * u) by {
      var da, cb, v, w := Field.Mul(b', a), Field.Mul(a', b), b' * a + a' * b, b' * a - a' * b;
      var sum, dif := Field.Add(da, cb), Field.Sub(da, cb);
      Reduced(b', a);
      Reduced(a', b);
      SumOfReduced(da, b' * a, cb, a' * b);
      MulOfReduced(sum, v, sum, v);
      MulOfReduced(dif, w, dif, w);
      EqRules(u, u);
      MulOfReduced(Field.Mul(dif, dif), w * w, u, u);
    }
    hide *;
    Reduced(r.x2, r.z2);
    PairOf(s, r.x2, r.z2, a, b, p);
    Reduced(r.x3, r.z3);
    PairOf(s, r.x3, r.z3, a', b', q);
    PairsAdd(s, a, b, a', b', u, x, z, p, q, g);
  }

  lemma PairsAdd(s: Side, a: int, b: int, a': int, b': int, u: int, x: int, z: int, p: Point, q: Point, g: Point)
    requires CurveLaws(s.Coefficient()) && OnCurve(s.Coefficient(), p) && OnCurve(s.Coefficient(), g)
    requires q == Plus(s.Coefficient(), p, g) && Coordinate(s.Signed(u), g)
    requires PairStands(s, a, b, p) && PairStands(s, a', b', q)
    requires Eq(x, (b' * a + a' * b) * (b' * a + a' * b)) && Eq(z, ((b' * a - a' * b) * (b' * a - a' * b)) * u)
    ensures Stands(s, x, z, Plus(s.Coefficient(), p, q))
  {
    hide Eq, Vanishes, CurveLaws, OnCurve, StandsFor, Coordinate, Plus, Side.Coefficient;
    if s.Curve? {
      AddStands(s.Coefficient(), a, b, a', b', u, x, z, p, q, g);
    } else {
      var v, w := b' * a, a' * b;
      EqNegated(z, ((v - w) * (v - w)) * u);
      assert (w - v) * (w - v) == (v - w) * (v - w) && ((v - w) * (v - w)) * -u == -(((v - w) * (v - w)) * u);
      AddStands(s.Coefficient(), b, a, b', a', -u, x, -z, p, q, g);
    }
  }

  lemma PairTerms(x: int, z: int, y: int, a: int, b: int)
    requires !Vanishes(x + z) && Eq(x - z, y * (x + z)) && Eq(a, x + z) && Eq(b, x - z)
    ensures !Vanishes(a) && Eq(b, y * a)
  {
    hide Eq, Vanishes;
    VanishesEq(a, x + z);
    Scale(y, a, x + z);
    EqTrans(b, x - z, y * (x + z));
    EqTransSym(b, y * (x + z), y * a);
  }

  // The ladder starts with the identity and the point.
  lemma FirstRung(s: Side, u: nat, g: Point)
    requires PrimeP() && Coordinate(s.Signed(u), g)
    ensures RungStands(s, Rung(1, 0, u, 1), O, g)
  {
    CoordinateIs(s.Signed(u), g);
    StandsIs(1, 0, O);
    StandsIs(u, s.Signed(1), g);
    hide Eq, Vanishes, PrimeP, StandsFor, Coordinate;
    EqRules(1, 1);
    UnitDoesNotVanish(1);
    var e := s.Signed(u);
    CoordinateSum(e, g.y);
    VanishesNegated(e + 1);
    EqNegated(e - 1, g.y * (e + 1));
    assert g.y * -(e + 1) == -(g.y * (e + 1));
  }

  lemma CoordinateSum(u: int, y: int)
    requires PrimeP() && Eq(u * (1 - y), 1 + y) && !Vanishes(1 - y)
    ensures !Vanishes(u + 1) && Eq(u - 1, y * (u + 1))
  {
    hide Eq, Vanishes, PrimeP;
    VanishesEq(u * (1 - y), 1 + y);
    VanishesEq(u - 1, y * (u + 1));
    assert (u - 1) - y * (u + 1) == u * (1 - y) - (1 + y);
    assert (u + 1) * (1 - y) - 2 == u * (1 - y) - (1 + y);
    VanishesEq((u + 1) * (1 - y), 2);
    VanishingFactor(u + 1, 1 - y);
    UnitDoesNotVanish(1);
  }

  // With n the bits read so far, the two pairs stand for n and n + 1 times the point.
  lemma {:induction false} LadderInvariant(s: Side, k: nat, t: nat, g: Point)
    requires t <= 255 && CurveLaws(s.Coefficient()) && OnCurve(s.Coefficient(), g) && UOf(s, g) != 0
    ensures var (n, d) := (BitsRead(k, t), s.Coefficient());
            RungStands(s, Rungs(k, t, UOf(s, g)), Multiple(d, n, g), Multiple(d, n + 1, g))
    decreases 255 - t
  {
    hide *;
    var u := UOf(s, g);
    NextRung(k, t, u);
    NotSquare(s.Coefficient());
    UOfIsCoordinate(s, g);
    if t == 255 {
      FirstRung(s, u, g);
      MultipleNext(s.Coefficient(), 0, g);
      IdentityOf(s.Coefficient(), g);
    } else {
      LadderInvariant(s, k, t + 1, g);
      PassStands(s, BitsRead(k, t + 1), Rungs(k, t + 1, u), Bit(k, t), u, g);
    }
  }

  // One pass with its swaps: from m and m + 1 times the point to twice that, plus the bit.
  lemma PassStands(s: Side, m: nat, r: Rung, bit: bool, u: nat, g: Point)
    requires CurveLaws(s.Coefficient()) && OnCurve(s.Coefficient(), g) && Coordinate(s.Signed(u), g)
    requires RungStands(s, r, Multiple(s.Coefficient(), m, g), Multiple(s.Coefficient(), m + 1, g))
    ensures var (n, d) := (2 * m + if bit then 1 else 0, s.Coefficient());
            RungStands(s, if bit then Step(u, r.Swapped()).Swapped() else Step(u, r), Multiple(d, n, g), Multiple(d, n + 1, g))
  {
    hide *;
    var d := s.Coefficient();
    var p, q := Multiple(d, m, g), Multiple(d, m + 1, g);
    MultipleOnCurve(d, m, g);
    MultipleOnCurve(d, m + 1, g);
    MultipleNext(d, m, g);
    if bit {
      NeighbourBelow(d, p, g, s.Signed(u));
      SwappedStands(s, r, p, q);
      StepStands(s, u, r.Swapped(), q, p, Negated(g));
      SwappedStands(s, Step(u, r.Swapped()), Plus(d, q, q), Plus(d, q, p));
      MultipleAdd(d, m + 1, m, g);
      MultipleAdd(d, m + 1, m + 1, g);
    } else {
      StepStands(s, u, r, p, q, g);
      MultipleAdd(d, m, m, g);
      MultipleAdd(d, m, m + 1, g);
    }
  }

  lemma NextRung(k: nat, t: nat, u: nat)
    requires t <= 255 && u < P
    ensures t == 255 ==> Rungs(k, t, u) == Rung(1, 0, u, 1) && BitsRead(k, t) == 0
    ensures t < 255 ==> Rungs(k, t, u) == (var r := Rungs(k, t + 1, u); if Bit(k, t) then Step(u, r.Swapped()).Swapped() else Step(u, r))
    ensures t < 255 ==> BitsRead(k, t) == 2 * BitsRead(k, t + 1) + if Bit(k, t) then 1 else 0
  {
    hide Step, Bit;
  }

  lemma SwappedStands(s: Side, r: Rung, p: Point, q: Point)
    ensures RungStands(s, r.Swapped(), q, p) <==> RungStands(s, r, p, q)
  {
    hide Stands;
  }

  // From the other side, the difference of the two points is the negated one, with the same x-coordinate.
  lemma NeighbourBelow(d: nat, p: Point, g: Point, u: int)
    requires CurveLaws(d) && OnCurve(d, p) && OnCurve(d, g) && Coordinate(u, g)
    ensures OnCurve(d, Negated(g)) && Coordinate(u, Negated(g)) && Plus(d, Plus(d, p, g), Negated(g)) == p
  {
    hide CurveLaws, Plus, Coordinate;
    var n := Negated(g);
    assert Opposite(d, g, n) by {
      NegatedIs(g);
      hide Eq, Negated;
      NegatedEquation(g.x, n.x, g.y * g.y, d);
    }
    hide *;
    OppositeIs(d, g, n);
    CoordinateIs(u, g);
    CoordinateIs(u, n);
    Associates(d, p, g, n);
    SumWithOpposite(d, g, n);
    IdentityOf(d, p);
  }

  // ---- the x-coordinate zero ----

  // From a zero in each pair, a step with x-coordinate zero makes both of its z zero.
  lemma StepFromZero(r: Rung)
    requires r.Canonical() && (r.x2 == 0 || r.z2 == 0)
    ensures Step(0, r).z2 == 0 == Step(0, r).z3
  {
    assert Mul(Field.Add(r.x2, r.z2), Field.Add(r.x2, r.z2)) == Mul(Field.Sub(r.x2, r.z2), Field.Sub(r.x2, r.z2)) by {
      hide C.A24, Step;
      SameSquares(r.x2, r.z2);
    }
    hide C.A24, Field.Add;
    hide Field.Mul;
    SubItself(Mul(Field.Add(r.x2, r.z2), Field.Add(r.x2, r.z2)));
    forall a: int ensures Mul(a, 0) == 0 { MulZero(a); }
  }

  lemma SubItself(a: int)
    ensures Field.Sub(a, a) == 0
  {
  }

  lemma SameSquares(x: nat, z: nat)
    requires x == 0 || z == 0
    ensures Mul(Field.Add(x, z), Field.Add(x, z)) == Mul(Field.Sub(x, z), Field.Sub(x, z))
  {
    hide Eq, Field.Add, Field.Sub, Field.Mul;
    var a, b := Field.Add(x, z), Field.Sub(x, z);
    Reduced(x, z);
    Square(a, x + z);
    Square(b, (x as int) - z);
    SquaresWithZero(x, z);
    EqTransSym(a * a, (x + z) * (x + z), b * b);
    Reduced(a, a);
    Reduced(b, b);
    EqTrans(Mul(a, a), a * a, b * b);
    EqRules(Mul(b, b), b * b);
    EqTrans(Mul(a, a), b * b, Mul(b, b));
    SameReduced(Mul(a, a), Mul(b, b));
  }

  lemma SquaresWithZero(x: int, z: int)
    requires x == 0 || z == 0
    ensures (x + z) * (x + z) == (x - z) * (x - z)
  {
  }

  lemma {:induction false} ZeroRungs(k: nat, t: nat)
    requires t <= 255
    ensures var r := Rungs(k, t, 0); (r.x2 == 0 || r.z2 == 0) && (r.x3 == 0 || r.z3 == 0) && (t < 255 ==> r.z2 == 0)
    decreases 255 - t
  {
    hide Rungs, Step, Bit, BitsRead, P;
    NextRung(k, t, 0);
    if t == 255 {
    } else {
      ZeroRungs(k, t + 1);
      var r := Rungs(k, t + 1, 0);
      StepFromZero(r);
      StepFromZero(r.Swapped());
    }
  }

  // The ladder takes zero to zero.
  lemma LadderOfZero(k: nat)
    ensures Ladder(k, 0) == 0
  {
    LadderIs(k, 0);
    hide *;
    ZeroRungs(k, 0);
    ZeroInverse();
    MulZero(Rungs(k, 0, 0).x2);
  }

  // ---- multiplication ----

  // The points with x-coordinate zero: the identity and the point of order two.
  ghost predicate Halved(p: Point) {
    p.x == 0 && Eq(p.y * p.y, 1)
  }

  lemma HalvedIs(d: nat, c: int, p: Point)
    requires PrimeP() && OnCurve(d, p) && Eq(c * (1 + d), 1)
    ensures Halved(p) <==> Vanishes((1 + p.y) * (1 - p.y))
  {
    hide *;
    var e := p.y * p.y;
    CoordinatesReduced(d, p);
    EquationOf(d, p);
    assert (1 + p.y) * (1 - p.y) == 1 - e;
    VanishesEq(1, e);
    EqRules(1, e);
    EqRules(e, 1);
    HalvedForm(p);
    if Eq(e, 1) { OrderTwo(d, c, e, p.x); }
  }

  lemma HalvedForm(p: Point)
    ensures Halved(p) <==> p.x == 0 && Eq(p.y * p.y, 1)
  {
    hide Eq;
  }

  lemma EquationOf(d: nat, p: Point)
    requires OnCurve(d, p)
    ensures var (e, f) := (p.y * p.y, p.x * p.x); Eq(e - f, 1 + d * (f * e))
  {
    CrossOf(d, p.x, p.y, p.x, p.y);
    SquaresCommute(p.x, p.y);
    assert Cross(d, p, p) == d * ((p.x * p.x) * (p.y * p.y));
    hide Eq, Cross;
  }

  lemma OrderTwo(d: int, c: int, e: int, x: nat)
    requires PrimeP() && x < P && Eq(c * (1 + d), 1) && Eq(e, 1) && Eq(e - x * x, 1 + d * ((x * x) * e))
    ensures x == 0
  {
    hide Eq, Vanishes, PrimeP;
    var f := x * x;
    EqRules(f, f);
    EqAdd(e, 1, f, f);
    Scale(f, e, 1);
    Scale(d, f * e, f);
    EqRules(1, 1);
    EqAdd(1, 1, d * (f * e), d * f);
    EqTrans(e - f, 1 + d * (f * e), 1 + d * f);
    EqRules(e - f, 1 - f);
    EqTrans(1 - f, e - f, 1 + d * f);
    VanishesEq(1 + d * f, 1 - f);
    EqRules(1 - f, 1 + d * f);
    assert (1 + d * f) - (1 - f) == (1 + d) * f;
    VanishesEq(c * (1 + d), 1);
    VanishingProduct(c, 1 + d);
    UnitDoesNotVanish(1);
    VanishingFactor(1 + d, f);
    VanishingFactor(x, x);
    if x != 0 { SmallRemains(x); }
  }

  lemma InverseOfOne()
    ensures Inv(1) == 1
  {
    PowOfOne(P - 2);
  }

  lemma {:induction false} HalvedMultiple(d: nat, k: nat, p: Point)
    requires Halved(p)
    ensures Halved(Multiple(d, k, p))
  {
    hide *;
    MultipleNext(d, if k == 0 then 0 else k - 1, p);
    HalvedForm(Multiple(d, k, p));
    if k == 0 {
      HalvedIdentity();
    } else {
      var q := Multiple(d, k - 1, p);
      HalvedMultiple(d, k - 1, p);
      HalvedForm(q);
      HalvedForm(p);
      PlusIs(d, q, p);
      HalvedQuotients(d, q, p);
      InverseOfOne();
      MulZero(Inv(1));
      var y, m := Multiple(d, k, p).y, q.y * p.y;
      Reduced(m, 1);
      assert m * 1 == m;
      Square(y, m);
      SquaresCommute(q.y, p.y);
      EqMul(q.y * q.y, 1, p.y * p.y, 1);
      EqTrans(y * y, m * m, 1);
    }
  }

  lemma HalvedQuotients(d: nat, p: Point, q: Point)
    requires p.x == 0 == q.x
    ensures 1 + Cross(d, p, q) == 1 - Cross(d, p, q) == 1
    ensures p.x * q.y + q.x * p.y == 0 && p.y * q.y + p.x * q.x == p.y * q.y
  {
  }

  lemma HalvedIdentity()
    ensures Halved(O)
  {
    EqRules(1, 1);
    hide Eq;
  }

  // The ladder is multiplication by the scalar without its top bit, on the curve and on the twist.
  lemma LadderMultiplies(s: Side, k: nat, g: Point)
    requires CurveLaws(s.Coefficient()) && OnCurve(s.Coefficient(), g)
    ensures Ladder(k, UOf(s, g)) == UOf(s, Multiple(s.Coefficient(), k % C.TOP, g))
  {
    hide *;
    var u, n, d := UOf(s, g), BitsRead(k, 0), s.Coefficient();
    AllBits(k);
    NotSquare(d);
    MultipleOnCurve(d, n, g);
    if u == 0 {
      LadderOfZero(k);
      QuarterIs(s);
      UOfZero(s, g);
      HalvedIs(d, s.Quarter(), g);
      HalvedMultiple(d, n, g);
      HalvedIs(d, s.Quarter(), Multiple(d, n, g));
      UOfZero(s, Multiple(d, n, g));
    } else {
      var r := Rungs(k, 0, u);
      LadderIs(k, u);
      CoordinatesReduced(d, g);
      LadderInvariant(s, k, 0, g);
      CoordinatesReduced(d, Multiple(d, n, g));
      FirstStands(s, r, Multiple(d, n, g), Multiple(d, n + 1, g));
      RatioStands(s, r.x2, r.z2, Multiple(d, n, g));
      UOfIs(s, Multiple(d, n, g));
      SameRatio(r.x2, r.z2, s.Signed(1 + Multiple(d, n, g).y), 1 - Multiple(d, n, g).y);
    }
  }

  lemma CoefficientIs(s: Side)
    ensures s.Coefficient() == if s.Curve? then D else D_TWIST
  {
  }

  lemma UnitsVanish()
    ensures Vanishes((1 + O.y) * (1 - O.y))
  {
    VanishesEq(0, 0);
    hide Vanishes;
  }

  // Every number is the x-coordinate of a point, of the curve or of the twist.
  lemma EveryCoordinate(u: nat)
    requires PrimeP() && NonSquare(D) && u < P
    ensures exists s, g :: IsPointAt(s, g, u)
  {
    hide *;
    if u == 0 {
      CoefficientIs(Curve);
      IdentityOnCurve(D);
      UnitsVanish();
      UOfZero(Curve, O);
      PointAt(Curve, O, u);
    } else {
      var s, v := OnSomeSide(u);
      EdwardsPoint(s, u, v);
    }
  }

  // Ladders commute, whatever number they start from.
  lemma LaddersCommute(m: nat, n: nat, u: nat)
    requires CurveLaws(D) && CurveLaws(D_TWIST) && u < P
    ensures Ladder(m, Ladder(n, u)) == Ladder(n, Ladder(m, u))
  {
    var a, b := m % C.TOP, n % C.TOP;
    hide *;
    NotSquare(D);
    EveryCoordinate(u);
    var s, g :| IsPointAt(s, g, u);
    PointAt(s, g, u);
    CoefficientIs(s);
    LadderTwice(s, m, n, g);
    LadderTwice(s, n, m, g);
    MulComm(a, b);
  }

  lemma LadderTwice(s: Side, m: nat, n: nat, g: Point)
    requires CurveLaws(s.Coefficient()) && OnCurve(s.Coefficient(), g)
    ensures var (a, b) := (m % C.TOP, n % C.TOP);
            0 <= a * b && Ladder(m, Ladder(n, UOf(s, g))) == UOf(s, Multiple(s.Coefficient(), a * b, g))
  {
    var a, b, d := m % C.TOP, n % C.TOP, s.Coefficient();
    hide *;
    LadderMultiplies(s, n, g);
    MultipleOnCurve(d, b, g);
    LadderMultiplies(s, m, Multiple(d, b, g));
    MultipleTimes(d, a, b, g);
  }

  lemma LadderIs(k: nat, u: nat)
    requires u < P
    ensures var r := Rungs(k, 0, u); r.x2 < P && r.z2 < P && Ladder(k, u) == Mul(r.x2, Inv(r.z2))
  {
    hide Rungs, Mul, Inv;
  }

  lemma AllBits(k: nat)
    ensures BitsRead(k, 0) == k % C.TOP
  {
    hide BitsRead, C.TOP;
    BitsReadAll(k, 0);
    C.TopIsPow2();
    assert Pow2(0) == 1;
    hide Pow2;
  }

  lemma FirstStands(s: Side, r: Rung, p: Point, q: Point)
    requires RungStands(s, r, p, q)
    ensures Stands(s, r.x2, r.z2, p)
  {
    hide Stands;
  }

  // ---- the key exchange ----

  lemma BaseIsNine()
    requires PrimeP()
    ensures UOf(Curve, Points.B) == 9
  {
    EqIsMod(Points.B.y * (9 + 1), 9 - 1);
    hide Eq, Vanishes, Mul, Inv, PrimeP;
    UnitCoordinate(9, Points.B.y);
    QuotientIs(1 + Points.B.y, 1 - Points.B.y, 9);
  }

  // A secret's public key is the x-coordinate of its multiple of the base point.
  lemma PublicIs(f: Bytes)
    requires CurveLaws(D)
    ensures OnCurve(D, Multiple(D, LE(f) % C.TOP, Points.B))
    ensures LE(Public(f)) == UOf(Curve, Multiple(D, LE(f) % C.TOP, Points.B))
  {
    var n := LE(f) % C.TOP;
    assert Public(f) == ToLE(Ladder(LE(f), 9), 32) by { hide Ladder, LE, ToLE; }
    hide *;
    NotSquare(D);
    CoefficientIs(Curve);
    Points.BaseRepresents();
    BaseIsNine();
    LadderMultiplies(Curve, LE(f), Points.B);
    MultipleOnCurve(D, n, Points.B);
    NumberOfBytes(Ladder(LE(f), 9));
  }

  // What a secret makes of any key: the x-coordinate of its multiple of a point with that x-coordinate.
  lemma SharedIs(s: Side, f: Bytes, k: Bytes, g: Point)
    requires CurveLaws(s.Coefficient()) && OnCurve(s.Coefficient(), g) && MaskedPoint(Some(k)) % P == UOf(s, g)
    ensures LE(Shared(f, k)) == UOf(s, Multiple(s.Coefficient(), LE(f) % C.TOP, g))
  {
    SharedLadder(f, k);
    hide *;
    LadderMultiplies(s, LE(f), g);
    NumberOfBytes(Ladder(LE(f), UOf(s, g)));
  }

  lemma SharedLadder(f: Bytes, k: Bytes)
    ensures Shared(f, k) == ToLE(Ladder(LE(f), MaskedPoint(Some(k)) % P), 32)
  {
    hide Ladder, LE, ToLE, P;
  }

  lemma NumberOfBytes(v: nat)
    requires v < P
    ensures LE(ToLE(v, 32)) == v
  {
    C.FullIsPow2();
    hide LE, ToLE, Pow2;
    LEOfToLE(v, 32);
  }

  // Both sides of an exchange compute the same secret.
  lemma SecretsCommute(f: Bytes, g: Bytes)
    requires CurveLaws(D)
    ensures Shared(f, Public(g)) == Shared(g, Public(f))
  {
    var m, n := LE(f) % C.TOP, LE(g) % C.TOP;
    hide *;
    CoefficientIs(Curve);
    PublicIs(f);
    PublicIs(g);
    PublicMasked(f);
    PublicMasked(g);
    SharedIs(Curve, f, Public(g), Multiple(D, n, Points.B));
    SharedIs(Curve, g, Public(f), Multiple(D, m, Points.B));
    Points.BaseRepresents();
    MultipleTimes(D, m, n, Points.B);
    MultipleTimes(D, n, m, Points.B);
    MulComm(m, n);
    ToLEOfLE(Shared(f, Public(g)));
    ToLEOfLE(Shared(g, Public(f)));
  }

  // A public key is reduced, so masking changes nothing.
  lemma PublicMasked(f: Bytes)
    ensures MaskedPoint(Some(Public(f))) % P == LE(Public(f))
  {
    assert Public(f) == ToLE(Ladder(LE(f), 9), 32) by { hide Ladder, LE, ToLE; }
    NumberOfBytes(Ladder(LE(f), 9));
    hide Ladder, LE, ToLE, P, Public;
    BelowTop();
    ModSmall(LE(Public(f)), C.TOP);
    ModSmall(LE(Public(f)), P);
  }

  lemma BelowTop()
    ensures P < C.TOP
  {
  }
}
