/** The five weak x-coordinates: points of order at most eight, which a clamped secret takes to zero. */
module WeakPoints {
  import opened Arith
  import opened Bits
  import opened Bytes
  import opened Field
  import opened Edwards
  import opened EdwardsLaws
  import opened Group
  import opened Montgomery
  import opened MontgomeryAlgebra
  import opened LadderLaws
  import opened Options
  import opened X25519
  import C = Curve25519

  // x and z of the double of a pair with sum a and difference b.
  function DoubledX(a: int, b: int): int {
    (a * a) * (b * b)
  }

  function DoubledZ(a: int, b: int): int {
    ((a * a - b * b) * C.A24 + a * a) * (a * a - b * b)
  }

  lemma DoubledStands(s: Side, X: int, Z: int, p: Point)
    requires CurveLaws(s.Coefficient()) && OnCurve(s.Coefficient(), p) && Stands(s, X, Z, p)
    ensures Stands(s, DoubledX(X + Z, X - Z), DoubledZ(X + Z, X - Z), Plus(s.Coefficient(), p, p))
  {
    var a, b := X + Z, X - Z;
    EqRules(DoubledX(a, b), DoubledX(a, b));
    EqRules(DoubledZ(a, b), DoubledZ(a, b));
    hide Eq, Stands, CurveLaws, OnCurve, C.A24, Plus, Side.Coefficient, PairStands;
    EqRules(a, a);
    EqRules(b, b);
    PairOf(s, X, Z, a, b, p);
    PairDoubles(s, a, b, DoubledX(a, b), DoubledZ(a, b), p);
  }

  // The double of a point with x-coordinate 1 or -1 has x-coordinate zero.
  lemma DoubleIsHalved(s: Side, X: int, Z: int, p: Point)
    requires CurveLaws(s.Coefficient()) && OnCurve(s.Coefficient(), p) && Stands(s, X, Z, p)
    requires Vanishes(X + Z) || Vanishes(X - Z)
    ensures Halved(Plus(s.Coefficient(), p, p))
  {
    hide *;
    var a, b, d := X + Z, X - Z, s.Coefficient();
    var q, x, z := Plus(d, p, p), DoubledX(a, b), DoubledZ(a, b);
    NotSquare(d);
    DoubledStands(s, X, Z, p);
    ProductVanishes(a, b);
    RatioStands(s, x, z, q);
    Closed(d, p, p);
    QuarterIs(s);
    HalvedIs(d, s.Quarter(), q);
    VanishingProduct(x, 1 - q.y);
    VanishesEq(x * (1 - q.y), z * s.Signed(1 + q.y));
    VanishingFactor(z, s.Signed(1 + q.y));
    SignedVanishes(s, 1 + q.y);
    VanishingProduct(1 + q.y, 1 - q.y);
  }

  lemma ProductVanishes(a: int, b: int)
    requires Vanishes(a) || Vanishes(b)
    ensures Vanishes(DoubledX(a, b))
  {
    hide Vanishes;
    VanishingProduct(a, a);
    VanishingProduct(b, b);
    VanishingProduct(a * a, b * b);
  }

  lemma SignedVanishes(s: Side, a: int)
    ensures Vanishes(s.Signed(a)) <==> Vanishes(a)
  {
    hide Vanishes;
    VanishesNegated(a);
  }

  // The double of a point with x-coordinate zero is the identity.
  lemma HalvedTwice(d: nat, p: Point)
    requires Halved(p)
    ensures Plus(d, p, p) == O
  {
    HalvedForm(p);
    PlusIs(d, p, p);
    HalvedQuotients(d, p, p);
    EqIsMod(p.y * p.y, 1);
    hide Eq, Plus, Cross, Inv, Halved;
    InverseOfOne();
    MulZero(Inv(1));
    assert Mul(p.y * p.y, 1) == (p.y * p.y) % P;
    assert 1 % P == 1;
    IdentityIs(Plus(d, p, p));
  }

  lemma EightTimes(d: nat, g: Point)
    requires CurveLaws(d) && OnCurve(d, g)
    ensures var p := Plus(d, g, g);
            var q := Plus(d, p, p);
            Multiple(d, 8, g) == Plus(d, q, q) && OnCurve(d, p) && OnCurve(d, q)
  {
    hide *;
    MultipleNext(d, 0, g);
    MultipleNext(d, 1, g);
    IdentityOf(d, g);
    MultipleAdd(d, 1, 1, g);
    MultipleAdd(d, 2, 2, g);
    MultipleAdd(d, 4, 4, g);
    MultipleOnCurve(d, 2, g);
    MultipleOnCurve(d, 4, g);
  }

  // If one of the first three doubles has x-coordinate zero, eight times the point is the identity.
  lemma OrderDividesEight(d: nat, g: Point)
    requires CurveLaws(d) && OnCurve(d, g)
    requires var p := Plus(d, g, g); Halved(g) || Halved(p) || Halved(Plus(d, p, p))
    ensures Multiple(d, 8, g) == O
  {
    hide *;
    var p := Plus(d, g, g);
    EightTimes(d, g);
    IdentityOnCurve(d);
    IdentityOf(d, O);
    if Halved(g) {
      HalvedTwice(d, g);
    } else if Halved(p) {
      HalvedTwice(d, p);
    } else {
      HalvedTwice(d, Plus(d, p, p));
    }
  }

  // ---- the equation of doubling ----

  // x and z of the double, for a pair v : 1.
  lemma DoubledTerms(v: int)
    ensures DoubledX(v + 1, v - 1) == (v * v - 1) * (v * v - 1)
    ensures DoubledZ(v + 1, v - 1) == (4 * v) * (v * v + A * v + 1)
  {
    assert C.A24 * 4 + 2 == A;
    SquareOfTwo(v, 1);
    SquareOfTwo(v, -1);
    assert (v + 1) * (v + 1) == v * v + 2 * v + 1 && (v - 1) * (v - 1) == v * v - 2 * v + 1;
    SquaresCommute(v + 1, v - 1);
    assert (v + 1) * (v - 1) == v * v - 1;
    assert (4 * v) * C.A24 + (v * v + 2 * v + 1) == v * v + A * v + 1;
    MulComm(4 * v, v * v + A * v + 1);
  }

  const SECOND: nat := 0x00b8495f16056286_fdb1329ceb8d09da_6ac49ff1fae35616_aeb8413b7c7aebe0
  const THIRD: nat := 0x57119fd0dd4e22d8_868e1c58c45c4404_5bef839c55b1d0b1_248c50a3bc959c5f

  lemma LargeCoordinates()
    ensures WEAK[2] == SECOND && WEAK[3] == THIRD
    ensures Eq(SECOND * THIRD, 1) && Eq((SECOND + THIRD) * (4 - (SECOND + THIRD)), -4 * A - 4)
  {
    EqIsMod(SECOND * THIRD, 1);
    EqIsMod((SECOND + THIRD) * (4 - (SECOND + THIRD)), -4 * A - 4);
    hide Eq;
  }

  // That the double has x-coordinate 1 is an equation of degree four, of which two roots are known.
  lemma Quartic(v: int, S: int, T: int, a: int)
    requires Eq(S * T, 1) && Eq((S + T) * (4 - (S + T)), -4 * a - 4)
    ensures Eq((v * v - 1) * (v * v - 1) - (4 * v) * (v * v + a * v + 1),
               ((v - S) * (v - T)) * (v * v - (4 - (S + T)) * v + 1))
  {
    hide *;
    var t, u, e := S + T, 4 - (S + T), v * v;
    var m, r, q := t * u - (-4 * a - 4), S * T - 1, e - u * v + 1;
    VanishesEq(t * u, -4 * a - 4);
    VanishesEq(S * T, 1);
    QuarticIdentity(v, S, T, a);
    UpToMultiples((e - 1) * (e - 1) - (4 * v) * (e + a * v + 1), ((v - S) * (v - T)) * q, r, q, m, e);
  }

  lemma UpToMultiples(left: int, right: int, r: int, q: int, m: int, e: int)
    requires Vanishes(r) && Vanishes(m) && left == (right - r * q) - m * e
    ensures Eq(left, right)
  {
    hide *;
    VanishingProduct(r, q);
    VanishingProduct(m, e);
    VanishesNegated(r * q);
    VanishesNegated(m * e);
    OneMore(right, -(r * q));
    OneMore(right - r * q, -(m * e));
    EqTrans(left, right - r * q, right);
  }

  lemma QuarticIdentity(v: int, S: int, T: int, a: int)
    ensures var (t, u, e) := (S + T, 4 - (S + T), v * v);
            var (m, r, q) := (t * u - (-4 * a - 4), S * T - 1, e - u * v + 1);
            (e - 1) * (e - 1) - (4 * v) * (e + a * v + 1) == (((v - S) * (v - T)) * q - r * q) - m * e
  {
    var t, u, e := S + T, 4 - (S + T), v * v;
    var q, r := e - u * v + 1, S * T - 1;
    FirstQuadratic(v, S, T);
    FirstTimes((v - S) * (v - T), r, q, e - t * v + 1);
    ProductOfQuadratics(e, v, t, u);
    CubicTerms(v, e, a);
    MiddleTerm(t * u, a, e);
    FourTimes(t, u, e * v);
    FourTimes(t, u, v);
    SquareLess(e);
  }

  lemma FirstQuadratic(v: int, S: int, T: int)
    ensures (v - S) * (v - T) == (v * v - (S + T) * v + 1) + (S * T - 1)
  {
    assert (v - S) * (v - T) == v * v - v * T - S * v + S * T;
    MulComm(v, T);
  }

  lemma FirstTimes(f: int, r: int, q: int, p: int)
    requires f == p + r
    ensures f * q - r * q == p * q
  {
    MulComm(f, q);
    MulComm(r, q);
    MulComm(p, q);
    MulAdd(q, p, r);
  }

  lemma SquareLess(e: int)
    ensures (e - 1) * (e - 1) == e * e - 2 * e + 1
  {
  }

  lemma FourTimes(t: int, u: int, k: int)
    requires t + u == 4
    ensures (t + u) * k == 4 * k
  {
  }

  lemma CubicTerms(v: int, e: int, a: int)
    requires e == v * v
    ensures (4 * v) * (e + a * v + 1) == 4 * (e * v) + 4 * (a * e) + 4 * v
  {
    MulAdd(4 * v, e + a * v, 1);
    MulAdd(4 * v, e, a * v);
    MulAssoc(4, v, e);
    MulComm(v, e);
    MulAssoc(4, v, a * v);
    MulComm(v, a * v);
    MulAssoc(a, v, v);
  }

  lemma MiddleTerm(k: int, a: int, e: int)
    ensures (k - (-4 * a - 4)) * e == k * e + 4 * (a * e) + 4 * e
  {
    MulComm(k - (-4 * a - 4), e);
    MulSub(e, k, -4 * a - 4);
    MulComm(e, k);
    MulSub(e, -4 * a, 4);
    assert e * (-4 * a) == -4 * (a * e);
  }

  lemma ProductOfQuadratics(e: int, v: int, t: int, u: int)
    requires e == v * v
    ensures (e - t * v + 1) * (e - u * v + 1) == e * e - (t + u) * (e * v) + (t * u) * e + 2 * e - (t + u) * v + 1
  {
    var b, c := t * v, u * v;
    TwoTrinomials(e, b, c);
    FourFactors(t, v, u, v);
    MulComm(e, c);
    MulAssoc(u, v, e);
    MulComm(v, e);
    MulAssoc(t, v, e);
    DistributeRight(t, u, e * v);
    DistributeRight(t, u, v);
  }

  lemma TwoTrinomials(e: int, b: int, c: int)
    ensures (e - b + 1) * (e - c + 1) == e * e - e * c + e - b * e + b * c - b + e - c + 1
  {
  }

  lemma DistributeRight(t: int, u: int, k: int)
    ensures (t + u) * k == t * k + u * k
  {
  }

  // The double of a point with one of the two large x-coordinates has x-coordinate 1.
  lemma LargeDouble(u: int)
    requires u == WEAK[2] || u == WEAK[3]
    ensures Eq(DoubledX(u + 1, u - 1), DoubledZ(u + 1, u - 1))
  {
    LargeCoordinates();
    hide Eq, DoubledX, DoubledZ, WEAK, SECOND, THIRD;
    DoubledTerms(u);
    Quartic(u, SECOND, THIRD, A);
    var q := u * u - (4 - (SECOND + THIRD)) * u + 1;
    assert (u - SECOND) * (u - THIRD) == 0;
    assert ((u - SECOND) * (u - THIRD)) * q == 0;
    VanishesIs((u * u - 1) * (u * u - 1) - (4 * u) * (u * u + A * u + 1));
    VanishesEq((u * u - 1) * (u * u - 1), (4 * u) * (u * u + A * u + 1));
  }

  lemma VanishesIs(a: int)
    ensures Vanishes(a) <==> Eq(a, 0)
  {
    hide Eq;
  }

  lemma UnitIsWeak(u: nat)
    requires u == 1 || u == P - 1
    ensures Vanishes(u + 1) || Vanishes(u - 1)
  {
    VanishesMod(u + 1);
    VanishesMod(u - 1);
    hide Vanishes;
  }

  lemma WeakOrder(s: Side, g: Point)
    requires CurveLaws(s.Coefficient()) && OnCurve(s.Coefficient(), g) && UOf(s, g) in WEAK
    ensures Multiple(s.Coefficient(), 8, g) == O
  {
    var d, u := s.Coefficient(), UOf(s, g);
    WeakIs(u);
    hide *;
    NotSquare(d);
    QuarterIs(s);
    UOfZero(s, g);
    HalvedIs(d, s.Quarter(), g);
    EightTimes(d, g);
    if u != 0 {
      CoordinateStands(s, g);
      if u == 1 || u == P - 1 {
        UnitIsWeak(u);
        DoubleIsHalved(s, u, 1, g);
      } else {
        LargeDouble(u);
        DoubledStands(s, u, 1, g);
        VanishesEq(DoubledX(u + 1, u - 1), DoubledZ(u + 1, u - 1));
        DoubleIsHalved(s, DoubledX(u + 1, u - 1), DoubledZ(u + 1, u - 1), Plus(d, g, g));
      }
    }
    OrderDividesEight(d, g);
  }

  lemma WeakIs(u: nat)
    requires u in WEAK
    ensures u == 0 || u == 1 || u == P - 1 || u == WEAK[2] || u == WEAK[3]
    ensures |WEAK| == 5
  {
  }

  lemma CoordinateStands(s: Side, g: Point)
    requires PrimeP() && UOf(s, g) != 0
    ensures Stands(s, UOf(s, g), 1, g)
  {
    hide *;
    UOfIsCoordinate(s, g);
    FirstRung(s, UOf(s, g), g);
    RungIs(s, Rung(1, 0, UOf(s, g), 1), O, g);
    RungFields(UOf(s, g));
  }

  lemma RungFields(u: nat)
    ensures var r := Rung(1, 0, u, 1); r.x3 == u && r.z3 == 1
  {
  }

  // A multiple of eight takes every weak coordinate to zero.
  lemma WeakToZero(k: nat, w: nat)
    requires CurveLaws(D) && CurveLaws(D_TWIST) && w in WEAK && k < C.TOP && k % 8 == 0
    ensures w < P && Ladder(k, w) == 0
  {
    assert w < P;
    var m := k / 8;
    assert k == m * 8 && k % C.TOP == k;
    hide *;
    NotSquare(D);
    EveryCoordinate(w);
    var s, g :| IsPointAt(s, g, w);
    PointAt(s, g, w);
    CoefficientIs(s);
    var d := s.Coefficient();
    WeakOrder(s, g);
    LadderMultiplies(s, k, g);
    MultipleTimes(d, m, 8, g);
    MultipleOfIdentity(d, m);
    UnitsVanish();
    UOfZero(s, O);
  }

  // So the ladder of a secret that a board draws takes each weak coordinate to zero.
  lemma DrawnTakesWeakToZero(draws: seq<Bytes>, w: nat)
    requires CurveLaws(D) && CurveLaws(D_TWIST) && Usable(draws) && w in WEAK
    ensures w < P && Ladder(LE(Drawn(draws)), w) == 0
  {
    C.TopIsPow2();
    hide *;
    var i := DrawnMeans(draws);
    WeakToZero(LE(Drawn(draws)), w);
  }

  // And any clamped secret makes zero of a weak key.
  lemma WeakKeyGivesZero(f: Bytes, k: Bytes)
    requires CurveLaws(D) && CurveLaws(D_TWIST) && |f| == |k| == 32 && Weak(k)
    ensures LE(Shared(Clamp(f), k)) == 0
  {
    C.TopIsPow2();
    WeakBelow(k);
    SharedLadder(Clamp(f), k);
    hide *;
    ClampRange(f);
    WeakToZero(LE(Clamp(f)), MaskedPoint(Some(k)));
    NumberOfBytes(Ladder(LE(Clamp(f)), MaskedPoint(Some(k))));
  }

  lemma WeakBelow(k: Bytes)
    requires Weak(k)
    ensures MaskedPoint(Some(k)) in WEAK && MaskedPoint(Some(k)) < P && MaskedPoint(Some(k)) % P == MaskedPoint(Some(k))
  {
    hide MaskedPoint;
  }

  // ---- no other coordinate does that ----

  // The equation between the x-coordinates of a point and of its double.
  lemma DoubleEquation(s: Side, p: Point)
    requires CurveLaws(s.Coefficient()) && NonSquare(D) && OnCurve(s.Coefficient(), p) && UOf(s, p) != 0
    ensures var (v: int, w: int) := (UOf(s, p), UOf(s, Plus(s.Coefficient(), p, p)));
            Eq((v * v - 1) * (v * v - 1), w * ((4 * v) * (v * v + A * v + 1)))
  {
    hide *;
    var d, v: int := s.Coefficient(), UOf(s, p);
    var q := Plus(d, p, p);
    var x, z, n, den := DoubledX(v + 1, v - 1), DoubledZ(v + 1, v - 1), s.Signed(1 + q.y), 1 - q.y;
    NotSquare(d);
    CoordinateStands(s, p);
    DoubledStands(s, v, 1, p);
    RatioStands(s, x, z, q);
    DoubledTerms(v);
    DenominatorRemains(UOf(s, p));
    UOfIs(s, q);
    VanishesMod(den);
    QuotientTimes(n, den);
    RatioSolved(x, z, n, den, UOf(s, q));
  }

  lemma DenominatorRemains(v: nat)
    requires PrimeP() && NonSquare(D) && 0 < v < P
    ensures !Vanishes((4 * v) * (v * v + A * v + 1))
  {
    hide *;
    SmallRemains(v);
    NoHalfPoint(v);
    FourRemains();
    VanishingFactor(4, v);
    VanishingFactor(4 * v, v * v + A * v + 1);
  }

  lemma FourRemains()
    ensures !Vanishes(4)
  {
    VanishesMod(4);
    hide Vanishes;
  }

  lemma RatioSolved(x: int, z: int, n: int, den: int, w: int)
    requires PrimeP() && !Vanishes(den) && Eq(x * den, z * n) && Eq(w * den, n)
    ensures Eq(x, w * z)
  {
    hide *;
    Scale(z, w * den, n);
    EqTransSym(x * den, z * n, z * (w * den));
    MulComm(x, den);
    MulAssoc(z, w, den);
    MulComm(z, w);
    MulComm(w * z, den);
    CancelFactor(den, x, w * z);
  }

  lemma RootsAtZero(v: nat)
    requires PrimeP() && v < P && Vanishes((v * v - 1) * (v * v - 1))
    ensures v == 1 || v == P - 1
  {
    hide *;
    VanishingFactor(v * v - 1, v * v - 1);
    assert v * v - 1 == (v - 1) * (v + 1);
    VanishingFactor(v - 1, v + 1);
    if Vanishes(v - 1) {
      VanishesEq(v, 1);
      SmallOne();
      SameReduced(v, 1);
    } else {
      MinusOneIs(v);
    }
  }

  lemma SmallOne()
    ensures 1 < P
  {
  }

  lemma MinusOneIs(v: nat)
    requires v < P && Vanishes(v + 1)
    ensures v == P - 1
  {
    VanishesMod(v + 1);
    hide Vanishes, P;
    if v + 1 < P { ModSmall(v + 1, P); }
  }

  // Square roots of ratios to d.
  const GAP: nat := 0x3875471b27465017_cb15e5f7b6d060b3_7a49025d12d929dc_37b9e07b559a6680
  const AT_SECOND: nat := 0x0ce02fb4aa445470_871f79b725e89206_1bb97c2e4756bb4b_ce71a074d4336b8e
  const AT_THIRD: nat := 0x70b2f481475561e3_42ba813b2650a625_ff835040407bb195_371a7fc90eb436f3
  const AT_MINUS_ONE: nat := 0x283616d00cac7aa0_7bc0b10a5016b221_394bdc71af6ad938_2cbb6e20c6ef77b0

  // Their squares, reduced.
  const OF_GAP: nat := 0x73967f070ff2f001_e4ce7fab199b7724_5cd6aaedf34a8ae4_68992f2322cf42cd
  const OF_SECOND: nat := 0x2884316f4cd13ef3_15fdf7561503e420_988f15a35efc4d55_a0fa023c80c085fe
  const OF_THIRD: nat := 0x32b2846ab3ce0348_e0804e6dc28bfb96_3a2637a271b74ba1_2eb81524d231b2aa
  const OF_MINUS_ONE: nat := 0x0000000000000000_0000000000000000_0000000000000000_00000000001db420

  // Squares of the coordinates, reduced.
  const GAP_SQUARED: nat := 0x20d85b4032b1ea81_ef02c429405ac884_e52f71c6bdab64e0_b2edb8831bdb92f7
  const SECOND_SQUARED: nat := 0x0d9c7dad52c2f8b5_ad6fa7d633ae9750_d98807ac24ffc965_2ef1d6f8db5f09ba
  const THIRD_SQUARED: nat := 0x518b27127a8b1cc8_638d94008bf6a02a_4148868d1d54d1ba_1e2070840900cb82

  lemma GapSquare()
    ensures Eq((4 - (SECOND + THIRD)) * (4 - (SECOND + THIRD)), GAP_SQUARED)
  {
    EqIsMod((4 - (SECOND + THIRD)) * (4 - (SECOND + THIRD)), GAP_SQUARED);
    hide Eq;
  }

  lemma UpToP(a: int, b: int, k: int)
    requires a == b + P * k
    ensures Eq(a, b)
  {
    hide P;
    MultipleOfPIs(k);
    assert a == b + MultipleOfP(k);
  }

  lemma RatioOfSquare(a: int, r: int, square: int)
    requires Eq(r * r, square) && Eq(a, D * square)
    ensures Eq(a, D * (r * r))
  {
    hide *;
    Scale(D, r * r, square);
    EqRules(D * (r * r), D * square);
    EqTrans(a, D * square, D * (r * r));
  }

  lemma GapRatioSquare()
    ensures Eq(GAP * GAP, OF_GAP)
  {
    EqIsMod(GAP * GAP, OF_GAP);
    hide Eq;
  }

  lemma GapRatioReduced()
    ensures Eq(GAP_SQUARED - 4, D * OF_GAP)
  {
    EqIsMod(GAP_SQUARED - 4, D * OF_GAP);
    hide Eq;
  }

  lemma GapRatio()
    ensures Eq(GAP_SQUARED - 4, D * (GAP * GAP))
  {
    hide *;
    GapRatioSquare();
    GapRatioReduced();
    RatioOfSquare(GAP_SQUARED - 4, GAP, OF_GAP);
  }

  lemma RatiosRemain()
    ensures !Vanishes(GAP) && !Vanishes(AT_SECOND) && !Vanishes(AT_THIRD) && !Vanishes(AT_MINUS_ONE)
  {
    hide Vanishes, Eq;
    VanishesMod(GAP);
    VanishesMod(AT_SECOND);
    VanishesMod(AT_THIRD);
    VanishesMod(AT_MINUS_ONE);
  }

  lemma GapIs()
    ensures var u := 4 - (SECOND + THIRD); Eq(u * u - 4, D * (GAP * GAP)) && !Vanishes(GAP)
  {
    hide *;
    var u := 4 - (SECOND + THIRD);
    GapSquare();
    GapRatio();
    RatiosRemain();
    EqRules(4, 4);
    EqAdd(u * u, GAP_SQUARED, 4, 4);
    EqTrans(u * u - 4, GAP_SQUARED - 4, D * (GAP * GAP));
  }

  lemma SecondSquare()
    ensures Eq(SECOND * SECOND, SECOND_SQUARED)
  {
    EqIsMod(SECOND * SECOND, SECOND_SQUARED);
    hide Eq;
  }

  lemma ThirdSquare()
    ensures Eq(THIRD * THIRD, THIRD_SQUARED)
  {
    EqIsMod(THIRD * THIRD, THIRD_SQUARED);
    hide Eq;
  }

  lemma SecondRatioSquare()
    ensures Eq(AT_SECOND * AT_SECOND, OF_SECOND)
  {
    EqIsMod(AT_SECOND * AT_SECOND, OF_SECOND);
    hide Eq;
  }

  lemma SecondRatioReduced()
    ensures Eq(4 * (SECOND_SQUARED + A * SECOND + 1), D * OF_SECOND)
  {
    UpToP(4 * (SECOND_SQUARED + A * SECOND + 1), D * OF_SECOND, -0x19f5c53f631388c7_bdb733f9be0afbb8_9d818c67697d9597_d10620e18ea8ea46);
    hide Eq;
  }

  lemma SecondRatio()
    ensures Eq(4 * (SECOND_SQUARED + A * SECOND + 1), D * (AT_SECOND * AT_SECOND))
  {
    hide *;
    SecondRatioSquare();
    SecondRatioReduced();
    RatioOfSquare(4 * (SECOND_SQUARED + A * SECOND + 1), AT_SECOND, OF_SECOND);
  }

  lemma ThirdRatioSquare()
    ensures Eq(AT_THIRD * AT_THIRD, OF_THIRD)
  {
    EqIsMod(AT_THIRD * AT_THIRD, OF_THIRD);
    hide Eq;
  }

  lemma ThirdRatioReduced()
    ensures Eq(4 * (THIRD_SQUARED + A * THIRD + 1), D * OF_THIRD)
  {
    UpToP(4 * (THIRD_SQUARED + A * THIRD + 1), D * OF_THIRD, -0x207bb8286a8cc31d_993310817701abe7_1c35d2977c8e24a0_6ca6ccf6ad61bf32);
    hide Eq;
  }

  lemma ThirdRatio()
    ensures Eq(4 * (THIRD_SQUARED + A * THIRD + 1), D * (AT_THIRD * AT_THIRD))
  {
    hide *;
    ThirdRatioSquare();
    ThirdRatioReduced();
    RatioOfSquare(4 * (THIRD_SQUARED + A * THIRD + 1), AT_THIRD, OF_THIRD);
  }

  lemma AtSquare(w: int, square: int, r: int)
    requires Eq(w * w, square) && Eq(4 * (square + A * w + 1), r)
    ensures Eq(4 * (w * w + A * w + 1), r)
  {
    hide *;
    EqRules(A * w + 1, A * w + 1);
    EqAdd(w * w, square, A * w + 1, A * w + 1);
    Scale(4, w * w + (A * w + 1), square + (A * w + 1));
    EqTrans(4 * (w * w + A * w + 1), 4 * (square + A * w + 1), r);
  }

  lemma RatioAtLarge()
    ensures Eq(4 * (SECOND * SECOND + A * SECOND + 1), D * (AT_SECOND * AT_SECOND)) && !Vanishes(AT_SECOND)
    ensures Eq(4 * (THIRD * THIRD + A * THIRD + 1), D * (AT_THIRD * AT_THIRD)) && !Vanishes(AT_THIRD)
  {
    hide *;
    SecondSquare();
    ThirdSquare();
    SecondRatio();
    ThirdRatio();
    RatiosRemain();
    AtSquare(SECOND, SECOND_SQUARED, D * (AT_SECOND * AT_SECOND));
    AtSquare(THIRD, THIRD_SQUARED, D * (AT_THIRD * AT_THIRD));
  }

  lemma RatioAtMinusOneSquare()
    ensures Eq(AT_MINUS_ONE * AT_MINUS_ONE, OF_MINUS_ONE)
  {
    EqIsMod(AT_MINUS_ONE * AT_MINUS_ONE, OF_MINUS_ONE);
    hide Eq;
  }

  lemma RatioAtMinusOneReduced()
    ensures Eq(4 * ((P - 1) * (P - 1) + A * (P - 1) + 1), D * OF_MINUS_ONE)
  {
    EqIsMod(4 * ((P - 1) * (P - 1) + A * (P - 1) + 1), D * OF_MINUS_ONE);
    hide Eq;
  }

  lemma RatioAtMinusOne()
    ensures Eq(4 * ((P - 1) * (P - 1) + A * (P - 1) + 1), D * (AT_MINUS_ONE * AT_MINUS_ONE))
  {
    hide *;
    RatioAtMinusOneSquare();
    RatioAtMinusOneReduced();
    RatioOfSquare(4 * ((P - 1) * (P - 1) + A * (P - 1) + 1), AT_MINUS_ONE, OF_MINUS_ONE);
  }

  // A point whose double has x-coordinate 1 has one of the two large ones: the other two roots are not numbers.
  lemma RootsAtOne(v: nat)
    requires PrimeP() && NonSquare(D) && v < P && Eq((v * v - 1) * (v * v - 1), (4 * v) * (v * v + A * v + 1))
    ensures v == SECOND || v == THIRD
  {
    LargeCoordinates();
    LargeBelow();
    hide *;
    var u := 4 - (SECOND + THIRD);
    var q := v * v - u * v + 1;
    VanishesEq((v * v - 1) * (v * v - 1), (4 * v) * (v * v + A * v + 1));
    Quartic(v, SECOND, THIRD, A);
    VanishesEq((v * v - 1) * (v * v - 1) - (4 * v) * (v * v + A * v + 1), ((v - SECOND) * (v - THIRD)) * q);
    VanishingFactor((v - SECOND) * (v - THIRD), q);
    VanishingFactor(v - SECOND, v - THIRD);
    GapIs();
    if Vanishes(q) {
      NoQuadraticRoot(v, u, GAP);
    } else if Vanishes(v - SECOND) {
      VanishesEq(v, SECOND);
      SameReduced(v, SECOND);
    } else {
      VanishesEq(v, THIRD);
      SameReduced(v, THIRD);
    }
  }

  lemma LargeBelow()
    ensures 0 < SECOND < P && 0 < THIRD < P && SECOND > 1 && THIRD > 1 && SECOND != P - 1 && THIRD != P - 1
  {
  }

  lemma NoQuadraticRoot(v: int, u: int, k: int)
    requires PrimeP() && NonSquare(D) && Eq(u * u - 4, D * (k * k)) && !Vanishes(k)
    ensures !Vanishes(v * v - u * v + 1)
  {
    hide *;
    var q, w := v * v - u * v + 1, 2 * v - u;
    if Vanishes(q) {
      CompletedSquare(v, u);
      VanishingProduct(4, q);
      OneMore(u * u - 4, 4 * q);
      EqTrans(w * w, u * u - 4, D * (k * k));
      NoRatio(D, w, k);
    }
  }

  lemma CompletedSquare(v: int, u: int)
    ensures (2 * v - u) * (2 * v - u) == (u * u - 4) + 4 * (v * v - u * v + 1)
  {
  }

  // Completing the square in the equation of doubling.
  lemma SquareOfDouble(v: int, w: int)
    requires Eq((v * v - 1) * (v * v - 1), w * ((4 * v) * (v * v + A * v + 1)))
    ensures exists r: int :: Eq(r * r, (4 * (w * w + A * w + 1)) * (v * v))
  {
    hide *;
    var e, c, r := v * v, 4 * (w * w + A * w + 1), v * v + 1 - 2 * (w * v);
    DoubledSquare(v, w, A);
    VanishesEq((e - 1) * (e - 1), w * ((4 * v) * (e + A * v + 1)));
    OneMore(c * e, (e - 1) * (e - 1) - w * ((4 * v) * (e + A * v + 1)));
    assert Eq(r * r, c * e);
  }

  // Which has no solution but zero if c is d times a square.
  lemma NoSquareRatio(r: int, c: int, k: int, v: int)
    requires PrimeP() && NonSquare(D) && Eq(c, D * (k * k)) && !Vanishes(k) && Eq(r * r, c * (v * v))
    ensures Vanishes(v)
  {
    hide *;
    var e := v * v;
    Scale(e, c, D * (k * k));
    SquaresCommute(k, v);
    MulAssoc(D, k * k, e);
    EqTrans(r * r, c * e, D * ((k * v) * (k * v)));
    NoRatio(D, r, k * v);
    VanishingFactor(k, v);
  }

  lemma DoubledSquare(v: int, w: int, a: int)
    ensures var (e, c, r) := (v * v, 4 * (w * w + a * w + 1), v * v + 1 - 2 * (w * v));
            r * r == c * e + ((e - 1) * (e - 1) - w * ((4 * v) * (e + a * v + 1)))
  {
    var e, g := v * v, w * v;
    CubicTerms(v, e, a);
    TrinomialSquare(e, g);
    SquaresCommute(w, v);
    SquareLess(e);
    ScaledCubic(w, v, e, a);
    ScaledSquareTerm(w, a, e);
  }

  lemma TrinomialSquare(e: int, g: int)
    ensures (e + 1 - 2 * g) * (e + 1 - 2 * g) == e * e + 2 * e + 1 - 4 * (g * e) - 4 * g + 4 * (g * g)
  {
  }

  lemma ScaledCubic(w: int, v: int, e: int, a: int)
    ensures w * (4 * (e * v) + 4 * (a * e) + 4 * v) == 4 * ((w * v) * e) + 4 * ((a * w) * e) + 4 * (w * v)
  {
    MulAdd(w, 4 * (e * v) + 4 * (a * e), 4 * v);
    MulAdd(w, 4 * (e * v), 4 * (a * e));
    MulComm(e, v);
    MulAssoc(w, v, e);
    MulAssoc(w, a, e);
    MulComm(w, a);
  }

  lemma ScaledSquareTerm(w: int, a: int, e: int)
    ensures (4 * (w * w + a * w + 1)) * e == 4 * ((w * w) * e) + 4 * ((a * w) * e) + 4 * e
  {
    var s, t := w * w, a * w;
    assert (4 * (s + t + 1)) * e == 4 * (s * e) + 4 * (t * e) + 4 * e;
  }

  // No double has one of the three last coordinates of the table.
  lemma NeverDoubled(s: Side, p: Point)
    requires CurveLaws(s.Coefficient()) && NonSquare(D) && OnCurve(s.Coefficient(), p) && UOf(s, p) != 0
    ensures var w := UOf(s, Plus(s.Coefficient(), p, p)); w != P - 1 && w != SECOND && w != THIRD
  {
    hide *;
    var d, v, w := s.Coefficient(), UOf(s, p), UOf(s, Plus(s.Coefficient(), p, p));
    NotSquare(d);
    DoubleEquation(s, p);
    SmallRemains(v);
    SquareOfDouble(v, w);
    RatiosRemain();
    var r :| Eq(r * r, (4 * (w * w + A * w + 1)) * (v * v));
    if w == P - 1 {
      RatioAtMinusOne();
      NoSquareRatio(r, 4 * ((P - 1) * (P - 1) + A * (P - 1) + 1), AT_MINUS_ONE, v);
    } else if w == SECOND {
      RatioAtLarge();
      NoSquareRatio(r, 4 * (SECOND * SECOND + A * SECOND + 1), AT_SECOND, v);
    } else if w == THIRD {
      RatioAtLarge();
      NoSquareRatio(r, 4 * (THIRD * THIRD + A * THIRD + 1), AT_THIRD, v);
    }
  }

  // What the x-coordinate of a point is, if that of its double is weak.
  lemma HalfOfWeak(s: Side, p: Point)
    requires CurveLaws(s.Coefficient()) && NonSquare(D) && OnCurve(s.Coefficient(), p)
    ensures var (v, w) := (UOf(s, p), UOf(s, Plus(s.Coefficient(), p, p)));
            && (w == 0 ==> v == 0 || v == 1 || v == P - 1) && (w == 1 ==> v == SECOND || v == THIRD)
            && w != P - 1 && w != SECOND && w != THIRD
  {
    hide *;
    var d, v, w := s.Coefficient(), UOf(s, p), UOf(s, Plus(s.Coefficient(), p, p));
    NotSquare(d);
    LargeBelow();
    if v == 0 {
      QuarterIs(s);
      UOfZero(s, p);
      HalvedIs(d, s.Quarter(), p);
      HalvedTwice(d, p);
      UnitsVanish();
      UOfZero(s, O);
    } else {
      NeverDoubled(s, p);
      DoubleEquation(s, p);
      SmallRemains(v);
      if w == 0 {
        VanishesIs((v * v - 1) * (v * v - 1));
        RootsAtZero(v);
      } else if w == 1 {
        RootsAtOne(v);
      }
    }
  }

  // The table is complete: a number that the ladder takes to zero for the scalar eight is in it.
  lemma WeakExactly(w: nat)
    requires CurveLaws(D) && CurveLaws(D_TWIST) && w < P
    ensures Ladder(8, w) == 0 <==> w in WEAK
  {
    LargeCoordinates();
    assert 8 < C.TOP && 8 % C.TOP == 8;
    assert WEAK == [0, 1, WEAK[2], WEAK[3], P - 1];
    hide *;
    NotSquare(D);
    if w in WEAK {
      WeakToZero(8, w);
    }
    if Ladder(8, w) == 0 {
      EveryCoordinate(w);
      var s, g :| IsPointAt(s, g, w);
      PointAt(s, g, w);
      CoefficientIs(s);
      var d := s.Coefficient();
      LadderMultiplies(s, 8, g);
      EightTimes(d, g);
      var p := Plus(d, g, g);
      HalfOfWeak(s, Plus(d, p, p));
      HalfOfWeak(s, p);
      HalfOfWeak(s, g);
    }
  }

  // So a key from the other side is weak exactly if, without its top bit, it is such a number.
  lemma WeakKeyExactly(k: Bytes)
    requires CurveLaws(D) && CurveLaws(D_TWIST) && |k| == 32
    ensures var u := LE(k) % C.TOP; Weak(k) <==> u < P && Ladder(8, u) == 0
  {
    MaskedIsLow(k);
    hide *;
    var u := LE(k) % C.TOP;
    if u < P {
      WeakExactly(u);
    }
  }

  lemma MaskedIsLow(k: Bytes)
    requires |k| == 32
    ensures Weak(k) <==> LE(k) % C.TOP in WEAK
    ensures LE(k) % C.TOP in WEAK ==> LE(k) % C.TOP < P
  {
    LEBound(k);
    C.FullIsPow2();
    hide LE, Pow2;
    LowPart(LE(k));
  }

  lemma LowPart(n: nat)
    requires n < C.FULL
    ensures n % C.TOP == if n < C.TOP then n else n - C.TOP
  {
  }
}
