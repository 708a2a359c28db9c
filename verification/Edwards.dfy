/** The twisted Edwards curve -x^2 + y^2 = 1 + d x^2 y^2 and its extended coordinates. */
module Edwards {
  import opened Arith
  import opened Field

  const D: nat := 0x52036cee2b6ffe73_8cc740797779e898_00700a4d4141d8ab_75eb4dca135978a3
  const D2: nat := 0x2406d9dc56dffce7_198e80f2eef3d130_00e0149a8283b156_ebd69b9426b2f159

  datatype Point = Point(x: nat, y: nat)

  const O := Point(0, 1)

  // d x1 x2 y1 y2.
  function Cross(d: nat, p: Point, q: Point): int {
    d * (p.x * q.x) * (p.y * q.y)
  }

  ghost predicate OnCurve(d: nat, p: Point) {
    p.x < P && p.y < P && Eq(p.y * p.y - p.x * p.x, 1 + Cross(d, p, p))
  }

  lemma CoordinatesReduced(d: nat, p: Point)
    requires OnCurve(d, p)
    ensures p.x < P && p.y < P
  {
    hide Eq, Cross;
  }

  function Plus(d: nat, p: Point, q: Point): (r: Point)
    ensures r.x < P && r.y < P
  {
    Point(Mul(p.x * q.y + q.x * p.y, Inv(1 + Cross(d, p, q))),
          Mul(p.y * q.y + p.x * q.x, Inv(1 - Cross(d, p, q))))
  }

  // The two denominators of the sum are not zero.
  predicate Complete(d: nat, p: Point, q: Point) {
    (1 + Cross(d, p, q)) % P != 0 && (1 - Cross(d, p, q)) % P != 0
  }

  // X = x Z, Y = y Z and T = x y Z, as field elements.
  datatype Ext = Ext(X: nat, Y: nat, Z: nat, T: nat) {
    predicate Canonical() {
      X < P && Y < P && Z < P && T < P
    }
    ghost predicate Represents(p: Point) {
      0 < Z < P && Eq(X, p.x * Z) && Eq(Y, p.y * Z) && Eq(T, (p.x * p.y) * Z)
    }
  }

  // Extended coordinates keep X Y = Z T.
  lemma ExtendedProduct(e: Ext, p: Point)
    requires e.Represents(p)
    ensures Mul(e.X, e.Y) == Mul(e.Z, e.T)
  {
    hide Mul, Eq;
    MulOfReduced(e.X, p.x * e.Z, e.Y, p.y * e.Z);
    EqRules(e.Z, e.Z);
    MulOfReduced(e.Z, e.Z, e.T, (p.x * p.y) * e.Z);
    assert (p.x * e.Z) * (p.y * e.Z) == e.Z * ((p.x * p.y) * e.Z);
    EqTransSym(Mul(e.X, e.Y), (p.x * e.Z) * (p.y * e.Z), Mul(e.Z, e.T));
    SameReduced(Mul(e.X, e.Y), Mul(e.Z, e.T));
  }

  const IDENTITY := Ext(0, 1, 1, 0)

  // The products E F, G H, F G and E H of the addition formula.
  function Products(e: nat, f: nat, g: nat, h: nat): (r: Ext)
    ensures r.Canonical()
  {
    Ext(Mul(e, f), Mul(g, h), Mul(f, g), Mul(e, h))
  }

  function ExtAdd(p: Ext, q: Ext): (r: Ext)
    ensures r.Canonical()
  {
    var a := Mul(Sub(p.Y, p.X), Sub(q.Y, q.X));
    var b := Mul(Add(p.Y, p.X), Add(q.Y, q.X));
    var c := Mul(Mul(p.T, q.T), D2);
    var z := Mul(p.Z, q.Z);
    var d := Add(z, z);
    Products(Sub(b, a), Sub(d, c), Add(d, c), Add(b, a))
  }

  lemma DoubleD()
    ensures Eq(D2, 2 * D)
  {
    EqIsMod(D2, 2 * D);
    hide Eq;
  }

  // The parts of the formula in terms of the affine coordinates: E, F, G and H carry the factor 2 z1 z2.
  lemma CrossTerms(X1: int, Y1: int, X2: int, Y2: int, x1: int, y1: int, z1: int, x2: int, y2: int, z2: int)
    requires Eq(X1, x1 * z1) && Eq(Y1, y1 * z1) && Eq(X2, x2 * z2) && Eq(Y2, y2 * z2)
    ensures Eq((Y1 + X1) * (Y2 + X2) - (Y1 - X1) * (Y2 - X2), (2 * (z1 * z2)) * (x1 * y2 + x2 * y1))
    ensures Eq((Y1 + X1) * (Y2 + X2) + (Y1 - X1) * (Y2 - X2), (2 * (z1 * z2)) * (y1 * y2 + x1 * x2))
  {
    hide Eq;
    EqAdd(Y1, y1 * z1, X1, x1 * z1);
    EqAdd(Y2, y2 * z2, X2, x2 * z2);
    EqMul(Y1 + X1, y1 * z1 + x1 * z1, Y2 + X2, y2 * z2 + x2 * z2);
    EqMul(Y1 - X1, y1 * z1 - x1 * z1, Y2 - X2, y2 * z2 - x2 * z2);
    EqAdd((Y1 + X1) * (Y2 + X2), (y1 * z1 + x1 * z1) * (y2 * z2 + x2 * z2),
          (Y1 - X1) * (Y2 - X2), (y1 * z1 - x1 * z1) * (y2 * z2 - x2 * z2));
    CrossIdentity(x1, y1, z1, x2, y2, z2);
  }

  lemma CrossIdentity(x1: int, y1: int, z1: int, x2: int, y2: int, z2: int)
    ensures (y1 * z1 + x1 * z1) * (y2 * z2 + x2 * z2) - (y1 * z1 - x1 * z1) * (y2 * z2 - x2 * z2)
         == (2 * (z1 * z2)) * (x1 * y2 + x2 * y1)
    ensures (y1 * z1 + x1 * z1) * (y2 * z2 + x2 * z2) + (y1 * z1 - x1 * z1) * (y2 * z2 - x2 * z2)
         == (2 * (z1 * z2)) * (y1 * y2 + x1 * x2)
  {
  }

  lemma Reduced(a: int, b: int)
    ensures Eq(Add(a, b), a + b) && Eq(Sub(a, b), a - b) && Eq(Mul(a, b), a * b)
  {
    hide P;
    ReducedEq(a + b);
    ReducedEq(a - b);
    ReducedEq(a * b);
  }

  lemma MulOfReduced(a: nat, a': int, b: nat, b': int)
    requires Eq(a, a') && Eq(b, b')
    ensures Eq(Mul(a, b), a' * b')
  {
    hide Eq, Mul;
    Reduced(a, b);
    EqMul(a, a', b, b');
    EqTrans(Mul(a, b), a * b, a' * b');
  }

  lemma SumOfReduced(a: nat, a': int, b: nat, b': int)
    requires Eq(a, a') && Eq(b, b')
    ensures Eq(Add(a, b), a' + b') && Eq(Sub(a, b), a' - b')
  {
    hide Eq, Add, Sub;
    Reduced(a, b);
    EqAdd(a, a', b, b');
    EqTrans(Add(a, b), a + b, a' + b');
    EqTrans(Sub(a, b), a - b, a' - b');
  }

  // E and H.
  lemma SumTerms(p: Ext, q: Ext, u: Point, v: Point)
    requires p.Represents(u) && q.Represents(v)
    ensures var (a, b, z) := (Mul(Sub(p.Y, p.X), Sub(q.Y, q.X)), Mul(Add(p.Y, p.X), Add(q.Y, q.X)), p.Z * q.Z);
            Eq(Sub(b, a), (2 * z) * (u.x * v.y + v.x * u.y)) && Eq(Add(b, a), (2 * z) * (u.y * v.y + u.x * v.x))
  {
    hide Eq, Add, Sub, Mul, P;
    var a, b := Mul(Sub(p.Y, p.X), Sub(q.Y, q.X)), Mul(Add(p.Y, p.X), Add(q.Y, q.X));
    Reduced(p.Y, p.X);
    Reduced(q.Y, q.X);
    MulOfReduced(Sub(p.Y, p.X), p.Y - p.X, Sub(q.Y, q.X), q.Y - q.X);
    MulOfReduced(Add(p.Y, p.X), p.Y + p.X, Add(q.Y, q.X), q.Y + q.X);
    SumOfReduced(b, (p.Y + p.X) * (q.Y + q.X), a, (p.Y - p.X) * (q.Y - q.X));
    CrossTerms(p.X, p.Y, q.X, q.Y, u.x, u.y, p.Z, v.x, v.y, q.Z);
    var z := p.Z * q.Z;
    EqTrans(Sub(b, a), (p.Y + p.X) * (q.Y + q.X) - (p.Y - p.X) * (q.Y - q.X), (2 * z) * (u.x * v.y + v.x * u.y));
    EqTrans(Add(b, a), (p.Y + p.X) * (q.Y + q.X) + (p.Y - p.X) * (q.Y - q.X), (2 * z) * (u.y * v.y + u.x * v.x));
  }

  // F and G.
  lemma ProductTerms(p: Ext, q: Ext, u: Point, v: Point)
    requires p.Represents(u) && q.Represents(v)
    ensures var (c, d, z) := (Mul(Mul(p.T, q.T), D2), Add(Mul(p.Z, q.Z), Mul(p.Z, q.Z)), p.Z * q.Z);
            Eq(Sub(d, c), (2 * z) * (1 - Cross(D, u, v))) && Eq(Add(d, c), (2 * z) * (1 + Cross(D, u, v)))
  {
    DoubleD();
    hide Eq, Add, Sub, Mul, P, D, D2;
    var z := p.Z * q.Z;
    Reduced(p.Z, q.Z);
    SumOfReduced(Mul(p.Z, q.Z), z, Mul(p.Z, q.Z), z);
    MulOfReduced(p.T, (u.x * u.y) * p.Z, q.T, (v.x * v.y) * q.Z);
    var t := ((u.x * u.y) * p.Z) * ((v.x * v.y) * q.Z);
    MulOfReduced(Mul(p.T, q.T), t, D2, 2 * D);
    SumOfReduced(Add(Mul(p.Z, q.Z), Mul(p.Z, q.Z)), z + z, Mul(Mul(p.T, q.T), D2), t * (2 * D));
    TermIdentity(u.x, u.y, p.Z, v.x, v.y, q.Z);
  }

  lemma TermIdentity(x1: int, y1: int, z1: int, x2: int, y2: int, z2: int)
    ensures var (z, t, w) := (z1 * z2, ((x1 * y1) * z1) * ((x2 * y2) * z2), D * (x1 * x2) * (y1 * y2));
            (z + z) - t * (2 * D) == (2 * z) * (1 - w) && (z + z) + t * (2 * D) == (2 * z) * (1 + w)
  {
    hide D;
  }

  lemma QuotientTimes(n: int, den: int)
    requires PrimeP() && den % P != 0
    ensures Eq(Mul(n, Inv(den)) * den, n)
  {
    hide Eq, Mul, Inv, PrimeP, P;
    var i := Inv(den);
    InvWorks(den);
    Reduced(n, i);
    EqRules(den, den);
    EqMul(Mul(n, i), n * i, den, den);
    Reduced(den, i);
    EqRules(1, den * i);
    EqRules(n, n);
    EqMul(n, n, den * i, 1);
    MulAssoc(n, i, den);
    MulComm(i, den);
    EqTrans(Mul(n, i) * den, n * (den * i), n);
  }

  // If g and e carry the same factor k of a denominator and a numerator, then s g is e.
  lemma ScaledQuotient(s: int, k: int, den: int, n: int, g: int, e: int)
    requires Eq(g, k * den) && Eq(e, k * n) && Eq(s * den, n)
    ensures Eq(s * g, e)
  {
    hide Eq;
    EqRules(s, s);
    EqRules(k, k);
    EqRules(e, k * n);
    EqMul(s, s, g, k * den);
    EqMul(k, k, s * den, n);
    assert s * (k * den) == k * (s * den);
    EqTrans(s * g, k * (s * den), k * n);
    EqTrans(s * g, k * n, e);
  }

  lemma NonzeroTerm(k: int, z1: nat, z2: nat, den: int, g: nat)
    requires PrimeP() && 0 < z1 < P && 0 < z2 < P && den % P != 0 && g < P
    requires k == 2 * (z1 * z2) && Eq(g, k * den)
    ensures g != 0
  {
    if g == 0 {
      EqIsMod(g, k * den);
      hide PrimeP, Mul, Eq;
      assert Mul(k, den) == 0 by { assert (k * den) % P == 0; }
      NoZeroDivisors(k, den);
      assert Mul(2, z1 * z2) == 0;
      NoZeroDivisors(2, z1 * z2);
      assert Mul(z1, z2) == 0;
      NoZeroDivisors(z1, z2);
      ModSmall(z1, P);
      ModSmall(z2, P);
    }
  }

  // The products of the formula represent the point with coordinates E / G and H / F.
  lemma ProductsRepresent(e: nat, f: nat, g: nat, h: nat, s: Point)
    requires PrimeP() && 0 < f < P && 0 < g < P && Eq(s.x * g, e) && Eq(s.y * f, h)
    ensures Products(e, f, g, h).Represents(s)
  {
    var r := Products(e, f, g, h);
    assert r.Z != 0 by {
      if r.Z == 0 {
        NoZeroDivisors(f, g);
        ModSmall(f, P);
        ModSmall(g, P);
      }
    }
    hide Eq, Mul, PrimeP;
    OneScaled(s.x, e, f, g);
    OneScaled(s.y, h, g, f);
    MulCommutes(h, g);
    MulCommutes(g, f);
    BothScaled(s.x, s.y, e, f, g, h);
  }

  lemma OneScaled(x: int, e: nat, f: nat, g: nat)
    requires Eq(x * g, e)
    ensures Eq(Mul(e, f), x * Mul(f, g))
  {
    hide Eq, Mul;
    EqRules(x * g, e);
    EqRules(f, f);
    EqRules(x, x);
    MulOfReduced(e, x * g, f, f);
    Reduced(f, g);
    EqMul(x, x, Mul(f, g), f * g);
    assert (x * g) * f == x * (f * g);
    EqTransSym(Mul(e, f), x * (f * g), x * Mul(f, g));
  }

  lemma BothScaled(x: int, y: int, e: nat, f: nat, g: nat, h: nat)
    requires Eq(x * g, e) && Eq(y * f, h)
    ensures Eq(Mul(e, h), (x * y) * Mul(f, g))
  {
    hide Eq, Mul;
    EqRules(x * g, e);
    EqRules(y * f, h);
    EqRules(x * y, x * y);
    MulOfReduced(e, x * g, h, y * f);
    Reduced(f, g);
    EqMul(x * y, x * y, Mul(f, g), f * g);
    assert (x * g) * (y * f) == (x * y) * (f * g);
    EqTransSym(Mul(e, h), (x * y) * (f * g), (x * y) * Mul(f, g));
  }

  // The extended formula adds the points represented, wherever the affine sum is defined.
  lemma ExtAddRepresents(p: Ext, q: Ext, u: Point, v: Point)
    requires PrimeP() && p.Represents(u) && q.Represents(v) && Complete(D, u, v)
    ensures ExtAdd(p, q).Represents(Plus(D, u, v))
  {
    var s, k, w := Plus(D, u, v), 2 * (p.Z * q.Z), Cross(D, u, v);
    var a := Mul(Sub(p.Y, p.X), Sub(q.Y, q.X));
    var b := Mul(Add(p.Y, p.X), Add(q.Y, q.X));
    var c := Mul(Mul(p.T, q.T), D2);
    var d := Add(Mul(p.Z, q.Z), Mul(p.Z, q.Z));
    var e, f, g, h := Sub(b, a), Sub(d, c), Add(d, c), Add(b, a);
    QuotientTimes(u.x * v.y + v.x * u.y, 1 + w);
    QuotientTimes(u.y * v.y + u.x * v.x, 1 - w);
    hide Eq, Add, Sub, Mul, PrimeP, Cross, D, D2, Inv;
    SumTerms(p, q, u, v);
    ProductTerms(p, q, u, v);
    ScaledQuotient(s.x, k, 1 + w, u.x * v.y + v.x * u.y, g, e);
    ScaledQuotient(s.y, k, 1 - w, u.y * v.y + u.x * v.x, f, h);
    NonzeroTerm(k, p.Z, q.Z, 1 + w, g);
    NonzeroTerm(k, p.Z, q.Z, 1 - w, f);
    ProductsRepresent(e, f, g, h, s);
  }
}
