/**
 * The equations behind the Montgomery form of the curve, between integers as field elements: doubling and
 * differential addition on x-coordinates, in terms of the coordinates on the Edwards curve.
 */
module MontgomeryAlgebra {
  import opened Arith
  import opened Field
  import opened Edwards
  import opened EdwardsLaws

  const A: int := 486662

  // (a + 2) / 4.
  const C4: nat := 121666

  // The inverse of d.
  const D_TWIST: nat := 0x40907ed214d5ce43_2b162114cdb9cf66_0b5dd6984279542e_25e0f276cdc9f843

  // A square root of -(a + 2), which scales the map between the curves.
  const SCALE: nat := 0x70d9120b9f5ff944_2d84f723fc03b081_3a5e2c2eb482e57d_3391fb5500ba81e7

  // The curve v^2 = u^3 + a u^2 + u and its twist d v^2 = u^3 + a u^2 + u. With -u and -a for u and a,
  // the twist belongs to the Edwards curve with 1 / d for d as the curve belongs to that with d.
  datatype Side = Curve | Twist {
    function Coefficient(): nat {
      if Curve? then D else D_TWIST
    }
    function Quarter(): int {
      if Curve? then C4 else 1 - C4
    }
    function Signed(x: int): int {
      if Curve? then x else -x
    }
    function Factor(): int {
      if Curve? then SCALE else SCALE * SQRT_M1
    }
    function Weight(v: int): int {
      if Curve? then v * v else -(D * (v * v))
    }
    ghost predicate Contains(u: int, v: int) {
      Eq(if Curve? then v * v else D * (v * v), u * (u * u + A * u + 1))
    }
  }

  lemma QuarterIs(s: Side)
    ensures Eq(s.Quarter() * (1 + s.Coefficient()), 1) && !Vanishes(s.Quarter())
  {
    EqIsMod(s.Quarter() * (1 + s.Coefficient()), 1);
    VanishesMod(s.Quarter());
    hide Eq, Vanishes;
  }

  // ---- doubling ----

  // 1 + (c - 1)(1 - e) is c (1 + d e).
  lemma InnerTerm(c: int, d: int, e: int)
    requires Eq(c * (1 + d), 1)
    ensures Eq(1 + (c - 1) * (1 - e), c * (1 + d * e))
  {
    hide Eq;
    Scale(e, c * (1 + d), 1);
    EqRules(e * (c * (1 + d)), e * 1);
    EqRules(c - e * c, c - e * c);
    EqAdd(c - e * c, c - e * c, e * 1, e * (c * (1 + d)));
    InnerIdentity(c, d, e);
  }

  lemma InnerIdentity(c: int, d: int, e: int)
    ensures 1 + (c - 1) * (1 - e) == (c - e * c) + e * 1
    ensures c * (1 + d * e) == (c - e * c) + e * (c * (1 + d))
  {
    assert (c - 1) * (1 - e) == c - c * e - 1 + e;
    assert e * (c * (1 + d)) == e * c + e * (c * d);
    MulAssoc(c, d, e);
    MulComm(c * d, e);
  }

  // With g = d e, w = 1 + g and w f = e - 1: what x - z and x + z come to, over the common factor.
  lemma DoubledParts(g: int, e: int, f: int)
    requires Eq((1 + g) * f, e - 1)
    ensures Eq((1 + g) * (e + f), (e + g) - (1 - e) * (1 + g))
    ensures Eq((1 + g) * (1 - g * f), (e + g) + (1 - e) * (1 + g))
  {
    hide Eq;
    var w := 1 + g;
    EqRules(w * e, w * e);
    EqRules(w, w);
    EqAdd(w * e, w * e, w * f, e - 1);
    Scale(g, w * f, e - 1);
    EqAdd(w, w, g * (w * f), g * (e - 1));
    assert w * (e + f) == w * e + w * f;
    assert w * (1 - g * f) == w - g * (w * f) by { assert w * (g * f) == g * (w * f); }
    assert w * e + (e - 1) == (e + g) - (1 - e) * w;
    assert w - g * (e - 1) == (e + g) + (1 - e) * w;
  }

  // x and z of the double, for e = y^2 and a common factor T.
  lemma DoubledTerms(c: int, d: int, e: int, f: int, T: int)
    requires Eq(c * (1 + d), 1) && Eq((1 + d * e) * f, e - 1)
    ensures var (x, z, k) := (e * T, ((1 - e) * (1 + (c - 1) * (1 - e))) * T, (c * T) * (1 + d * e));
            Eq(x - z, k * (e + f)) && Eq(x + z, k * (1 - (d * e) * f))
  {
    hide Eq;
    var g, ct := d * e, c * T;
    InnerTerm(c, d, e);
    Scale(1 - e, 1 + (c - 1) * (1 - e), c * (1 + g));
    Scale(T, (1 - e) * (1 + (c - 1) * (1 - e)), (1 - e) * (c * (1 + g)));
    EqRules(c * (1 + d), 1);
    Scale(e * T, 1, c * (1 + d));
    DoubledFactors(c, d, e, T);
    EqAdd(e * T, ct * (e + g), ((1 - e) * (1 + (c - 1) * (1 - e))) * T, ct * ((1 - e) * (1 + g)));
    MulSub(ct, e + g, (1 - e) * (1 + g));
    MulAdd(ct, e + g, (1 - e) * (1 + g));
    DoubledParts(g, e, f);
    Scaled(ct, 1 + g, e + f, (e + g) - (1 - e) * (1 + g));
    Scaled(ct, 1 + g, 1 - g * f, (e + g) + (1 - e) * (1 + g));
    EqTransSym(e * T - ((1 - e) * (1 + (c - 1) * (1 - e))) * T, ct * ((e + g) - (1 - e) * (1 + g)), (ct * (1 + g)) * (e + f));
    EqTransSym(e * T + ((1 - e) * (1 + (c - 1) * (1 - e))) * T, ct * ((e + g) + (1 - e) * (1 + g)), (ct * (1 + g)) * (1 - g * f));
  }

  lemma Scaled(k: int, a: int, b: int, r: int)
    requires Eq(a * b, r)
    ensures Eq((k * a) * b, k * r)
  {
    hide Eq;
    Scale(k, a * b, r);
    MulAssoc(k, a, b);
  }

  lemma DoubledFactors(c: int, d: int, e: int, T: int)
    ensures (e * T) * 1 == e * T
    ensures (e * T) * (c * (1 + d)) == (c * T) * (e + d * e)
    ensures ((1 - e) * (c * (1 + d * e))) * T == (c * T) * ((1 - e) * (1 + d * e))
  {
    assert e * (1 + d) == e + d * e;
    Regrouped(e, T, c, 1 + d);
    Regrouped(1 - e, c, T, 1 + d * e);
    MulAssoc(1 - e, c, 1 + d * e);
  }

  lemma Regrouped(a: int, b: int, c: int, d: int)
    ensures (a * b) * (c * d) == (c * b) * (a * d) && ((a * b) * d) * c == (b * c) * (a * d)
  {
  }

  // x and z of the double, for b^2 = e s.
  lemma DoubledPair(s: int, bb: int, e: int, c: int, x: int, z: int)
    requires Eq(bb, e * s) && Eq(x, s * bb) && Eq(z, ((s - bb) * (c - 1) + s) * (s - bb))
    ensures Eq(x, e * (s * s)) && Eq(z, ((1 - e) * (1 + (c - 1) * (1 - e))) * (s * s))
  {
    hide Eq;
    var r := (1 - e) * s;
    assert s - e * s == r;
    EqRules(s, s);
    EqAdd(s, s, bb, e * s);
    Scale(s, bb, e * s);
    Scale(c - 1, s - bb, r);
    EqAdd((s - bb) * (c - 1), r * (c - 1), s, s);
    EqMul((s - bb) * (c - 1) + s, r * (c - 1) + s, s - bb, r);
    PairIdentity(1 - e, s, c - 1);
    assert s * (e * s) == e * (s * s);
    EqTrans(x, s * bb, e * (s * s));
    EqTrans(z, ((s - bb) * (c - 1) + s) * (s - bb), (r * (c - 1) + s) * r);
  }

  lemma PairIdentity(m: int, s: int, n: int)
    ensures ((m * s) * n + s) * (m * s) == (m * (1 + n * m)) * (s * s)
  {
    assert (m * s) * n + s == (1 + n * m) * s;
    Regrouped(1 + n * m, s, m, s);
    assert ((1 + n * m) * s) * (m * s) == ((1 + n * m) * m) * (s * s);
    MulComm(1 + n * m, m);
  }

  lemma SumOfPairs(x: int, x': int, z: int, z': int, k: int, num: int, den: int)
    requires Eq(x, x') && Eq(z, z') && Eq(x' - z', k * num) && Eq(x' + z', k * den)
    ensures Eq(x - z, k * num) && Eq(x + z, k * den)
  {
    hide Eq;
    EqAdd(x, x', z, z');
    EqTrans(x - z, x' - z', k * num);
    EqTrans(x + z, x' + z', k * den);
  }

  // ---- differential addition ----

  // One side of the law below, for m = y2 y3, t = y2^2 + y3^2 and n = x2 x3; the other has -m for m.
  lemma RatioFactor(m: int, n: int, t: int, d: int, w: int)
    requires w == 1 + (d * m) * (d * m) + d * t && Eq((n * n) * w, 1 + m * m - t)
    ensures var (k, g) := (d * m, (1 + m * m) * d + (1 + (d * m) * (d * m)));
            Eq((1 + m + (n - k * n)) * (1 + m - (n - k * n)) * w, g * (t + 2 * m))
  {
    var k, q, a, v := d * m, (1 - d * m) * (1 - d * m), (1 + m) * (1 + m), 1 + m * m - t;
    hide Eq;
    Scale(q, (n * n) * w, v);
    EqRules(a * w, a * w);
    EqAdd(a * w, a * w, q * ((n * n) * w), q * v);
    RatioIdentity(m, t, d);
    SquaredDifference(1 + m, n, 1 - k, w);
    assert n * (1 - k) == n - k * n;
  }

  lemma SquaredDifference(c: int, n: int, r: int, w: int)
    ensures (c + n * r) * (c - n * r) * w == (c * c) * w - (r * r) * ((n * n) * w)
  {
    var s := n * r;
    assert (c + s) * (c - s) == c * c - s * s;
    SquaresCommute(n, r);
    var cc, rr, nn := c * c, r * r, n * n;
    assert (cc - nn * rr) * w == cc * w - (nn * rr) * w;
    assert (nn * rr) * w == rr * (nn * w);
  }

  lemma RatioIdentity(m: int, t: int, d: int)
    ensures var (k, a) := (d * m, 1 + m * m);
            ((1 + m) * (1 + m)) * (1 + k * k + d * t) - ((1 - k) * (1 - k)) * (1 + m * m - t)
            == (a * d + (1 + k * k)) * (t + 2 * m)
  {
    var k, a, b := d * m, 1 + m * m, 1 + (d * m) * (d * m);
    assert (1 + m) * (1 + m) == a + 2 * m && (1 - k) * (1 - k) == b - 2 * k;
    RatioExpanded(m, t, d, k, a, b);
  }

  lemma RatioExpanded(m: int, t: int, d: int, k: int, a: int, b: int)
    requires k == d * m
    ensures (a + 2 * m) * (b + d * t) - (b - 2 * k) * (a - t) == (a * d + b) * (t + 2 * m)
  {
    assert (a + 2 * m) * (b + d * t) == a * b + a * (d * t) + 2 * (m * b) + 2 * (m * (d * t));
    assert (b - 2 * k) * (a - t) == a * b - b * t - 2 * (k * a) + 2 * (k * t);
    assert (a * d + b) * (t + 2 * m) == (a * d) * t + b * t + 2 * ((a * d) * m) + 2 * (b * m);
    MulAssoc(a, d, t);
    MulAssoc(a, d, m);
    MulComm(a, k);
    MulAssoc(m, d, t);
    MulComm(m, d);
    MulComm(m, b);
  }

  // For the sum s and the difference r of two points with y-coordinates y2 and y3:
  // (1 + s)(1 + r)(y2 - y3)^2 = (1 - s)(1 - r)(y2 + y3)^2.
  lemma SumAndDifference(s: int, r: int, m: int, n: int, t: int, d: int)
    requires PrimeP() && Eq(s * (1 - (d * m) * n), m + n) && Eq(r * (1 + (d * m) * n), m - n)
    requires !Vanishes(1 - (d * m) * n) && !Vanishes(1 + (d * m) * n)
    requires var w := 1 + (d * m) * (d * m) + d * t; !Vanishes(w) && Eq((n * n) * w, 1 + m * m - t)
    ensures Eq(((1 + s) * (1 + r)) * (t - 2 * m), ((1 - s) * (1 - r)) * (t + 2 * m))
  {
    hide Eq, Vanishes, PrimeP;
    var c, w, g := (d * m) * n, 1 + (d * m) * (d * m) + d * t, (1 + m * m) * d + (1 + (d * m) * (d * m));
    var l, pp, mm := (1 - c) * (1 + c), (1 + s) * (1 + r), (1 - s) * (1 - r);
    RatioFactor(m, n, t, d, w);
    assert d * -m == -(d * m) && -m * -m == m * m && -(d * m) * -(d * m) == (d * m) * (d * m) && -(d * m) * n == -c;
    RatioFactor(-m, n, t, d, w);
    Quotients(s, r, c, m, n);
    Crosswise(l, w, pp, (1 + m + (n - c)) * (1 + m - (n - c)), g, t - 2 * m, t + 2 * m);
    Crosswise(l, w, mm, (1 - m + (n + c)) * (1 - m - (n + c)), g, t + 2 * m, t - 2 * m);
    MulComm(t - 2 * m, t + 2 * m);
    EqTransSym((l * w) * (pp * (t - 2 * m)), g * ((t + 2 * m) * (t - 2 * m)), (l * w) * (mm * (t + 2 * m)));
    VanishingFactor(1 - c, 1 + c);
    VanishingFactor(l, w);
    CancelFactor(l * w, pp * (t - 2 * m), mm * (t + 2 * m));
  }

  lemma Crosswise(l: int, w: int, v: int, r: int, g: int, a: int, b: int)
    requires Eq(v * l, r) && Eq(r * w, g * b)
    ensures Eq((l * w) * (v * a), g * (b * a))
  {
    hide Eq;
    Scale(w, v * l, r);
    EqTrans((v * l) * w, r * w, g * b);
    Scale(a, (v * l) * w, g * b);
    MulAssoc(g, b, a);
    assert ((v * l) * w) * a == (l * w) * (v * a) by {
      MulAssoc(v, l, w);
      Regrouped(v, l * w, a, 1);
      MulComm(v, l * w);
      MulAssoc(l * w, v, a);
    }
  }

  // 1 + s, 1 - s, 1 + r and 1 - r over the denominators of s and r.
  lemma Quotients(s: int, r: int, c: int, m: int, n: int)
    requires Eq(s * (1 - c), m + n) && Eq(r * (1 + c), m - n)
    ensures var l := (1 - c) * (1 + c);
            Eq(((1 + s) * (1 + r)) * l, (1 + m + (n - c)) * (1 + m - (n - c)))
            && Eq(((1 - s) * (1 - r)) * l, (1 - m + (n + c)) * (1 - m - (n + c)))
  {
    hide Eq;
    EqRules(1 - c, 1 - c);
    EqRules(1 + c, 1 + c);
    EqAdd(1 - c, 1 - c, s * (1 - c), m + n);
    EqAdd(1 + c, 1 + c, r * (1 + c), m - n);
    assert (1 + s) * (1 - c) == (1 - c) + s * (1 - c) && (1 - s) * (1 - c) == (1 - c) - s * (1 - c);
    assert (1 + r) * (1 + c) == (1 + c) + r * (1 + c) && (1 - r) * (1 + c) == (1 + c) - r * (1 + c);
    EqMul((1 + s) * (1 - c), 1 + m + (n - c), (1 + r) * (1 + c), 1 + m - (n - c));
    EqMul((1 - s) * (1 - c), 1 - m - (n + c), (1 - r) * (1 + c), 1 - m + (n + c));
    MulComm(1 - m - (n + c), 1 - m + (n + c));
    FourFactors(1 + s, 1 - c, 1 + r, 1 + c);
    FourFactors(1 - s, 1 - c, 1 - r, 1 + c);
  }

  lemma FourFactors(a: int, b: int, c: int, d: int)
    ensures (a * b) * (c * d) == (a * c) * (b * d)
  {
  }

  // A quotient is what times the denominator is the numerator.
  lemma QuotientIs(num: int, den: int, r: nat)
    requires PrimeP() && !Vanishes(den) && Eq(num, r * den) && r < P
    ensures Mul(num, Inv(den)) == r
  {
    VanishesMod(den);
    hide Eq, Mul, Inv, PrimeP, Vanishes;
    QuotientTimes(num, den);
    var q := Mul(num, Inv(den));
    EqTrans(q * den, num, r * den);
    MulComm(q, den);
    MulComm(r, den);
    CancelFactor(den, q, r);
    SameReduced(q, r);
  }

  // The equation of the curve holds with -x for x.
  lemma NegatedEquation(x: int, n: int, e: int, d: int)
    requires Eq(n, -x) && Eq(e - x * x, 1 + d * (x * x) * e)
    ensures Eq(e - n * n, 1 + d * (n * n) * e)
  {
    hide Eq;
    Square(n, -x);
    assert -x * -x == x * x;
    Scale(d, n * n, x * x);
    Scale(e, d * (n * n), d * (x * x));
    EqRules(e, e);
    EqRules(1, 1);
    EqAdd(e, e, n * n, x * x);
    EqAdd(1, 1, (d * (n * n)) * e, (d * (x * x)) * e);
    EqTrans(e - n * n, e - x * x, 1 + d * (x * x) * e);
    EqTransSym(e - n * n, 1 + d * (x * x) * e, 1 + d * (n * n) * e);
  }

  // The denominator and the numerators of p plus its negation.
  lemma NegatedTerms(x: int, y: int, n: int, d: int)
    requires Eq(n, -x) && Eq(y * y - x * x, 1 + (d * (x * x)) * (y * y))
    ensures Eq(x * y + n * y, 0)
    ensures Eq(y * y + x * n, 1 - (d * (x * n)) * (y * y))
  {
    hide Eq;
    var e, f := y * y, x * x;
    Scale(y, n, -x);
    Scale(x, n, -x);
    EqRules(x * y, x * y);
    EqRules(e, e);
    EqRules(1, 1);
    EqAdd(x * y, x * y, n * y, -x * y);
    EqAdd(e, e, x * n, x * -x);
    Scale(d, x * n, x * -x);
    Scale(e, d * (x * n), d * (x * -x));
    EqAdd(1, 1, (d * (x * n)) * e, (d * (x * -x)) * e);
    assert x * y + -x * y == 0 && x * -x == -f && d * -f == -(d * f) && -(d * f) * e == -((d * f) * e);
    EqTrans(e + x * n, e - f, 1 + (d * f) * e);
    EqTransSym(e + x * n, 1 + (d * f) * e, 1 - (d * (x * n)) * e);
  }

  lemma QuotientIsUnit(num: int, den: int)
    requires PrimeP() && !Vanishes(den)
    ensures Eq(num, 0) ==> Mul(num, Inv(den)) == 0
    ensures Eq(num, den) ==> Mul(num, Inv(den)) == 1
  {
    hide Eq, Mul, Inv, PrimeP, Vanishes;
    assert 0 * den == 0 && 1 * den == den;
    if Eq(num, 0) { QuotientIs(num, den, 0); }
    if Eq(num, den) { QuotientIs(num, den, 1); }
  }

  lemma NegatedInTerms(s: int, k: int, m: int, n: int, n': int)
    requires Eq(n', -n) && Eq(s * (1 - k * n'), m + n')
    ensures Eq(s * (1 + k * n), m - n)
  {
    hide Eq;
    Scale(k, n', -n);
    assert k * -n == -(k * n);
    EqRules(1, 1);
    EqRules(m, m);
    EqAdd(1, 1, k * n', k * -n);
    EqAdd(m, m, n', -n);
    Scale(s, 1 - k * n', 1 + k * n);
    EqRules(s * (1 - k * n'), s * (1 + k * n));
    EqTrans(s * (1 + k * n), s * (1 - k * n'), m + n');
    EqTrans(s * (1 + k * n), m + n', m - n);
  }

  lemma SolvedTogether(d: int, e: int, e': int, f: int, f': int, m: int, n: int)
    requires PrimeP() && Eq((1 + d * e) * f, e - 1) && Eq((1 + d * e') * f', e' - 1)
    requires !Vanishes(1 + d * e) && !Vanishes(1 + d * e') && m * m == e * e' && n * n == f * f'
    ensures var (t, w) := (e + e', 1 + (d * m) * (d * m) + d * (e + e'));
            !Vanishes(w) && Eq((n * n) * w, 1 + m * m - t)
  {
    hide Eq, Vanishes, PrimeP;
    SolvedProduct(d, e, e', f, f');
    ProductOfSolved(e, e', d, m);
  }

  lemma SolvedProduct(d: int, e: int, e': int, f: int, f': int)
    requires PrimeP() && Eq((1 + d * e) * f, e - 1) && Eq((1 + d * e') * f', e' - 1)
    requires !Vanishes(1 + d * e) && !Vanishes(1 + d * e')
    ensures !Vanishes((1 + d * e) * (1 + d * e'))
    ensures Eq((f * f') * ((1 + d * e) * (1 + d * e')), (e - 1) * (e' - 1))
  {
    hide Eq, Vanishes, PrimeP;
    var a, a' := 1 + d * e, 1 + d * e';
    VanishingFactor(a, a');
    EqMul(a * f, e - 1, a' * f', e' - 1);
    FourFactors(a, f, a', f');
    MulComm(a * a', f * f');
  }

  lemma ProductOfSolved(e: int, e': int, d: int, m: int)
    requires m * m == e * e'
    ensures (1 + d * e) * (1 + d * e') == 1 + (d * m) * (d * m) + d * (e + e')
    ensures (e - 1) * (e' - 1) == 1 + m * m - (e + e')
  {
    SquaresCommute(d, m);
    FourFactors(d, e, d, e');
    var u, v := d * e, d * e';
    assert (1 + u) * (1 + v) == 1 + u * v + (u + v);
    MulAdd(d, e, e');
    assert (e - 1) * (e' - 1) == e * e' - e - e' + 1;
  }

  // x and z of the sum: squares of the sum and the difference of the cross products.
  lemma AddedPair(a: int, b: int, a': int, b': int, y: int, y': int, u: int, x: int, z: int)
    requires Eq(b, y * a) && Eq(b', y' * a')
    requires Eq(x, (b' * a + a' * b) * (b' * a + a' * b)) && Eq(z, ((b' * a - a' * b) * (b' * a - a' * b)) * u)
    ensures var (k, t, m) := ((a * a') * (a * a'), y * y + y' * y', y * y');
            Eq(x, (t + 2 * m) * k) && Eq(z, ((t - 2 * m) * k) * u)
  {
    hide Eq;
    CrossProduct(a, b', a', y');
    CrossProduct(a', b, a, y);
    MulComm(a', a);
    MulComm(a', b);
    SquaresOfCross(b' * a, b * a', y, y', a * a', u, x, z);
  }

  lemma CrossProduct(a: int, b: int, a': int, y: int)
    requires Eq(b, y * a')
    ensures Eq(b * a, y * (a * a'))
  {
    hide Eq;
    Scale(a, b, y * a');
    MulAssoc(y, a', a);
    MulComm(a', a);
  }

  lemma SquaresOfCross(v: int, w: int, y: int, y': int, c: int, u: int, x: int, z: int)
    requires Eq(v, y' * c) && Eq(w, y * c) && Eq(x, (v + w) * (v + w)) && Eq(z, ((v - w) * (v - w)) * u)
    ensures var (t, m) := (y * y + y' * y', y * y'); Eq(x, (t + 2 * m) * (c * c)) && Eq(z, ((t - 2 * m) * (c * c)) * u)
  {
    hide Eq;
    var t, m, s := y * y + y' * y', y * y', (v - w) * (v - w);
    EqAdd(v, y' * c, w, y * c);
    assert -y * c == -(y * c) && -y * -y == y * y && -y * y' == -m;
    SquaredSum(v + w, y', y, c);
    SquaredSum(v - w, y', -y, c);
    EqTrans(x, (v + w) * (v + w), (t + 2 * m) * (c * c));
    Scale(u, s, (t - 2 * m) * (c * c));
    EqTrans(z, s * u, ((t - 2 * m) * (c * c)) * u);
  }

  lemma SquaredSum(v: int, y': int, y: int, c: int)
    requires Eq(v, y' * c + y * c)
    ensures Eq(v * v, (y * y + y' * y' + 2 * (y * y')) * (c * c))
  {
    hide Eq;
    assert y' * c + y * c == (y' + y) * c;
    Square(v, (y' + y) * c);
    SquaresCommute(y' + y, c);
    SquareOfTwo(y', y);
    MulComm(y', y);
  }

  // If g = (1 + r) / (1 - r) is the x-coordinate of the difference, x : z belongs to s.
  lemma AddedRatio(s: int, r: int, u: int, plus: int, minus: int, k: int, x: int, z: int)
    requires PrimeP() && !Vanishes(1 - r) && Eq(u * (1 - r), 1 + r)
    requires Eq(((1 + s) * (1 + r)) * minus, ((1 - s) * (1 - r)) * plus)
    requires Eq(x, plus * k) && Eq(z, (minus * k) * u)
    ensures Eq(x - z, s * (x + z))
  {
    hide Eq, Vanishes, PrimeP;
    Scale((1 + s) * minus, u * (1 - r), 1 + r);
    RatioTerms(s, r, u, plus, minus);
    EqTrans((1 - r) * (((1 + s) * minus) * u), ((1 + s) * (1 + r)) * minus, (1 - r) * ((1 - s) * plus));
    CancelFactor(1 - r, ((1 + s) * minus) * u, (1 - s) * plus);
    Scale(k, ((1 + s) * minus) * u, (1 - s) * plus);
    Scale(1 + s, z, (minus * k) * u);
    Scale(1 - s, x, plus * k);
    assert (1 + s) * ((minus * k) * u) == k * (((1 + s) * minus) * u) by { MiddleFactor(1 + s, minus, k, u); }
    assert (1 - s) * (plus * k) == k * ((1 - s) * plus);
    EqTrans((1 + s) * z, k * (((1 + s) * minus) * u), k * ((1 - s) * plus));
    EqTransSym((1 + s) * z, k * ((1 - s) * plus), (1 - s) * x);
    EqRules((1 + s) * z, (1 - s) * x);
    VanishesEq((1 - s) * x, (1 + s) * z);
    VanishesEq(x - z, s * (x + z));
    assert (1 - s) * x - (1 + s) * z == (x - z) - s * (x + z);
  }

  lemma MiddleFactor(a: int, b: int, c: int, d: int)
    ensures a * ((b * c) * d) == c * ((a * b) * d)
  {
    MulAssoc(a, b * c, d);
    MulAssoc(a, b, c);
    MulComm(a * b, c);
    MulAssoc(c, a * b, d);
  }

  lemma RatioTerms(s: int, r: int, u: int, plus: int, minus: int)
    ensures ((1 + s) * minus) * (u * (1 - r)) == (1 - r) * (((1 + s) * minus) * u)
    ensures ((1 + s) * minus) * (1 + r) == ((1 + s) * (1 + r)) * minus
    ensures ((1 - s) * (1 - r)) * plus == (1 - r) * ((1 - s) * plus)
  {
    MulAssoc((1 + s) * minus, u, 1 - r);
    MulComm(((1 + s) * minus) * u, 1 - r);
    SwapLast(1 + s, minus, 1 + r);
    SwapLast(1 - s, 1 - r, plus);
    MulComm((1 - s) * plus, 1 - r);
  }

  lemma SwapLast(a: int, b: int, c: int)
    ensures (a * b) * c == (a * c) * b
  {
  }

  // x and z of the sum vanish exactly if the squares in them do.
  lemma NotBothVanish(u: int, k: int, plus: int, minus: int, x: int, z: int)
    requires PrimeP() && !Vanishes(u) && !Vanishes(k) && Eq(x, plus * k) && Eq(z, (minus * k) * u)
    ensures (Vanishes(x) <==> Vanishes(plus)) && (Vanishes(z) <==> Vanishes(minus))
  {
    hide Eq, Vanishes, PrimeP;
    VanishesEq(x, plus * k);
    VanishesEq(z, (minus * k) * u);
    VanishingFactor(plus, k);
    VanishingFactor(minus * k, u);
    VanishingFactor(minus, k);
  }

  lemma BothVanish(y: int, y': int)
    requires PrimeP() && Vanishes(y + y') && Vanishes(y - y')
    ensures Vanishes(y) && Vanishes(y')
  {
    hide Eq, Vanishes, PrimeP;
    VanishingSum(y, y');
    VanishesEq(y + y', y');
    assert (y + y') - y' == y;
  }

  lemma VanishingSquare(a: int, b: int)
    requires PrimeP()
    ensures Vanishes(a * a + b * b + 2 * (a * b)) ==> Vanishes(a + b)
  {
    hide Eq, Vanishes, PrimeP;
    SquareOfTwo(a, b);
    VanishingFactor(a + b, a + b);
  }

  // Two points with y-coordinate zero have a difference with y-coordinate 1 or -1.
  lemma QuarterPoints(r: int, m: int, n: int, t: int, d: int)
    requires Vanishes(m) && Vanishes(t) && Eq(r * (1 + (d * m) * n), m - n)
    requires Eq((n * n) * (1 + (d * m) * (d * m) + d * t), 1 + m * m - t)
    ensures Vanishes((1 + r) * (1 - r))
  {
    hide Eq, Vanishes;
    VanishingProduct(d, m);
    VanishingProduct(d, t);
    VanishingProduct(d * m, n);
    VanishingProduct(d * m, d * m);
    VanishingProduct(m, m);
    OneMore(1, (d * m) * n);
    OneMore(1 + (d * m) * (d * m), d * t);
    OneMore(1, (d * m) * (d * m));
    EqTrans(1 + (d * m) * (d * m) + d * t, 1 + (d * m) * (d * m), 1);
    OneMore(-n, m);
    OneMore(1 + m * m, -t);
    OneMore(1, m * m);
    VanishesNegated(t);
    EqTrans(1 + m * m - t, 1 + m * m, 1);
    Scale(n * n, 1 + (d * m) * (d * m) + d * t, 1);
    EqRules((n * n) * (1 + (d * m) * (d * m) + d * t), n * n);
    EqTrans(n * n, (n * n) * (1 + (d * m) * (d * m) + d * t), 1 + m * m - t);
    EqTrans(n * n, 1 + m * m - t, 1);
    Scale(r, 1 + (d * m) * n, 1);
    EqRules(r * (1 + (d * m) * n), r);
    EqTrans(r, r * (1 + (d * m) * n), m - n);
    EqTrans(r, m - n, -n);
    Square(r, -n);
    assert -n * -n == n * n;
    EqTrans(r * r, n * n, 1);
    EqRules(r * r, 1);
    VanishesEq(1, r * r);
    assert (1 + r) * (1 - r) == 1 - r * r;
  }

  lemma OneMore(a: int, v: int)
    requires Vanishes(v) || Vanishes(-v)
    ensures Eq(a + v, a)
  {
    VanishesNegated(v);
    VanishesEq(a + v, a);
    hide Eq, Vanishes;
    assert (a + v) - a == v;
  }

  lemma SumRemains(x: int, z: int, s: int)
    requires PrimeP() && Eq(x - z, s * (x + z)) && !(Vanishes(x) && Vanishes(z))
    ensures !Vanishes(x + z)
  {
    hide Eq, Vanishes, PrimeP;
    VanishingProduct(s, x + z);
    VanishesEq(x - z, s * (x + z));
    VanishingSum(x, z);
    VanishingSum(z, x);
    VanishesNegated(x - z);
    assert -(x - z) == z - x;
  }

  lemma ZeroInverse()
    ensures Inv(0) == 0
  {
    hide Mul;
    MulZero(Pow(0, P - 3));
    assert Pow(0, P - 2) == Mul(0, Pow(0, P - 3));
  }

  // ---- the quotient that ends the ladder ----

  lemma CrossRatio(x: int, z: int, y: int)
    requires Eq(x - z, y * (x + z))
    ensures Eq(x * (1 - y), z * (1 + y))
  {
    hide Eq;
    VanishesEq(x - z, y * (x + z));
    VanishesEq(x * (1 - y), z * (1 + y));
    assert (x - z) - y * (x + z) == x * (1 - y) - z * (1 + y);
  }

  lemma Infinite(x: int, z: int, y: int)
    requires PrimeP() && Eq(x * (1 - y), z * (1 + y)) && !Vanishes(x + z)
    ensures Vanishes(z) <==> Vanishes(1 - y)
  {
    hide Eq, Vanishes, PrimeP;
    VanishesEq(x * (1 - y), z * (1 + y));
    VanishingFactor(x, 1 - y);
    VanishingFactor(z, 1 + y);
    assert (x + z) - z == x;
    VanishesEq(x + z, z);
    if Vanishes(1 + y) && Vanishes(1 - y) {
      VanishingSum(1, y);
      UnitDoesNotVanish(1);
    }
  }

  lemma SmallRemains(a: nat)
    requires 0 < a < P
    ensures !Vanishes(a)
  {
    VanishesMod(a);
    hide Vanishes, P;
    ModSmall(a, P);
  }

  lemma SameQuotient(x: int, z: int, n: int, den: int)
    requires PrimeP() && !Vanishes(z) && !Vanishes(den) && Eq(x * den, z * n)
    ensures Mul(x, Inv(z)) == Mul(n, Inv(den))
  {
    VanishesMod(den);
    hide *;
    var r := Mul(n, Inv(den));
    QuotientTimes(n, den);
    Scale(z, r * den, n);
    EqTransSym(x * den, z * n, z * (r * den));
    assert x * den == den * x && z * (r * den) == den * (r * z);
    CancelFactor(den, x, r * z);
    QuotientIs(x, z, r);
  }

  // ---- the equation of the curve ----

  lemma ScaleSquared()
    ensures Eq(SCALE * SCALE, -(A + 2)) && Eq(D * -(A + 2), A - 2)
    ensures Eq(A - 2, D * (SCALE * SCALE)) && !Vanishes(SCALE)
  {
    RootOfScale();
    CoefficientRatio();
    ScaleRemains();
    hide *;
    EqRules(SCALE * SCALE, -(A + 2));
    EqRules(D * -(A + 2), A - 2);
    Scale(D, -(A + 2), SCALE * SCALE);
    EqTrans(A - 2, D * -(A + 2), D * (SCALE * SCALE));
  }

  lemma RootOfScale()
    ensures Eq(SCALE * SCALE, -(A + 2))
  {
    EqIsMod(SCALE * SCALE, -(A + 2));
    hide Eq;
  }

  lemma CoefficientRatio()
    ensures Eq(D * -(A + 2), A - 2) && Eq(D_TWIST * -(2 - A), -A - 2)
  {
    EqIsMod(D * -(A + 2), A - 2);
    EqIsMod(D_TWIST * -(2 - A), -A - 2);
    hide Eq;
  }

  lemma ScaleRemains()
    ensures !Vanishes(SCALE)
  {
    VanishesMod(SCALE);
    hide Eq, Vanishes;
  }

  // The square of the scale of the twist.
  lemma TwistScaleSquared()
    ensures Eq((SCALE * SQRT_M1) * (SCALE * SQRT_M1), A + 2)
  {
    ScaleSquared();
    RootOfMinusOne();
    hide *;
    SquaresCommute(SCALE, SQRT_M1);
    EqMul(SCALE * SCALE, -(A + 2), SQRT_M1 * SQRT_M1, -1);
    assert -(A + 2) * -1 == A + 2;
  }

  // u^2 + a u + 1 has no root, as a^2 - 4 is not a square.
  lemma NoHalfPoint(u: int)
    requires PrimeP() && NonSquare(D)
    ensures !Vanishes(u * u + A * u + 1)
  {
    Discriminant();
    hide Eq, Vanishes, PrimeP, NonSquare, SQRT_M1, D;
    var q, w, b := u * u + A * u + 1, 2 * u + A, 4 * C4 * SQRT_M1;
    if Vanishes(q) {
      assert w * w == (A * A - 4) + 4 * q;
      VanishingProduct(4, q);
      OneMore(A * A - 4, 4 * q);
      EqTrans(w * w, A * A - 4, D * (b * b));
      NoRatio(D, w, b);
    }
  }

  lemma Discriminant()
    ensures var b := 4 * C4 * SQRT_M1; Eq(A * A - 4, D * (b * b)) && !Vanishes(b)
  {
    EqIsMod(A * A - 4, D * ((4 * C4 * SQRT_M1) * (4 * C4 * SQRT_M1)));
    VanishesMod(4 * C4 * SQRT_M1);
    hide Eq, Vanishes;
  }

  // The right side of the equation does not vanish.
  lemma CubicRemains(u: int)
    requires PrimeP() && NonSquare(D) && !Vanishes(u)
    ensures !Vanishes(u * (u * u + A * u + 1))
  {
    hide *;
    NoHalfPoint(u);
    VanishingFactor(u, u * u + A * u + 1);
  }

  // The terms of the equation of the twist, with its signs.
  lemma TwistTerms(d: int, a: int, u: int, w: int, f: int)
    requires Eq(d * w, u * (u * u + a * u + 1)) && Eq(f * w, (a + 2) * (u * u)) && Eq(d * -(a + 2), a - 2)
    ensures Eq(-(d * w), -u * (-u * -u + -a * -u + 1)) && Eq(f * -(d * w), (a - 2) * (u * u))
  {
    hide Eq;
    var q := u * u + a * u + 1;
    EqNegated(d * w, u * q);
    assert -u * -u == u * u && -a * -u == a * u && -u * q == -(u * q);
    Scale(-d, f * w, (a + 2) * (u * u));
    assert -d * (f * w) == f * -(d * w) by {
      MulAssoc(-d, f, w);
      MulAssoc(f, -d, w);
      MulComm(-d, f);
      assert -d * w == -(d * w);
    }
    Scale(u * u, d * -(a + 2), a - 2);
    assert -d * ((a + 2) * (u * u)) == (d * -(a + 2)) * (u * u) by {
      MulAssoc(-d, a + 2, u * u);
      assert -d * (a + 2) == d * -(a + 2);
    }
    EqTrans(f * -(d * w), (d * -(a + 2)) * (u * u), (a - 2) * (u * u));
  }

  lemma EqNegated(a: int, b: int)
    requires Eq(a, b)
    ensures Eq(-a, -b)
  {
    hide Eq;
    EqRules(0, 0);
    EqAdd(0, 0, a, b);
  }

  // Neither v nor, with the sign of the side, u + 1 vanishes: a - 2 is not a square, and a + 2 is one.
  lemma FactorsRemain(s: Side, u: int, v: int)
    requires PrimeP() && NonSquare(D) && s.Contains(u, v) && !Vanishes(u)
    ensures !Vanishes(v) && !Vanishes(s.Weight(v)) && !Vanishes(s.Signed(u) + 1)
  {
    CubicRemains(u);
    ScaleSquared();
    TwistScaleSquared();
    hide Eq, Vanishes, PrimeP, NonSquare, D, SCALE, SQRT_M1;
    VanishesEq(v * v, u * (u * u + A * u + 1));
    VanishesEq(D * (v * v), u * (u * u + A * u + 1));
    VanishingProduct(D, v * v);
    VanishingProduct(v, v);
    VanishesNegated(D * (v * v));
    if s.Curve? { NotMinusOne(D, A, SCALE, u, v); } else { NotOne(D, A, SCALE * SQRT_M1, u, v); }
  }

  lemma CubicAt(a: int, u: int, e: int)
    requires Eq(u, e) && e * e == 1
    ensures Eq(u * (u * u + a * u + 1), a + 2 * e)
  {
    hide Eq;
    Square(u, e);
    Scale(a, u, e);
    EqRules(1, 1);
    EqAdd(u * u, e * e, a * u, a * e);
    EqAdd(u * u + a * u, e * e + a * e, 1, 1);
    EqMul(u, e, u * u + a * u + 1, e * e + a * e + 1);
    assert e * (e * e + a * e + 1) == a + 2 * e by {
      MulAssoc(e, a, e);
      MulComm(e, a);
      MulAssoc(a, e, e);
    }
  }

  // On a curve with coefficient a, u is not -1 if a - 2 is d times a square, ...
  lemma NotMinusOne(d: nat, a: int, r: int, u: int, v: int)
    requires PrimeP() && NonSquare(d) && Eq(a - 2, d * (r * r)) && !Vanishes(r) && Eq(v * v, u * (u * u + a * u + 1))
    ensures !Vanishes(u + 1)
  {
    hide Eq, Vanishes, PrimeP, NonSquare;
    if Vanishes(u + 1) {
      assert u - -1 == u + 1;
      VanishesEq(u, -1);
      CubicAt(a, u, -1);
      EqTrans(v * v, u * (u * u + a * u + 1), a - 2);
      EqTrans(v * v, a - 2, d * (r * r));
      NoRatio(d, v, r);
    }
  }

  // ... and on its twist, not 1 if a + 2 is a square.
  lemma NotOne(d: nat, a: int, r: int, u: int, v: int)
    requires PrimeP() && NonSquare(d) && Eq(r * r, a + 2) && !Vanishes(v) && Eq(d * (v * v), u * (u * u + a * u + 1))
    ensures !Vanishes(-u + 1)
  {
    hide Eq, Vanishes, PrimeP, NonSquare;
    if Vanishes(-u + 1) {
      assert 1 - u == -u + 1;
      VanishesEq(1, u);
      EqRules(1, u);
      CubicAt(a, u, 1);
      EqTrans(d * (v * v), u * (u * u + a * u + 1), a + 2);
      EqTransSym(r * r, a + 2, d * (v * v));
      NoRatio(d, r, v);
    }
  }

  // The two sides have no x-coordinate in common but zero.
  lemma OneSide(u: int, v: int, w: int)
    requires PrimeP() && NonSquare(D) && Curve.Contains(u, v) && Twist.Contains(u, w)
    ensures Vanishes(u)
  {
    hide Eq, Vanishes, PrimeP, NonSquare, D;
    EqTransSym(v * v, u * (u * u + A * u + 1), D * (w * w));
    NoRatio(D, v, w);
    if !Vanishes(u) { FactorsRemain(Twist, u, w); }
  }

  // The Montgomery equation, as the Edwards equation needs it.
  lemma EquationIdentity(u: int, w: int, a: int)
    ensures var (e, m, n) := (u * u, (u - 1) * (u - 1), (u + 1) * (u + 1));
            (w * m + n * ((a + 2) * e)) - (w * n + ((a - 2) * e) * m) == (-4 * u) * (w - u * (e + a * u + 1))
  {
    var e := u * u;
    var m, n := e - 2 * u + 1, e + 2 * u + 1;
    assert (u - 1) * (u - 1) == m && (u + 1) * (u + 1) == n;
    MulSub(w, m, n);
    assert w * (m - n) == (-4 * u) * w by { MulComm(w, -4 * u); }
    LevelTerms(a, e, m, n);
    assert 4 * (e * (e + a * u + 1)) == (4 * u) * (u * (e + a * u + 1)) by { MulAssoc(u, u, e + a * u + 1); }
    assert a * (e * (n - m)) + 2 * (e * (n + m)) == 4 * (e * (e + a * u + 1)) by { MidTerms(a, e, u); }
    MulSub(-4 * u, w, u * (e + a * u + 1));
  }

  lemma LevelTerms(a: int, e: int, m: int, n: int)
    ensures n * ((a + 2) * e) - ((a - 2) * e) * m == a * (e * (n - m)) + 2 * (e * (n + m))
  {
    var p, q := e * n, e * m;
    assert n * ((a + 2) * e) == (a + 2) * p && ((a - 2) * e) * m == (a - 2) * q;
    assert e * (n - m) == p - q && e * (n + m) == p + q;
    assert (a + 2) * p - (a - 2) * q == a * (p - q) + 2 * (p + q);
  }

  lemma MidTerms(a: int, e: int, u: int)
    ensures a * (e * (4 * u)) + 2 * (e * (2 * e + 2)) == 4 * (e * (e + a * u + 1))
  {
    assert e * (e + a * u + 1) == e * e + e * (a * u) + e;
    assert a * (e * (4 * u)) == 4 * (e * (a * u)) by { assert a * (e * u) == e * (a * u); }
  }

  // The curve equation, from its multiple by the denominators.
  lemma ClearedEquation(e: int, f: int, w: int, n: int, m: int, k: int, k': int, d: int)
    requires PrimeP() && !Vanishes(w * n) && Eq(e * n, m) && Eq(f * w, k) && Eq(d * (k * m), k')
    requires Eq(w * m - n * k, w * n + k')
    ensures Eq(e - f, 1 + d * (f * e))
  {
    hide Eq, Vanishes, PrimeP;
    Scale(w, e * n, m);
    Scale(n, f * w, k);
    EqAdd(w * (e * n), w * m, n * (f * w), n * k);
    EqMul(f * w, k, e * n, m);
    Scale(d, (f * w) * (e * n), k * m);
    EqTrans(d * ((f * w) * (e * n)), d * (k * m), k');
    EqRules(w * n, w * n);
    EqAdd(w * n, w * n, d * ((f * w) * (e * n)), k');
    ClearedTerms(e, f, w, n, d);
    EqTrans((w * n) * (e - f), w * m - n * k, w * n + k');
    EqTransSym((w * n) * (e - f), w * n + k', (w * n) * (1 + d * (f * e)));
    CancelFactor(w * n, e - f, 1 + d * (f * e));
  }

  lemma ClearedTerms(e: int, f: int, w: int, n: int, d: int)
    ensures (w * n) * (e - f) == w * (e * n) - n * (f * w)
    ensures (w * n) * (1 + d * (f * e)) == w * n + d * ((f * w) * (e * n))
  {
    MulSub(w * n, e, f);
    MulAssoc(w, n, e);
    MulComm(n, e);
    MulComm(w, n);
    MulAssoc(n, w, f);
    MulComm(w, f);
    MulAdd(w * n, 1, d * (f * e));
    FourFactors(f, w, e, n);
    MiddleFactor(w * n, d, f * e, 1);
    MulAssoc(d, f * e, w * n);
    MulComm(d * (f * e), w * n);
  }

  lemma EdwardsEquation(a: int, u: int, w: int, e: int, f: int, d: int)
    requires PrimeP() && Eq(w, u * (u * u + a * u + 1)) && Eq(d * -(a + 2), a - 2)
    requires Eq(e * ((u + 1) * (u + 1)), (u - 1) * (u - 1)) && Eq(f * w, -(a + 2) * (u * u))
    ensures !Vanishes(w) && !Vanishes(u + 1) ==> Eq(e - f, 1 + d * (f * e))
  {
    hide Eq, Vanishes, PrimeP;
    var n, m, k, k' := (u + 1) * (u + 1), (u - 1) * (u - 1), -(a + 2) * (u * u), ((a - 2) * (u * u)) * ((u - 1) * (u - 1));
    VanishingFactor(u + 1, u + 1);
    VanishingFactor(w, n);
    ScaledByRatio(a, d, u * u, m);
    EquationIdentity(u, w, a);
    VanishesEq(w, u * (u * u + a * u + 1));
    VanishingProduct(-4 * u, w - u * (u * u + a * u + 1));
    VanishesEq(w * m - n * k, w * n + k');
    NegatedFactor(n, a + 2, u * u);
    if !Vanishes(w * n) { ClearedEquation(e, f, w, n, m, k, k', d); }
  }

  lemma NegatedFactor(n: int, a: int, e: int)
    ensures n * (-a * e) == -(n * (a * e))
  {
    assert -a * e == -(a * e);
  }

  lemma SquaredTimes(a: int, b: int, r: int)
    requires Eq(a * b, r)
    ensures Eq((a * a) * (b * b), r * r)
  {
    hide Eq;
    Square(a * b, r);
    SquaresCommute(a, b);
  }

  // The square of the scale in the terms of the equation.
  lemma SquareOfScaled(u: int, s: int, r: int)
    requires Eq(s * s, r)
    ensures Eq((s * u) * (s * u), r * (u * u))
  {
    hide Eq;
    SquaresCommute(s, u);
    Scale(u * u, s * s, r);
  }

  lemma ScaledByRatio(a: int, d: int, e: int, m: int)
    requires Eq(d * -(a + 2), a - 2)
    ensures Eq(d * ((-(a + 2) * e) * m), ((a - 2) * e) * m)
  {
    hide Eq;
    Scale(e * m, d * -(a + 2), a - 2);
    MulAssoc(-(a + 2), e, m);
    MulAssoc(d, -(a + 2), e * m);
    MulAssoc(a - 2, e, m);
  }
}
