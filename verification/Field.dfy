/** The prime field of the curves: integers modulo 2^255 - 19. */
module Field {
  import opened Arith

  type Modulus = m: nat | m > 1 witness 2

  const P: Modulus := 0x7fffffff_ffffffff_ffffffff_ffffffff_ffffffff_ffffffff_ffffffff_ffffffed

  function Add(a: int, b: int): (r: nat)
    ensures r < P
  {
    (a + b) % P
  }

  function Sub(a: int, b: int): (r: nat)
    ensures r < P
  {
    (a - b) % P
  }

  function Mul(a: int, b: int): (r: nat)
    ensures r < P
  {
    (a * b) % P
  }

  function Pow(x: int, n: nat): (r: nat)
    ensures r < P
  {
    if n == 0 then 1 else Mul(x, Pow(x, n - 1))
  }

  // k p, by repeated addition, so that congruences do not unfold to products.
  ghost function MultipleOfP(k: int): int
    decreases if k < 0 then -k else k
  {
    if k == 0 then 0 else if k > 0 then MultipleOfP(k - 1) + P else MultipleOfP(k + 1) - P
  }

  lemma {:induction false} MultipleOfPIs(k: int)
    ensures MultipleOfP(k) == P * k
    decreases if k < 0 then -k else k
  {
    hide P;
    if k == 0 {
    } else if k > 0 {
      MultipleOfPIs(k - 1);
      MulSub(P, k, 1);
    } else {
      MultipleOfPIs(k + 1);
      MulAdd(P, k, 1);
    }
  }

  // Two integers that stand for the same field element.
  ghost predicate Eq(a: int, b: int) {
    exists k :: a == b + MultipleOfP(k)
  }

  lemma EqIsMod(a: int, b: int)
    ensures Eq(a, b) <==> a % P == b % P
  {
    hide P;
    if a % P == b % P {
      DivMod(a, P);
      DivMod(b, P);
      MulSub(P, a / P, b / P);
      MultipleOfPIs(a / P - b / P);
      assert a == b + MultipleOfP(a / P - b / P);
    }
    if k :| a == b + MultipleOfP(k) {
      MultipleOfPIs(k);
      ModShift(b, P, k);
    }
  }

  lemma EqMul(a: int, a': int, b: int, b': int)
    requires Eq(a, a') && Eq(b, b')
    ensures Eq(a * b, a' * b')
  {
    EqIsMod(a, a');
    EqIsMod(b, b');
    EqIsMod(a * b, a' * b');
    hide P, Eq;
    ModMul(a, b, P);
    ModMul(a', b', P);
  }

  lemma EqAdd(a: int, a': int, b: int, b': int)
    requires Eq(a, a') && Eq(b, b')
    ensures Eq(a + b, a' + b') && Eq(a - b, a' - b')
  {
    EqIsMod(a, a');
    EqIsMod(b, b');
    EqIsMod(a + b, a' + b');
    EqIsMod(a - b, a' - b');
    hide P, Eq;
    ModAdd(a, b, P);
    ModAdd(a', b', P);
  }

  lemma ReducedEq(a: int)
    ensures Eq(a % P, a)
  {
    EqIsMod(a % P, a);
    hide P, Eq;
    ModAdd(a, 0, P);
  }

  // Reduced numbers that stand for the same element are the same.
  lemma SameReduced(a: nat, b: nat)
    requires a < P && b < P && Eq(a, b)
    ensures a == b
  {
    EqIsMod(a, b);
    hide P, Eq;
    ModSmall(a, P);
    ModSmall(b, P);
  }

  lemma EqRules(a: int, b: int)
    ensures Eq(a, a) && (Eq(a, b) ==> Eq(b, a))
  {
    EqIsMod(a, a);
    EqIsMod(a, b);
    EqIsMod(b, a);
    hide Eq;
  }

  lemma EqTrans(a: int, b: int, c: int)
    requires Eq(a, b) && Eq(b, c)
    ensures Eq(a, c)
  {
    EqIsMod(a, b);
    EqIsMod(b, c);
    EqIsMod(a, c);
    hide Eq;
  }

  lemma EqTransSym(a: int, b: int, c: int)
    requires Eq(a, b) && Eq(c, b)
    ensures Eq(a, c)
  {
    EqRules(c, b);
    EqTrans(a, b, c);
  }

  lemma SameMul(a: int, a': int, b: int, b': int)
    requires Eq(a, a') && Eq(b, b')
    ensures Mul(a, b) == Mul(a', b')
  {
    hide Eq;
    EqMul(a, a', b, b');
    EqIsMod(a * b, a' * b');
  }

  lemma MulCommutes(a: int, b: int)
    ensures Mul(a, b) == Mul(b, a)
  {
    hide P;
    MulComm(a, b);
  }

  lemma MulAssociates(a: int, b: int, c: int)
    ensures Mul(a, Mul(b, c)) == Mul(Mul(a, b), c)
  {
    hide P;
    ModMul(a, b * c, P);
    ModMul(a * b, c, P);
    MulAssoc(a, b, c);
  }

  lemma {:induction false} PowAdd(x: int, a: nat, b: nat)
    ensures Mul(Pow(x, a), Pow(x, b)) == Pow(x, a + b)
  {
    if a == 0 {
      hide Mul;
      assert Pow(x, 0) == 1;
      MulOne(Pow(x, b));
    } else {
      hide Mul;
      PowAdd(x, a - 1, b);
      MulAssociates(x, Pow(x, a - 1), Pow(x, b));
    }
  }

  lemma MulOne(a: nat)
    requires a < P
    ensures Mul(1, a) == a == Mul(a, 1)
  {
  }

  lemma PowOne(x: int)
    ensures Pow(x, 1) == x % P
  {
    assert Pow(x, 1) == Mul(x, Pow(x, 0));
  }

  lemma PowNext(x: int, n: nat)
    ensures Mul(Pow(x, n), x) == Pow(x, n + 1)
    ensures Mul(x, x) == Pow(x, 2)
  {
    MulCommutes(Pow(x, n), x);
    assert Pow(x, 2) == Mul(x, Pow(x, 1));
    PowOne(x);
    ReducedEq(x);
    EqRules(x, x);
    SameMul(x, x, x % P, x);
  }

  lemma {:induction false} PowProduct(x: int, y: int, n: nat)
    ensures Pow(Mul(x, y), n) == Mul(Pow(x, n), Pow(y, n))
  {
    if n == 0 {
    } else {
      PowProduct(x, y, n - 1);
      hide Mul, P;
      var u, v := Pow(x, n - 1), Pow(y, n - 1);
      MulAssociates(Mul(x, y), u, v);
      MulAssociates(x, y, u);
      MulCommutes(y, u);
      MulAssociates(x, u, y);
      MulAssociates(Mul(x, u), y, v);
    }
  }

  // 250 one bits.
  const ONES250: nat := 0x3ffffff_ffffffff_ffffffff_ffffffff_ffffffff_ffffffff_ffffffff_ffffffff

  // ---- what follows from primality of P ----

  ghost predicate PrimeP() {
    forall d :: 1 < d < P ==> P % d != 0
  }

  // The least positive multiplier that takes b to zero divides every multiplier that does.
  lemma {:induction false} LeastAnnihilator(b: int, n: nat) returns (m: nat)
    requires n > 0 && Mul(n, b) == 0
    ensures 0 < m <= n && Mul(m, b) == 0
    ensures forall k :: 0 < k < m ==> Mul(k, b) != 0
  {
    if forall k :: 0 < k < n ==> Mul(k, b) != 0 {
      m := n;
    } else {
      var k :| 0 < k < n && Mul(k, b) == 0;
      m := LeastAnnihilator(b, k);
    }
  }

  lemma AnnihilatorDivides(b: int, m: nat, n: nat)
    requires 0 < m && Mul(m, b) == 0 && Mul(n, b) == 0
    requires forall k :: 0 < k < m ==> Mul(k, b) != 0
    ensures n % m == 0
  {
    RemainderAnnihilates(b, m, n);
    hide Mul;
  }

  lemma RemainderAnnihilates(b: int, m: nat, n: nat)
    requires 0 < m && Mul(m, b) == 0 && Mul(n, b) == 0
    ensures Mul(n % m, b) == 0
  {
    assert (m * b) % P == 0;
    hide P, Mul;
    Remainder(n, m, b);
    MulOfZero(n / m, m * b);
    MulDistributes(n, b, n / m, m * b, n % m);
  }

  lemma MulOfZero(q: int, c: int)
    requires c % P == 0
    ensures Mul(q, c) == 0
  {
    hide P;
    ModMul(q, c, P);
    ModSmall(0, P);
  }

  lemma MulDistributes(n: int, b: int, q: int, c: int, r: int)
    requires n * b == q * c + r * b && Mul(n, b) == 0 && Mul(q, c) == 0
    ensures Mul(r, b) == 0
  {
    hide P;
    ModAdd(n * b, q * c, P);
    ModSmall(0, P);
  }

  // A product is zero only if a factor is.
  lemma NoZeroDivisors(a: int, b: int)
    requires PrimeP() && Mul(a, b) == 0
    ensures a % P == 0 || b % P == 0
  {
    ReducedEq(a);
    EqRules(b, b);
    SameMul(a % P, a, b, b);
    PTimes(b);
    var m := LeastAnnihilator(b, P);
    AnnihilatorDivides(b, m, P);
    AnnihilatorDivides(b, m, a % P);
    assert m == 1 || m == P;
    if m == 1 {
      assert 1 * b == b;
    } else {
      assert (a % P) % P == a % P;
    }
  }

  lemma PTimes(b: int)
    ensures Mul(P, b) == 0
  {
    hide P;
    ModShift(0, P, b);
  }

  // ---- Fermat's little theorem: multiplication by x permutes the units ----

  ghost function Units(n: nat): (s: set<nat>)
    ensures forall i :: i in s <==> 1 <= i <= n
  {
    if n == 0 then {} else Units(n - 1) + {n}
  }

  lemma {:induction false} UnitsSize(n: nat)
    ensures |Units(n)| == n
  {
    if n == 0 {
    } else {
      UnitsSize(n - 1);
      hide *;
      assert n !in Units(n - 1) && Units(n) == Units(n - 1) + {n};
    }
  }

  ghost function Product(s: set<nat>): (r: nat)
    ensures r < P
  {
    if s == {} then 1 else var i :| i in s; Mul(i, Product(s - {i}))
  }

  lemma {:induction false} ProductTake(s: set<nat>, i: nat)
    requires i in s
    ensures Product(s) == Mul(i, Product(s - {i}))
    decreases |s|
  {
    hide Mul, P;
    var j :| j in s && Product(s) == Mul(j, Product(s - {j}));
    if i == j {
    } else {
      ProductTake(s - {j}, i);
      ProductTake(s - {i}, j);
      assert s - {j} - {i} == s - {i} - {j};
      var t := Product(s - {i} - {j});
      MulAssociates(i, j, t);
      MulAssociates(j, i, t);
      MulCommutes(i, j);
    }
  }

  ghost function Image(x: int, s: set<nat>): set<nat> {
    set i | i in s :: Mul(x, i)
  }

  ghost predicate InjectiveOn(x: int, s: set<nat>) {
    forall i, j :: i in s && j in s && Mul(x, i) == Mul(x, j) ==> i == j
  }

  lemma ImageTake(x: int, s: set<nat>, i: nat)
    requires InjectiveOn(x, s) && i in s
    ensures Mul(x, i) in Image(x, s) && Image(x, s) - {Mul(x, i)} == Image(x, s - {i})
    ensures InjectiveOn(x, s - {i})
  {
    hide Mul, P;
  }

  lemma {:induction false} ProductImage(x: int, s: set<nat>)
    requires InjectiveOn(x, s)
    ensures Product(Image(x, s)) == Mul(Pow(x, |s|), Product(s))
    ensures |Image(x, s)| == |s|
    decreases |s|
  {
    if s == {} {
      assert Image(x, s) == {};
      MulOne(1);
    } else {
      var i :| i in s;
      var s' := s - {i};
      assert Pow(x, |s|) == Mul(x, Pow(x, |s'|)) by { hide Mul, P; }
      hide *;
      ImageTake(x, s, i);
      ProductImage(x, s');
      ProductTake(Image(x, s), Mul(x, i));
      ProductTake(s, i);
      Exchange(x, i, Pow(x, |s'|), Product(s'));
    }
  }

  lemma Exchange(a: int, b: int, c: int, d: int)
    ensures Mul(Mul(a, b), Mul(c, d)) == Mul(Mul(a, c), Mul(b, d))
  {
    hide Mul, P;
    MulAssociates(Mul(a, b), c, d);
    MulAssociates(a, b, c);
    MulCommutes(b, c);
    MulAssociates(a, c, b);
    MulAssociates(Mul(a, c), b, d);
  }

  lemma {:induction false} ProductNonzero(s: set<nat>)
    requires PrimeP() && forall i :: i in s ==> i % P != 0
    ensures Product(s) != 0
    decreases |s|
  {
    hide Mul, P, PrimeP;
    if s == {} {
    } else {
      var j :| j in s && Product(s) == Mul(j, Product(s - {j}));
      ProductNonzero(s - {j});
      ModSmall(Product(s - {j}), P);
      if Product(s) == 0 { NoZeroDivisors(j, Product(s - {j})); }
    }
  }

  lemma MulDifference(x: int, a: int, b: int)
    requires Mul(x, a) == Mul(x, b)
    ensures Mul(x, a - b) == 0
  {
    hide P;
    MulSub(x, a, b);
    ModAdd(x * a, x * b, P);
    ModSmall(0, P);
  }

  lemma Cancel(x: int, a: nat, b: nat)
    requires PrimeP() && x % P != 0 && a < P && b < P && Mul(x, a) == Mul(x, b)
    ensures a == b
  {
    hide PrimeP, Mul;
    var d: int := (a as int) - b;
    MulDifference(x, a, b);
    NoZeroDivisors(x, d);
  }

  lemma SubsetOfSameSize(a: set<nat>, b: set<nat>)
    requires a <= b && |a| == |b|
    ensures a == b
  {
    if a != b {
      var i :| i in b && i !in a;
      assert a <= b - {i};
      SizeMonotone(a, b - {i});
    }
  }

  lemma {:induction false} SizeMonotone(a: set<nat>, b: set<nat>)
    requires a <= b
    ensures |a| <= |b|
  {
    if a == {} {
    } else {
      var i :| i in a;
      SizeMonotone(a - {i}, b - {i});
    }
  }

  lemma Fermat(x: int)
    requires PrimeP() && x % P != 0
    ensures Pow(x, P - 1) == 1
  {
    var s := Units(P - 1);
    UnitsSize(P - 1);
    UnitsPermuted(x);
    hide *;
    ProductImage(x, s);
    ProductNonzero(s);
    MulCommutes(Pow(x, P - 1), Product(s));
    MulOne(Product(s));
    ModSmall(Product(s), P);
    Cancel(Product(s), Pow(x, P - 1), 1);
  }

  lemma UnitsPermuted(x: int)
    requires PrimeP() && x % P != 0
    ensures InjectiveOn(x, Units(P - 1))
    ensures forall i :: i in Units(P - 1) ==> i % P != 0
    ensures Image(x, Units(P - 1)) == Units(P - 1)
  {
    var s := Units(P - 1);
    hide PrimeP, Mul, P;
    forall i, j | i in s && j in s && Mul(x, i) == Mul(x, j)
      ensures i == j
    {
      Cancel(x, i, j);
    }
    forall i | i in s
      ensures i % P != 0 && Mul(x, i) in s
    {
      ModSmall(i, P);
      if Mul(x, i) == 0 { NoZeroDivisors(x, i); }
    }
    ProductImage(x, s);
    SubsetOfSameSize(Image(x, s), s);
  }

  function Inv(x: int): (r: nat)
    ensures r < P
  {
    Pow(x, P - 2)
  }

  lemma InvWorks(x: int)
    requires PrimeP() && x % P != 0
    ensures Mul(x, Inv(x)) == 1 && Inv(x) != 0
  {
    Fermat(x);
    assert Pow(x, P - 1) == Mul(x, Pow(x, P - 2));
    if Inv(x) == 0 { MulZero(x); }
  }

  lemma MulZero(y: int)
    ensures Mul(0, y) == 0 == Mul(y, 0)
  {
  }

  // ---- square roots ----

  // A square root of -1.
  const SQRT_M1: nat := 0x2b8324804fc1df0b_2b4d00993dfbd7a7_2f431806ad2fe478_c4ee1b274a0ea0b0

  lemma SqrtM1Squared()
    ensures Mul(SQRT_M1, SQRT_M1) == P - 1
  {
  }

  // The candidate root x^((p + 3) / 8), corrected by a root of -1 if it is a root of -x.
  function SqrtCandidate(x: nat): nat {
    var r := Pow(x, (P + 3) / 8);
    if Mul(r, r) == x then r else Mul(r, SQRT_M1)
  }

  lemma RootDifference(a: int, b: int)
    requires Mul(a, a) == Mul(b, b)
    ensures Mul(a - b, a + b) == 0
  {
    hide P;
    DifferenceOfSquares(a, b);
    ModAdd(a * a, b * b, P);
    ModSmall(0, P);
  }

  // The only square roots of one are one and minus one.
  lemma RootsOfOne(u: nat)
    requires PrimeP() && u < P && Mul(u, u) == 1
    ensures u == 1 || u == P - 1
  {
    hide Mul, PrimeP;
    var d: int := (u as int) - 1;
    MulOne(1);
    RootDifference(u, 1);
    NoZeroDivisors(d, u + 1);
  }

  lemma Exponents()
    ensures 2 * ((P + 3) / 8) == (P - 1) / 4 + 1
    ensures 2 * ((P - 1) / 4) == (P - 1) / 2 && 2 * ((P - 1) / 2) == P - 1
    ensures Mul(P - 1, P - 1) == 1
  {
  }

  // Euler: a nonzero square has (p - 1) / 2-th power one.
  lemma SquarePower(x: nat, y: int)
    requires PrimeP() && 0 < x < P && Mul(y, y) == x
    ensures Pow(x, (P - 1) / 2) == 1
  {
    Exponents();
    hide *;
    var h := (P - 1) / 2;
    if y % P == 0 {
      ReducedEq(y);
      EqRules(y, y);
      SameMul(y % P, y, y, y);
      MulZero(y);
      assert false;
    }
    Fermat(y);
    PowProduct(y, y, h);
    PowAdd(y, h, h);
  }

  // If x has (p - 1) / 2-th power one, the candidate is a root of it.
  lemma SqrtByPower(x: nat)
    requires PrimeP() && 0 < x < P && Pow(x, (P - 1) / 2) == 1
    ensures Mul(SqrtCandidate(x), SqrtCandidate(x)) == x
  {
    var r, u := Pow(x, (P + 3) / 8), Pow(x, (P - 1) / 4);
    Exponents();
    SqrtM1Squared();
    assert Mul(r, r) == Mul(x, u) by { PowAdd(x, (P + 3) / 8, (P + 3) / 8); }
    hide Mul, P, Pow, PrimeP;
    PowAdd(x, (P - 1) / 4, (P - 1) / 4);
    RootsOfOne(u);
    MulOne(x);
    if u == P - 1 {
      Exchange(r, SQRT_M1, r, SQRT_M1);
      MulAssociates(x, P - 1, P - 1);
    }
  }

  // If x is a square, the candidate is a root of it; so the candidate decides squares.
  lemma SqrtComplete(x: nat, y: int)
    requires PrimeP() && x < P && Mul(y, y) == x
    ensures Mul(SqrtCandidate(x), SqrtCandidate(x)) == x
  {
    if x == 0 {
      assert Pow(x, (P + 3) / 8) == 0;
    } else {
      SquarePower(x, y);
      SqrtByPower(x);
    }
  }

  // The power of a number that is not a square is minus one.
  lemma NonSquarePower(x: nat)
    requires PrimeP() && 0 < x < P && forall y :: !IsRoot(y, x)
    ensures Pow(x, (P - 1) / 2) == P - 1
  {
    Exponents();
    ModSmall(x, P);
    hide *;
    var h := (P - 1) / 2;
    Fermat(x);
    PowAdd(x, h, h);
    RootsOfOne(Pow(x, h));
    if Pow(x, h) == 1 {
      SqrtByPower(x);
      RootIs(SqrtCandidate(x), x);
    }
  }

  lemma RootIs(y: int, x: nat)
    ensures IsRoot(y, x) <==> Mul(y, y) == x
  {
    hide Mul;
  }

  // The product of two numbers that are not squares is one.
  lemma ProductOfNonSquares(x: nat, y: nat)
    requires PrimeP() && 0 < x < P && 0 < y < P
    requires (forall r :: !IsRoot(r, x)) && (forall r :: !IsRoot(r, y))
    ensures exists r :: IsRoot(r, Mul(x, y))
  {
    Exponents();
    ModSmall(x, P);
    ModSmall(y, P);
    hide *;
    NonSquarePower(x);
    NonSquarePower(y);
    PowProduct(x, y, (P - 1) / 2);
    if Mul(x, y) == 0 { NoZeroDivisors(x, y); }
    SqrtByPower(Mul(x, y));
    RootIs(SqrtCandidate(Mul(x, y)), Mul(x, y));
  }

  // So the candidate decides whether x is a square at all.
  lemma SqrtDecides(x: nat)
    requires PrimeP() && x < P
    ensures Mul(SqrtCandidate(x), SqrtCandidate(x)) == x <==> exists y :: IsRoot(y, x)
  {
    hide Mul, PrimeP, SqrtCandidate;
    if y :| IsRoot(y, x) { SqrtComplete(x, y); }
    if Mul(SqrtCandidate(x), SqrtCandidate(x)) == x { assert IsRoot(SqrtCandidate(x), x); }
  }

  predicate IsRoot(y: int, x: nat) {
    Mul(y, y) == x
  }

  // A number has at most two square roots, a and -a.
  lemma TwoRoots(a: nat, b: nat)
    requires PrimeP() && a < P && b < P && Mul(a, a) == Mul(b, b)
    ensures a == b || a == Sub(0, b)
  {
    hide Mul, PrimeP;
    var d: int := (a as int) - b;
    RootDifference(a, b);
    NoZeroDivisors(d, a + b);
    OppositeOrEqual(a, b);
  }

  lemma OppositeOrEqual(a: nat, b: nat)
    requires a < P && b < P && (((a as int) - b) % P == 0 || (a + b) % P == 0)
    ensures a == b || a == Sub(0, b)
  {
    hide P;
    var d: int, n: int := (a as int) - b, -(b as int);
    ModShift(d, P, 1);
    ModShift(a + b, P, -1);
    ModShift(n, P, 1);
    if d >= 0 { ModSmall(d, P); } else { ModSmall(d + P, P); }
    if a + b < P { ModSmall(a + b, P); } else { ModSmall(a + b - P, P); }
    if b > 0 { ModSmall(n + P, P); }
  }
}
