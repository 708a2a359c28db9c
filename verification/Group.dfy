/** Multiples of curve points, under the group laws. */
module Group {
  import opened Arith
  import opened Bits
  import opened Field
  import opened Edwards
  import EdwardsLaws

  // What the scalar arithmetic takes for granted: p is prime, d is not a square, and addition on the
  // curve is associative. That sums are defined and stay on the curve follows.
  ghost predicate CurveLaws(d: nat) {
    && PrimeP()
    && EdwardsLaws.NonSquare(d)
    && (forall p, q, r :: OnCurve(d, p) && OnCurve(d, q) && OnCurve(d, r) ==>
          Plus(d, Plus(d, p, q), r) == Plus(d, p, Plus(d, q, r)))
  }

  lemma PlusCommutes(d: nat, p: Point, q: Point)
    ensures Plus(d, p, q) == Plus(d, q, p)
  {
    hide Mul, Inv;
    MulComm(p.x, q.x);
    MulComm(p.y, q.y);
    MulComm(p.x, q.y);
    MulComm(q.x, p.y);
  }

  lemma {:induction false} PowOfOne(n: nat)
    ensures Pow(1, n) == 1
  {
    if n == 0 {
    } else {
      PowOfOne(n - 1);
    }
  }

  lemma IdentityOnCurve(d: nat)
    ensures OnCurve(d, O)
  {
    assert Cross(d, O, O) == 0;
    EqRules(1, 1);
  }

  lemma PlusIdentity(d: nat, p: Point)
    requires p.x < P && p.y < P
    ensures Plus(d, p, O) == p == Plus(d, O, p)
  {
    assert Cross(d, p, O) == 0 by { assert p.x * 0 == 0; assert d * 0 == 0; }
    PowOfOne(P - 2);
    PlusCommutes(d, p, O);
    assert p.x * 1 + 0 * p.y == p.x && p.y * 1 + p.x * 0 == p.y;
    MulOne(p.x);
    MulOne(p.y);
    hide Mul, Inv, Cross;
  }

  function Multiple(d: nat, k: nat, p: Point): Point {
    if k == 0 then O else Plus(d, Multiple(d, k - 1, p), p)
  }

  // The laws, one instance at a time.
  lemma Closed(d: nat, p: Point, q: Point)
    requires CurveLaws(d) && OnCurve(d, p) && OnCurve(d, q)
    ensures Complete(d, p, q) && OnCurve(d, Plus(d, p, q))
  {
    hide OnCurve, Plus, Complete, PrimeP, EdwardsLaws.NonSquare;
    EdwardsLaws.SumIsComplete(d, p, q);
    EdwardsLaws.SumOnCurve(d, p, q);
  }

  lemma Associates(d: nat, p: Point, q: Point, r: Point)
    requires CurveLaws(d) && OnCurve(d, p) && OnCurve(d, q) && OnCurve(d, r)
    ensures Plus(d, Plus(d, p, q), r) == Plus(d, p, Plus(d, q, r))
  {
    hide OnCurve, Plus, Complete, PrimeP, EdwardsLaws.NonSquare;
  }

  lemma IdentityOf(d: nat, p: Point)
    requires OnCurve(d, p)
    ensures Plus(d, p, O) == p == Plus(d, O, p)
  {
    assert p.x < P && p.y < P by { hide Cross, Eq; }
    hide *;
    PlusIdentity(d, p);
  }

  lemma MultipleNext(d: nat, k: nat, p: Point)
    ensures Multiple(d, k + 1, p) == Plus(d, Multiple(d, k, p), p) && Multiple(d, 0, p) == O
  {
    hide Plus;
  }

  lemma {:induction false} MultipleOnCurve(d: nat, k: nat, p: Point)
    requires CurveLaws(d) && OnCurve(d, p)
    ensures OnCurve(d, Multiple(d, k, p))
  {
    hide *;
    MultipleNext(d, if k == 0 then 0 else k - 1, p);
    if k == 0 {
      IdentityOnCurve(d);
    } else {
      MultipleOnCurve(d, k - 1, p);
      Closed(d, Multiple(d, k - 1, p), p);
    }
  }

  lemma {:induction false} MultipleAdd(d: nat, a: nat, b: nat, p: Point)
    requires CurveLaws(d) && OnCurve(d, p)
    ensures Plus(d, Multiple(d, a, p), Multiple(d, b, p)) == Multiple(d, a + b, p)
  {
    hide *;
    MultipleOnCurve(d, a, p);
    if b == 0 {
      MultipleNext(d, a, p);
      IdentityOf(d, Multiple(d, a, p));
    } else {
      MultipleOnCurve(d, b - 1, p);
      MultipleAdd(d, a, b - 1, p);
      MultipleNext(d, b - 1, p);
      MultipleNext(d, a + b - 1, p);
      Associates(d, Multiple(d, a, p), Multiple(d, b - 1, p), p);
    }
  }

  lemma {:induction false} MultipleTimes(d: nat, a: nat, b: nat, p: Point)
    requires CurveLaws(d) && OnCurve(d, p)
    ensures 0 <= a * b && Multiple(d, a, Multiple(d, b, p)) == Multiple(d, a * b, p)
  {
    hide *;
    MultipleNext(d, if a == 0 then 0 else a - 1, Multiple(d, b, p));
    if a == 0 {
      MultipleNext(d, 0, p);
    } else {
      MultipleTimes(d, a - 1, b, p);
      assert (a - 1) * b + b == a * b;
      MultipleAdd(d, (a - 1) * b, b, p);
    }
  }

  lemma {:induction false} MultipleOfIdentity(d: nat, k: nat)
    ensures Multiple(d, k, O) == O
  {
    hide *;
    MultipleNext(d, if k == 0 then 0 else k - 1, O);
    if k == 0 {
    } else {
      MultipleOfIdentity(d, k - 1);
      IdentityOnCurve(d);
      IdentityOf(d, O);
    }
  }

  // Multiples repeat with the order of the point.
  lemma MultipleModOrder(d: nat, k: nat, q: nat, p: Point)
    requires CurveLaws(d) && OnCurve(d, p) && q > 0 && Multiple(d, q, p) == O
    ensures Multiple(d, k, p) == Multiple(d, k % q, p)
  {
    hide *;
    DivMod(k, q);
    MulComm(q, k / q);
    MultipleTimes(d, k / q, q, p);
    MultipleOfIdentity(d, k / q);
    MultipleAdd(d, (k / q) * q, k % q, p);
    MultipleOnCurve(d, k % q, p);
    IdentityOf(d, Multiple(d, k % q, p));
  }

  // The loop of mul: n bits of k from the lowest up.
  function DoubleAndAdd(k: nat, n: nat, acc: Ext, p: Ext): Ext {
    if n == 0 then acc
    else DoubleAndAdd(k / 2, n - 1, if k % 2 == 1 then ExtAdd(acc, p) else acc, ExtAdd(p, p))
  }

  lemma {:induction false} DoubleAndAddRepresents(k: nat, n: nat, acc: Ext, p: Ext, u: Point, v: Point)
    requires CurveLaws(D) && OnCurve(D, u) && OnCurve(D, v) && acc.Represents(u) && p.Represents(v)
    ensures OnCurve(D, Plus(D, u, Multiple(D, k % Pow2(n), v)))
    ensures DoubleAndAdd(k, n, acc, p).Represents(Plus(D, u, Multiple(D, k % Pow2(n), v)))
  {
    DoubleAndAddNext(k, n, acc, p);
    ModPow2(k, n);
    hide *;
    if n == 0 {
      MultipleNext(D, 0, v);
      IdentityOf(D, u);
    } else {
      Closed(D, u, v);
      Closed(D, v, v);
      Prime(D);
      ExtAddRepresents(acc, p, u, v);
      ExtAddRepresents(p, p, v, v);
      var acc' := if k % 2 == 1 then ExtAdd(acc, p) else acc;
      var u' := if k % 2 == 1 then Plus(D, u, v) else u;
      DoubleAndAddRepresents(k / 2, n - 1, acc', ExtAdd(p, p), u', Plus(D, v, v));
      SumOfBits(D, k % 2, (k / 2) % Pow2(n - 1), u, v);
    }
  }

  lemma Prime(d: nat)
    requires CurveLaws(d)
    ensures PrimeP()
  {
    hide OnCurve, Plus, Complete, PrimeP, EdwardsLaws.NonSquare;
  }

  lemma DoubleAndAddNext(k: nat, n: nat, acc: Ext, p: Ext)
    ensures DoubleAndAdd(k, n, acc, p)
         == if n == 0 then acc
            else DoubleAndAdd(k / 2, n - 1, if k % 2 == 1 then ExtAdd(acc, p) else acc, ExtAdd(p, p))
  {
    hide ExtAdd;
  }

  lemma ModPow2(k: nat, n: nat)
    ensures k % Pow2(n) == if n == 0 then 0 else k % 2 + 2 * ((k / 2) % Pow2(n - 1))
  {
    if n == 0 {
      assert k % 1 == 0;
    } else {
      Pow2Next(n);
      DivTwice(k, Pow2(n - 1));
    }
  }

  lemma Pow2Next(n: nat)
    requires n > 0
    ensures Pow2(n) == 2 * Pow2(n - 1)
  {
  }

  lemma SumOfBits(d: nat, b: nat, m: nat, u: Point, v: Point)
    requires CurveLaws(d) && OnCurve(d, u) && OnCurve(d, v) && b <= 1
    ensures Plus(d, if b == 1 then Plus(d, u, v) else u, Multiple(d, m, Plus(d, v, v))) == Plus(d, u, Multiple(d, b + 2 * m, v))
  {
    hide *;
    MultipleNext(d, 0, v);
    MultipleNext(d, 1, v);
    IdentityOf(d, v);
    MulComm(m, 2);
    MultipleTimes(d, m, 2, v);
    MultipleOnCurve(d, 2 * m, v);
    if b == 1 {
      MultipleAdd(d, 1, 2 * m, v);
      Associates(d, u, v, Multiple(d, 2 * m, v));
    }
  }
}
