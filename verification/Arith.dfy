/** Integer facts with products and quotients of unknowns, each proved alone. */
module Arith {
  // A product that the solver may treat as a black box.
  function Times(a: int, b: int): int {
    a * b
  }

  lemma TimesAdd(m: int, a: int, b: int)
    ensures Times(m, a + b) == Times(m, a) + Times(m, b)
  {
  }

  lemma TimesZero(m: int)
    ensures Times(m, 0) == 0
  {
  }

  lemma TimesIs(a: int, b: int)
    ensures Times(a, b) == a * b == b * a
  {
  }

  lemma TimesComm(a: int, b: int)
    ensures Times(a, b) == Times(b, a)
  {
  }

  lemma MulMono(m: int, a: int, b: int)
    requires 0 <= m && a <= b
    ensures m * a <= m * b
  {
  }

  lemma MulSub(m: int, a: int, b: int)
    ensures m * (a - b) == m * a - m * b
  {
  }

  lemma MulAdd(m: int, a: int, b: int)
    ensures m * (a + b) == m * a + m * b
  {
  }

  lemma MulComm(a: int, b: int)
    ensures a * b == b * a
  {
  }

  lemma DifferenceOfSquares(a: int, b: int)
    ensures (a - b) * (a + b) == a * a - b * b
  {
  }

  lemma DivMod(a: int, m: int)
    requires m > 0
    ensures a == m * (a / m) + a % m && 0 <= a % m < m
  {
  }

  lemma Remainder(n: int, m: int, b: int)
    requires m > 0
    ensures n * b == (n / m) * (m * b) + (n % m) * b
  {
    var q, r := n / m, n % m;
    DivMod(n, m);
    assert (m * q + r) * b == (m * q) * b + r * b;
    assert (m * q) * b == q * (m * b);
  }

  lemma ModUnique(a: int, m: int, q: int, r: int)
    requires a == m * q + r && 0 <= r < m
    ensures a / m == q && a % m == r
  {
    var q', r' := a / m, a % m;
    DivMod(a, m);
    MulSub(m, q, q');
    if q > q' { MulMono(m, 1, q - q'); } else if q < q' { MulMono(m, q - q', -1); }
  }

  lemma DivTwice(a: nat, m: nat)
    requires m > 0
    ensures a / (2 * m) == (a / 2) / m
    ensures a % (2 * m) == a % 2 + 2 * ((a / 2) % m)
  {
    var q, r := (a / 2) / m, (a / 2) % m;
    DivMod(a / 2, m);
    calc {
      a;
      2 * (m * q + r) + a % 2;
      2 * (m * q) + (a % 2 + 2 * r);
      (2 * m) * q + (a % 2 + 2 * r);
    }
    ModUnique(a, 2 * m, q, a % 2 + 2 * r);
  }

  lemma ModShift(a: int, m: int, k: int)
    requires m > 0
    ensures (a + m * k) % m == a % m
  {
    DivMod(a, m);
    MulAdd(m, a / m, k);
    ModUnique(a + m * k, m, a / m + k, a % m);
  }

  lemma ModEqual(a: int, b: int, m: int, k: int)
    requires m > 0 && a - b == m * k
    ensures a % m == b % m
  {
    ModShift(b, m, k);
  }

  lemma ModSmall(a: int, m: int)
    requires 0 <= a < m
    ensures a % m == a
  {
  }

  lemma ModAdd(a: int, b: int, m: int)
    requires m > 0
    ensures (a % m + b % m) % m == (a + b) % m
    ensures (a % m - b % m) % m == (a - b) % m
  {
    DivMod(a, m);
    DivMod(b, m);
    MulAdd(m, a / m, b / m);
    MulSub(m, a / m, b / m);
    ModEqual(a + b, a % m + b % m, m, a / m + b / m);
    ModEqual(a - b, a % m - b % m, m, a / m - b / m);
  }

  lemma ModMul(a: int, b: int, m: int)
    requires m > 0
    ensures ((a % m) * b) % m == (a * b) % m
    ensures (a * (b % m)) % m == (a * b) % m
    ensures ((a % m) * (b % m)) % m == (a * b) % m
  {
    ModMulLeft(a, b, m);
    ModMulLeft(b, a, m);
    ModMulLeft(b, a % m, m);
    MulComm(a, b);
    MulComm(a, b % m);
    MulComm(a % m, b);
    MulComm(a % m, b % m);
  }

  lemma ModMulLeft(a: int, b: int, m: int)
    requires m > 0
    ensures ((a % m) * b) % m == (a * b) % m
  {
    var q, r := a / m, a % m;
    DivMod(a, m);
    calc {
      a * b;
      (m * q + r) * b;
      (m * q) * b + r * b;
      { MulAssoc(m, q, b); }
      m * (q * b) + r * b;
    }
    ModShift(r * b, m, q * b);
  }

  lemma MulAssoc(a: int, b: int, c: int)
    ensures a * (b * c) == (a * b) * c
  {
  }

  lemma HalfOfQuotient(a: nat, m: nat)
    requires m > 0
    ensures a / (2 * m) == (a / m) / 2
  {
    var q, r := (a / m) / 2, (a / m) % 2;
    DivMod(a, m);
    DivMod(a / m, 2);
    assert a == (2 * m) * q + (m * r + a % m) by {
      assert m * (2 * q + r) == 2 * (m * q) + m * r by { MulAdd(m, 2 * q, r); }
      assert (2 * m) * q == 2 * (m * q);
      assert m * (a / m) == m * (2 * q + r);
    }
    MulMono(m, r, 1);
    if r == 0 { assert m * r == 0; }
    MulMono(m, 0, r);
    ModUnique(a, 2 * m, q, m * r + a % m);
  }
}
