/**
 * The constants of SHA-512: the first 64 bits of the fractional parts of the square roots of the first eight
 * primes, and of the cube roots of the first eighty.
 */
module SHA2Constants {
  import opened Arith
  import opened SHA2

  ghost predicate IsPrime(p: nat) {
    p > 1 && forall d :: 1 < d < p ==> p % d != 0
  }

  // The primes in order.
  function Prime(t: nat): nat {
    match t
    case 0 => 2 case 1 => 3 case 2 => 5 case 3 => 7 case 4 => 11 case 5 => 13 case 6 => 17 case 7 => 19 case 8 => 23 case 9 => 29
    case 10 => 31 case 11 => 37 case 12 => 41 case 13 => 43 case 14 => 47 case 15 => 53 case 16 => 59 case 17 => 61 case 18 => 67 case 19 => 71
    case 20 => 73 case 21 => 79 case 22 => 83 case 23 => 89 case 24 => 97 case 25 => 101 case 26 => 103 case 27 => 107 case 28 => 109 case 29 => 113
    case 30 => 127 case 31 => 131 case 32 => 137 case 33 => 139 case 34 => 149 case 35 => 151 case 36 => 157 case 37 => 163 case 38 => 167 case 39 => 173
    case 40 => 179 case 41 => 181 case 42 => 191 case 43 => 193 case 44 => 197 case 45 => 199 case 46 => 211 case 47 => 223 case 48 => 227 case 49 => 229
    case 50 => 233 case 51 => 239 case 52 => 241 case 53 => 251 case 54 => 257 case 55 => 263 case 56 => 269 case 57 => 271 case 58 => 277 case 59 => 281
    case 60 => 283 case 61 => 293 case 62 => 307 case 63 => 311 case 64 => 313 case 65 => 317 case 66 => 331 case 67 => 337 case 68 => 347 case 69 => 349
    case 70 => 353 case 71 => 359 case 72 => 367 case 73 => 373 case 74 => 379 case 75 => 383 case 76 => 389 case 77 => 397 case 78 => 401 case _ => 409
  }

  // Below 441, trial division by the primes up to 19 decides.
  predicate NoSmallFactor(p: nat) {
    && (p % 2 != 0 || p == 2) && (p % 3 != 0 || p == 3) && (p % 5 != 0 || p == 5) && (p % 7 != 0 || p == 7)
    && (p % 11 != 0 || p == 11) && (p % 13 != 0 || p == 13) && (p % 17 != 0 || p == 17) && (p % 19 != 0 || p == 19)
  }

  lemma TrialDivision(p: nat)
    requires 1 < p < 441
    ensures IsPrime(p) <==> NoSmallFactor(p)
  {
    if NoSmallFactor(p) {
      forall d | 1 < d < p
        ensures p % d != 0
      {
        if p % d == 0 { SmallFactor(p, d, p / d); }
      }
    }
    if !NoSmallFactor(p) {
      assert p % 2 == 0 || p % 3 == 0 || p % 5 == 0 || p % 7 == 0 || p % 11 == 0 || p % 13 == 0 || p % 17 == 0 || p % 19 == 0;
    }
  }

  // One of two factors is below 21, and has a prime factor up to 19 itself.
  lemma SmallFactor(p: nat, d: nat, q: nat)
    requires 1 < d < p < 441 && p % d == 0 && q == p / d
    ensures !NoSmallFactor(p)
  {
    DivMod(p, d);
    hide NoSmallFactor;
    assert p == d * q;
    BothFactors(p, d, q);
    if d < 21 { FactorBelow21(p, d, q); } else { FactorBelow21(p, q, d); }
  }

  lemma BothFactors(p: nat, d: nat, q: nat)
    requires p == d * q && 1 < d < p < 441
    ensures 1 < q && (d < 21 || q < 21)
  {
    if d >= 21 && q >= 21 { MulMono(q, 21, d); }
  }

  lemma FactorBelow21(p: nat, a: nat, b: nat)
    requires p == a * b && 1 < a < 21 && 1 < b
    ensures !NoSmallFactor(p)
  {
    hide NoSmallFactor;
    var f := LeastFactor(a);
    DivMod(a, f);
    MulAssoc(f, a / f, b);
    MulMono(a, 2, b);
    MultipleOf(p, f, (a / f) * b);
  }

  lemma LeastFactor(a: nat) returns (f: nat)
    requires 1 < a < 21
    ensures f in {2, 3, 5, 7, 11, 13, 17, 19} && f <= a && a % f == 0
  {
    f := if a % 2 == 0 then 2 else if a % 3 == 0 then 3 else if a % 5 == 0 then 5 else a;
  }

  lemma MultipleOf(p: nat, f: nat, c: nat)
    requires p == f * c && f in {2, 3, 5, 7, 11, 13, 17, 19} && p > f
    ensures !NoSmallFactor(p)
  {
    hide NoSmallFactor;
    ModUnique(p, f, c, 0);
    FactorIs(p, f);
  }

  lemma FactorIs(p: nat, f: nat)
    requires f in {2, 3, 5, 7, 11, 13, 17, 19} && p % f == 0 && p != f
    ensures !NoSmallFactor(p)
  {
  }

  // No odd number between two that are at most 14 apart is prime.
  predicate NoneBetween(p: nat, q: nat) {
    && q <= p + 14
    && (p + 2 < q ==> !NoSmallFactor(p + 2)) && (p + 4 < q ==> !NoSmallFactor(p + 4)) && (p + 6 < q ==> !NoSmallFactor(p + 6))
    && (p + 8 < q ==> !NoSmallFactor(p + 8)) && (p + 10 < q ==> !NoSmallFactor(p + 10)) && (p + 12 < q ==> !NoSmallFactor(p + 12))
  }

  lemma NoneAt(p: nat, q: nat, x: nat)
    requires NoneBetween(p, q) && 1 < p < x < q && p % 2 == 1
    ensures !NoSmallFactor(x)
  {
    hide NoSmallFactor;
    if x % 2 == 0 { FactorIs(x, 2); }
  }

  // The next entry of the table is the next prime.
  predicate Follows(t: nat) {
    Prime(t) < Prime(t + 1) < 441 && NoSmallFactor(Prime(t + 1)) && NoneBetween(Prime(t), Prime(t + 1))
  }

  lemma Follows0(t: nat)
    requires 0 <= t < 10
    ensures Follows(t)
  {
  }

  lemma Follows1(t: nat)
    requires 10 <= t < 20
    ensures Follows(t)
  {
  }

  lemma Follows2(t: nat)
    requires 20 <= t < 30
    ensures Follows(t)
  {
  }

  lemma Follows3(t: nat)
    requires 30 <= t < 40
    ensures Follows(t)
  {
  }

  lemma Follows4(t: nat)
    requires 40 <= t < 50
    ensures Follows(t)
  {
  }

  lemma Follows5(t: nat)
    requires 50 <= t < 60
    ensures Follows(t)
  {
  }

  lemma Follows6(t: nat)
    requires 60 <= t < 70
    ensures Follows(t)
  {
  }

  lemma Follows7(t: nat)
    requires 70 <= t < 79
    ensures Follows(t)
  {
  }

  lemma Following(t: nat)
    requires t < 79
    ensures Follows(t)
  {
    hide Follows;
    match t / 10 {
      case 0 => Follows0(t);
      case 1 => Follows1(t);
      case 2 => Follows2(t);
      case 3 => Follows3(t);
      case 4 => Follows4(t);
      case 5 => Follows5(t);
      case 6 => Follows6(t);
      case _ => Follows7(t);
    }
  }

  lemma PrimeIsPrime(t: nat)
    requires t < 80
    ensures 1 < Prime(t) < 441 && (t == 0 || Prime(t) % 2 == 1) && IsPrime(Prime(t))
  {
    if t == 0 {
      TrialDivision(2);
    } else {
      Following(t - 1);
      hide Prime, NoneBetween, IsPrime;
      TrialDivision(Prime(t));
      Ascending(t);
    }
  }

  lemma {:induction false} Ascending(t: nat)
    requires 0 < t < 80
    ensures 2 < Prime(t)
  {
    Following(t - 1);
    if t == 1 {
      assert Prime(0) == 2;
      hide Prime;
    } else {
      hide Prime;
      Ascending(t - 1);
    }
  }

  // They are the primes: two is the first, and each is the next prime after the one before.
  lemma PrimesInOrder(t: nat)
    requires t < 79
    ensures Prime(0) == 2 && IsPrime(Prime(t)) && IsPrime(Prime(t + 1)) && Prime(t) < Prime(t + 1)
    ensures forall p :: Prime(t) < p < Prime(t + 1) ==> !IsPrime(p)
  {
    assert Prime(0) == 2 && Prime(1) == 3;
    Following(t);
    hide IsPrime, NoSmallFactor, NoneBetween, Prime;
    PrimeIsPrime(t);
    PrimeIsPrime(t + 1);
    forall p | Prime(t) < p < Prime(t + 1)
      ensures !IsPrime(p)
    {
      NoneAt(Prime(t), Prime(t + 1), p);
      TrialDivision(p);
    }
  }

  // k is the first 64 bits of the fractional part of the cube root of p, and n its whole part.
  predicate CubeRootBits(p: nat, n: nat, k: nat) {
    var (low, high) := (0x1_0000_0000_0000_0000 * n + k, 0x1_0000_0000_0000_0000 * n + k + 1);
    k < 0x1_0000_0000_0000_0000
    && low * low * low <= p * 0x1_0000_0000_0000_0000_0000_0000_0000_0000_0000_0000_0000_0000 < high * high * high
  }

  predicate SquareRootBits(p: nat, n: nat, k: nat) {
    var (low, high) := (0x1_0000_0000_0000_0000 * n + k, 0x1_0000_0000_0000_0000 * n + k + 1);
    k < 0x1_0000_0000_0000_0000
    && low * low <= p * 0x1_0000_0000_0000_0000_0000_0000_0000_0000 < high * high
  }

  function WholeRoot(p: nat): nat {
    if p < 8 then 1 else if p < 27 then 2 else if p < 64 then 3 else if p < 125 then 4
    else if p < 216 then 5 else if p < 343 then 6 else 7
  }

  // The constant of round t comes from the cube root of prime t.
  lemma Roots0(t: nat)
    requires 0 <= t < 20
    ensures CubeRootBits(Prime(t), WholeRoot(Prime(t)), RoundConstant(t))
  {
  }

  lemma Roots1(t: nat)
    requires 20 <= t < 40
    ensures CubeRootBits(Prime(t), WholeRoot(Prime(t)), RoundConstant(t))
  {
  }

  lemma Roots2(t: nat)
    requires 40 <= t < 60
    ensures CubeRootBits(Prime(t), WholeRoot(Prime(t)), RoundConstant(t))
  {
  }

  lemma Roots3(t: nat)
    requires 60 <= t < 80
    ensures CubeRootBits(Prime(t), WholeRoot(Prime(t)), RoundConstant(t))
  {
  }

  lemma RoundConstantIs(t: nat)
    requires t < 80
    ensures CubeRootBits(Prime(t), WholeRoot(Prime(t)), RoundConstant(t))
  {
    hide CubeRootBits, Prime, WholeRoot, RoundConstant;
    match t / 20 {
      case 0 => Roots0(t);
      case 1 => Roots1(t);
      case 2 => Roots2(t);
      case _ => Roots3(t);
    }
  }

  lemma InitialHashIs(i: nat)
    requires i < 8
    ensures exists n :: SquareRootBits(Prime(i), n, InitialHash()[i])
  {
    var n := if i < 2 then 1 else if i < 4 then 2 else if i < 6 then 3 else 4;
    assert SquareRootBits(Prime(i), n, InitialHash()[i]);
  }
}
