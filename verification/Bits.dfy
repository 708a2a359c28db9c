/** Bitwise operations on unsigned words, defined on the binary digits of natural numbers. */
module Bits {
  import Arith

  function And(a: nat, b: nat): nat {
    if a == 0 || b == 0 then 0 else (if a % 2 == 1 && b % 2 == 1 then 1 else 0) + 2 * And(a / 2, b / 2)
  }

  function Or(a: nat, b: nat): nat
    decreases a + b
  {
    if a == 0 && b == 0 then 0 else (if a % 2 == 1 || b % 2 == 1 then 1 else 0) + 2 * Or(a / 2, b / 2)
  }

  function Xor(a: nat, b: nat): nat
    decreases a + b
  {
    if a == 0 && b == 0 then 0 else (if a % 2 != b % 2 then 1 else 0) + 2 * Xor(a / 2, b / 2)
  }

  function Pow2(n: nat): (p: nat)
    ensures p > 0
  {
    if n == 0 then 1 else 2 * Pow2(n - 1)
  }

  lemma Pow2Of32()
    ensures Pow2(31) == 0x8000_0000 && Pow2(32) == 0x1_0000_0000
  {
    assert Pow2(8) == 0x100;
    assert Pow2(16) == 0x1_0000;
    assert Pow2(24) == 0x100_0000;
  }

  lemma {:induction false} XorZero(a: nat)
    ensures Xor(a, 0) == a
  {
    if a == 0 {
    } else {
      XorZero(a / 2);
    }
  }

  lemma {:induction false} XorCancels(a: nat, b: nat)
    ensures Xor(a, Xor(a, b)) == b
    ensures Xor(b, Xor(a, b)) == a
    decreases a + b
  {
    if a == 0 && b == 0 {
    } else {
      XorCancels(a / 2, b / 2);
    }
  }

  lemma {:induction false} XorBound(a: nat, b: nat, n: nat)
    requires a < Pow2(n) && b < Pow2(n)
    ensures Xor(a, b) < Pow2(n)
  {
    if n == 0 {
    } else {
      XorBound(a / 2, b / 2, n - 1);
    }
  }

  lemma {:induction false} XorEqual(a: nat, b: nat)
    ensures Xor(a, b) == 0 <==> a == b
    decreases a + b
  {
    if a == 0 && b == 0 {
    } else {
      XorEqual(a / 2, b / 2);
    }
  }

  lemma {:induction false} AndBound(a: nat, b: nat)
    ensures And(a, b) <= a && And(a, b) <= b
  {
    if a == 0 || b == 0 {
    } else {
      AndBound(a / 2, b / 2);
    }
  }

  lemma {:induction false} AndComm(a: nat, b: nat)
    ensures And(a, b) == And(b, a)
  {
    if a == 0 || b == 0 {
    } else {
      AndComm(a / 2, b / 2);
    }
  }

  lemma {:induction false} OrZero(a: nat)
    ensures Or(a, 0) == a == Or(0, a)
  {
    if a == 0 {
    } else {
      OrZero(a / 2);
    }
  }

  lemma {:induction false} OrBound(a: nat, b: nat, n: nat)
    requires a < Pow2(n) && b < Pow2(n)
    ensures Or(a, b) < Pow2(n)
  {
    if n == 0 {
    } else {
      OrBound(a / 2, b / 2, n - 1);
    }
  }

  lemma {:induction false} OrIsZero(a: nat, b: nat)
    ensures Or(a, b) == 0 <==> a == 0 && b == 0
    decreases a + b
  {
    if a == 0 && b == 0 {
    } else {
      OrIsZero(a / 2, b / 2);
    }
  }

  // A mask of n one bits drops bit n of a number below 2^(n + 1).
  lemma {:induction false} AndLowMask(a: nat, n: nat)
    requires a < 2 * Pow2(n)
    ensures And(a, Pow2(n) - 1) == if a < Pow2(n) then a else a - Pow2(n)
  {
    if n == 0 || a == 0 {
    } else {
      AndLowMask(a / 2, n - 1);
    }
  }

  // A mask with the single bit n selects bit n in its place.
  lemma {:induction false} AndSingleBit(a: nat, n: nat)
    ensures And(a, Pow2(n)) == if (a / Pow2(n)) % 2 == 1 then Pow2(n) else 0
  {
    if a == 0 {
      Arith.ModUnique(0, Pow2(n), 0, 0);
    } else if n == 0 {
      assert And(a, 1) == (if a % 2 == 1 then 1 else 0) + 2 * And(a / 2, 0);
    } else {
      AndSingleBit(a / 2, n - 1);
      Arith.DivTwice(a, Pow2(n - 1));
    }
  }

  // Setting the top bit of a number of n + 1 bits.
  lemma {:induction false} OrSingleBit(a: nat, n: nat)
    requires a < 2 * Pow2(n)
    ensures Or(a, Pow2(n)) == if a < Pow2(n) then a + Pow2(n) else a
  {
    if n == 0 {
      assert Or(0, 1) == 1 && Or(1, 1) == 1;
    } else {
      OrSingleBit(a / 2, n - 1);
    }
  }

  // The low n bits of an exclusive or vanish if the low n bits agree.
  lemma {:induction false} XorLow(a: nat, b: nat, n: nat)
    ensures Xor(a, b) % Pow2(n) == 0 <==> a % Pow2(n) == b % Pow2(n)
  {
    if n == 0 {
    } else {
      XorLow(a / 2, b / 2, n - 1);
      XorNext(a, b);
      hide Xor;
      Arith.DivTwice(a, Pow2(n - 1));
      Arith.DivTwice(b, Pow2(n - 1));
      Arith.DivTwice(Xor(a, b), Pow2(n - 1));
    }
  }

  lemma XorNext(a: nat, b: nat)
    ensures Xor(a, b) / 2 == Xor(a / 2, b / 2) && Xor(a, b) % 2 == if a % 2 != b % 2 then 1 else 0
  {
  }
}
