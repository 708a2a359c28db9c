/** Little-endian limb sequences and the numbers they stand for (LIMB_BITS is 32). */
module Limbs {
  import opened Arith

  type Limb = x: nat | x < 0x1_0000_0000
  type DLimb = x: nat | x < 0x1_0000_0000_0000_0000

  // The low limb of a number, and what a shift right by LIMB_BITS leaves of it.
  function Low(d: nat): Limb {
    d % 0x1_0000_0000
  }

  function High(d: nat): (h: nat)
    ensures d == Low(d) + 0x1_0000_0000 * h
  {
    d / 0x1_0000_0000
  }

  // v times the n-th power of the base.
  function Shift(n: nat, v: int): int {
    if n == 0 then v else 0x1_0000_0000 * Shift(n - 1, v)
  }

  function Val(s: seq<Limb>): nat {
    if s == [] then 0 else s[0] + 0x1_0000_0000 * Val(s[1..])
  }

  lemma {:induction false} ShiftAdd(n: nat, a: int, b: int)
    ensures Shift(n, a + b) == Shift(n, a) + Shift(n, b)
  {
    if n == 0 {
    } else {
      ShiftAdd(n - 1, a, b);
    }
  }

  lemma {:induction false} ShiftZero(n: nat)
    ensures Shift(n, 0) == 0
  {
    if n == 0 {
    } else {
      ShiftZero(n - 1);
    }
  }

  lemma ShiftBit(n: nat, b: nat)
    requires b <= 1
    ensures Shift(n, b) == if b == 1 then Shift(n, 1) else 0
  {
    ShiftZero(n);
  }

  function Zeros(n: nat): (z: seq<Limb>)
    ensures |z| == n
    ensures forall k :: 0 <= k < n ==> z[k] == 0
  {
    seq(n, _ => 0)
  }

  lemma {:induction false} ValZeros(n: nat)
    ensures Val(Zeros(n)) == 0
  {
    if n == 0 {
    } else {
      assert Zeros(n)[1..] == Zeros(n - 1);
      ValZeros(n - 1);
    }
  }

  lemma {:induction false} ShiftIn(n: nat, v: int)
    ensures Shift(n + 1, v) == Shift(n, 0x1_0000_0000 * v)
  {
    if n == 0 {
    } else {
      ShiftIn(n - 1, v);
    }
  }

  lemma {:induction false} ShiftShift(m: nat, n: nat, v: int)
    ensures Shift(m, Shift(n, v)) == Shift(m + n, v)
  {
    if m == 0 {
    } else {
      ShiftShift(m - 1, n, v);
    }
  }

  lemma {:induction false} ShiftNonneg(n: nat, v: int)
    requires v >= 0
    ensures Shift(n, v) >= 0
  {
    if n == 0 {
    } else {
      ShiftNonneg(n - 1, v);
    }
  }

  lemma {:induction false} ValConcat(a: seq<Limb>, b: seq<Limb>)
    ensures Val(a + b) == Val(a) + Shift(|a|, Val(b))
  {
    if a == [] {
      assert a + b == b;
    } else {
      assert (a + b)[1..] == a[1..] + b;
      ValConcat(a[1..], b);
    }
  }

  lemma {:induction false} ValBound(s: seq<Limb>)
    ensures Val(s) < Shift(|s|, 1)
  {
    if s == [] {
    } else {
      ValBound(s[1..]);
    }
  }

  lemma {:induction false} ValInjective(a: seq<Limb>, b: seq<Limb>)
    requires |a| == |b| && Val(a) == Val(b)
    ensures a == b
  {
    if a == [] {
    } else {
      ValInjective(a[1..], b[1..]);
      assert a == [a[0]] + a[1..] && b == [b[0]] + b[1..];
    }
  }

  lemma ValSnoc(s: seq<Limb>, d: Limb)
    ensures Val(s + [d]) == Val(s) + Shift(|s|, d)
  {
    ValConcat(s, [d]);
    assert Val([d]) == d;
  }

  lemma {:induction false} ShiftMul(n: nat, w: int, v: int)
    ensures Times(w, Shift(n, v)) == Shift(n, Times(w, v))
  {
    if n == 0 {
    } else {
      ShiftMul(n - 1, w, v);
      var t := Shift(n - 1, v);
      assert w * (0x1_0000_0000 * t) == 0x1_0000_0000 * (w * t);
    }
  }

  lemma ValSplit(s: seq<Limb>, i: nat)
    requires i <= |s|
    ensures Val(s) == Val(s[..i]) + Shift(i, Val(s[i..]))
  {
    assert s == s[..i] + s[i..];
    ValConcat(s[..i], s[i..]);
  }

  lemma Empty()
    ensures Val([]) == 0 == Shift(0, 0)
  {
  }

  lemma ValPrefix(s: seq<Limb>, i: nat)
    requires i < |s|
    ensures Val(s[..i + 1]) == Val(s[..i]) + Shift(i, s[i])
  {
    assert s[..i + 1] == s[..i] + [s[i]];
    ValSnoc(s[..i], s[i]);
  }

  // One step of a carry chain: limb d follows the limbs r already written, and the carry moves on.
  lemma CarryStep(r: seq<Limb>, d: Limb, total: int, carry: int, carry': int, word: int)
    requires Val(r) + Shift(|r|, carry) == total
    requires carry + word == d + 0x1_0000_0000 * carry'
    ensures Val(r + [d]) + Shift(|r| + 1, carry') == total + Shift(|r|, word)
  {
    hide *;
    ValSnoc(r, d);
    ShiftAdd(|r|, carry, word);
    ShiftAdd(|r|, d, 0x1_0000_0000 * carry');
    ShiftIn(|r|, carry');
  }

  lemma AddStep(r: seq<Limb>, d: Limb, xs: seq<Limb>, ys: seq<Limb>, carry: int, carry': int)
    requires |r| < |xs| && |r| < |ys|
    requires Val(r) + Shift(|r|, carry) == Val(xs[..|r|]) + Val(ys[..|r|])
    requires carry + xs[|r|] + ys[|r|] == d + 0x1_0000_0000 * carry'
    ensures Val(r + [d]) + Shift(|r| + 1, carry') == Val(xs[..|r| + 1]) + Val(ys[..|r| + 1])
  {
    hide *;
    var i := |r|;
    CarryStep(r, d, Val(xs[..i]) + Val(ys[..i]), carry, carry', (xs[i] as int) + ys[i]);
    ShiftAdd(i, xs[i], ys[i]);
    ValPrefix(xs, i);
    ValPrefix(ys, i);
  }

  // AddStep read backwards: x is the sum of the difference r and y, less the borrow.
  lemma SubStep(r: seq<Limb>, d: Limb, xs: seq<Limb>, ys: seq<Limb>, borrow: int, borrow': int)
    requires |r| < |xs| && |r| < |ys|
    requires Val(xs[..|r|]) + Shift(|r|, borrow) == Val(r) + Val(ys[..|r|])
    requires d + ys[|r|] + borrow == xs[|r|] + 0x1_0000_0000 * borrow'
    ensures Val(xs[..|r| + 1]) + Shift(|r| + 1, borrow') == Val(r + [d]) + Val(ys[..|r| + 1])
  {
    hide *;
    var i := |r|;
    CarryStep(xs[..i], xs[i], Val(r) + Val(ys[..i]), borrow, borrow', (d as int) + ys[i]);
    assert xs[..i] + [xs[i]] == xs[..i + 1];
    ShiftAdd(i, d, ys[i]);
    ValSnoc(r, d);
    ValPrefix(ys, i);
  }

  // Eight limbs, written out.
  lemma Val8(s: seq<Limb>)
    requires |s| == 8
    ensures Val(s) == (s[0] as int) + 0x1_0000_0000 * ((s[1] as int) + 0x1_0000_0000 * ((s[2] as int) + 0x1_0000_0000 * (s[3]
      + 0x1_0000_0000 * ((s[4] as int) + 0x1_0000_0000 * ((s[5] as int) + 0x1_0000_0000 * ((s[6] as int) + 0x1_0000_0000 * (s[7] as int)))))))
  {
    Val4(s);
    Val4(s[4..]);
    assert s[4..][4..] == [];
  }

  lemma Val4(s: seq<Limb>)
    requires |s| >= 4
    ensures Val(s) == (s[0] as int) + 0x1_0000_0000 * ((s[1] as int) + 0x1_0000_0000 * ((s[2] as int) + 0x1_0000_0000 * (s[3]
      + 0x1_0000_0000 * Val(s[4..]))))
  {
    assert s[1..][1..] == s[2..] && s[2..][1..] == s[3..] && s[3..][1..] == s[4..];
    assert Val(s[1..]) == (s[1] as int) + 0x1_0000_0000 * Val(s[2..]);
    assert Val(s[2..]) == (s[2] as int) + 0x1_0000_0000 * Val(s[3..]);
    assert Val(s[3..]) == (s[3] as int) + 0x1_0000_0000 * Val(s[4..]);
  }
}
