/** Curve25519.cpp: arithmetic modulo 2^255 - 19 on eight 32-bit limbs, in place. */
module Curve25519 {
  import opened Limbs
  import opened Bits
  import opened Arith
  import opened Field
  import opened Bytes
  import BigNumberUtil

  const TOP: nat := 0x8000_0000_0000_0000_0000_0000_0000_0000_0000_0000_0000_0000_0000_0000_0000_0000
  const FULL: nat := 0x1_0000_0000_0000_0000_0000_0000_0000_0000_0000_0000_0000_0000_0000_0000_0000_0000

  lemma FullIsPow2()
    ensures Pow2(256) == FULL
  {
    assert Pow2(64) == 0x1_0000_0000_0000_0000 by { Pow2Of32(); Pow2Byte(32); Pow2Byte(40); Pow2Byte(48); Pow2Byte(56); }
    hide Pow2;
    Pow2Add64(64);
    Pow2Add64(128);
    Pow2Add64(192);
  }

  lemma TopIsPow2()
    ensures Pow2(255) == TOP
  {
    FullIsPow2();
    assert Pow2(256) == 2 * Pow2(255);
    hide Pow2;
  }

  lemma Pow2Add64(n: nat)
    ensures Pow2(n + 64) == 0x1_0000_0000_0000_0000 * Pow2(n)
  {
    Pow2Byte(n);
    Pow2Byte(n + 8);
    Pow2Byte(n + 16);
    Pow2Byte(n + 24);
    Pow2Byte(n + 32);
    Pow2Byte(n + 40);
    Pow2Byte(n + 48);
    Pow2Byte(n + 56);
  }

  lemma Shift8(v: int)
    ensures Shift(7, v) == 0x1_0000_0000_0000_0000_0000_0000_0000_0000_0000_0000_0000_0000_0000_0000 * v
    ensures Shift(8, v) == FULL * v
  {
    assert Shift(0, v) == v;
    assert Shift(1, v) == 0x1_0000_0000 * v;
    assert Shift(2, v) == 0x1_0000_0000_0000_0000 * v;
    assert Shift(3, v) == 0x1_0000_0000_0000_0000_0000_0000 * v;
    assert Shift(4, v) == 0x1_0000_0000_0000_0000_0000_0000_0000_0000 * v;
    assert Shift(5, v) == 0x1_0000_0000_0000_0000_0000_0000_0000_0000_0000_0000 * v;
    assert Shift(6, v) == 0x1_0000_0000_0000_0000_0000_0000_0000_0000_0000_0000_0000_0000 * v;
  }

  lemma Val8Bound(s: seq<Limb>)
    requires |s| == 8
    ensures Val(s) < FULL
  {
    ValBound(s);
    Shift8(1);
  }

  // The high bit of a 256-bit value, and the value with that bit masked off.
  lemma TopBit(s: seq<Limb>)
    requires |s| == 8
    ensures s[7] / 0x8000_0000 <= 1 && And(s[7], 0x7FFF_FFFF) < 0x8000_0000
    ensures Val(s[7 := And(s[7], 0x7FFF_FFFF)]) == Val(s) - TOP * (s[7] / 0x8000_0000) < TOP
  {
    AndBound(s[7], 0x7FFF_FFFF);
    var t: Limb := And(s[7], 0x7FFF_FFFF);
    assert t == s[7] % 0x8000_0000 by {
      Pow2Of32();
      AndLowMask(s[7], 31);
    }
    hide *;
    var s' := s[7 := t];
    assert s'[..7] == s[..7] && s[..7] + [s[7]] == s && s'[..7] + [t] == s';
    ValSnoc(s[..7], s[7]);
    ValSnoc(s[..7], t);
    ValBound(s[..7]);
    Shift8(s[7]);
    Shift8(t);
    Shift8(1);
    TopSplit(Val(s[..7]), s[7], t);
  }

  lemma TopSplit(low: nat, h: Limb, t: Limb)
    requires t == h % 0x8000_0000
    requires low < 0x1_0000_0000_0000_0000_0000_0000_0000_0000_0000_0000_0000_0000_0000_0000
    ensures h / 0x8000_0000 <= 1
    ensures low + 0x1_0000_0000_0000_0000_0000_0000_0000_0000_0000_0000_0000_0000_0000_0000 * t
         == low + 0x1_0000_0000_0000_0000_0000_0000_0000_0000_0000_0000_0000_0000_0000_0000 * h
            - TOP * (h / 0x8000_0000)
         < TOP
  {
  }

  // Copy n limbs from src to dst, adding a small number on the way.
  method AddSmall(dst: array<Limb>, to: nat, src: array<Limb>, from: nat, n: nat, c: DLimb)
    returns (carry: DLimb)
    requires to + n <= dst.Length && from + n <= src.Length
    requires dst != src || to == from || from + n <= to
    requires c < 0x1000_0000_0000_0000
    modifies dst
    ensures Val(dst[to..to + n]) + Shift(n, carry) == c + old(Val(src[from..from + n]))
    ensures forall k :: 0 <= k < dst.Length && !(to <= k < to + n) ==> dst[k] == old(dst[k])
  {
    ghost var xs, done: seq<Limb> := src[from..from + n], [];
    carry := c;
    var posn := 0;
    Empty();
    hide *;
    while posn < n
      invariant posn <= n && carry < 0x1000_0000_0000_0000 && |done| == posn
      invariant forall k :: posn <= k < n ==> src[from + k] == xs[k]
      invariant forall k :: 0 <= k < posn ==> dst[to + k] == done[k]
      invariant forall k :: 0 <= k < dst.Length && !(to <= k < to + posn) ==> dst[k] == old(dst[k])
      invariant Val(done) + Shift(posn, carry) == c + Val(xs[..posn])
    {
      ghost var c0 := carry;
      carry := carry + src[from + posn];
      dst[to + posn] := Low(carry);
      SmallStep(done, Low(carry), xs, c, c0, High(carry));
      done := done + [Low(carry)];
      carry := High(carry);
      posn := posn + 1;
    }
    assert xs[..n] == xs && dst[to..to + n] == done;
  }

  lemma SmallStep(r: seq<Limb>, d: Limb, xs: seq<Limb>, c: int, carry: int, carry': int)
    requires |r| < |xs|
    requires Val(r) + Shift(|r|, carry) == c + Val(xs[..|r|])
    requires carry + xs[|r|] == d + 0x1_0000_0000 * carry'
    ensures Val(r + [d]) + Shift(|r| + 1, carry') == c + Val(xs[..|r| + 1])
  {
    hide *;
    CarryStep(r, d, c + Val(xs[..|r|]), carry, carry', xs[|r|]);
    ValPrefix(xs, |r|);
  }

  // Add 38 times the size limbs of x from limb 8 up to its lowest size limbs.
  method AddTimes38(x: array<Limb>, size: nat, c: DLimb) returns (carry: DLimb)
    requires x.Length == 16 && size <= 8 && c < 0x100
    modifies x
    ensures Val(x[..size]) + Shift(size, carry) == c + old(Val(x[..size])) + 38 * old(Val(x[8..8 + size]))
    ensures carry < 0x100
    ensures forall k :: size <= k < 16 ==> x[k] == old(x[k])
  {
    ghost var lo, hi, done: seq<Limb> := x[..size], x[8..8 + size], [];
    carry := c;
    var posn := 0;
    Empty();
    hide *;
    while posn < size
      invariant posn <= size && carry < 0x100 && |done| == posn
      invariant forall k :: posn <= k < size ==> x[k] == lo[k]
      invariant forall k :: 0 <= k < posn ==> x[k] == done[k]
      invariant forall k :: size <= k < 16 ==> x[k] == old(x[k])
      invariant Val(done) + Shift(posn, carry) == c + Val(lo[..posn]) + 38 * Val(hi[..posn])
    {
      ghost var c0 := carry;
      assert x[8 + posn] == hi[posn];
      carry := carry + (x[8 + posn] as int) * 38;
      carry := carry + x[posn];
      x[posn] := Low(carry);
      FoldStep(done, Low(carry), lo, hi, c, c0, High(carry));
      done := done + [Low(carry)];
      carry := High(carry);
      posn := posn + 1;
    }
    assert x[..size] == done && lo[..size] == lo && hi[..size] == hi;
  }

  lemma FoldStep(r: seq<Limb>, d: Limb, lo: seq<Limb>, hi: seq<Limb>, c: int, carry: int, carry': int)
    requires |r| < |lo| && |r| < |hi|
    requires Val(r) + Shift(|r|, carry) == c + Val(lo[..|r|]) + 38 * Val(hi[..|r|])
    requires carry + 38 * (hi[|r|] as int) + lo[|r|] == d + 0x1_0000_0000 * carry'
    ensures Val(r + [d]) + Shift(|r| + 1, carry') == c + Val(lo[..|r| + 1]) + 38 * Val(hi[..|r| + 1])
  {
    hide *;
    var i := |r|;
    CarryStep(r, d, c + Val(lo[..i]) + 38 * Val(hi[..i]), carry, carry', 38 * (hi[i] as int) + lo[i]);
    ShiftAdd(i, 38 * (hi[i] as int), lo[i]);
    Shift38(i, hi[i]);
    ValPrefix(lo, i);
    ValPrefix(hi, i);
  }

  lemma {:induction false} Shift38(n: nat, v: int)
    ensures Shift(n, 38 * v) == 38 * Shift(n, v)
  {
    if n == 0 {
    } else {
      Shift38(n - 1, v);
    }
  }

  // Mask the high bit off the low 256 bits of x; that bit weighs 19.
  method TakeTopBit(x: array<Limb>) returns (carry: DLimb)
    requires x.Length >= 8
    modifies x
    ensures var v := old(Val(x[..8]));
            Val(x[..8]) == (if v < TOP then v else v - TOP) && carry == if v < TOP then 0 else 19
    ensures Val(x[..8]) < TOP
    ensures forall k :: 8 <= k < x.Length ==> x[k] == old(x[k])
  {
    ghost var xs := x[..8];
    TopBit(xs);
    AndBound(x[7], 0x7FFF_FFFF);
    carry := (x[7] / 0x8000_0000) * 19;
    x[7] := And(x[7], 0x7FFF_FFFF);
    assert x[..8] == xs[7 := And(xs[7], 0x7FFF_FFFF)];
  }

  // Fold the limbs of x from limb 8 up into the low eight.
  method FoldHigh(x: array<Limb>, size: nat, c: DLimb) returns (carry: DLimb)
    requires x.Length == 16 && 1 <= size <= 8 && c <= 19 && Val(x[..8]) < TOP
    modifies x
    ensures Val(x[..8]) + FULL * carry == c + old(Val(x[..8])) + 38 * old(Val(x[8..8 + size])) && carry <= 38
  {
    ghost var lo, hi, h := x[..size], x[size..8], Val(x[8..8 + size]);
    ValSplit(x[..8], size);
    assert x[..8][..size] == lo && x[..8][size..] == hi;
    HighBound(x[8..8 + size]);
    hide Val, Shift;
    carry := AddTimes38(x, size, c);
    ghost var lo', c1 := x[..size], carry;
    assert x[size..8] == hi;
    if size < 8 {
      carry := AddSmall(x, size, x, size, 8 - size, carry);
    } else {
      EmptyTail(hi, c1);
    }
    ghost var hi' := x[size..8];
    ValSplit(x[..8], size);
    assert x[..8][..size] == lo' && x[..8][size..] == hi';
    FoldJoin(size, Val(lo), Val(hi), Val(lo'), Val(hi'), c, c1, carry, h);
  }

  lemma EmptyTail(hi: seq<Limb>, c: nat)
    requires hi == []
    ensures Val(hi) + Shift(0, c) == c + Val(hi)
  {
  }

  lemma HighBound(s: seq<Limb>)
    requires |s| <= 8
    ensures Val(s) < FULL
  {
    Val8Bound(s + Zeros(8 - |s|));
    ValConcat(s, Zeros(8 - |s|));
    ValZeros(8 - |s|);
    ShiftZero(|s|);
  }

  // The first pass of reduce.
  method FirstFold(x: array<Limb>, size: nat) returns (carry: DLimb)
    requires x.Length == 16 && 1 <= size <= 8
    modifies x
    ensures var v := old(Val(x[..8]));
            Val(x[..8]) + FULL * carry == (if v < TOP then v else v - P) + 38 * old(Val(x[8..8 + size]))
    ensures carry <= 38
  {
    hide Val;
    ghost var high := x[8..8 + size];
    carry := TakeTopBit(x);
    assert x[8..8 + size] == high;
    carry := FoldHigh(x, size, carry);
  }

  lemma FoldJoin(size: nat, lo: nat, hi: nat, lo': nat, hi': nat, c0: nat, c1: nat, carry: nat, h: nat)
    requires size <= 8 && c0 <= 19 && lo + Shift(size, hi) < TOP && h < FULL
    requires lo' + Shift(size, c1) == c0 + lo + 38 * h
    requires hi' + Shift(8 - size, carry) == c1 + hi
    ensures lo' + Shift(size, hi') + FULL * carry == c0 + (lo + Shift(size, hi)) + 38 * h
    ensures carry <= 38
  {
    assert Shift(size, hi' + Shift(8 - size, carry)) == Shift(size, c1 + hi);
    ShiftAdd(size, hi', Shift(8 - size, carry));
    ShiftAdd(size, c1, hi);
    ShiftShift(size, 8 - size, carry);
    Shift8(carry);
    ShiftNonneg(size, hi');
    hide Shift;
  }

  // The masked copy at the end of reduceQuick: lo if the mask is zero, hi if it is all ones. The result
  // may be lo itself.
  method SelectLimbs(result: array<Limb>, lo: array<Limb>, hi: array<Limb>, ho: nat, mask: Limb)
    requires result.Length == 8 && lo.Length >= 8 && ho + 8 <= hi.Length && result != hi
    requires mask == 0 || mask == 0xFFFF_FFFF
    modifies result
    ensures result[..] == if mask == 0 then old(lo[..8]) else hi[ho..ho + 8]
  {
    ghost var ls := lo[..8];
    hide *;
    var posn := 0;
    while posn < 8
      invariant posn <= 8
      invariant forall k :: 0 <= k < posn ==> result[k] == if mask == 0 then ls[k] else hi[ho + k]
      invariant forall k :: posn <= k < 8 ==> lo[k] == ls[k]
    {
      SelectLimb(lo[posn], hi[ho + posn], mask);
      result[posn] := Or(And(lo[posn], Not(mask)), And(hi[ho + posn], mask));
      posn := posn + 1;
    }
  }

  // Select the eight limbs of hi at ho if the top bit there is set, else those of lo; return the
  // mask that keeps lo. The result may be lo itself.
  method Select(result: array<Limb>, lo: array<Limb>, hi: array<Limb>, ho: nat) returns (nmask: Limb)
    requires result.Length == 8 && lo.Length >= 8 && ho + 8 <= hi.Length
    requires result != hi && (lo == hi ==> ho >= 8)
    modifies result, hi
    ensures var t := old(Val(hi[ho..ho + 8]));
            Val(result[..]) == (if t < TOP then old(Val(lo[..8])) else t - TOP)
            && nmask == if t < TOP then 0xFFFF_FFFF else 0
  {
    ghost var ls, hs := lo[..8], hi[ho..ho + 8];
    TopBit(hs);
    var mask: Limb := SignMask(hi[ho + 7]);
    nmask := Not(mask);
    AndBound(hi[ho + 7], 0x7FFF_FFFF);
    hi[ho + 7] := And(hi[ho + 7], 0x7FFF_FFFF);
    assert hi[ho..ho + 8] == hs[7 := And(hs[7], 0x7FFF_FFFF)];
    assert lo[..8] == ls;
    assert mask == 0 || mask == 0xFFFF_FFFF;
    hide And, Val;
    SelectLimbs(result, lo, hi, ho, mask);
  }

  // An arithmetic shift right by LIMB_BITS - 1.
  function SignMask(a: Limb): Limb {
    if a >= 0x8000_0000 then 0xFFFF_FFFF else 0
  }

  function Not(a: Limb): Limb {
    0xFFFF_FFFF - a
  }

  lemma SelectLimb(a: Limb, b: Limb, mask: Limb)
    requires mask == 0 || mask == 0xFFFF_FFFF
    ensures Or(And(a, Not(mask)), And(b, mask)) == if mask == 0 then a else b
  {
    Pow2Of32();
    AndLowMask(a, 32);
    AndLowMask(b, 32);
    OrZero(a);
    OrZero(b);
  }

  // Reduce a 512-bit number, or one whose high half has only size limbs: two folding passes and one
  // trial subtraction.
  method Reduce(result: array<Limb>, x: array<Limb>, size: nat)
    requires result.Length == 8 && x.Length == 16 && result != x && 1 <= size <= 8
    modifies result, x
    ensures Val(result[..]) == (old(Val(x[..8])) + FULL * old(Val(x[8..8 + size]))) % P
  {
    hide *;
    ghost var v, h := Val(x[..8]), Val(x[8..8 + size]);
    Val8Bound(x[..8]);
    var carry := FirstFold(x, size);
    ghost var w, k := Val(x[..8]), carry;
    Val8Bound(x[..8]);
    carry := SecondFold(x, carry);
    ghost var lo, y := x[..8], Val(x[..8]);
    carry := AddSmall(x, 8, x, 0, 8, 19);
    assert x[..8] == lo && lo[0..8] == lo;
    Shift8(carry);
    Val8Bound(x[8..16]);
    ReduceSum(v, h, w, k, y, Val(x[8..16]), carry);
    var nmask := Select(result, x, x, 8);
  }

  // The second pass of reduce; it carries nothing out.
  method SecondFold(x: array<Limb>, k: DLimb) returns (carry: DLimb)
    requires x.Length == 16 && k <= 38
    modifies x
    ensures var w := old(Val(x[..8]));
            Val(x[..8]) == 38 * k + if w < TOP then w else w - P
  {
    carry := k * 38;
    var top := TakeTopBit(x);
    carry := carry + top;
    ghost var w, c := Val(x[..8]), carry;
    assert x[0..8] == x[..8];
    carry := AddSmall(x, 0, x, 0, 8, carry);
    assert x[0..8] == x[..8];
    Shift8(carry);
    hide Shift, Val;
    assert carry == 0;
  }

  lemma ReduceSum(v: nat, h: nat, w: nat, k: nat, y: nat, t: nat, c: nat)
    requires v < FULL && w < FULL && k <= 38 && t < FULL
    requires w + FULL * k == (if v < TOP then v else v - P) + 38 * h
    requires y == 38 * k + (if w < TOP then w else w - P)
    requires t + FULL * c == 19 + y
    ensures (v + FULL * h) % P == if t < TOP then y else t - TOP
  {
    var m := (if v < TOP then 0 else 1) + 2 * h + 2 * k + if w < TOP then 0 else 1;
    assert v + FULL * h == P * m + y;
    if t < TOP {
      ModUnique(v + FULL * h, P, m, y);
    } else {
      ModUnique(v + FULL * h, P, m + 1, y - P);
    }
  }

  // The number in eight limbs.
  ghost function V(a: array<Limb>): (v: nat)
    requires a.Length == 8
    reads a
  {
    Val(a[..])
  }

  // Subtract 2^255 - 19 unless that borrows; return zero exactly when it was subtracted.
  method ReduceQuick(x: array<Limb>) returns (nmask: Limb)
    requires x.Length == 8 && V(x) < FULL - 19
    modifies x
    ensures var v := old(V(x));
            V(x) == (if v < P then v else v - P) && nmask == if v < P then 0xFFFF_FFFF else 0
  {
    hide Val, Shift;
    var temp := new Limb[8];
    ghost var v := V(x);
    var carry := AddSmall(temp, 0, x, 0, 8, 19);
    Shift8(carry);
    Val8Bound(temp[0..8]);
    assert x[0..8] == x[..] && x[..8] == x[..];
    nmask := Select(x, x, temp, 0);
  }

  // The schoolbook product of two eight-limb numbers.
  method MulNoReduce(result: array<Limb>, x: array<Limb>, y: array<Limb>)
    requires result.Length >= 16 && x.Length == 8 && y.Length == 8 && result != x && result != y
    modifies result
    ensures Val(result[..16]) == V(x) * V(y)
    ensures forall k :: 16 <= k < result.Length ==> result[k] == old(result[k])
  {
    ghost var xs, ys := x[..], y[..];
    BigNumberUtil.MulRow(result, 0, y, 0, 8, x[0], true);
    BigNumberUtil.TimesFirst(xs, Val(ys));
    assert result[..9] == result[0..9] && y[0..8] == ys;
    hide *;
    var i := 1;
    while i < 8
      invariant 1 <= i <= 8 && x[..] == xs && y[..] == ys
      invariant forall k :: 16 <= k < result.Length ==> result[k] == old(result[k])
      invariant Val(result[..8 + i]) == Times(Val(ys), Val(xs[..i]))
    {
      ghost var r := result[..8 + i];
      assert r[i..] == result[i..i + 8];
      BigNumberUtil.MulRow(result, i, y, 0, 8, x[i], false);
      assert result[..8 + i + 1][i..] == result[i..i + 8 + 1] && y[0..8] == ys;
      BigNumberUtil.MulStep(r, result[..8 + i + 1], ys, xs, i);
      i := i + 1;
    }
    assert xs[..8] == xs;
    TimesIs(Val(ys), Val(xs));
  }

  // The result may be x or y.
  method Mul(result: array<Limb>, x: array<Limb>, y: array<Limb>)
    requires result.Length == 8 && x.Length == 8 && y.Length == 8
    modifies result
    ensures V(result) == Field.Mul(old(V(x)), old(V(y)))
  {
    var temp := new Limb[16];
    MulNoReduce(temp, x, y);
    ReduceProduct(result, temp, 8, V(x) * V(y));
  }

  method ReduceProduct(result: array<Limb>, temp: array<Limb>, size: nat, ghost product: nat)
    requires result.Length == 8 && temp.Length == 16 && result != temp && 1 <= size <= 8
    requires Val(temp[..8 + size]) == product
    modifies result, temp
    ensures V(result) == product % P
  {
    hide Val, Shift, P;
    assert temp[..8 + size] == temp[..8] + temp[8..8 + size];
    ValConcat(temp[..8], temp[8..8 + size]);
    Shift8(Val(temp[8..8 + size]));
    Reduce(result, temp, size);
  }

  method Square(result: array<Limb>, x: array<Limb>)
    requires result.Length == 8 && x.Length == 8
    modifies result
    ensures V(result) == Field.Mul(old(V(x)), old(V(x)))
  {
    Mul(result, x, x);
  }

  // A product with a constant.
  method MulP(result: array<Limb>, x: array<Limb>, y: seq<Limb>)
    requires result.Length == 8 && x.Length == 8 && |y| == 8
    modifies result
    ensures V(result) == Field.Mul(old(V(x)), Val(y))
  {
    hide Val, Shift, Times, P;
    var temp := new Limb[16];
    BigNumberUtil.MulP(temp, x, 0, 8, y);
    assert x[0..8] == x[..];
    TimesIs(Val(x[..]), Val(y));
    ReduceProduct(result, temp, 8, Val(x[..]) * Val(y));
  }

  const A24: nat := 121665

  // A product with the one-limb constant a24: the high half to be reduced has one limb.
  method MulA24(result: array<Limb>, x: array<Limb>)
    requires result.Length == 8 && x.Length == 8
    modifies result
    ensures V(result) == Field.Mul(old(V(x)), A24)
  {
    var temp := new Limb[16];
    var a24: seq<Limb> := [0x0001_DB41];
    BigNumberUtil.MulP(temp, x, 0, 8, a24);
    assert x[0..8] == x[..];
    assert Val(a24) == A24 by { ValSnoc([], 0x0001_DB41); }
    TimesIs(Val(x[..]), Val(a24));
    ReduceProduct(result, temp, 1, Val(x[..]) * A24);
  }

  // The code of add on operands that need not be reduced. The result may be x or y.
  method AddWide(result: array<Limb>, x: array<Limb>, y: array<Limb>)
    requires result.Length == 8 && x.Length == 8 && y.Length == 8
    requires V(x) + V(y) < FULL - 19
    modifies result
    ensures var v := old(V(x)) + old(V(y)); V(result) == if v < P then v else v - P
  {
    var carry := BigNumberUtil.Add(result, x, y, 8);
    hide Val, Shift;
    assert x[..8] == x[..] && y[..8] == y[..] && result[..8] == result[..];
    assert old(x[..8]) == old(x[..]) && old(y[..8]) == old(y[..]);
    Shift8(carry);
    var nmask := ReduceQuick(result);
  }

  method Add(result: array<Limb>, x: array<Limb>, y: array<Limb>)
    requires result.Length == 8 && x.Length == 8 && y.Length == 8
    requires V(x) < P && V(y) < P
    modifies result
    ensures V(result) == Field.Add(old(V(x)), old(V(y)))
  {
    AddWide(result, x, y);
  }

  // The second loop of sub: take c off and let the borrow run.
  method TakeSmall(x: array<Limb>, c: Limb)
    requires x.Length == 8 && c <= V(x)
    modifies x
    ensures V(x) == old(V(x)) - c
  {
    ghost var xs, ys := x[..], [c] + Zeros(7);
    Val8Small(c);
    var borrow := BigNumberUtil.BorrowRegister(x[0], c, 0);
    x[0] := Low(borrow);
    Empty();
    assert Val(xs[..0]) == Val([]) == Val(ys[..0]);
    SubStep([], Low(borrow), xs, ys, 0, High(borrow) % 2);
    ghost var done := [] + [Low(borrow)];
    hide Val, Shift, Low, High;
    var posn := 1;
    while posn < 8
      invariant 1 <= posn <= 8 && |done| == posn
      invariant forall k :: posn <= k < 8 ==> x[k] == xs[k]
      invariant forall k :: 0 <= k < posn ==> x[k] == done[k]
      invariant Val(xs[..posn]) + Shift(posn, High(borrow) % 2) == Val(done) + Val(ys[..posn])
    {
      ghost var b := High(borrow) % 2;
      borrow := BigNumberUtil.BorrowRegister(x[posn], 0, High(borrow) % 2);
      x[posn] := Low(borrow);
      SubStep(done, Low(borrow), xs, ys, b, High(borrow) % 2);
      done := done + [Low(borrow)];
      posn := posn + 1;
    }
    assert x[..] == done && xs[..8] == xs && ys[..8] == ys;
    Shift8(High(borrow) % 2);
    Val8Bound(x[..]);
  }

  lemma Val8Small(c: Limb)
    ensures Val([c] + Zeros(7)) == c
  {
    ValZeros(7);
    assert ([c] + Zeros(7))[1..] == Zeros(7);
  }

  // The code of sub on a first operand that need not be reduced. The result may be x or y.
  method SubWide(result: array<Limb>, x: array<Limb>, y: array<Limb>)
    requires result.Length == 8 && x.Length == 8 && y.Length == 8
    requires V(x) < TOP && V(y) <= P
    modifies result
    ensures var (a, b) := (old(V(x)), old(V(y))); V(result) == if b <= a then a - b else a - b + P
  {
    ghost var a, b := V(x), V(y);
    var borrow := BigNumberUtil.Sub(result, x, y, 8);
    hide Val, Shift;
    assert result[..8] == result[..] && old(x[..8]) == old(x[..]) && old(y[..8]) == old(y[..]);
    Shift8(borrow);
    Val8Bound(result[..]);
    assert V(result) == a - b + FULL * borrow;
    TakeSmall(result, if borrow == 1 then 19 else 0);
    assert result[..8] == result[..];
    assert V(result) == if b <= a then a - b else a - b + P + TOP;
    var dropped := TakeTopBit(result);
    assert result[..8] == result[..];
  }

  method Sub(result: array<Limb>, x: array<Limb>, y: array<Limb>)
    requires result.Length == 8 && x.Length == 8 && y.Length == 8
    requires V(x) < P && V(y) < P
    modifies result
    ensures V(result) == Field.Sub(old(V(x)), old(V(y)))
  {
    SubWide(result, x, y);
  }

  // Swap x and y if select is not zero, without a branch.
  method CSwap(select: Limb, x: array<Limb>, y: array<Limb>)
    requires x.Length == 8 && y.Length == 8 && x != y
    modifies x, y
    ensures x[..] == old(if select == 0 then x[..] else y[..])
    ensures y[..] == old(if select == 0 then y[..] else x[..])
    ensures V(x) == old(if select == 0 then V(x) else V(y))
    ensures V(y) == old(if select == 0 then V(y) else V(x))
  {
    var sel := SelectMask(select);
    var posn := 0;
    while posn < 8
      invariant posn <= 8
      invariant forall k :: 0 <= k < 8 ==>
        x[k] == old(if select == 0 || posn <= k then x[k] else y[k]) &&
        y[k] == old(if select == 0 || posn <= k then y[k] else x[k])
    {
      hide *;
      MaskedXor(sel, x[posn], y[posn]);
      var dummy: Limb := And(sel, Xor(x[posn], y[posn]));
      x[posn] := Xor(x[posn], dummy);
      y[posn] := Xor(y[posn], dummy);
      posn := posn + 1;
    }
  }

  // Move y into x if select is not zero, without a branch.
  method CMove(select: Limb, x: array<Limb>, y: array<Limb>)
    requires x.Length == 8 && y.Length == 8 && x != y
    modifies x
    ensures x[..] == if select == 0 then old(x[..]) else y[..]
    ensures V(x) == if select == 0 then old(V(x)) else V(y)
  {
    var sel := SelectMask(select);
    var posn := 0;
    while posn < 8
      invariant posn <= 8
      invariant forall k :: 0 <= k < 8 ==> x[k] == if select == 0 || posn <= k then old(x[k]) else y[k]
    {
      hide *;
      MaskedXor(sel, x[posn], y[posn]);
      var dummy: Limb := And(sel, Xor(x[posn], y[posn]));
      x[posn] := Xor(x[posn], dummy);
      posn := posn + 1;
    }
  }

  // All ones if select is not zero: ((2^32 - select) >> 32) - 1 in limb arithmetic.
  function SelectMask(select: Limb): (sel: Limb)
    ensures sel == if select == 0 then 0 else 0xFFFF_FFFF
  {
    ((0x1_0000_0000 - (select as int)) / 0x1_0000_0000 - 1) % 0x1_0000_0000
  }

  lemma MaskedXor(sel: Limb, x: Limb, y: Limb)
    requires sel == 0 || sel == 0xFFFF_FFFF
    ensures And(sel, Xor(x, y)) < 0x1_0000_0000
    ensures Xor(x, And(sel, Xor(x, y))) == if sel == 0 then x else y
    ensures Xor(y, And(sel, Xor(x, y))) == if sel == 0 then y else x
  {
    Pow2Of32();
    XorBound(x, y, 32);
    AndLowMask(Xor(x, y), 32);
    AndComm(sel, Xor(x, y));
    XorCancels(x, y);
    XorZero(x);
    XorZero(y);
  }

  // e times 2^n.
  ghost function Doubled(n: nat, e: nat): nat {
    if n == 0 then e else 2 * Doubled(n - 1, e)
  }

  lemma Doubled10(e: nat)
    ensures Doubled(9, e) == 512 * e && Doubled(10, e) == 1024 * e
  {
    Doubled2(e);
    assert Doubled(3, e) == 8 * e;
    assert Doubled(4, e) == 16 * e;
    assert Doubled(5, e) == 32 * e;
    assert Doubled(6, e) == 64 * e;
    assert Doubled(7, e) == 128 * e;
    assert Doubled(8, e) == 256 * e;
    assert Doubled(9, e) == 512 * e;
  }

  lemma Doubled2(e: nat)
    ensures Doubled(2, e) == 4 * e
  {
    assert Doubled(1, e) == 2 * e;
  }

  // 1024 to the power i.
  ghost function Groups(i: nat): nat {
    if i == 0 then 1 else 1024 * Groups(i - 1)
  }

  lemma Groups24()
    ensures 1024 * Groups(24) - 1 == ONES250
  {
    assert Groups(6) == 0x1000000000000000;
    assert Groups(12) == 0x1000000000000000_000000000000000;
    assert Groups(18) == 0x1000000000000000_000000000000000_000000000000000;
    assert Groups(24) == 0x1000000000000000_000000000000000_000000000000000_000000000000000;
  }

  // Square x in place n times.
  method SquareTimes(x: array<Limb>, n: nat, ghost base: int, ghost e: nat)
    requires x.Length == 8 && V(x) == Pow(base, e)
    modifies x
    ensures V(x) == Pow(base, Doubled(n, e))
  {
    hide Field.Mul, Pow, V, P;
    var j := 0;
    while j < n
      invariant j <= n && V(x) == Pow(base, Doubled(j, e))
    {
      PowAdd(base, Doubled(j, e), Doubled(j, e));
      Square(x, x);
      j := j + 1;
    }
  }

  // The exponent starts as 25 groups of the bit pattern 0000000001.
  method GroupPattern(result: array<Limb>, t1: array<Limb>, x: array<Limb>) returns (ghost r: nat)
    requires result.Length == 8 && t1.Length == 8 && x.Length == 8 && result != t1 && result != x && t1 != x
    modifies result, t1
    ensures 1023 * r == ONES250 && V(result) == Pow(V(x), r)
  {
    ghost var b := V(x);
    hide Field.Mul, Pow, V, P, ONES250;
    Square(t1, x);
    PowNext(b, 1);
    SquareTimes(t1, 9, b, 2);
    Doubled10(2);
    Mul(result, t1, x);
    PowNext(b, 1024);
    ghost var e := 1024;
    r := 1025;
    var i := 0;
    while i < 23
      invariant i <= 23 && e == Groups(i + 1) && 1023 * r == 1024 * e - 1
      invariant V(x) == b && V(t1) == Pow(b, e) && V(result) == Pow(b, r)
    {
      SquareTimes(t1, 10, b, e);
      Doubled10(e);
      e := 1024 * e;
      Mul(result, result, t1);
      PowAdd(b, r, e);
      r := r + e;
      i := i + 1;
    }
    Groups24();
  }

  // Shifted copies of the pattern fill up the groups.
  method Pow250(result: array<Limb>, x: array<Limb>)
    requires result.Length == 8 && x.Length == 8 && result != x
    modifies result
    ensures V(result) == Pow(V(x), ONES250)
  {
    ghost var b := V(x);
    hide Field.Mul, Pow, V, P, ONES250;
    var t1 := new Limb[8];
    ghost var r := GroupPattern(result, t1, x);
    Square(t1, result);
    PowAdd(b, r, r);
    Mul(result, result, t1);
    PowAdd(b, r, 2 * r);
    ghost var f := 2 * r;
    var j := 0;
    while j < 8
      invariant j <= 8 && f == Doubled(j + 1, r) && f >= r
      invariant V(t1) == Pow(b, f) && V(result) == Pow(b, 2 * f - r)
    {
      Square(t1, t1);
      PowAdd(b, f, f);
      Mul(result, result, t1);
      PowAdd(b, 2 * f - r, 2 * f);
      f := 2 * f;
      j := j + 1;
    }
    Doubled10(r);
  }

  // The power p - 2, which inverts every x but zero.
  method Recip(result: array<Limb>, x: array<Limb>)
    requires result.Length == 8 && x.Length == 8 && result != x
    modifies result
    ensures V(result) == Inv(V(x))
  {
    ghost var b, e := V(x), ONES250;
    assert 32 * e + 11 == P - 2;
    hide Field.Mul, Pow, V, P, ONES250;
    Pow250(result, x);
    SquareTimes(result, 2, b, e);
    Doubled2(e);
    Mul(result, result, x);
    PowNext(b, 4 * e);
    SquareTimes(result, 2, b, 4 * e + 1);
    Doubled2(4 * e + 1);
    Mul(result, result, x);
    PowNext(b, 16 * e + 4);
    Square(result, result);
    PowAdd(b, 16 * e + 5, 16 * e + 5);
    Mul(result, result, x);
    PowNext(b, 32 * e + 10);
  }

  // A square root of x, if there is one: the candidate x^((p + 3) / 8), times a root of -1 if need be.
  method Sqrt(result: array<Limb>, x: array<Limb>) returns (found: bool)
    requires result.Length == 8 && x.Length == 8 && result != x
    modifies result
    ensures V(result) == SqrtCandidate(V(x))
    ensures found <==> Field.Mul(V(result), V(result)) == V(x)
  {
    ghost var b, e := V(x), ONES250;
    SqrtConstants(b);
    NumSqrtM1();
    hide *;
    var y := new Limb[8];
    Pow250(result, x);
    Square(result, result);
    PowAdd(b, e, e);
    Mul(result, result, x);
    PowNext(b, 2 * e);
    Square(result, result);
    PowAdd(b, 2 * e + 1, 2 * e + 1);
    Square(y, result);
    found := SameLimbs(x, y);
    if found {
      return;
    }
    MulP(result, result, NUM_SQRT_M1);
    Square(y, result);
    found := SameLimbs(x, y);
  }

  lemma NumSqrtM1()
    ensures |NUM_SQRT_M1| == 8 && Val(NUM_SQRT_M1) == SQRT_M1
  {
    hide Val;
    Val8(NUM_SQRT_M1);
  }

  lemma SqrtConstants(x: nat)
    ensures SqrtCandidate(x)
         == var r := Pow(x, 4 * ONES250 + 2); if Field.Mul(r, r) == x then r else Field.Mul(r, SQRT_M1)
  {
    assert 4 * ONES250 + 2 == (P + 3) / 8;
  }

  const NUM_SQRT_M1: seq<Limb> := [
    0x4A0EA0B0, 0xC4EE1B27, 0xAD2FE478, 0x2F431806, 0x3DFBD7A7, 0x2B4D0099, 0x4FC1DF0B, 0x2B832480]

  // memcmp on two numbers.
  method SameLimbs(x: array<Limb>, y: array<Limb>) returns (same: bool)
    requires x.Length == 8 && y.Length == 8
    ensures same <==> V(x) == V(y)
  {
    same := x[..] == y[..];
    if V(x) == V(y) { ValInjective(x[..], y[..]); }
  }

  method SetSmall(x: array<Limb>, c: Limb)
    requires x.Length == 8
    modifies x
    ensures V(x) == c
  {
    x[0], x[1], x[2], x[3], x[4], x[5], x[6], x[7] := c, 0, 0, 0, 0, 0, 0, 0;
    Val8Small(c);
    assert x[..] == [c] + Zeros(7);
  }

  method Copy(x: array<Limb>, y: array<Limb>)
    requires x.Length == 8 && y.Length == 8
    modifies x
    ensures V(x) == old(V(y))
  {
    forall k | 0 <= k < 8 { x[k] := y[k]; }
    assert x[..] == old(y[..]);
  }

  method UnpackNumber(x: array<Limb>, b: Bytes)
    requires x.Length == 8 && |b| == 32
    modifies x
    ensures V(x) == LE(b)
  {
    BigNumberUtil.UnpackLE(x, 8, b);
    assert x[..8] == x[..] && BigNumberUtil.Resize(b, 32) == b;
  }

  method PackNumber(bytes: array<Byte>, off: nat, x: array<Limb>)
    requires x.Length == 8 && off + 32 <= bytes.Length
    modifies bytes
    ensures bytes[off..off + 32] == ToLE(V(x), 32)
    ensures forall k :: 0 <= k < bytes.Length && !(off <= k < off + 32) ==> bytes[k] == old(bytes[k])
  {
    BigNumberUtil.PackLE(bytes, off, 32, x, 8);
    assert x[..8] == x[..];
  }
}
