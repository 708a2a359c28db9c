/** Arithmetic modulo the group order: reduceQ and reduceQFromBuffer of Ed25519.cpp. */
module Scalars {
  import opened Arith
  import opened Bytes
  import opened Limbs
  import opened BigNumberUtil
  import C = Curve25519

  const Q: nat := 0x1000000000000000_0000000000000000_14def9dea2f79cd6_5812631a5cf5d3ed
  const M: nat := 0xf_ffffffffffffffff_ffffffffffffffeb_2106215d086329a7_ed9ce5a30a2c131b
  const FULL2: nat := C.FULL * C.FULL

  const NUM_Q: seq<Limb> := [
    0x5CF5D3ED, 0x5812631A, 0xA2F79CD6, 0x14DEF9DE, 0x00000000, 0x00000000, 0x00000000, 0x10000000]
  const NUM_M: seq<Limb> := [
    0x0A2C131B, 0xED9CE5A3, 0x086329A7, 0x2106215D, 0xFFFFFFEB, 0xFFFFFFFF, 0xFFFFFFFF, 0xFFFFFFFF, 0x0F]

  lemma Constants()
    ensures |NUM_Q| == 8 && Val(NUM_Q) == Q
    ensures |NUM_M| == 9 && Val(NUM_M) == M
    ensures 0 <= FULL2 - M * Q < Q && 2 * Q < C.FULL
  {
    hide Val;
    Val8(NUM_Q);
    Val4(NUM_M);
    Val4(NUM_M[4..]);
    assert NUM_M[4..][4..] == [0x0F];
    ValOne(0x0F);
  }

  lemma ValOne(d: Limb)
    ensures Val([d]) == d
  {
  }

  // The estimate t of the quotient of r by q is at most one too small.
  lemma Barrett(r: int, q: int, m: int, e: int, h: int, t: int, f: int)
    requires h > 0 && 0 <= r < h && m * q == h - e && 0 <= e < q
    requires r * m == t * h + f && 0 <= f < h
    ensures 0 <= r - t * q < 2 * q
  {
    calc {
      (r - t * q) * h;
      r * h - t * q * h;
      { MulAssoc(r, m, q); assert r * (h - e) == r * h - r * e by { MulSub(r, h, e); } }
      (r * m) * q + r * e - t * q * h;
      { SplitProduct(t, h, f, q); }
      f * q + r * e;
    }
    TermBounds(f, q, r, e, h);
    hide *;
    CancelLess(-1, r - t * q, h);
    CancelLess(r - t * q, 2 * q, h);
  }

  lemma CancelLess(a: int, b: int, h: int)
    requires h > 0 && a * h < b * h
    ensures a < b
  {
    if a >= b {
      MulMono(h, b, a);
    }
  }

  lemma TermBounds(f: int, q: int, r: int, e: int, h: int)
    requires q > 0 && 0 <= f < h && 0 <= r < h && 0 <= e < q
    ensures -1 * h < f * q + r * e < (2 * q) * h
  {
    LessProduct(f, q, h);
    LessProduct(r, e, h);
    MulMono(h, e, q);
    assert (2 * q) * h == h * q + h * q;
  }

  lemma LessProduct(a: int, b: int, h: int)
    requires 0 <= a < h && 0 <= b
    ensures 0 <= a * b && (b > 0 ==> a * b < h * b) && a * b <= h * b
  {
    MulMono(b, a, h - 1);
    MulMono(b, 0, a);
  }

  lemma SplitProduct(t: int, h: int, f: int, q: int)
    ensures (t * h + f) * q == t * q * h + f * q
  {
  }

  lemma Shift16(v: int)
    ensures Shift(16, v) == FULL2 * v
  {
    ShiftShift(8, 8, v);
    C.Shift8(v);
    C.Shift8(C.FULL * v);
    hide Shift;
  }

  // The low 256 bits of r - t q are all of it.
  lemma LowDifference(r: seq<Limb>, s: seq<Limb>, d: seq<Limb>, x: nat, borrow: nat)
    requires |r| == 16 && |s| == 17 && |d| == 8 && borrow <= 1
    requires x == (Val(r) as int) - Val(s) && x < C.FULL
    requires Val(r[..8]) + Shift(8, borrow) == Val(d) + Val(s[..8])
    ensures Val(d) == x
  {
    hide Val;
    ValSplit(r, 8);
    ValSplit(s, 8);
    C.Val8Bound(d);
    C.Shift8(borrow);
    C.Shift8(Val(r[8..]));
    C.Shift8(Val(s[8..]));
    hide Shift;
    SmallMultiple(Val(d), x, borrow - Val(r[8..]) + Val(s[8..]));
  }

  lemma SmallMultiple(d: nat, x: nat, k: int)
    requires d < C.FULL && x < C.FULL && d - x == C.FULL * k
    ensures d == x
  {
  }

  lemma QuotientEstimate(r: nat, q: nat, m: nat, h: nat, t: nat, f: nat)
    requires 0 <= h - m * q < q && r < h && f < h && Times(r, m) == f + h * t
    ensures 0 <= r - Times(t, q) < 2 * q
  {
    MulComm(h, t);
    Barrett(r, q, m, h - m * q, h, t, f);
  }

  lemma TwoSubtractions(r: nat, t: nat, x: nat, y: nat, z: nat)
    requires x == r - Times(t, Q) && x < 2 * Q
    requires y == (if Q <= x then x - Q else x) && z == (if Q <= y then y - Q else y)
    ensures z == r % Q
  {
    MulComm(t, Q);
    ModUnique(r, Q, if Q <= x then t + 1 else t, z);
  }

  // Times m and divided by 2^512: the estimate of the quotient, in the limbs of temp from 16 on.
  method EstimateQuotient(temp: array<Limb>, r: array<Limb>) returns (ghost t: nat)
    requires temp.Length == 25 && r.Length >= 16 && r != temp
    modifies temp
    ensures t == Val(temp[16..25]) && 0 <= Val(r[..16]) - Times(t, Q) < 2 * Q
  {
    Constants();
    hide Val, Shift, Times, FULL2, M, Q, NUM_M, NUM_Q;
    ghost var v := Val(r[..16]);
    MulP(temp, r, 0, 16, NUM_M);
    assert r[0..16] == r[..16] && temp[..25] == temp[..];
    t := Val(temp[16..25]);
    ghost var f := Val(temp[..16]);
    ValSplit(temp[..], 16);
    assert temp[..][16..] == temp[16..25] && temp[..][..16] == temp[..16];
    Shift16(t);
    ValBound(temp[..16]);
    ValBound(r[..16]);
    Shift16(1);
    QuotientEstimate(v, Q, M, FULL2, t, f);
  }

  // r - t q, of which the low 256 bits are all there is.
  method Remainder512(r: array<Limb>, temp: array<Limb>, ghost t: nat)
    requires r.Length == 17 && temp.Length == 25 && r != temp && Val(temp[..17]) == Times(t, Q)
    requires 0 <= Val(r[..16]) - Times(t, Q) < 2 * Q
    modifies r
    ensures Val(r[..8]) == old(Val(r[..16])) - Times(t, Q)
  {
    Constants();
    hide Val, Shift, Times, FULL2, M, Q, NUM_M, NUM_Q;
    ghost var rs, ss := r[..16], temp[..17];
    var borrow := BigNumberUtil.Sub(r, r, temp, 8);
    assert rs[..8] == old(r[..8]) && ss[..8] == temp[..8];
    LowDifference(rs, ss, r[..8], Val(rs) - Times(t, Q), borrow);
  }

  // Barrett reduction of any 512-bit number. The second product overwrites its own first factor but
  // reads every limb of it first. The result may be r.
  method ReduceQ(result: array<Limb>, r: array<Limb>)
    requires result.Length >= 8 && r.Length == 17
    modifies result, r
    ensures Val(result[..8]) == old(Val(r[..16])) % Q
    ensures forall k :: 8 <= k < result.Length && result != r ==> result[k] == old(result[k])
  {
    hide Val, Shift, Times, FULL2, M, Q, NUM_M, NUM_Q;
    ghost var v := Val(r[..16]);
    var temp := new Limb[25];
    ghost var t := EstimateQuotient(temp, r);
    Constants();
    MulP(temp, temp, 16, 9, NUM_Q);
    Remainder512(r, temp, t);
    SubtractTwice(result, r, v, t);
  }

  // The two trial subtractions at the end.
  method SubtractTwice(result: array<Limb>, r: array<Limb>, ghost v: nat, ghost t: nat)
    requires result.Length >= 8 && r.Length >= 8
    requires Val(r[..8]) == v - Times(t, Q) && Val(r[..8]) < 2 * Q
    modifies result
    ensures Val(result[..8]) == v % Q
    ensures forall k :: 8 <= k < result.Length ==> result[k] == old(result[k])
  {
    Constants();
    hide Val, Shift, Times, FULL2, M, Q, NUM_M, NUM_Q;
    ghost var x := Val(r[..8]);
    ReduceQuickP(result, r, NUM_Q);
    ghost var y := Val(result[..8]);
    ReduceQuickP(result, result, NUM_Q);
    TwoSubtractions(v, t, x, y, Val(result[..8]));
  }

  method ReduceQFromBuffer(result: array<Limb>, buf: Bytes, temp: array<Limb>)
    requires result.Length == 8 && |buf| == 64 && temp.Length == 17 && result != temp
    modifies result, temp
    ensures C.V(result) == LE(buf) % Q
  {
    hide Val, LE, Q;
    UnpackLE(temp, 16, buf);
    assert Resize(buf, 64) == buf;
    ghost var ts := temp[..16];
    temp[16] := 0;
    assert temp[..16] == ts;
    ReduceQ(result, temp);
    assert result[..8] == result[..];
  }
}
