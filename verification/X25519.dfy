/** The X25519 function of Curve25519.cpp: the ladder of section 5 of RFC 7748. */
module X25519 {
  import opened Arith
  import opened Bits
  import opened Bytes
  import opened Limbs
  import opened Field
  import opened BigNumberUtil
  import opened Options
  import C = Curve25519

  // Projective x-coordinates of two neighbouring multiples of a point.
  datatype Rung = Rung(x2: nat, z2: nat, x3: nat, z3: nat) {
    function Swapped(): Rung {
      Rung(x3, z3, x2, z2)
    }
    predicate Canonical() {
      x2 < P && z2 < P && x3 < P && z3 < P
    }
  }

  // Double the first point and add the two, where u is the x-coordinate of their difference.
  function Step(u: nat, r: Rung): (r': Rung)
    ensures r'.Canonical()
  {
    var a, b := Field.Add(r.x2, r.z2), Field.Sub(r.x2, r.z2);
    var aa, bb := Field.Mul(a, a), Field.Mul(b, b);
    var e := Field.Sub(aa, bb);
    var da := Field.Mul(Field.Sub(r.x3, r.z3), a);
    var cb := Field.Mul(Field.Add(r.x3, r.z3), b);
    var sum, dif := Field.Add(da, cb), Field.Sub(da, cb);
    Rung(Field.Mul(aa, bb), Field.Mul(Field.Add(Field.Mul(e, C.A24), aa), e),
         Field.Mul(sum, sum), Field.Mul(Field.Mul(dif, dif), u))
  }

  // The ladder that swaps before and after each bit: the rung reached when bits 254 down to t of k
  // have been read.
  function Rungs(k: nat, t: nat, u: nat): (r: Rung)
    requires t <= 255 && u < P
    ensures r.Canonical()
    decreases 255 - t
  {
    if t == 255 then Rung(1, 0, u, 1)
    else
      var r := Rungs(k, t + 1, u);
      if Bit(k, t) then Step(u, r.Swapped()).Swapped() else Step(u, r)
  }

  // The x-coordinate of k times a point with x-coordinate u.
  function Ladder(k: nat, u: nat): (x: nat)
    requires u < P
    ensures x < P
  {
    var r := Rungs(k, 0, u);
    Field.Mul(r.x2, Inv(r.z2))
  }

  // The number that the bits 254 down to t of k spell.
  function BitsRead(k: nat, t: nat): (n: nat)
    requires t <= 255
    decreases 255 - t
  {
    if t == 255 then 0 else 2 * BitsRead(k, t + 1) + if Bit(k, t) then 1 else 0
  }

  // All 255 bits read spell the scalar without its top bit.
  lemma {:induction false} BitsReadAll(k: nat, t: nat)
    requires t <= 255
    ensures BitsRead(k, t) == (k % Pow2(255)) / Pow2(t)
    decreases 255 - t
  {
    var m := k % Pow2(255);
    assert 0 <= m < Pow2(255) by { DivMod(k, Pow2(255)); }
    hide Pow2;
    if t == 255 {
      ModUnique(m, Pow2(255), 0, m);
    } else {
      BitsReadAll(k, t + 1);
      Pow2Twice(t);
      HalfOfQuotient(m, Pow2(t));
      LowBitsSame(k, t);
    }
  }

  lemma Pow2Twice(t: nat)
    ensures Pow2(t + 1) == 2 * Pow2(t)
  {
  }

  lemma LowBitsSame(k: nat, t: nat)
    requires t < 255
    ensures Bit(k, t) == Bit(k % Pow2(255), t)
  {
    DivMod(k, Pow2(255));
    QuotientNonnegative(k, Pow2(255));
    LowBit(k % Pow2(255), k / Pow2(255), 255, t);
    hide Pow2, Bit;
  }

  lemma QuotientNonnegative(a: nat, m: nat)
    requires m > 0
    ensures 0 <= a / m
  {
    DivMod(a, m);
    if a / m < 0 { MulMono(m, a / m, -1); }
  }

  // The first lines of the step: A, AA, B, BB and E.
  method DoublingParts(x2: array<Limb>, z2: array<Limb>)
    returns (A: array<Limb>, AA: array<Limb>, B: array<Limb>, BB: array<Limb>, E: array<Limb>)
    requires x2.Length == z2.Length == 8 && C.V(x2) < P && C.V(z2) < P
    ensures A.Length == AA.Length == B.Length == BB.Length == E.Length == 8 && fresh({A, AA, B, BB, E})
    ensures C.V(A) == Field.Add(C.V(x2), C.V(z2)) && C.V(B) == Field.Sub(C.V(x2), C.V(z2))
    ensures C.V(AA) == Field.Mul(C.V(A), C.V(A)) && C.V(BB) == Field.Mul(C.V(B), C.V(B))
    ensures C.V(E) == Field.Sub(C.V(AA), C.V(BB))
  {
    hide C.V, Field.Mul, Field.Add, Field.Sub, P;
    A, AA, B, BB, E := new Limb[8], new Limb[8], new Limb[8], new Limb[8], new Limb[8];
    C.Add(A, x2, z2);
    C.Square(AA, A);
    C.Sub(B, x2, z2);
    C.Square(BB, B);
    C.Sub(E, AA, BB);
  }

  // The middle lines of the step: the cross products DA and CB.
  method CrossProducts(A: array<Limb>, B: array<Limb>, x3: array<Limb>, z3: array<Limb>)
    returns (DA: array<Limb>, CB: array<Limb>)
    requires A.Length == B.Length == x3.Length == z3.Length == 8 && C.V(x3) < P && C.V(z3) < P
    ensures DA.Length == CB.Length == 8 && fresh({DA, CB}) && DA != CB
    ensures C.V(DA) == Field.Mul(Field.Sub(C.V(x3), C.V(z3)), C.V(A))
    ensures C.V(CB) == Field.Mul(Field.Add(C.V(x3), C.V(z3)), C.V(B))
  {
    hide C.V, Field.Mul, Field.Add, Field.Sub, P;
    DA, CB := new Limb[8], new Limb[8];
    var c, d := new Limb[8], new Limb[8];
    C.Add(c, x3, z3);
    C.Sub(d, x3, z3);
    C.Mul(DA, d, A);
    C.Mul(CB, c, B);
  }

  // x3 and z3 become the sum of the two points, whose difference has x-coordinate x1.
  method FinishSum(x3: array<Limb>, z3: array<Limb>, x1: array<Limb>, DA: array<Limb>, CB: array<Limb>)
    requires x3.Length == z3.Length == x1.Length == DA.Length == CB.Length == 8
    requires x3 != z3 && x1 !in {x3, z3} && DA !in {x3, z3} && CB !in {x3, z3}
    requires C.V(DA) < P && C.V(CB) < P
    modifies x3, z3
    ensures var (sum, dif) := (Field.Add(C.V(DA), C.V(CB)), Field.Sub(C.V(DA), C.V(CB)));
            C.V(x3) == Field.Mul(sum, sum) && C.V(z3) == Field.Mul(Field.Mul(dif, dif), C.V(x1))
  {
    hide C.V, Field.Mul, Field.Add, Field.Sub, P;
    C.Add(x3, DA, CB);
    C.Square(x3, x3);
    C.Sub(z3, DA, CB);
    C.Square(z3, z3);
    C.Mul(z3, z3, x1);
  }

  // x2 and z2 become the double of the first point.
  method FinishDouble(x2: array<Limb>, z2: array<Limb>, AA: array<Limb>, BB: array<Limb>, E: array<Limb>)
    requires x2.Length == z2.Length == AA.Length == BB.Length == E.Length == 8
    requires x2 != z2 && AA !in {x2, z2} && BB !in {x2, z2} && E !in {x2, z2} && C.V(AA) < P
    modifies x2, z2
    ensures C.V(x2) == Field.Mul(C.V(AA), C.V(BB))
    ensures C.V(z2) == Field.Mul(Field.Add(Field.Mul(C.V(E), C.A24), C.V(AA)), C.V(E))
  {
    hide C.V, Field.Mul, Field.Add, Field.Sub, P, C.A24;
    C.Mul(x2, AA, BB);
    C.MulA24(z2, E);
    C.Add(z2, z2, AA);
    C.Mul(z2, z2, E);
  }

  // One pass of the loop of eval between the conditional swaps.
  method LadderStep(x1: array<Limb>, x2: array<Limb>, z2: array<Limb>, x3: array<Limb>, z3: array<Limb>)
    requires x1.Length == x2.Length == z2.Length == x3.Length == z3.Length == 8
    requires x1 !in {x2, z2, x3, z3} && x2 !in {z2, x3, z3} && z2 !in {x3, z3} && x3 != z3
    requires C.V(x1) < P && Rung(C.V(x2), C.V(z2), C.V(x3), C.V(z3)).Canonical()
    modifies x2, z2, x3, z3
    ensures Rung(C.V(x2), C.V(z2), C.V(x3), C.V(z3))
         == Step(C.V(x1), old(Rung(C.V(x2), C.V(z2), C.V(x3), C.V(z3))))
  {
    hide C.V, Field.Mul, Field.Add, Field.Sub, P, C.A24;
    var A, AA, B, BB, E := DoublingParts(x2, z2);
    var DA, CB := CrossProducts(A, B, x3, z3);
    FinishSum(x3, z3, x1, DA, CB);
    FinishDouble(x2, z2, AA, BB, E);
  }

  // The mask of bit j of byte i of the scalar stands at bit t, and the pending swap is at the same place.
  ghost predicate AtBit(t: nat, sposn: nat, j: nat, mask: nat, swap: nat) {
    t == 8 * sposn + j && j < 8 && mask == Pow2(j) && (swap == 0 || swap == mask)
  }

  // Turn the pending swap into the swap for this bit.
  lemma SelectBit(s: Bytes, t: nat, sposn: nat, j: nat, mask: nat, swap: nat)
    requires |s| == 32 && t < 255 && AtBit(t, sposn, j, mask, swap)
    ensures sposn < 32 && And(s[sposn], mask) == if Bit(LE(s), t) then mask else 0
    ensures Xor(swap, And(s[sposn], mask)) < 0x100
    ensures Xor(swap, And(s[sposn], mask)) != 0 <==> (swap != 0) != Bit(LE(s), t)
  {
    assert sposn == t / 8 && j == t % 8;
    AndSingleBit(s[sposn], j);
    ByteBit(s, t);
    MaskBelow256(j);
    hide *;
    var select := And(s[sposn], mask);
    assert select == if Bit(LE(s), t) then mask else 0;
    XorEqual(swap, select);
    XorBound(swap, select, 8);
  }

  // Move the mask to the next lower bit. The bit that selected a swap moves with it: undoing that
  // swap is pending there.
  method NextBit(mask: Byte, sposn: Byte, select: Byte, ghost t: nat, ghost j: nat)
    returns (mask': Byte, sposn': Byte, swap: Byte, ghost j': nat)
    requires AtBit(t, sposn, j, mask, select)
    ensures t > 0 ==> AtBit(t - 1, sposn', j', mask', swap)
    ensures swap == 0 <==> select == 0
  {
    assert Pow2(7) == 0x80;
    mask', sposn' := mask / 2, sposn;
    if mask' == 0 {
      j' := 7;
      sposn' := (sposn + 255) % 256;
      mask' := 0x80;
      swap := (select * 128) % 256;
    } else {
      j' := j - 1;
      swap := select / 2;
    }
  }

  lemma MaskBelow256(j: nat)
    requires j < 8
    ensures Pow2(j) < Pow2(8) == 0x100
  {
    assert Pow2(0) == 1 && Pow2(1) == 2 && Pow2(2) == 4 && Pow2(3) == 8;
    assert Pow2(4) == 16 && Pow2(5) == 32 && Pow2(6) == 64 && Pow2(7) == 128;
  }

  method SwapRung(swap: Limb, x2: array<Limb>, z2: array<Limb>, x3: array<Limb>, z3: array<Limb>)
    requires x2.Length == z2.Length == x3.Length == z3.Length == 8
    requires x2 !in {z2, x3, z3} && z2 !in {x3, z3} && x3 != z3
    modifies x2, z2, x3, z3
    ensures var r := old(Rung(C.V(x2), C.V(z2), C.V(x3), C.V(z3)));
            Rung(C.V(x2), C.V(z2), C.V(x3), C.V(z3)) == if swap == 0 then r else r.Swapped()
  {
    C.CSwap(swap, x2, x3);
    C.CSwap(swap, z2, z3);
  }

  // One pass of the loop: the merged swap, then the step.
  method LadderPass(s: Bytes, sposn: Byte, mask: Byte, swap: Byte, x1: array<Limb>,
                    x2: array<Limb>, z2: array<Limb>, x3: array<Limb>, z3: array<Limb>,
                    ghost t: nat, ghost j: nat, ghost u: nat)
    returns (select: Byte)
    requires |s| == 32 && x1.Length == x2.Length == z2.Length == x3.Length == z3.Length == 8
    requires x1 !in {x2, z2, x3, z3} && x2 !in {z2, x3, z3} && z2 !in {x3, z3} && x3 != z3
    requires t < 255 && AtBit(t, sposn, j, mask, swap) && C.V(x1) == u < P
    requires var r := Rungs(LE(s), t + 1, u);
             Rung(C.V(x2), C.V(z2), C.V(x3), C.V(z3)) == if swap == 0 then r else r.Swapped()
    modifies x2, z2, x3, z3
    ensures AtBit(t, sposn, j, mask, select)
    ensures var r := Rungs(LE(s), t, u);
            Rung(C.V(x2), C.V(z2), C.V(x3), C.V(z3)) == if select == 0 then r else r.Swapped()
  {
    hide C.V, Step, And, Xor, Pow2, LE, Bit;
    select := SelectSwap(s, sposn, mask, swap, x2, z2, x3, z3, t, j, Rungs(LE(s), t + 1, u));
    LadderStep(x1, x2, z2, x3, z3);
  }

  // The 255 passes of the loop. The swap after each bit is put off and merged into the next.
  method RunLadder(s: Bytes, x1: array<Limb>, x2: array<Limb>, z2: array<Limb>, x3: array<Limb>, z3: array<Limb>)
    requires |s| == 32 && x1.Length == x2.Length == z2.Length == x3.Length == z3.Length == 8
    requires x1 !in {x2, z2, x3, z3} && x2 !in {z2, x3, z3} && z2 !in {x3, z3} && x3 != z3
    requires C.V(x1) < P && Rung(C.V(x2), C.V(z2), C.V(x3), C.V(z3)) == Rung(1, 0, C.V(x1), 1)
    modifies x2, z2, x3, z3
    ensures Rung(C.V(x2), C.V(z2), C.V(x3), C.V(z3)) == Rungs(LE(s), 0, C.V(x1))
  {
    var mask: Byte, sposn: Byte, swap: Byte := 0x40, 31, 0;
    ghost var u, j, r := C.V(x1), 6, Rungs(LE(s), 255, C.V(x1));
    assert Pow2(6) == 0x40;
    var t: nat := 255;
    hide C.V, Step, And, Xor, Pow2, LE, Bit, AtBit, Rungs;
    while t > 0
      invariant t <= 255 && (t > 0 ==> AtBit(t - 1, sposn, j, mask, swap))
      invariant r == Rungs(LE(s), t, u)
      invariant Rung(C.V(x2), C.V(z2), C.V(x3), C.V(z3)) == if swap == 0 then r else r.Swapped()
    {
      var select := LadderPass(s, sposn, mask, swap, x1, x2, z2, x3, z3, t - 1, j, u);
      r := Rungs(LE(s), t - 1, u);
      mask, sposn, swap, j := NextBit(mask, sposn, select, t - 1, j);
      t := t - 1;
    }
    SwapRung(swap, x2, z2, x3, z3);
  }

  // The swap on entry to a bit, merged with the one pending from the bit before.
  method SelectSwap(s: Bytes, sposn: Byte, mask: Byte, swap: Byte,
                    x2: array<Limb>, z2: array<Limb>, x3: array<Limb>, z3: array<Limb>,
                    ghost t: nat, ghost j: nat, ghost r: Rung)
    returns (select: Byte)
    requires |s| == 32 && x2.Length == z2.Length == x3.Length == z3.Length == 8
    requires x2 !in {z2, x3, z3} && z2 !in {x3, z3} && x3 != z3
    requires t < 255 && AtBit(t, sposn, j, mask, swap)
    requires Rung(C.V(x2), C.V(z2), C.V(x3), C.V(z3)) == if swap == 0 then r else r.Swapped()
    modifies x2, z2, x3, z3
    ensures select == if Bit(LE(s), t) then mask else 0
    ensures mask != 0
    ensures Rung(C.V(x2), C.V(z2), C.V(x3), C.V(z3)) == if Bit(LE(s), t) then r.Swapped() else r
  {
    SelectBit(s, t, sposn, j, mask, swap);
    select := And(s[sposn], mask);
    hide C.V, And, Xor, LE, Bit, Pow2;
    SwapRung(Xor(swap, select), x2, z2, x3, z3);
  }

  // The x-coordinate of a scalar multiple; no point means the base point 9. The result is false
  // exactly if x is not reduced, but the ladder then runs on the reduced x.
  method Eval(result: array<Byte>, s: Bytes, x: Option<Bytes>) returns (inField: bool)
    requires result.Length == 32 && |s| == 32 && (x.Some? ==> |x.value| == 32)
    modifies result
    ensures inField <==> MaskedPoint(x) < P
    ensures result[..] == ToLE(Ladder(LE(s), MaskedPoint(x) % P), 32)
  {
    hide C.V, Ladder, LE, ToLE;
    var x1 := new Limb[8];
    inField := UnpackPoint(x1, x);
    EvalUnpacked(result, s, x1);
  }

  // The rest of eval, on the reduced x.
  method EvalUnpacked(result: array<Byte>, s: Bytes, x1: array<Limb>)
    requires result.Length == 32 && |s| == 32 && x1.Length == 8 && C.V(x1) < P
    modifies result
    ensures result[..] == ToLE(Ladder(LE(s), old(C.V(x1))), 32)
  {
    hide C.V, Field.Mul, Rungs, LE, ToLE, Inv;
    var x2, z2, x3, z3 := new Limb[8], new Limb[8], new Limb[8], new Limb[8];
    C.SetSmall(x2, 1);
    C.SetSmall(z2, 0);
    C.Copy(x3, x1);
    C.SetSmall(z3, 1);
    RunLadder(s, x1, x2, z2, x3, z3);
    PackQuotient(result, x2, z2, z3);
  }

  method PackQuotient(result: array<Byte>, x2: array<Limb>, z2: array<Limb>, z3: array<Limb>)
    requires result.Length == 32 && x2.Length == z2.Length == z3.Length == 8
    requires x2 != z2 && z2 != z3 && x2 != z3
    modifies result, x2, z3
    ensures result[..] == ToLE(Field.Mul(old(C.V(x2)), Inv(C.V(z2))), 32)
  {
    hide C.V, Field.Mul, ToLE, Inv, LE;
    C.Recip(z3, z2);
    C.Mul(x2, x2, z3);
    C.PackNumber(result, 0, x2);
    assert result[0..32] == result[..];
  }

  // The number that eval unpacks from x, without its high bit.
  function MaskedPoint(x: Option<Bytes>): nat {
    match x
    case None => 9
    case Some(b) => if LE(b) < C.TOP then LE(b) else LE(b) - C.TOP
  }

  method UnpackPoint(x1: array<Limb>, x: Option<Bytes>) returns (inField: bool)
    requires x1.Length == 8 && (x.Some? ==> |x.value| == 32)
    modifies x1
    ensures inField <==> MaskedPoint(x) < P
    ensures C.V(x1) == MaskedPoint(x) % P
  {
    match x {
      case None =>
        C.SetSmall(x1, 9);
      case Some(b) =>
        C.UnpackNumber(x1, b);
        assert x1[..8] == x1[..];
        var high := C.TakeTopBit(x1);
        assert x1[..8] == x1[..];
    }
    var nmask := C.ReduceQuick(x1);
    inField := nmask % 2 == 1;
  }

  // ---- the two phases of a key exchange ----

  // The numbers that the table of isWeakPoint holds as bytes.
  const WEAK: seq<nat> := [
    0, 1,
    0x00b8495f16056286_fdb1329ceb8d09da_6ac49ff1fae35616_aeb8413b7c7aebe0,
    0x57119fd0dd4e22d8_868e1c58c45c4404_5bef839c55b1d0b1_248c50a3bc959c5f,
    P - 1]

  predicate Weak(k: Bytes) {
    MaskedPoint(Some(k)) in WEAK
  }

  // A string without its top bit.
  function Masked(k: Bytes): (b: Bytes)
    requires |k| == 32
    ensures |b| == 32
  {
    var last: Byte := k[31] % 128;
    k[31 := last]
  }

  lemma MaskedValue(k: Bytes)
    requires |k| == 32
    ensures LE(Masked(k)) == MaskedPoint(Some(k))
  {
    var low := k[..31];
    assert low + [k[31]] == k && low + [k[31] % 128] == Masked(k);
    LESnoc(low, k[31]);
    LESnoc(low, k[31] % 128);
    LEBound(low);
    C.FullIsPow2();
    hide LE, Pow2;
    Pow2Byte(248);
    SplitTop(LE(low), Pow2(248), k[31]);
  }

  lemma SplitTop(low: nat, m: nat, d: Byte)
    requires low < m && 256 * m == C.FULL
    ensures low + m * (d % 128) == if low + m * d < C.TOP then low + m * d else low + m * d - C.TOP
  {
    assert m == 0x100_0000_0000_0000_0000_0000_0000_0000_0000_0000_0000_0000_0000_0000_0000_0000;
  }

  lemma MaskedEqual(p: Byte, k: Byte)
    ensures AndByte(XorByte(p, k), 0x7F) == 0 <==> p % 128 == k % 128
  {
    hide And, Xor;
    assert Pow2(7) == 128;
    AndLowMask(XorByte(p, k), 7);
    XorLow(p, k, 7);
  }

  // One pass of the loop over the weak points; the bytes are compared from the top down.
  method Compare(point: Bytes, k: Bytes) returns (check: Byte)
    requires |point| == |k| == 32
    ensures check == 0 <==> Masked(point) == Masked(k)
  {
    MaskedEqual(point[31], k[31]);
    check := AndByte(XorByte(point[31], k[31]), 0x7F);
    var index := 31;
    while index > 0
      invariant 0 <= index <= 31
      invariant check == 0 <==> (point[31] % 128 == k[31] % 128 && forall i :: index <= i < 31 ==> point[i] == k[i])
    {
      OrIsZero(check, XorByte(point[index - 1], k[index - 1]));
      XorEqual(point[index - 1], k[index - 1]);
      hide Or, XorByte;
      check := OrByte(check, XorByte(point[index - 1], k[index - 1]));
      index := index - 1;
    }
    if check == 0 { assert Masked(point) == Masked(k); }
    if Masked(point) == Masked(k) {
      assert forall i :: 0 <= i < 31 ==> point[i] == Masked(point)[i] == k[i];
      assert Masked(point)[31] == Masked(k)[31];
    }
  }

  lemma WeakPoint(k: Bytes, posn: nat)
    requires |k| == 32 && posn < |WEAK|
    ensures Masked(ToLE(WEAK[posn], 32)) == Masked(k) <==> MaskedPoint(Some(k)) == WEAK[posn]
  {
    var w := WEAK[posn];
    var point := ToLE(w, 32);
    assert w < C.TOP < C.FULL;
    hide WEAK, LE, ToLE, Pow2;
    C.FullIsPow2();
    LEOfToLE(w, 32);
    MaskedValue(point);
    MaskedValue(k);
    if MaskedPoint(Some(k)) == w {
      ToLEOfLE(Masked(k));
      ToLEOfLE(Masked(point));
    }
  }

  // Whether a point, its top bit aside, is one of five of small order.
  method IsWeakPoint(k: Bytes) returns (result: Byte)
    requires |k| == 32
    ensures result == if Weak(k) then 1 else 0
  {
    result := 0;
    var posn := 0;
    while posn < 5
      invariant 0 <= posn <= 5
      invariant result == if MaskedPoint(Some(k)) in WEAK[..posn] then 1 else 0
    {
      hide ToLE, MaskedPoint;
      var check := Compare(ToLE(WEAK[posn], 32), k);
      WeakPoint(k, posn);
      assert WEAK[..posn + 1] == WEAK[..posn] + [WEAK[posn]];
      OrOfBits(result, (0x100 - check as int) / 0x100);
      result := OrByte(result, (0x100 - check as int) / 0x100);
      posn := posn + 1;
    }
    assert WEAK[..5] == WEAK;
  }

  lemma OrOfBits(a: Byte, b: Byte)
    requires a <= 1 && b <= 1
    ensures OrByte(a, b) == if a == 1 || b == 1 then 1 else 0
  {
    assert Or(0, 0) == 0 && Or(0, 1) == 1 && Or(1, 0) == 1 && Or(1, 1) == 1;
  }

  // What a key k from the other side and a secret f make.
  function Shared(f: Bytes, k: Bytes): (s: Bytes)
    ensures |s| == 32
  {
    ToLE(Ladder(LE(f), MaskedPoint(Some(k)) % P), 32)
  }

  function Public(f: Bytes): (k: Bytes)
    ensures |k| == 32
  {
    ToLE(Ladder(LE(f), 9), 32)
  }

  // The exchange fails if the other key is weak or not reduced, or the result is weak.
  predicate Contributory(f: Bytes, k: Bytes) {
    !Weak(k) && MaskedPoint(Some(k)) < P && !Weak(Shared(f, k))
  }

  method Dh2(k: array<Byte>, f: array<Byte>) returns (ok: bool)
    requires k.Length == f.Length == 32 && k != f
    modifies k, f
    ensures k[..] == Shared(old(f[..]), old(k[..]))
    ensures ok <==> old(Contributory(f[..], k[..]))
    ensures ok <==> old(!Weak(k[..]) && MaskedPoint(Some(k[..])) < P) && !Weak(k[..])
    ensures forall i :: 0 <= i < 32 ==> f[i] == 0
  {
    hide Ladder, LE, ToLE, WEAK, MaskedPoint;
    ghost var secret, point := f[..], k[..];
    var before := IsWeakPoint(k[..]);
    var inField := Eval(k, f[..], Some(k[..]));
    var during: Byte := if inField then 0 else 1;
    var after := IsWeakPoint(k[..]);
    OrOfBits(before, during);
    OrOfBits(OrByte(before, during), after);
    hide OrByte;
    var weak := OrByte(OrByte(before, during), after);
    forall i | 0 <= i < 32 { f[i] := 0; }
    ok := weak == 0;
  }

  method DrawSecret(f: array<Byte>, draw: Bytes)
    requires f.Length == |draw| == 32
    modifies f
    ensures f[..] == Clamp(draw)
  {
    hide Clamp;
    forall i | 0 <= i < 32 { f[i] := draw[i]; }
    assert f[..32] == draw;
    ClampBytes(f);
    assert f[..32] == f[..];
  }

  method EvalBase(k: array<Byte>, f: Bytes)
    requires k.Length == 32 && |f| == 32
    modifies k
    ensures k[..] == Public(f)
  {
    hide Ladder, LE, ToLE;
    ModSmall(9, P);
    var inField := Eval(k, f, None);
  }

  // Draws of the right size, one of which gives a public key that is not weak.
  ghost predicate Usable(draws: seq<Bytes>) {
    (forall i :: 0 <= i < |draws| ==> |draws[i]| == 32)
    && exists i :: 0 <= i < |draws| && !Weak(Public(Clamp(draws[i])))
  }

  // The secret that comes of them: the first of that kind.
  function Drawn(draws: seq<Bytes>): Bytes {
    if draws == [] || |draws[0]| != 32 then []
    else if Weak(Public(Clamp(draws[0]))) then Drawn(draws[1..])
    else Clamp(draws[0])
  }

  lemma {:induction false} DrawnIs(draws: seq<Bytes>, n: nat)
    requires n < |draws| && (forall i :: 0 <= i < |draws| ==> |draws[i]| == 32)
    requires !Weak(Public(Clamp(draws[n]))) && forall i :: 0 <= i < n ==> Weak(Public(Clamp(draws[i])))
    ensures Drawn(draws) == Clamp(draws[n])
  {
    hide Weak, Public, Clamp;
    if n == 0 {
    } else {
      DrawnIs(draws[1..], n - 1);
    }
  }

  // The secret is one of the draws but for five bits: a multiple of eight with 2^254 as its highest bit.
  lemma {:induction false} DrawnMeans(draws: seq<Bytes>) returns (i: nat)
    requires Usable(draws)
    ensures i < |draws| && Drawn(draws) == Clamp(draws[i]) && !Weak(Public(Drawn(draws)))
    ensures forall j :: 0 <= j < i ==> Weak(Public(Clamp(draws[j])))
    ensures var n := LE(Drawn(draws));
            && n % 8 == 0 && Pow2(254) <= n < Pow2(255)
            && forall t :: 3 <= t < 254 ==> Bit(n, t) == Bit(LE(draws[i]), t)
  {
    hide Weak, Public, Clamp, LE, Bit, Pow2;
    ClampMeans(draws[0]);
    if !Weak(Public(Clamp(draws[0]))) {
      i := 0;
    } else {
      var k :| 0 <= k < |draws| && !Weak(Public(Clamp(draws[k])));
      assert draws[1..][k - 1] == draws[k];
      var i' := DrawnMeans(draws[1..]);
      i := i' + 1;
      assert draws[1..][i'] == draws[i];
    }
  }

  // Draw secrets until the public key is not weak. The draws stand for the random number generator.
  method Dh1(k: array<Byte>, f: array<Byte>, draws: seq<Bytes>)
    requires k.Length == f.Length == 32 && k != f && Usable(draws)
    modifies k, f
    ensures f[..] == Drawn(draws) && k[..] == Public(f[..]) && !Weak(k[..])
  {
    hide Public, WEAK, Weak, Clamp, Drawn;
    var used := 0;
    while true
      invariant used < |draws|
      invariant forall i :: 0 <= i < used ==> Weak(Public(Clamp(draws[i])))
      decreases |draws| - used
    {
      DrawSecret(f, draws[used]);
      EvalBase(k, f[..]);
      var weak := IsWeakPoint(k[..]);
      if weak == 0 {
        DrawnIs(draws, used);
        return;
      }
      used := used + 1;
    }
  }
}
