/** The point operations of Ed25519.cpp, on limb buffers. */
module Points {
  import opened Arith
  import opened Bits
  import opened Bytes
  import opened Limbs
  import opened Field
  import opened Edwards
  import opened Group
  import C = Curve25519

  const NUM_DX2: seq<Limb> := [
    0x26B2F159, 0xEBD69B94, 0x8283B156, 0x00E0149A, 0xEEF3D130, 0x198E80F2, 0x56DFFCE7, 0x2406D9DC]

  lemma NumDx2()
    ensures |NUM_DX2| == 8 && Val(NUM_DX2) == D2
  {
    hide Val;
    Val8(NUM_DX2);
  }

  // The four coordinates of the struct Point.
  class Buffer {
    const x: array<Limb>
    const y: array<Limb>
    const z: array<Limb>
    const t: array<Limb>

    ghost predicate Valid() {
      && x.Length == y.Length == z.Length == t.Length == 8
      && x !in {y, z, t} && y !in {z, t} && z != t
    }

    ghost function Arrays(): set<array<Limb>> {
      {x, y, z, t}
    }

    ghost function Value(): Ext
      requires Valid()
      reads x, y, z, t
    {
      Ext(C.V(x), C.V(y), C.V(z), C.V(t))
    }

    // What the arithmetic needs of an operand: only y may be left unreduced, as decoding does.
    ghost predicate Loose()
      requires Valid()
      reads x, y, z, t
    {
      C.V(x) < P && C.V(y) < C.TOP && C.V(z) < P && C.V(t) < P
    }

    constructor ()
      ensures Valid() && fresh(Arrays())
    {
      x := new Limb[8];
      y := new Limb[8];
      z := new Limb[8];
      t := new Limb[8];
    }
  }

  // The unreduced difference and sum stand for the same elements as the reduced ones.
  lemma WideTerms(y: nat, x: nat, s: nat, a: nat)
    requires s == (if x <= y then y - x else (y as int) - x + P)
    requires a == (if y + x < P then y + x else y + x - P)
    ensures Eq(s, Sub(y, x)) && Eq(a, Field.Add(y, x))
  {
    EqIsMod(s, Sub(y, x));
    EqIsMod(a, Field.Add(y, x));
    hide P, Eq;
    var m: int := P;
    ModShift((y as int) - x, m, 1);
    ModShift(y + x, m, -1);
    ModAdd((y as int) - x, 0, m);
    ModAdd(y + x, 0, m);
  }

  // A and B of the addition: (y1 - x1)(y2 - x2) and (y1 + x1)(y2 + x2).
  method ProductsAB(x1: array<Limb>, y1: array<Limb>, x2: array<Limb>, y2: array<Limb>)
    returns (A: array<Limb>, B: array<Limb>)
    requires x1.Length == y1.Length == x2.Length == y2.Length == 8
    requires C.V(x1) < P && C.V(y1) < C.TOP && C.V(x2) < P && C.V(y2) < C.TOP
    ensures fresh({A, B}) && A != B && A.Length == B.Length == 8
    ensures C.V(A) == Mul(Sub(C.V(y1), C.V(x1)), Sub(C.V(y2), C.V(x2)))
    ensures C.V(B) == Mul(Field.Add(C.V(y1), C.V(x1)), Field.Add(C.V(y2), C.V(x2)))
  {
    hide C.V, Mul, Sub, Field.Add, Eq;
    A, B := new Limb[8], new Limb[8];
    var c := new Limb[8];
    C.SubWide(A, y1, x1);
    C.SubWide(c, y2, x2);
    ghost var s1, s2 := C.V(A), C.V(c);
    C.Mul(A, A, c);
    C.AddWide(B, y1, x1);
    C.AddWide(c, y2, x2);
    WideTerms(C.V(y1), C.V(x1), s1, C.V(B));
    WideTerms(C.V(y2), C.V(x2), s2, C.V(c));
    SameMul(s1, Sub(C.V(y1), C.V(x1)), s2, Sub(C.V(y2), C.V(x2)));
    SameMul(C.V(B), Field.Add(C.V(y1), C.V(x1)), C.V(c), Field.Add(C.V(y2), C.V(x2)));
    C.Mul(B, B, c);
  }

  // The same with one point twice.
  method SquaresAB(x1: array<Limb>, y1: array<Limb>) returns (A: array<Limb>, B: array<Limb>)
    requires x1.Length == y1.Length == 8 && C.V(x1) < P && C.V(y1) < C.TOP
    ensures fresh({A, B}) && A != B && A.Length == B.Length == 8
    ensures C.V(A) == Mul(Sub(C.V(y1), C.V(x1)), Sub(C.V(y1), C.V(x1)))
    ensures C.V(B) == Mul(Field.Add(C.V(y1), C.V(x1)), Field.Add(C.V(y1), C.V(x1)))
  {
    hide C.V, Mul, Sub, Field.Add, Eq;
    A, B := new Limb[8], new Limb[8];
    C.SubWide(A, y1, x1);
    C.AddWide(B, y1, x1);
    WideTerms(C.V(y1), C.V(x1), C.V(A), C.V(B));
    SameMul(C.V(A), Sub(C.V(y1), C.V(x1)), C.V(A), Sub(C.V(y1), C.V(x1)));
    SameMul(C.V(B), Field.Add(C.V(y1), C.V(x1)), C.V(B), Field.Add(C.V(y1), C.V(x1)));
    C.Square(A, A);
    C.Square(B, B);
  }

  // C and D of the addition: 2 d t1 t2 and 2 z1 z2.
  method ProductsCD(t1: array<Limb>, z1: array<Limb>, t2: array<Limb>, z2: array<Limb>)
    returns (c: array<Limb>, d: array<Limb>)
    requires t1.Length == z1.Length == t2.Length == z2.Length == 8
    ensures fresh({c, d}) && c != d && c.Length == d.Length == 8
    ensures C.V(c) == Mul(Mul(C.V(t1), C.V(t2)), D2)
    ensures C.V(d) == Field.Add(Mul(C.V(z1), C.V(z2)), Mul(C.V(z1), C.V(z2)))
  {
    NumDx2();
    hide *;
    c, d := new Limb[8], new Limb[8];
    C.Mul(c, t1, t2);
    C.MulP(c, c, NUM_DX2);
    C.Mul(d, z1, z2);
    C.Add(d, d, d);
  }

  // E = B - A, F = D - C, G = D + C and H = B + A; E and F go to e and f, G to d and H to B.
  method TermsEFGH(e: array<Limb>, f: array<Limb>, A: array<Limb>, B: array<Limb>, c: array<Limb>, d: array<Limb>)
    requires e.Length == f.Length == A.Length == B.Length == c.Length == d.Length == 8
    requires e !in {f, A, B, c, d} && f !in {A, B, c, d} && A !in {B, d} && B !in {c, d} && c != d
    requires C.V(A) < P && C.V(B) < P && C.V(c) < P && C.V(d) < P
    modifies e, f, d, B
    ensures C.V(e) == Sub(old(C.V(B)), C.V(A)) && C.V(f) == Sub(old(C.V(d)), C.V(c))
    ensures C.V(d) == Field.Add(old(C.V(d)), C.V(c)) && C.V(B) == Field.Add(old(C.V(B)), C.V(A))
  {
    hide C.V, Sub, Field.Add;
    C.Sub(e, B, A);
    C.Sub(f, d, c);
    C.Add(d, d, c);
    C.Add(B, B, A);
  }

  // The four products, where E and F may lie in the t and z of the result.
  method ProductsEFGH(r: Buffer, e: array<Limb>, f: array<Limb>, g: array<Limb>, h: array<Limb>)
    requires r.Valid() && e.Length == f.Length == g.Length == h.Length == 8
    requires g !in r.Arrays() && h !in r.Arrays()
    requires e !in {r.x, r.y, r.z} && f !in {r.x, r.y, r.t} && e != f
    modifies r.x, r.y, r.z, r.t
    ensures r.Value() == old(Products(C.V(e), C.V(f), C.V(g), C.V(h)))
  {
    hide C.V, Mul;
    C.Mul(r.x, e, f);
    C.Mul(r.y, g, h);
    C.Mul(r.z, f, g);
    C.Mul(r.t, e, h);
  }

  // Up to E, F, G and H; e and f may be the t and z of an operand.
  method AddTerms(p: Buffer, q: Buffer, e: array<Limb>, f: array<Limb>) returns (g: array<Limb>, h: array<Limb>)
    requires p.Valid() && q.Valid() && p.Loose() && q.Loose()
    requires e.Length == f.Length == 8 && e != f
    modifies e, f
    ensures fresh({g, h}) && g.Length == h.Length == 8
    ensures Products(C.V(e), C.V(f), C.V(g), C.V(h)) == old(ExtAdd(p.Value(), q.Value()))
  {
    hide C.V, Mul, Sub, Field.Add, Products;
    var A, B := ProductsAB(p.x, p.y, q.x, q.y);
    var c, d := ProductsCD(p.t, p.z, q.t, q.z);
    TermsEFGH(e, f, A, B, c, d);
    g, h := d, B;
  }

  method DoubleTerms(p: Buffer) returns (g: array<Limb>, h: array<Limb>)
    requires p.Valid() && p.Loose()
    modifies p.t, p.z
    ensures fresh({g, h}) && g.Length == h.Length == 8
    ensures Products(C.V(p.t), C.V(p.z), C.V(g), C.V(h)) == old(ExtAdd(p.Value(), p.Value()))
  {
    hide C.V, Mul, Sub, Field.Add, Products;
    var A, B := SquaresAB(p.x, p.y);
    var c, d := ProductsCD(p.t, p.z, p.t, p.z);
    TermsEFGH(p.t, p.z, A, B, c, d);
    g, h := d, B;
  }

  // p becomes p + q.
  method Add(p: Buffer, q: Buffer)
    requires p.Valid() && q.Valid() && p.Loose() && q.Loose()
    modifies p.x, p.y, p.z, p.t
    ensures p.Value() == old(ExtAdd(p.Value(), q.Value()))
  {
    hide C.V, ExtAdd, Products;
    var g, h := AddTerms(p, q, p.t, p.z);
    ProductsEFGH(p, p.t, p.z, g, h);
  }

  method Double(p: Buffer)
    requires p.Valid() && p.Loose()
    modifies p.x, p.y, p.z, p.t
    ensures p.Value() == old(ExtAdd(p.Value(), p.Value()))
  {
    hide C.V, ExtAdd, Products;
    var g, h := DoubleTerms(p);
    ProductsEFGH(p, p.t, p.z, g, h);
  }

  // The branch of mul for a set bit, and for every bit in constant time: the sum goes to q, and moves
  // to the result if the bit is set; otherwise it goes to the result at once.
  method AddIf(result: Buffer, p: Buffer, q: Buffer, select: Limb, constTime: bool)
    requires result.Valid() && p.Valid() && q.Valid() && result.Loose() && p.Loose()
    requires result.Arrays() !! p.Arrays() && q.Arrays() !! result.Arrays() + p.Arrays()
    modifies result.Arrays(), q.Arrays()
    ensures result.Value() == old(if select == 0 then result.Value() else ExtAdd(result.Value(), p.Value()))
  {
    if constTime || select != 0 {
      hide C.V, ExtAdd, Products;
      var g, h := AddTerms(result, p, q.t, q.z);
      if constTime {
        ProductsEFGH(q, q.t, q.z, g, h);
        MovePoint(select, result, q);
      } else {
        ProductsEFGH(result, q.t, q.z, g, h);
      }
    }
  }

  method MovePoint(select: Limb, result: Buffer, q: Buffer)
    requires result.Valid() && q.Valid() && result.Arrays() !! q.Arrays()
    modifies result.Arrays()
    ensures result.Value() == if select == 0 then old(result.Value()) else q.Value()
  {
    hide C.V;
    C.CMove(select, result.x, q.x);
    C.CMove(select, result.y, q.y);
    C.CMove(select, result.z, q.z);
    C.CMove(select, result.t, q.t);
  }

  // The mask stands at bit t of the scalar.
  ghost predicate AtBit(t: nat, sposn: nat, j: nat, mask: nat) {
    t == 32 * sposn + j && j < 32 && mask == Pow2(j)
  }

  lemma SelectBit(s: seq<Limb>, t: nat, sposn: nat, j: nat, mask: nat)
    requires |s| == 8 && t < 255 && AtBit(t, sposn, j, mask)
    ensures sposn < 8 && (And(s[sposn], mask) != 0 <==> (Val(s) / Pow2(t)) % 2 == 1)
  {
    hide And, Pow2, Val;
    assert sposn == t / 32 && j == t % 32;
    AndSingleBit(s[sposn], j);
    LimbBit(s, t);
  }

  // Bit t of a number is bit t % 32 of limb t / 32.
  lemma {:induction false} LimbBit(s: seq<Limb>, t: nat)
    requires t < 32 * |s|
    ensures Bit(Val(s), t) == Bit(s[t / 32], t % 32)
  {
    if t >= 32 {
      LimbBit(s[1..], t - 32);
      assert s[1..][(t - 32) / 32] == s[t / 32];
      hide *;
      SkipLimb(s, t);
    } else {
      LowBit(s[0], Val(s[1..]), 32, t);
      Pow2Of32();
    }
  }

  lemma SkipLimb(s: seq<Limb>, t: nat)
    requires t >= 32 && |s| > 0
    ensures Bit(Val(s), t) == Bit(Val(s[1..]), t - 32)
  {
    hide Pow2;
    Pow2Limb(t - 32);
    DivLimb(Val(s), Pow2(t - 32));
  }

  lemma Pow2Limb(n: nat)
    ensures Pow2(n + 32) == 0x1_0000_0000 * Pow2(n)
  {
    Pow2Byte(n);
    Pow2Byte(n + 8);
    Pow2Byte(n + 16);
    Pow2Byte(n + 24);
  }

  lemma DivLimb(a: nat, m: nat)
    requires m > 0
    ensures a / (0x1_0000_0000 * m) == (a / 0x1_0000_0000) / m
  {
    var q, r := (a / 0x1_0000_0000) / m, (a / 0x1_0000_0000) % m;
    DivMod(a / 0x1_0000_0000, m);
    assert a == 0x1_0000_0000 * (m * q) + (0x1_0000_0000 * r + a % 0x1_0000_0000);
    MulAssoc(0x1_0000_0000, m, q);
    ModUnique(a, 0x1_0000_0000 * m, q, 0x1_0000_0000 * r + a % 0x1_0000_0000);
  }

  method NextBit(mask: Limb, sposn: nat, ghost t: nat, ghost j: nat) returns (mask': Limb, sposn': nat, ghost j': nat)
    requires AtBit(t, sposn, j, mask)
    ensures AtBit(t + 1, sposn', j', mask')
  {
    Pow2Of32();
    if mask != 0x8000_0000 {
      MaskFits(j);
      mask', sposn', j' := (2 * mask) % 0x1_0000_0000, sposn, j + 1;
    } else {
      MaskFits(j);
      mask', sposn', j' := 1, sposn + 1, 0;
    }
  }

  lemma {:induction false} MaskGrows(j: nat, k: nat)
    requires j < k
    ensures 2 * Pow2(j) <= Pow2(k)
  {
    if j + 1 == k {
    } else {
      MaskGrows(j, k - 1);
    }
  }

  // Only bit 31 has the largest mask.
  lemma MaskFits(j: nat)
    requires j < 32
    ensures j == 31 <==> Pow2(j) == 0x8000_0000
    ensures j < 31 ==> 2 * Pow2(j) == Pow2(j + 1) <= 0x8000_0000
  {
    Pow2Of32();
    if j < 31 {
      MaskGrows(j, 31);
      assert Pow2(j) < 0x8000_0000;
    }
  }

  lemma NextRest(v: nat, i: nat)
    ensures v / Pow2(i + 1) == (v / Pow2(i)) / 2 && v / Pow2(i) >= 0
  {
    HalfOfQuotient(v, Pow2(i));
    hide Pow2;
    DivMod(v, Pow2(i));
    if v / Pow2(i) < 0 { MulMono(Pow2(i), v / Pow2(i), -1); }
    Pow2Step(i);
  }

  lemma Pow2Step(i: nat)
    ensures Pow2(i + 1) == 2 * Pow2(i) && Pow2(0) == 1
  {
  }

  method Select(s: array<Limb>, sposn: nat, mask: Limb, ghost i: nat, ghost j: nat) returns (select: Limb)
    requires s.Length == 8 && i < 255 && AtBit(i, sposn, j, mask)
    ensures select == 0 <==> (C.V(s) / Pow2(i)) % 2 == 0
  {
    SelectBit(s[..], i, sposn, j, mask);
    AndBound(s[sposn], mask);
    hide And, Pow2, Val;
    select := And(s[sposn], mask);
  }

  lemma StartBit(v: nat)
    ensures AtBit(0, 0, 0, 1) && v / Pow2(0) == v
  {
    ModUnique(v, 1, v, 0);
  }

  lemma IdentityLoose(p: Buffer)
    requires p.Valid() && p.Value() == IDENTITY
    ensures p.Loose()
  {
    hide C.V;
  }

  method SetIdentity(p: Buffer)
    requires p.Valid()
    modifies p.Arrays()
    ensures p.Value() == IDENTITY
  {
    hide C.V;
    C.SetSmall(p.x, 0);
    C.SetSmall(p.y, 1);
    C.SetSmall(p.z, 1);
    C.SetSmall(p.t, 0);
  }

  // One pass of the loop: add if bit i is set, then double.
  method MulStep(result: Buffer, s: array<Limb>, p: Buffer, q: Buffer, sposn: nat, mask: Limb, constTime: bool,
                 ghost i: nat, ghost j: nat)
    requires result.Valid() && p.Valid() && q.Valid() && result.Loose() && p.Loose()
    requires result.Arrays() !! p.Arrays() && q.Arrays() !! result.Arrays() + p.Arrays()
    requires s.Length == 8 && s !in result.Arrays() + p.Arrays() + q.Arrays()
    requires i < 255 && AtBit(i, sposn, j, mask)
    modifies result.Arrays(), p.Arrays(), q.Arrays()
    ensures result.Loose() && p.Loose() && C.V(s) == old(C.V(s))
    ensures result.Value() == old(if (C.V(s) / Pow2(i)) % 2 == 0 then result.Value() else ExtAdd(result.Value(), p.Value()))
    ensures p.Value() == old(ExtAdd(p.Value(), p.Value()))
  {
    hide C.V, ExtAdd, And, Pow2, Val, AtBit;
    var select := Select(s, sposn, mask, i, j);
    AddIf(result, p, q, select, constTime);
    Double(p);
  }

  // The low 255 bits of s times p, from the lowest bit up; p is used up.
  method MulPoint(result: Buffer, s: array<Limb>, p: Buffer, constTime: bool)
    requires result.Valid() && p.Valid() && p.Loose() && s.Length == 8
    requires result.Arrays() !! p.Arrays() && s !in result.Arrays() + p.Arrays()
    modifies result.Arrays(), p.Arrays()
    ensures result.Value() == old(DoubleAndAdd(C.V(s), 255, IDENTITY, p.Value())) && result.Loose()
  {
    hide C.V, ExtAdd, DoubleAndAdd, Pow2, AtBit, Buffer.Loose, Buffer.Value;
    ghost var v := C.V(s);
    ghost var goal := DoubleAndAdd(v, 255, IDENTITY, p.Value());
    var q := new Buffer();
    SetIdentity(result);
    IdentityLoose(result);
    var mask: Limb, sposn: nat := 1, 0;
    ghost var j := 0;
    StartBit(v);
    var t := 255;
    while t > 0
      invariant 0 <= t <= 255 && C.V(s) == v
      invariant AtBit(255 - t, sposn, j, mask)
      invariant result.Loose() && p.Loose()
      invariant 0 <= v / Pow2(255 - t) && DoubleAndAdd(v / Pow2(255 - t), t, result.Value(), p.Value()) == goal
    {
      ghost var i, acc, d := 255 - t, result.Value(), p.Value();
      MulStep(result, s, p, q, sposn, mask, constTime, i, j);
      DoubleAndAddNext(v / Pow2(i), t, acc, d);
      NextRest(v, i);
      mask, sposn, j := NextBit(mask, sposn, i, j);
      t := t - 1;
    }
    DoubleAndAddNext(v / Pow2(255), 0, result.Value(), p.Value());
  }

  const NUM_BX: seq<Limb> := [
    0x8F25D51A, 0xC9562D60, 0x9525A7B2, 0x692CC760, 0xFDD6DC5C, 0xC0A4E231, 0xCD6E53FE, 0x216936D3]
  const NUM_BY: seq<Limb> := [
    0x66666658, 0x66666666, 0x66666666, 0x66666666, 0x66666666, 0x66666666, 0x66666666, 0x66666666]
  const NUM_BZ: seq<Limb> := [1, 0, 0, 0, 0, 0, 0, 0]
  const NUM_BT: seq<Limb> := [
    0xA5B7DDA3, 0x6DDE8AB3, 0x775152F5, 0x20F09F80, 0x64ABE37D, 0x66EA4E8E, 0xD78B7665, 0x67875F0F]

  const BX: nat := 0x216936d3cd6e53fe_c0a4e231fdd6dc5c_692cc7609525a7b2_c9562d608f25d51a
  const BY: nat := 0x6666666666666666_6666666666666666_6666666666666666_6666666666666658
  const BT: nat := 0x67875f0fd78b7665_66ea4e8e64abe37d_20f09f80775152f5_6dde8ab3a5b7dda3

  // The base point.
  const B := Point(BX, BY)
  const BASE := Ext(BX, BY, 1, BT)

  lemma BaseLimbs()
    ensures |NUM_BX| == |NUM_BY| == |NUM_BZ| == |NUM_BT| == 8
    ensures Val(NUM_BX) == BX && Val(NUM_BY) == BY && Val(NUM_BZ) == 1 && Val(NUM_BT) == BT
  {
    hide Val;
    Val8(NUM_BX);
    Val8(NUM_BY);
    Val8(NUM_BZ);
    Val8(NUM_BT);
  }

  lemma BaseRepresents()
    ensures BASE.Represents(B) && OnCurve(D, B)
  {
    EqIsMod(BX, BX * 1);
    EqIsMod(BY, BY * 1);
    EqIsMod(BT, (BX * BY) * 1);
    EqIsMod(BY * BY - BX * BX, 1 + Cross(D, B, B));
    hide Eq;
  }

  // memcpy_P of a constant.
  method Load(a: array<Limb>, c: seq<Limb>)
    requires a.Length == 8 && |c| == 8
    modifies a
    ensures C.V(a) == Val(c)
  {
    forall i | 0 <= i < 8 { a[i] := c[i]; }
    assert a[..] == c;
  }

  method LoadBase(p: Buffer)
    requires p.Valid()
    modifies p.Arrays()
    ensures p.Value() == BASE && p.Loose()
  {
    BaseLimbs();
    hide C.V, NUM_BX, NUM_BY, NUM_BZ, NUM_BT;
    Load(p.x, NUM_BX);
    Load(p.y, NUM_BY);
    Load(p.z, NUM_BZ);
    Load(p.t, NUM_BT);
  }

  method MulBase(result: Buffer, s: array<Limb>, constTime: bool)
    requires result.Valid() && s.Length == 8 && s !in result.Arrays()
    modifies result.Arrays()
    ensures result.Value() == DoubleAndAdd(old(C.V(s)), 255, IDENTITY, BASE) && result.Loose()
  {
    hide C.V, DoubleAndAdd, BASE;
    var p := new Buffer();
    LoadBase(p);
    MulPoint(result, s, p, constTime);
  }

  predicate SameAffine(p: Ext, q: Ext) {
    Mul(p.X, q.Z) == Mul(q.X, p.Z) && Mul(p.Y, q.Z) == Mul(q.Y, p.Z)
  }

  method Equal(p: Buffer, q: Buffer) returns (same: bool)
    requires p.Valid() && q.Valid()
    ensures same <==> SameAffine(p.Value(), q.Value())
  {
    hide C.V, Mul;
    var a, b := new Limb[8], new Limb[8];
    C.Mul(a, p.x, q.z);
    C.Mul(b, q.x, p.z);
    same := C.SameLimbs(a, b);
    C.Mul(a, p.y, q.z);
    C.Mul(b, q.y, p.z);
    var sameY := C.SameLimbs(a, b);
    same := same && sameY;
  }

  // Cross-multiplied equality is equality of the points represented.
  lemma SameAffineIsEqual(p: Ext, q: Ext, u: Point, v: Point)
    requires PrimeP() && p.Represents(u) && q.Represents(v) && u.x < P && u.y < P && v.x < P && v.y < P
    ensures SameAffine(p, q) <==> u == v
  {
    EqIsMod(p.X * q.Z, q.X * p.Z);
    EqIsMod(p.Y * q.Z, q.Y * p.Z);
    ModSmall(p.Z, P);
    ModSmall(q.Z, P);
    hide PrimeP, Eq, P;
    CrossEqual(p.X, p.Z, u.x, q.X, q.Z, v.x);
    CrossEqual(p.Y, p.Z, u.y, q.Y, q.Z, v.y);
  }

  lemma CrossEqual(X: int, Z: int, x: nat, X': int, Z': int, x': nat)
    requires PrimeP() && Eq(X, x * Z) && Eq(X', x' * Z') && Z % P != 0 && Z' % P != 0 && x < P && x' < P
    ensures Eq(X * Z', X' * Z) <==> x == x'
  {
    var z := Z * Z';
    assert Mul(Z, Z') == z % P;
    EqIsMod(z * x, z * x');
    assert Mul(z, x) == (z * x) % P && Mul(z, x') == (z * x') % P;
    hide Eq, Mul, PrimeP, P;
    EqRules(z, z);
    CrossTerm(X, Z, x, Z', z);
    MulComm(Z, Z');
    CrossTerm(X', Z', x', Z, z);
    if z % P == 0 { NoZeroDivisors(Z, Z'); }
    if x == x' { EqTransSym(X * Z', z * x, X' * Z); }
    if Eq(X * Z', X' * Z) {
      EqRules(X * Z', z * x);
      EqTrans(z * x, X * Z', X' * Z);
      EqTrans(z * x, X' * Z, z * x');
      Cancel(z, x, x');
    }
  }

  lemma CrossTerm(X: int, Z: int, x: int, Z': int, z: int)
    requires Eq(X, x * Z) && Eq(z, Z * Z')
    ensures Eq(X * Z', z * x)
  {
    hide Eq;
    EqRules(Z', Z');
    EqRules(x, x);
    EqMul(X, x * Z, Z', Z');
    EqMul(z, Z * Z', x, x);
    assert (x * Z) * Z' == (Z * Z') * x;
    EqTransSym(X * Z', (Z * Z') * x, z * x);
  }
}
