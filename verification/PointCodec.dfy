/** encodePoint and decodePoint of Ed25519.cpp. */
module PointCodec {
  import opened Arith
  import opened Bits
  import opened Bytes
  import opened Limbs
  import opened Field
  import opened Edwards
  import opened Encoding
  import opened Options
  import opened Points
  import C = Curve25519

  // The point that extended coordinates stand for.
  function Affine(e: Ext): Point {
    Point(Mul(e.X, Inv(e.Z)), Mul(e.Y, Inv(e.Z)))
  }

  lemma AffineIs(e: Ext, u: Point)
    requires PrimeP() && e.Represents(u) && u.x < P && u.y < P
    ensures Affine(e) == u
  {
    ModSmall(e.Z, P);
    hide PrimeP, Mul, Inv, Eq;
    var i := Inv(e.Z);
    InvWorks(e.Z);
    Reduced(e.Z, i);
    EqRules(1, e.Z * i);
    Quotient(e.X, e.Z, i, u.x);
    Quotient(e.Y, e.Z, i, u.y);
    Reduced(e.X, i);
    Reduced(e.Y, i);
    EqTrans(Mul(e.X, i), e.X * i, u.x);
    EqTrans(Mul(e.Y, i), e.Y * i, u.y);
    SameReduced(Mul(e.X, i), u.x);
    SameReduced(Mul(e.Y, i), u.y);
  }

  lemma Quotient(X: nat, Z: nat, i: nat, x: nat)
    requires Eq(X, x * Z) && Eq(Z * i, 1)
    ensures Eq(X * i, x)
  {
    hide Eq;
    EqRules(i, i);
    EqRules(x, x);
    EqMul(X, x * Z, i, i);
    EqMul(x, x, Z * i, 1);
    assert (x * Z) * i == x * (Z * i) && x * 1 == x;
    EqTrans(X * i, x * (Z * i), x);
  }

  // The lowest bit of x, moved to the top bit of y.
  lemma SignBit(xs: seq<Limb>, ys: seq<Limb>)
    requires |xs| == |ys| == 8 && Val(ys) < P
    ensures var h := Or(ys[7], (0x8000_0000 * (xs[0] as int)) % 0x1_0000_0000);
            h < 0x1_0000_0000 && Val(ys[7 := h]) == Val(ys) + C.TOP * (Val(xs) % 2)
  {
    HighLimb(ys);
    var b := xs[0] % 2;
    assert (0x8000_0000 * (xs[0] as int)) % 0x1_0000_0000 == 0x8000_0000 * b;
    Pow2Of32();
    OrHighBit(ys[7], b, 31);
    assert Val(xs) % 2 == b;
    hide Or, Val, Pow2;
    HighLimbValue(ys, ys[7] + 0x8000_0000 * b);
  }

  lemma HighLimbValue(ys: seq<Limb>, h: Limb)
    requires |ys| == 8
    ensures Val(ys[7 := h]) == Val(ys) + 0x1_0000_0000_0000_0000_0000_0000_0000_0000_0000_0000_0000_0000_0000_0000 * ((h as int) - ys[7])
  {
    hide Val;
    Val8(ys);
    Val8(ys[7 := h]);
  }

  lemma HighLimb(ys: seq<Limb>)
    requires |ys| == 8 && Val(ys) < P
    ensures ys[7] < 0x8000_0000
  {
    hide Val;
    Val8(ys);
  }

  lemma {:induction false} OrHighBit(a: nat, b: nat, n: nat)
    requires a < Pow2(n) && b <= 1
    ensures Or(a, Pow2(n) * b) == a + Pow2(n) * b
  {
    if n == 0 {
      OrZero(b);
    } else {
      assert Pow2(n) * b == 2 * (Pow2(n - 1) * b) by { MulAssoc(2, Pow2(n - 1), b); }
      OrHighBit(a / 2, b, n - 1);
    }
  }

  // The point is used up.
  method EncodePoint(buf: array<Byte>, at: nat, point: Buffer)
    requires point.Valid() && point.Loose() && at + 32 <= buf.Length
    modifies buf, point.Arrays()
    ensures buf[at..at + 32] == Encode(Affine(old(point.Value())))
    ensures forall k :: 0 <= k < buf.Length && !(at <= k < at + 32) ==> buf[k] == old(buf[k])
  {
    hide C.V, Mul, Inv, ToLE;
    C.Recip(point.t, point.z);
    C.Mul(point.x, point.x, point.t);
    C.Mul(point.y, point.y, point.t);
    SetSign(point.x, point.y);
    C.PackNumber(buf, at, point.y);
  }

  method SetSign(x: array<Limb>, y: array<Limb>)
    requires x.Length == y.Length == 8 && x != y && C.V(y) < P
    modifies y
    ensures C.V(y) == old(C.V(y)) + C.TOP * (C.V(x) % 2)
  {
    ghost var ys := y[..];
    SignBit(x[..], ys);
    hide Val, Or;
    y[7] := Or(y[7], (0x8000_0000 * (x[0] as int)) % 0x1_0000_0000);
    assert y[..] == ys[7 := y[7]];
  }

  const NUM_D: seq<Limb> := [
    0x135978A3, 0x75EB4DCA, 0x4141D8AB, 0x00700A4D, 0x7779E898, 0x8CC74079, 0x2B6FFE73, 0x52036CEE]

  lemma NumD()
    ensures |NUM_D| == 8 && Val(NUM_D) == D
  {
    hide Val;
    Val8(NUM_D);
  }

  // Unpack y and take the sign off its top bit.
  method UnpackY(y: array<Limb>, b: Bytes) returns (sign: Limb)
    requires y.Length == 8 && |b| == 32
    modifies y
    ensures C.V(y) == LowBits(LE(b)) < C.TOP && sign == if LE(b) < C.TOP then 0 else 1
  {
    hide LE, Val;
    C.UnpackNumber(y, b);
    ghost var v := C.V(y);
    assert y[..8] == y[..];
    sign := y[7] / 0x8000_0000;
    C.TopBit(y[..]);
    var high := C.TakeTopBit(y);
    assert y[..8] == y[..];
  }

  // t = (y y - 1) / (d y y + 1).
  method ComputeT(point: Buffer)
    requires point.Valid() && C.V(point.y) < C.TOP && C.V(point.z) == 1
    modifies point.t, point.x
    ensures C.V(point.t) == XSquared(C.V(point.y))
  {
    NumD();
    hide C.V, Mul, Sub, Field.Add, Inv, D, Val, NUM_D;
    var temp := new Limb[8];
    C.Square(point.t, point.y);
    C.Sub(point.x, point.t, point.z);
    C.MulP(point.t, point.t, NUM_D);
    C.Add(point.t, point.t, point.z);
    C.Recip(temp, point.t);
    C.Mul(point.t, point.x, temp);
  }

  method IsZero(x: array<Limb>) returns (zero: bool)
    requires x.Length == 8
    ensures zero <==> C.V(x) == 0
  {
    var check: Limb := x[0];
    var posn := 1;
    while posn < 8
      invariant 1 <= posn <= 8
      invariant check == 0 <==> forall k :: 0 <= k < posn ==> x[k] == 0
    {
      OrIsZero(check, x[posn]);
      OrLimb(check, x[posn]);
      check := Or(check, x[posn]);
      posn := posn + 1;
    }
    zero := check == 0;
    ValZeros(8);
    if zero { assert x[..] == Zeros(8); }
    if C.V(x) == 0 { ValInjective(x[..], Zeros(8)); }
  }

  lemma OrLimb(a: Limb, b: Limb)
    ensures Or(a, b) < 0x1_0000_0000
  {
    Pow2Of32();
    OrBound(a, b, 32);
  }

  // The root with the sign asked for.
  method FixSign(point: Buffer, sign: Limb)
    requires point.Valid() && C.V(point.x) < P
    modifies point.x, point.t
    ensures C.V(point.x) == old(if C.V(point.x) % 2 == sign then C.V(point.x) else Sub(0, C.V(point.x)))
  {
    var parity := And(point.x[0], 1);
    AndSingleBit(point.x[0], 0);
    LowestBit(point.x[..]);
    hide And, Val, Sub;
    if sign != parity {
      C.SetSmall(point.t, 0);
      C.Sub(point.x, point.t, point.x);
    }
  }

  lemma LowestBit(s: seq<Limb>)
    requires |s| > 0
    ensures Val(s) % 2 == s[0] % 2 && Pow2(0) == 1 && s[0] / 1 == s[0]
  {
    ModUnique(s[0], 1, s[0], 0);
    LowestOf(s[0], Val(s[1..]));
  }

  lemma LowestOf(a: nat, b: nat)
    ensures (a + 0x1_0000_0000 * b) % 2 == a % 2
  {
  }

  method DecodePoint(point: Buffer, b: Bytes) returns (ok: bool)
    requires point.Valid() && |b| == 32
    modifies point.Arrays()
    ensures ok <==> Decode(b).Some?
    ensures ok ==> point.Loose()
    ensures ok ==> var p := Decode(b).value; point.Value() == Ext(p.x, p.y, 1, Mul(p.x, p.y))
  {
    BaseLimbs();
    hide C.V, Mul, Sub, XSquared, SqrtCandidate, LE, LowBits, Val, NUM_BX, NUM_BY, NUM_BZ, NUM_BT;
    MulZero(LowBits(LE(b)));
    var sign := UnpackY(point.y, b);
    Load(point.z, NUM_BZ);
    ComputeT(point);
    var zero := IsZero(point.t);
    if zero {
      if sign != 0 {
        return false;
      }
      C.SetSmall(point.x, 0);
      return true;
    }
    CandidateCanonical(C.V(point.t));
    var found := C.Sqrt(point.x, point.t);
    if !found {
      return false;
    }
    FixSign(point, sign);
    C.Mul(point.t, point.x, point.y);
    ok := true;
  }

  // The string of the base point.
  lemma BaseEncodes()
    ensures Encode(B) == [0x58] + seq(31, _ => 0x66)
  {
    var s: Bytes := [0x58] + seq(31, _ => 0x66);
    C.FullIsPow2();
    Pow2Byte(248);
    assert BX % 2 == 0;
    assert Encode(B) == ToLE(BY, 32) by { hide ToLE; }
    hide LE, ToLE, Pow2;
    Repeated(31);
    LENext(s);
    assert s[1..] == seq(31, _ => 0x66);
    assert LE(s) == BY;
    ToLEOfLE(s);
  }

  lemma {:induction false} Repeated(n: nat)
    ensures 255 * LE(seq(n, _ => 0x66)) == 0x66 * (Pow2(8 * n) - 1)
  {
    if n == 0 {
      assert Pow2(0) == 1;
    } else {
      var s: Bytes := seq(n, _ => 0x66);
      Repeated(n - 1);
      Pow2Byte(8 * (n - 1));
      hide Pow2;
      LENext(s);
      assert s[1..] == seq(n - 1, _ => 0x66);
    }
  }
}
