/** The 32-byte encoding of curve points of section 5.1.2 of RFC 8032, as encodePoint and decodePoint treat it. */
module Encoding {
  import opened Arith
  import opened Bits
  import opened Bytes
  import opened Field
  import opened Edwards
  import opened Options
  import C = Curve25519
  import EdwardsLaws

  // y in the low 255 bits, and the lowest bit of x on top.
  function Encode(p: Point): (b: Bytes)
    ensures |b| == 32
  {
    ToLE(p.y + C.TOP * (p.x % 2), 32)
  }

  function LowBits(v: nat): (y: nat)
    ensures v < C.FULL ==> y < C.TOP
  {
    if v < C.TOP then v else v - C.TOP
  }

  // The square of x on the curve at y.
  function XSquared(y: nat): (t: nat)
    ensures t < P
  {
    var yy := Mul(y, y);
    Mul(Sub(yy, 1), Inv(Add(Mul(yy, D), 1)))
  }

  // y keeps its 255 bits, reduced or not.
  function Decode(b: Bytes): Option<Point> {
    var v := LE(b);
    var y, sign := LowBits(v), if v < C.TOP then 0 else 1;
    var t := XSquared(y);
    if t == 0 then
      if sign == 1 then None else Some(Point(0, y))
    else
      var r := SqrtCandidate(t);
      if Mul(r, r) != t then None
      else Some(Point(if r % 2 == sign then r else Sub(0, r), y))
  }

  lemma EncodeValue(p: Point)
    requires p.y < C.TOP
    ensures LE(Encode(p)) == p.y + C.TOP * (p.x % 2)
  {
    C.FullIsPow2();
    hide ToLE, LE, Pow2;
    LEOfToLE(p.y + C.TOP * (p.x % 2), 32);
  }

  lemma LowBitsOfEncoded(p: Point)
    requires p.y < C.TOP
    ensures LowBits(LE(Encode(p))) == p.y
  {
    EncodeValue(p);
    hide LE, Encode;
    if p.x % 2 == 0 {
      assert LE(Encode(p)) == p.y;
    } else {
      assert LE(Encode(p)) == p.y + C.TOP;
    }
  }

  // Negation flips the lowest bit of every element but zero, because p is odd.
  lemma NegationParity(r: nat)
    requires 0 < r < P
    ensures Sub(0, r) == P - r && Sub(0, r) % 2 != r % 2
  {
  }

  // The number of a string that decodes.
  lemma DecodedValue(b: Bytes)
    requires Decode(b).Some?
    ensures LE(b) == Decode(b).value.y + C.TOP * (Decode(b).value.x % 2)
  {
    var r := SqrtCandidate(XSquared(LowBits(LE(b))));
    CandidateCanonical(XSquared(LowBits(LE(b))));
    hide LE, XSquared, SqrtCandidate, Mul, Sub;
    MulZero(0);
    if r != 0 { NegationParity(r); }
  }

  // A string that decodes is the encoding of what it decodes to.
  lemma EncodeDecode(b: Bytes)
    requires |b| == 32 && Decode(b).Some?
    ensures Encode(Decode(b).value) == b
  {
    hide ToLE, LE, Decode, C.TOP;
    DecodedValue(b);
    ToLEOfLE(b);
  }

  lemma CandidateCanonical(t: nat)
    ensures SqrtCandidate(t) < P
  {
    hide Mul, Pow;
  }

  function Denominator(y: nat): (w: nat)
    ensures w < P
  {
    Add(Mul(Mul(y, y), D), 1)
  }

  lemma DenominatorIs(y: nat)
    ensures Eq(Denominator(y), D * (y * y) + 1)
  {
    hide Eq, Mul, Add, P, D;
    Reduced(y, y);
    EqRules(D, D);
    EqRules(1, 1);
    MulOfReduced(Mul(y, y), y * y, D, D);
    MulComm(y * y, D);
    SumOfReduced(Mul(Mul(y, y), D), D * (y * y), 1, 1);
  }

  lemma CurveIdentity(x: int, y: int)
    ensures (y * y - x * x) - (1 + D * (x * x) * (y * y)) == (y * y - 1) - (D * (y * y) + 1) * (x * x)
  {
    hide D;
  }

  lemma EqDifference(a: int, b: int, c: int, d: int)
    requires a - b == c - d
    ensures Eq(a, b) <==> Eq(c, d)
  {
    hide P, Eq;
    SameByDifference(a, b);
    SameByDifference(c, d);
  }

  lemma SameByDifference(a: int, b: int)
    ensures Eq(a, b) <==> (a - b) % P == 0
  {
    EqIsMod(a, b);
    hide P, Eq;
    DivMod(a - b, P);
    if (a - b) % P == 0 { ModEqual(a, b, P, (a - b) / P); }
    ModAdd(a, b, P);
    ModSmall(0, P);
  }

  // The curve equation, solved for the square of x.
  lemma CurveSolved(p: Point)
    requires p.x < P && p.y < P
    ensures OnCurve(D, p) <==> Mul(Denominator(p.y), Mul(p.x, p.x)) == Sub(Mul(p.y, p.y), 1)
  {
    var x: int, y: int := p.x, p.y;
    assert Cross(D, p, p) == D * (x * x) * (y * y);
    CurveIdentity(x, y);
    EqDifference(y * y - x * x, 1 + Cross(D, p, p), y * y - 1, (D * (y * y) + 1) * (x * x));
    hide Eq, Mul, Sub, Add, P, D, Cross, OnCurve;
    Reduced(y, y);
    Reduced(x, x);
    EqRules(1, 1);
    DenominatorIs(y);
    MulOfReduced(Denominator(y), D * (y * y) + 1, Mul(x, x), x * x);
    SumOfReduced(Mul(y, y), y * y, 1, 1);
    EqOfReduced(Mul(Denominator(y), Mul(x, x)), (D * (y * y) + 1) * (x * x), Sub(Mul(y, y), 1), y * y - 1);
  }

  lemma EqOfReduced(a: nat, a': int, b: nat, b': int)
    requires a < P && b < P && Eq(a, a') && Eq(b, b')
    ensures Eq(b', a') <==> a == b
  {
    hide P, Eq;
    if a == b {
      EqRules(b, b');
      EqTrans(b', b, a');
    }
    if Eq(b', a') {
      EqTrans(b, b', a');
      EqTransSym(a, a', b);
      SameReduced(a, b);
    }
  }

  // Where the denominator vanishes there is no point, because d is not -1.
  lemma NoPointWithoutDenominator(p: Point)
    ensures OnCurve(D, p) ==> Denominator(p.y) != 0
  {
    if OnCurve(D, p) && Denominator(p.y) == 0 {
      CurveSolved(p);
      MulZero(Mul(p.x, p.x));
      UnitSquare(Mul(p.y, p.y));
    }
  }

  lemma UnitSquare(yy: nat)
    requires yy < P && Sub(yy, 1) == 0
    ensures yy == 1 && Add(Mul(yy, D), 1) != 0
  {
  }

  // On the curve, decoding finds the square of x.
  lemma XSquaredOnCurve(p: Point)
    requires PrimeP() && OnCurve(D, p)
    ensures XSquared(p.y) == Mul(p.x, p.x)
  {
    if Denominator(p.y) == 0 {
      NoPointWithoutDenominator(p);
    } else {
      CurveSolved(p);
      XSquaredTimes(p.y);
      hide *;
      DenominatorUnit(p.y);
      Cancel(Denominator(p.y), XSquared(p.y), Mul(p.x, p.x));
    }
  }

  lemma DenominatorUnit(y: nat)
    ensures Denominator(y) != 0 ==> Denominator(y) % P != 0
  {
    hide Denominator;
  }

  lemma XSquaredTimes(y: nat)
    requires PrimeP() && Denominator(y) != 0
    ensures Mul(Denominator(y), XSquared(y)) == Sub(Mul(y, y), 1)
  {
    var w, u := Denominator(y), Sub(Mul(y, y), 1);
    assert XSquared(y) == Mul(u, Inv(w));
    DenominatorUnit(y);
    hide Mul, Sub, Add, Inv, PrimeP;
    InvWorks(w);
    MulCommutes(u, Inv(w));
    MulAssociates(w, Inv(w), u);
    MulOne(u);
  }

  // Decoding undoes encoding for every point of the curve.
  lemma DecodeEncode(p: Point)
    requires PrimeP() && OnCurve(D, p)
    ensures Decode(Encode(p)) == Some(p)
  {
    XSquaredOnCurve(p);
    var t, r := XSquared(p.y), SqrtCandidate(XSquared(p.y));
    assert p.x < P && p.y < P;
    EncodeValue(p);
    hide OnCurve, PrimeP, Mul, Sub, ToLE, LE, Encode, XSquared, SqrtCandidate;
    if t == 0 {
      NoZeroDivisors(p.x, p.x);
      ModSmall(p.x, P);
    } else {
      SqrtComplete(t, p.x);
      CandidateCanonical(t);
      TwoRoots(p.x, r);
      if r == 0 { MulZero(0); } else { NegationParity(r); }
    }
  }

  // The denominator never vanishes.
  lemma DenominatorNeverZero(y: nat)
    requires PrimeP() && EdwardsLaws.NonSquare(D)
    ensures Denominator(y) != 0
  {
    DenominatorIs(y);
    EdwardsLaws.UnitPlusSquare(D, y);
    hide *;
    assert D * (y * y) + 1 == 1 + D * (y * y);
    if Denominator(y) == 0 {
      EdwardsLaws.VanishesEq(0, 1 + D * (y * y));
    }
  }

  // Whatever decodes is on the curve.
  lemma DecodeOnCurve(b: Bytes)
    requires PrimeP() && EdwardsLaws.NonSquare(D) && |b| == 32 && Decode(b).Some?
    ensures OnCurve(D, Point(Decode(b).value.x, Decode(b).value.y % P))
  {
    var p := Decode(b).value;
    DecodedSquare(b);
    ReducedY(p.y);
    CurveSolved(Point(p.x, p.y % P));
    DenominatorNeverZero(p.y);
    hide OnCurve, Mul, Sub, Decode, XSquared, EdwardsLaws.NonSquare;
    XSquaredTimes(p.y);
  }

  // A string with a reduced y decodes exactly if it encodes a point of the curve.
  lemma DecodesExactly(b: Bytes)
    requires PrimeP() && EdwardsLaws.NonSquare(D) && |b| == 32 && LowBits(LE(b)) < P
    ensures Decode(b).Some? <==> exists p :: OnCurve(D, p) && Encode(p) == b
  {
    if Decode(b).Some? {
      var p := Decode(b).value;
      assert p.y == LowBits(LE(b));
      hide *;
      DecodeOnCurve(b);
      EncodeDecode(b);
      ModSmall(p.y, P);
      assert OnCurve(D, p) && Encode(p) == b;
    }
    hide *;
    if p :| OnCurve(D, p) && Encode(p) == b { DecodeEncode(p); }
  }

  lemma ReducedY(y: nat)
    ensures Mul(y % P, y % P) == Mul(y, y) && Denominator(y % P) == Denominator(y)
  {
    ReducedEq(y);
    SameMul(y % P, y, y % P, y);
  }

  lemma DecodedSquare(b: Bytes)
    requires |b| == 32 && Decode(b).Some?
    ensures Decode(b).value.x < P && Mul(Decode(b).value.x, Decode(b).value.x) == XSquared(Decode(b).value.y)
  {
    var t := XSquared(LowBits(LE(b)));
    var r := SqrtCandidate(t);
    CandidateCanonical(t);
    hide XSquared, SqrtCandidate, LE;
    MulZero(0);
    NegationSquare(r);
  }

  lemma NegationSquare(r: nat)
    ensures Mul(Sub(0, r), Sub(0, r)) == Mul(r, r)
  {
    hide P;
    var n: int := -(r as int);
    ModMul(n, n, P);
    assert n * n == r * r;
  }
}
