/** Signatures of section 5.1 of RFC 8032, as Ed25519.cpp computes and checks them. */
module Ed25519 {
  import opened Arith
  import opened Bits
  import opened Bytes
  import opened Limbs
  import opened Field
  import opened Edwards
  import opened Group
  import opened Encoding
  import opened Options
  import opened Points
  import opened PointCodec
  import opened Scalars
  import opened SHA2
  import opened SHA512
  import BigNumberUtil
  import C = Curve25519

  // ---- the values computed ----

  function SecretScalar(key: Bytes): nat {
    LE(Clamp(Digest(key)[..32]))
  }

  function Prefix(key: Bytes): Bytes {
    Digest(key)[32..]
  }

  function HashScalar(m: Bytes): nat {
    LE(Digest(m)) % Q
  }

  function TimesPoint(k: nat, p: Ext): Ext {
    DoubleAndAdd(k, 255, IDENTITY, p)
  }

  function PublicKey(key: Bytes): (b: Bytes)
    ensures |b| == 32
  {
    Encode(Affine(TimesPoint(SecretScalar(key), BASE)))
  }

  function SignatureR(key: Bytes, m: Bytes): (b: Bytes)
    ensures |b| == 32
  {
    Encode(Affine(TimesPoint(HashScalar(Prefix(key) + m), BASE)))
  }

  function SignatureS(key: Bytes, pk: Bytes, m: Bytes): nat {
    (HashScalar(Prefix(key) + m) + HashScalar(SignatureR(key, m) + pk + m) * SecretScalar(key)) % Q
  }

  function Signature(key: Bytes, pk: Bytes, m: Bytes): (s: Bytes)
    ensures |s| == 64
  {
    SignatureR(key, m) + ToLE(SignatureS(key, pk, m), 32)
  }

  function Decoded(p: Point): Ext {
    Ext(p.x, p.y, 1, Mul(p.x, p.y))
  }

  predicate Accepts(signature: Bytes, pk: Bytes, m: Bytes)
    requires |signature| == 64
  {
    && Decode(pk).Some? && Decode(signature[..32]).Some?
    && var k := HashScalar(signature[..32] + pk + m);
       SameAffine(TimesPoint(LE(signature[32..]), BASE),
                  ExtAdd(Decoded(Decode(signature[..32]).value), TimesPoint(k, Decoded(Decode(pk).value))))
  }

  // ---- what they mean on the curve ----

  lemma TimesPointRepresents(k: nat, p: Ext, u: Point)
    requires CurveLaws(D) && OnCurve(D, u) && p.Represents(u)
    ensures OnCurve(D, Multiple(D, k % C.TOP, u))
    ensures TimesPoint(k, p).Represents(Multiple(D, k % C.TOP, u))
  {
    C.TopIsPow2();
    IdentityRepresents();
    hide *;
    TimesPointIs(k, p);
    IdentityOnCurve(D);
    DoubleAndAddRepresents(k, 255, IDENTITY, p, O, u);
    MultipleOnCurve(D, k % C.TOP, u);
    IdentityOf(D, Multiple(D, k % C.TOP, u));
  }

  lemma TimesPointIs(k: nat, p: Ext)
    ensures TimesPoint(k, p) == DoubleAndAdd(k, 255, IDENTITY, p)
  {
    hide DoubleAndAdd;
  }

  lemma IdentityRepresents()
    ensures IDENTITY.Represents(O)
  {
    EqRules(0, 0);
    EqRules(1, 1);
    hide Eq;
  }

  lemma DecodedRepresents(p: Point)
    requires p.x < P
    ensures Decoded(p).Represents(Point(p.x, p.y % P))
  {
    hide P;
    ReducedEq(p.y);
    EqRules(p.y % P, p.y);
    EqRules(p.x, p.x);
    Reduced(p.x, p.y);
    hide Mul;
    EqMul(p.x, p.x, p.y, p.y % P);
    EqTrans(Mul(p.x, p.y), p.x * p.y, p.x * (p.y % P));
    OneIsSmall();
    hide Eq;
    assert p.x * 1 == p.x && (p.y % P) * 1 == p.y % P && (p.x * (p.y % P)) * 1 == p.x * (p.y % P);
    EqRules(p.x * (p.y % P), Mul(p.x, p.y));
  }

  lemma OneIsSmall()
    ensures 0 < 1 < P
  {
  }

  function Reduce(p: Point): Point {
    Point(p.x, p.y % P)
  }

  lemma HashScalarIs(m: Bytes)
    ensures HashScalar(m) == LE(Digest(m)) % Q
  {
    hide LE, Digest, Q;
  }

  lemma HashScalarBound(m: Bytes)
    ensures HashScalar(m) < Q && HashScalar(m) % C.TOP == HashScalar(m)
  {
    ScalarBound(LE(Digest(m)));
    hide Digest;
  }

  lemma ScalarBound(v: nat)
    ensures v % Q < Q < C.TOP && (v % Q) % C.TOP == v % Q
  {
  }

  // What verification checks, for all strings: that both decode and s B = R + k A.
  lemma AcceptsMeans(signature: Bytes, pk: Bytes, m: Bytes)
    requires CurveLaws(D) && |signature| == 64 && |pk| == 32
    ensures Accepts(signature, pk, m) <==>
      && Decode(pk).Some? && Decode(signature[..32]).Some?
      && Multiple(D, LE(signature[32..]) % C.TOP, B)
           == Plus(D, Reduce(Decode(signature[..32]).value),
                   Multiple(D, LE(Digest(signature[..32] + pk + m)) % Q, Reduce(Decode(pk).value)))
  {
    if Decode(pk).Some? && Decode(signature[..32]).Some? {
      HashScalarIs(signature[..32] + pk + m);
      hide *;
      AcceptsEquation(signature, pk, m);
    }
  }

  lemma AcceptsEquation(signature: Bytes, pk: Bytes, m: Bytes)
    requires CurveLaws(D) && |signature| == 64 && |pk| == 32
    requires Decode(pk).Some? && Decode(signature[..32]).Some?
    ensures Accepts(signature, pk, m) <==>
      Multiple(D, LE(signature[32..]) % C.TOP, B)
        == Plus(D, Reduce(Decode(signature[..32]).value),
                Multiple(D, HashScalar(signature[..32] + pk + m), Reduce(Decode(pk).value)))
  {
    var A, R := Decode(pk).value, Decode(signature[..32]).value;
    var k, s := HashScalar(signature[..32] + pk + m), LE(signature[32..]);
    AcceptsIs(signature, pk, m);
    Prime(D);
    DecodeOnCurve(pk);
    DecodeOnCurve(signature[..32]);
    CoordinatesReduced(D, Reduce(A));
    CoordinatesReduced(D, Reduce(R));
    ReduceIs(A);
    ReduceIs(R);
    hide *;
    DecodedRepresents(A);
    DecodedRepresents(R);
    HashScalarBound(signature[..32] + pk + m);
    BaseRepresents();
    TimesPointRepresents(s, BASE, B);
    TimesPointRepresents(k, Decoded(A), Reduce(A));
    var u, v := Multiple(D, s % C.TOP, B), Plus(D, Reduce(R), Multiple(D, k, Reduce(A)));
    Closed(D, Reduce(R), Multiple(D, k, Reduce(A)));
    ExtAddRepresents(Decoded(R), TimesPoint(k, Decoded(A)), Reduce(R), Multiple(D, k, Reduce(A)));
    CoordinatesReduced(D, u);
    CoordinatesReduced(D, v);
    SameAffineIsEqual(TimesPoint(s, BASE), ExtAdd(Decoded(R), TimesPoint(k, Decoded(A))), u, v);
  }

  lemma ReduceIs(p: Point)
    ensures Reduce(p).x == p.x && Reduce(p) == Point(p.x, p.y % P)
  {
  }

  lemma AcceptsIs(signature: Bytes, pk: Bytes, m: Bytes)
    requires |signature| == 64 && Decode(pk).Some? && Decode(signature[..32]).Some?
    ensures Accepts(signature, pk, m) <==>
      SameAffine(TimesPoint(LE(signature[32..]), BASE),
        ExtAdd(Decoded(Decode(signature[..32]).value),
               TimesPoint(HashScalar(signature[..32] + pk + m), Decoded(Decode(pk).value))))
  {
    hide SameAffine, TimesPoint, LE, ExtAdd, Decoded, Decode, HashScalar, BASE;
  }

  // An encoded multiple of the base point decodes to that multiple.
  lemma EncodedMultiple(k: nat)
    requires CurveLaws(D)
    ensures OnCurve(D, Multiple(D, k % C.TOP, B))
    ensures Encode(Affine(TimesPoint(k, BASE))) == Encode(Multiple(D, k % C.TOP, B))
    ensures Decode(Encode(Affine(TimesPoint(k, BASE)))) == Some(Multiple(D, k % C.TOP, B))
    ensures Reduce(Multiple(D, k % C.TOP, B)) == Multiple(D, k % C.TOP, B)
  {
    var u := Multiple(D, k % C.TOP, B);
    hide *;
    BaseRepresents();
    TimesPointRepresents(k, BASE, B);
    CoordinatesReduced(D, u);
    Prime(D);
    AffineIs(TimesPoint(k, BASE), u);
    DecodeEncode(u);
    ReduceIs(u);
    ModSmall(u.y, P);
  }

  lemma SecretScalarBound(key: Bytes)
    ensures SecretScalar(key) % C.TOP == SecretScalar(key)
  {
    C.TopIsPow2();
    hide Digest, Clamp, LE, Pow2;
    ClampRange(Digest(key)[..32]);
  }

  // The secret scalar is the first half of the digest of the key, but for five bits: a multiple of eight with
  // 2^254 as its highest bit.
  lemma SecretScalarMeans(key: Bytes)
    ensures var (a, n) := (SecretScalar(key), LE(Digest(key)[..32]));
            && a % 8 == 0 && Pow2(254) <= a < Pow2(255)
            && forall t :: 3 <= t < 254 ==> Bit(a, t) == Bit(n, t)
  {
    hide Digest, Clamp, LE, Bit, Pow2;
    ClampMeans(Digest(key)[..32]);
  }

  // The public key is the secret scalar's multiple of the base point.
  lemma PublicKeyIs(key: Bytes)
    requires CurveLaws(D)
    ensures PublicKey(key) == Encode(Multiple(D, SecretScalar(key), B))
  {
    hide *;
    PublicKeyEncodes(key);
    EncodedMultiple(SecretScalar(key));
    SecretScalarBound(key);
  }

  lemma PublicKeyEncodes(key: Bytes)
    ensures PublicKey(key) == Encode(Affine(TimesPoint(SecretScalar(key), BASE)))
  {
    hide Encode, Affine, TimesPoint, SecretScalar, BASE;
  }

  lemma SignatureParts(key: Bytes, pk: Bytes, m: Bytes)
    ensures Signature(key, pk, m)[..32] == SignatureR(key, m)
         == Encode(Affine(TimesPoint(HashScalar(Prefix(key) + m), BASE)))
    ensures LE(Signature(key, pk, m)[32..]) == SignatureS(key, pk, m)
         == (HashScalar(Prefix(key) + m) + HashScalar(SignatureR(key, m) + pk + m) * SecretScalar(key)) % Q
    ensures SignatureS(key, pk, m) % C.TOP == SignatureS(key, pk, m)
  {
    hide Encode, Affine, TimesPoint, SecretScalar, BASE, HashScalar, Prefix, LE, ToLE, Pow2, Q;
    var r, s := SignatureR(key, m), SignatureS(key, pk, m);
    assert (r + ToLE(s, 32))[..32] == r && (r + ToLE(s, 32))[32..] == ToLE(s, 32);
    ScalarBound(HashScalar(Prefix(key) + m) + HashScalar(r + pk + m) * SecretScalar(key));
    C.FullIsPow2();
    LEOfToLE(s, 32);
  }

  // What other verifiers ask besides: s below the group order, and reduced y-coordinates.
  predicate Strict(signature: Bytes, pk: Bytes)
    requires |signature| == 64
  {
    LE(signature[32..]) < Q && LowBits(LE(signature[..32])) < P && LowBits(LE(pk)) < P
  }

  // Signatures made here meet that too.
  lemma SignedIsStrict(key: Bytes, m: Bytes)
    ensures Strict(Signature(key, PublicKey(key), m), PublicKey(key))
  {
    var pk := PublicKey(key);
    SignatureParts(key, pk, m);
    PublicKeyEncodes(key);
    SignatureBelowOrder(key, pk, m);
    hide TimesPoint, Affine, SecretScalar, HashScalar, Prefix, LE, Encode, LowBits, Signature, SignatureS, PublicKey, BASE, P, Q;
    EncodedY(TimesPoint(SecretScalar(key), BASE));
    EncodedY(TimesPoint(HashScalar(Prefix(key) + m), BASE));
  }

  lemma SignatureBelowOrder(key: Bytes, pk: Bytes, m: Bytes)
    ensures SignatureS(key, pk, m) < Q
  {
    hide HashScalar, SecretScalar, SignatureR, Prefix;
  }

  lemma EncodedY(p: Ext)
    ensures LowBits(LE(Encode(Affine(p)))) < P
  {
    var u := Affine(p);
    assert u.y < P by { hide Mul, Inv; }
    hide Affine;
    LowBitsOfEncoded(u);
  }

  // Every signature made with a key is accepted under its public key.
  lemma SignedIsAccepted(key: Bytes, m: Bytes)
    requires CurveLaws(D) && Multiple(D, Q, B) == O
    ensures Accepts(Signature(key, PublicKey(key), m), PublicKey(key), m)
  {
    hide *;
    var pk := PublicKey(key);
    var a, r := SecretScalar(key), HashScalar(Prefix(key) + m);
    var sig := Signature(key, pk, m);
    var k := HashScalar(SignatureR(key, m) + pk + m);
    SignatureParts(key, pk, m);
    PublicKeyEncodes(key);
    EncodedMultiple(a);
    SecretScalarBound(key);
    EncodedMultiple(r);
    HashScalarBound(Prefix(key) + m);
    AcceptsMeans(sig, pk, m);
    OrderPositive();
    BaseRepresents();
    SumOfMultiples(r, k, a);
    HashScalarIs(SignatureR(key, m) + pk + m);
  }

  // The signature of RFC 8032, section 5.1.6: the nonce comes from the second half of the key's digest and the
  // message, the secret scalar from the first half, and the challenge from R, the public key and the message.
  lemma SignatureIsStandard(key: Bytes, m: Bytes)
    requires CurveLaws(D)
    ensures var (d, a) := (Digest(key), LE(Clamp(Digest(key)[..32])));
            var (pk, r) := (Encode(Multiple(D, a, B)), LE(Digest(d[32..] + m)) % Q);
            var R := Encode(Multiple(D, r, B));
            && PublicKey(key) == pk
            && Signature(key, pk, m) == R + ToLE((r + (LE(Digest(R + pk + m)) % Q) * a) % Q, 32)
  {
    SecretsAre(key);
    hide *;
    var pk, r, R := PublicKey(key), HashScalar(Prefix(key) + m), SignatureR(key, m);
    PublicKeyIs(key);
    SignatureParts(key, pk, m);
    SignatureJoins(key, pk, m);
    EncodedMultiple(r);
    HashScalarBound(Prefix(key) + m);
    HashScalarIs(Prefix(key) + m);
    HashScalarIs(R + pk + m);
  }

  lemma SecretsAre(key: Bytes)
    ensures SecretScalar(key) == LE(Clamp(Digest(key)[..32])) && Prefix(key) == Digest(key)[32..]
  {
    hide LE, Clamp, Digest;
  }

  lemma SignatureJoins(key: Bytes, pk: Bytes, m: Bytes)
    ensures Signature(key, pk, m) == SignatureR(key, m) + ToLE(SignatureS(key, pk, m), 32)
  {
    hide SignatureR, SignatureS, ToLE;
  }

  // The order of the base point, in the form that section 5.1 gives it.
  lemma OrderIs()
    ensures Q == Pow2(252) + 27742317777372353535851937790883648493
  {
    C.TopIsPow2();
    assert Pow2(255) == 2 * Pow2(254) && Pow2(254) == 2 * Pow2(253) && Pow2(253) == 2 * Pow2(252);
  }

  lemma OrderPositive()
    ensures Q > 0
  {
  }

  lemma SumOfMultiples(r: nat, k: nat, a: nat)
    requires CurveLaws(D) && Multiple(D, Q, B) == O
    ensures 0 <= k * a && Q > 0
    ensures Plus(D, Multiple(D, r, B), Multiple(D, k, Multiple(D, a, B))) == Multiple(D, (r + k * a) % Q, B)
  {
    hide *;
    OrderPositive();
    BaseRepresents();
    MultipleTimes(D, k, a, B);
    MultipleAdd(D, r, k * a, B);
    MultipleModOrder(D, r + k * a, Q, B);
  }

  // ---- the code ----

  // The scalar goes to a, and the prefix stays in the buffer of the hash.
  method DeriveKeys(hash: Sha512, a: array<Limb>, privateKey: array<Byte>)
    requires hash.Shape() && a.Length == 8 && privateKey.Length == 32 && privateKey != hash.w
    modifies hash, hash.h, hash.w, a
    ensures C.V(a) == SecretScalar(old(privateKey[..])) && hash.w[32..64] == Prefix(old(privateKey[..]))
  {
    hide Digest, LE, C.V, Sha512.Valid, Sha512.Cleared;
    ghost var key := privateKey[..];
    hash.Reset();
    hash.Update(privateKey, 0, 32);
    assert hash.absorbed == key;
    hash.Finalize(hash.w, 0);
    ghost var d, first := Digest(key), hash.w[..32];
    assert first == d[..32] && hash.w[32..64] == d[32..];
    ClampBytes(hash.w);
    C.UnpackNumber(a, hash.w[..32]);
    assert hash.w[32..64] == d[32..];
  }

  method DerivePublicKey(publicKey: array<Byte>, privateKey: array<Byte>)
    requires publicKey.Length == 32 && privateKey.Length == 32
    modifies publicKey
    ensures publicKey[..] == PublicKey(old(privateKey[..]))
  {
    hide SecretScalar, Prefix, Encode, Affine, DoubleAndAdd, BASE, C.V, Buffer.Value, Buffer.Loose, Sha512.Valid;
    var hash := new Sha512();
    var a := new Limb[8];
    var A := new Buffer();
    DeriveKeys(hash, a, privateKey);
    MulBase(A, a, true);
    EncodePoint(publicKey, 0, A);
    assert publicKey[0..32] == publicKey[..];
  }

  // R, the public key and the message; the digest stays in the buffer of the hash.
  method HashChallenge(hash: Sha512, signature: array<Byte>, publicKey: array<Byte>, message: array<Byte>)
    requires hash.Shape() && signature.Length == 64 && publicKey.Length == 32
    requires hash.w !in {signature, publicKey, message} && message.Length < 0x1_0000_0000_0000_0000
    modifies hash, hash.h, hash.w
    ensures hash.w[..64] == Digest(signature[..32] + publicKey[..] + message[..])
  {
    hide Digest, Sha512.Valid, Sha512.Cleared;
    ghost var a, b, m := signature[..32], publicKey[..], message[..];
    hash.Reset();
    hash.Update(signature, 0, 32);
    assert hash.absorbed == a;
    hash.Update(publicKey, 0, 32);
    assert publicKey[0..32] == b;
    hash.Update(message, 0, message.Length);
    assert message[0..message.Length] == m;
    hash.Finalize(hash.w, 0);
  }

  // The prefix, left in the buffer by DeriveKeys, and the message.
  method HashPrefix(hash: Sha512, message: array<Byte>)
    requires hash.Shape() && message != hash.w && message.Length < 0x1_0000_0000_0000_0000
    modifies hash, hash.h, hash.w
    ensures hash.w[..64] == Digest(old(hash.w[32..64] + message[..]))
  {
    hide Digest, Sha512.Valid, Sha512.Cleared;
    ghost var p, m := hash.w[32..64], message[..];
    hash.Reset();
    hash.Update(hash.w, 32, 32);
    assert hash.absorbed == p;
    hash.Update(message, 0, message.Length);
    assert message[0..message.Length] == m;
    hash.Finalize(hash.w, 0);
  }

  // s = (r + k a) mod q, in the low limbs of t.
  method FinishScalar(t: array<Limb>, r: array<Limb>, k: array<Limb>, a: array<Limb>)
    requires t.Length == 17 && r.Length == k.Length == a.Length == 8 && t !in {r, k, a} && C.V(r) < Q
    modifies t
    ensures Val(t[..8]) == (C.V(r) + C.V(k) * C.V(a)) % Q
  {
    Constants();
    hide Val, Shift, Q, NUM_Q, M, FULL2, NUM_M;
    C.MulNoReduce(t, k, a);
    ghost var low, r0 := t[..16], C.V(r);
    t[16] := 0;
    assert t[..16] == low;
    ReduceQ(t, t);
    ghost var x := Val(t[..8]);
    var carry := BigNumberUtil.Add(t, t, r, 8);
    assert r[..8] == r[..];
    ghost var y := Val(t[..8]);
    C.Shift8(carry);
    C.Val8Bound(t[..8]);
    BigNumberUtil.ReduceQuickP(t, t, NUM_Q);
    FinishSum(C.V(k) * C.V(a), r0, x, carry, y);
  }

  lemma FinishSum(ka: nat, r: nat, x: nat, carry: nat, y: nat)
    requires x == ka % Q && r < Q && carry <= 1 && y + C.FULL * carry == x + r
    ensures (if Q <= y then y - Q else y) == (r + ka) % Q
  {
    assert carry == 0;
    ModUnique(r + ka, Q, ka / Q + if Q <= y then 1 else 0, if Q <= y then y - Q else y);
  }

  // The first half: r, and R in the signature.
  method SignFirst(signature: array<Byte>, hash: Sha512, message: array<Byte>, r: array<Limb>, t: array<Limb>)
    requires signature.Length == 64 && hash.Shape() && message != hash.w && signature != hash.w
    requires message.Length < 0x1_0000_0000_0000_0000
    requires r.Length == 8 && t.Length == 17
    modifies signature, hash, hash.h, hash.w, r, t
    ensures C.V(r) == HashScalar(old(hash.w[32..64] + message[..]))
    ensures signature[..32] == Encode(Affine(TimesPoint(C.V(r), BASE)))
  {
    hide Digest, LE, C.V, Encode, Affine, DoubleAndAdd, BASE, Buffer.Value, Buffer.Loose, Q;
    HashPrefix(hash, message);
    ReduceQFromBuffer(r, hash.w[..64], t);
    var rB := new Buffer();
    MulBase(rB, r, true);
    EncodePoint(signature, 0, rB);
    assert signature[0..32] == signature[..32];
  }

  // The second half: k, and s in the signature.
  method SignSecond(signature: array<Byte>, hash: Sha512, publicKey: array<Byte>, message: array<Byte>,
                    a: array<Limb>, r: array<Limb>, t: array<Limb>)
    requires signature.Length == 64 && hash.Shape() && publicKey.Length == 32
    requires hash.w !in {signature, publicKey, message} && message.Length < 0x1_0000_0000_0000_0000
    requires a.Length == r.Length == 8 && t.Length == 17 && t !in {a, r} && C.V(r) < Q
    modifies signature, hash, hash.h, hash.w, t
    ensures signature[..] == old(signature[..32]
      + ToLE((C.V(r) + HashScalar(signature[..32] + publicKey[..] + message[..]) * C.V(a)) % Q, 32))
  {
    hide Digest, LE, ToLE, C.V, Q, Val;
    ghost var R := signature[..32];
    HashChallenge(hash, signature, publicKey, message);
    var k := new Limb[8];
    ReduceQFromBuffer(k, hash.w[..64], t);
    FinishScalar(t, r, k, a);
    BigNumberUtil.PackLE(signature, 32, 32, t, 8);
    assert signature[..32] == R;
    assert signature[..] == signature[..32] + signature[32..64];
  }

  // Sign a message. The public key is taken as given.
  method Sign(signature: array<Byte>, privateKey: array<Byte>, publicKey: array<Byte>, message: array<Byte>)
    requires signature.Length == 64 && privateKey.Length == publicKey.Length == 32
    requires signature != publicKey && signature != message && message.Length < 0x1_0000_0000_0000_0000
    modifies signature
    ensures signature[..] == Signature(old(privateKey[..]), old(publicKey[..]), old(message[..]))
  {
    hide *;
    ghost var key, pk, m := privateKey[..], publicKey[..], message[..];
    var hash := NewHash();
    var a, r := new Limb[8], new Limb[8];
    var t := new Limb[17];
    DeriveKeys(hash, a, privateKey);
    assert message[..] == m && publicKey[..] == pk;
    HashScalarBound(Prefix(key) + m);
    SignFirst(signature, hash, message, r, t);
    assert message[..] == m && publicKey[..] == pk;
    SignSecond(signature, hash, publicKey, message, a, r, t);
    SignatureIs(key, pk, m);
  }

  method NewHash() returns (hash: Sha512)
    ensures hash.Shape() && fresh(hash) && fresh(hash.h) && fresh(hash.w)
  {
    hash := new Sha512();
  }

  lemma SignatureIs(key: Bytes, pk: Bytes, m: Bytes)
    ensures Signature(key, pk, m) ==
      var r := HashScalar(Prefix(key) + m);
      var R := Encode(Affine(TimesPoint(r, BASE)));
      R + ToLE((r + HashScalar(R + pk + m) * SecretScalar(key)) % Q, 32)
  {
    hide Encode, Affine, TimesPoint, SecretScalar, BASE, HashScalar, Prefix, ToLE, Q;
  }

  // s B and k A; s passes through kA.t and k through sB.t, so that the t of s B is lost.
  method MulBoth(sB: Buffer, kA: Buffer, A: Buffer, digest: Bytes, s: Bytes)
    requires sB.Valid() && kA.Valid() && A.Valid() && A.Loose()
    requires sB.Arrays() !! kA.Arrays() + A.Arrays() && kA.Arrays() !! A.Arrays()
    requires |digest| == 64 && |s| == 32
    modifies sB.Arrays(), kA.Arrays(), A.Arrays()
    ensures sB.Value().(T := 0) == TimesPoint(LE(s), BASE).(T := 0)
    ensures kA.Value() == TimesPoint(LE(digest) % Q, old(A.Value())) && kA.Loose()
  {
    hide LE, C.V, DoubleAndAdd, BASE, Buffer.Loose, Q;
    var temp := new Limb[17];
    C.UnpackNumber(kA.t, s);
    MulBase(sB, kA.t, false);
    ReduceQFromBuffer(sB.t, digest, temp);
    MulPoint(kA, sB.t, A, false);
  }

  method CheckEquation(A: Buffer, R: Buffer, digest: Bytes, s: Bytes) returns (same: bool)
    requires A.Valid() && R.Valid() && A.Arrays() !! R.Arrays() && A.Loose() && R.Loose()
    requires |digest| == 64 && |s| == 32
    modifies A.Arrays(), R.Arrays()
    ensures same <==> SameAffine(TimesPoint(LE(s), BASE),
                                 ExtAdd(old(R.Value()), TimesPoint(LE(digest) % Q, old(A.Value()))))
  {
    hide LE, C.V, DoubleAndAdd, BASE, Buffer.Loose, Buffer.Value, Q, ExtAdd, SameAffine, TimesPoint;
    var sB := new Buffer();
    var kA := new Buffer();
    MulBoth(sB, kA, A, digest, s);
    Points.Add(R, kA);
    same := Equal(sB, R);
    SameAffineIgnoresT(sB.Value(), TimesPoint(LE(s), BASE), R.Value());
  }

  lemma SameAffineIgnoresT(p: Ext, q: Ext, r: Ext)
    requires p.(T := 0) == q.(T := 0)
    ensures SameAffine(p, r) <==> SameAffine(q, r)
  {
    hide Mul;
  }

  method Verify(signature: array<Byte>, publicKey: array<Byte>, message: array<Byte>) returns (accepted: bool)
    requires signature.Length == 64 && publicKey.Length == 32 && message.Length < 0x1_0000_0000_0000_0000
    ensures accepted <==> Accepts(signature[..], publicKey[..], message[..])
  {
    hide Accepts, Decode, SameAffine, DoubleAndAdd, LE, Digest, C.V, ExtAdd, BASE, Mul, Q, Buffer.Value, Buffer.Loose;
    ghost var sig, pk, m := signature[..], publicKey[..], message[..];
    accepted := false;
    var hash := NewHash();
    var A := NewPoint();
    var R := NewPoint();
    var ok := DecodePoint(A, publicKey[..]);
    if ok {
      ok := DecodePoint(R, signature[..32]);
      if ok {
        HashChallenge(hash, signature, publicKey, message);
        accepted := CheckEquation(A, R, hash.w[..64], signature[32..]);
      }
    }
    AcceptsExpanded(sig, pk, m);
  }

  method NewPoint() returns (p: Buffer)
    ensures p.Valid() && fresh(p) && fresh(p.Arrays())
  {
    p := new Buffer();
  }

  lemma AcceptsExpanded(signature: Bytes, pk: Bytes, m: Bytes)
    requires |signature| == 64
    ensures Accepts(signature, pk, m) <==>
      && Decode(pk).Some? && Decode(signature[..32]).Some?
      && var (A, R) := (Decode(pk).value, Decode(signature[..32]).value);
         SameAffine(TimesPoint(LE(signature[32..]), BASE),
                    ExtAdd(Ext(R.x, R.y, 1, Mul(R.x, R.y)),
                           TimesPoint(LE(Digest(signature[..32] + pk + m)) % Q, Ext(A.x, A.y, 1, Mul(A.x, A.y)))))
  {
    hide SameAffine, TimesPoint, LE, ExtAdd, Decode, Digest, BASE, Mul, Q;
  }
}
