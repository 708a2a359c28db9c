/** SHA-512 as section 6.4 of FIPS 180-4 defines it, on whole messages. */
module SHA2 {
  import opened Arith
  import opened Bits
  import opened Bytes

  type Word = x: nat | x < 0x1_0000_0000_0000_0000

  function AddW(a: Word, b: Word): Word {
    (a + b) % 0x1_0000_0000_0000_0000
  }

  function XorW(a: Word, b: Word): Word {
    Pow2Of64();
    XorBound(a, b, 64);
    Xor(a, b)
  }

  function AndW(a: Word, b: Word): Word {
    AndBound(a, b);
    And(a, b)
  }

  function NotW(a: Word): Word {
    0xFFFF_FFFF_FFFF_FFFF - a
  }

  lemma Pow2Of64()
    ensures Pow2(64) == 0x1_0000_0000_0000_0000
  {
    Pow2Of32();
    Pow2Byte(32);
    Pow2Byte(40);
    Pow2Byte(48);
    Pow2Byte(56);
  }

  function ShiftRight(x: Word, n: nat): Word {
    if n == 0 then x else ShiftRight(x / 2, n - 1)
  }

  // A rotation, one bit at a time.
  function RotateRight(x: Word, n: nat): Word
    decreases n
  {
    if n == 0 then x else RotateRight(x / 2 + 0x8000_0000_0000_0000 * (x % 2), n - 1)
  }

  // Section 3.2: the low n bits of a rotated word come to stand on top.
  lemma {:induction false} RotateIsSplit(x: Word, n: nat)
    requires n <= 64
    ensures RotateRight(x, n) == x / Pow2(n) + (x % Pow2(n)) * Pow2(64 - n)
    decreases n
  {
    Pow2Of64();
    if n == 0 {
      ModUnique(x, 1, x, 0);
    } else {
      var y: Word := x / 2 + 0x8000_0000_0000_0000 * (x % 2);
      RotateIsSplit(y, n - 1);
      hide RotateRight;
      RotateOnce(x, y, n);
    }
  }

  // One bit more: the bit taken off the bottom joins the bits on top.
  lemma RotateOnce(x: Word, y: Word, n: nat)
    requires 1 <= n <= 64 && y == x / 2 + 0x8000_0000_0000_0000 * (x % 2)
    ensures y / Pow2(n - 1) + (y % Pow2(n - 1)) * Pow2(64 - (n - 1)) == x / Pow2(n) + (x % Pow2(n)) * Pow2(64 - n)
  {
    assert Pow2(n) == 2 * Pow2(n - 1) && Pow2(64 - (n - 1)) == 2 * Pow2(64 - n);
    HalfProduct(n - 1, 63);
    Pow2Of63();
    hide Pow2;
    DivTwice(x, Pow2(n - 1));
    RotateParts(x / 2, x % 2, Pow2(n - 1), Pow2(64 - n), y);
  }

  lemma Pow2Of63()
    ensures Pow2(63) == 0x8000_0000_0000_0000
  {
    Pow2Of64();
    assert Pow2(64) == 2 * Pow2(63);
    hide Pow2;
  }

  lemma RotateParts(h: nat, b: nat, m: nat, k: nat, y: nat)
    requires m > 0 && m * k == 0x8000_0000_0000_0000 && y == h + 0x8000_0000_0000_0000 * b
    ensures y / m + (y % m) * (2 * k) == h / m + (b + 2 * (h % m)) * k
  {
    var q, r := h / m, h % m;
    DivMod(h, m);
    MulAssoc(m, k, b);
    MulAdd(m, q, k * b);
    ModUnique(y, m, q + k * b, r);
    Distribute(q, r, b, k);
  }

  lemma Distribute(q: int, r: int, b: int, k: int)
    ensures (q + k * b) + r * (2 * k) == q + (b + 2 * r) * k
  {
  }

  lemma {:induction false} HalfProduct(a: nat, n: nat)
    requires a <= n
    ensures Pow2(a) * Pow2(n - a) == Pow2(n)
  {
    if a == 0 {
    } else {
      HalfProduct(a - 1, n - 1);
      MulAssoc(2, Pow2(a - 1), Pow2(n - a));
    }
  }

  // The functions of section 4.1.3.
  function Ch(x: Word, y: Word, z: Word): Word {
    XorW(AndW(x, y), AndW(NotW(x), z))
  }

  function Maj(x: Word, y: Word, z: Word): Word {
    XorW(XorW(AndW(x, y), AndW(x, z)), AndW(y, z))
  }

  function BigSigma0(x: Word): Word {
    XorW(XorW(RotateRight(x, 28), RotateRight(x, 34)), RotateRight(x, 39))
  }

  function BigSigma1(x: Word): Word {
    XorW(XorW(RotateRight(x, 14), RotateRight(x, 18)), RotateRight(x, 41))
  }

  function SmallSigma0(x: Word): Word {
    XorW(XorW(RotateRight(x, 1), RotateRight(x, 8)), ShiftRight(x, 7))
  }

  function SmallSigma1(x: Word): Word {
    XorW(XorW(RotateRight(x, 19), RotateRight(x, 61)), ShiftRight(x, 6))
  }

  function InitialHash(): (h: seq<Word>)
    ensures |h| == 8
  {
    [0x6a09e667_f3bcc908, 0xbb67ae85_84caa73b, 0x3c6ef372_fe94f82b, 0xa54ff53a_5f1d36f1,
     0x510e527f_ade682d1, 0x9b05688c_2b3e6c1f, 0x1f83d9ab_fb41bd6b, 0x5be0cd19_137e2179]
  }

  // The constants of section 4.2.3.
  function RoundConstant(t: nat): Word {
    match t
    case 0 => 0x428a2f98_d728ae22 case 1 => 0x71374491_23ef65cd case 2 => 0xb5c0fbcf_ec4d3b2f case 3 => 0xe9b5dba5_8189dbbc
    case 4 => 0x3956c25b_f348b538 case 5 => 0x59f111f1_b605d019 case 6 => 0x923f82a4_af194f9b case 7 => 0xab1c5ed5_da6d8118
    case 8 => 0xd807aa98_a3030242 case 9 => 0x12835b01_45706fbe case 10 => 0x243185be_4ee4b28c case 11 => 0x550c7dc3_d5ffb4e2
    case 12 => 0x72be5d74_f27b896f case 13 => 0x80deb1fe_3b1696b1 case 14 => 0x9bdc06a7_25c71235 case 15 => 0xc19bf174_cf692694
    case 16 => 0xe49b69c1_9ef14ad2 case 17 => 0xefbe4786_384f25e3 case 18 => 0x0fc19dc6_8b8cd5b5 case 19 => 0x240ca1cc_77ac9c65
    case 20 => 0x2de92c6f_592b0275 case 21 => 0x4a7484aa_6ea6e483 case 22 => 0x5cb0a9dc_bd41fbd4 case 23 => 0x76f988da_831153b5
    case 24 => 0x983e5152_ee66dfab case 25 => 0xa831c66d_2db43210 case 26 => 0xb00327c8_98fb213f case 27 => 0xbf597fc7_beef0ee4
    case 28 => 0xc6e00bf3_3da88fc2 case 29 => 0xd5a79147_930aa725 case 30 => 0x06ca6351_e003826f case 31 => 0x14292967_0a0e6e70
    case 32 => 0x27b70a85_46d22ffc case 33 => 0x2e1b2138_5c26c926 case 34 => 0x4d2c6dfc_5ac42aed case 35 => 0x53380d13_9d95b3df
    case 36 => 0x650a7354_8baf63de case 37 => 0x766a0abb_3c77b2a8 case 38 => 0x81c2c92e_47edaee6 case 39 => 0x92722c85_1482353b
    case 40 => 0xa2bfe8a1_4cf10364 case 41 => 0xa81a664b_bc423001 case 42 => 0xc24b8b70_d0f89791 case 43 => 0xc76c51a3_0654be30
    case 44 => 0xd192e819_d6ef5218 case 45 => 0xd6990624_5565a910 case 46 => 0xf40e3585_5771202a case 47 => 0x106aa070_32bbd1b8
    case 48 => 0x19a4c116_b8d2d0c8 case 49 => 0x1e376c08_5141ab53 case 50 => 0x2748774c_df8eeb99 case 51 => 0x34b0bcb5_e19b48a8
    case 52 => 0x391c0cb3_c5c95a63 case 53 => 0x4ed8aa4a_e3418acb case 54 => 0x5b9cca4f_7763e373 case 55 => 0x682e6ff3_d6b2b8a3
    case 56 => 0x748f82ee_5defb2fc case 57 => 0x78a5636f_43172f60 case 58 => 0x84c87814_a1f0ab72 case 59 => 0x8cc70208_1a6439ec
    case 60 => 0x90befffa_23631e28 case 61 => 0xa4506ceb_de82bde9 case 62 => 0xbef9a3f7_b2c67915 case 63 => 0xc67178f2_e372532b
    case 64 => 0xca273ece_ea26619c case 65 => 0xd186b8c7_21c0c207 case 66 => 0xeada7dd6_cde0eb1e case 67 => 0xf57d4f7f_ee6ed178
    case 68 => 0x06f067aa_72176fba case 69 => 0x0a637dc5_a2c898a6 case 70 => 0x113f9804_bef90dae case 71 => 0x1b710b35_131c471b
    case 72 => 0x28db77f5_23047d84 case 73 => 0x32caab7b_40c72493 case 74 => 0x3c9ebe0a_15c9bebc case 75 => 0x431d67c4_9c100d4c
    case 76 => 0x4cc5d4be_cb3e42b6 case 77 => 0x597f299c_fc657e2a case 78 => 0x5fcb6fab_3ad6faec case _ => 0x6c44198c_4a475817
  }

  // Numbers as byte strings, most significant byte first.
  function BigEndian(b: Bytes): (v: nat)
    ensures v < Pow2(8 * |b|)
  {
    if b == [] then 0
    else
      Pow2Byte(8 * (|b| - 1));
      256 * BigEndian(b[..|b| - 1]) + b[|b| - 1]
  }

  function ToBigEndian(v: nat, n: nat): (b: Bytes)
    ensures |b| == n
  {
    if n == 0 then [] else ToBigEndian(v / 256, n - 1) + [v % 256]
  }

  // The high bytes of a number come before the low bytes.
  lemma {:induction false} ToBigEndianSplit(h: nat, l: nat, m: nat, n: nat)
    requires l < Pow2(8 * n)
    ensures ToBigEndian(h * Pow2(8 * n) + l, m + n) == ToBigEndian(h, m) + ToBigEndian(l, n)
  {
    if n == 0 {
    } else {
      hide ToBigEndian, Pow2;
      var p := Pow2(8 * (n - 1));
      Pow2Byte(8 * (n - 1));
      assert h * (256 * p) == 256 * (h * p) by { MulAssoc(h, 256, p); MulAssoc(256, h, p); }
      SplitByte(h * p, l);
      ToBigEndianNext(h * Pow2(8 * n) + l, m + n);
      ToBigEndianNext(l, n);
      ToBigEndianSplit(h, l / 256, m, n - 1);
      assert ToBigEndian(h, m) + (ToBigEndian(l / 256, n - 1) + [l % 256])
          == ToBigEndian(h, m) + ToBigEndian(l / 256, n - 1) + [l % 256];
    }
  }

  lemma ToBigEndianNext(v: nat, n: nat)
    requires n > 0
    ensures ToBigEndian(v, n) == ToBigEndian(v / 256, n - 1) + [v % 256]
  {
  }

  lemma SplitByte(a: nat, l: nat)
    ensures (256 * a + l) / 256 == a + l / 256 && (256 * a + l) % 256 == l % 256
  {
  }

  // ---- the message schedule and the rounds of section 6.4.2 ----

  function BlockWord(block: Bytes, t: nat): Word
    requires |block| == 128 && t < 16
  {
    Pow2Of64();
    BigEndian(block[8 * t..8 * t + 8])
  }

  function Schedule(block: Bytes, t: nat): Word
    requires |block| == 128 && t < 80
  {
    if t < 16 then BlockWord(block, t)
    else AddW(AddW(SmallSigma1(Schedule(block, t - 2)), Schedule(block, t - 7)),
              AddW(SmallSigma0(Schedule(block, t - 15)), Schedule(block, t - 16)))
  }

  lemma ScheduleNext(block: Bytes, t: nat)
    requires |block| == 128 && 16 <= t < 80
    ensures Schedule(block, t)
         == AddW(AddW(SmallSigma1(Schedule(block, t - 2)), Schedule(block, t - 7)),
                 AddW(SmallSigma0(Schedule(block, t - 15)), Schedule(block, t - 16)))
  {
    hide AddW, SmallSigma0, SmallSigma1;
  }

  datatype Working = Working(a: Word, b: Word, c: Word, d: Word, e: Word, f: Word, g: Word, h: Word)

  function Round(s: Working, k: Word, w: Word): Working {
    var t1 := AddW(AddW(AddW(s.h, BigSigma1(s.e)), AddW(Ch(s.e, s.f, s.g), k)), w);
    var t2 := AddW(BigSigma0(s.a), Maj(s.a, s.b, s.c));
    Working(AddW(t1, t2), s.a, s.b, s.c, AddW(s.d, t1), s.e, s.f, s.g)
  }

  // The working variables after the first n rounds.
  function Rounds(s: Working, block: Bytes, n: nat): Working
    requires |block| == 128 && n <= 80
  {
    if n == 0 then s else Round(Rounds(s, block, n - 1), RoundConstant(n - 1), Schedule(block, n - 1))
  }

  lemma RoundsNext(s: Working, block: Bytes, n: nat)
    requires |block| == 128 && n <= 80
    ensures Rounds(s, block, n) == if n == 0 then s else Round(Rounds(s, block, n - 1), RoundConstant(n - 1), Schedule(block, n - 1))
  {
    hide Round, Schedule, RoundConstant;
  }

  function Load(h: seq<Word>): Working
    requires |h| == 8
  {
    Working(h[0], h[1], h[2], h[3], h[4], h[5], h[6], h[7])
  }

  function Compress(h: seq<Word>, block: Bytes): (r: seq<Word>)
    requires |h| == 8 && |block| == 128
    ensures |r| == 8
  {
    var s := Rounds(Load(h), block, 80);
    [AddW(h[0], s.a), AddW(h[1], s.b), AddW(h[2], s.c), AddW(h[3], s.d),
     AddW(h[4], s.e), AddW(h[5], s.f), AddW(h[6], s.g), AddW(h[7], s.h)]
  }

  // The hash value after the whole blocks of m.
  function Chain(m: Bytes): (h: seq<Word>)
    requires |m| % 128 == 0
    ensures |h| == 8
  {
    if m == [] then InitialHash() else Compress(Chain(m[..|m| - 128]), m[|m| - 128..])
  }

  function ZeroBytes(n: nat): (z: Bytes)
    ensures |z| == n
    ensures forall k :: 0 <= k < n ==> z[k] == 0
  {
    seq(n, _ => 0)
  }

  function PadZeros(len: nat): (k: nat)
    ensures k < 128 && (len + 1 + k + 16) % 128 == 0
  {
    (239 - len % 128) % 128
  }

  // Section 5.1.2: a one bit, the fewest zeros that make whole blocks, and the length in bits. The
  // length field holds the length modulo 2^128.
  function Padding(len: nat): (p: Bytes)
    ensures (len + |p|) % 128 == 0 && 17 <= |p| <= 144
  {
    [0x80] + ZeroBytes(PadZeros(len))
      + ToBigEndian((8 * len) % 0x1_0000_0000_0000_0000_0000_0000_0000_0000, 16)
  }

  function HashBytes(h: seq<Word>): (b: Bytes)
    ensures |b| == 8 * |h|
  {
    if h == [] then [] else HashBytes(h[..|h| - 1]) + ToBigEndian(h[|h| - 1], 8)
  }

  function Digest(m: Bytes): (d: Bytes)
    ensures |d| == 64
  {
    HashBytes(Chain(m + Padding(|m|)))
  }

  // ---- the keyed hash of section 4 of FIPS 198-1 ----

  function BlockKey(key: Bytes): (k: Bytes)
    ensures |k| == 128
  {
    if |key| <= 128 then key + ZeroBytes(128 - |key|) else Digest(key) + ZeroBytes(64)
  }

  function XorPad(k: Bytes, pad: Byte): (x: Bytes)
    ensures |x| == |k|
    ensures forall i :: 0 <= i < |k| ==> x[i] == XorByte(k[i], pad)
  {
    seq(|k|, i requires 0 <= i < |k| => XorByte(k[i], pad))
  }

  function Hmac(key: Bytes, text: Bytes): (t: Bytes)
    ensures |t| == 64
  {
    Digest(XorPad(BlockKey(key), 0x5C) + Digest(XorPad(BlockKey(key), 0x36) + text))
  }
}
