/** What the functions of SHA-512 mean: byte order, bit by bit, and rounds that can be undone. */
module SHA2Laws {
  import opened Arith
  import opened Bits
  import opened Bytes
  import opened SHA2

  // ---- byte order ----

  lemma BigEndianNext(b: Bytes)
    requires b != []
    ensures BigEndian(b) == 256 * BigEndian(b[..|b| - 1]) + b[|b| - 1]
  {
  }

  lemma {:induction false} BigEndianOfBytes(v: nat, n: nat)
    requires v < Pow2(8 * n)
    ensures BigEndian(ToBigEndian(v, n)) == v
  {
    if n == 0 {
      assert Pow2(0) == 1;
    } else {
      hide *;
      var b := ToBigEndian(v, n);
      Pow2Byte(8 * (n - 1));
      HighPart(v, Pow2(8 * (n - 1)));
      ToBigEndianNext(v, n);
      BigEndianNext(b);
      assert b[..n - 1] == ToBigEndian(v / 256, n - 1);
      BigEndianOfBytes(v / 256, n - 1);
    }
  }

  lemma HighPart(v: nat, p: nat)
    requires v < 256 * p
    ensures v / 256 < p && v == 256 * (v / 256) + v % 256
  {
  }

  lemma {:induction false} BytesOfBigEndian(b: Bytes)
    ensures ToBigEndian(BigEndian(b), |b|) == b
  {
    if b == [] {
    } else {
      var n := |b| - 1;
      BytesOfBigEndian(b[..n]);
      BigEndianNext(b);
      ToBigEndianNext(BigEndian(b), |b|);
      hide ToBigEndian, BigEndian;
      assert b == b[..n] + [b[n]];
    }
  }

  function Backwards(b: Bytes): (r: Bytes)
    ensures |r| == |b|
    ensures forall i :: 0 <= i < |b| ==> r[i] == b[|b| - 1 - i]
  {
    seq(|b|, i requires 0 <= i < |b| => b[|b| - 1 - i])
  }

  // The first byte of a word is the most significant one: the other order than that of the host.
  lemma {:induction false} BigEndianIsBackwards(b: Bytes)
    ensures BigEndian(b) == LE(Backwards(b))
  {
    if b == [] {
      assert Backwards(b) == [];
    } else {
      var n, r := |b| - 1, Backwards(b);
      BigEndianIsBackwards(b[..n]);
      BigEndianNext(b);
      assert r[1..] == Backwards(b[..n]);
      LENext(r);
      hide BigEndian, LE;
    }
  }

  lemma {:induction false} HashWord(h: seq<Word>, i: nat)
    requires i < |h|
    ensures HashBytes(h)[8 * i..8 * i + 8] == ToBigEndian(h[i], 8)
  {
    hide ToBigEndian;
    var n := |h| - 1;
    assert HashBytes(h) == HashBytes(h[..n]) + ToBigEndian(h[n], 8);
    if i < n {
      HashWord(h[..n], i);
      assert HashBytes(h)[8 * i..8 * i + 8] == HashBytes(h[..n])[8 * i..8 * i + 8];
    }
  }

  // A block is its sixteen words, most significant bytes first, one after the other.
  lemma BlockIsItsWords(block: Bytes)
    requires |block| == 128
    ensures HashBytes(seq(16, t requires 0 <= t < 16 => BlockWord(block, t))) == block
  {
    var words := seq(16, t requires 0 <= t < 16 => BlockWord(block, t));
    forall k | 0 <= k < 128
      ensures HashBytes(words)[k] == block[k]
    {
      var t := k / 8;
      HashWord(words, t);
      BytesOfBigEndian(block[8 * t..8 * t + 8]);
      hide HashBytes, ToBigEndian, BigEndian;
      assert HashBytes(words)[8 * t..8 * t + 8][k % 8] == block[8 * t..8 * t + 8][k % 8];
    }
  }

  // ---- bit by bit ----

  lemma {:induction false} XorBit(a: nat, b: nat, t: nat)
    ensures Bit(Xor(a, b), t) <==> Bit(a, t) != Bit(b, t)
    decreases t
  {
    XorNext(a, b);
    hide Xor;
    if t == 0 {
      BitZero(a);
      BitZero(b);
      BitZero(Xor(a, b));
    } else {
      hide Bit;
      XorBit(a / 2, b / 2, t - 1);
      BitHalf(a, t);
      BitHalf(b, t);
      BitHalf(Xor(a, b), t);
    }
  }

  lemma AndNext(a: nat, b: nat)
    ensures And(a, b) / 2 == And(a / 2, b / 2) && And(a, b) % 2 == if a % 2 == 1 && b % 2 == 1 then 1 else 0
  {
  }

  lemma {:induction false} AndBit(a: nat, b: nat, t: nat)
    ensures Bit(And(a, b), t) <==> Bit(a, t) && Bit(b, t)
    decreases t
  {
    AndNext(a, b);
    hide And;
    if t == 0 {
      BitZero(a);
      BitZero(b);
      BitZero(And(a, b));
    } else {
      hide Bit;
      AndBit(a / 2, b / 2, t - 1);
      BitHalf(a, t);
      BitHalf(b, t);
      BitHalf(And(a, b), t);
    }
  }

  // Complement, within the first n bits.
  lemma {:induction false} NotBit(a: nat, n: nat, t: nat)
    requires a < Pow2(n) && t < n
    ensures Bit(Pow2(n) - 1 - a, t) <==> !Bit(a, t)
    decreases t
  {
    var c := Pow2(n) - 1 - a;
    assert Pow2(n) == 2 * Pow2(n - 1);
    assert c % 2 == 1 - a % 2 && c / 2 == Pow2(n - 1) - 1 - a / 2;
    if t == 0 {
      BitZero(a);
      BitZero(c);
    } else {
      hide Bit, Pow2;
      NotBit(a / 2, n - 1, t - 1);
      BitHalf(a, t);
      BitHalf(c, t);
    }
  }

  // Ch chooses y where x has a one, and z elsewhere.
  lemma ChBit(x: Word, y: Word, z: Word, t: nat)
    requires t < 64
    ensures Bit(Ch(x, y, z), t) == if Bit(x, t) then Bit(y, t) else Bit(z, t)
  {
    Pow2Of64();
    hide Bit, Xor, And, Pow2;
    NotBit(x, 64, t);
    AndBit(x, y, t);
    AndBit(NotW(x), z, t);
    XorBit(AndW(x, y), AndW(NotW(x), z), t);
  }

  // Maj is what at least two of three say.
  lemma MajBit(x: Word, y: Word, z: Word, t: nat)
    ensures Bit(Maj(x, y, z), t) ==
      ((Bit(x, t) && Bit(y, t)) || (Bit(x, t) && Bit(z, t)) || (Bit(y, t) && Bit(z, t)))
  {
    hide Bit, Xor, And, Pow2;
    AndBit(x, y, t);
    AndBit(x, z, t);
    AndBit(y, z, t);
    XorBit(AndW(x, y), AndW(x, z), t);
    XorBit(XorW(AndW(x, y), AndW(x, z)), AndW(y, z), t);
  }

  lemma RotateNext(x: Word, n: nat)
    ensures RotateRight(x, n) == if n == 0 then x else RotateRight(x / 2 + 0x8000_0000_0000_0000 * (x % 2), n - 1)
  {
  }

  // A rotation moves bit t + n to bit t, around the word.
  lemma {:induction false} RotateBit(x: Word, n: nat, t: nat)
    requires t < 64
    ensures Bit(RotateRight(x, n), t) == Bit(x, (t + n) % 64)
    decreases n
  {
    hide RotateRight, Bit;
    RotateNext(x, n);
    if n == 0 {
    } else {
      var y: Word := x / 2 + 0x8000_0000_0000_0000 * (x % 2);
      RotateBit(y, n - 1, t);
      OnceRotatedBit(x, y, (t + n - 1) % 64);
      assert ((t + n - 1) % 64 + 1) % 64 == (t + n) % 64;
    }
  }

  lemma OnceRotatedBit(x: Word, y: Word, t: nat)
    requires t < 64 && y == x / 2 + 0x8000_0000_0000_0000 * (x % 2)
    ensures Bit(y, t) == Bit(x, (t + 1) % 64)
  {
    Pow2Of63();
    if t < 63 {
      hide Pow2;
      LowBit(x / 2, x % 2, 63, t);
      BitHalf(x, t + 1);
    } else {
      DivExact(x / 2, x % 2);
      BitZero(x);
    }
  }

  lemma DivExact(h: nat, b: nat)
    requires h < 0x8000_0000_0000_0000 && b < 2
    ensures ((h + 0x8000_0000_0000_0000 * b) / 0x8000_0000_0000_0000) % 2 == b
  {
  }

  lemma {:induction false} ShiftBit(x: Word, n: nat, t: nat)
    ensures Bit(ShiftRight(x, n), t) == Bit(x, t + n)
    decreases n
  {
    if n == 0 {
    } else {
      assert ShiftRight(x, n) == ShiftRight(x / 2, n - 1);
      hide ShiftRight, Bit;
      ShiftBit(x / 2, n - 1, t);
      BitHalf(x, t + n);
    }
  }

  // The four sums of section 4.1.3: each bit is the parity of three bits of the word.
  lemma BigSigmaBits(x: Word, t: nat)
    requires t < 64
    ensures Bit(BigSigma0(x), t) == ((Bit(x, (t + 28) % 64) != Bit(x, (t + 34) % 64)) != Bit(x, (t + 39) % 64))
    ensures Bit(BigSigma1(x), t) == ((Bit(x, (t + 14) % 64) != Bit(x, (t + 18) % 64)) != Bit(x, (t + 41) % 64))
  {
    hide Bit, Xor, Pow2, RotateRight;
    ParityBit(RotateRight(x, 28), RotateRight(x, 34), RotateRight(x, 39), t);
    ParityBit(RotateRight(x, 14), RotateRight(x, 18), RotateRight(x, 41), t);
    RotateBit(x, 28, t);
    RotateBit(x, 34, t);
    RotateBit(x, 39, t);
    RotateBit(x, 14, t);
    RotateBit(x, 18, t);
    RotateBit(x, 41, t);
  }

  lemma SmallSigmaBits(x: Word, t: nat)
    requires t < 64
    ensures Bit(SmallSigma0(x), t) == ((Bit(x, (t + 1) % 64) != Bit(x, (t + 8) % 64)) != Bit(x, t + 7))
    ensures Bit(SmallSigma1(x), t) == ((Bit(x, (t + 19) % 64) != Bit(x, (t + 61) % 64)) != Bit(x, t + 6))
  {
    hide Bit, Xor, Pow2, RotateRight, ShiftRight;
    ParityBit(RotateRight(x, 1), RotateRight(x, 8), ShiftRight(x, 7), t);
    ParityBit(RotateRight(x, 19), RotateRight(x, 61), ShiftRight(x, 6), t);
    RotateBit(x, 1, t);
    RotateBit(x, 8, t);
    RotateBit(x, 19, t);
    RotateBit(x, 61, t);
    ShiftBit(x, 7, t);
    ShiftBit(x, 6, t);
  }

  lemma ParityBit(a: Word, b: Word, c: Word, t: nat)
    ensures Bit(XorW(XorW(a, b), c), t) == ((Bit(a, t) != Bit(b, t)) != Bit(c, t))
  {
    hide Bit, Xor, Pow2;
    XorBit(a, b, t);
    XorBit(XorW(a, b), c, t);
  }

  // ---- a round can be undone ----

  function SubW(a: Word, b: Word): Word {
    (a - b) % 0x1_0000_0000_0000_0000
  }

  lemma SubUndoesAdd(a: Word, b: Word)
    ensures SubW(AddW(a, b), b) == a && SubW(AddW(a, b), a) == b
  {
  }

  // The working variables before a round, from those after it.
  function Unround(s: Working, k: Word, w: Word): Working {
    var t2 := AddW(BigSigma0(s.b), Maj(s.b, s.c, s.d));
    var t1 := SubW(s.a, t2);
    var h := SubW(SubW(SubW(t1, w), AddW(Ch(s.f, s.g, s.h), k)), BigSigma1(s.f));
    Working(s.b, s.c, s.d, SubW(s.e, t1), s.f, s.g, s.h, h)
  }

  lemma RoundUndone(s: Working, k: Word, w: Word)
    ensures Unround(Round(s, k, w), k, w) == s
  {
    hide AddW, SubW, Ch, Maj, BigSigma0, BigSigma1;
    var u := AddW(Ch(s.e, s.f, s.g), k);
    var v := AddW(s.h, BigSigma1(s.e));
    var t1, t2 := AddW(AddW(v, u), w), AddW(BigSigma0(s.a), Maj(s.a, s.b, s.c));
    SubUndoesAdd(t1, t2);
    SubUndoesAdd(s.d, t1);
    SubUndoesAdd(AddW(v, u), w);
    SubUndoesAdd(v, u);
    SubUndoesAdd(s.h, BigSigma1(s.e));
  }

  // So the rounds lose nothing: they take different working variables to different ones.
  lemma {:induction false} RoundsInjective(s: Working, s': Working, block: Bytes, n: nat)
    requires |block| == 128 && n <= 80 && Rounds(s, block, n) == Rounds(s', block, n)
    ensures s == s'
    decreases n
  {
    hide *;
    RoundsNext(s, block, n);
    RoundsNext(s', block, n);
    if n == 0 {
    } else {
      var k, w := RoundConstant(n - 1), Schedule(block, n - 1);
      RoundUndone(Rounds(s, block, n - 1), k, w);
      RoundUndone(Rounds(s', block, n - 1), k, w);
      RoundsInjective(s, s', block, n - 1);
    }
  }

  lemma ScheduleUndone(block: Bytes, t: nat)
    requires |block| == 128 && 16 <= t < 80
    ensures Schedule(block, t - 16) ==
      SubW(SubW(SubW(Schedule(block, t), SmallSigma1(Schedule(block, t - 2))), Schedule(block, t - 7)),
           SmallSigma0(Schedule(block, t - 15)))
  {
    ScheduleNext(block, t);
    hide AddW, SubW, SmallSigma0, SmallSigma1, Schedule;
    FourSummands(SmallSigma1(Schedule(block, t - 2)), Schedule(block, t - 7),
                 SmallSigma0(Schedule(block, t - 15)), Schedule(block, t - 16));
  }

  lemma FourSummands(a: Word, b: Word, c: Word, d: Word)
    ensures SubW(SubW(SubW(AddW(AddW(a, b), AddW(c, d)), a), b), c) == d
  {
    AddAssociates(a, b, AddW(c, d));
    hide AddW, SubW;
    SubUndoesAdd(a, AddW(b, AddW(c, d)));
    SubUndoesAdd(b, AddW(c, d));
    SubUndoesAdd(c, d);
  }

  lemma AddAssociates(a: Word, b: Word, c: Word)
    ensures AddW(AddW(a, b), c) == AddW(a, AddW(b, c))
  {
  }

  // Nor does the schedule lose anything: its last sixteen words determine the block.
  lemma ScheduleDetermines(block: Bytes, block': Bytes)
    requires |block| == |block'| == 128
    requires forall t :: 64 <= t < 80 ==> Schedule(block, t) == Schedule(block', t)
    ensures block == block'
  {
    hide Schedule, BlockWord;
    ScheduleBackwards(block, block', 0);
    forall t | 0 <= t < 16
      ensures BlockWord(block, t) == BlockWord(block', t)
    {
      FirstWords(block, t);
      FirstWords(block', t);
    }
    WordsDetermine(block, block');
  }

  lemma WordsDetermine(block: Bytes, block': Bytes)
    requires |block| == |block'| == 128 && forall t :: 0 <= t < 16 ==> BlockWord(block, t) == BlockWord(block', t)
    ensures block == block'
  {
    hide BlockWord, HashBytes;
    BlockIsItsWords(block);
    BlockIsItsWords(block');
    assert seq(16, t requires 0 <= t < 16 => BlockWord(block, t)) == seq(16, t requires 0 <= t < 16 => BlockWord(block', t));
  }

  lemma FirstWords(block: Bytes, t: nat)
    requires |block| == 128 && t < 16
    ensures Schedule(block, t) == BlockWord(block, t)
  {
    hide BlockWord;
  }

  lemma {:induction false} ScheduleBackwards(block: Bytes, block': Bytes, n: nat)
    requires |block| == |block'| == 128 && n <= 64
    requires forall t :: 64 <= t < 80 ==> Schedule(block, t) == Schedule(block', t)
    ensures forall t :: n <= t < 80 ==> Schedule(block, t) == Schedule(block', t)
    decreases 64 - n
  {
    hide Schedule;
    if n == 64 {
    } else {
      ScheduleBackwards(block, block', n + 1);
      ScheduleUndone(block, n + 16);
      ScheduleUndone(block', n + 16);
      hide SubW, SmallSigma0, SmallSigma1;
    }
  }

  // What the rounds make of a hash value is the difference between the new one and the old.
  lemma CompressAdds(h: seq<Word>, block: Bytes)
    requires |h| == 8 && |block| == 128
    ensures Load(seq(8, i requires 0 <= i < 8 => SubW(Compress(h, block)[i], h[i]))) == Rounds(Load(h), block, 80)
  {
    hide Rounds, AddW, SubW;
    var s := Rounds(Load(h), block, 80);
    SubUndoesAdd(h[0], s.a);
    SubUndoesAdd(h[1], s.b);
    SubUndoesAdd(h[2], s.c);
    SubUndoesAdd(h[3], s.d);
    SubUndoesAdd(h[4], s.e);
    SubUndoesAdd(h[5], s.f);
    SubUndoesAdd(h[6], s.g);
    SubUndoesAdd(h[7], s.h);
  }

  // ---- padding ----

  // A padded message is whole blocks: the message, a one bit, zeros that would not fill a block more, and the
  // length in bits, most significant byte first.
  lemma PaddedIs(m: Bytes)
    ensures var (p, n) := (m + Padding(|m|), |m + Padding(|m|)|);
            && n % 128 == 0 && |m| + 17 <= n < |m| + 17 + 128 && p[..|m|] == m && p[|m|] == 0x80
            && (forall i :: |m| < i < n - 16 ==> p[i] == 0)
            && BigEndian(p[n - 16..]) == (8 * |m|) % 0x1_0000_0000_0000_0000_0000_0000_0000_0000
  {
    hide BigEndian, ToBigEndian, Pow2;
    var v := (8 * |m|) % 0x1_0000_0000_0000_0000_0000_0000_0000_0000;
    var p, n := m + Padding(|m|), |m + Padding(|m|)|;
    assert p[n - 16..] == ToBigEndian(v, 16);
    Pow2Of64();
    HalfProduct(64, 128);
    BigEndianOfBytes(v, 16);
  }

  // So it determines the message, if that is not longer than the length field can say.
  lemma PaddedDetermines(m: Bytes, m': Bytes)
    requires 8 * |m| < 0x1_0000_0000_0000_0000_0000_0000_0000_0000 && 8 * |m'| < 0x1_0000_0000_0000_0000_0000_0000_0000_0000
    requires m + Padding(|m|) == m' + Padding(|m'|)
    ensures m == m'
  {
    PaddedIs(m);
    PaddedIs(m');
    hide Padding, BigEndian;
    assert |m| == |m'|;
  }

  // ---- the keyed hash ----

  function Masked(k: Bytes, pad: Byte): Bytes
    requires |k| <= 128
  {
    seq(|k|, i requires 0 <= i < |k| => XorByte(k[i], pad)) + seq(128 - |k|, _ => pad)
  }

  // HMAC with a key of at most a block: the key, extended with zeros, is masked with 0x36 for the inner hash
  // and with 0x5c for the outer one.
  lemma HmacOfShortKey(key: Bytes, text: Bytes)
    requires |key| <= 128
    ensures Hmac(key, text) == Digest(Masked(key, 0x5C) + Digest(Masked(key, 0x36) + text))
  {
    hide Digest;
    MaskedKey(key, 0x5C);
    MaskedKey(key, 0x36);
  }

  lemma MaskedKey(key: Bytes, pad: Byte)
    requires |key| <= 128
    ensures XorPad(BlockKey(key), pad) == Masked(key, pad)
  {
    ZeroXor(pad);
    hide XorByte;
    assert forall i :: |key| <= i < 128 ==> BlockKey(key)[i] == 0;
  }

  lemma ZeroXor(pad: Byte)
    ensures XorByte(0, pad) == pad
  {
    XorIsZero(pad);
  }

  lemma {:induction false} XorIsZero(a: nat)
    ensures Xor(0, a) == a
  {
    if a == 0 {
    } else {
      XorIsZero(a / 2);
    }
  }

  // And with a longer one, it is HMAC with the key's digest.
  lemma HmacOfLongKey(key: Bytes, text: Bytes)
    requires |key| > 128
    ensures Hmac(key, text) == Hmac(Digest(key), text)
  {
    hide Digest, XorPad;
    assert BlockKey(key) == BlockKey(Digest(key));
  }
}
