/** Byte strings read as little-endian numbers. */
module Bytes {
  import opened Arith
  import opened Bits

  type Byte = x: nat | x < 256
  type Bytes = seq<Byte>

  function LE(s: Bytes): nat {
    if s == [] then 0 else s[0] + 256 * LE(s[1..])
  }

  function ToLE(v: nat, n: nat): (s: Bytes)
    ensures |s| == n
  {
    if n == 0 then [] else [v % 256] + ToLE(v / 256, n - 1)
  }

  // The first byte of a string and of a number.
  lemma LENext(s: Bytes)
    requires s != []
    ensures LE(s) == s[0] + 256 * LE(s[1..]) && LE(s) % 256 == s[0] && LE(s) / 256 == LE(s[1..])
  {
  }

  lemma LEEmpty()
    ensures LE([]) == 0
  {
  }

  lemma ToLENext(v: nat, n: nat)
    requires n > 0
    ensures ToLE(v, n) == [v % 256] + ToLE(v / 256, n - 1)
  {
  }

  lemma {:induction false} ToLEOfLE(s: Bytes)
    ensures ToLE(LE(s), |s|) == s
  {
    if s == [] {
    } else {
      LENext(s);
      ToLENext(LE(s), |s|);
      hide LE, ToLE;
      ToLEOfLE(s[1..]);
      assert s == [s[0]] + s[1..];
    }
  }

  lemma {:induction false} LEOfToLE(v: nat, n: nat)
    requires v < Pow2(8 * n)
    ensures LE(ToLE(v, n)) == v
  {
    if n == 0 {
    } else {
      Pow2Byte(8 * (n - 1));
      LEOfToLE(v / 256, n - 1);
    }
  }

  lemma Pow2Byte(n: nat)
    ensures Pow2(n + 8) == 256 * Pow2(n)
  {
    assert Pow2(n + 4) == 16 * Pow2(n) by { assert Pow2(n + 2) == 4 * Pow2(n); }
    assert Pow2(n + 6) == 4 * Pow2(n + 4);
  }

  // Bit t of a number.
  predicate Bit(k: nat, t: nat) {
    (k / Pow2(t)) % 2 == 1
  }

  // Bit t of a little-endian number is bit t % 8 of byte t / 8.
  lemma {:induction false} ByteBit(s: Bytes, t: nat)
    requires t < 8 * |s|
    ensures Bit(LE(s), t) == Bit(s[t / 8], t % 8)
  {
    if t >= 8 {
      ByteBit(s[1..], t - 8);
      Pow2Byte(t - 8);
      DivConst(LE(s), Pow2(t - 8));
      assert s[1..][(t - 8) / 8] == s[t / 8];
    } else {
      LowBit(s[0], LE(s[1..]), 8, t);
      assert Pow2(8) == 256;
    }
  }

  lemma {:induction false} LowBit(b: nat, h: nat, n: nat, t: nat)
    requires t < n
    ensures Bit(b + Pow2(n) * h, t) == Bit(b, t)
  {
    var m := Pow2(n - 1);
    assert Pow2(n) * h == 2 * (m * h) by { MulAssoc(2, m, h); }
    var k := b + 2 * (m * h);
    assert k / 2 == b / 2 + m * h && k % 2 == b % 2;
    if t == 0 {
      BitZero(b);
      BitZero(k);
    } else {
      hide Bit, Pow2;
      LowBit(b / 2, h, n - 1, t - 1);
      BitHalf(k, t);
      BitHalf(b, t);
    }
  }

  lemma BitZero(k: nat)
    ensures Bit(k, 0) <==> k % 2 == 1
  {
    ModUnique(k, 1, k, 0);
  }

  lemma BitHalf(k: nat, t: nat)
    requires t > 0
    ensures Bit(k, t) == Bit(k / 2, t - 1)
  {
    DivTwice(k, Pow2(t - 1));
  }

  lemma DivConst(a: nat, m: nat)
    requires m > 0
    ensures a / (256 * m) == (a / 256) / m
  {
    var q, r := (a / 256) / m, (a / 256) % m;
    DivMod(a / 256, m);
    assert a == 256 * (m * q) + (256 * r + a % 256);
    MulAssoc(256, m, q);
    ModUnique(a, 256 * m, q, 256 * r + a % 256);
  }

  lemma {:induction false} LESnoc(s: Bytes, d: Byte)
    ensures LE(s + [d]) == LE(s) + Pow2(8 * |s|) * d
  {
    if s == [] {
      assert [] + [d] == [d];
    } else {
      assert (s + [d])[1..] == s[1..] + [d];
      LESnoc(s[1..], d);
      Pow2Byte(8 * (|s| - 1));
      MulAssoc(256, Pow2(8 * (|s| - 1)), d);
    }
  }

  lemma {:induction false} LEBound(b: Bytes)
    ensures LE(b) < Pow2(8 * |b|)
  {
    if b == [] {
    } else {
      LEBound(b[1..]);
      Pow2Byte(8 * (|b| - 1));
    }
  }

  // Bitwise operations on bytes.
  function XorByte(a: Byte, b: Byte): Byte {
    assert Pow2(8) == 256;
    XorBound(a, b, 8);
    Xor(a, b)
  }

  function OrByte(a: Byte, b: Byte): Byte {
    assert Pow2(8) == 256;
    OrBound(a, b, 8);
    Or(a, b)
  }

  function AndByte(a: Byte, b: Byte): Byte {
    AndBound(a, b);
    And(a, b)
  }

  // A scalar with its three lowest bits and its top bit clear and the bit below the top set.
  function Clamp(f: Bytes): (c: Bytes)
    requires |f| == 32
    ensures |c| == 32
  {
    var first: Byte, last: Byte := f[0] - f[0] % 8, 64 + f[31] % 64;
    f[0 := first][31 := last]
  }

  lemma SmallPowers()
    ensures Pow2(5) == 32 && Pow2(6) == 64 && Pow2(7) == 128
  {
  }

  lemma PruneFirst(first: Byte)
    ensures And(first, 0xF8) == first - first % 8
  {
    hide *;
    SmallPowers();
    AndLowMask(first / 8, 5);
    AndTwice(first, 0x7C);
    AndTwice(first / 2, 0x3E);
    AndTwice(first / 4, 0x1F);
  }

  lemma PruneLast(last: Byte)
    ensures And(last, 0x7F) == last % 128 && Or(last % 128, 0x40) == 64 + last % 64
  {
    hide *;
    SmallPowers();
    AndLowMask(last, 7);
    OrSingleBit(last % 128, 6);
  }

  lemma AndTwice(a: nat, b: nat)
    ensures And(a, 2 * b) == 2 * And(a / 2, b)
  {
  }

  // The bits that clamping keeps in the first and in the last byte.
  lemma HighBitsKept(x: Byte, t: nat)
    requires t >= 3
    ensures Bit(x - x % 8, t) == Bit(x, t)
  {
    hide Bit;
    BitOfEighth(x, t);
    BitOfEighth(x - x % 8, t);
    assert (x - x % 8) / 8 == x / 8;
  }

  lemma BitOfEighth(x: nat, t: nat)
    requires t >= 3
    ensures Bit(x, t) == Bit(x / 8, t - 3)
  {
    hide Bit;
    BitHalf(x, t);
    BitHalf(x / 2, t - 1);
    BitHalf(x / 4, t - 2);
    assert x / 2 / 2 == x / 4 && x / 4 / 2 == x / 8;
  }

  lemma LowBitsKept(x: Byte, t: nat)
    requires t < 6
    ensures Bit(64 + x % 64, t) == Bit(x, t)
  {
    SmallPowers();
    hide Bit, Pow2;
    LowBit(x % 64, 1, 6, t);
    LowBit(x % 64, x / 64, 6, t);
  }

  lemma ClampedByte(f: Bytes, i: nat)
    requires |f| == 32 && i < 32
    ensures Clamp(f)[i] == if i == 0 then f[0] - f[0] % 8 else if i == 31 then 64 + f[31] % 64 else f[i]
  {
  }

  lemma ClampedBit(f: Bytes, i: nat, t: nat)
    requires |f| == 32 && i < 32 && t < 8 && (i == 0 ==> t >= 3) && (i == 31 ==> t < 6)
    ensures Bit(Clamp(f)[i], t) == Bit(f[i], t)
  {
    ClampedByte(f, i);
    hide *;
    if i == 0 {
      HighBitsKept(f[0], t);
    } else if i == 31 {
      LowBitsKept(f[31], t);
    }
  }

  lemma ClampBit(f: Bytes, t: nat)
    requires |f| == 32 && 3 <= t < 254
    ensures Bit(LE(Clamp(f)), t) == Bit(LE(f), t)
  {
    hide *;
    ByteBit(Clamp(f), t);
    ByteBit(f, t);
    ClampedBit(f, t / 8, t % 8);
  }

  lemma ClampRange(f: Bytes)
    requires |f| == 32
    ensures LE(Clamp(f)) % 8 == 0 && Pow2(254) <= LE(Clamp(f)) < Pow2(255)
  {
    var c := Clamp(f);
    assert 64 <= c[31] < 128 && c[0] % 8 == 0 && c[..31] + [c[31]] == c;
    TopPowers();
    hide *;
    LENext(c);
    LESnoc(c[..31], c[31]);
    LEBound(c[..31]);
    EightDivides(LE(c), c[0]);
    MulMono(Pow2(248), 64, c[31]);
    MulMono(Pow2(248), c[31], 127);
  }

  // A clamped scalar is a multiple of eight from 2^254 on and below 2^255, with the other bits of the string.
  lemma ClampMeans(f: Bytes)
    requires |f| == 32
    ensures var n := LE(Clamp(f));
            && n % 8 == 0 && Pow2(254) <= n < Pow2(255)
            && forall t :: 3 <= t < 254 ==> Bit(n, t) == Bit(LE(f), t)
  {
    hide *;
    ClampRange(f);
    forall t | 3 <= t < 254
      ensures Bit(LE(Clamp(f)), t) == Bit(LE(f), t)
    {
      ClampBit(f, t);
    }
  }

  lemma TopPowers()
    ensures Pow2(254) == 64 * Pow2(248) && Pow2(255) == 128 * Pow2(248)
  {
    assert Pow2(251) == 8 * Pow2(248);
    assert Pow2(254) == 8 * Pow2(251);
  }

  lemma EightDivides(n: nat, b: nat)
    requires n % 256 == b && b % 8 == 0
    ensures n % 8 == 0
  {
  }

  method ClampBytes(buf: array<Byte>)
    requires buf.Length >= 32
    modifies buf
    ensures buf[..32] == Clamp(old(buf[..32]))
    ensures forall k :: 32 <= k < buf.Length ==> buf[k] == old(buf[k])
  {
    hide And, Or, Pow2;
    PruneFirst(buf[0]);
    PruneLast(buf[31]);
    ghost var was: Bytes := buf[..32];
    buf[0] := And(buf[0], 0xF8);
    buf[31] := And(buf[31], 0x7F);
    buf[31] := Or(buf[31], 0x40);
    ghost var first: Byte, last: Byte := was[0] - was[0] % 8, 64 + was[31] % 64;
    assert buf[0] == first && buf[31] == last;
    assert buf[..32] == was[0 := first][31 := last];
  }
}
