/** SHA512.cpp and Hash.cpp: the streaming hash and its keyed form, on one 128-byte buffer. */
module SHA512 {
  import opened Arith
  import opened Bits
  import opened Bytes
  import opened SHA2

  // The bit length of a message as the two counters hold it.
  ghost predicate Counts(low: Word, high: Word, len: nat) {
    low + 0x1_0000_0000_0000_0000 * high == (8 * len) % 0x1_0000_0000_0000_0000_0000_0000_0000_0000
  }

  lemma CountMore(low: Word, high: Word, len: nat, n: nat, low': Word, high': Word)
    requires Counts(low, high, len) && n < 0x1_0000_0000_0000_0000
    requires low' == AddW(low, (8 * n) % 0x1_0000_0000_0000_0000)
    requires high' == AddW(AddW(high, n / 0x2000_0000_0000_0000), if low' < low then 1 else 0)
    ensures Counts(low', high', len + n)
  {
    hide AddW;
    var e, d, c := n / 0x2000_0000_0000_0000, (8 * n) % 0x1_0000_0000_0000_0000, if low' < low then 1 else 0;
    BitLength(n);
    var k0 := AddWraps(low, d);
    var k1 := AddWraps(high, e);
    var k2 := AddWraps(AddW(high, e), c);
    hide Counts;
    assert k0 == c;
    CountSum(low, high, 8 * len, 8 * n, low', high', k1 + k2);
  }

  lemma BitLength(n: nat)
    ensures 8 * n == (8 * n) % 0x1_0000_0000_0000_0000 + 0x1_0000_0000_0000_0000 * (n / 0x2000_0000_0000_0000)
  {
  }

  lemma AddWraps(a: Word, b: Word) returns (k: nat)
    ensures AddW(a, b) == a + b - 0x1_0000_0000_0000_0000 * k && k <= 1
  {
    k := if a + b < 0x1_0000_0000_0000_0000 then 0 else 1;
  }

  lemma CountSum(low: Word, high: Word, t: nat, n: nat, low': Word, high': Word, k: nat)
    requires low + 0x1_0000_0000_0000_0000 * high == t % 0x1_0000_0000_0000_0000_0000_0000_0000_0000
    requires low' + 0x1_0000_0000_0000_0000 * high'
          == low + 0x1_0000_0000_0000_0000 * high + n - 0x1_0000_0000_0000_0000_0000_0000_0000_0000 * k
    ensures low' + 0x1_0000_0000_0000_0000 * high' == (t + n) % 0x1_0000_0000_0000_0000_0000_0000_0000_0000
  {
    var q := t / 0x1_0000_0000_0000_0000_0000_0000_0000_0000;
    ModUnique(t + n, 0x1_0000_0000_0000_0000_0000_0000_0000_0000, q + k, low' + 0x1_0000_0000_0000_0000 * high');
  }

  // The length of the whole blocks of a message.
  ghost function Whole(m: Bytes): (n: nat)
    ensures n <= |m| && n % 128 == 0 && |m| - n == |m| % 128
  {
    |m| - |m| % 128
  }

  // More bytes join the last block, and may fill it.
  lemma Extend(m: Bytes, p: Bytes)
    requires |m| % 128 + |p| < 128
    ensures (m + p)[..Whole(m + p)] == m[..Whole(m)] && (m + p)[Whole(m + p)..] == m[Whole(m)..] + p
  {
    assert Whole(m + p) == Whole(m);
    hide *;
  }

  lemma Complete(m: Bytes, p: Bytes)
    requires |m| % 128 + |p| == 128
    ensures Whole(m + p) == |m + p| && Chain(m + p) == Compress(Chain(m[..Whole(m)]), m[Whole(m)..] + p)
  {
    hide *;
    var n := Whole(m);
    WholeFilled(m, p);
    assert m[..n] + (m[n..] + p) == m + p;
    ChainNext(m[..n], m[n..] + p);
  }

  lemma WholeFilled(m: Bytes, p: Bytes)
    requires |m| % 128 + |p| == 128
    ensures Whole(m + p) == |m + p| == Whole(m) + 128
  {
  }

  lemma ChainNext(m: Bytes, b: Bytes)
    requires |m| % 128 == 0 && |b| == 128
    ensures Chain(m + b) == Compress(Chain(m), b)
  {
    hide Compress;
    assert (m + b)[..|m + b| - 128] == m && (m + b)[|m + b| - 128..] == b;
  }

  // The last blocks: the tail of the message, the padding and the counters.
  ghost function Lengths(low: Word, high: Word): (l: Bytes)
    ensures |l| == 16
  {
    ToBigEndian(high, 8) + ToBigEndian(low, 8)
  }

  ghost function TailBlock(tail: Bytes, n: nat): (b: Bytes)
    requires |tail| < n
    ensures |b| == n
  {
    tail + [0x80] + ZeroBytes(n - 1 - |tail|)
  }

  lemma CompressIs(h: seq<Word>, block: Bytes, s: Working)
    requires |h| == 8 && |block| == 128 && s == Rounds(Load(h), block, 80)
    ensures Compress(h, block)
         == [AddW(h[0], s.a), AddW(h[1], s.b), AddW(h[2], s.c), AddW(h[3], s.d),
             AddW(h[4], s.e), AddW(h[5], s.f), AddW(h[6], s.g), AddW(h[7], s.h)]
  {
    hide AddW, Rounds;
  }

  lemma ChainEmpty()
    ensures Chain([]) == InitialHash()
  {
    hide InitialHash, Compress;
  }

  lemma OtherSlot(i: nat, index: nat)
    requires index < i + 16 && i < index
    ensures i % 16 != index % 16
  {
  }

  lemma Pieces(m: Bytes, bytes: Bytes, done: nat, size: nat)
    requires done + size <= |bytes|
    ensures m + bytes[..done + size] == (m + bytes[..done]) + bytes[done..done + size]
  {
  }

  // ---- the buffer as words ----

  // The buffer as the sixteen words of the little-endian host that it is declared as.
  function HostWord(s: Bytes, i: nat): (v: Word)
    requires |s| == 128 && i < 16
  {
    WordBound(s[8 * i..8 * i + 8]);
    LE(s[8 * i..8 * i + 8])
  }

  lemma WordBound(b: Bytes)
    requires |b| == 8
    ensures LE(b) < 0x1_0000_0000_0000_0000
  {
    LEBound(b);
    Pow2Of64();
    hide LE, Pow2;
  }

  // be64toh on a little-endian host: the bytes in the other order.
  function Swapped(v: Word): (r: Word) {
    Pow2Of64();
    BigEndian(ToLE(v, 8))
  }

  lemma SwappedWord(s: Bytes, i: nat)
    requires |s| == 128 && i < 16
    ensures Swapped(HostWord(s, i)) == BlockWord(s, i)
  {
    ToLEOfLE(s[8 * i..8 * i + 8]);
    hide LE, ToLE, BigEndian;
  }

  lemma WrittenWord(s: Bytes, s': Bytes, i: nat, v: Word, j: nat)
    requires |s| == |s'| == 128 && i < 16 && j < 16 && s'[8 * i..8 * i + 8] == ToLE(v, 8)
    requires forall k :: 0 <= k < 128 && !(8 * i <= k < 8 * i + 8) ==> s'[k] == s[k]
    ensures HostWord(s', j) == (if j == i then v else HostWord(s, j))
    ensures j != i ==> BlockWord(s', j) == BlockWord(s, j)
  {
    if j == i {
      Pow2Of64();
      hide LE, ToLE, Pow2;
      LEOfToLE(v, 8);
    } else {
      assert s'[8 * j..8 * j + 8] == s[8 * j..8 * j + 8];
    }
  }

  class Sha512 {
    const h: array<Word>
    const w: array<Byte>
    var lengthLow: Word
    var lengthHigh: Word
    var chunkSize: nat
    ghost var absorbed: Bytes

    ghost predicate Shape() {
      h.Length == 8 && w.Length == 128
    }

    // The hash value and the buffer hold the bytes absorbed.
    ghost predicate Chained()
      reads this, h, w
    {
      && Shape()
      && chunkSize == |absorbed| % 128
      && h[..] == Chain(absorbed[..Whole(absorbed)])
      && w[..chunkSize] == absorbed[Whole(absorbed)..]
    }

    // The state after a reset and updates with the bytes absorbed.
    ghost predicate Valid()
      reads this, h, w
      ensures Valid() ==> Shape()
    {
      Chained() && Counts(lengthLow, lengthHigh, |absorbed|)
    }

    // The state that reset leaves, whatever the buffer holds.
    ghost predicate Cleared()
      reads this, h
    {
      && Shape() && absorbed == [] && chunkSize == 0 && lengthLow == 0 && lengthHigh == 0
      && h[..] == InitialHash()
    }

    constructor ()
      ensures Valid() && absorbed == [] && fresh(h) && fresh(w)
    {
      h := new Word[8];
      w := new Byte[128];
      lengthLow, lengthHigh, chunkSize := 0, 0, 0;
      absorbed := [];
      new;
      Reset();
    }

    method Reset()
      requires Shape()
      modifies this, h
      ensures Valid() && Cleared() && absorbed == [] && chunkSize == 0
    {
      ChainEmpty();
      hide Chain, InitialHash;
      forall i | 0 <= i < 8 { h[i] := InitialHash()[i]; }
      chunkSize, lengthLow, lengthHigh := 0, 0, 0;
      absorbed := [];
      assert h[..] == InitialHash();
    }

    // An assignment to a word of the buffer.
    method SetWord(i: nat, v: Word)
      requires Shape() && i < 16
      modifies w
      ensures forall j :: 0 <= j < 16 ==> HostWord(w[..], j) == if j == i then v else old(HostWord(w[..], j))
      ensures forall j :: 0 <= j < 16 && j != i ==> BlockWord(w[..], j) == old(BlockWord(w[..], j))
    {
      hide ToLE, HostWord, BlockWord;
      ghost var was := w[..];
      forall k | 0 <= k < 8 { w[8 * i + k] := ToLE(v, 8)[k]; }
      assert w[..][8 * i..8 * i + 8] == ToLE(v, 8);
      forall j | 0 <= j < 16
        ensures HostWord(w[..], j) == (if j == i then v else HostWord(was, j))
        ensures j != i ==> BlockWord(w[..], j) == BlockWord(was, j)
      {
        WrittenWord(was, w[..], i, v, j);
      }
    }

    // The sixteen words of the buffer, in host byte order.
    method ToHostOrder()
      requires Shape()
      modifies w
      ensures forall i :: 0 <= i < 16 ==> HostWord(w[..], i) == Schedule(old(w[..]), i)
    {
      hide BigEndian, HostWord, BlockWord, Swapped;
      var index := 0;
      while index < 16
        invariant index <= 16
        invariant forall i :: 0 <= i < index ==> HostWord(w[..], i) == BlockWord(old(w[..]), i)
        invariant forall i :: index <= i < 16 ==> BlockWord(w[..], i) == BlockWord(old(w[..]), i)
      {
        SwappedWord(w[..], index);
        SetWord(index, Swapped(HostWord(w[..], index)));
        index := index + 1;
      }
    }

    // The ring in the buffer holds the words of the schedule before index.
    ghost predicate Ring(block: Bytes, index: nat)
      requires Shape() && |block| == 128 && 16 <= index <= 80
      reads this, w
    {
      forall i :: index - 16 <= i < index ==> HostWord(w[..], i % 16) == Schedule(block, i)
    }

    // Overwrite the oldest word of the ring with the next word of the schedule.
    method ExpandRing(index: nat, ghost block: Bytes)
      requires Shape() && |block| == 128 && 16 <= index < 80 && Ring(block, index)
      modifies w
      ensures Ring(block, index + 1)
    {
      ScheduleNext(block, index);
      hide HostWord, AddW, SmallSigma0, SmallSigma1, Schedule;
      var temp1, temp2 := HostWord(w[..], (index - 15) % 16), HostWord(w[..], (index - 2) % 16);
      ghost var was := w[..];
      SetWord(index % 16, AddW(AddW(SmallSigma1(temp2), HostWord(w[..], (index - 7) % 16)),
                               AddW(SmallSigma0(temp1), HostWord(w[..], (index - 16) % 16))));
      forall i | index - 15 <= i < index + 1
        ensures HostWord(w[..], i % 16) == Schedule(block, i)
      {
        if i < index { OtherSlot(i, index); }
      }
    }

    method AddChunk(s: Working)
      requires Shape()
      modifies h
      ensures h[..] == var o := old(h[..]);
        [AddW(o[0], s.a), AddW(o[1], s.b), AddW(o[2], s.c), AddW(o[3], s.d),
         AddW(o[4], s.e), AddW(o[5], s.f), AddW(o[6], s.g), AddW(o[7], s.h)]
    {
      h[0], h[1], h[2], h[3] := AddW(h[0], s.a), AddW(h[1], s.b), AddW(h[2], s.c), AddW(h[3], s.d);
      h[4], h[5], h[6], h[7] := AddW(h[4], s.e), AddW(h[5], s.f), AddW(h[6], s.g), AddW(h[7], s.h);
    }

    // The rounds, with the eighty words of the schedule expanded in place in the sixteen of the buffer, which
    // holds the last of them at the end.
    method ProcessChunk()
      requires Shape()
      modifies h, w
      ensures h[..] == Compress(old(h[..]), old(w[..]))
      ensures Ring(old(w[..]), 80)
    {
      hide RoundConstant, Round, Rounds, Schedule, AddW, HostWord;
      ghost var block := w[..];
      ToHostOrder();
      var s := Load(h[..]);
      ghost var s0 := s;
      RoundsNext(s0, block, 0);
      var index := 0;
      while index < 16
        invariant h[..] == old(h[..])
        invariant index <= 16 && s == Rounds(s0, block, index)
        invariant forall i :: 0 <= i < 16 ==> HostWord(w[..], i) == Schedule(block, i)
      {
        s := Round(s, RoundConstant(index), HostWord(w[..], index));
        RoundsNext(s0, block, index + 1);
        index := index + 1;
      }
      while index < 80
        modifies w
        invariant h[..] == old(h[..])
        invariant 16 <= index <= 80 && s == Rounds(s0, block, index) && Ring(block, index)
      {
        ExpandRing(index, block);
        s := Round(s, RoundConstant(index), HostWord(w[..], index % 16));
        RoundsNext(s0, block, index + 1);
        index := index + 1;
      }
      AddChunk(s);
      CompressIs(old(h[..]), block, s);
    }

    // memcpy to the buffer, up to its end.
    method Fill(data: array<Byte>, from: nat, size: nat, ghost p: Bytes)
      requires Shape() && from + size <= data.Length && chunkSize + size <= 128
      requires data == w ==> chunkSize + size <= from
      requires |p| == size && forall k :: 0 <= k < size ==> data[from + k] == p[k]
      modifies w
      ensures w[..chunkSize + size] == old(w[..chunkSize]) + p
    {
      forall i | 0 <= i < size { w[chunkSize + i] := data[from + i]; }
    }

    // One pass of the loop of update, with the bytes p.
    method Absorb(data: array<Byte>, from: nat, size: nat, ghost p: Bytes)
      requires Chained() && from + size <= data.Length && chunkSize + size <= 128
      requires data == w ==> chunkSize + size <= from
      requires |p| == size && forall k :: 0 <= k < size ==> data[from + k] == p[k]
      modifies this, h, w
      ensures Chained() && absorbed == old(absorbed) + p
      ensures lengthLow == old(lengthLow) && lengthHigh == old(lengthHigh)
    {
      hide Chain, Compress;
      ghost var m := absorbed;
      if |m| % 128 + size < 128 { Extend(m, p); } else { Complete(m, p); }
      Fill(data, from, size, p);
      chunkSize := chunkSize + size;
      absorbed := m + p;
      if chunkSize == 128 {
        assert w[..] == w[..128];
        ProcessChunk();
        chunkSize := 0;
        assert absorbed[..|absorbed|] == absorbed;
      }
    }

    method CountLength(len: nat)
      requires Shape() && Counts(lengthLow, lengthHigh, |absorbed|) && len < 0x1_0000_0000_0000_0000
      modifies this`lengthLow, this`lengthHigh
      ensures Counts(lengthLow, lengthHigh, |absorbed| + len)
    {
      var temp := lengthLow;
      lengthLow := AddW(lengthLow, (8 * len) % 0x1_0000_0000_0000_0000);
      lengthHigh := AddW(lengthHigh, len / 0x2000_0000_0000_0000);
      if lengthLow < temp { lengthHigh := AddW(lengthHigh, 1); }
      CountMore(old(lengthLow), old(lengthHigh), |absorbed|, len, lengthLow, lengthHigh);
    }

    // The data may lie in the buffer itself, past the bytes that the update will write.
    method Update(data: array<Byte>, from: nat, len: nat)
      requires Valid() && from + len <= data.Length && len < 0x1_0000_0000_0000_0000
      requires data == w ==> chunkSize + len <= from
      modifies this, h, w
      ensures Valid() && absorbed == old(absorbed) + old(data[from..from + len])
    {
      hide Chain, Counts;
      ghost var m, bytes := absorbed, data[from..from + len];
      CountLength(len);
      ghost var low, high := lengthLow, lengthHigh;
      var done := 0;
      while done < len
        invariant done <= len && absorbed == m + bytes[..done] && Chained()
        invariant lengthLow == low && lengthHigh == high
        invariant data == w && done < len ==> done == 0 && chunkSize + len <= from
        invariant forall k :: done <= k < len ==> data[from + k] == bytes[k]
      {
        var size := 128 - chunkSize;
        if size > len - done { size := len - done; }
        Pieces(m, bytes, done, size);
        Absorb(data, from + done, size, bytes[done..done + size]);
        done := done + size;
      }
    }

    // A counter in the last bytes of the buffer, most significant byte first.
    method StoreWord(at: nat, v: Word)
      requires Shape() && at + 8 <= 128
      modifies w
      ensures w[at..at + 8] == ToBigEndian(v, 8)
      ensures forall k :: 0 <= k < 128 && !(at <= k < at + 8) ==> w[k] == old(w[k])
    {
      hide ToBigEndian;
      forall k | 0 <= k < 8 { w[at + k] := ToBigEndian(v, 8)[k]; }
    }

    method StoreLengths()
      requires Shape()
      modifies w
      ensures w[..] == old(w[..112]) + Lengths(lengthLow, lengthHigh)
    {
      hide ToBigEndian;
      StoreWord(112, lengthHigh);
      ghost var high := w[112..120];
      StoreWord(120, lengthLow);
      assert w[112..120] == high;
      assert w[..] == w[..112] + (w[112..120] + w[120..128]);
    }

    // The last bytes fit in one block with the padding and the length.
    method PadOnce()
      requires Shape() && chunkSize <= 111
      modifies h, w
      ensures h[..] == Compress(old(h[..]), TailBlock(old(w[..chunkSize]), 112) + Lengths(lengthLow, lengthHigh))
    {
      hide Compress, Lengths;
      w[chunkSize] := 0x80;
      forall k | chunkSize + 1 <= k < 112 { w[k] := 0; }
      assert w[..112] == TailBlock(old(w[..chunkSize]), 112);
      StoreLengths();
      assert w[..] == TailBlock(old(w[..chunkSize]), 112) + Lengths(lengthLow, lengthHigh);
      assert h[..] == old(h[..]);
      ProcessChunk();
    }

    // They do not, and the length goes into a block of its own.
    method PadTwice()
      requires Shape() && 111 < chunkSize < 128
      modifies h, w
      ensures h[..] == Compress(Compress(old(h[..]), TailBlock(old(w[..chunkSize]), 128)),
                                ZeroBytes(112) + Lengths(lengthLow, lengthHigh))
    {
      hide Compress, Lengths;
      w[chunkSize] := 0x80;
      forall k | chunkSize + 1 <= k < 128 { w[k] := 0; }
      assert w[..] == TailBlock(old(w[..chunkSize]), 128) && h[..] == old(h[..]);
      ProcessChunk();
      ghost var first := h[..];
      forall k | 0 <= k < 112 { w[k] := 0; }
      assert w[..112] == ZeroBytes(112);
      StoreLengths();
      assert w[..] == ZeroBytes(112) + Lengths(lengthLow, lengthHigh) && h[..] == first;
      ProcessChunk();
    }

    // The padded message, then the hash value, most significant byte first, in the buffer and as many
    // bytes of it as fit in the caller's, which may be the same memory.
    method Finalize(hash: array<Byte>, len: nat)
      requires Valid() && (len < 64 ==> len <= hash.Length) && (len >= 64 ==> 64 <= hash.Length)
      modifies h, w, hash
      ensures w[..64] == Digest(absorbed)
      ensures var n := if len > 64 then 64 else len; hash[..n] == Digest(absorbed)[..n]
      ensures hash != w ==> forall k :: 0 <= k < hash.Length && k >= len ==> hash[k] == old(hash[k])
    {
      hide Digest, Chain, Compress, ToBigEndian, HashBytes;
      if chunkSize <= 128 - 17 {
        PadOneBlock(absorbed, lengthLow, lengthHigh);
        PadOnce();
      } else {
        PadTwoBlocks(absorbed, lengthLow, lengthHigh);
        PadTwice();
      }
      StoreHash();
      DigestIs(absorbed);
      var n := if len > 64 then 64 else len;
      forall k | 0 <= k < n { hash[k] := w[k]; }
    }

    method StoreHash()
      requires Shape()
      modifies w
      ensures w[..64] == HashBytes(h[..])
    {
      hide ToBigEndian;
      var posn := 0;
      while posn < 8
        invariant posn <= 8 && w[..8 * posn] == HashBytes(h[..posn])
      {
        hide HashBytes;
        ghost var was := w[..8 * posn];
        StoreWord(8 * posn, h[posn]);
        assert w[..8 * (posn + 1)] == was + w[8 * posn..8 * posn + 8];
        HashBytesNext(h[..], posn);
        posn := posn + 1;
      }
      assert h[..8] == h[..];
    }

    // The key, or the hash of a key longer than a block, padded with zeros and masked, in the buffer.
    method FormatKey(key: array<Byte>, keyLen: nat, pad: Byte)
      requires Shape() && key != w && keyLen <= key.Length && keyLen < 0x1_0000_0000_0000_0000
      modifies this, h, w
      ensures Cleared() && w[..] == XorPad(BlockKey(key[..keyLen]), pad)
    {
      hide Digest, XorPad, BlockKey, Chained, Counts, InitialHash;
      Reset();
      var len := keyLen;
      if len <= 128 {
        forall k | 0 <= k < len { w[k] := key[k]; }
      } else {
        Update(key, 0, len);
        assert absorbed == key[..keyLen] by { assert key[0..keyLen] == key[..keyLen]; }
        len := 64;
        Finalize(w, len);
        Reset();
      }
      ghost var k0 := w[..len];
      BlockKeyIs(key[..keyLen], k0);
      MaskKey(len, pad, BlockKey(key[..keyLen]));
    }

    // The last lines of formatHMACKey: pad and mask a key that lies in the buffer.
    method MaskKey(len: nat, pad: Byte, ghost k: Bytes)
      requires Shape() && len <= 128 && k == w[..len] + ZeroBytes(128 - len)
      modifies w
      ensures w[..] == XorPad(k, pad)
    {
      MaskZero(pad);
      forall i | len <= i < 128 { w[i] := pad; }
      var i := 0;
      while i < len
        invariant i <= len
        invariant forall j :: 0 <= j < i || len <= j < 128 ==> w[j] == XorByte(k[j], pad)
        invariant forall j :: i <= j < len ==> w[j] == k[j]
      {
        hide XorByte;
        w[i] := XorByte(w[i], pad);
        i := i + 1;
      }
      hide XorByte;
    }

    // Absorb the masked key as the first block.
    method AbsorbKey(key: array<Byte>, keyLen: nat, pad: Byte)
      requires Shape() && key != w && keyLen <= key.Length && keyLen < 0x1_0000_0000_0000_0000
      modifies this, h, w
      ensures Valid() && absorbed == XorPad(BlockKey(key[..keyLen]), pad)
    {
      hide Chain, Compress, XorPad, BlockKey, InitialHash;
      FormatKey(key, keyLen, pad);
      ghost var block := w[..];
      lengthLow := AddW(lengthLow, 128 * 8);
      ProcessChunk();
      FirstBlock(block);
      absorbed := block;
    }

    method ResetHmac(key: array<Byte>, keyLen: nat)
      requires Shape() && key != w && keyLen <= key.Length && keyLen < 0x1_0000_0000_0000_0000
      modifies this, h, w
      ensures Valid() && absorbed == XorPad(BlockKey(key[..keyLen]), 0x36)
    {
      AbsorbKey(key, keyLen, 0x36);
    }

    method FinalizeHmac(key: array<Byte>, keyLen: nat, hash: array<Byte>, hashLen: nat)
      requires Valid() && key != w && keyLen <= key.Length && keyLen < 0x1_0000_0000_0000_0000
      requires (hashLen < 64 ==> hashLen <= hash.Length) && (hashLen >= 64 ==> 64 <= hash.Length)
      modifies this, h, w, hash
      ensures var n := if hashLen > 64 then 64 else hashLen;
              hash[..n] == Digest(XorPad(BlockKey(old(key[..keyLen])), 0x5C) + Digest(old(absorbed)))[..n]
    {
      hide Digest, XorPad, BlockKey, Valid;
      var temp := new Byte[64];
      Finalize(temp, 64);
      assert key[..keyLen] == old(key[..keyLen]);
      AbsorbKey(key, keyLen, 0x5C);
      assert temp[..64] == Digest(old(absorbed));
      Update(temp, 0, 64);
      assert temp[0..64] == temp[..64];
      Finalize(hash, hashLen);
    }
  }

  // hmac<SHA512> of Hash.h.
  method Hmac(out: array<Byte>, outLen: nat, key: array<Byte>, keyLen: nat, data: array<Byte>, dataLen: nat)
    requires keyLen <= key.Length && keyLen < 0x1_0000_0000_0000_0000
    requires dataLen <= data.Length && dataLen < 0x1_0000_0000_0000_0000
    requires (outLen < 64 ==> outLen <= out.Length) && (outLen >= 64 ==> 64 <= out.Length)
    modifies out
    ensures var n := if outLen > 64 then 64 else outLen;
            out[..n] == SHA2.Hmac(old(key[..keyLen]), old(data[..dataLen]))[..n]
  {
    hide Digest, XorPad, BlockKey, Sha512.Valid;
    var context := new Sha512();
    context.ResetHmac(key, keyLen);
    context.Update(data, 0, dataLen);
    assert data[0..dataLen] == data[..dataLen];
    context.FinalizeHmac(key, keyLen, out, outLen);
  }

  lemma FirstBlock(block: Bytes)
    requires |block| == 128
    ensures block[..Whole(block)] == block && block[Whole(block)..] == []
    ensures Chain(block) == Compress(InitialHash(), block)
  {
    ChainNext([], block);
    ChainEmpty();
    assert [] + block == block;
    hide Chain, Compress, InitialHash;
  }

  lemma BlockKeyIs(key: Bytes, k: Bytes)
    requires k == if |key| <= 128 then key else Digest(key)
    ensures BlockKey(key) == k + ZeroBytes(128 - |k|)
  {
    hide Digest;
  }

  lemma MaskZero(pad: Byte)
    ensures XorByte(0, pad) == pad
  {
    XorZero(pad);
    XorCancels(pad, 0);
  }

  lemma HashBytesNext(h: seq<Word>, n: nat)
    requires n < |h|
    ensures HashBytes(h[..n + 1]) == HashBytes(h[..n]) + ToBigEndian(h[n], 8)
  {
    hide ToBigEndian;
    assert h[..n + 1][..n] == h[..n];
  }

  lemma DigestIs(m: Bytes)
    ensures Digest(m) == HashBytes(Chain(m + Padding(|m|)))
  {
    hide Chain, HashBytes, Padding;
  }

  lemma LengthField(low: Word, high: Word, n: nat)
    requires Counts(low, high, n)
    ensures ToBigEndian((8 * n) % 0x1_0000_0000_0000_0000_0000_0000_0000_0000, 16) == Lengths(low, high)
  {
    hide ToBigEndian, Pow2;
    Pow2Of64();
    ToBigEndianSplit(high, low, 8, 8);
  }

  lemma PaddingIs(low: Word, high: Word, n: nat)
    requires Counts(low, high, n)
    ensures Padding(n) == [0x80] + ZeroBytes(PadZeros(n)) + Lengths(low, high)
  {
    LengthField(low, high, n);
    hide ToBigEndian, PadZeros, ZeroBytes, Counts, Lengths;
  }

  lemma ZerosJoin(m: nat, n: nat)
    ensures ZeroBytes(m) + ZeroBytes(n) == ZeroBytes(m + n)
  {
  }

  lemma TailOf(m: Bytes, z: nat)
    requires |m| % 128 + 1 + z <= 128
    ensures TailBlock(m[Whole(m)..], |m| % 128 + 1 + z) == m[Whole(m)..] + ([0x80] + ZeroBytes(z))
  {
  }

  // The two ways to pad make up the padding of section 5.1.2.
  lemma PadOneBlock(m: Bytes, low: Word, high: Word)
    requires Counts(low, high, |m|) && |m| % 128 <= 111
    ensures Chain(m + Padding(|m|))
         == Compress(Chain(m[..Whole(m)]), TailBlock(m[Whole(m)..], 112) + Lengths(low, high))
  {
    hide *;
    ZerosNeeded(|m|);
    PaddingIs(low, high, |m|);
    TailOf(m, PadZeros(|m|));
    WholeFilled(m, Padding(|m|));
    Complete(m, Padding(|m|));
    var tail, z, l := m[Whole(m)..], [0x80] + ZeroBytes(PadZeros(|m|)), Lengths(low, high);
    assert tail + (z + l) == (tail + z) + l;
  }

  lemma Associates(a: Bytes, b: Bytes, c: Bytes)
    ensures a + (b + c) == (a + b) + c
  {
  }

  lemma PaddingSplit(a: Bytes, b: Bytes, c: Bytes)
    ensures [0x80] + (a + b) + c == ([0x80] + a) + (b + c)
  {
  }

  lemma ZerosNeeded(n: nat)
    ensures PadZeros(n) == if n % 128 <= 111 then 111 - n % 128 else 127 - n % 128 + 112
  {
  }

  lemma PadTwoBlocks(m: Bytes, low: Word, high: Word)
    requires Counts(low, high, |m|) && 111 < |m| % 128
    ensures Chain(m + Padding(|m|))
         == Compress(Compress(Chain(m[..Whole(m)]), TailBlock(m[Whole(m)..], 128)),
                     ZeroBytes(112) + Lengths(low, high))
  {
    hide *;
    PaddingOfTwo(|m|, low, high);
    TailOf(m, 127 - |m| % 128);
    ChainTwice(m, [0x80] + ZeroBytes(127 - |m| % 128), ZeroBytes(112) + Lengths(low, high));
  }

  lemma PaddingOfTwo(n: nat, low: Word, high: Word)
    requires Counts(low, high, n) && 111 < n % 128
    ensures Padding(n) == ([0x80] + ZeroBytes(127 - n % 128)) + (ZeroBytes(112) + Lengths(low, high))
  {
    hide *;
    ZerosNeeded(n);
    PaddingIs(low, high, n);
    ZerosJoin(127 - n % 128, 112);
    PaddingSplit(ZeroBytes(127 - n % 128), ZeroBytes(112), Lengths(low, high));
  }

  lemma ChainTwice(m: Bytes, first: Bytes, rest: Bytes)
    requires |m| % 128 + |first| == 128 && |rest| == 128
    ensures Chain(m + (first + rest)) == Compress(Compress(Chain(m[..Whole(m)]), m[Whole(m)..] + first), rest)
  {
    hide *;
    Associates(m, first, rest);
    WholeFilled(m, first);
    Complete(m, first);
    ChainNext(m + first, rest);
  }
}
