/** BigNumberUtil.cpp: arithmetic on limb arrays of any size. */
module BigNumberUtil {
  import opened Limbs
  import opened Bits
  import opened Arith
  import opened Bytes

  method Add(result: array<Limb>, x: array<Limb>, y: array<Limb>, size: nat) returns (carryOut: Limb)
    requires size <= result.Length && size <= x.Length && size <= y.Length
    modifies result
    ensures carryOut <= 1
    ensures Val(result[..size]) + Shift(size, carryOut) == old(Val(x[..size])) + old(Val(y[..size]))
    ensures forall k :: size <= k < result.Length ==> result[k] == old(result[k])
  {
    ghost var xs, ys, done: seq<Limb> := x[..size], y[..size], [];
    var carry: DLimb := 0;
    var i := 0;
    Empty();
    hide *;
    while i < size
      invariant i <= size && carry <= 1 && |done| == i
      invariant forall k :: i <= k < size ==> x[k] == xs[k] && y[k] == ys[k]
      invariant forall k :: 0 <= k < i ==> result[k] == done[k]
      invariant forall k :: size <= k < result.Length ==> result[k] == old(result[k])
      invariant Val(done) + Shift(i, carry) == Val(xs[..i]) + Val(ys[..i])
    {
      ghost var c := carry;
      carry := carry + x[i];
      carry := carry + y[i];
      result[i] := Low(carry);
      AddStep(done, Low(carry), xs, ys, c, High(carry));
      done := done + [Low(carry)];
      carry := High(carry);
      i := i + 1;
    }
    carryOut := carry;
    assert xs[..size] == xs && ys[..size] == ys && result[..size] == done;
  }

  // The borrow register wraps modulo 2^64; its bit 32 is the borrow.
  function BorrowRegister(x: Limb, y: Limb, borrow: nat): (d: DLimb)
    requires borrow <= 1
    ensures Low(d) + y + borrow == x + 0x1_0000_0000 * (High(d) % 2)
  {
    ((x as int) - y - borrow) % 0x1_0000_0000_0000_0000
  }

  method Sub(result: array<Limb>, x: array<Limb>, y: array<Limb>, size: nat) returns (borrowOut: Limb)
    requires size <= result.Length && size <= x.Length && size <= y.Length
    modifies result
    ensures borrowOut <= 1
    ensures old(Val(x[..size])) + Shift(size, borrowOut) == Val(result[..size]) + old(Val(y[..size]))
    ensures forall k :: size <= k < result.Length ==> result[k] == old(result[k])
  {
    ghost var xs, ys, done: seq<Limb> := x[..size], y[..size], [];
    var borrow: DLimb := 0;
    var i := 0;
    Empty();
    while i < size
      invariant i <= size && |done| == i
      invariant forall k :: i <= k < size ==> x[k] == xs[k] && y[k] == ys[k]
      invariant forall k :: 0 <= k < i ==> result[k] == done[k]
      invariant forall k :: size <= k < result.Length ==> result[k] == old(result[k])
      invariant Val(xs[..i]) + Shift(i, High(borrow) % 2) == Val(done) + Val(ys[..i])
    {
      hide *;
      ghost var b := High(borrow) % 2;
      borrow := BorrowRegister(x[i], y[i], High(borrow) % 2);
      result[i] := Low(borrow);
      SubStep(done, Low(borrow), xs, ys, b, High(borrow) % 2);
      done := done + [Low(borrow)];
      i := i + 1;
    }
    borrowOut := High(borrow) % 2;
    assert xs[..size] == xs && ys[..size] == ys && result[..size] == done;
  }

  // Sub with a constant in place of the array y.
  method SubP(result: array<Limb>, x: array<Limb>, y: seq<Limb>) returns (borrowOut: Limb)
    requires |y| <= result.Length && |y| <= x.Length
    modifies result
    ensures borrowOut <= 1
    ensures old(Val(x[..|y|])) + Shift(|y|, borrowOut) == Val(result[..|y|]) + Val(y)
    ensures forall k :: |y| <= k < result.Length ==> result[k] == old(result[k])
  {
    ghost var xs, done: seq<Limb> := x[..|y|], [];
    var borrow: DLimb := 0;
    var i := 0;
    Empty();
    while i < |y|
      invariant i <= |y| && |done| == i
      invariant forall k :: i <= k < |y| ==> x[k] == xs[k]
      invariant forall k :: 0 <= k < i ==> result[k] == done[k]
      invariant forall k :: |y| <= k < result.Length ==> result[k] == old(result[k])
      invariant Val(xs[..i]) + Shift(i, High(borrow) % 2) == Val(done) + Val(y[..i])
    {
      hide *;
      ghost var b := High(borrow) % 2;
      borrow := BorrowRegister(x[i], y[i], High(borrow) % 2);
      result[i] := Low(borrow);
      SubStep(done, Low(borrow), xs, y, b, High(borrow) % 2);
      done := done + [Low(borrow)];
      i := i + 1;
    }
    borrowOut := High(borrow) % 2;
    assert xs[..|y|] == xs && y[..|y|] == y && result[..|y|] == done;
  }

  // Subtract y from x; the borrow, as an all-ones mask, adds y back.
  method ReduceQuickP(result: array<Limb>, x: array<Limb>, y: seq<Limb>)
    requires |y| <= result.Length && |y| <= x.Length
    modifies result
    ensures var v := old(Val(x[..|y|]));
            Val(result[..|y|]) == if Val(y) <= v then v - Val(y) else v
    ensures forall k :: |y| <= k < result.Length ==> result[k] == old(result[k])
  {
    ghost var xs := x[..|y|];
    var borrow := SubP(result, x, y);
    ghost var ds := result[..|y|];
    var mask: Limb := (0xFFFF_FFFF - (borrow as int) + 1) % 0x1_0000_0000;
    ghost var carry := AddMasked(result, y, mask);
    hide *;
    ghost var rs := result[..|y|];
    ValBound(xs);
    ValBound(ds);
    ValBound(rs);
    ShiftBit(|y|, borrow);
    ShiftBit(|y|, carry);
    ReduceQuickSum(Val(xs), Val(ds), Val(rs), Val(y), Shift(|y|, 1), borrow, carry);
  }

  // The second loop of reduceQuick_P: add y under a mask of all ones or none.
  method AddMasked(result: array<Limb>, y: seq<Limb>, mask: Limb) returns (carryOut: Limb)
    requires |y| <= result.Length && (mask == 0 || mask == 0xFFFF_FFFF)
    modifies result
    ensures carryOut <= 1
    ensures Val(result[..|y|]) + Shift(|y|, carryOut)
         == old(Val(result[..|y|])) + (if mask == 0 then 0 else Val(y))
    ensures forall k :: |y| <= k < result.Length ==> result[k] == old(result[k])
  {
    ghost var xs, done: seq<Limb> := result[..|y|], [];
    ghost var ms := if mask == 0 then Zeros(|y|) else y;
    var carry: DLimb := 0;
    var i := 0;
    Empty();
    ValZeros(|y|);
    while i < |y|
      invariant i <= |y| && carry <= 1 && |done| == i
      invariant forall k :: i <= k < |y| ==> result[k] == xs[k]
      invariant forall k :: 0 <= k < i ==> result[k] == done[k]
      invariant forall k :: |y| <= k < result.Length ==> result[k] == old(result[k])
      invariant Val(done) + Shift(i, carry) == Val(xs[..i]) + Val(ms[..i])
    {
      hide *;
      ghost var c := carry;
      MaskLimb(y[i]);
      carry := carry + result[i];
      carry := carry + And(y[i], mask);
      result[i] := Low(carry);
      AddStep(done, Low(carry), xs, ms, c, High(carry));
      done := done + [Low(carry)];
      carry := High(carry);
      i := i + 1;
    }
    carryOut := carry;
    assert xs[..|y|] == xs && ms[..|y|] == ms && result[..|y|] == done;
  }

  lemma MaskLimb(a: Limb)
    ensures And(a, 0xFFFF_FFFF) == a && And(a, 0) == 0
  {
    Pow2Of32();
    AndLowMask(a, 32);
  }

  lemma ReduceQuickSum(x: nat, d: nat, r: nat, y: nat, s: nat, borrow: nat, carry: nat)
    requires borrow <= 1 && carry <= 1 && x < s && d < s && r < s
    requires x + (if borrow == 1 then s else 0) == d + y
    requires r + (if carry == 1 then s else 0) == d + (if borrow == 0 then 0 else y)
    ensures r == if y <= x then x - y else x
  {
  }

  lemma MulFits(a: Limb, b: Limb)
    ensures 0 <= Times(a, b) <= 0xFFFF_FFFE_0000_0001
  {
    MulMono(a, 0, b);
    MulMono(a, b, 0xFFFF_FFFF);
  }

  // A double limb holds a product of two limbs and two limbs more.
  function MulAddLimbs(carry: Limb, x: Limb, word: Limb, addend: Limb): (d: DLimb)
    ensures d == carry + Times(word, x) + addend
  {
    MulFits(word, x);
    (carry as int) + Times(word, x) + addend
  }

  // One limb of a row: a product on top of the carry and, except in the first row, of what is there.
  method MulLimb(result: array<Limb>, r: nat, x: array<Limb>, i: nat, word: Limb, first: bool, carry: DLimb)
    returns (carry': DLimb)
    requires r < result.Length && i < x.Length && carry < 0x1_0000_0000
    modifies result
    ensures carry + Times(word, old(x[i])) + (if first then 0 else old(result[r])) == result[r] + 0x1_0000_0000 * carry'
    ensures carry' < 0x1_0000_0000
    ensures forall k :: 0 <= k < result.Length && k != r ==> result[k] == old(result[k])
  {
    hide Times;
    var d := MulAddLimbs(carry, x[i], word, if first then 0 else result[r]);
    result[r] := Low(d);
    carry' := High(d);
  }

  // The next limb of a row of which the limbs done, from rs and the limbs xs times word, are there already.
  method RowLimb(result: array<Limb>, r: nat, x: array<Limb>, i: nat, word: Limb, first: bool, carry: DLimb,
                 ghost done: seq<Limb>, ghost rs: seq<Limb>, ghost xs: seq<Limb>)
    returns (carry': DLimb, ghost done': seq<Limb>)
    requires r < result.Length && i < x.Length && carry < 0x1_0000_0000 && |done| < |rs| && |done| < |xs|
    requires x[i] == xs[|done|] && rs[|done|] == if first then 0 else result[r]
    requires Val(done) + Shift(|done|, carry) == Val(rs[..|done|]) + Times(word, Val(xs[..|done|]))
    modifies result
    ensures carry' < 0x1_0000_0000 && done' == done + [result[r]]
    ensures Val(done') + Shift(|done'|, carry') == Val(rs[..|done'|]) + Times(word, Val(xs[..|done'|]))
    ensures forall k :: 0 <= k < result.Length && k != r ==> result[k] == old(result[k])
  {
    hide *;
    carry' := MulLimb(result, r, x, i, word, first, carry);
    RowStep(done, result[r], rs, xs, word, carry, carry');
    done' := done + [result[r]];
  }

  // One row of a schoolbook product without its last limb: the n limbs of x at xo, times word, go to
  // result at ro, on top of the n limbs already there unless this is the first row.
  method MulRowLow(result: array<Limb>, ro: nat, x: array<Limb>, xo: nat, n: nat, word: Limb, first: bool)
    returns (carry: DLimb)
    requires ro + n <= result.Length && xo + n <= x.Length
    requires result != x || ro + n <= xo
    modifies result
    ensures carry < 0x1_0000_0000
    ensures Val(result[ro..ro + n]) + Shift(n, carry)
         == (if first then 0 else old(Val(result[ro..ro + n]))) + Times(word, old(Val(x[xo..xo + n])))
    ensures forall k :: 0 <= k < result.Length && !(ro <= k < ro + n) ==> result[k] == old(result[k])
  {
    ghost var xs, done: seq<Limb> := x[xo..xo + n], [];
    ghost var rs := if first then Zeros(n) else result[ro..ro + n];
    carry := 0;
    var j := 0;
    Empty();
    ValZeros(n);
    TimesZero(word);
    hide *;
    assert rs[..0] == [] && xs[..0] == [];
    while j < n
      invariant j <= n && carry < 0x1_0000_0000 && |done| == j
      invariant forall k :: j <= k < n ==> x[xo + k] == xs[k]
      invariant !first ==> forall k :: j <= k < n ==> result[ro + k] == rs[k]
      invariant forall k :: 0 <= k < j ==> result[ro + k] == done[k]
      invariant forall k :: 0 <= k < result.Length && !(ro <= k < ro + j) ==> result[k] == old(result[k])
      invariant Val(done) + Shift(j, carry) == Val(rs[..j]) + Times(word, Val(xs[..j]))
    {
      carry, done := RowLimb(result, ro + j, x, xo + j, word, first, carry, done, rs, xs);
      j := j + 1;
    }
    assert xs[..n] == xs && rs[..n] == rs && result[ro..ro + n] == done;
  }

  // A whole row. It may end on the first limb it reads, which is written last.
  method MulRow(result: array<Limb>, ro: nat, x: array<Limb>, xo: nat, n: nat, word: Limb, first: bool)
    requires ro + n < result.Length && xo + n <= x.Length
    requires result != x || ro + n <= xo
    modifies result
    ensures Val(result[ro..ro + n + 1])
         == (if first then 0 else old(Val(result[ro..ro + n]))) + Times(word, old(Val(x[xo..xo + n])))
    ensures forall k :: 0 <= k < result.Length && !(ro <= k <= ro + n) ==> result[k] == old(result[k])
  {
    hide *;
    var carry := MulRowLow(result, ro, x, xo, n, word, first);
    ghost var low := result[ro..ro + n];
    result[ro + n] := carry;
    ValSnoc(low, carry);
    assert result[ro..ro + n + 1] == low + [carry];
  }

  lemma RowStep(r: seq<Limb>, d: Limb, rs: seq<Limb>, xs: seq<Limb>, word: nat, carry: int, carry': int)
    requires |r| < |rs| && |r| < |xs|
    requires Val(r) + Shift(|r|, carry) == Val(rs[..|r|]) + Times(word, Val(xs[..|r|]))
    requires carry + Times(word, xs[|r|]) + rs[|r|] == d + 0x1_0000_0000 * carry'
    ensures Val(r + [d]) + Shift(|r| + 1, carry') == Val(rs[..|r| + 1]) + Times(word, Val(xs[..|r| + 1]))
  {
    hide *;
    var j := |r|;
    CarryStep(r, d, Val(rs[..j]) + Times(word, Val(xs[..j])), carry, carry', rs[j] + Times(word, xs[j]));
    ShiftAdd(j, rs[j], Times(word, xs[j]));
    ShiftMul(j, word, xs[j]);
    ValPrefix(xs, j);
    ValPrefix(rs, j);
    TimesAdd(word, Val(xs[..j]), Shift(j, xs[j]));
  }

  // Row i of the schoolbook product on top of the rows before it.
  method NextRow(result: array<Limb>, x: array<Limb>, xo: nat, n: nat, y: seq<Limb>, i: nat, ghost xs: seq<Limb>)
    requires i < |y| && n + i < result.Length && xo + n <= x.Length && (result != x || n + i <= xo)
    requires x[xo..xo + n] == xs && Val(result[..n + i]) == Times(Val(xs), Val(y[..i]))
    modifies result
    ensures Val(result[..n + i + 1]) == Times(Val(xs), Val(y[..i + 1]))
    ensures forall k :: n + i + 1 <= k < result.Length ==> result[k] == old(result[k])
  {
    hide *;
    ghost var r := result[..n + i];
    assert r[i..] == result[i..i + n];
    MulRow(result, i, x, xo, n, y[i], false);
    assert result[..n + i + 1][i..] == result[i..i + n + 1];
    MulStep(r, result[..n + i + 1], xs, y, i);
  }

  // The schoolbook product by a constant y. The product may run into x by one limb: its top limb
  // may be the lowest limb of x, because that limb is written last.
  method MulP(result: array<Limb>, x: array<Limb>, xo: nat, xcount: nat, y: seq<Limb>)
    requires |y| > 0
    requires xcount + |y| <= result.Length && xo + xcount <= x.Length
    requires result != x || xcount + |y| - 1 <= xo
    modifies result
    ensures Val(result[..xcount + |y|]) == Times(old(Val(x[xo..xo + xcount])), Val(y))
    ensures forall k :: xcount + |y| <= k < result.Length ==> result[k] == old(result[k])
  {
    ghost var xs, n := x[xo..xo + xcount], xcount;
    MulRow(result, 0, x, xo, xcount, y[0], true);
    TimesFirst(y, Val(xs));
    assert result[..n + 1] == result[0..n + 1];
    hide *;
    var i := 1;
    while i < |y|
      invariant 1 <= i <= |y|
      invariant i < |y| ==> x[xo..xo + n] == xs
      invariant forall k :: n + i <= k < result.Length ==> result[k] == old(result[k])
      invariant Val(result[..n + i]) == Times(Val(xs), Val(y[..i]))
    {
      NextRow(result, x, xo, xcount, y, i, xs);
      i := i + 1;
    }
    assert y[..|y|] == y;
  }

  lemma TimesFirst(y: seq<Limb>, x: int)
    requires |y| > 0
    ensures Times(y[0], x) == Times(x, Val(y[..1]))
  {
    assert y[..1] == [] + [y[0]];
    ValSnoc([], y[0]);
  }

  lemma MulStep(r: seq<Limb>, r': seq<Limb>, xs: seq<Limb>, y: seq<Limb>, i: nat)
    requires i < |y| && |r| == |xs| + i && |r'| == |r| + 1 && r[..i] == r'[..i]
    requires Val(r) == Times(Val(xs), Val(y[..i]))
    requires Val(r'[i..]) == Val(r[i..]) + Times(y[i], Val(xs))
    ensures Val(r') == Times(Val(xs), Val(y[..i + 1]))
  {
    hide *;
    ValSplit(r, i);
    ValSplit(r', i);
    ValPrefix(y, i);
    ShiftAdd(i, Val(r[i..]), Times(y[i], Val(xs)));
    TimesComm(y[i], Val(xs));
    ShiftMul(i, Val(xs), y[i]);
    TimesAdd(Val(xs), Val(y[..i]), Shift(i, y[i]));
  }

  function Word(b: Bytes): Limb
    requires |b| == 4
  {
    (b[0] as int) + (b[1] as int) * 0x100 + (b[2] as int) * 0x1_0000 + (b[3] as int) * 0x100_0000
  }

  // b cut or padded with zeros to n bytes.
  function Resize(b: Bytes, n: nat): (r: Bytes)
    ensures |r| == n
  {
    if n <= |b| then b[..n] else b + seq(n - |b|, _ => 0)
  }

  lemma {:induction false} ValOfWords(ws: seq<Limb>, b: Bytes)
    requires |b| == 4 * |ws|
    requires forall k :: 0 <= k < |ws| ==> ws[k] == Word(b[4 * k..4 * k + 4])
    ensures Val(ws) == LE(b)
  {
    if ws == [] {
    } else {
      forall k | 0 <= k < |ws| - 1
        ensures ws[1..][k] == Word(b[4..][4 * k..4 * k + 4])
      {
        assert b[4..][4 * k..4 * k + 4] == b[4 * (k + 1)..4 * (k + 1) + 4];
      }
      ValOfWords(ws[1..], b[4..]);
      LEWord(b);
      assert b[4 * 0..4 * 0 + 4] == b[..4];
    }
  }

  lemma LEWord(b: Bytes)
    requires |b| >= 4
    ensures LE(b) == Word(b[..4]) + 0x1_0000_0000 * LE(b[4..])
  {
    assert b[1..][1..] == b[2..] && b[2..][1..] == b[3..] && b[3..][1..] == b[4..];
    assert LE(b) == b[0] + 256 * LE(b[1..]);
    assert LE(b[1..]) == b[1] + 256 * LE(b[2..]);
    assert LE(b[2..]) == b[2] + 256 * LE(b[3..]);
    assert LE(b[3..]) == b[3] + 256 * LE(b[4..]);
  }

  // Four bytes of a resized string: bytes of the original, then zeros.
  lemma ResizeSlice(b: Bytes, n: nat, i: nat)
    requires i + 4 <= n
    ensures i + 4 <= |b| ==> Resize(b, n)[i..i + 4] == b[i..i + 4]
    ensures i < |b| < i + 4 ==> Resize(b, n)[i..i + 4] == Resize(b[i..], 4)
    ensures |b| <= i ==> Word(Resize(b, n)[i..i + 4]) == 0
  {
  }

  // Whole words first, then a part of a word, then zeros; bytes beyond the limbs are lost.
  method UnpackLE(limbs: array<Limb>, count: nat, bytes: Bytes)
    requires count <= limbs.Length
    modifies limbs
    ensures Val(limbs[..count]) == LE(Resize(bytes, 4 * count))
    ensures forall k :: count <= k < limbs.Length ==> limbs[k] == old(limbs[k])
  {
    hide Resize, Word;
    ghost var padded := Resize(bytes, 4 * count);
    var i := 0;
    while i < count && 4 * i + 4 <= |bytes|
      invariant i <= count && 4 * i <= |bytes|
      invariant forall k :: 0 <= k < i ==> limbs[k] == Word(padded[4 * k..4 * k + 4])
      invariant forall k :: count <= k < limbs.Length ==> limbs[k] == old(limbs[k])
    {
      ResizeSlice(bytes, 4 * count, 4 * i);
      limbs[i] := Word(bytes[4 * i..4 * i + 4]);
      i := i + 1;
    }
    if i < count && 4 * i < |bytes| {
      ResizeSlice(bytes, 4 * count, 4 * i);
      limbs[i] := Word(Resize(bytes[4 * i..], 4));
      i := i + 1;
    }
    while i < count
      invariant i <= count && (i < count ==> |bytes| <= 4 * i)
      invariant forall k :: 0 <= k < i ==> limbs[k] == Word(padded[4 * k..4 * k + 4])
      invariant forall k :: count <= k < limbs.Length ==> limbs[k] == old(limbs[k])
    {
      ResizeSlice(bytes, 4 * count, 4 * i);
      limbs[i] := 0;
      i := i + 1;
    }
    ValOfWords(limbs[..count], padded);
  }

  // Byte j of a limb.
  function ByteOf(w: Limb, j: nat): Byte
    requires j < 4
  {
    if j == 0 then w % 0x100
    else if j == 1 then (w / 0x100) % 0x100
    else if j == 2 then (w / 0x1_0000) % 0x100
    else w / 0x100_0000
  }

  lemma WordOfBytes(w: Limb)
    ensures Word([ByteOf(w, 0), ByteOf(w, 1), ByteOf(w, 2), ByteOf(w, 3)]) == w
  {
    var a, b := w / 0x100, w / 0x1_0000;
    assert w == w % 0x100 + 0x100 * a;
    assert a == a % 0x100 + 0x100 * b;
    assert b == b % 0x100 + 0x100 * (w / 0x100_0000);
  }

  function LimbBytes(ws: seq<Limb>): (b: Bytes)
    ensures |b| == 4 * |ws|
  {
    seq(4 * |ws|, k requires 0 <= k < 4 * |ws| => ByteOf(ws[k / 4], k % 4))
  }

  lemma LimbBytesValue(ws: seq<Limb>)
    ensures LE(LimbBytes(ws)) == Val(ws)
  {
    var b := LimbBytes(ws);
    forall k | 0 <= k < |ws|
      ensures ws[k] == Word(b[4 * k..4 * k + 4])
    {
      WordOfBytes(ws[k]);
      assert b[4 * k..4 * k + 4] == [ByteOf(ws[k], 0), ByteOf(ws[k], 1), ByteOf(ws[k], 2), ByteOf(ws[k], 3)];
    }
    ValOfWords(ws, b);
  }

  lemma {:induction false} ToLEResize(b: Bytes, n: nat)
    ensures ToLE(LE(b), n) == Resize(b, n)
  {
    if n == 0 {
    } else {
      hide *;
      var rest := if b == [] then [] else b[1..];
      NextByte(b, n);
      ToLENext(LE(b), n);
      ToLEResize(rest, n - 1);
    }
  }

  // A string resized to n > 0 bytes starts with its first byte, or zero.
  lemma NextByte(b: Bytes, n: nat)
    requires n > 0
    ensures var rest := if b == [] then [] else b[1..];
            Resize(b, n) == [LE(b) % 256] + Resize(rest, n - 1) && LE(b) / 256 == LE(rest)
  {
    if b == [] { LEEmpty(); } else { LENext(b); }
    hide LE;
  }

  // The number in the limbs, cut or padded to len bytes.
  method PackLE(bytes: array<Byte>, off: nat, len: nat, limbs: array<Limb>, count: nat)
    requires off + len <= bytes.Length && count <= limbs.Length
    modifies bytes
    ensures bytes[off..off + len] == ToLE(Val(limbs[..count]), len)
    ensures forall k :: 0 <= k < bytes.Length && !(off <= k < off + len) ==> bytes[k] == old(bytes[k])
  {
    ghost var ws := limbs[..count];
    LimbBytesValue(ws);
    ToLEResize(LimbBytes(ws), len);
    hide ToLE, LE, Val;
    var i := 0;
    while i < len
      invariant i <= len
      invariant forall k :: 0 <= k < i ==> bytes[off + k] == Resize(LimbBytes(ws), len)[k]
      invariant forall k :: 0 <= k < bytes.Length && !(off <= k < off + i) ==> bytes[k] == old(bytes[k])
    {
      bytes[off + i] := if i < 4 * count then ByteOf(limbs[i / 4], i % 4) else 0;
      i := i + 1;
    }
  }
}
