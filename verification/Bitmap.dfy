/** The bitmap: bits packed into 32-bit words. Each operation on words is the operation on the
    sequence of bits that they stand for. */
module Bitmap {
  import opened Options
  import B = Bits

  type Word = w: nat | w < 0x1_0000_0000

  /* One word. The logical operations work digit by digit in base two. */

  predicate Bit(w: nat, i: nat)
  {
    if i == 0 then w % 2 == 1 else Bit(w / 2, i - 1)
  }

  function Digit(b: bool): nat { if b then 1 else 0 }

  function Or(a: nat, b: nat): nat
  {
    if a == 0 && b == 0 then 0 else 2 * Or(a / 2, b / 2) + Digit(a % 2 == 1 || b % 2 == 1)
  }

  // a & ~b
  function AndNot(a: nat, b: nat): nat
  {
    if a == 0 then 0 else 2 * AndNot(a / 2, b / 2) + Digit(a % 2 == 1 && b % 2 == 0)
  }

  function Xor(a: nat, b: nat): nat
  {
    if a == 0 && b == 0 then 0 else 2 * Xor(a / 2, b / 2) + Digit(a % 2 != b % 2)
  }

  lemma {:induction false} ZeroBits(i: nat)
    ensures !Bit(0, i)
  {
    if i > 0 {
      ZeroBits(i - 1);
    }
  }

  lemma Halves(a: nat, b: nat)
    ensures Or(a, b) / 2 == Or(a / 2, b / 2) && (Or(a, b) % 2 == 1 <==> a % 2 == 1 || b % 2 == 1)
    ensures AndNot(a, b) / 2 == AndNot(a / 2, b / 2) && (AndNot(a, b) % 2 == 1 <==> a % 2 == 1 && b % 2 == 0)
    ensures Xor(a, b) / 2 == Xor(a / 2, b / 2) && (Xor(a, b) % 2 == 1 <==> a % 2 != b % 2)
  {}

  lemma {:induction false} OpBits(a: nat, b: nat, i: nat)
    ensures Bit(Or(a, b), i) <==> Bit(a, i) || Bit(b, i)
    ensures Bit(AndNot(a, b), i) <==> Bit(a, i) && !Bit(b, i)
    ensures Bit(Xor(a, b), i) <==> Bit(a, i) != Bit(b, i)
  {
    hide Or, AndNot, Xor;
    Halves(a, b);
    if i > 0 {
      OpBits(a / 2, b / 2, i - 1);
    }
  }

  // 1 << i
  function ShiftOne(i: nat): (r: nat)
    ensures r > 0
  {
    if i == 0 then 1 else 2 * ShiftOne(i - 1)
  }

  lemma {:induction false} MaskBit(i: nat, j: nat)
    ensures Bit(ShiftOne(i), j) <==> i == j
  {
    if j > 0 {
      if i > 0 {
        MaskBit(i - 1, j - 1);
      } else {
        ZeroBits(j - 1);
      }
    }
  }

  // w & (1 << i) tests one bit.
  lemma {:induction false} TestBit(w: nat, i: nat)
    ensures B.And(w, ShiftOne(i)) != 0 <==> Bit(w, i)
  {
    if i > 0 {
      TestBit(w / 2, i - 1);
      if w == 0 {
        ZeroBits(i);
      }
    } else {
      assert w > 0 ==> B.And(w / 2, 0) == 0;
    }
  }

  lemma {:induction false} StaysBelow(a: nat, b: nat, n: nat)
    requires a < ShiftOne(n) && b < ShiftOne(n)
    ensures Or(a, b) < ShiftOne(n) && AndNot(a, b) < ShiftOne(n) && Xor(a, b) < ShiftOne(n)
  {
    if n > 0 {
      StaysBelow(a / 2, b / 2, n - 1);
    }
  }

  lemma {:induction false} ShiftGrows(i: nat, n: nat)
    requires i < n
    ensures ShiftOne(i) < ShiftOne(n)
  {
    if i < n - 1 {
      ShiftGrows(i, n - 1);
    }
  }

  lemma WordLimit()
    ensures ShiftOne(32) == 0x1_0000_0000
  {
    assert ShiftOne(8) == 0x100 by {
      assert ShiftOne(4) == 0x10;
    }
    assert ShiftOne(12) == 0x1000;
    assert ShiftOne(16) == 0x1_0000;
    assert ShiftOne(20) == 0x10_0000;
    assert ShiftOne(24) == 0x100_0000;
    assert ShiftOne(28) == 0x1000_0000;
  }

  /** A mask with one bit changes exactly that bit of a word, and the result is a word again. */
  lemma OneMask(w: Word, i: nat)
    requires i < 32
    ensures Or(w, ShiftOne(i)) < 0x1_0000_0000 && AndNot(w, ShiftOne(i)) < 0x1_0000_0000
    ensures Xor(w, ShiftOne(i)) < 0x1_0000_0000
    ensures forall j: nat :: Bit(Or(w, ShiftOne(i)), j) == if j == i then true else Bit(w, j)
    ensures forall j: nat :: Bit(AndNot(w, ShiftOne(i)), j) == if j == i then false else Bit(w, j)
    ensures forall j: nat :: Bit(Xor(w, ShiftOne(i)), j) == if j == i then !Bit(w, i) else Bit(w, j)
  {
    hide Bit, Or, AndNot, Xor;
    WordLimit();
    ShiftGrows(i, 32);
    StaysBelow(w, ShiftOne(i), 32);
    forall j: nat
      ensures Bit(Or(w, ShiftOne(i)), j) == if j == i then true else Bit(w, j)
      ensures Bit(AndNot(w, ShiftOne(i)), j) == if j == i then false else Bit(w, j)
      ensures Bit(Xor(w, ShiftOne(i)), j) == if j == i then !Bit(w, i) else Bit(w, j)
    {
      OpBits(w, ShiftOne(i), j);
      MaskBit(i, j);
    }
  }

  /* The bitmap */

  // A group of cnt bits from start on, all equal to value.
  predicate Group(bits: seq<bool>, start: nat, cnt: nat, value: bool)
  {
    start + cnt <= |bits| && forall k | start <= k < start + cnt :: bits[k] == value
  }

  function Filled(n: nat, value: bool): (s: seq<bool>)
    ensures |s| == n && forall k | 0 <= k < n :: s[k] == value
  {
    if n == 0 then [] else Filled(n - 1, value) + [value]
  }

  // The bits with a group set to value.
  function WithGroup(bits: seq<bool>, start: nat, cnt: nat, value: bool): (r: seq<bool>)
    requires start + cnt <= |bits|
    ensures |r| == |bits|
  {
    bits[..start] + Filled(cnt, value) + bits[start + cnt..]
  }

  predicate WordBit(words: seq<Word>, k: nat)
    requires k < 32 * |words|
  {
    Bit(words[k / 32], k % 32)
  }

  // The first n bits that the words stand for.
  function BitsOf(words: seq<Word>, n: nat): (bits: seq<bool>)
    requires n <= 32 * |words|
    ensures |bits| == n && forall k | 0 <= k < n :: bits[k] == WordBit(words, k)
  {
    if n == 0 then [] else BitsOf(words, n - 1) + [WordBit(words, n - 1)]
  }

  // A word that differs in one bit.
  lemma OneBit(words: seq<Word>, n: nat, k: nat, w: Word, bit: bool)
    requires k < n <= 32 * |words|
    requires forall j: nat :: Bit(w, j) == if j == k % 32 then bit else Bit(words[k / 32], j)
    ensures BitsOf(words[..k / 32] + [w] + words[k / 32 + 1..], n) == BitsOf(words, n)[k := bit]
  {
    var words' := words[..k / 32] + [w] + words[k / 32 + 1..];
    forall i | 0 <= i < n
      ensures WordBit(words', i) == BitsOf(words, n)[k := bit][i]
    {
      if i / 32 == k / 32 {
        assert i == k <==> i % 32 == k % 32;
      }
    }
  }

  // Setting a group and setting it back.
  lemma FlipBack(bits: seq<bool>, start: nat, cnt: nat, value: bool)
    requires Group(bits, start, cnt, value)
    ensures start + cnt <= |bits|
    ensures forall k | 0 <= k < |bits| ::
      WithGroup(bits, start, cnt, !value)[k] == if start <= k < start + cnt then !value else bits[k]
    ensures WithGroup(WithGroup(bits, start, cnt, !value), start, cnt, value) == bits
  {
    var flipped := WithGroup(bits, start, cnt, !value);
    forall k | 0 <= k < |bits|
      ensures flipped[k] == if start <= k < start + cnt then !value else bits[k]
      ensures WithGroup(flipped, start, cnt, value)[k] == bits[k]
    {
    }
  }

  lemma GroupNone(bits: seq<bool>, start: nat, value: bool)
    requires start <= |bits|
    ensures WithGroup(bits, start, 0, value) == bits
  {}

  lemma GroupMore(bits: seq<bool>, start: nat, i: nat, value: bool)
    requires start + i < |bits|
    ensures WithGroup(bits, start, i, value)[start + i := value] == WithGroup(bits, start, i + 1, value)
  {}

  class Bitmap {
    const bitCnt: nat
    const elems: array<Word>

    ghost predicate Valid()
    {
      elems.Length == (bitCnt + 31) / 32
    }

    ghost function Bits(): (bits: seq<bool>)
      requires Valid()
      reads elems
      ensures |bits| == bitCnt
    {
      BitsOf(elems[..], bitCnt)
    }

    // bitmap_create, when both allocations succeed
    constructor (bitCnt: nat)
      ensures Valid() && this.bitCnt == bitCnt && fresh(elems)
      ensures forall k | 0 <= k < bitCnt :: !Bits()[k]
    {
      this.bitCnt := bitCnt;
      elems := new Word[(bitCnt + 31) / 32];
      new;
      BitmapSetMultiple(0, bitCnt, false);
    }

    // The source's "orl", "andl" and "xorl" instructions.
    method BitmapMark(bitIdx: nat)
      requires Valid() && bitIdx < bitCnt
      modifies elems
      ensures Bits() == old(Bits())[bitIdx := true]
    {
      var idx, mask := bitIdx / 32, ShiftOne(bitIdx % 32);
      ghost var words := elems[..];
      OneMask(elems[idx], bitIdx % 32);
      OneBit(words, bitCnt, bitIdx, Or(elems[idx], mask), true);
      elems[idx] := Or(elems[idx], mask);
      assert elems[..] == words[..idx] + [elems[idx]] + words[idx + 1..];
    }

    method BitmapReset(bitIdx: nat)
      requires Valid() && bitIdx < bitCnt
      modifies elems
      ensures Bits() == old(Bits())[bitIdx := false]
    {
      var idx, mask := bitIdx / 32, ShiftOne(bitIdx % 32);
      ghost var words := elems[..];
      OneMask(elems[idx], bitIdx % 32);
      OneBit(words, bitCnt, bitIdx, AndNot(elems[idx], mask), false);
      elems[idx] := AndNot(elems[idx], mask);
      assert elems[..] == words[..idx] + [elems[idx]] + words[idx + 1..];
    }

    method BitmapFlip(bitIdx: nat)
      requires Valid() && bitIdx < bitCnt
      modifies elems
      ensures Bits() == old(Bits())[bitIdx := !old(Bits())[bitIdx]]
    {
      var idx, mask := bitIdx / 32, ShiftOne(bitIdx % 32);
      ghost var words := elems[..];
      OneMask(elems[idx], bitIdx % 32);
      OneBit(words, bitCnt, bitIdx, Xor(elems[idx], mask), !Bit(elems[idx], bitIdx % 32));
      elems[idx] := Xor(elems[idx], mask);
      assert elems[..] == words[..idx] + [elems[idx]] + words[idx + 1..];
    }

    method BitmapTest(idx: nat) returns (r: bool)
      requires Valid() && idx < bitCnt
      ensures r == Bits()[idx]
    {
      TestBit(elems[idx / 32], idx % 32);
      r := B.And(elems[idx / 32], ShiftOne(idx % 32)) != 0;
    }

    method BitmapSet(idx: nat, value: bool)
      requires Valid() && idx < bitCnt
      modifies elems
      ensures Bits() == old(Bits())[idx := value]
    {
      if value {
        BitmapMark(idx);
      } else {
        BitmapReset(idx);
      }
    }

    method BitmapSetMultiple(start: nat, cnt: nat, value: bool)
      requires Valid() && start + cnt <= bitCnt
      modifies elems
      ensures Bits() == WithGroup(old(Bits()), start, cnt, value)
    {
      hide WithGroup, BitsOf, Bits;
      ghost var bits := Bits();
      GroupNone(bits, start, value);
      for i := 0 to cnt
        invariant Bits() == WithGroup(bits, start, i, value)
      {
        GroupMore(bits, start, i, value);
        BitmapSet(start + i, value);
      }
    }

    method BitmapContains(start: nat, cnt: nat, value: bool) returns (r: bool)
      requires Valid() && start + cnt <= bitCnt
      ensures r == !Group(Bits(), start, cnt, !value)
    {
      for i := 0 to cnt
        invariant Group(Bits(), start, i, !value)
      {
        var bit := BitmapTest(start + i);
        if bit == value {
          return true;
        }
      }
      return false;
    }

    // The first group at or after start; None is BITMAP_ERROR.
    method BitmapScan(start: nat, cnt: nat, value: bool) returns (idx: Option<nat>)
      requires Valid() && start <= bitCnt
      ensures idx.Some? ==> idx.value >= start && Group(Bits(), idx.value, cnt, value)
      ensures idx.Some? ==> forall i: nat | start <= i < idx.value :: !Group(Bits(), i, cnt, value)
      ensures idx.None? ==> forall i: nat | i >= start :: !Group(Bits(), i, cnt, value)
    {
      if cnt <= bitCnt {
        var last := bitCnt - cnt;
        var i := start;
        while i <= last
          invariant i >= start && forall j: nat | start <= j < i :: !Group(Bits(), j, cnt, value)
        {
          var other := BitmapContains(i, cnt, !value);
          if !other {
            return Some(i);
          }
          i := i + 1;
        }
      }
      return None;
    }

    // bitmap_scan_and_flip
    method BitmapScanAndFlip(start: nat, cnt: nat, value: bool) returns (idx: Option<nat>)
      requires Valid() && start <= bitCnt
      modifies elems
      ensures idx.Some? ==>
        && idx.value >= start && Group(old(Bits()), idx.value, cnt, value)
        && Bits() == WithGroup(old(Bits()), idx.value, cnt, !value)
      ensures idx.Some? ==> forall i: nat | start <= i < idx.value :: !Group(old(Bits()), i, cnt, value)
      ensures idx.None? ==> Bits() == old(Bits()) && forall i: nat | i >= start :: !Group(old(Bits()), i, cnt, value)
    {
      idx := BitmapScan(start, cnt, value);
      if idx.Some? {
        BitmapSetMultiple(idx.value, cnt, !value);
      }
    }
  }
}
