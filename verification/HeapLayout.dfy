/** The words of the heap of Project_04/mm.c and what it means for them to be well formed.

    Ghost state views the heap in 8-byte double words: the block whose payload pointer
    is 8*a has key a, header word 2*a-1 and a footer in its last double word. */
module HeapLayout {

  type Word = x: nat | x < 0x1_0000_0000

  datatype Block = Block(len: nat, alloc: bool)

  // GET_SIZE clears the low three bits of a header or footer word.
  function GetSize(w: Word): Word { w - w % 8 }

  // GET_ALLOC is the lowest of those three bits.
  predicate GetAlloc(w: Word) { w % 8 % 2 == 1 }

  // PACK(size, alloc) for a size that is a multiple of 8.
  function Pack(size: nat, alloc: bool): nat { size + (if alloc then 1 else 0) }

  ghost function Tag(b: Block): nat { Pack(8 * b.len, b.alloc) }

  /* The heap invariant over the words of the region */

  ghost predicate BlockOk(m: seq<Word>, end: nat, bs: map<nat, Block>, a: nat)
    requires a in bs
  {
    var b := bs[a];
    && 1 <= a && 1 <= b.len && a + b.len <= end && 2 * end <= |m|
    && (a == 1 || 2 <= b.len)
    && m[2 * a - 1] == Tag(b) == m[2 * (a + b.len) - 2]
    && (a + b.len == end || a + b.len in bs)
  }

  // The footer in front of position a belongs to the block that ends there.
  ghost predicate PrevOk(m: seq<Word>, bs: map<nat, Block>, a: nat)
  {
    && 2 <= a && 2 * a <= |m|
    && var k := m[2 * a - 2] / 8;
    && 1 <= k < a && a - k in bs && bs[a - k].len == k
  }

  ghost predicate Separate(bs: map<nat, Block>, a: nat, b: nat)
  {
    a in bs && b in bs && a < b ==> a + bs[a].len <= b
  }

  // The blocks of bs tile [1, end), from the prologue to the epilogue header.
  ghost predicate Tiling(m: seq<Word>, end: nat, bs: map<nat, Block>)
  {
    && 2 <= end && 2 * end <= |m|
    && 1 in bs && bs[1] == Block(1, true)
    && m[2 * end - 1] == 1
    && (forall a {:trigger BlockOk(m, end, bs, a)} | a in bs :: BlockOk(m, end, bs, a))
    && (forall a {:trigger PrevOk(m, bs, a)} | a in bs && a != 1 :: PrevOk(m, bs, a))
    && PrevOk(m, bs, end)
    && (forall a, b {:trigger Separate(bs, a, b)} | a in bs && b in bs :: Separate(bs, a, b))
  }

  ghost predicate FreeNext(bs: map<nat, Block>, a: nat)
  {
    a in bs && a + bs[a].len in bs && !bs[a + bs[a].len].alloc
  }

  // No two free blocks are neighbours, except possibly next to block x.
  ghost predicate Coalesced(bs: map<nat, Block>, x: nat)
  {
    forall a | a in bs && !bs[a].alloc && a != x && a + bs[a].len != x :: !FreeNext(bs, a)
  }

  /* Local change: new words and blocks between two block boundaries */

  ghost predicate SameOutside(m: seq<Word>, m': seq<Word>, a: nat, z: nat)
  {
    |m'| == |m| && 1 <= a < z &&
    forall i | 0 <= i < |m| && !(2 * a - 1 <= i <= 2 * z - 2) :: m'[i] == m[i]
  }

  ghost predicate SameBlocksOutside(bs: map<nat, Block>, bs': map<nat, Block>, a: nat, z: nat)
  {
    && (forall x | x in bs && !(a <= x < z) :: x in bs' && bs'[x] == bs[x])
    && (forall x | x in bs' && !(a <= x < z) :: x in bs)
  }

  ghost predicate InsideBlock(m': seq<Word>, bs': map<nat, Block>, z: nat, x: nat)
    requires x in bs'
  {
    var b := bs'[x];
    && 1 <= x && 2 <= b.len && x + b.len <= z && 2 * z <= |m'|
    && m'[2 * x - 1] == Tag(b) == m'[2 * (x + b.len) - 2]
    && (x + b.len == z || x + b.len in bs')
  }

  ghost predicate InsideOk(m': seq<Word>, bs': map<nat, Block>, a: nat, z: nat)
  {
    && a in bs'
    && (forall x {:trigger InsideBlock(m', bs', z, x)} | x in bs' && a <= x < z :: InsideBlock(m', bs', z, x))
    && (forall x {:trigger PrevOk(m', bs', x)} | x in bs' && a < x < z :: PrevOk(m', bs', x))
    && PrevOk(m', bs', z)
    && (forall x, y {:trigger Separate(bs', x, y)} | x in bs' && y in bs' && a <= x && y < z :: Separate(bs', x, y))
  }

  ghost predicate Region(m: seq<Word>, m': seq<Word>, end: nat,
                         bs: map<nat, Block>, bs': map<nat, Block>, a: nat, z: nat)
  {
    && Tiling(m, end, bs)
    && a in bs && a != 1 && 1 <= a < z && (z in bs || z == end)
    && SameOutside(m, m', a, z) && SameBlocksOutside(bs, bs', a, z)
  }

  lemma RegionOutside(m: seq<Word>, m': seq<Word>, end: nat,
                      bs: map<nat, Block>, bs': map<nat, Block>, a: nat, z: nat, x: nat)
    requires Region(m, m', end, bs, bs', a, z)
    requires x in bs && !(a <= x < z)
    ensures x + bs[x].len <= a || z <= x
    ensures x in bs' && bs'[x] == bs[x]
  {
    assert BlockOk(m, end, bs, x);
    assert Separate(bs, x, a);
  }

  lemma RegionBlock(m: seq<Word>, m': seq<Word>, end: nat,
                    bs: map<nat, Block>, bs': map<nat, Block>, a: nat, z: nat, x: nat)
    requires Region(m, m', end, bs, bs', a, z) && a in bs'
    requires x in bs' && !(a <= x < z)
    ensures BlockOk(m', end, bs', x)
  {
    assert x in bs;
    assert BlockOk(m, end, bs, x) && BlockOk(m, end, bs, a);
    RegionOutside(m, m', end, bs, bs', a, z, x);
    var y := x + bs[x].len;
    if y != end && y != a {
      assert !(a < y < z);
    }
  }

  lemma RegionPrev(m: seq<Word>, m': seq<Word>, end: nat,
                   bs: map<nat, Block>, bs': map<nat, Block>, a: nat, z: nat, x: nat)
    requires Region(m, m', end, bs, bs', a, z)
    requires PrevOk(m, bs, x) && (x <= a || z < x) && x <= end
    ensures PrevOk(m', bs', x)
  {
    var k := m[2 * x - 2] / 8;
    assert Separate(bs, x - k, z);
  }

  lemma RegionSeparate(m: seq<Word>, m': seq<Word>, end: nat,
                       bs: map<nat, Block>, bs': map<nat, Block>, a: nat, z: nat, x: nat, y: nat)
    requires Region(m, m', end, bs, bs', a, z) && InsideOk(m', bs', a, z)
    requires x in bs' && y in bs'
    ensures Separate(bs', x, y)
  {
    if x >= y {
    } else if a <= x < z {
      assert InsideBlock(m', bs', z, x);
      if y < z {
        assert Separate(bs', x, y);
      }
    } else {
      RegionOutside(m, m', end, bs, bs', a, z, x);
      if y in bs {
        assert Separate(bs, x, y);
      }
    }
  }

  lemma RegionInner(m: seq<Word>, m': seq<Word>, end: nat,
                    bs: map<nat, Block>, bs': map<nat, Block>, a: nat, z: nat, x: nat)
    requires Region(m, m', end, bs, bs', a, z) && InsideOk(m', bs', a, z)
    requires x in bs' && a <= x < z
    ensures BlockOk(m', end, bs', x)
  {
    assert InsideBlock(m', bs', z, x);
    if z in bs {
      assert BlockOk(m, end, bs, z);
      RegionOutside(m, m', end, bs, bs', a, z, z);
    }
  }

  lemma RegionEnds(m: seq<Word>, m': seq<Word>, end: nat,
                   bs: map<nat, Block>, bs': map<nat, Block>, a: nat, z: nat)
    requires Region(m, m', end, bs, bs', a, z)
    ensures 2 <= end && 2 * end <= |m'| && 1 in bs' && bs'[1] == Block(1, true) && m'[2 * end - 1] == 1
    ensures a < z <= end
  {
    RegionOutside(m, m', end, bs, bs', a, z, 1) by {
      assert BlockOk(m, end, bs, a);
    }
    if z in bs {
      assert BlockOk(m, end, bs, z);
    }
  }

  lemma RegionPrevAny(m: seq<Word>, m': seq<Word>, end: nat,
                      bs: map<nat, Block>, bs': map<nat, Block>, a: nat, z: nat, x: nat)
    requires Region(m, m', end, bs, bs', a, z) && InsideOk(m', bs', a, z)
    requires (x in bs' && x != 1) || x == end
    ensures PrevOk(m', bs', x)
  {
    RegionEnds(m, m', end, bs, bs', a, z);
    if x <= a || z < x {
      assert PrevOk(m, bs, x);
      assert x <= end by {
        if x != end {
          assert BlockOk(m, end, bs, x);
        }
      }
      RegionPrev(m, m', end, bs, bs', a, z, x);
    }
  }

  // The invariant is local: rewriting the stretch [a, z) well keeps the whole heap well formed.
  lemma ReplaceRegion(m: seq<Word>, m': seq<Word>, end: nat,
                      bs: map<nat, Block>, bs': map<nat, Block>, a: nat, z: nat)
    requires Region(m, m', end, bs, bs', a, z) && InsideOk(m', bs', a, z)
    ensures Tiling(m', end, bs')
  {
    RegionEnds(m, m', end, bs, bs', a, z);
    assert a in bs';
    hide Region, InsideOk, BlockOk, PrevOk, Separate;
    forall x | x in bs'
      ensures BlockOk(m', end, bs', x)
    {
      if a <= x < z {
        RegionInner(m, m', end, bs, bs', a, z, x);
      } else {
        RegionBlock(m, m', end, bs, bs', a, z, x);
      }
    }
    forall x | (x in bs' && x != 1) || x == end
      ensures PrevOk(m', bs', x)
    {
      RegionPrevAny(m, m', end, bs, bs', a, z, x);
    }
    forall x, y | x in bs' && y in bs'
      ensures Separate(bs', x, y)
    {
      RegionSeparate(m, m', end, bs, bs', a, z, x, y);
    }
  }

  /* The block maps that the operations produce */

  // Everything in [a, z) becomes one block.
  ghost function Fuse(bs: map<nat, Block>, a: nat, z: nat, alloc: bool): map<nat, Block>
    requires a < z
  {
    map x | x in bs && !(a < x < z) :: if x == a then Block(z - a, alloc) else bs[x]
  }

  // The block at a, ending at z, is cut at c into an allocated and a free part.
  ghost function Cut(bs: map<nat, Block>, a: nat, c: nat, z: nat): map<nat, Block>
    requires a < c < z
  {
    bs[a := Block(c - a, true)][c := Block(z - c, false)]
  }

  // Header and footer words describe one block on [a, z).
  ghost predicate Stamped(m: seq<Word>, a: nat, z: nat, alloc: bool)
  {
    && 1 <= a < z && 2 * z <= |m|
    && m[2 * a - 1] == m[2 * z - 2] == Pack(8 * (z - a), alloc)
  }

  lemma FuseTiles(m: seq<Word>, m': seq<Word>, end: nat, bs: map<nat, Block>, a: nat, z: nat, alloc: bool)
    requires Tiling(m, end, bs) && a in bs && 2 <= a && a + 2 <= z && (z in bs || z == end)
    requires SameOutside(m, m', a, z)
    requires Stamped(m', a, z, alloc)
    ensures Region(m, m', end, bs, Fuse(bs, a, z, alloc), a, z)
    ensures Tiling(m', end, Fuse(bs, a, z, alloc))
  {
    var bs' := Fuse(bs, a, z, alloc);
    assert PrevOk(m', bs', z) && InsideBlock(m', bs', z, a) by {
      assert bs'[a] == Block(z - a, alloc);
      if z in bs {
        assert BlockOk(m, end, bs, z);
      }
    }
    ReplaceRegion(m, m', end, bs, bs', a, z);
  }

  lemma CutTiles(m: seq<Word>, m': seq<Word>, end: nat, bs: map<nat, Block>, a: nat, c: nat, z: nat)
    requires Tiling(m, end, bs) && a in bs && 2 <= a && a + 2 <= c && c + 2 <= z && z == a + bs[a].len
    requires SameOutside(m, m', a, z)
    requires Stamped(m', a, c, true) && Stamped(m', c, z, false)
    ensures Region(m, m', end, bs, Cut(bs, a, c, z), a, z)
    ensures Tiling(m', end, Cut(bs, a, c, z))
  {
    var bs' := Cut(bs, a, c, z);
    NoneInside(m, end, bs, a);
    assert BlockOk(m, end, bs, a);
    forall x | x in bs' && a <= x < z
      ensures x == a || x == c
    {
      assert x in bs || x == c;
    }
    assert InsideBlock(m', bs', z, a) && InsideBlock(m', bs', z, c);
    assert PrevOk(m', bs', c) && PrevOk(m', bs', z);
    ReplaceRegion(m, m', end, bs, bs', a, z);
  }

  lemma NoneInside(m: seq<Word>, end: nat, bs: map<nat, Block>, a: nat)
    requires Tiling(m, end, bs) && a in bs
    ensures forall x | x in bs :: !(a < x < a + bs[a].len)
  {
    forall x | x in bs
      ensures !(a < x < a + bs[a].len)
    {
      assert Separate(bs, a, x);
    }
  }

  lemma Mod8(k: nat)
    ensures (8 * k) % 8 == 0 && (8 * k + 1) % 8 == 1 && (8 * k) / 8 == k == (8 * k + 1) / 8
  {}

  lemma PackView(k: nat, alloc: bool)
    requires 8 * k + 8 <= 0x1_0000_0000
    ensures Pack(8 * k, alloc) < 0x1_0000_0000
    ensures GetSize(Pack(8 * k, alloc)) == 8 * k && GetAlloc(Pack(8 * k, alloc)) == alloc
  {
    Mod8(k);
  }

  lemma TagView(b: Block, w: Word)
    requires w == Tag(b)
    ensures GetSize(w) == 8 * b.len && GetAlloc(w) == b.alloc && w / 8 == b.len
  {
    Mod8(b.len);
  }

  // What the header, the footers and the neighbours of a block look like in memory.
  lemma BlockView(m: seq<Word>, end: nat, bs: map<nat, Block>, a: nat)
    requires Tiling(m, end, bs) && a in bs
    ensures var b := bs[a];
      && 1 <= a && 1 <= b.len && (a == 1 || 2 <= b.len)
      && a + b.len <= end && 2 * end <= |m|
      && GetSize(m[2 * a - 1]) == 8 * b.len == GetSize(m[2 * (a + b.len) - 2])
      && GetAlloc(m[2 * a - 1]) == b.alloc == GetAlloc(m[2 * (a + b.len) - 2])
      && (a + b.len == end || a + b.len in bs)
  {
    assert BlockOk(m, end, bs, a);
    hide GetSize, GetAlloc, Tag;
    TagView(bs[a], m[2 * a - 1]);
  }

  // The predecessor that PREV_BLKP finds through the footer in front of x.
  lemma PrevView(m: seq<Word>, end: nat, bs: map<nat, Block>, x: nat) returns (p: nat)
    requires Tiling(m, end, bs) && ((x in bs && x != 1) || x == end)
    ensures 2 <= x && 2 * x <= |m| && p in bs && 1 <= p && p + bs[p].len == x
    ensures GetSize(m[2 * x - 2]) == 8 * bs[p].len && GetAlloc(m[2 * x - 2]) == bs[p].alloc
  {
    assert PrevOk(m, bs, x);
    p := x - m[2 * x - 2] / 8;
    BlockView(m, end, bs, p);
  }

  /* No two free neighbours */

  lemma FuseCoalesces(m: seq<Word>, end: nat, bs: map<nat, Block>, x: nat, a: nat, z: nat)
    requires Tiling(m, end, bs) && Coalesced(bs, x)
    requires x in bs && !bs[x].alloc && 1 <= a <= x && x + bs[x].len <= z && a + 2 <= z && a in bs
    // a is x, or the free block in front of it
    requires if a == x then (forall p | p in bs && p + bs[p].len == x :: bs[p].alloc)
             else a + bs[a].len == x && !bs[a].alloc
    // z is the end of x, or of the free block behind it
    requires var n := x + bs[x].len;
      if z == n then n == end || (n in bs && bs[n].alloc)
      else n in bs && !bs[n].alloc && z == n + bs[n].len
    ensures Coalesced(Fuse(bs, a, z, false), 0)
  {
    var bs' := Fuse(bs, a, z, false);
    var n := x + bs[x].len;
    KeyBelow(m, end, bs, x);
    forall q | q in bs' && !bs'[q].alloc
      ensures !FreeNext(bs', q)
    {
      if q == a {
        if z != n && z in bs {
          assert !FreeNext(bs, n);
        }
        if z in bs {
          KeyBelow(m, end, bs, z);
        }
      } else {
        assert Separate(bs, q, a);
        if q + bs[q].len == a {
          assert false;
        }
        assert !FreeNext(bs, q);
      }
    }
  }

  lemma KeyBelow(m: seq<Word>, end: nat, bs: map<nat, Block>, a: nat)
    requires Tiling(m, end, bs) && a in bs
    ensures 1 <= a < a + bs[a].len <= end
  {
    assert BlockOk(m, end, bs, a);
  }

  /* Growing the heap: a free block takes the place of the old epilogue */

  ghost predicate Grown(m: seq<Word>, m': seq<Word>, end: nat, end': nat)
  {
    && 2 <= end && end + 2 <= end' && |m'| == |m| && 2 * end' <= |m|
    && (forall i | 0 <= i < 2 * end - 1 :: m'[i] == m[i])
    && Stamped(m', end, end', false)
    && m'[2 * end' - 1] == 1
  }

  lemma GrowBlock(m: seq<Word>, m': seq<Word>, end: nat, end': nat, bs: map<nat, Block>, x: nat)
    requires Tiling(m, end, bs) && Grown(m, m', end, end') && (x in bs || x == end)
    ensures BlockOk(m', end', bs[end := Block(end' - end, false)], x)
    ensures x != 1 ==> PrevOk(m', bs[end := Block(end' - end, false)], x)
  {
    KeysBelow(m, end, bs);
    if x != end {
      assert BlockOk(m, end, bs, x);
    }
    if x != 1 {
      assert PrevOk(m, bs, x);
    }
  }

  lemma GrowSeparate(m: seq<Word>, end: nat, bs: map<nat, Block>, k: nat, x: nat, y: nat)
    requires Tiling(m, end, bs) && (x in bs || x == end) && (y in bs || y == end)
    ensures Separate(bs[end := Block(k, false)], x, y)
  {
    KeysBelow(m, end, bs);
    if x != end && y != end {
      assert Separate(bs, x, y);
    }
  }

  lemma GrowTiles(m: seq<Word>, m': seq<Word>, end: nat, end': nat, bs: map<nat, Block>)
    requires Tiling(m, end, bs) && Grown(m, m', end, end')
    ensures Tiling(m', end', bs[end := Block(end' - end, false)])
  {
    var bs' := bs[end := Block(end' - end, false)];
    KeyBelow(m, end, bs, 1);
    GrowEnd(m, m', end, end', bs);
    assert bs'[1] == Block(1, true);
    hide BlockOk, PrevOk, Separate, Grown;
    forall x | x in bs'
      ensures BlockOk(m', end', bs', x) && (x != 1 ==> PrevOk(m', bs', x))
    {
      hide Tiling;
      GrowBlock(m, m', end, end', bs, x);
    }
    forall x, y | x in bs' && y in bs'
      ensures Separate(bs', x, y)
    {
      hide Tiling;
      GrowSeparate(m, end, bs, end' - end, x, y);
    }
  }

  lemma GrowEnd(m: seq<Word>, m': seq<Word>, end: nat, end': nat, bs: map<nat, Block>)
    requires Grown(m, m', end, end')
    ensures 2 <= end && end + 2 <= end' && 2 * end' <= |m'| && m'[2 * end' - 1] == 1
    ensures PrevOk(m', bs[end := Block(end' - end, false)], end')
  {
    TagView(Block(end' - end, false), m'[2 * end' - 2]);
  }

  lemma KeysBelow(m: seq<Word>, end: nat, bs: map<nat, Block>)
    requires Tiling(m, end, bs)
    ensures forall a | a in bs :: 1 <= a < a + bs[a].len <= end
  {
    forall a | a in bs
      ensures 1 <= a < a + bs[a].len <= end
    {
      KeyBelow(m, end, bs, a);
    }
  }

  lemma GrowCoalesced(m: seq<Word>, end: nat, bs: map<nat, Block>, k: nat)
    requires Tiling(m, end, bs) && Coalesced(bs, 0)
    ensures Coalesced(bs[end := Block(k, false)], end)
  {
    KeysBelow(m, end, bs);
    var bs' := bs[end := Block(k, false)];
    forall a | a in bs' && !bs'[a].alloc && a != end && a + bs'[a].len != end
      ensures !FreeNext(bs', a)
    {
      assert !FreeNext(bs, a);
    }
  }

  /* Live payloads */

  // The payload words of every allocated block but the prologue.
  ghost function Payloads(m: seq<Word>, end: nat, bs: map<nat, Block>): map<nat, seq<Word>>
    requires Tiling(m, end, bs)
  {
    KeysBelow(m, end, bs);
    map a | a in bs && a != 1 && bs[a].alloc :: m[2 * a..2 * (a + bs[a].len) - 2]
  }

  lemma PayloadOutside(m: seq<Word>, m': seq<Word>, end: nat,
                       bs: map<nat, Block>, bs': map<nat, Block>, a: nat, z: nat, x: nat)
    requires Region(m, m', end, bs, bs', a, z) && Tiling(m', end, bs') && !(a <= x < z)
    ensures x in Payloads(m, end, bs) <==> x in Payloads(m', end, bs')
    ensures x in Payloads(m, end, bs) ==> Payloads(m', end, bs')[x] == Payloads(m, end, bs)[x]
  {
    assert x in bs <==> x in bs';
    if x in bs {
      RegionOutside(m, m', end, bs, bs', a, z, x);
      KeyBelow(m, end, bs, x);
    }
  }

  // Payloads outside a rewritten region do not change, nor do they come or go.
  lemma PayloadsRegion(m: seq<Word>, m': seq<Word>, end: nat,
                       bs: map<nat, Block>, bs': map<nat, Block>, a: nat, z: nat)
    requires Region(m, m', end, bs, bs', a, z) && Tiling(m', end, bs')
    requires forall x | x in bs && a < x < z :: !bs[x].alloc
    requires forall x | x in bs' && a < x < z :: !bs'[x].alloc
    ensures Payloads(m', end, bs') - {a} == Payloads(m, end, bs) - {a}
    ensures a in bs' && !bs[a].alloc && !bs'[a].alloc ==> Payloads(m', end, bs') == Payloads(m, end, bs)
  {
    var p, p' := Payloads(m, end, bs), Payloads(m', end, bs');
    assert forall x | a < x < z :: x !in p && x !in p';
    assert a in bs' && !bs[a].alloc && !bs'[a].alloc ==> a !in p && a !in p';
    hide *;
    forall x: nat | !(a <= x < z)
      ensures x in p <==> x in p'
      ensures x in p ==> p'[x] == p[x]
    {
      PayloadOutside(m, m', end, bs, bs', a, z, x);
    }
    SameButOne(p, p', a);
  }

  lemma SameButOne<X>(p: map<nat, X>, p': map<nat, X>, a: nat)
    requires forall x | x != a :: (x in p <==> x in p') && (x in p ==> p'[x] == p[x])
    ensures p' - {a} == p - {a} && (a !in p && a !in p' ==> p' == p)
  {}

  lemma PayloadsGrown(m: seq<Word>, m': seq<Word>, end: nat, end': nat, bs: map<nat, Block>)
    requires Tiling(m, end, bs) && Grown(m, m', end, end')
    requires Tiling(m', end', bs[end := Block(end' - end, false)])
    ensures Payloads(m', end', bs[end := Block(end' - end, false)]) == Payloads(m, end, bs)
  {
    KeysBelow(m, end, bs);
    var p, p' := Payloads(m, end, bs), Payloads(m', end', bs[end := Block(end' - end, false)]);
    forall x | x in p
      ensures x in p' && p'[x] == p[x]
    {
    }
  }

  // Which stretch [a, z) around the free block x coalescing turns into one block.
  ghost predicate MergeSpan(end: nat, bs: map<nat, Block>, x: nat, a: nat, z: nat)
  {
    && x in bs && a in bs && 1 < a <= x && x + bs[x].len <= z
    && (if a == x then (forall p | p in bs && p + bs[p].len == x :: bs[p].alloc)
        else a + bs[a].len == x && !bs[a].alloc)
    && var n := x + bs[x].len;
    && if z == n then n == end || (n in bs && bs[n].alloc)
       else n in bs && !bs[n].alloc && z == n + bs[n].len
  }

  // Merging over a span restores "no two free neighbours" and leaves all payloads alone.
  lemma MergeCorrect(m: seq<Word>, m': seq<Word>, end: nat, bs: map<nat, Block>, x: nat, a: nat, z: nat)
    requires Tiling(m, end, bs) && x in bs && !bs[x].alloc && Coalesced(bs, x)
    requires MergeSpan(end, bs, x, a, z)
    requires SameOutside(m, m', a, z) && Stamped(m', a, z, false)
    ensures Tiling(m', end, Fuse(bs, a, z, false))
    ensures Coalesced(Fuse(bs, a, z, false), 0)
    ensures Payloads(m', end, Fuse(bs, a, z, false)) == Payloads(m, end, bs)
  {
    KeysBelow(m, end, bs);
    assert BlockOk(m, end, bs, x) && BlockOk(m, end, bs, a);
    if x + bs[x].len in bs {
      assert BlockOk(m, end, bs, x + bs[x].len);
    }
    FuseTiles(m, m', end, bs, a, z, false);
    FuseCoalesces(m, end, bs, x, a, z);
    assert forall y | y in bs && a < y < z :: !bs[y].alloc by {
      SpanIsFree(m, end, bs, x, a, z);
    }
    hide Tiling, Region;
    PayloadsRegion(m, m', end, bs, Fuse(bs, a, z, false), a, z);
  }

  lemma SpanIsFree(m: seq<Word>, end: nat, bs: map<nat, Block>, x: nat, a: nat, z: nat)
    requires Tiling(m, end, bs) && x in bs && !bs[x].alloc && MergeSpan(end, bs, x, a, z)
    ensures forall y | y in bs && a <= y < z :: !bs[y].alloc
  {
    forall y | y in bs && a <= y < z
      ensures !bs[y].alloc
    {
      assert Separate(bs, a, y) && Separate(bs, x, y) && Separate(bs, y, x);
      if x + bs[x].len in bs {
        assert Separate(bs, x + bs[x].len, y);
      }
    }
  }

  ghost predicate Fits(bs: map<nat, Block>, a: nat, need: nat)
  {
    a in bs && !bs[a].alloc && bs[a].len >= need
  }

  function SetWord(s: seq<Word>, i: nat, w: Word): seq<Word>
    requires i < |s|
  {
    s[..i] + [w] + s[i + 1..]
  }

  lemma SpanFits(end: nat, bs: map<nat, Block>, x: nat, a: nat, z: nat)
    requires MergeSpan(end, bs, x, a, z) && a < z
    ensures 1 < a && Fits(Fuse(bs, a, z, false), a, bs[x].len)
  {}

  ghost function Placed(bs: map<nat, Block>, a: nat, k: nat): map<nat, Block>
    requires a in bs && 0 < k <= bs[a].len
  {
    if bs[a].len - k >= 2 then Cut(bs, a, a + k, a + bs[a].len) else Fuse(bs, a, a + bs[a].len, true)
  }

  // The words after place, when the block [a, z) is cut at c. A request for nothing has c == a.
  ghost function PlacedWords(m: seq<Word>, a: nat, c: nat, z: nat): seq<Word>
    requires 1 <= a <= c <= z && a < z && 2 * z <= |m| && 8 * z <= 0x1_0000_0000
  {
    if z - c >= 2 then
      m[2 * a - 1 := Pack(8 * (c - a), true)][2 * c - 2 := Pack(8 * (c - a), true)]
       [2 * c - 1 := Pack(8 * (z - c), false)][2 * z - 2 := Pack(8 * (z - c), false)]
    else
      m[2 * a - 1 := Pack(8 * (z - a), true)][2 * z - 2 := Pack(8 * (z - a), true)]
  }

  lemma PlacedStamped(m: seq<Word>, a: nat, c: nat, z: nat)
    requires 1 <= a < c <= z && 2 * z <= |m| && 8 * z <= 0x1_0000_0000
    ensures SameOutside(m, PlacedWords(m, a, c, z), a, z)
    ensures var m' := PlacedWords(m, a, c, z);
      if z - c >= 2 then Stamped(m', a, c, true) && Stamped(m', c, z, false) else Stamped(m', a, z, true)
  {}

  /* A request that wrapped around to less than the smallest block */

  lemma SameTag(b: Block, b': Block)
    requires Tag(b) == Tag(b')
    ensures b == b'
  {
    Mod8(b.len);
    Mod8(b'.len);
  }

  // Two tilings agree on the blocks up to a when the headers below a do.
  lemma {:induction false} SameWalk(m: seq<Word>, m': seq<Word>, end: nat, bs: map<nat, Block>, bs': map<nat, Block>,
                                    a: nat, x: nat)
    requires Tiling(m, end, bs) && Tiling(m', end, bs') && a in bs && x in bs && x <= a
    requires forall y | y in bs && y < a :: 1 <= y && 2 * y <= |m| && 2 * y <= |m'| && m'[2 * y - 1] == m[2 * y - 1]
    ensures x in bs' && (x < a ==> bs'[x] == bs[x])
    decreases x
  {
    KeyBelow(m, end, bs, a);
    if x != 1 {
      var p := PrevView(m, end, bs, x);
      KeyBelow(m, end, bs, p);
      SameWalk(m, m', end, bs, bs', a, p);
      KeyBelow(m, end, bs, x);
      assert BlockOk(m', end, bs', p);
    }
    if x < a {
      assert BlockOk(m, end, bs, x) && BlockOk(m', end, bs', x);
      SameTag(bs[x], bs'[x]);
    }
  }

  // Some set of blocks tiles the words.
  ghost predicate Tiled(m: seq<Word>, end: nat)
  {
    exists bs: map<nat, Block> :: Tiling(m, end, bs)
  }

  lemma TiledAs(m: seq<Word>, end: nat, bs: map<nat, Block>)
    requires Tiling(m, end, bs)
    ensures Tiled(m, end)
  {}

  /** What place does with a size of 0 or 8 bytes: the heap is still well formed exactly if the size is 8 and the
      block is of 16 bytes, which is then allocated as a whole. Otherwise no set of blocks tiles the words: with
      size 0 the footer in front of the block is lost, with size 8 there is a block without room for a payload. */
  lemma TinyPlaceIff(m: seq<Word>, end: nat, bs: map<nat, Block>, a: nat, c: nat)
    requires Tiling(m, end, bs) && a in bs && !bs[a].alloc && a <= c <= a + 1 && 8 * end <= 0x1_0000_0000
    ensures 1 < a <= c <= a + bs[a].len <= end && 2 <= bs[a].len && 2 * end <= |m|
    ensures Tiled(PlacedWords(m, a, c, a + bs[a].len), end) <==> c == a + 1 && bs[a].len == 2
  {
    var z := a + bs[a].len;
    assert BlockOk(m, end, bs, a);
    var m' := PlacedWords(m, a, c, z);
    if c == a + 1 && bs[a].len == 2 {
      PlacedStamped(m, a, c, z);
      FuseTiles(m, m', end, bs, a, z, true);
      TiledAs(m', end, Fuse(bs, a, z, true));
    } else if Tiled(m', end) {
      var bs' :| Tiling(m', end, bs');
      TinyWords(m, a, c, z);
      SameStart(m, m', end, bs, bs', a);
      TagsOf(m', end, bs', a);
    }
  }

  lemma TinyWords(m: seq<Word>, a: nat, c: nat, z: nat)
    requires 1 <= a <= c <= a + 1 && c + 2 <= z && 2 * z <= |m| && 8 * z <= 0x1_0000_0000
    ensures var m' := PlacedWords(m, a, c, z);
      && |m'| == |m| && (forall i | 0 <= i < 2 * a - 2 :: m'[i] == m[i])
      && if c == a then m'[2 * a - 2] / 8 == 0 else m'[2 * a - 1] / 8 == 1
  {}

  lemma SameStart(m: seq<Word>, m': seq<Word>, end: nat, bs: map<nat, Block>, bs': map<nat, Block>, a: nat)
    requires Tiling(m, end, bs) && Tiling(m', end, bs') && a in bs && |m'| == |m| && 2 * a <= |m|
    requires forall i | 0 <= i < 2 * a - 2 :: m'[i] == m[i]
    ensures a in bs'
  {
    KeysBelow(m, end, bs);
    SameWalk(m, m', end, bs, bs', a, a);
  }

  // The footer in front of a block and its header show the sizes.
  lemma TagsOf(m: seq<Word>, end: nat, bs: map<nat, Block>, a: nat)
    requires Tiling(m, end, bs) && a in bs && a > 1
    ensures 2 * a <= |m| && m[2 * a - 2] / 8 >= 1 && m[2 * a - 1] / 8 >= 2
  {
    assert PrevOk(m, bs, a) && BlockOk(m, end, bs, a);
    TagView(bs[a], m[2 * a - 1]);
  }

  // Placing allocates the block a, keeps every other payload and leaves no two free neighbours.
  lemma PlaceCorrect(m: seq<Word>, m': seq<Word>, end: nat, bs: map<nat, Block>, a: nat, k: nat, z: nat)
    requires Tiling(m, end, bs) && Coalesced(bs, 0) && Fits(bs, a, k) && 2 <= k && z == a + bs[a].len && 1 <= a
    requires SameOutside(m, m', a, z)
    requires if z - (a + k) >= 2 then Stamped(m', a, a + k, true) && Stamped(m', a + k, z, false)
             else Stamped(m', a, z, true)
    ensures var bs' := Placed(bs, a, k);
      && Tiling(m', end, bs') && Coalesced(bs', 0) && a in bs'
      && a in Payloads(m', end, bs') && |Payloads(m', end, bs')[a]| >= 2 * k - 2
      && a !in Payloads(m, end, bs) && Payloads(m', end, bs') - {a} == Payloads(m, end, bs)
  {
    PlaceTiles(m, m', end, bs, a, k, z);
    FreeNoPayload(m, end, bs, a);
    hide Tiling, Region, Coalesced;
    PayloadsRegion(m, m', end, bs, Placed(bs, a, k), a, z);
  }

  // The same for the words that place writes.
  lemma PlaceWhole(m: seq<Word>, end: nat, bs: map<nat, Block>, a: nat, k: nat)
    requires Tiling(m, end, bs) && Coalesced(bs, 0) && Fits(bs, a, k) && 2 <= k && 1 <= a
    requires 2 * (a + bs[a].len) <= |m| && 8 * (a + bs[a].len) <= 0x1_0000_0000
    ensures var m', bs' := PlacedWords(m, a, a + k, a + bs[a].len), Placed(bs, a, k);
      && Tiling(m', end, bs') && Coalesced(bs', 0) && a in bs'
      && a in Payloads(m', end, bs') && |Payloads(m', end, bs')[a]| >= 2 * k - 2
      && a !in Payloads(m, end, bs) && Payloads(m', end, bs') - {a} == Payloads(m, end, bs)
  {
    PlacedStamped(m, a, a + k, a + bs[a].len);
    hide Tiling, Coalesced, PlacedWords, Placed, Payloads, Stamped, SameOutside;
    PlaceCorrect(m, PlacedWords(m, a, a + k, a + bs[a].len), end, bs, a, k, a + bs[a].len);
  }

  lemma FreeNoPayload(m: seq<Word>, end: nat, bs: map<nat, Block>, a: nat)
    requires Tiling(m, end, bs) && a in bs && !bs[a].alloc
    ensures a !in Payloads(m, end, bs) && Payloads(m, end, bs) - {a} == Payloads(m, end, bs)
  {}

  lemma PlaceTiles(m: seq<Word>, m': seq<Word>, end: nat, bs: map<nat, Block>, a: nat, k: nat, z: nat)
    requires Tiling(m, end, bs) && Coalesced(bs, 0) && Fits(bs, a, k) && 2 <= k && z == a + bs[a].len && 1 <= a
    requires SameOutside(m, m', a, z)
    requires if z - (a + k) >= 2 then Stamped(m', a, a + k, true) && Stamped(m', a + k, z, false)
             else Stamped(m', a, z, true)
    ensures var bs' := Placed(bs, a, k);
      && Region(m, m', end, bs, bs', a, z) && Tiling(m', end, bs') && Coalesced(bs', 0)
      && 1 < a && a in bs' && bs'[a].alloc && bs'[a].len >= k
    ensures forall x | x in bs && a < x < z :: !bs[x].alloc
    ensures forall x | x in Placed(bs, a, k) && a < x < z :: !Placed(bs, a, k)[x].alloc
  {
    FreeBlock(m, end, bs, a);
    hide Tiling, Coalesced, Region, SameOutside, Stamped;
    if z - (a + k) >= 2 {
      CutTiles(m, m', end, bs, a, a + k, z);
      CutCoalesced(m, end, bs, a, a + k, z);
    } else {
      FuseTiles(m, m', end, bs, a, z, true);
      WholeCoalesced(m, end, bs, a, z);
    }
  }

  lemma FreeBlock(m: seq<Word>, end: nat, bs: map<nat, Block>, a: nat)
    requires Tiling(m, end, bs) && a in bs && !bs[a].alloc
    ensures 2 <= a && 2 <= bs[a].len && (a + bs[a].len in bs || a + bs[a].len == end)
    ensures forall x | x in bs :: !(a < x < a + bs[a].len)
  {
    assert BlockOk(m, end, bs, a) && bs[1].alloc;
    NoneInside(m, end, bs, a);
  }

  lemma WholeCoalesced(m: seq<Word>, end: nat, bs: map<nat, Block>, a: nat, z: nat)
    requires Tiling(m, end, bs) && Coalesced(bs, 0) && a in bs && z == a + bs[a].len && a < z
    ensures Coalesced(Fuse(bs, a, z, true), 0)
  {
    NoneInside(m, end, bs, a);
    KeysBelow(m, end, bs);
    var bs' := Fuse(bs, a, z, true);
    forall q | q in bs' && !bs'[q].alloc
      ensures !FreeNext(bs', q)
    {
      assert !FreeNext(bs, q);
    }
  }

  lemma CutCoalesced(m: seq<Word>, end: nat, bs: map<nat, Block>, a: nat, c: nat, z: nat)
    requires Tiling(m, end, bs) && Coalesced(bs, 0) && a in bs && !bs[a].alloc
    requires z == a + bs[a].len && a < c < z
    ensures Coalesced(Cut(bs, a, c, z), 0)
  {
    NoneInside(m, end, bs, a);
    KeysBelow(m, end, bs);
    var bs' := Cut(bs, a, c, z);
    forall q | q in bs' && !bs'[q].alloc
      ensures !FreeNext(bs', q)
    {
      assert !FreeNext(bs, a);
      if q != c {
        assert !FreeNext(bs, q);
        assert Separate(bs, q, a);
      }
    }
  }

  lemma InitTiles(m: seq<Word>)
    requires |m| >= 4 && m[1] == m[2] == Pack(8, true) && m[3] == Pack(0, true)
    ensures var bs := map[1 := Block(1, true)];
      Tiling(m, 2, bs) && Coalesced(bs, 0) && Payloads(m, 2, bs) == map[]
  {
    var bs := map[1 := Block(1, true)];
    assert BlockOk(m, 2, bs, 1) && PrevOk(m, bs, 2);
  }

  lemma BeyondEnd(m: seq<Word>, end: nat, bs: map<nat, Block>)
    requires Tiling(m, end, bs)
    ensures forall b | end <= b :: b !in bs
  {
    KeysBelow(m, end, bs);
  }

  lemma FirstKey(m: seq<Word>, end: nat, bs: map<nat, Block>)
    requires Tiling(m, end, bs)
    ensures 1 in bs && bs[1].alloc && forall b | b in bs :: b >= 1
  {
    KeysBelow(m, end, bs);
  }

  lemma StepWithin(m: seq<Word>, end: nat, bs: map<nat, Block>, x: nat, y: nat)
    requires Tiling(m, end, bs) && x in bs && y in bs && x < y
    ensures x + bs[x].len <= y && x + bs[x].len in bs
  {
    assert Separate(bs, x, y);
    KeyBelow(m, end, bs, y);
    assert BlockOk(m, end, bs, x);
  }

  lemma FreeWhole(m: seq<Word>, m': seq<Word>, end: nat, bs: map<nat, Block>, a: nat, z: nat)
    requires Tiling(m, end, bs) && Coalesced(bs, 0) && a in bs && a != 1 && bs[a].alloc && z == a + bs[a].len
    requires SameOutside(m, m', a, z) && Stamped(m', a, z, false)
    ensures var bs' := Fuse(bs, a, z, false);
      && Tiling(m', end, bs') && Coalesced(bs', a) && a in bs' && !bs'[a].alloc && a > 1
      && Payloads(m', end, bs') == Payloads(m, end, bs) - {a}
  {
    var bs' := Fuse(bs, a, z, false);
    assert BlockOk(m, end, bs, a);
    FuseTiles(m, m', end, bs, a, z, false);
    NoneInside(m, end, bs, a);
    KeysBelow(m, end, bs);
    assert a !in Payloads(m', end, bs');
    assert Payloads(m', end, bs') - {a} == Payloads(m', end, bs');
    assert Coalesced(bs', a) by {
      forall q | q in bs' && !bs'[q].alloc && q != a && q + bs'[q].len != a
        ensures !FreeNext(bs', q)
      {
        assert !FreeNext(bs, q);
      }
    }
    hide Tiling, Region, Coalesced;
    PayloadsRegion(m, m', end, bs, bs', a, z);
  }

  lemma StoreTiles(m: seq<Word>, m': seq<Word>, end: nat, bs: map<nat, Block>, a: nat, i: nat, w: Word)
    requires Tiling(m, end, bs) && a in Payloads(m, end, bs) && i < |Payloads(m, end, bs)[a]|
    requires |m'| == |m| && 2 * a + i < |m| && m' == m[2 * a + i := w]
    ensures Tiling(m', end, bs)
    ensures Payloads(m', end, bs) == Payloads(m, end, bs)[a := SetWord(Payloads(m, end, bs)[a], i, w)]
  {
    var z := a + bs[a].len;
    assert BlockOk(m, end, bs, a);
    assert Fuse(bs, a, z, true) == bs by { NoneInside(m, end, bs, a); }
    FuseTiles(m, m', end, bs, a, z, true);
    NoneInside(m, end, bs, a);
    var p, p' := Payloads(m, end, bs), Payloads(m', end, bs);
    PayloadsRegion(m, m', end, bs, bs, a, z);
    assert p'[a] == SetWord(p[a], i, w);
    hide *;
    assert p' == (p' - {a})[a := p'[a]];
  }

  lemma SpanStart(end: nat, bs: map<nat, Block>, x: nat, a: nat, z: nat)
    requires MergeSpan(end, bs, x, a, z) && a < z
    ensures a in Fuse(bs, a, z, false)
  {}

  /* The properties promised of every reachable heap */

  // Live payloads are inside the heap and do not overlap.
  lemma LivePayloadsDisjoint(m: seq<Word>, end: nat, bs: map<nat, Block>, a: nat, b: nat)
    requires Tiling(m, end, bs) && a in Payloads(m, end, bs) && b in Payloads(m, end, bs) && a < b
    ensures 2 * a + |Payloads(m, end, bs)[a]| <= 2 * b - 2
    ensures 2 * b + |Payloads(m, end, bs)[b]| <= 2 * end - 2
  {
    assert Separate(bs, a, b);
    KeyBelow(m, end, bs, a);
    KeyBelow(m, end, bs, b);
  }

  lemma PayloadInside(m: seq<Word>, end: nat, bs: map<nat, Block>, a: nat)
    requires Tiling(m, end, bs) && a in Payloads(m, end, bs)
    ensures 2 * a + |Payloads(m, end, bs)[a]| <= 2 * end - 2
  {
    KeyBelow(m, end, bs, a);
  }

  // Walking headers upwards from position x, as find_fit does, until a header of size zero.
  ghost function Walk(m: seq<Word>, x: nat): seq<nat>
    decreases |m| - x
  {
    if x == 0 || 2 * x > |m| || GetSize(m[2 * x - 1]) < 8 then [x]
    else [x] + Walk(m, x + GetSize(m[2 * x - 1]) / 8)
  }

  lemma WalkStep(m: seq<Word>, end: nat, bs: map<nat, Block>, x: nat)
    requires Tiling(m, end, bs) && x in bs
    ensures x + bs[x].len in bs || x + bs[x].len == end
    ensures x < x + bs[x].len <= end && Walk(m, x) == [x] + Walk(m, x + bs[x].len)
  {
    BeyondEnd(m, end, bs);
    BlockView(m, end, bs, x);
  }

  lemma WalkEnd(m: seq<Word>, end: nat, bs: map<nat, Block>)
    requires Tiling(m, end, bs)
    ensures Walk(m, end) == [end] && forall b | b in bs :: b < end
  {
    BeyondEnd(m, end, bs);
  }

  // The header walk visits exactly the blocks, in address order, and stops at the epilogue.
  lemma {:induction false} WalkVisitsBlocks(m: seq<Word>, end: nat, bs: map<nat, Block>, x: nat)
    requires Tiling(m, end, bs) && (x in bs || x == end)
    ensures var w := Walk(m, x);
      && w[|w| - 1] == end
      && (forall b | b in bs && x <= b :: b in w)
      && (forall i | 0 <= i < |w| - 1 :: w[i] in bs && w[i + 1] == w[i] + bs[w[i]].len)
    decreases end - x
  {
    hide *;
    WalkEnd(m, end, bs);
    if x != end {
      var y := x + bs[x].len;
      WalkStep(m, end, bs, x);
      WalkVisitsBlocks(m, end, bs, y);
      NoneInside(m, end, bs, x);
      WalkHead(m, y);
    }
  }

  lemma WalkHead(m: seq<Word>, x: nat)
    ensures |Walk(m, x)| >= 1 && Walk(m, x)[0] == x
  {}
}
