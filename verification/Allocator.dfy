/** The boundary-tag allocator of Project_04/mm.c.

    Addresses are byte offsets from the start of the region that mem_sbrk hands
    out, so the null pointer is address 0 and no block ever starts there. The
    region is an array of 32-bit words of fixed size; mem_sbrk fails when the
    region is used up. */
module Allocator {
  import opened HeapLayout
  import A = IntegerFacts

  const NULL: nat := 0
  const CHUNK: nat := 4096

  // Position b comes before position a when scanning upwards from just after last, wrapping around.
  ghost predicate ScannedBefore(last: nat, b: nat, a: nat)
  {
    if last < a then last < b < a else last < b || b < a
  }

  // a is the first fitting free block of that scan.
  ghost predicate NextFit(bs: map<nat, Block>, last: nat, a: nat, need: nat)
  {
    Fits(bs, a, need) && forall b | Fits(bs, b, need) :: !ScannedBefore(last, b, a)
  }

  // mm_malloc's asize: payload plus header and footer, in whole double words.
  function AdjustedSize(size: nat): (asize: nat)
    requires size > 0
    ensures asize % 8 == 0 && asize >= 16 && asize >= size + 8
  {
    if size <= 8 then 16 else 8 * ((size + 15) / 8)
  }

  // A block size that can hold a payload of size bytes.
  predicate Holds(bytes: nat, size: nat)
  {
    bytes % 8 == 0 && bytes >= 16 && bytes >= size + 8
  }

  /** It is the least size of a block that holds the payload. */
  lemma AdjustedIsLeast(size: nat, bytes: nat)
    requires size > 0
    ensures Holds(AdjustedSize(size), size)
    ensures Holds(bytes, size) <==> bytes % 8 == 0 && bytes >= AdjustedSize(size)
  {}

  // The same computation in size_t, whose values are below limit: the sum wraps around.
  function WrappedSize(size: nat, limit: nat): nat
    requires limit > 0
  {
    if size <= 8 then 16 else 8 * ((size + 15) % limit / 8)
  }

  /** For a request within 15 bytes of the largest size_t the adjusted size wraps around to at most 8 bytes,
      and for every other request it is what AdjustedSize says. */
  lemma WrapsIff(size: nat, limit: nat)
    requires 0 < size < limit && 24 < limit
    ensures WrappedSize(size, limit) == AdjustedSize(size) <==> size + 15 < limit
    ensures WrapsAround(Malloc(size), limit) <==> WrappedSize(size, limit) != AdjustedSize(size)
    ensures size + 15 >= limit ==> WrappedSize(size, limit) == if size + 7 < limit then 0 else 8
    ensures WrappedSize(size, limit) % 8 == 0 && AdjustedSize(size) >= 16
  {
    A.DivUnique(size + 15, limit, if size + 15 < limit then 0 else 1);
    A.DivMod(size + 15, limit);
  }

  // No free block has k double words.
  ghost predicate NoFit(bs: map<nat, Block>, k: nat)
  {
    forall b: nat :: !Fits(bs, b, k)
  }

  // No free block in front of position x has k double words.
  ghost predicate NoFitBelow(bs: map<nat, Block>, x: nat, k: nat)
  {
    forall b: nat | b < x :: !Fits(bs, b, k)
  }

  lemma NoFitSkip(bs: map<nat, Block>, x: nat, y: nat, k: nat)
    requires NoFitBelow(bs, x + 1, k) && x < y && forall b | x < b < y :: b !in bs
    ensures NoFitBelow(bs, y, k) && (!Fits(bs, y, k) ==> NoFitBelow(bs, y + 1, k))
  {}

  // The region has no room for the larger of a block of k double words and one chunk.
  predicate NoRoom(brk: nat, room: nat, k: nat)
  {
    brk + Extension(k) > room
  }

  // The free block that extend_heap leaves at a, merged up to z, from which the request is placed.
  ghost predicate GrownBlock(end: nat, grown: map<nat, Block>, x: nat, a: nat, z: nat, bs': map<nat, Block>, k: nat)
  {
    MergeSpan(end, grown, x, a, z) && a < z && Fits(Fuse(grown, a, z, false), a, k) && k > 0 &&
    bs' == Placed(Fuse(grown, a, z, false), a, k)
  }

  // How many bytes extend_heap asks for.
  function Extension(k: nat): (bytes: nat)
    ensures bytes % 8 == 0 && bytes >= 4096 && bytes >= 8 * k
  {
    if 8 * k > CHUNK then 8 * k else CHUNK
  }

  // The heap grew by one chunk, or by the block if it is larger, and the block at a is cut from the new end.
  ghost predicate Extended(brk: nat, bs: map<nat, Block>, brk': nat, bs': map<nat, Block>, a: nat, k: nat)
  {
    brk' == brk + Extension(k) &&
    var grown := bs[brk / 8 := Block(Extension(k) / 8, false)];
    exists z: nat :: GrownBlock(brk' / 8, grown, brk / 8, a, z, bs', k)
  }

  /* What a client may rely on */

  datatype Op = Malloc(size: nat) | Free(bp: nat) | Write(bp: nat, i: nat, w: Word)

  // A request whose block size does not fit a size_t with values below limit.
  predicate WrapsAround(op: Op, limit: nat)
  {
    op.Malloc? && op.size + 15 >= limit
  }

  // A state of the heap: its words, how many bytes are handed out, where the search starts, its blocks, and
  // the contents of the live allocations by the double word they start at.
  datatype Snapshot = Snapshot(mem: seq<Word>, brk: nat, lastBp: nat, blocks: map<nat, Block>,
                               live: map<nat, seq<Word>>)

  // Two payloads have no byte in common, with room for a footer and a header between them.
  ghost predicate PayloadsApart(live: map<nat, seq<Word>>, a: nat, b: nat)
  {
    a in live && b in live && a < b ==> 8 * a + 4 * |live[a]| <= 8 * b - 8
  }

  /** In every state the header walk tiles the heap with the blocks, no two free blocks are neighbours, the search
      starts at a block, and the live payloads are inside the heap, each in a block of its own, aligned to
      8 bytes, and pairwise disjoint. */
  ghost predicate Sound(s: Snapshot)
  {
    && s.brk % 8 == 0 && Tiling(s.mem, s.brk / 8, s.blocks) && Coalesced(s.blocks, 0)
    && s.lastBp % 8 == 0 && s.lastBp / 8 in s.blocks
    && s.live == Payloads(s.mem, s.brk / 8, s.blocks)
    && (forall a {:trigger a in s.live} :: a in s.live <==> a in s.blocks && a != 1 && s.blocks[a].alloc)
    && (forall a | a in s.live :: 8 * a + 4 * |s.live[a]| <= s.brk - 8)
    && forall a, b {:trigger PayloadsApart(s.live, a, b)} :: PayloadsApart(s.live, a, b)
  }

  ghost predicate Carved(live: map<nat, seq<Word>>, live': map<nat, seq<Word>>, a: nat, size: nat)
  {
    a !in live && a in live' && 4 * |live'[a]| >= size && live' - {a} == live
  }

  /** mm_malloc: null exactly for size zero or when no free block fits and the region is used up, and then nothing
      changed. Otherwise one payload more; from the next fit if there is one, and else from the end of the heap. */
  ghost predicate Malloced(s: Snapshot, t: Snapshot, size: nat, bp: nat, room: nat)
  {
    && (bp == NULL ==> t == s)
    && (size == 0 ==> bp == NULL)
    && (size > 0 ==>
          var k := AdjustedSize(size) / 8;
          && (bp == NULL <==> NoFit(s.blocks, k) && NoRoom(s.brk, room, k))
          && (bp != NULL ==>
                && bp % 8 == 0 && t.lastBp == bp && Carved(s.live, t.live, bp / 8, size)
                && if NoFit(s.blocks, k) then Extended(s.brk, s.blocks, t.brk, t.blocks, bp / 8, k)
                   else
                     && t.brk == s.brk && NextFit(s.blocks, s.lastBp / 8, bp / 8, k)
                     && FitPlaced(s.blocks, bp / 8, k, t.blocks)))
  }

  ghost predicate FitPlaced(bs: map<nat, Block>, a: nat, k: nat, bs': map<nat, Block>)
  {
    Fits(bs, a, k) && k > 0 && bs' == Placed(bs, a, k)
  }

  // A block of 16 bytes.
  ghost predicate WholeBlock(bs: map<nat, Block>, a: nat)
  {
    a in bs && bs[a].len == 2
  }

  /** mm_malloc on a request that wraps around to 8 * k bytes, with k below 2: the next free block is taken, or the end
      of the heap, and unless that is a block of 16 bytes for k = 1 no set of blocks tiles the heap any more. */
  ghost predicate Overrun(s: Snapshot, mem: seq<Word>, brk: nat, lastBp: nat, k: nat, bp: nat, room: nat)
  {
    && (bp == NULL <==> NoFit(s.blocks, k) && NoRoom(s.brk, room, k))
    && (bp == NULL ==> mem == s.mem && brk == s.brk && lastBp == s.lastBp)
    && (bp != NULL ==>
          && bp % 8 == 0 && lastBp == bp
          && (!NoFit(s.blocks, k) ==> brk == s.brk && NextFit(s.blocks, s.lastBp / 8, bp / 8, k))
          && (Tiled(mem, brk / 8) <==> k == 1 && !NoFit(s.blocks, k) && WholeBlock(s.blocks, bp / 8)))
  }

  /** What this means without computing the block size: mm_malloc returns null exactly for size zero, or when every
      free block is too small to hold the payload and the region too small for one more chunk of 4096 bytes, or for
      one block that holds the payload. The block it returns holds the payload, and no 16 bytes could be cut off. */
  lemma MallocMeans(s: Snapshot, t: Snapshot, size: nat, bp: nat, room: nat)
    requires Malloced(s, t, size, bp, room)
    ensures bp == NULL <==>
      || size == 0
      || ((forall b | b in s.blocks && !s.blocks[b].alloc :: !Holds(8 * s.blocks[b].len, size))
          && forall bytes: nat | bytes >= 4096 && Holds(bytes, size) :: s.brk + bytes > room)
    ensures bp != NULL ==>
      && bp / 8 in t.blocks && t.blocks[bp / 8].alloc && Holds(8 * t.blocks[bp / 8].len, size)
      && forall bytes: nat | Holds(bytes, size) :: 8 * t.blocks[bp / 8].len < bytes + 16
    ensures bp != NULL && t.brk != s.brk ==>
      && (forall b | b in s.blocks && !s.blocks[b].alloc :: !Holds(8 * s.blocks[b].len, size))
      && t.brk - s.brk >= 4096 && Holds(t.brk - s.brk, size)
      && forall bytes: nat | bytes >= 4096 && Holds(bytes, size) :: t.brk - s.brk <= bytes
  {
    if size > 0 {
      var k := AdjustedSize(size) / 8;
      AdjustedIsLeast(size, 0);
      NoFitMeans(s.blocks, size);
      NoRoomMeans(s.brk, room, size);
      hide AdjustedSize, Holds, NoFit, NoRoom, FitPlaced, Extended;
      if bp != NULL {
        if NoFit(s.blocks, k) {
          ExtendedMeans(s, t, bp / 8, k);
        } else {
          PlacedMeans(s.blocks, bp / 8, k, t.blocks);
        }
        TakenMeans(t.blocks[bp / 8].len, k, size);
        GrownMeans(size);
      }
    }
  }

  lemma NoFitMeans(bs: map<nat, Block>, size: nat)
    requires size > 0
    ensures NoFit(bs, AdjustedSize(size) / 8) <==>
      forall b | b in bs && !bs[b].alloc :: !Holds(8 * bs[b].len, size)
  {
    forall b | b in bs
      ensures Holds(8 * bs[b].len, size) <==> bs[b].len >= AdjustedSize(size) / 8
    {
      AdjustedIsLeast(size, 8 * bs[b].len);
    }
    hide AdjustedSize, Holds;
    assert forall b | b in bs && !bs[b].alloc :: Fits(bs, b, AdjustedSize(size) / 8) <==> Holds(8 * bs[b].len, size);
  }

  lemma NoRoomMeans(brk: nat, room: nat, size: nat)
    requires size > 0
    ensures NoRoom(brk, room, AdjustedSize(size) / 8) <==>
      forall bytes: nat | bytes >= 4096 && Holds(bytes, size) :: brk + bytes > room
  {
    GrownMeans(size);
  }

  lemma GrownMeans(size: nat)
    requires size > 0
    ensures var n := Extension(AdjustedSize(size) / 8);
      n >= 4096 && Holds(n, size) && forall bytes: nat | bytes >= 4096 && Holds(bytes, size) :: n <= bytes
  {
    var n := Extension(AdjustedSize(size) / 8);
    AdjustedIsLeast(size, n);
    forall bytes: nat | bytes >= 4096 && Holds(bytes, size)
      ensures n <= bytes
    {
      AdjustedIsLeast(size, bytes);
    }
  }

  lemma TakenMeans(len: nat, k: nat, size: nat)
    requires size > 0 && k == AdjustedSize(size) / 8 && k <= len < k + 2
    ensures Holds(8 * len, size) && forall bytes: nat | Holds(bytes, size) :: 8 * len < bytes + 16
  {
    AdjustedIsLeast(size, 8 * len);
    forall bytes: nat | Holds(bytes, size)
      ensures 8 * len < bytes + 16
    {
      AdjustedIsLeast(size, bytes);
    }
  }

  lemma PlacedMeans(bs: map<nat, Block>, a: nat, k: nat, bs': map<nat, Block>)
    requires FitPlaced(bs, a, k, bs')
    ensures a in bs' && bs'[a].alloc && k <= bs'[a].len < k + 2
  {}

  lemma ExtendedMeans(s: Snapshot, t: Snapshot, a: nat, k: nat)
    requires Extended(s.brk, s.blocks, t.brk, t.blocks, a, k)
    ensures a in t.blocks && t.blocks[a].alloc && k <= t.blocks[a].len < k + 2
    ensures t.brk == s.brk + Extension(k)
  {
    var grown := s.blocks[s.brk / 8 := Block(Extension(k) / 8, false)];
    var z: nat :| GrownBlock(t.brk / 8, grown, s.brk / 8, a, z, t.blocks, k);
    PlacedMeans(Fuse(grown, a, z, false), a, k, t.blocks);
  }

  // The block at a becomes free and is merged with its free neighbours to [b, e).
  ghost predicate Merged(end: nat, bs: map<nat, Block>, bs': map<nat, Block>, a: nat, b: nat, e: nat)
  {
    && a in bs && bs[a].len > 0 && b < e
    && var freed := Fuse(bs, a, a + bs[a].len, false);
    MergeSpan(end, freed, a, b, e) && bs' == Fuse(freed, b, e, false)
  }

  // mm_free: this payload goes, and no other.
  ghost predicate Freed(s: Snapshot, t: Snapshot, a: nat)
  {
    && a in s.live && t.live == s.live - {a} && t.brk == s.brk && t.lastBp % 8 == 0
    && exists e: nat :: Merged(s.brk / 8, s.blocks, t.blocks, a, t.lastBp / 8, e)
  }

  // A store into a live payload.
  ghost predicate Stored(s: Snapshot, t: Snapshot, a: nat, i: nat, w: Word)
  {
    && a in s.live && i < |s.live[a]| && t == s.(mem := t.mem, live := s.live[a := SetWord(s.live[a], i, w)])
  }

  // One client call, and the pointer it returns. Calls on pointers that are not live are not made.
  ghost predicate Allowed(s: Snapshot, op: Op, bp: nat, t: Snapshot, room: nat)
  {
    match op
    case Malloc(size) => Malloced(s, t, size, bp, room)
    case Free(p) => bp == NULL && if p % 8 == 0 && p / 8 in s.live then Freed(s, t, p / 8) else t == s
    case Write(p, i, w) =>
      bp == NULL &&
      if p % 8 == 0 && p / 8 in s.live && i < |s.live[p / 8]| then Stored(s, t, p / 8, i, w) else t == s
  }

  class Heap {
    const mem: array<Word>  // the region mem_sbrk hands out
    var brk: nat            // bytes handed out so far
    var heapListp: nat
    var lastBp: nat
    ghost var blocks: map<nat, Block>

    ghost predicate Shape()
      reads this, mem
    {
      && 4 * mem.Length <= 0x1_0000_0000
      && brk % 8 == 0 && heapListp == 8
      && Tiling(mem[..], brk / 8, blocks)
    }

    ghost predicate Valid()
      reads this, mem
    {
      && Shape()
      && lastBp % 8 == 0 && lastBp / 8 in blocks
      && Coalesced(blocks, 0)
    }

    // What a client can rely on: the live allocations and their contents.
    ghost function Live(): map<nat, seq<Word>>
      reads this, mem
      requires Shape()
    {
      Payloads(mem[..], brk / 8, blocks)
    }

    ghost function Now(): Snapshot
      reads this, mem
      requires Shape()
    {
      Snapshot(mem[..], brk, lastBp, blocks, Live())
    }

    function Get(p: nat): Word
      requires p % 4 == 0 && p / 4 < mem.Length
      reads mem
    {
      mem[p / 4]
    }

    method Put(p: nat, v: Word, ghost i: nat)
      requires p == 4 * i && i < mem.Length
      modifies mem
      ensures mem[..] == old(mem[..])[i := v]
    {
      mem[p / 4] := v;
    }

    // The size in the header of the block at bp.
    function Size(bp: nat): nat
      requires bp % 8 == 0 && 8 <= bp && bp / 4 <= mem.Length
      reads mem
    {
      GetSize(Get(bp - 4))
    }

    predicate Allocated(bp: nat)
      requires bp % 8 == 0 && 8 <= bp && bp / 4 <= mem.Length
      reads mem
    {
      GetAlloc(Get(bp - 4))
    }

    // NEXT_BLKP and PREV_BLKP read the header and the word in front of it each time.
    function NextBlkp(bp: nat): nat
      requires bp % 8 == 0 && 8 <= bp && bp / 4 <= mem.Length
      reads mem
    {
      bp + Size(bp)
    }

    function PrevBlkp(bp: nat): int
      requires bp % 8 == 0 && 8 <= bp && bp / 4 <= mem.Length
      reads mem
    {
      bp - GetSize(Get(bp - 8))
    }

    // The words that the macros read around the block with key a.
    lemma AtKey(bp: nat, a: nat)
      requires bp == 8 * a && 1 <= a && 2 * a <= mem.Length
      ensures bp % 8 == 0 && bp / 4 <= mem.Length
      ensures Size(bp) == GetSize(mem[2 * a - 1]) && Allocated(bp) == GetAlloc(mem[2 * a - 1])
      ensures NextBlkp(bp) == bp + GetSize(mem[2 * a - 1])
      ensures PrevBlkp(bp) == bp - GetSize(mem[2 * a - 2])
    {
      hide GetSize, GetAlloc;
      assert (bp - 4) / 4 == 2 * a - 1 && (bp - 8) / 4 == 2 * a - 2;
    }

    // The tags of the block [x, n), of its neighbour in front [p, x), and where the one behind starts.
    ghost predicate Around(p: nat, x: nat, n: nat, e: nat)
      reads mem
    {
      && 1 <= p < x < n <= e && 2 * e <= mem.Length
      && GetSize(mem[2 * p - 1]) == 8 * (x - p) == GetSize(mem[2 * x - 2])
      && GetSize(mem[2 * x - 1]) == 8 * (n - x)
    }

    ghost predicate TagsBehind(n: nat, e: nat)
      reads mem
    {
      1 <= n < e && 2 * e <= mem.Length && GetSize(mem[2 * n - 1]) == 8 * (e - n) == GetSize(mem[2 * e - 2])
    }

    // Only the header word of a block at a and the footer word of one ending at z changed.
    ghost predicate SameBut(m: seq<Word>, a: nat, z: nat)
      reads mem
    {
      |m| == mem.Length &&
      forall i | 0 <= i < mem.Length && i != 2 * a - 1 && i != 2 * z - 2 :: mem[i] == m[i]
    }

    // Writes the header and then the footer of the block at bp.
    method Stamp(bp: nat, size: nat, alloc: bool, ghost a: nat, ghost z: nat)
      requires bp == 8 * a && bp + size == 8 * z && 1 <= a <= z
      requires 2 * z <= mem.Length && 4 * mem.Length <= 0x1_0000_0000
      modifies mem
      ensures mem[..] == old(mem[..])[2 * a - 1 := Pack(size, alloc)][2 * z - 2 := Pack(size, alloc)]
      ensures SameBut(old(mem[..]), a, z) && (a < z ==> Stamped(mem[..], a, z, alloc))
    {
      PackView(z - a, alloc);
      hide GetSize, GetAlloc;
      Put(bp - 4, Pack(size, alloc), 2 * a - 1);
      assert Size(bp) == size;
      Put(bp + Size(bp) - 8, Pack(size, alloc), 2 * z - 2);
    }

    // Coalescing with the free block in front: new footer, then the header in front.
    method StampPrev(bp0: nat, size: nat, ghost p: nat, ghost x: nat, ghost n: nat) returns (bp: nat)
      requires bp0 == 8 * x && size == 8 * (n - p) && Around(p, x, n, n) && 4 * mem.Length <= 0x1_0000_0000
      modifies mem
      ensures bp == 8 * p && Stamped(mem[..], p, n, false) && SameBut(old(mem[..]), p, n)
    {
      PackView(n - p, false);
      hide GetSize, GetAlloc;
      AtKey(bp0, x);
      Put(bp0 + Size(bp0) - 8, Pack(size, false), 2 * n - 2);
      AtKey(bp0, x);
      Put(PrevBlkp(bp0) - 4, Pack(size, false), 2 * p - 1);
      AtKey(bp0, x);
      bp := PrevBlkp(bp0);
    }

    // Coalescing with both neighbours: the header in front, then the footer behind.
    method StampBoth(bp0: nat, size: nat, ghost p: nat, ghost x: nat, ghost n: nat, ghost e: nat) returns (bp: nat)
      requires bp0 == 8 * x && size == 8 * (e - p) && Around(p, x, n, e) && TagsBehind(n, e)
      requires 4 * mem.Length <= 0x1_0000_0000
      modifies mem
      ensures bp == 8 * p && Stamped(mem[..], p, e, false) && SameBut(old(mem[..]), p, e)
    {
      PackView(e - p, false);
      ghost var m := mem[..];
      hide GetSize, GetAlloc, Stamped, SameBut;
      AtKey(bp0, x);
      Put(PrevBlkp(bp0) - 4, Pack(size, false), 2 * p - 1);
      AtKey(bp0, x);
      AtKey(8 * n, n);
      Put(NextBlkp(bp0) + Size(NextBlkp(bp0)) - 8, Pack(size, false), 2 * e - 2);
      AtKey(bp0, x);
      bp := PrevBlkp(bp0);
      EndsStored(m, p, e, size);
    }

    // Equal words at the two ends.
    lemma EndsStored(m: seq<Word>, a: nat, z: nat, size: nat)
      requires 1 <= a < z && 2 * z <= |m| == mem.Length && size == 8 * (z - a) && Pack(size, false) < 0x1_0000_0000
      requires mem[..] == m[2 * a - 1 := Pack(size, false)][2 * z - 2 := Pack(size, false)]
      ensures Stamped(mem[..], a, z, false) && SameBut(m, a, z)
    {
      forall i | 0 <= i < mem.Length && i != 2 * a - 1 && i != 2 * z - 2
        ensures mem[i] == m[i]
      {
        assert mem[i] == mem[..][i];
      }
    }

    // Header and footer of the block b with key a, in the units of the source.
    ghost predicate View(a: nat, b: Block)
      reads mem
    {
      && 1 <= a && 1 <= b.len && 2 * (a + b.len) <= mem.Length
      && GetSize(mem[2 * a - 1]) == 8 * b.len == GetSize(mem[2 * (a + b.len) - 2])
      && GetAlloc(mem[2 * a - 1]) == b.alloc == GetAlloc(mem[2 * (a + b.len) - 2])
    }

    lemma BlockInMemory(a: nat)
      requires Shape() && a in blocks
      ensures View(a, blocks[a])
      ensures a + blocks[a].len in blocks || a + blocks[a].len == brk / 8
    {
      BlockView(mem[..], brk / 8, blocks, a);
    }

    // Which blocks are the neighbours of the block x.
    ghost predicate Beside(p: nat, x: nat, n: nat, e: nat, prevAlloc: bool, nextAlloc: bool)
      reads this
    {
      && x in blocks && p in blocks && x > 1 && 1 <= p < x < n <= e
      && p + blocks[p].len == x && n == x + blocks[x].len && prevAlloc == blocks[p].alloc
      && (if n == brk / 8 then nextAlloc && e == n
          else n in blocks && nextAlloc == blocks[n].alloc && n < e == n + blocks[n].len)
      && forall q | q in blocks && q + blocks[q].len == x :: q == p
    }

    lemma Surrounding(x: nat) returns (p: nat, n: nat, e: nat, prevAlloc: bool, nextAlloc: bool)
      requires Shape() && x in blocks && x > 1
      ensures Around(p, x, n, e) && Beside(p, x, n, e, prevAlloc, nextAlloc)
      ensures GetAlloc(mem[2 * x - 2]) == prevAlloc && 2 * n <= mem.Length && GetAlloc(mem[2 * n - 1]) == nextAlloc
      ensures !nextAlloc ==> TagsBehind(n, e)
    {
      p := PrevView(mem[..], brk / 8, blocks, x);
      BlockInMemory(x);
      BlockInMemory(p);
      EndMark();
      hide Tiling;
      n := x + blocks[x].len;
      e, prevAlloc, nextAlloc := n, blocks[p].alloc, true;
      if n != brk / 8 {
        BlockInMemory(n);
        e, nextAlloc := n + blocks[n].len, blocks[n].alloc;
      }
      OnePrev(x, p);
    }

    lemma EndMark()
      requires Shape()
      ensures brk / 8 >= 2 && 2 * (brk / 8) <= mem.Length && GetAlloc(mem[2 * (brk / 8) - 1])
    {}

    lemma OnePrev(x: nat, p: nat)
      requires Shape() && p in blocks && p + blocks[p].len == x
      ensures forall q | q in blocks && q + blocks[q].len == x :: q == p
    {
      forall q | q in blocks && q + blocks[q].len == x
        ensures q == p
      {
        KeyBelow(mem[..], brk / 8, blocks, p);
        KeyBelow(mem[..], brk / 8, blocks, q);
        assert Separate(blocks, p, q) && Separate(blocks, q, p);
      }
    }

    // The four-way choice of coalesce, on blocks that start at p, x and n and end at e.
    method Join(bp0: nat, prevAlloc: bool, nextAlloc: bool, ghost p: nat, ghost x: nat, ghost n: nat, ghost e: nat)
        returns (bp: nat)
      requires bp0 == 8 * x && Around(p, x, n, e) && 4 * mem.Length <= 0x1_0000_0000
      requires Stamped(mem[..], x, n, false) && (!nextAlloc ==> TagsBehind(n, e))
      modifies mem
      ensures var a, z := if prevAlloc then x else p, if nextAlloc then n else e;
        bp == 8 * a && Stamped(mem[..], a, z, false) && SameBut(old(mem[..]), a, z)
    {
      hide GetSize, GetAlloc, Stamped;
      AtKey(bp0, x);
      AtKey(8 * p, p);
      AtKey(8 * n, n);
      var size := Size(bp0);
      bp := bp0;
      if prevAlloc && nextAlloc {
      } else if prevAlloc && !nextAlloc {
        size := size + Size(NextBlkp(bp));
        Stamp(bp, size, false, x, e);
      } else if !prevAlloc && nextAlloc {
        size := size + Size(PrevBlkp(bp));
        bp := StampPrev(bp, size, p, x, n);
      } else {
        assert (8 * e - 8) / 4 == 2 * e - 2;
        size := size + Size(PrevBlkp(bp)) + GetSize(Get(NextBlkp(bp) + Size(NextBlkp(bp)) - 8));
        bp := StampBoth(bp, size, p, x, n, e);
      }
    }

    // The stretch that Join rewrites is the one to merge.
    lemma JoinSpan(m: seq<Word>, p: nat, x: nat, n: nat, e: nat, prevAlloc: bool, nextAlloc: bool)
      requires Beside(p, x, n, e, prevAlloc, nextAlloc) && 1 in blocks && blocks[1].alloc
      requires var a, z := if prevAlloc then x else p, if nextAlloc then n else e; SameBut(m, a, z)
      ensures var a, z := if prevAlloc then x else p, if nextAlloc then n else e;
        MergeSpan(brk / 8, blocks, x, a, z) && SameOutside(m, mem[..], a, z)
    {}

    // The first lines of coalesce: the tags on both sides of the block at bp.
    method Neighbours(bp: nat, ghost x: nat)
        returns (prevAlloc: bool, nextAlloc: bool, ghost p: nat, ghost n: nat, ghost e: nat)
      requires Shape() && bp == 8 * x && x > 1 && x in blocks
      ensures Around(p, x, n, e) && Beside(p, x, n, e, prevAlloc, nextAlloc) && (!nextAlloc ==> TagsBehind(n, e))
    {
      ghost var prev, next;
      p, n, e, prev, next := Surrounding(x);
      hide GetSize, GetAlloc, Shape, Beside, TagsBehind;
      AtKey(bp, x);
      AtKey(8 * p, p);
      AtKey(8 * n, n);
      assert (bp - 8) / 4 == 2 * x - 2;
      prevAlloc := GetAlloc(Get(PrevBlkp(bp) + Size(PrevBlkp(bp)) - 8));
      nextAlloc := Allocated(NextBlkp(bp));
    }

    // Rewrites the words at the two ends of the merged block.
    method JoinNeighbours(bp0: nat, ghost x: nat) returns (bp: nat, ghost a: nat, ghost z: nat)
      requires Shape() && bp0 == 8 * x && x > 1 && x in blocks && !blocks[x].alloc
      modifies mem
      ensures bp == 8 * a && MergeSpan(brk / 8, blocks, x, a, z)
      ensures SameOutside(old(mem[..]), mem[..], a, z) && Stamped(mem[..], a, z, false)
    {
      ghost var m := mem[..];
      assert Stamped(m, x, x + blocks[x].len, false) && 1 in blocks && blocks[1].alloc by {
        assert BlockOk(m, brk / 8, blocks, x);
      }
      var prevAlloc, nextAlloc;
      ghost var p, n, e;
      prevAlloc, nextAlloc, p, n, e := Neighbours(bp0, x);
      assert n == x + blocks[x].len;
      hide GetSize, GetAlloc, Tiling, Stamped, MergeSpan, SameBut, SameOutside, Beside, Around, TagsBehind;
      bp := Join(bp0, prevAlloc, nextAlloc, p, x, n, e);
      a, z := if prevAlloc then x else p, if nextAlloc then n else e;
      JoinSpan(m, p, x, n, e, prevAlloc, nextAlloc);
    }

    method Coalesce(bp0: nat, ghost x: nat) returns (bp: nat, ghost a: nat, ghost z: nat)
      requires Shape() && bp0 == 8 * x && x > 1 && x in blocks && !blocks[x].alloc && Coalesced(blocks, x)
      modifies this`lastBp, this`blocks, mem
      ensures Valid() && lastBp == bp == 8 * a
      ensures MergeSpan(brk / 8, old(blocks), x, a, z) && a < z
      ensures blocks == Fuse(old(blocks), a, z, false)
      ensures Live() == old(Live())
    {
      ghost var m, end, bs := mem[..], brk / 8, blocks;
      bp, a, z := JoinNeighbours(bp0, x);
      lastBp := bp;
      blocks := Fuse(blocks, a, z, false);
      SpanStart(end, bs, x, a, z);
      hide Tiling, Coalesced, Payloads, Stamped, MergeSpan, SameOutside, Fuse;
      MergeCorrect(m, mem[..], end, bs, x, a, z);
    }

    // The stores of place that split the block [a, z) at c.
    method SplitWords(bp: nat, asize: nat, csize: nat, ghost a: nat, ghost c: nat, ghost z: nat)
      requires bp == 8 * a && asize == 8 * (c - a) && csize == 8 * (z - a) && 1 <= a <= c && c + 2 <= z
      requires 2 * z <= mem.Length && 4 * mem.Length <= 0x1_0000_0000
      modifies mem
      ensures mem[..] == PlacedWords(old(mem[..]), a, c, z)
    {
      PackView(c - a, true);
      hide GetSize, GetAlloc, SameBut, Stamped;
      Stamp(bp, asize, true, a, c);
      AtKey(bp, a);
      Stamp(NextBlkp(bp), csize - asize, false, c, z);
    }

    // place on the words, for any asize up to the size of the block [a, z), which ends up at c.
    method PlaceWords(bp: nat, asize: nat, ghost a: nat, ghost c: nat, ghost z: nat)
      requires bp == 8 * a && asize == 8 * (c - a) && 1 <= a <= c <= z && a < z
      requires 2 * z <= mem.Length && 4 * mem.Length <= 0x1_0000_0000 && Size(bp) == 8 * (z - a)
      modifies mem
      ensures mem[..] == PlacedWords(old(mem[..]), a, c, z)
    {
      PackView(z - a, true);
      hide GetSize, GetAlloc;
      var csize := Size(bp);
      if csize - asize >= 16 {
        SplitWords(bp, asize, csize, a, c, z);
      } else {
        Stamp(bp, csize, true, a, z);
      }
    }

    lemma ReadyToPlace(a: nat, k: nat)
      requires Shape() && Fits(blocks, a, k)
      ensures var z := a + blocks[a].len;
        && 1 <= a <= a + k <= z && a < z && 2 * z <= mem.Length && 4 * mem.Length <= 0x1_0000_0000
        && Size(8 * a) == 8 * (z - a)
      ensures Tiling(mem[..], brk / 8, blocks)
    {
      BlockInMemory(a);
      AtKey(8 * a, a);
    }

    /** place: the free block a of at least asize bytes becomes allocated. A size below that of the smallest block,
        which only a request that wrapped around can have, leaves a heap that in general no set of blocks tiles. */
    method Place(bp: nat, asize: nat, ghost a: nat, ghost k: nat)
      requires Shape() && Coalesced(blocks, 0) && bp == 8 * a && asize == 8 * k
      requires Fits(blocks, a, k)
      modifies this`blocks, mem
      ensures 2 <= k ==> Shape() && Coalesced(blocks, 0) && FitPlaced(old(blocks), a, k, blocks)
      ensures 2 <= k ==> a in blocks && a in Live() && |Live()[a]| >= 2 * k - 2
      ensures 2 <= k ==> a !in old(Live()) && Live() - {a} == old(Live())
      ensures k < 2 ==> (Tiled(mem[..], brk / 8) <==> k == 1 && WholeBlock(old(blocks), a))
    {
      ghost var m, end, bs := mem[..], brk / 8, blocks;
      ghost var z := a + bs[a].len;
      ReadyToPlace(a, k);
      hide Size, PlacedWords, Tiling, Coalesced, Payloads, FitPlaced, Tiled;
      PlaceWords(bp, asize, a, a + k, z);
      if k < 2 {
        TinyPlaceIff(m, end, bs, a, a + k);
      } else {
        Settle(m, a, k);
      }
    }

    // The blocks after place on the words m.
    ghost method Settle(m: seq<Word>, a: nat, k: nat)
      requires Tiling(m, brk / 8, blocks) && Coalesced(blocks, 0) && Fits(blocks, a, k) && 2 <= k
      requires 1 <= a && 2 * (a + blocks[a].len) <= |m| == mem.Length && 4 * mem.Length <= 0x1_0000_0000
      requires mem[..] == PlacedWords(m, a, a + k, a + blocks[a].len) && brk % 8 == 0 && heapListp == 8
      modifies this`blocks
      ensures Shape() && Coalesced(blocks, 0) && FitPlaced(old(blocks), a, k, blocks)
      ensures a in blocks && a in Live() && |Live()[a]| >= 2 * k - 2
      ensures a !in Payloads(m, brk / 8, old(blocks)) && Live() - {a} == Payloads(m, brk / 8, old(blocks))
    {
      hide PlacedWords, Tiling, Coalesced, Payloads, Placed;
      PlaceWhole(m, brk / 8, blocks, a, k);
      blocks := Placed(blocks, a, k);
    }

    // mem_sbrk: hands out the next words of the region, or fails when they run out.
    method MemSbrk(bytes: nat) returns (ok: bool, p: nat)
      requires brk <= 4 * mem.Length
      modifies this`brk
      ensures ok == (old(brk) + bytes <= 4 * mem.Length)
      ensures ok ==> p == old(brk) && brk == old(brk) + bytes
      ensures !ok ==> brk == old(brk)
    {
      ok, p := brk + bytes <= 4 * mem.Length, brk;
      if ok {
        brk := brk + bytes;
      }
    }

    // The stores of extend_heap: free block [end, z), then the new epilogue header.
    method GrowWords(bp: nat, size: nat, ghost end: nat, ghost z: nat)
      requires bp == 8 * end && size == 8 * (z - end) && 2 <= end && end + 2 <= z
      requires 2 * z <= mem.Length && 4 * mem.Length <= 0x1_0000_0000
      modifies mem
      ensures Grown(old(mem[..]), mem[..], end, z)
    {
      PackView(z - end, false);
      hide GetSize, GetAlloc;
      Stamp(bp, size, false, end, z);
      assert Size(bp) == size;
      Put(bp + Size(bp) - 4, Pack(0, true), 2 * z - 1);
    }

    // extend_heap: a new free block of k double words in place of the epilogue.
    method ExtendHeap(words: nat, ghost k: nat) returns (bp: nat, ghost a: nat, ghost z: nat)
      requires Shape() && Coalesced(blocks, 0) && k == (words + 1) / 2 && k >= 2
      modifies this, mem
      ensures heapListp == old(heapListp)
      ensures bp == NULL <==> old(brk) + 8 * k > 4 * mem.Length
      ensures bp == NULL ==>
        brk == old(brk) && blocks == old(blocks) && lastBp == old(lastBp) && mem[..] == old(mem[..])
      ensures bp != NULL ==>
        && Valid() && lastBp == bp == 8 * a
        && Fits(blocks, a, k) && Live() == old(Live()) && brk == old(brk) + 8 * k
        && MergeSpan(brk / 8, old(blocks)[old(brk) / 8 := Block(k, false)], old(brk) / 8, a, z) && a < z
        && blocks == Fuse(old(blocks)[old(brk) / 8 := Block(k, false)], a, z, false)
    {
      var size := if words % 2 == 1 then (words + 1) * 4 else words * 4;
      assert size == 8 * k;
      ghost var end := brk / 8;
      assert brk == 8 * end;
      BlockInMemory(1);
      hide Tiling, Coalesced, Payloads, MergeSpan;
      var ok;
      ok, bp := MemSbrk(size);
      if !ok {
        return NULL, 0, 0;
      }
      AddBlock(bp, size, end, k);
      ghost var grown := blocks;
      bp, a, z := Coalesce(bp, end);
      SpanFits(brk / 8, grown, end, a, z);
    }

    // The new words become a free block that ends at the new epilogue.
    method AddBlock(bp: nat, size: nat, ghost end: nat, ghost k: nat)
      requires bp == 8 * end && size == 8 * k && k >= 2 && brk == bp + size && heapListp == 8
      requires brk <= 4 * mem.Length <= 0x1_0000_0000 && Tiling(mem[..], end, blocks) && Coalesced(blocks, 0)
      modifies this`blocks, mem
      ensures Shape() && end !in old(blocks) && blocks == old(blocks)[end := Block(k, false)] && end > 1
      ensures Coalesced(blocks, end) && Live() == Payloads(old(mem[..]), end, old(blocks))
    {
      ghost var m, bs := mem[..], blocks;
      BeyondEnd(m, end, bs);
      assert 2 <= end;
      hide Tiling, Coalesced, Payloads, Grown;
      GrowWords(bp, size, end, end + k);
      blocks := bs[end := Block(k, false)];
      GrowTiles(m, mem[..], end, end + k, bs);
      GrowCoalesced(m, end, bs, k);
      PayloadsGrown(m, mem[..], end, end + k, bs);
      assert brk / 8 == end + k;
    }

    lemma NextWithin(x: nat, y: nat)
      requires Shape() && x in blocks && y in blocks && x < y
      ensures x + blocks[x].len <= y && x + blocks[x].len in blocks
    {
      StepWithin(mem[..], brk / 8, blocks, x, y);
    }

    lemma LastBlock()
      requires Valid()
      ensures Shape() && heapListp == 8 && lastBp % 8 == 0 && 8 <= lastBp && lastBp / 4 <= mem.Length
      ensures lastBp / 8 in blocks && Size(lastBp) == 8 * blocks[lastBp / 8].len
    {
      BlockInMemory(lastBp / 8);
    }

    // The first loop of find_fit: the blocks behind lastBp, up to the epilogue.
    method FitAfter(asize: nat, ghost k: nat) returns (bp: nat, ghost a: nat)
      requires Valid() && asize == 8 * k
      ensures bp == NULL ==> forall b: nat | lastBp / 8 < b :: !Fits(blocks, b, k)
      ensures bp != NULL ==> bp == 8 * a && lastBp / 8 < a && Fits(blocks, a, k)
      ensures bp != NULL ==> forall b: nat | lastBp / 8 < b < a :: !Fits(blocks, b, k)
    {
      ghost var last, end := lastBp / 8, brk / 8;
      assert lastBp == 8 * last;
      ghost var x := NextOf(last);
      BeyondEnd(mem[..], end, blocks);
      LastBlock();
      hide Valid, Shape, GetSize, GetAlloc;
      bp := lastBp + Size(lastBp);
      while Size(bp) != 0
        invariant bp == 8 * x && last < x && (x in blocks || x == end)
        invariant 2 * x <= mem.Length && (Size(bp) == 0 <==> x == end)
        invariant forall b: nat | last < b < x :: !Fits(blocks, b, k)
        decreases end - x
      {
        BlockInMemory(x);
        if !Allocated(bp) && Size(bp) >= asize {
          return bp, x;
        }
        bp := bp + Size(bp);
        x := NextOf(x);
      }
      return NULL, 0;
    }

    // The second loop of find_fit: from the prologue up to and including lastBp.
    method FitUpTo(asize: nat, ghost k: nat) returns (bp: nat, ghost a: nat)
      requires Valid() && asize == 8 * k
      ensures bp == NULL ==> NoFitBelow(blocks, lastBp / 8 + 1, k)
      ensures bp != NULL ==> bp == 8 * a && a <= lastBp / 8 && Fits(blocks, a, k) && NoFitBelow(blocks, a, k)
    {
      ghost var last, end := lastBp / 8, brk / 8;
      assert lastBp == 8 * last;
      FirstKey(mem[..], end, blocks);
      LastBlock();
      assert NoFitBelow(blocks, 2, k);
      ghost var x := 1;
      bp := heapListp;
      BlockInMemory(1);
      while bp < lastBp
        invariant bp == 8 * x && x in blocks && x <= last && 2 * x <= mem.Length
        invariant NoFitBelow(blocks, x + 1, k)
        decreases last - x
      {
        hide Valid, Shape, GetSize, GetAlloc, NoFitBelow;
        NextWithin(x, last);
        ghost var y := NextOf(x);
        BlockInMemory(y);
        NoFitSkip(blocks, x, y, k);
        bp := bp + Size(bp);
        x := y;
        if !Allocated(bp) && Size(bp) >= asize {
          return bp, x;
        }
      }
      return NULL, 0;
    }

    method FindFit(asize: nat, ghost k: nat) returns (bp: nat, ghost a: nat)
      requires Valid() && asize == 8 * k
      modifies this`lastBp
      ensures Valid()
      ensures bp == NULL ==> lastBp == old(lastBp) && forall b: nat :: !Fits(blocks, b, k)
      ensures bp != NULL ==> lastBp == bp == 8 * a && NextFit(blocks, old(lastBp) / 8, a, k)
    {
      bp, a := FitAfter(asize, k);
      if bp == NULL {
        bp, a := FitUpTo(asize, k);
      }
      if bp != NULL {
        lastBp := bp;
      }
    }

    // The block that NEXT_BLKP reaches from x, or the epilogue.
    lemma NextOf(x: nat) returns (y: nat)
      requires Shape() && x in blocks
      ensures 1 <= x < y <= brk / 8 && y == x + blocks[x].len && (y in blocks || y == brk / 8)
      ensures 2 * y <= mem.Length && GetSize(mem[2 * x - 1]) == 8 * blocks[x].len
      ensures GetSize(mem[2 * y - 1]) == 0 <==> y == brk / 8
      ensures forall b | x < b < y :: b !in blocks
    {
      y := x + blocks[x].len;
      BlockInMemory(x);
      KeyBelow(mem[..], brk / 8, blocks, x);
      NoneInside(mem[..], brk / 8, blocks, x);
      if y in blocks {
        BlockInMemory(y);
        KeyBelow(mem[..], brk / 8, blocks, y);
      }
    }

    // Lines 71-79: padding, prologue and epilogue.
    method InitWords() returns (ok: bool)
      requires brk == 0 && 4 * mem.Length <= 0x1_0000_0000
      modifies this, mem
      ensures ok == (16 <= 4 * mem.Length)
      ensures ok ==>
        Shape() && brk == 16 && blocks == map[1 := Block(1, true)] && Coalesced(blocks, 0) && Live() == map[]
    {
      var p;
      ok, p := MemSbrk(16);
      if !ok {
        return;
      }
      heapListp := p;
      Put(heapListp, 0, 0);
      Put(heapListp + 4, Pack(8, true), 1);
      Put(heapListp + 8, Pack(8, true), 2);
      Put(heapListp + 12, Pack(0, true), 3);
      heapListp := heapListp + 8;
      blocks := map[1 := Block(1, true)];
      InitTiles(mem[..]);
      hide Tiling, Payloads, Coalesced;
    }

    method MmInit() returns (ok: bool)
      requires brk == 0 && 4 * mem.Length <= 0x1_0000_0000
      modifies this, mem
      ensures ok == (4112 <= 4 * mem.Length)
      ensures ok ==> Valid() && Live() == map[] && lastBp == heapListp
    {
      hide Tiling, Payloads, Coalesced, Fits;
      ok := InitWords();
      if !ok {
        return;
      }
      ghost var a, z;
      var bp;
      bp, a, z := ExtendHeap(CHUNK / 4, 512);
      if bp == NULL {
        return false;
      }
      lastBp := heapListp;
      FirstKey(mem[..], brk / 8, blocks);
    }

    /** mm_malloc for any value of a size_t whose values are below limit. The next fit is taken, or else the heap
        grows. A request that wraps around leaves a heap that no set of blocks tiles, unless it wraps to 8 bytes and
        finds a block of 16. */
    method MmMalloc(size: nat, limit: nat) returns (bp: nat)
      requires Valid() && size < limit && 24 < limit
      modifies this, mem
      ensures size + 15 < limit ==> Valid() && Malloced(old(Now()), Now(), size, bp, 4 * mem.Length)
      ensures size + 15 >= limit ==>
        Overrun(old(Now()), mem[..], brk, lastBp, WrappedSize(size, limit) / 8, bp, 4 * mem.Length)
    {
      hide Malloced, Overrun, WrappedSize, AdjustedSize, NoFit, NoRoom, NextFit, FitPlaced, Extended, Tiled, WholeBlock;
      hide Tiling, Coalesced, Payloads;
      if size == 0 {
        NoneForZero(Now(), 4 * mem.Length);
        return NULL;
      }
      WrapsIff(size, limit);
      var asize := WrappedSize(size, limit);
      ghost var s, k := Now(), asize / 8;
      assert asize == 8 * k;
      ghost var a;
      bp, a := Take(asize, k);
      if size + 15 >= limit {
        OverrunIs(s, mem[..], brk, lastBp, k, bp, 4 * mem.Length);
      } else {
        MallocedIs(s, Now(), size, bp, 4 * mem.Length);
      }
    }

    // The search, or else the growth, and the placement of mm_malloc.
    method Take(asize: nat, ghost k: nat) returns (bp: nat, ghost a: nat)
      requires Valid() && asize == 8 * k
      modifies this, mem
      ensures bp == NULL <==> NoFit(old(blocks), k) && NoRoom(old(brk), 4 * mem.Length, k)
      ensures bp == NULL ==> Same(old(Now()))
      ensures bp != NULL ==> bp == lastBp == 8 * a
      ensures bp != NULL && !NoFit(old(blocks), k) ==> brk == old(brk) && NextFit(old(blocks), old(lastBp) / 8, a, k)
      ensures bp != NULL && 2 <= k ==>
        && Valid() && a in Live() && |Live()[a]| >= 2 * k - 2 && a !in old(Live()) && Live() - {a} == old(Live())
        && (NoFit(old(blocks), k) ==> Extended(old(brk), old(blocks), brk, blocks, a, k))
        && (!NoFit(old(blocks), k) ==> FitPlaced(old(blocks), a, k, blocks))
      ensures bp != NULL && k < 2 ==>
        (Tiled(mem[..], brk / 8) <==> k == 1 && !NoFit(old(blocks), k) && WholeBlock(old(blocks), a))
    {
      hide Tiling, Coalesced, Payloads, NextFit, Cut, Fuse, Placed, MergeSpan, Extended, Tiled, Fits, NoRoom;
      bp, a := FindFit(asize, k);
      if bp == NULL {
        bp, a := ExtendAndPlace(asize, k);
      } else {
        FitIs(blocks, old(lastBp) / 8, a, k);
        Place(bp, asize, a, k);
        lastBp := bp;
      }
    }

    // Nothing changed since s.
    ghost predicate Same(s: Snapshot)
      reads this, mem
    {
      Valid() && Now() == s
    }

    lemma FitIs(bs: map<nat, Block>, last: nat, a: nat, k: nat)
      requires NextFit(bs, last, a, k)
      ensures Fits(bs, a, k) && !NoFit(bs, k)
    {}

    // The second half of mm_malloc, when there is no fit.
    method ExtendAndPlace(asize: nat, ghost k: nat) returns (bp: nat, ghost a: nat)
      requires Valid() && asize == 8 * k
      modifies this, mem
      ensures bp == NULL <==> NoRoom(old(brk), 4 * mem.Length, k)
      ensures bp == NULL ==> Same(old(Now()))
      ensures bp != NULL ==> bp == lastBp == 8 * a
      ensures bp != NULL && 2 <= k ==>
        && Valid() && a in Live() && |Live()[a]| >= 2 * k - 2
        && a !in old(Live()) && Live() - {a} == old(Live())
        && Extended(old(brk), old(blocks), brk, blocks, a, k)
      ensures bp != NULL && k < 2 ==> !Tiled(mem[..], brk / 8)
    {
      hide Tiling, Coalesced, Payloads, Cut, Fuse, Placed, MergeSpan, Extended, Fits, Tiled;
      var extendSize := if asize > CHUNK then asize else CHUNK;
      ghost var end, bs, z, before := brk / 8, blocks, 0, Live();
      bp, a, z := ExtendHeap(extendSize / 4, extendSize / 8);
      if bp == NULL {
        return;
      }
      ghost var fused := blocks;
      FitsLess(fused, a, extendSize / 8, k);
      Place(bp, asize, a, k);
      lastBp := bp;
      if 2 <= k {
        ExtendedIs(old(brk), bs, brk, blocks, a, z, k);
      }
    }

    // mm_free on a live block; e is where the merged block ends.
    method MmFree(bp0: nat) returns (ghost e: nat)
      requires Valid() && bp0 % 8 == 0 && bp0 / 8 in Live()
      modifies this, mem
      ensures Valid() && Live() == old(Live()) - {bp0 / 8} && brk == old(brk)
      ensures Merged(brk / 8, old(blocks), blocks, bp0 / 8, lastBp / 8, e)
    {
      hide Tiling, Coalesced, Payloads, MergeSpan, Fuse, Merged;
      ghost var a, bs := bp0 / 8, blocks;
      StampFree(bp0, a);
      var bp;
      ghost var b;
      bp, b, e := Coalesce(bp0, a);
      MergedIs(brk / 8, bs, blocks, a, b, e);
    }

    // The two stores of mm_free.
    method StampFree(bp0: nat, ghost a: nat)
      requires Valid() && bp0 == 8 * a && a in Live()
      modifies this`blocks, mem
      ensures Shape() && a in blocks && a > 1 && !blocks[a].alloc && Coalesced(blocks, a)
      ensures a in old(blocks) && old(blocks)[a].len > 0
      ensures blocks == Fuse(old(blocks), a, a + old(blocks)[a].len, false)
      ensures Live() == old(Live()) - {a}
    {
      ghost var m, end, bs := mem[..], brk / 8, blocks;
      LiveBlock(a);
      hide Tiling, Coalesced, Payloads, Stamped, Fuse;
      ghost var z := a + bs[a].len;
      AtKey(bp0, a);
      var size := Size(bp0);
      Stamp(bp0, size, false, a, z);
      blocks := Fuse(bs, a, z, false);
      FreeWhole(m, mem[..], end, bs, a, z);
    }

    lemma LiveBlock(a: nat)
      requires Shape() && a in Live()
      ensures a in blocks && a > 1 && blocks[a].alloc && View(a, blocks[a])
    {
      BlockInMemory(a);
    }

    // A client's store into the i-th word of a live payload.
    method Store(bp: nat, i: nat, w: Word)
      requires Valid() && bp % 8 == 0 && bp / 8 in Live() && i < |Live()[bp / 8]|
      modifies mem
      ensures Valid()
      ensures Live() == old(Live())[bp / 8 := SetWord(old(Live())[bp / 8], i, w)]
    {
      ghost var m, end, a := mem[..], brk / 8, bp / 8;
      BlockInMemory(a);
      mem[bp / 4 + i] := w;
      StoreTiles(m, mem[..], end, blocks, a, i, w);
      hide Tiling, Payloads;
    }

    /** Any sequence of client calls, up to the first request that wraps around in a size_t with values below limit:
        every state on the way is sound, and every step is what its call should do, with the pointer it returns.
        The client keeps the set of keys it was given and has not freed. */
    method Run(ops: seq<Op>, limit: nat) returns (rets: seq<nat>, ghost trace: seq<Snapshot>)
      requires Valid() && Live() == map[] && 24 < limit
      modifies this, mem
      ensures Valid()
      ensures |rets| <= |ops| && (|rets| < |ops| <==> exists i :: 0 <= i < |ops| && WrapsAround(ops[i], limit))
      ensures |rets| < |ops| ==> WrapsAround(ops[|rets|], limit)
      ensures |trace| == |rets| + 1 && trace[0] == old(Now()) && trace[|rets|] == Now()
      ensures forall i | 0 <= i <= |rets| :: Sound(trace[i])
      ensures forall i | 0 <= i < |rets| :: Allowed(trace[i], ops[i], rets[i], trace[i + 1], 4 * mem.Length)
    {
      hide Sound, Allowed, Shape, Tiling, Payloads, Coalesced, WrapsAround;
      SoundNow();
      rets, trace := [], [Now()];
      var held: set<nat> := {};
      for n := 0 to |ops|
        invariant Valid() && held == Live().Keys
        invariant |rets| == n && |trace| == n + 1 && trace[0] == old(Now()) && trace[n] == Now()
        invariant forall i | 0 <= i <= n :: Sound(trace[i])
        invariant forall i | 0 <= i < n :: Allowed(trace[i], ops[i], rets[i], trace[i + 1], 4 * mem.Length)
        invariant forall i | 0 <= i < n :: !WrapsAround(ops[i], limit)
      {
        if WrapsAround(ops[n], limit) {
          return;
        }
        var bp;
        bp, held := DoOp(ops[n], limit, held);
        SoundNow();
        rets, trace := rets + [bp], trace + [Now()];
      }
    }

    lemma SoundNow()
      requires Valid()
      ensures Sound(Now())
    {
      SoundIs(Now());
    }

    lemma LiveLength(a: nat)
      requires Shape() && a in Live()
      ensures 1 <= a && 2 * a <= mem.Length && 8 <= Size(8 * a)
      ensures |Live()[a]| == (Size(8 * a) - 8) / 4
    {
      BlockInMemory(a);
    }

    method DoOp(op: Op, limit: nat, held: set<nat>) returns (bp: nat, held': set<nat>)
      requires Valid() && held == Live().Keys && 24 < limit && !WrapsAround(op, limit)
      modifies this, mem
      ensures Valid() && held' == Live().Keys && Allowed(old(Now()), op, bp, Now(), 4 * mem.Length)
    {
      hide Tiling, Coalesced, Payloads, GetSize, GetAlloc, NoFit, NextFit, NoRoom, AdjustedSize, SetWord, Placed;
      hide Extended, Merged;
      bp, held' := NULL, held;
      match op
      case Malloc(size) =>
        if size > 0 {
          WrapsIff(size, limit);
        }
        bp := MmMalloc(size, limit);
        if bp != NULL {
          held' := held + {bp / 8};
        }
      case Free(p) =>
        if p % 8 == 0 && p / 8 in held {
          ghost var _ := MmFree(p);
          held' := held - {p / 8};
        }
      case Write(p, i, w) =>
        if p % 8 == 0 && p / 8 in held {
          LiveLength(p / 8);
          if i < (Size(p) - 8) / 4 {
            Store(p, i, w);
          }
        }
    }
  }

  lemma NoneForZero(s: Snapshot, room: nat)
    ensures Malloced(s, s, 0, NULL, room)
  {}

  lemma MallocedIs(s: Snapshot, t: Snapshot, size: nat, bp: nat, room: nat)
    requires size > 0 && bp % 8 == 0
    requires var k, a := AdjustedSize(size) / 8, bp / 8;
      && (bp == NULL <==> NoFit(s.blocks, k) && NoRoom(s.brk, room, k))
      && (bp == NULL ==> t == s)
      && (bp != NULL ==>
            && t.lastBp == bp && a in t.live && |t.live[a]| >= 2 * k - 2 && a !in s.live && t.live - {a} == s.live
            && (NoFit(s.blocks, k) ==> Extended(s.brk, s.blocks, t.brk, t.blocks, a, k))
            && (!NoFit(s.blocks, k) ==>
                  && t.brk == s.brk && NextFit(s.blocks, s.lastBp / 8, a, k)
                  && FitPlaced(s.blocks, a, k, t.blocks)))
    ensures Malloced(s, t, size, bp, room)
  {
    hide NoFit, NoRoom, Extended, NextFit, FitPlaced;
  }

  lemma OverrunIs(s: Snapshot, mem: seq<Word>, brk: nat, lastBp: nat, k: nat, bp: nat, room: nat)
    requires bp == NULL <==> NoFit(s.blocks, k) && NoRoom(s.brk, room, k)
    requires bp == NULL ==> mem == s.mem && brk == s.brk && lastBp == s.lastBp
    requires bp != NULL ==>
      && bp % 8 == 0 && lastBp == bp
      && (!NoFit(s.blocks, k) ==> brk == s.brk && NextFit(s.blocks, s.lastBp / 8, bp / 8, k))
      && (Tiled(mem, brk / 8) <==> k == 1 && !NoFit(s.blocks, k) && WholeBlock(s.blocks, bp / 8))
    ensures Overrun(s, mem, brk, lastBp, k, bp, room)
  {
    hide NoFit, NoRoom, NextFit, Tiled, WholeBlock;
  }

  lemma MergedIs(end: nat, bs: map<nat, Block>, bs': map<nat, Block>, a: nat, b: nat, e: nat)
    requires a in bs && bs[a].len > 0 && b < e
    requires MergeSpan(end, Fuse(bs, a, a + bs[a].len, false), a, b, e)
    requires bs' == Fuse(Fuse(bs, a, a + bs[a].len, false), b, e, false)
    ensures Merged(end, bs, bs', a, b, e)
  {}

  lemma FitsLess(bs: map<nat, Block>, a: nat, need: nat, k: nat)
    requires Fits(bs, a, need) && k <= need
    ensures Fits(bs, a, k) && bs[a].len >= need
  {}

  lemma ExtendedIs(brk: nat, bs: map<nat, Block>, brk': nat, bs': map<nat, Block>, a: nat, z: nat, k: nat)
    requires brk' == brk + Extension(k)
    requires GrownBlock(brk' / 8, bs[brk / 8 := Block(Extension(k) / 8, false)], brk / 8, a, z, bs', k)
    ensures Extended(brk, bs, brk', bs', a, k)
  {}

  lemma SoundIs(s: Snapshot)
    requires s.brk % 8 == 0 && Tiling(s.mem, s.brk / 8, s.blocks) && Coalesced(s.blocks, 0)
    requires s.lastBp % 8 == 0 && s.lastBp / 8 in s.blocks && s.live == Payloads(s.mem, s.brk / 8, s.blocks)
    ensures Sound(s)
  {
    var end := s.brk / 8;
    assert forall a {:trigger a in s.live} :: a in s.live <==> a in s.blocks && a != 1 && s.blocks[a].alloc;
    hide Tiling, Payloads, Coalesced;
    forall a, b
      ensures PayloadsApart(s.live, a, b)
    {
      if a in s.live && b in s.live && a < b {
        LivePayloadsDisjoint(s.mem, end, s.blocks, a, b);
      }
    }
    forall a | a in s.live
      ensures 8 * a + 4 * |s.live[a]| <= s.brk - 8
    {
      PayloadInside(s.mem, end, s.blocks, a);
    }
  }
}
