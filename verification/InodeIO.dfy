/** inode_read_at and inode_write_at: a flat file of bytes on 512-byte sectors. */
module InodeIO {
  type Byte = x: nat | x < 256

  type Sector = s: seq<Byte> | |s| == 512 witness seq(512, _ => 0)

  // The file system device: block_read and block_write move whole sectors.
  class Device {
    var sectors: seq<Sector>

    constructor (n: nat)
      ensures |sectors| == n
    {
      sectors := seq(n, _ => seq(512, _ => 0));
    }

    method BlockRead(i: nat) returns (s: Sector)
      requires i < |sectors|
      ensures s == sectors[i]
    {
      s := sectors[i];
    }

    method BlockWrite(i: nat, s: Sector)
      requires i < |sectors|
      modifies this
      ensures sectors == old(sectors)[..i] + [s] + old(sectors)[i + 1..]
    {
      sectors := sectors[..i] + [s] + sectors[i + 1..];
    }
  }

  // An off_t that is not negative.
  type Offset = n: nat | n < 0x8000_0000

  // struct inode_disk and struct inode. A struct inode is only read here.
  datatype DiskInode = DiskInode(start: nat, length: nat)

  datatype Inode = Inode(sector: nat, openCnt: nat, removed: bool, denyWriteCnt: nat, data: DiskInode)

  // bytes_to_sectors
  function BytesToSectors(size: nat): nat { (size + 511) / 512 }

  /** The sectors of a file are the least number that has room for its bytes. */
  lemma SectorsAreLeast(size: nat, n: nat)
    ensures n >= BytesToSectors(size) <==> 512 * n >= size
  {}

  // Sector k holds bytes of a file that starts at sector start.
  predicate InExtent(start: nat, length: nat, k: nat) { start <= k < start + BytesToSectors(length) }

  ghost predicate OnDevice(sectors: seq<Sector>, start: nat, length: nat)
  {
    start + BytesToSectors(length) <= |sectors|
  }

  // The byte at position pos of a file that starts at sector start.
  ghost function ByteAt(sectors: seq<Sector>, start: nat, pos: nat): Byte
    requires start + pos / 512 < |sectors|
  {
    sectors[start + pos / 512][pos % 512]
  }

  lemma PosOnDevice(sectors: seq<Sector>, start: nat, length: nat, pos: nat)
    requires OnDevice(sectors, start, length) && pos < length
    ensures start + pos / 512 < |sectors|
  {}

  // The flat content of a file.
  ghost function Content(sectors: seq<Sector>, start: nat, length: nat): (c: seq<Byte>)
    requires OnDevice(sectors, start, length)
    ensures |c| == length
    ensures forall pos | 0 <= pos < length :: start + pos / 512 < |sectors| && c[pos] == ByteAt(sectors, start, pos)
  {
    seq(length, pos requires 0 <= pos < length => PosOnDevice(sectors, start, length, pos); ByteAt(sectors, start, pos))
  }

  // How many bytes of a request are transferred. A request that touches part of a sector
  // needs a bounce buffer; without one it stops there.
  function Transferred(length: nat, size: int, offset: nat, bounceOk: bool): nat
  {
    if size <= 0 || length <= offset then 0
    else
      var n := if size < length - offset then size else length - offset;
      if bounceOk then n
      else if offset % 512 != 0 then 0
      else n - n % 512
  }

  // One iteration of either loop, as the source computes it.
  function ChunkSize(length: nat, size: int, offset: nat): int
  {
    var sectorLeft := 512 - offset % 512;
    var inodeLeft := length - offset;
    var minLeft := if inodeLeft < sectorLeft then inodeLeft else sectorLeft;
    if size < minLeft then size else minLeft
  }

  lemma ChunkFacts(length: nat, size: int, offset: nat)
    ensures var c := ChunkSize(length, size, offset);
      && (c > 0 <==> size > 0 && offset < length)
      && (c > 0 ==> c <= size && offset + c <= length && offset % 512 + c <= 512)
      && (c > 0 ==> Transferred(length, size, offset, true) == c + Transferred(length, size - c, offset + c, true))
      && (c <= 0 ==> forall b :: Transferred(length, size, offset, b) == 0)
  {}

  lemma ChunkNoBounce(length: nat, size: int, offset: nat)
    ensures var c := ChunkSize(length, size, offset);
      && (c > 0 && (offset % 512 != 0 || c != 512) ==> Transferred(length, size, offset, false) == 0)
      && (c == 512 && offset % 512 == 0 ==>
            Transferred(length, size, offset, false) == c + Transferred(length, size - c, offset + c, false))
  {}

  // Sector and index of a position inside the chunk that starts at offset.
  lemma SameSector(offset: nat, c: nat, k: nat)
    requires offset % 512 + c <= 512 && k < c
    ensures (offset + k) / 512 == offset / 512 && (offset + k) % 512 == offset % 512 + k
  {}

  // inode_read_at; bounceOk tells whether allocating the bounce buffer succeeds.
  method ReadAt(dev: Device, inode: Inode, buffer: array<Byte>, size0: int, offset0: nat, bounceOk: bool)
      returns (bytesRead: nat)
    requires OnDevice(dev.sectors, inode.data.start, inode.data.length) && size0 <= buffer.Length
    modifies buffer
    ensures bytesRead == Transferred(inode.data.length, size0, offset0, bounceOk)
    ensures bytesRead == 0 || offset0 + bytesRead <= inode.data.length
    ensures forall k | 0 <= k < bytesRead ::
      buffer[k] == Content(dev.sectors, inode.data.start, inode.data.length)[offset0 + k]
    ensures forall k | bytesRead <= k < buffer.Length :: buffer[k] == old(buffer[k])
  {
    hide Transferred, ChunkSize, BytesToSectors, Content, OnDevice;
    var size, offset := size0, offset0;
    bytesRead := 0;
    while size > 0
      invariant size == size0 - bytesRead && offset == offset0 + bytesRead && bytesRead <= buffer.Length
      invariant size0 <= buffer.Length && (bytesRead == 0 || offset <= inode.data.length)
      invariant Transferred(inode.data.length, size0, offset0, bounceOk) ==
        bytesRead + Transferred(inode.data.length, size, offset, bounceOk)
      invariant forall k | 0 <= k < bytesRead ::
        buffer[k] == Content(dev.sectors, inode.data.start, inode.data.length)[offset0 + k]
      invariant forall k | bytesRead <= k < buffer.Length :: buffer[k] == old(buffer[k])
      decreases size
    {
      var chunkSize := ChunkSize(inode.data.length, size, offset);
      ChunkFacts(inode.data.length, size, offset);
      ChunkNoBounce(inode.data.length, size, offset);
      if chunkSize <= 0 {
        break;
      }
      var sectorOfs := offset % 512;
      if sectorOfs == 0 && chunkSize == 512 {
        ReadChunk(dev, inode, offset, 0, 512, buffer, bytesRead);
      } else {
        if !bounceOk {
          break;
        }
        ReadChunk(dev, inode, offset, sectorOfs, chunkSize, buffer, bytesRead);
      }
      size := size - chunkSize;
      offset := offset + chunkSize;
      bytesRead := bytesRead + chunkSize;
    }
    ChunkFacts(inode.data.length, size, offset);
  }

  // One iteration: the bytes of the file from an offset on, all in one sector.
  method ReadChunk(dev: Device, inode: Inode, offset: nat, sectorOfs: nat, chunkSize: nat, buffer: array<Byte>, at: nat)
    requires OnDevice(dev.sectors, inode.data.start, inode.data.length) && offset + chunkSize <= inode.data.length
    requires sectorOfs == offset % 512 && 0 < chunkSize && sectorOfs + chunkSize <= 512
    requires at + chunkSize <= buffer.Length
    modifies buffer
    ensures forall k | at <= k < at + chunkSize ::
      buffer[k] == Content(dev.sectors, inode.data.start, inode.data.length)[offset - at + k]
    ensures forall k | 0 <= k < buffer.Length && !(at <= k < at + chunkSize) :: buffer[k] == old(buffer[k])
  {
    PosOnDevice(dev.sectors, inode.data.start, inode.data.length, offset);
    CopyOut(dev, inode.data.start + offset / 512, sectorOfs, chunkSize, buffer, at);
    forall k | at <= k < at + chunkSize
      ensures buffer[k] == Content(dev.sectors, inode.data.start, inode.data.length)[offset - at + k]
    {
      SameSector(offset, chunkSize, k - at);
    }
  }

  // The stores of one iteration: part of a sector into the buffer at position at.
  method CopyOut(dev: Device, sectorIdx: nat, sectorOfs: nat, chunkSize: nat, buffer: array<Byte>, at: nat)
    requires sectorIdx < |dev.sectors| && sectorOfs + chunkSize <= 512 && at + chunkSize <= buffer.Length
    modifies buffer
    ensures forall k | at <= k < at + chunkSize :: buffer[k] == dev.sectors[sectorIdx][sectorOfs + (k - at)]
    ensures forall k | 0 <= k < buffer.Length && !(at <= k < at + chunkSize) :: buffer[k] == old(buffer[k])
  {
    var bounce := dev.BlockRead(sectorIdx);
    for i := 0 to chunkSize
      invariant forall k | at <= k < at + i :: buffer[k] == bounce[sectorOfs + (k - at)]
      invariant forall k | 0 <= k < buffer.Length && !(at <= k < at + i) :: buffer[k] == old(buffer[k])
    {
      buffer[at + i] := bounce[sectorOfs + i];
    }
  }

  // Bytes [offset, offset + |data|) of the file at start now hold data; every other byte of
  // every sector of the device is what it was.
  ghost predicate Patched(was: seq<Sector>, now: seq<Sector>, start: nat, offset: nat, data: seq<Byte>)
  {
    && |now| == |was|
    && forall s, k {:trigger now[s][k]} | 0 <= s < |now| && 0 <= k < 512 ::
         now[s][k] == PatchedByte(was, start, offset, data, s, k)
  }

  ghost function PatchedByte(was: seq<Sector>, start: nat, offset: nat, data: seq<Byte>, s: nat, k: nat): Byte
    requires s < |was| && k < 512
  {
    var pos := (s - start) * 512 + k;
    if offset <= pos < offset + |data| then data[pos - offset] else was[s][k]
  }

  // Writing the next chunk, all of it in one sector, extends the patch.
  lemma PatchMore(was: seq<Sector>, mid: seq<Sector>, now: seq<Sector>, start: nat, offset: nat,
                  data: seq<Byte>, chunk: seq<Byte>, sector: Sector)
    requires Patched(was, mid, start, offset, data) && |now| == |mid|
    requires var at := offset + |data|;
      var i, ofs := start + at / 512, at % 512;
      && 0 < |chunk| && ofs + |chunk| <= 512 && i < |mid|
      && now == mid[..i] + [sector] + mid[i + 1..]
      && forall k | 0 <= k < 512 :: sector[k] == if ofs <= k < ofs + |chunk| then chunk[k - ofs] else mid[i][k]
    ensures Patched(was, now, start, offset, data + chunk)
  {
    var at := offset + |data|;
    var i, ofs := start + at / 512, at % 512;
    forall s, k | 0 <= s < |now| && 0 <= k < 512
      ensures now[s][k] == PatchedByte(was, start, offset, data + chunk, s, k)
    {
      assert mid[s][k] == PatchedByte(was, start, offset, data, s, k);
      var pos := (s - start) * 512 + k;
      if s == i {
        assert pos == at - ofs + k;
      } else {
        assert now[s] == mid[s];
        assert !(at <= pos < at + |chunk|);
      }
    }
  }

  // The sector to write back: the chunk over the old content, or over zeros when the source
  // decides that nothing of the old content is needed.
  method BuildSector(dev: Device, sectorIdx: nat, sectorOfs: nat, chunk: seq<Byte>) returns (s: Sector)
    requires sectorIdx < |dev.sectors| && sectorOfs + |chunk| <= 512
    ensures forall k | 0 <= k < 512 ::
      s[k] == if sectorOfs <= k < sectorOfs + |chunk| then chunk[k - sectorOfs] else dev.sectors[sectorIdx][k]
  {
    var bounce: Sector;
    var sectorLeft := 512 - sectorOfs;
    if sectorOfs > 0 || |chunk| < sectorLeft {
      bounce := dev.BlockRead(sectorIdx);
    } else {
      bounce := seq(512, _ => 0);
    }
    s := bounce[..sectorOfs] + chunk + bounce[sectorOfs + |chunk|..];
  }

  lemma PatchedNone(sectors: seq<Sector>, start: nat, offset: nat, buffer: seq<Byte>)
    ensures buffer[..0] == [] && Patched(sectors, sectors, start, offset, [])
  {}

  // inode_write_at
  method WriteAt(dev: Device, inode: Inode, buffer: seq<Byte>, size0: int, offset0: nat, bounceOk: bool)
      returns (bytesWritten: nat)
    requires OnDevice(dev.sectors, inode.data.start, inode.data.length) && size0 <= |buffer|
    modifies dev
    ensures bytesWritten ==
      if inode.denyWriteCnt != 0 then 0 else Transferred(inode.data.length, size0, offset0, bounceOk)
    ensures bytesWritten == 0 || offset0 + bytesWritten <= inode.data.length
    ensures bytesWritten <= |buffer|
    ensures Patched(old(dev.sectors), dev.sectors, inode.data.start, offset0, buffer[..bytesWritten])
  {
    bytesWritten := 0;
    if inode.denyWriteCnt != 0 {
      return;
    }
    PatchedNone(dev.sectors, inode.data.start, offset0, buffer);
    hide Transferred, ChunkSize, Patched, BytesToSectors, OnDevice;
    var size, offset := size0, offset0;
    ghost var start, length := inode.data.start, inode.data.length;
    while size > 0
      invariant size == size0 - bytesWritten && offset == offset0 + bytesWritten && bytesWritten <= |buffer|
      invariant bytesWritten == 0 || offset <= length
      invariant OnDevice(dev.sectors, start, length)
      invariant Transferred(length, size0, offset0, bounceOk) ==
        bytesWritten + Transferred(length, size, offset, bounceOk)
      invariant Patched(old(dev.sectors), dev.sectors, start, offset0, buffer[..bytesWritten])
      decreases size
    {
      var sectorOfs := offset % 512;
      var chunkSize := ChunkSize(inode.data.length, size, offset);
      ChunkFacts(inode.data.length, size, offset);
      ChunkNoBounce(inode.data.length, size, offset);
      if chunkSize <= 0 {
        break;
      }
      if !(sectorOfs == 0 && chunkSize == 512) && !bounceOk {
        break;
      }
      WriteNext(dev, inode, buffer, bytesWritten, chunkSize, offset, old(dev.sectors), offset0);
      size := size - chunkSize;
      offset := offset + chunkSize;
      bytesWritten := bytesWritten + chunkSize;
    }
  }

  // One iteration: the next chunk of the buffer goes to its sector.
  method WriteNext(dev: Device, inode: Inode, buffer: seq<Byte>, bytesWritten: nat, chunkSize: nat, offset: nat,
                   ghost was: seq<Sector>, ghost offset0: nat)
    requires OnDevice(dev.sectors, inode.data.start, inode.data.length) && offset + chunkSize <= inode.data.length
    requires offset == offset0 + bytesWritten && 0 < chunkSize && offset % 512 + chunkSize <= 512
    requires bytesWritten + chunkSize <= |buffer|
    requires Patched(was, dev.sectors, inode.data.start, offset0, buffer[..bytesWritten])
    modifies dev
    ensures OnDevice(dev.sectors, inode.data.start, inode.data.length)
    ensures Patched(was, dev.sectors, inode.data.start, offset0, buffer[..bytesWritten + chunkSize])
  {
    hide Patched;
    PosOnDevice(dev.sectors, inode.data.start, inode.data.length, offset);
    var sectorIdx := inode.data.start + offset / 512;
    var chunk := buffer[bytesWritten..bytesWritten + chunkSize];
    WriteChunk(dev, sectorIdx, offset % 512, chunk, was, inode.data.start, offset0, buffer[..bytesWritten]);
    assert buffer[..bytesWritten] + chunk == buffer[..bytesWritten + chunkSize];
  }

  // The stores of one iteration: a full sector goes to the device directly, part of one
  // through the bounce buffer.
  method WriteChunk(dev: Device, sectorIdx: nat, sectorOfs: nat, chunk: seq<Byte>,
                    ghost was: seq<Sector>, ghost start: nat, ghost offset: nat, ghost done: seq<Byte>)
    requires sectorIdx == start + (offset + |done|) / 512 && sectorOfs == (offset + |done|) % 512
    requires sectorIdx < |dev.sectors| && 0 < |chunk| && sectorOfs + |chunk| <= 512
    requires Patched(was, dev.sectors, start, offset, done)
    modifies dev
    ensures |dev.sectors| == old(|dev.sectors|) && Patched(was, dev.sectors, start, offset, done + chunk)
  {
    ghost var mid := dev.sectors;
    hide Patched;
    var sector;
    if sectorOfs == 0 && |chunk| == 512 {
      sector := chunk;
    } else {
      sector := BuildSector(dev, sectorIdx, sectorOfs, chunk);
    }
    dev.BlockWrite(sectorIdx, sector);
    PatchMore(was, mid, dev.sectors, start, offset, done, chunk, sector);
  }

  /* What the patch means for files */

  // Data in place of what a content has from offset on.
  function Spliced(c: seq<Byte>, offset: nat, data: seq<Byte>): (r: seq<Byte>)
    requires data == [] || offset + |data| <= |c|
    ensures |r| == |c|
  {
    if data == [] then c else c[..offset] + data + c[offset + |data|..]
  }

  // The written file is its old content with the data spliced in.
  lemma PatchedContent(was: seq<Sector>, now: seq<Sector>, start: nat, length: nat, offset: nat, data: seq<Byte>)
    requires OnDevice(was, start, length) && Patched(was, now, start, offset, data)
    requires data == [] || offset + |data| <= length
    ensures OnDevice(now, start, length)
    ensures Content(now, start, length) == Spliced(Content(was, start, length), offset, data)
  {
    hide Content, Spliced;
    forall pos | 0 <= pos < length
      ensures Content(now, start, length)[pos] ==
        if offset <= pos < offset + |data| then data[pos - offset] else Content(was, start, length)[pos]
    {
      PosOnDevice(was, start, length, pos);
      assert now[start + pos / 512][pos % 512] == PatchedByte(was, start, offset, data, start + pos / 512, pos % 512);
    }
    SplicedIs(Content(was, start, length), offset, data, Content(now, start, length));
  }

  lemma SplicedIs(c: seq<Byte>, offset: nat, data: seq<Byte>, r: seq<Byte>)
    requires (data == [] || offset + |data| <= |c|) && |r| == |c|
    requires forall k | 0 <= k < |c| :: r[k] == if offset <= k < offset + |data| then data[k - offset] else c[k]
    ensures r == Spliced(c, offset, data)
  {}

  lemma SameContent(was: seq<Sector>, now: seq<Sector>, start: nat, length: nat)
    requires OnDevice(was, start, length) && |now| == |was|
    requires forall k | start <= k < start + BytesToSectors(length) :: now[k] == was[k]
    ensures Content(now, start, length) == Content(was, start, length)
  {
    forall pos | 0 <= pos < length
      ensures Content(now, start, length)[pos] == Content(was, start, length)[pos]
    {
      PosOnDevice(was, start, length, pos);
      assert now[start + pos / 512] == was[start + pos / 512];
    }
  }

  // A sector outside the written file keeps every byte.
  lemma OtherSectorUnchanged(was: seq<Sector>, now: seq<Sector>, start: nat, length: nat, offset: nat,
                             data: seq<Byte>, k: nat)
    requires Patched(was, now, start, offset, data) && (data == [] || offset + |data| <= length)
    requires k < |was| && !InExtent(start, length, k)
    ensures now[k] == was[k]
  {
    forall b | 0 <= b < 512
      ensures now[k][b] == was[k][b]
    {
      assert now[k][b] == PatchedByte(was, start, offset, data, k, b);
    }
  }

  // A file on other sectors keeps its content.
  lemma OtherFileUnchanged(was: seq<Sector>, now: seq<Sector>, start: nat, length: nat, offset: nat, data: seq<Byte>,
                           start': nat, length': nat)
    requires OnDevice(was, start', length')
    requires forall k | InExtent(start', length', k) :: !InExtent(start, length, k)
    requires Patched(was, now, start, offset, data) && (data == [] || offset + |data| <= length)
    ensures OnDevice(now, start', length') && Content(now, start', length') == Content(was, start', length')
  {
    forall k | start' <= k < start' + BytesToSectors(length')
      ensures now[k] == was[k]
    {
      assert InExtent(start', length', k);
      OtherSectorUnchanged(was, now, start, length, offset, data, k);
    }
    SameContent(was, now, start', length');
  }

  // A write and a read of the same range: the bytes come back.
  method WriteThenRead(dev: Device, inode: Inode, data: seq<Byte>, offset: nat, into: array<Byte>) returns (n: nat)
    requires OnDevice(dev.sectors, inode.data.start, inode.data.length) && inode.denyWriteCnt == 0
    requires into.Length == |data|
    modifies dev, into
    ensures n == Transferred(inode.data.length, |data|, offset, true)
    ensures into[..n] == data[..n]
  {
    ghost var before := dev.sectors;
    n := WriteAt(dev, inode, data, |data|, offset, true);
    PatchedContent(before, dev.sectors, inode.data.start, inode.data.length, offset, data[..n]);
    var m := ReadAt(dev, inode, into, |data|, offset, true);
  }

  lemma ChunkTotal(length: nat, size: int, offset: nat, bounceOk: bool)
    ensures var n := Transferred(length, size, offset, bounceOk);
      n > 0 ==> n <= size && offset + n <= length
  {}

  /** Writing on from where the last write ended is one longer write. */
  lemma PatchTwice(was: seq<Sector>, mid: seq<Sector>, now: seq<Sector>, start: nat, offset: nat, data: seq<Byte>,
                   more: seq<Byte>)
    requires Patched(was, mid, start, offset, data) && Patched(mid, now, start, offset + |data|, more)
    ensures Patched(was, now, start, offset, data + more)
  {
    forall s, k | 0 <= s < |now| && 0 <= k < 512
      ensures now[s][k] == PatchedByte(was, start, offset, data + more, s, k)
    {
      assert now[s][k] == PatchedByte(mid, start, offset + |data|, more, s, k);
      assert mid[s][k] == PatchedByte(was, start, offset, data, s, k);
    }
  }

  /* A new inode on disk */

  const INODE_MAGIC: nat := 0x494e4f44

  function Zeros(n: nat): (s: seq<Byte>)
    ensures |s| == n
  {
    seq(n, _ => 0)
  }

  // A 32-bit word in memory, lowest byte first.
  function WordBytes(w: nat): (b: seq<Byte>)
    requires w < 0x1_0000_0000
    ensures |b| == 4
  {
    [w % 256, w / 256 % 256, w / 65536 % 256, w / 16777216]
  }

  function WordAt(s: seq<Byte>, at: nat): nat
    requires at + 4 <= |s|
  {
    var b0: nat, b1: nat, b2: nat, b3: nat := s[at], s[at + 1], s[at + 2], s[at + 3];
    b0 + 256 * b1 + 65536 * b2 + 16777216 * b3
  }

  // What the 32-bit fields of struct inode_disk hold; a length is a signed number that is not negative.
  predicate InRange(d: DiskInode) { d.start < 0x1_0000_0000 && d.length < 0x8000_0000 }

  // The sector that calloc and the assignments of inode_create build.
  function HeaderSector(d: DiskInode): Sector
    requires InRange(d)
  {
    WordBytes(d.start) + WordBytes(d.length) + WordBytes(INODE_MAGIC) + Zeros(500)
  }

  // What inode_open reads from a sector.
  function ParsedHeader(s: Sector): DiskInode { DiskInode(WordAt(s, 0), WordAt(s, 4)) }

  lemma WordValue(w: nat)
    ensures w == w % 256 + 256 * (w / 256 % 256) + 65536 * (w / 65536 % 256) + 16777216 * (w / 16777216)
  {
    var q1, q2, q3 := w / 256, w / 65536, w / 16777216;
    assert q1 == 256 * q2 + q1 % 256 by {
      assert q2 == q1 / 256;
    }
    assert q2 == 256 * q3 + q2 % 256 by {
      assert q3 == q2 / 256;
    }
  }

  lemma BytesOfWord(w: nat, s: seq<Byte>, at: nat)
    requires w < 0x1_0000_0000 && at + 4 <= |s| && s[at..at + 4] == WordBytes(w)
    ensures WordAt(s, at) == w
  {
    WordValue(w);
    var b := WordBytes(w);
    assert s[at] == b[0] && s[at + 1] == b[1] && s[at + 2] == b[2] && s[at + 3] == b[3] by {
      hide WordBytes;
      assert s[at..at + 4][1] == s[at + 1] && s[at..at + 4][2] == s[at + 2] && s[at..at + 4][3] == s[at + 3];
    }
  }

  /** inode_open reads back what inode_create wrote. */
  lemma HeaderRoundTrip(d: DiskInode)
    requires InRange(d)
    ensures ParsedHeader(HeaderSector(d)) == d
  {
    hide WordBytes, WordAt;
    var s := HeaderSector(d);
    assert s[0..4] == WordBytes(d.start) && s[4..8] == WordBytes(d.length);
    BytesOfWord(d.start, s, 0);
    BytesOfWord(d.length, s, 4);
  }

  /** The bytes of a header on disk: start, length and the characters of the magic number, each lowest byte first,
      and zeros. */
  lemma HeaderLayout(d: DiskInode, k: nat)
    requires InRange(d) && k < 512
    ensures var h, at := HeaderSector(d), i requires 0 <= i < 512 => HeaderSector(d)[i] as int;
      && at(0) + 256 * at(1) + 65536 * at(2) + 16777216 * at(3) == d.start
      && at(4) + 256 * at(5) + 65536 * at(6) + 16777216 * at(7) == d.length
      && h[8] == 'D' as int && h[9] == 'O' as int && h[10] == 'N' as int && h[11] == 'I' as int
      && (k >= 12 ==> h[k] == 0)
  {
    var h := HeaderSector(d);
    assert h[8] == WordBytes(INODE_MAGIC)[0] && h[9] == WordBytes(INODE_MAGIC)[1];
    assert h[10] == WordBytes(INODE_MAGIC)[2] && h[11] == WordBytes(INODE_MAGIC)[3];
    HeaderRoundTrip(d);
    hide HeaderSector, WordBytes;
  }

  // Lines 92-99 of inode_create: the header, then zeros in every data sector.
  method WriteNewInode(dev: Device, sector: nat, d: DiskInode)
    requires InRange(d) && sector < |dev.sectors| && OnDevice(dev.sectors, d.start, d.length)
    requires !InExtent(d.start, d.length, sector)
    modifies dev
    ensures |dev.sectors| == old(|dev.sectors|)
    ensures forall k | 0 <= k < |dev.sectors| :: dev.sectors[k] == NewSector(old(dev.sectors), sector, d, k)
  {
    hide HeaderSector, BytesToSectors, Zeros;
    var sectors := BytesToSectors(d.length);
    dev.BlockWrite(sector, HeaderSector(d));
    if sectors > 0 {
      WriteZeros(dev, d.start, sectors);
    }
  }

  ghost function NewSector(was: seq<Sector>, sector: nat, d: DiskInode, k: nat): Sector
    requires InRange(d) && k < |was|
  {
    if InExtent(d.start, d.length, k) then Zeros(512) else if k == sector then HeaderSector(d) else was[k]
  }

  method WriteZeros(dev: Device, start: nat, sectors: nat)
    requires start + sectors <= |dev.sectors|
    modifies dev
    ensures |dev.sectors| == old(|dev.sectors|)
    ensures forall k | 0 <= k < |dev.sectors| ::
      dev.sectors[k] == if start <= k < start + sectors then Zeros(512) else old(dev.sectors)[k]
  {
    hide Zeros;
    for i := 0 to sectors
      invariant |dev.sectors| == old(|dev.sectors|)
      invariant forall k | 0 <= k < |dev.sectors| ::
        dev.sectors[k] == if start <= k < start + i then Zeros(512) else old(dev.sectors)[k]
    {
      dev.BlockWrite(start + i, Zeros(512));
    }
  }

  lemma ZeroContent(sectors: seq<Sector>, start: nat, length: nat)
    requires OnDevice(sectors, start, length)
    requires forall k | start <= k < start + BytesToSectors(length) :: sectors[k] == Zeros(512)
    ensures Content(sectors, start, length) == Zeros(length)
  {
    forall pos | 0 <= pos < length
      ensures Content(sectors, start, length)[pos] == 0
    {
      PosOnDevice(sectors, start, length, pos);
      assert sectors[start + pos / 512] == Zeros(512);
    }
  }
}
