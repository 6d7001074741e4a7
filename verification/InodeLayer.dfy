/** The inode layer: the free map, inodes on disk and what their sectors hold, the list of
    open inodes with their reference counts, and open files. Inodes and files are records
    under handles, so that two names for one struct inode are two equal handles. */
module InodeLayer {
  import opened Options
  import Bm = Bitmap
  import FiniteSets
  import opened InodeIO

  datatype File = File(inode: nat, pos: nat, denyWrite: bool)

  const FREE_MAP_SECTOR: nat := 0
  const ROOT_DIR_SECTOR: nat := 1

  function Sectors(d: DiskInode): nat { BytesToSectors(d.length) }

  // Sector k is the header or a data sector of the inode at sector s.
  predicate Owns(live: map<nat, DiskInode>, s: nat, k: nat)
  {
    s in live && (k == s || live[s].start <= k < live[s].start + Sectors(live[s]))
  }

  /* The invariant */

  ghost predicate LiveOk(used: seq<bool>, live: map<nat, DiskInode>, s: nat)
  {
    s in live ==>
      && (forall k: nat | Owns(live, s, k) :: k < |used| && used[k])
      && live[s].start + Sectors(live[s]) <= |used|
      && !(live[s].start <= s < live[s].start + Sectors(live[s]))
  }

  ghost predicate Apart(live: map<nat, DiskInode>, s: nat, t: nat)
  {
    s != t ==> forall k: nat :: !(Owns(live, s, k) && Owns(live, t, k))
  }

  ghost function Openers(files: map<nat, File>, h: nat): set<nat>
  {
    set f | f in files && files[f].inode == h
  }

  ghost function Deniers(files: map<nat, File>, h: nat): set<nat>
  {
    set f | f in files && files[f].inode == h && files[f].denyWrite
  }

  ghost predicate InodeOk(live: map<nat, DiskInode>, files: map<nat, File>, inodes: map<nat, Inode>, h: nat)
  {
    h in inodes ==>
      && inodes[h].openCnt >= 1
      && inodes[h].sector in live && inodes[h].data == live[inodes[h].sector]
      && |Openers(files, h)| <= inodes[h].openCnt
      && |Deniers(files, h)| == inodes[h].denyWriteCnt
  }

  ghost predicate OneInode(inodes: map<nat, Inode>, g: nat, h: nat)
  {
    g in inodes && h in inodes && inodes[g].sector == inodes[h].sector ==> g == h
  }

  ghost predicate Inv(used: seq<bool>, live: map<nat, DiskInode>, inodes: map<nat, Inode>, files: map<nat, File>)
  {
    && (forall s {:trigger LiveOk(used, live, s)} :: LiveOk(used, live, s))
    && (forall s, t {:trigger Apart(live, s, t)} :: Apart(live, s, t))
    && (forall h {:trigger InodeOk(live, files, inodes, h)} :: InodeOk(live, files, inodes, h))
    && (forall g, h {:trigger OneInode(inodes, g, h)} :: OneInode(inodes, g, h))
    && (forall f | f in files :: files[f].inode in inodes)
  }

  // No live inode owns a sector of [a, a + n).
  ghost predicate Unowned(live: map<nat, DiskInode>, a: nat, n: nat)
  {
    forall s, k: nat :: !(Owns(live, s, k) && a <= k < a + n)
  }

  /* How the invariant reacts to each kind of change */

  lemma UsedMore(used: seq<bool>, used': seq<bool>, live: map<nat, DiskInode>, inodes: map<nat, Inode>,
                 files: map<nat, File>)
    requires Inv(used, live, inodes, files) && |used'| == |used|
    requires forall k | 0 <= k < |used| && used[k] :: used'[k]
    ensures Inv(used', live, inodes, files)
  {
    forall s
      ensures LiveOk(used', live, s)
    {
      assert LiveOk(used, live, s);
    }
  }

  // Sectors that no live inode owns can be cleared.
  lemma UsedLess(used: seq<bool>, used': seq<bool>, live: map<nat, DiskInode>, inodes: map<nat, Inode>,
                 files: map<nat, File>, a: nat, n: nat)
    requires Inv(used, live, inodes, files) && |used'| == |used| && Unowned(live, a, n)
    requires forall k | 0 <= k < |used| && !(a <= k < a + n) :: used'[k] == used[k]
    ensures Inv(used', live, inodes, files)
  {
    forall s
      ensures LiveOk(used', live, s)
    {
      assert LiveOk(used, live, s);
    }
  }

  // A new inode on used sectors that nobody owns.
  lemma LiveMore(used: seq<bool>, live: map<nat, DiskInode>, inodes: map<nat, Inode>, files: map<nat, File>,
                 s: nat, d: DiskInode)
    requires Inv(used, live, inodes, files)
    requires s < |used| && used[s] && Unowned(live, s, 1)
    requires Unowned(live, d.start, Sectors(d)) && !(d.start <= s < d.start + Sectors(d))
    requires d.start + Sectors(d) <= |used| && forall k | d.start <= k < d.start + Sectors(d) :: used[k]
    ensures s !in live && Inv(used, live[s := d], inodes, files)
  {
    var live' := live[s := d];
    assert s in live ==> Owns(live, s, s);
    forall t
      ensures LiveOk(used, live', t)
    {
      assert LiveOk(used, live, t);
      assert forall k: nat :: t != s ==> (Owns(live', t, k) <==> Owns(live, t, k));
    }
    forall t, u
      ensures Apart(live', t, u)
    {
      assert Apart(live, t, u);
      forall k: nat
        ensures t != u ==> !(Owns(live', t, k) && Owns(live', u, k))
      {
        assert t != s ==> (Owns(live', t, k) <==> Owns(live, t, k));
        assert u != s ==> (Owns(live', u, k) <==> Owns(live, u, k));
      }
    }
    forall h
      ensures InodeOk(live', files, inodes, h)
    {
      assert InodeOk(live, files, inodes, h);
    }
  }

  // An inode that is not open disappears; its sectors become unowned.
  lemma LiveLess(used: seq<bool>, live: map<nat, DiskInode>, inodes: map<nat, Inode>, files: map<nat, File>, s: nat)
    requires Inv(used, live, inodes, files) && s in live
    requires forall h | h in inodes :: inodes[h].sector != s
    ensures Inv(used, live - {s}, inodes, files)
    ensures Unowned(live - {s}, s, 1) && Unowned(live - {s}, live[s].start, Sectors(live[s]))
  {
    var live' := live - {s};
    forall t
      ensures LiveOk(used, live', t)
    {
      assert LiveOk(used, live, t);
      assert forall k: nat :: t != s ==> (Owns(live', t, k) <==> Owns(live, t, k));
    }
    forall t, u
      ensures Apart(live', t, u)
    {
      assert Apart(live, t, u);
      assert forall k: nat :: Owns(live', t, k) ==> Owns(live, t, k);
      assert forall k: nat :: Owns(live', u, k) ==> Owns(live, u, k);
    }
    forall h
      ensures InodeOk(live', files, inodes, h)
    {
      assert InodeOk(live, files, inodes, h);
    }
    forall t, k: nat | Owns(live', t, k)
      ensures k != s && !(live[s].start <= k < live[s].start + Sectors(live[s]))
    {
      assert Owns(live, t, k) && t != s && Apart(live, s, t);
      assert !Owns(live, s, k);
    }
  }

  // Only inode h and the files on it change.
  lemma InodeChange(used: seq<bool>, live: map<nat, DiskInode>, inodes: map<nat, Inode>, files: map<nat, File>,
                    inodes': map<nat, Inode>, files': map<nat, File>, h: nat)
    requires Inv(used, live, inodes, files)
    requires forall g | g != h :: (g in inodes' <==> g in inodes) && (g in inodes ==> inodes'[g] == inodes[g])
    requires forall g | g != h :: Openers(files', g) == Openers(files, g) && Deniers(files', g) == Deniers(files, g)
    requires InodeOk(live, files', inodes', h)
    requires forall f | f in files' :: files'[f].inode in inodes'
    requires h in inodes' ==> forall g | g in inodes' && inodes'[g].sector == inodes'[h].sector :: g == h
    ensures Inv(used, live, inodes', files')
  {
    forall g
      ensures InodeOk(live, files', inodes', g)
    {
      assert InodeOk(live, files, inodes, g);
    }
    forall g, k
      ensures OneInode(inodes', g, k)
    {
      assert OneInode(inodes, g, k);
    }
  }

  lemma OnlyInode(used: seq<bool>, live: map<nat, DiskInode>, inodes: map<nat, Inode>, files: map<nat, File>, h: nat)
    requires Inv(used, live, inodes, files) && h in inodes
    ensures forall g | g in inodes && inodes[g].sector == inodes[h].sector :: g == h
  {
    forall g | g in inodes && inodes[g].sector == inodes[h].sector
      ensures g == h
    {
      assert OneInode(inodes, g, h);
    }
  }

  /* The census of open files */

  lemma FileAdded(files: map<nat, File>, f: nat, h: nat, g: nat)
    requires f !in files
    ensures Openers(files[f := File(h, 0, false)], g) == if g == h then Openers(files, g) + {f} else Openers(files, g)
    ensures f !in Openers(files, g) && Deniers(files[f := File(h, 0, false)], g) == Deniers(files, g)
  {
    var files' := files[f := File(h, 0, false)];
    assert Openers(files', g) == if g == h then Openers(files, g) + {f} else Openers(files, g);
    assert Deniers(files', g) == Deniers(files, g);
  }

  lemma FileGone(files: map<nat, File>, f: nat, g: nat)
    requires f in files
    ensures Openers(files - {f}, g) == if g == files[f].inode then Openers(files, g) - {f} else Openers(files, g)
    ensures g == files[f].inode ==> f in Openers(files, g)
    ensures !files[f].denyWrite ==> Deniers(files - {f}, g) == Deniers(files, g)
  {
    var files' := files - {f};
    assert Openers(files', g) == if g == files[f].inode then Openers(files, g) - {f} else Openers(files, g);
    assert !files[f].denyWrite ==> Deniers(files', g) == Deniers(files, g);
  }

  lemma FileFlagged(files: map<nat, File>, f: nat, deny: bool, g: nat)
    requires f in files && files[f].denyWrite != deny
    ensures var files' := files[f := files[f].(denyWrite := deny)];
      && Openers(files', g) == Openers(files, g)
      && (g != files[f].inode ==> Deniers(files', g) == Deniers(files, g))
      && (g == files[f].inode ==> |Deniers(files', g)| == |Deniers(files, g)| + (if deny then 1 else -1))
  {
    var files' := files[f := files[f].(denyWrite := deny)];
    assert Openers(files', g) == Openers(files, g);
    assert g != files[f].inode ==> Deniers(files', g) == Deniers(files, g);
    assert g == files[f].inode && deny ==> Deniers(files', g) == Deniers(files, g) + {f} && f !in Deniers(files, g);
    assert g == files[f].inode && !deny ==> Deniers(files', g) == Deniers(files, g) - {f} && f in Deniers(files, g);
  }

  lemma FewerDeniers(files: map<nat, File>, h: nat)
    ensures |Deniers(files, h)| <= |Openers(files, h)|
  {
    FiniteSets.SubsetSize(Deniers(files, h), Openers(files, h));
  }

  lemma FileMoved(files: map<nat, File>, f: nat, pos: nat, g: nat)
    requires f in files
    ensures var files' := files[f := files[f].(pos := pos)];
      Openers(files', g) == Openers(files, g) && Deniers(files', g) == Deniers(files, g)
  {
    var files' := files[f := files[f].(pos := pos)];
    assert Openers(files', g) == Openers(files, g);
    assert Deniers(files', g) == Deniers(files, g);
  }

  /* What the sectors hold */

  // The header of s is on the device, and so is its extent.
  ghost predicate OnDisk(sectors: seq<Sector>, live: map<nat, DiskInode>, s: nat)
  {
    s in live ==>
      && s < |sectors| && OnDevice(sectors, live[s].start, live[s].length)
      && InRange(live[s]) && sectors[s] == HeaderSector(live[s])
  }

  ghost predicate AllOnDisk(sectors: seq<Sector>, live: map<nat, DiskInode>)
  {
    forall s {:trigger OnDisk(sectors, live, s)} :: OnDisk(sectors, live, s)
  }

  // The bytes of every inode on disk.
  ghost function Contents(sectors: seq<Sector>, live: map<nat, DiskInode>): (m: map<nat, seq<Byte>>)
    requires AllOnDisk(sectors, live)
    ensures m.Keys == live.Keys && forall s | s in live :: |m[s]| == live[s].length
  {
    map s | s in live :: assert OnDisk(sectors, live, s); Content(sectors, live[s].start, live[s].length)
  }

  lemma ContentsAt(sectors: seq<Sector>, live: map<nat, DiskInode>, s: nat)
    requires AllOnDisk(sectors, live) && s in live
    ensures OnDevice(sectors, live[s].start, live[s].length)
    ensures Contents(sectors, live)[s] == Content(sectors, live[s].start, live[s].length)
  {
    hide HeaderSector, Content;
    assert OnDisk(sectors, live, s);
  }

  lemma Outside(used: seq<bool>, live: map<nat, DiskInode>, inodes: map<nat, Inode>, files: map<nat, File>,
                s: nat, t: nat)
    requires Inv(used, live, inodes, files) && s in live && t in live
    ensures !InExtent(live[s].start, live[s].length, t)
    ensures s != t ==>
      forall k: nat | InExtent(live[t].start, live[t].length, k) :: !InExtent(live[s].start, live[s].length, k)
  {
    assert LiveOk(used, live, s) && Apart(live, s, t) && Owns(live, t, t);
    forall k: nat | InExtent(live[t].start, live[t].length, k)
      ensures s != t ==> !InExtent(live[s].start, live[s].length, k)
    {
      assert Owns(live, t, k);
    }
    assert s != t ==> !Owns(live, s, t);
  }

  /** A new inode reads as zeros, and no other content changes. */
  lemma ContentsNew(was: seq<Sector>, now: seq<Sector>, used: seq<bool>, live: map<nat, DiskInode>,
                    inodes: map<nat, Inode>, files: map<nat, File>, s: nat, d: DiskInode)
    requires Inv(used, live, inodes, files) && AllOnDisk(was, live) && |now| == |was|
    requires InRange(d) && s < |was| && OnDevice(was, d.start, d.length) && !InExtent(d.start, d.length, s)
    requires Unowned(live, s, 1) && Unowned(live, d.start, Sectors(d))
    requires forall k | 0 <= k < |was| :: now[k] == NewSector(was, s, d, k)
    ensures AllOnDisk(now, live[s := d])
    ensures Contents(now, live[s := d]) == Contents(was, live)[s := Zeros(d.length)]
  {
    hide HeaderSector, OnDevice, Content, Zeros;
    var live' := live[s := d];
    forall t
      ensures OnDisk(now, live', t)
      ensures t in live && t != s ==>
        && OnDisk(was, live, t) && OnDevice(now, live[t].start, live[t].length)
        && Content(now, live[t].start, live[t].length) == Content(was, live[t].start, live[t].length)
    {
      if t in live && t != s {
        NewElsewhere(was, now, live, s, d, t);
      } else if t == s {
        SameDevice(was, now, d.start, d.length);
      }
    }
    SameDevice(was, now, d.start, d.length);
    ZeroContent(now, d.start, d.length);
  }

  lemma SameDevice(was: seq<Sector>, now: seq<Sector>, start: nat, length: nat)
    requires OnDevice(was, start, length) && |now| == |was|
    ensures OnDevice(now, start, length)
  {}

  lemma NewElsewhere(was: seq<Sector>, now: seq<Sector>, live: map<nat, DiskInode>, s: nat, d: DiskInode, t: nat)
    requires AllOnDisk(was, live) && |now| == |was| && t in live && t != s && InRange(d)
    requires Unowned(live, s, 1) && Unowned(live, d.start, Sectors(d))
    requires forall k | 0 <= k < |was| :: now[k] == NewSector(was, s, d, k)
    ensures OnDisk(was, live, t) && OnDevice(now, live[t].start, live[t].length)
    ensures OnDisk(now, live[s := d], t)
    ensures Content(now, live[t].start, live[t].length) == Content(was, live[t].start, live[t].length)
  {
    hide HeaderSector, Content;
    assert OnDisk(was, live, t) && Owns(live, t, t);
    forall k | live[t].start <= k < live[t].start + BytesToSectors(live[t].length)
      ensures now[k] == was[k]
    {
      assert Owns(live, t, k);
    }
    SameContent(was, now, live[t].start, live[t].length);
  }

  lemma ContentsLess(sectors: seq<Sector>, live: map<nat, DiskInode>, s: nat)
    requires AllOnDisk(sectors, live)
    ensures AllOnDisk(sectors, live - {s})
    ensures Contents(sectors, live - {s}) == Contents(sectors, live) - {s}
  {
    hide HeaderSector, Content;
    var live' := live - {s};
    forall t
      ensures OnDisk(sectors, live', t)
    {
      assert OnDisk(sectors, live, t);
    }
  }

  /** A write into one file changes its content as asked and no other content, and no header. */
  lemma ContentsWritten(was: seq<Sector>, now: seq<Sector>, used: seq<bool>, live: map<nat, DiskInode>,
                        inodes: map<nat, Inode>, files: map<nat, File>, s: nat, offset: nat, data: seq<Byte>)
    requires Inv(used, live, inodes, files) && AllOnDisk(was, live) && s in live
    requires Patched(was, now, live[s].start, offset, data)
    requires data == [] || offset + |data| <= live[s].length
    ensures AllOnDisk(now, live) && |Contents(was, live)[s]| == live[s].length
    ensures Contents(now, live) == Contents(was, live)[s := Spliced(Contents(was, live)[s], offset, data)]
  {
    hide HeaderSector, OnDevice, Content, Spliced;
    forall t
      ensures OnDisk(now, live, t)
      ensures t in live && t != s ==>
        && OnDisk(was, live, t) && OnDevice(now, live[t].start, live[t].length)
        && Content(now, live[t].start, live[t].length) == Content(was, live[t].start, live[t].length)
    {
      if t in live {
        WrittenElsewhere(was, now, used, live, inodes, files, s, offset, data, t);
      }
    }
    assert OnDisk(was, live, s) && OnDisk(now, live, s);
    PatchedContent(was, now, live[s].start, live[s].length, offset, data);
  }

  lemma WrittenElsewhere(was: seq<Sector>, now: seq<Sector>, used: seq<bool>, live: map<nat, DiskInode>,
                         inodes: map<nat, Inode>, files: map<nat, File>, s: nat, offset: nat, data: seq<Byte>, t: nat)
    requires Inv(used, live, inodes, files) && AllOnDisk(was, live) && s in live && t in live
    requires Patched(was, now, live[s].start, offset, data)
    requires data == [] || offset + |data| <= live[s].length
    ensures OnDisk(was, live, t) && OnDisk(now, live, t)
    ensures s != t ==> Content(now, live[t].start, live[t].length) == Content(was, live[t].start, live[t].length)
  {
    hide Inv, HeaderSector, Content, Patched, InExtent;
    assert OnDisk(was, live, t);
    Outside(used, live, inodes, files, s, t);
    PatchedSize(was, now, live[s].start, offset, data);
    OtherSectorUnchanged(was, now, live[s].start, live[s].length, offset, data, t);
    if s != t {
      OtherFileUnchanged(was, now, live[s].start, live[s].length, offset, data, live[t].start, live[t].length);
    }
  }

  // The inode behind an open file is on disk as it is in memory.
  lemma FileFacts(sectors: seq<Sector>, used: seq<bool>, live: map<nat, DiskInode>, inodes: map<nat, Inode>,
                  files: map<nat, File>, f: nat)
    requires Inv(used, live, inodes, files) && AllOnDisk(sectors, live) && f in files
    ensures files[f].inode in inodes
    ensures var i := inodes[files[f].inode];
      && i.sector in live && i.data == live[i.sector] && OnDevice(sectors, i.data.start, i.data.length)
      && Contents(sectors, live)[i.sector] == Content(sectors, i.data.start, i.data.length)
  {
    hide HeaderSector, Content;
    assert InodeOk(live, files, inodes, files[f].inode);
    assert OnDisk(sectors, live, inodes[files[f].inode].sector);
  }

  lemma PatchedSize(was: seq<Sector>, now: seq<Sector>, start: nat, offset: nat, data: seq<Byte>)
    requires Patched(was, now, start, offset, data)
    ensures |now| == |was|
  {}

  // A group of n clear bits at a.
  predicate Free(used: seq<bool>, a: nat, n: nat)
  {
    Bm.Group(used, a, n, false)
  }

  lemma OutsideGroup(used: seq<bool>, a: nat, n: nat, x: nat)
    requires First(used, a, n) && x < |used| && used[x]
    ensures a + n <= |used| && !(a <= x < a + n)
  {}

  predicate HasRoom(used: seq<bool>, n: nat) { exists a: nat :: a <= |used| && Free(used, a, n) }

  // The group that first fit takes.
  predicate First(used: seq<bool>, a: nat, n: nat)
  {
    Free(used, a, n) && forall i: nat | i < a :: !Free(used, i, n)
  }

  /** What inode_close of h does. With its last reference an inode leaves the list, and if it was
      removed, exactly the sectors it owns become free. */
  ghost predicate Closed(inodes: map<nat, Inode>, live: map<nat, DiskInode>, used: seq<bool>,
                         inodes': map<nat, Inode>, live': map<nat, DiskInode>, used': seq<bool>, h: nat)
  {
    h in inodes && |used'| == |used| &&
    var i := inodes[h];
    if i.openCnt > 1 then
      inodes' == inodes[h := i.(openCnt := i.openCnt - 1)] && live' == live && used' == used
    else if !i.removed then
      inodes' == inodes - {h} && live' == live && used' == used
    else
      && inodes' == inodes - {h} && live' == live - {i.sector}
      && forall k | 0 <= k < |used| :: used'[k] == (used[k] && !Owns(live, i.sector, k))
  }

  predicate OpenAt(inodes: map<nat, Inode>, x: nat) { exists h | h in inodes :: inodes[h].sector == x }

  /** What inode_open of sector x does: the inode that is open there is counted once more, and if there is
      none, a new one is made from what the header sector says. */
  ghost predicate Referenced(inodes: map<nat, Inode>, inodes': map<nat, Inode>, x: nat, d: DiskInode, h: nat)
  {
    if OpenAt(inodes, x) then
      h in inodes && inodes[h].sector == x && inodes' == inodes[h := inodes[h].(openCnt := inodes[h].openCnt + 1)]
    else
      h !in inodes && inodes' == inodes[h := Inode(x, 1, false, 0, d)]
  }

  class Layer {
    const freeMap: Bm.Bitmap
    const dev: Device
    var inodes: map<nat, Inode>          // the list of open inodes
    var files: map<nat, File>            // open files
    var live: map<nat, DiskInode>        // inodes on disk, by header sector, until they are freed

    // The sectors marked used.
    ghost function Used(): (used: seq<bool>)
      requires freeMap.Valid()
      reads freeMap.elems
      ensures |used| == freeMap.bitCnt
    {
      freeMap.Bits()
    }

    ghost predicate Valid()
      reads this, freeMap.elems, dev
    {
      && freeMap.Valid() && Inv(Used(), live, inodes, files)
      && |dev.sectors| == freeMap.bitCnt < 0x1_0000_0000 && AllOnDisk(dev.sectors, live)
    }

    // free_map_init; the inode list is empty and no file is open.
    constructor (n: nat)
      requires 2 <= n < 0x1_0000_0000
      ensures Valid() && inodes == map[] && files == map[] && live == map[]
      ensures freeMap.bitCnt == n && fresh(freeMap.elems) && fresh(dev)
      ensures forall k | 0 <= k < n :: Used()[k] == (k <= ROOT_DIR_SECTOR)
    {
      freeMap := new Bm.Bitmap(n);
      dev := new Device(n);
      inodes, files, live := map[], map[], map[];
      new;
      freeMap.BitmapMark(FREE_MAP_SECTOR);
      freeMap.BitmapMark(ROOT_DIR_SECTOR);
    }

    // free_map_allocate; writeOk tells whether writing the free map file succeeds (or there is none yet).
    method FreeMapAllocate(cnt: nat, writeOk: bool) returns (sector: Option<nat>)
      requires Valid()
      modifies freeMap.elems
      ensures Valid()
      ensures sector.Some? ==>
        First(old(Used()), sector.value, cnt) && Used() == Bm.WithGroup(old(Used()), sector.value, cnt, true)
      ensures sector.Some? ==>
        forall k | 0 <= k < freeMap.bitCnt :: Used()[k] == (old(Used()[k]) || sector.value <= k < sector.value + cnt)
      ensures sector.Some? ==> Unowned(live, sector.value, cnt)
      ensures sector.None? ==> Used() == old(Used())
      ensures sector.Some? <==> writeOk && HasRoom(old(Used()), cnt)
    {
      hide Inv, Unowned, Bm.WithGroup, Bm.Group;
      ghost var used := Used();
      sector := freeMap.BitmapScanAndFlip(0, cnt, false);
      if sector.Some? {
        FreeIsUnowned(used, live, inodes, files, sector.value, cnt);
        Bm.FlipBack(used, sector.value, cnt, false);
        if !writeOk {
          freeMap.BitmapSetMultiple(sector.value, cnt, false);
          sector := None;
        } else {
          UsedMore(used, Used(), live, inodes, files);
        }
      }
    }

    // free_map_release: the assertion of the source, that all the bits are set, is the precondition.
    method FreeMapRelease(sector: nat, cnt: nat)
      requires Valid() && Unowned(live, sector, cnt)
      requires sector + cnt <= freeMap.bitCnt && forall k | sector <= k < sector + cnt :: Used()[k]
      modifies freeMap.elems
      ensures Valid()
      ensures forall k | 0 <= k < freeMap.bitCnt :: Used()[k] == (old(Used()[k]) && !(sector <= k < sector + cnt))
    {
      freeMap.BitmapSetMultiple(sector, cnt, false);
      UsedLess(old(Used()), Used(), live, inodes, files, sector, cnt);
    }

    // inode_create; memOk tells whether allocating the disk inode succeeds.
    method InodeCreate(sector: nat, length: Offset, memOk: bool, writeOk: bool) returns (success: bool)
      requires Valid() && sector < freeMap.bitCnt && Used()[sector] && Unowned(live, sector, 1)
      modifies this`live, freeMap.elems, dev
      ensures Valid()
      ensures success ==>
        && sector !in old(live) && sector in live && live == old(live)[sector := live[sector]]
        && live[sector].length == length && First(old(Used()), live[sector].start, BytesToSectors(length))
        && Used() == Bm.WithGroup(old(Used()), live[sector].start, BytesToSectors(length), true)
      ensures !success ==> live == old(live) && Used() == old(Used()) && dev.sectors == old(dev.sectors)
      ensures success ==> forall k | 0 <= k < freeMap.bitCnt ::
        Used()[k] == (old(Used()[k]) || live[sector].start <= k < live[sector].start + Sectors(live[sector]))
      ensures success ==> Contents(dev.sectors, live) == old(Contents(dev.sectors, live))[sector := Zeros(length)]
      ensures success <==> memOk && writeOk && HasRoom(old(Used()), BytesToSectors(length))
    {
      hide Inv, AllOnDisk, Contents, HasRoom, First, Unowned, Bm.WithGroup, NewSector;
      success := false;
      if memOk {
        var sectors := BytesToSectors(length);
        var start := FreeMapAllocate(sectors, writeOk);
        if start.Some? {
          OutsideGroup(old(Used()), start.value, sectors, sector);
          var d := DiskInode(start.value, length);
          WriteNewInode(dev, sector, d);
          LiveMore(Used(), live, inodes, files, sector, d);
          ContentsNew(old(dev.sectors), dev.sectors, Used(), live, inodes, files, sector, d);
          live := live[sector := d];
          success := true;
        }
      }
    }

    // inode_open on the header sector of an inode; memOk tells whether malloc succeeds, and
    // h0 is the address it then returns.
    method InodeOpen(sector: nat, memOk: bool, h0: nat) returns (h: Option<nat>)
      requires Valid() && sector in live && h0 !in inodes
      modifies this`inodes
      ensures Valid()
      ensures h.Some? <==> memOk || OpenAt(old(inodes), sector)
      ensures h.Some? ==>
        && Referenced(old(inodes), inodes, sector, live[sector], h.value)
        && h.value in inodes && |Openers(files, h.value)| < inodes[h.value].openCnt
      ensures h.Some? && !OpenAt(old(inodes), sector) ==> h.value == h0
      ensures h.None? ==> inodes == old(inodes)
    {
      if g :| g in inodes && inodes[g].sector == sector {
        OnlyInode(Used(), live, inodes, files, g);
        InodeReopen(g);
        return Some(g);
      }
      if !memOk {
        return None;
      }
      var before := inodes;
      assert OnDisk(dev.sectors, live, sector);
      HeaderRoundTrip(live[sector]);
      var data := dev.BlockRead(sector);
      inodes := inodes[h0 := Inode(sector, 1, false, 0, ParsedHeader(data))];
      assert Openers(files, h0) == {} && Deniers(files, h0) == {};
      InodeChange(Used(), live, before, files, inodes, files, h0);
      return Some(h0);
    }

    // inode_reopen
    method InodeReopen(h: nat)
      requires Valid() && h in inodes
      modifies this`inodes
      ensures Valid() && inodes == old(inodes)[h := old(inodes)[h].(openCnt := old(inodes)[h].openCnt + 1)]
      ensures |Openers(files, h)| < inodes[h].openCnt
    {
      var before := inodes;
      inodes := inodes[h := inodes[h].(openCnt := inodes[h].openCnt + 1)];
      assert InodeOk(live, files, before, h);
      OnlyInode(Used(), live, before, files, h);
      InodeChange(Used(), live, before, files, inodes, files, h);
    }

    // inode_remove
    method InodeRemove(h: nat)
      requires Valid() && h in inodes
      modifies this`inodes
      ensures Valid() && inodes == old(inodes)[h := old(inodes)[h].(removed := true)]
    {
      var before := inodes;
      inodes := inodes[h := inodes[h].(removed := true)];
      assert InodeOk(live, files, before, h);
      OnlyInode(Used(), live, before, files, h);
      InodeChange(Used(), live, before, files, inodes, files, h);
    }

    // inode_close by a caller whose reference no open file holds. At the last close of a removed
    // inode its sectors are released: they are all marked used then, so no sector is freed twice.
    method InodeClose(h: nat)
      requires Valid() && h in inodes && |Openers(files, h)| < inodes[h].openCnt
      modifies this`inodes, this`live, freeMap.elems
      ensures Valid()
      ensures Closed(old(inodes), old(live), old(Used()), inodes, live, Used(), h)
    {
      var before, i := inodes, inodes[h];
      assert InodeOk(live, files, before, h);
      OnlyInode(Used(), live, before, files, h);
      FewerDeniers(files, h);
      if i.openCnt - 1 == 0 {
        inodes := inodes - {h};
        LastClose(files, h);
        InodeChange(Used(), live, before, files, inodes, files, h);
        if i.removed {
          ReleaseInode(i);
        }
      } else {
        inodes := inodes[h := i.(openCnt := i.openCnt - 1)];
        InodeChange(Used(), live, before, files, inodes, files, h);
      }
    }

    // Lines 179-181 of inode_close.
    method ReleaseInode(i: Inode)
      requires Valid() && i.sector in live && i.data == live[i.sector]
      requires forall h | h in inodes :: inodes[h].sector != i.sector
      modifies this`live, freeMap.elems
      ensures Valid() && live == old(live) - {i.sector}
      ensures forall k | 0 <= k < freeMap.bitCnt :: Used()[k] == (old(Used()[k]) && !Owns(old(live), i.sector, k))
    {
      assert LiveOk(Used(), live, i.sector) && Owns(live, i.sector, i.sector);
      var start, sectors := i.data.start, Sectors(i.data);
      assert forall k: nat :: Owns(live, i.sector, k) <==> k == i.sector || start <= k < start + sectors;
      LiveLess(Used(), live, inodes, files, i.sector);
      ContentsLess(dev.sectors, live, i.sector);
      live := live - {i.sector};
      assert Valid();
      FreeMapRelease(i.sector, 1);
      FreeMapRelease(start, sectors);
    }

    /* file.c */

    // file_open takes over one reference to h; memOk tells whether calloc succeeds, f0 is its result.
    method FileOpen(h: nat, memOk: bool, f0: nat) returns (f: Option<nat>)
      requires Valid() && h in inodes && |Openers(files, h)| < inodes[h].openCnt && f0 !in files
      modifies this`files, this`inodes, this`live, freeMap.elems
      ensures Valid()
      ensures memOk ==>
        && f == Some(f0) && files == old(files)[f0 := File(h, 0, false)]
        && inodes == old(inodes) && live == old(live) && Used() == old(Used())
      ensures !memOk ==>
        && f == None && files == old(files)
        && Closed(old(inodes), old(live), old(Used()), inodes, live, Used(), h)
    {
      if memOk {
        var before := files;
        files := files[f0 := File(h, 0, false)];
        forall g
          ensures g != h ==> Openers(files, g) == Openers(before, g)
          ensures Deniers(files, g) == Deniers(before, g)
        {
          FileAdded(before, f0, h, g);
        }
        FileAdded(before, f0, h, h);
        assert InodeOk(live, before, inodes, h);
        OnlyInode(Used(), live, inodes, before, h);
        InodeChange(Used(), live, inodes, before, inodes, files, h);
        return Some(f0);
      } else {
        InodeClose(h);
        return None;
      }
    }

    // file_deny_write and file_allow_write
    method FileSetDeny(f: nat, deny: bool)
      requires Valid() && f in files
      modifies this`files, this`inodes
      ensures Valid()
      ensures files == old(files)[f := old(files)[f].(denyWrite := deny)]
      ensures var h := files[f].inode;
        && h in old(inodes)
        && inodes == old(inodes)[h := old(inodes)[h].(denyWriteCnt := |Deniers(files, h)|)]
        && inodes[h].denyWriteCnt <= inodes[h].openCnt
    {
      var h := files[f].inode;
      assert InodeOk(live, files, inodes, h);
      FewerDeniers(files, h);
      if files[f].denyWrite != deny {
        var before, inodes0 := files, inodes;
        files := files[f := files[f].(denyWrite := deny)];
        FileFlagged(before, f, deny, h);
        var cnt := inodes[h].denyWriteCnt;
        inodes := inodes[h := inodes[h].(denyWriteCnt := if deny then cnt + 1 else cnt - 1)];
        forall g
          ensures Openers(files, g) == Openers(before, g)
          ensures g != h ==> Deniers(files, g) == Deniers(before, g)
        {
          FileFlagged(before, f, deny, g);
        }
        OnlyInode(Used(), live, inodes0, before, h);
        InodeChange(Used(), live, inodes0, before, inodes, files, h);
        FewerDeniers(files, h);
      }
    }

    // file_read
    method FileRead(f: nat, buffer: array<Byte>, size: int, bounceOk: bool) returns (bytesRead: nat)
      requires Valid() && f in files && size <= buffer.Length
      modifies this`files, buffer
      ensures Valid() && files == old(files)[f := old(files)[f].(pos := old(files)[f].pos + bytesRead)]
      ensures var file, i := old(files)[f], inodes[old(files)[f].inode];
        && bytesRead == Transferred(i.data.length, size, file.pos, bounceOk) && bytesRead <= buffer.Length
        && i.sector in live && i.data == live[i.sector]
        && (bytesRead > 0 ==> file.pos + bytesRead <= i.data.length)
        && (bytesRead > 0 ==>
              buffer[..bytesRead] == Contents(dev.sectors, live)[i.sector][file.pos..file.pos + bytesRead])
      ensures forall k | bytesRead <= k < buffer.Length :: buffer[k] == old(buffer[k])
    {
      hide Inv, AllOnDisk, Contents, Content, OnDevice, Transferred;
      var file := files[f];
      FileFacts(dev.sectors, Used(), live, inodes, files, f);
      var i := inodes[file.inode];
      bytesRead := ReadAt(dev, i, buffer, size, file.pos, bounceOk);
      ChunkTotal(i.data.length, size, file.pos, bounceOk);
      MoveFile(f, file.pos + bytesRead);
    }

    // file_write
    method FileWrite(f: nat, buffer: seq<Byte>, size: int, bounceOk: bool) returns (bytesWritten: nat)
      requires Valid() && f in files && size <= |buffer|
      modifies this`files, dev
      ensures Valid() && files == old(files)[f := old(files)[f].(pos := old(files)[f].pos + bytesWritten)]
      ensures var file, i := old(files)[f], inodes[old(files)[f].inode];
        && bytesWritten ==
             (if i.denyWriteCnt != 0 then 0 else Transferred(i.data.length, size, file.pos, bounceOk))
        && bytesWritten <= |buffer| && i.sector in live && i.data == live[i.sector]
        && var c := old(Contents(dev.sectors, live));
        && (bytesWritten == 0 || file.pos + bytesWritten <= |c[i.sector]|)
        && Contents(dev.sectors, live) == c[i.sector := Spliced(c[i.sector], file.pos, buffer[..bytesWritten])]
    {
      hide Inv, AllOnDisk, Contents, Content, OnDevice, Transferred, Patched, Spliced;
      var file := files[f];
      FileFacts(dev.sectors, Used(), live, inodes, files, f);
      var i := inodes[file.inode];
      bytesWritten := WriteAt(dev, i, buffer, size, file.pos, bounceOk);
      PatchedSize(old(dev.sectors), dev.sectors, i.data.start, file.pos, buffer[..bytesWritten]);
      ContentsWritten(old(dev.sectors), dev.sectors, Used(), live, inodes, files, i.sector, file.pos,
                      buffer[..bytesWritten]);
      MoveFile(f, file.pos + bytesWritten);
    }

    // The assignments to pos, also those of file_seek.
    method MoveFile(f: nat, pos: nat)
      requires Valid() && f in files
      modifies this`files
      ensures Valid() && files == old(files)[f := old(files)[f].(pos := pos)]
    {
      var before := files;
      files := files[f := files[f].(pos := pos)];
      forall g
        ensures Openers(files, g) == Openers(before, g) && Deniers(files, g) == Deniers(before, g)
      {
        FileMoved(before, f, pos, g);
      }
      assert InodeOk(live, before, inodes, files[f].inode);
      OnlyInode(Used(), live, inodes, before, files[f].inode);
      InodeChange(Used(), live, inodes, before, inodes, files, files[f].inode);
    }

    // file_close: writes are allowed again before the inode is closed.
    method FileClose(f: nat)
      requires Valid() && f in files
      modifies this`files, this`inodes, this`live, freeMap.elems
      ensures Valid() && files == old(files) - {f}
      ensures var h := old(files)[f].inode;
        && h in old(inodes)
        && var inodes' := old(inodes)[h := old(inodes)[h].(denyWriteCnt := |Deniers(files, h)|)];
          Closed(inodes', old(live), old(Used()), inodes, live, Used(), h)
    {
      var h := files[f].inode;
      FileSetDeny(f, false);
      var before := files;
      assert InodeOk(live, files, inodes, h);
      FileGone(before, f, h);
      files := files - {f};
      forall g
        ensures g != h ==> Openers(files, g) == Openers(before, g)
        ensures Deniers(files, g) == Deniers(before, g)
      {
        FileGone(before, f, g);
      }
      OnlyInode(Used(), live, inodes, before, h);
      InodeChange(Used(), live, inodes, before, inodes, files, h);
      InodeClose(h);
    }
  }

  lemma LastClose(files: map<nat, File>, h: nat)
    requires |Openers(files, h)| < 1
    ensures forall f | f in files :: files[f].inode != h
  {
    forall f | f in files
      ensures files[f].inode != h
    {
      assert files[f].inode == h ==> f in Openers(files, h);
    }
  }

  lemma FreeIsUnowned(used: seq<bool>, live: map<nat, DiskInode>, inodes: map<nat, Inode>, files: map<nat, File>,
                      a: nat, n: nat)
    requires Inv(used, live, inodes, files) && Free(used, a, n)
    ensures Unowned(live, a, n)
  {
    forall s, k: nat
      ensures !(Owns(live, s, k) && a <= k < a + n)
    {
      assert LiveOk(used, live, s);
    }
  }
}
