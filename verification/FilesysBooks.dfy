/** The books of the file system between calls: every reference to an open inode is held by an open
    file, and every entry of the root directory points to its own live inode. Each call that changes
    them keeps them in order. While no search of the directory is cut short, the books are also tidy:
    every name has one entry, and an inode is on disk only while something keeps it there. */
module FilesysBooks {
  import opened Directory
  import opened InodeIO
  import L = InodeLayer

  type Disk = map<nat, DiskInode>
  type Inodes = map<nat, Inode>
  type Files = map<nat, L.File>

  const DIR_SLOTS: nat := 16

  /* The invariant */

  // Every reference to an open inode is held by an open file.
  ghost predicate CountOk(inodes: Inodes, files: Files, h: nat)
  {
    h in inodes ==> |L.Openers(files, h)| == inodes[h].openCnt
  }

  // No call opens the free map or the root directory as a file.
  ghost predicate UserInode(inodes: Inodes, h: nat)
  {
    h in inodes ==> inodes[h].sector > L.ROOT_DIR_SECTOR
  }

  // An entry in use points to a live inode that nobody removed.
  ghost predicate SlotOk(dir: seq<Entry>, live: Disk, inodes: Inodes, i: nat)
  {
    i < |dir| && dir[i].inUse ==>
      && ValidName(dir[i].name) && dir[i].sector in live && dir[i].sector > L.ROOT_DIR_SECTOR
      && forall h | h in inodes && inodes[h].removed :: inodes[h].sector != dir[i].sector
  }

  ghost predicate OneSlot(dir: seq<Entry>, i: nat, j: nat)
  {
    i < |dir| && j < |dir| && dir[i].inUse && dir[j].inUse && dir[i].sector == dir[j].sector ==> i == j
  }

  ghost predicate Book(dir: seq<Entry>, live: Disk, inodes: Inodes, files: Files)
  {
    && |dir| == DIR_SLOTS
    && (forall h {:trigger CountOk(inodes, files, h)} :: CountOk(inodes, files, h))
    && (forall h {:trigger UserInode(inodes, h)} :: UserInode(inodes, h))
    && (forall i {:trigger SlotOk(dir, live, inodes, i)} :: SlotOk(dir, live, inodes, i))
    && (forall i, j {:trigger OneSlot(dir, i, j)} :: OneSlot(dir, i, j))
  }

  // Some entry points to the inode at sector s.
  predicate Pointed(dir: seq<Entry>, s: nat) { exists i | 0 <= i < |dir| :: dir[i].inUse && dir[i].sector == s }

  // An inode stays on disk only while it has a name or an open file keeps it after its removal.
  ghost predicate Kept(dir: seq<Entry>, live: Disk, inodes: Inodes, s: nat)
  {
    s in live ==>
      || s <= L.ROOT_DIR_SECTOR || Pointed(dir, s)
      || (exists h | h in inodes :: inodes[h].removed && inodes[h].sector == s)
  }

  ghost predicate TidyBook(dir: seq<Entry>, live: Disk, inodes: Inodes)
  {
    OnceNamed(dir) && forall s {:trigger Kept(dir, live, inodes, s)} :: Kept(dir, live, inodes, s)
  }

  // The headers of the free map file and of the root directory belong to nobody else.
  ghost predicate Reserved(used: seq<bool>, live: Disk)
  {
    && |used| >= 2 && used[L.FREE_MAP_SECTOR] && used[L.ROOT_DIR_SECTOR]
    && forall s, k: nat | L.Owns(live, s, k) && k <= L.ROOT_DIR_SECTOR :: s == k
  }

  /* How each call changes the books */

  // An inode more on disk.
  lemma BookInode(dir: seq<Entry>, live: Disk, inodes: Inodes, files: Files, x: nat, d: DiskInode)
    requires Book(dir, live, inodes, files)
    ensures Book(dir, live[x := d], inodes, files)
  {
    var live' := live[x := d];
    forall i
      ensures SlotOk(dir, live', inodes, i)
    {
      assert SlotOk(dir, live, inodes, i);
    }
  }

  // An inode less, to which no entry points.
  lemma BookGone(dir: seq<Entry>, live: Disk, inodes: Inodes, files: Files, x: nat)
    requires Book(dir, live, inodes, files) && !Pointed(dir, x)
    ensures Book(dir, live - {x}, inodes, files)
  {
    var live' := live - {x};
    forall i
      ensures SlotOk(dir, live', inodes, i)
    {
      assert SlotOk(dir, live, inodes, i);
    }
  }

  // An entry for inode x, in place of whatever was in slot i.
  lemma BookEntry(dir: seq<Entry>, live: Disk, inodes: Inodes, files: Files, i: nat, name: Name, x: nat)
    requires Book(dir, live, inodes, files) && i < |dir| && ValidName(name)
    requires x in live && x > L.ROOT_DIR_SECTOR && !Pointed(dir, x)
    requires forall h | h in inodes && inodes[h].removed :: inodes[h].sector != x
    ensures Book(dir[i := Entry(x, name, true)], live, inodes, files)
  {
    var dir' := dir[i := Entry(x, name, true)];
    forall k
      ensures SlotOk(dir', live, inodes, k)
    {
      assert SlotOk(dir, live, inodes, k);
    }
    forall j, k
      ensures OneSlot(dir', j, k)
    {
      assert OneSlot(dir, j, k);
    }
  }

  lemma BookStart(live: Disk, dir: seq<Entry>)
    requires |dir| == DIR_SLOTS && forall i | 0 <= i < |dir| :: !dir[i].inUse
    requires forall s | s in live :: s <= L.ROOT_DIR_SECTOR
    ensures Book(dir, live, map[], map[]) && TidyBook(dir, live, map[])
  {}

  // A new file on inode h, opened or reopened.
  lemma BookOpen(dir: seq<Entry>, live: Disk, inodes: Inodes, files: Files, h: nat, i: Inode, f: nat)
    requires Book(dir, live, inodes, files) && f !in files
    requires h in inodes ==> i == inodes[h].(openCnt := inodes[h].openCnt + 1)
    requires h !in inodes ==>
      i.openCnt == 1 && !i.removed && i.sector > L.ROOT_DIR_SECTOR && L.Openers(files, h) == {}
    ensures Book(dir, live, inodes[h := i], files[f := L.File(h, 0, false)])
  {
    var inodes', files' := inodes[h := i], files[f := L.File(h, 0, false)];
    forall g
      ensures CountOk(inodes', files', g)
    {
      assert CountOk(inodes, files, g);
      L.FileAdded(files, f, h, g);
    }
    forall g
      ensures UserInode(inodes', g)
    {
      assert UserInode(inodes, g);
    }
    forall i
      ensures SlotOk(dir, live, inodes', i)
    {
      assert SlotOk(dir, live, inodes, i);
    }
  }

  // Only the deny-write records change.
  lemma BookFlag(dir: seq<Entry>, live: Disk, inodes: Inodes, files: Files, inodes': Inodes, files': Files)
    requires Book(dir, live, inodes, files) && inodes'.Keys == inodes.Keys
    requires forall h | h in inodes :: inodes'[h] == inodes[h].(denyWriteCnt := inodes'[h].denyWriteCnt)
    requires forall h :: L.Openers(files', h) == L.Openers(files, h)
    ensures Book(dir, live, inodes', files')
  {
    forall h
      ensures CountOk(inodes', files', h) && UserInode(inodes', h)
    {
      assert CountOk(inodes, files, h) && UserInode(inodes, h);
    }
    forall i
      ensures SlotOk(dir, live, inodes', i)
    {
      assert SlotOk(dir, live, inodes, i);
    }
  }

  lemma BookMove(dir: seq<Entry>, live: Disk, inodes: Inodes, files: Files, f: nat, pos: nat)
    requires Book(dir, live, inodes, files) && f in files
    ensures Book(dir, live, inodes, files[f := files[f].(pos := pos)])
  {
    var files' := files[f := files[f].(pos := pos)];
    forall h
      ensures CountOk(inodes, files', h)
    {
      assert CountOk(inodes, files, h);
      L.FileMoved(files, f, pos, h);
    }
  }

  // A file on h is closed, and with it one reference to h.
  lemma BookClose(dir: seq<Entry>, used: seq<bool>, live: Disk, inodes: Inodes, files: Files,
                  used': seq<bool>, live': Disk, inodes': Inodes, f: nat)
    requires Book(dir, live, inodes, files) && f in files
    requires forall g, h {:trigger L.OneInode(inodes, g, h)} :: L.OneInode(inodes, g, h)
    requires L.Closed(inodes, live, used, inodes', live', used', files[f].inode)
    ensures Book(dir, live', inodes', files - {f})
  {
    var h, files' := files[f].inode, files - {f};
    forall g
      ensures CountOk(inodes', files', g)
    {
      assert CountOk(inodes, files, g);
      L.FileGone(files, f, g);
    }
    forall g
      ensures UserInode(inodes', g)
    {
      assert UserInode(inodes, g);
    }
    forall i
      ensures SlotOk(dir, live', inodes', i)
    {
      assert SlotOk(dir, live, inodes, i);
    }
  }

  // An entry goes; its inode is marked if it is open, and leaves the disk if it is not.
  lemma BookRemove(dir: seq<Entry>, used: seq<bool>, live: Disk, inodes: Inodes, files: Files, i: nat,
                   live': Disk, inodes': Inodes)
    requires L.Inv(used, live, inodes, files) && Book(dir, live, inodes, files) && i < |dir| && dir[i].inUse
    requires Marked(inodes, inodes', dir[i].sector)
    requires live' == if L.OpenAt(inodes, dir[i].sector) then live else live - {dir[i].sector}
    ensures Book(dir[i := dir[i].(inUse := false)], live', inodes', files)
  {
    var dir' := dir[i := dir[i].(inUse := false)];
    assert SlotOk(dir, live, inodes, i);
    forall h
      ensures CountOk(inodes', files, h) && UserInode(inodes', h)
    {
      assert CountOk(inodes, files, h) && UserInode(inodes, h);
    }
    forall k
      ensures SlotOk(dir', live', inodes', k)
    {
      assert SlotOk(dir, live, inodes, k) && OneSlot(dir, k, i);
    }
    forall j, k
      ensures OneSlot(dir', j, k)
    {
      assert OneSlot(dir, j, k);
    }
  }

  /* Reserved sectors */

  lemma ReservedMore(used: seq<bool>, live: Disk, s: nat, d: DiskInode)
    requires Reserved(used, live) && L.Free(used, d.start, L.Sectors(d))
    ensures Reserved(used, live[s := d])
  {
    var live' := live[s := d];
    forall t, k: nat | L.Owns(live', t, k) && k <= L.ROOT_DIR_SECTOR
      ensures t == k
    {
      assert t != s ==> L.Owns(live, t, k);
    }
  }

  lemma ReservedLess(used: seq<bool>, live: Disk, used': seq<bool>, s: nat)
    requires Reserved(used, live) && s > L.ROOT_DIR_SECTOR && |used'| == |used|
    requires forall k | 0 <= k < |used| && used[k] && !L.Owns(live, s, k) :: used'[k]
    ensures Reserved(used', live - {s})
  {
    var live' := live - {s};
    forall t, k: nat | L.Owns(live', t, k) && k <= L.ROOT_DIR_SECTOR
      ensures t == k
    {
      assert L.Owns(live, t, k);
    }
  }

  lemma ReservedUsed(used: seq<bool>, used': seq<bool>, live: Disk)
    requires Reserved(used, live) && |used'| == |used| && forall k | 0 <= k < |used| && used[k] :: used'[k]
    ensures Reserved(used', live)
  {}

  lemma ReservedBack(used: seq<bool>, used': seq<bool>, live: Disk, x: nat)
    requires Reserved(used, live) && x > L.ROOT_DIR_SECTOR && |used'| == |used|
    requires forall k | 0 <= k < |used| && k != x :: used'[k] == used[k]
    ensures Reserved(used', live)
  {}

  /* Facts about single entries */

  lemma SlotFacts(dir: seq<Entry>, live: Disk, inodes: Inodes, files: Files, i: nat)
    requires Book(dir, live, inodes, files) && i < |dir| && dir[i].inUse
    ensures dir[i].sector in live && dir[i].sector > L.ROOT_DIR_SECTOR
  {
    assert SlotOk(dir, live, inodes, i);
  }

  lemma NewOpeners(used: seq<bool>, live: Disk, inodes: Inodes, files: Files, h: nat)
    requires L.Inv(used, live, inodes, files)
    ensures h in inodes ==> |L.Openers(files, h)| <= inodes[h].openCnt && inodes[h].openCnt >= 1
    ensures h !in inodes ==> L.Openers(files, h) == {}
  {
    assert L.InodeOk(live, files, inodes, h);
  }

  lemma SameOpeners(files: Files, f: nat, deny: bool)
    requires f in files
    ensures forall h :: L.Openers(files[f := files[f].(denyWrite := deny)], h) == L.Openers(files, h)
  {
    forall h
      ensures L.Openers(files[f := files[f].(denyWrite := deny)], h) == L.Openers(files, h)
    {
      if files[f].denyWrite != deny {
        L.FileFlagged(files, f, deny, h);
      } else {
        assert files[f := files[f].(denyWrite := deny)] == files;
      }
    }
  }

  // file_close: the file first allows writes, then gives up its reference.
  lemma CloseBooks(dir: seq<Entry>, used: seq<bool>, live: Disk, inodes: Inodes, files: Files,
                   used': seq<bool>, live': Disk, inodes': Inodes, f: nat)
    requires L.Inv(used, live, inodes, files) && Book(dir, live, inodes, files)
    requires Reserved(used, live) && f in files && files[f].inode in inodes
    requires var h := files[f].inode;
      var inodes1 := inodes[h := inodes[h].(denyWriteCnt := |L.Deniers(files - {f}, h)|)];
      L.Closed(inodes1, live, used, inodes', live', used', h)
    ensures Book(dir, live', inodes', files - {f}) && Reserved(used', live')
    ensures inodes[files[f].inode].openCnt == |L.Openers(files - {f}, files[f].inode)| + 1
  {
    var h := files[f].inode;
    var inodes1 := inodes[h := inodes[h].(denyWriteCnt := |L.Deniers(files - {f}, h)|)];
    BookFlag(dir, live, inodes, files, inodes1, files);
    forall g, k
      ensures L.OneInode(inodes1, g, k)
    {
      assert L.OneInode(inodes, g, k);
    }
    BookClose(dir, used, live, inodes1, files, used', live', inodes', f);
    assert CountOk(inodes, files, h) && UserInode(inodes, h);
    L.FileGone(files, f, h);
    assert |L.Openers(files - {f}, h)| == |L.Openers(files, h)| - 1;
    if inodes[h].openCnt == 1 && inodes[h].removed {
      ReservedLess(used, live, used', inodes[h].sector);
    }
  }

  /* What the books mean */

  /** The header and the extent of one live inode share no sector with each other or with another
      live inode, and all are marked used. */
  lemma ExtentsDisjoint(used: seq<bool>, live: Disk, inodes: Inodes, files: Files, s: nat, t: nat, k: nat)
    requires L.Inv(used, live, inodes, files) && s in live && t in live && L.Owns(live, s, k)
    ensures k < |used| && used[k]
    ensures s != t ==> !L.Owns(live, t, k)
    ensures k == s <==> !(live[s].start <= k < live[s].start + L.Sectors(live[s]))
  {
    assert L.LiveOk(used, live, s) && L.Apart(live, s, t);
  }

  /** Between calls open_cnt is the number of open files on the inode and deny_write_cnt the number of
      those that deny writes, so that writes are denied exactly while some open file denies them. */
  lemma CountsExact(dir: seq<Entry>, used: seq<bool>, live: Disk, inodes: Inodes, files: Files, h: nat)
    requires L.Inv(used, live, inodes, files) && Book(dir, live, inodes, files) && h in inodes
    ensures inodes[h].openCnt == |L.Openers(files, h)| >= 1
    ensures inodes[h].denyWriteCnt == |L.Deniers(files, h)| <= inodes[h].openCnt
    ensures inodes[h].denyWriteCnt > 0 <==> exists f | f in files :: files[f].inode == h && files[f].denyWrite
    ensures forall g | g in inodes && inodes[g].sector == inodes[h].sector :: g == h
  {
    assert CountOk(inodes, files, h) && L.InodeOk(live, files, inodes, h);
    L.FewerDeniers(files, h);
    L.OnlyInode(used, live, inodes, files, h);
    if L.Deniers(files, h) != {} {
      var f :| f in L.Deniers(files, h);
    } else {
      assert forall f | f in files && files[f].inode == h && files[f].denyWrite :: f in L.Deniers(files, h);
    }
  }

  /** When the books are tidy, an inode without a name and without an open file is not on disk any more. In any
      case a name never points to a removed inode, nor two entries to one inode. */
  lemma NoOrphans(dir: seq<Entry>, used: seq<bool>, live: Disk, inodes: Inodes, files: Files, s: nat)
    requires L.Inv(used, live, inodes, files) && Book(dir, live, inodes, files) && s > L.ROOT_DIR_SECTOR
    ensures TidyBook(dir, live, inodes) ==>
      (s in live <==>
         Pointed(dir, s) ||
         exists f | f in files :: inodes[files[f].inode].removed && inodes[files[f].inode].sector == s)
    ensures Pointed(dir, s) ==>
      && s in live
      && forall f | f in files && inodes[files[f].inode].sector == s :: !inodes[files[f].inode].removed
    ensures forall i, j | 0 <= i < |dir| && 0 <= j < |dir| && dir[i].inUse && dir[j].inUse ::
      dir[i].sector == dir[j].sector ==> i == j
  {
    if Pointed(dir, s) {
      var i :| 0 <= i < |dir| && dir[i].inUse && dir[i].sector == s;
      assert SlotOk(dir, live, inodes, i);
    }
    forall i, j | 0 <= i < |dir| && 0 <= j < |dir| && dir[i].inUse && dir[j].inUse
      ensures dir[i].sector == dir[j].sector ==> i == j
    {
      assert OneSlot(dir, i, j);
    }
    forall f | f in files
      ensures inodes[files[f].inode].sector in live
    {
      assert L.InodeOk(live, files, inodes, files[f].inode);
    }
    if TidyBook(dir, live, inodes) && s in live && !Pointed(dir, s) {
      assert Kept(dir, live, inodes, s);
      var h :| h in inodes && inodes[h].removed && inodes[h].sector == s;
      assert CountOk(inodes, files, h) && L.InodeOk(live, files, inodes, h);
      var f :| f in L.Openers(files, h);
      assert inodes[files[f].inode].sector == s;
    }
  }

  /* Opening and closing an inode within one call */

  // Of the open inodes, exactly the one at sector x becomes removed.
  ghost predicate Marked(inodes: Inodes, inodes': Inodes, x: nat)
  {
    && inodes'.Keys == inodes.Keys
    && forall h | h in inodes :: inodes'[h] == inodes[h].(removed := inodes[h].removed || inodes[h].sector == x)
  }

  // Exactly the sectors of the inode at x became free.
  ghost predicate Freed(used: seq<bool>, live: Disk, used': seq<bool>, x: nat)
  {
    |used'| == |used| && forall k | 0 <= k < |used| :: used'[k] == (used[k] && !L.Owns(live, x, k))
  }

  lemma ReservedFreed(used: seq<bool>, live: Disk, used': seq<bool>, x: nat)
    requires Reserved(used, live) && x > L.ROOT_DIR_SECTOR && Freed(used, live, used', x)
    ensures Reserved(used', live - {x})
  {
    ReservedLess(used, live, used', x);
  }

  // An inode is opened, perhaps marked, and closed again.
  lemma OpenThenClose(used: seq<bool>, live: Disk, inodes: Inodes, files: Files, x: nat, h: nat, inodes1: Inodes,
                      mark: bool, used': seq<bool>, live': Disk, inodes': Inodes)
    requires L.Inv(used, live, inodes, files) && x in live
    requires L.Referenced(inodes, inodes1, x, live[x], h) && h in inodes1
    requires var inodes2 := if mark then inodes1[h := inodes1[h].(removed := true)] else inodes1;
      L.Closed(inodes2, live, used, inodes', live', used', h)
    ensures !mark ==> inodes' == inodes && live' == live && used' == used
    ensures mark ==> Marked(inodes, inodes', x)
    ensures mark && L.OpenAt(inodes, x) ==> live' == live && used' == used
    ensures mark && !L.OpenAt(inodes, x) ==> live' == live - {x} && Freed(used, live, used', x)
  {
    if h in inodes {
      assert L.InodeOk(live, files, inodes, h);
      L.OnlyInode(used, live, inodes, files, h);
    }
  }
}
