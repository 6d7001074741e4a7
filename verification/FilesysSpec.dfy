/** What the file system calls promise: each call as a relation between the states before and after
    it, a run as a chain of such steps, and what follows for whole runs. */
module FilesysSpec {
  import opened Directory
  import opened FilesysBooks
  import opened InodeIO
  import opened Options
  import Bm = Bitmap
  import L = InodeLayer

  /** What the environment decides during a call: whether the root directory can be opened; whether the
      allocations of an inode, of a file and of the bounce buffer of a read or write succeed, and at which
      address; whether the free map is written each time; and how many bounce buffers each search of the root
      directory gets before an allocation fails, and whether the entry that is written gets one. */
  datatype Env = Env(rootOk: bool, inodeOk: bool, inodeAt: nat, fileOk: bool, fileAt: nat, bounceOk: bool,
                     mapOk: bool, mapOk2: bool, lookupReads: nat, scanReads: nat, slotOk: bool)

  datatype Call =
    | Create(name: Name, initialSize: Offset)
    | Open(name: Name)
    | Reopen(file: nat)
    | Read(file: nat, size: int)
    | Write(file: nat, data: seq<Byte>)
    | Seek(file: nat, newPos: nat)
    | SetDeny(file: nat, deny: bool)
    | Close(file: nat)
    | Remove(name: Name)

  datatype Reply =
    | Done(ok: bool)
    | Handle(f: Option<nat>)
    | Bytes(data: seq<Byte>)
    | Count(n: nat)
    | Refused

  /* States */

  /** What a client of the file system can observe, and what of it the layers below keep. The bytes of the root
      directory are here as its entries; what the free map file holds is not part of it. */
  datatype State = State(dir: seq<Entry>, used: seq<bool>, live: Disk, inodes: Inodes, files: Files,
                         contents: map<nat, seq<Byte>>)

  // The contents of the files: of all inodes but those of the free map and the root directory.
  ghost function UserOnly(contents: map<nat, seq<Byte>>): map<nat, seq<Byte>>
  {
    contents - {L.FREE_MAP_SECTOR, L.ROOT_DIR_SECTOR}
  }

  // The root directory is on disk, with room for 16 entries of 20 bytes.
  ghost predicate Formatted(live: Disk) { L.ROOT_DIR_SECTOR in live && live[L.ROOT_DIR_SECTOR].length == 320 }

  // A disk that was just formatted: no names, no files.
  ghost predicate Fresh(s: State)
  {
    && |s.dir| == DIR_SLOTS && (forall i | 0 <= i < |s.dir| :: !s.dir[i].inUse)
    && s.live.Keys == {L.FREE_MAP_SECTOR, L.ROOT_DIR_SECTOR}
    && s.inodes == map[] && s.files == map[] && s.contents == map[]
  }

  ghost predicate Good(s: State)
  {
    && L.Inv(s.used, s.live, s.inodes, s.files) && Book(s.dir, s.live, s.inodes, s.files)
    && Reserved(s.used, s.live)
    && s.contents.Keys == s.live.Keys - {L.FREE_MAP_SECTOR, L.ROOT_DIR_SECTOR}
    && forall x | x in s.contents :: |s.contents[x]| == s.live[x].length
  }

  // A first-fit allocation of m sectors and one of n after it both find a group.
  ghost predicate TwoFit(used: seq<bool>, m: nat, n: nat)
  {
    exists a: nat :: L.First(used, a, m) && L.HasRoom(Bm.WithGroup(used, a, m, true), n)
  }

  // The new inode can be made: its header sector is allocated, and then its data sectors.
  ghost predicate CanMake(used: seq<bool>, size: nat, e: Env)
  {
    e.rootOk && e.mapOk && e.inodeOk && e.mapOk2 && TwoFit(used, 1, BytesToSectors(size))
  }

  // Exactly n clear sectors from a on were marked.
  predicate Leak(used: seq<bool>, used': seq<bool>, a: nat, n: nat)
  {
    && L.Free(used, a, n) && |used'| == |used|
    && forall k | 0 <= k < |used| :: used'[k] == (used[k] || a <= k < a + n)
  }

  // dir_add gets to enter the name.
  predicate CanEnter(dir: seq<Entry>, name: Name, e: Env)
  {
    Enters(dir, name, e.lookupReads, e.scanReads, e.slotOk)
  }

  /* What each call does, from state s to state t */

  /** filesys_create: a new file of zeros, with an entry in the slot where the search for a free one ended. When
      entering the name fails after the inode was made, only the header sector is given back: the data sectors
      stay marked, and no inode owns them. */
  ghost predicate Created(s: State, t: State, name: Name, size: nat, e: Env, success: bool)
  {
    && success == (CanMake(s.used, size, e) && CanEnter(s.dir, name, e))
    && t.inodes == s.inodes && t.files == s.files
    && if success then
         var i := Target(s.dir, e.scanReads);
         i < |t.dir| && NewFile(s, t, i, name, t.dir[i].sector, size)
       else
         && t.dir == s.dir && t.live == s.live && t.contents == s.contents
         && if CanMake(s.used, size, e) then exists a: nat :: Leak(s.used, t.used, a, BytesToSectors(size))
            else t.used == s.used
  }

  // The inode of the new file is on sectors that were free.
  ghost predicate NewFile(s: State, t: State, i: nat, name: Name, x: nat, size: nat)
  {
    && i < |s.dir| && t.dir == s.dir[i := Entry(x, name, true)] && x !in s.live && x > L.ROOT_DIR_SECTOR
    && x in t.live && t.live == s.live[x := t.live[x]] && t.live[x].length == size
    && t.contents == s.contents[x := Zeros(size)]
    && |t.used| == |s.used| && (forall k | 0 <= k < |t.used| :: t.used[k] == (s.used[k] || L.Owns(t.live, x, k)))
    && forall k: nat | L.Owns(t.live, x, k) :: k < |s.used| && !s.used[k]
  }

  /** filesys_open: a file at position zero on the inode of the first entry by that name, if the lookup gets
      that far. A call that fails changes nothing. */
  ghost predicate Opened(s: State, t: State, name: Name, e: Env, f: Option<nat>)
  {
    var i := Lookup(s.dir, name, e.lookupReads);
    && t == s.(inodes := t.inodes, files := t.files)
    && (f.Some? <==> e.rootOk && i.Some? && e.fileOk && (e.inodeOk || L.OpenAt(s.inodes, s.dir[i.value].sector)))
    && (f.None? ==> t == s)
    && (f.Some? ==> f.value == e.fileAt && f.value in t.files && OpenedOn(s, t, s.dir[i.value].sector, f.value))
  }

  ghost predicate OpenedOn(s: State, t: State, x: nat, f: nat)
    requires f in t.files
  {
    var h := t.files[f].inode;
    && t.files == s.files[f := L.File(h, 0, false)]
    && x in s.live && L.Referenced(s.inodes, t.inodes, x, s.live[x], h)
  }

  // file_reopen: a second file on the same inode.
  ghost predicate Reopened(s: State, t: State, file: nat, e: Env, f: Option<nat>)
  {
    && file in s.files && s.files[file].inode in s.inodes
    && var h := s.files[file].inode;
    if e.fileOk then
      && f == Some(e.fileAt)
      && t == s.(files := s.files[e.fileAt := L.File(h, 0, false)],
                 inodes := s.inodes[h := s.inodes[h].(openCnt := s.inodes[h].openCnt + 1)])
    else
      f == None && t == s
  }

  // The position of one file changes.
  ghost predicate Moved(s: State, t: State, file: nat, pos: nat)
  {
    file in s.files && t == s.(files := s.files[file := s.files[file].(pos := pos)])
  }

  // The sector of the inode behind an open file.
  ghost function SectorOf(s: State, file: nat): nat
    requires file in s.files && s.files[file].inode in s.inodes
  {
    s.inodes[s.files[file].inode].sector
  }

  // file_read: the bytes of the file from the position on.
  ghost predicate HasRead(s: State, t: State, file: nat, size: int, bounceOk: bool, data: seq<Byte>)
  {
    && file in s.files && s.files[file].inode in s.inodes
    && var x, pos := SectorOf(s, file), s.files[file].pos;
    && x in s.contents
    && |data| == Transferred(|s.contents[x]|, size, pos, bounceOk)
    && (data == [] || (pos + |data| <= |s.contents[x]| && data == s.contents[x][pos..pos + |data|]))
    && Moved(s, t, file, pos + |data|)
  }

  // file_write: the bytes from the position on, in this file and nowhere else, unless writes are denied.
  ghost predicate Written(s: State, t: State, file: nat, data: seq<Byte>, size: int, bounceOk: bool, n: nat)
  {
    && file in s.files && s.files[file].inode in s.inodes
    && var x, pos := SectorOf(s, file), s.files[file].pos;
    && x in s.contents && n <= |data|
    && n == (if s.inodes[s.files[file].inode].denyWriteCnt != 0 then 0
             else Transferred(|s.contents[x]|, size, pos, bounceOk))
    && (n == 0 || pos + n <= |s.contents[x]|)
    && t == s.(files := s.files[file := s.files[file].(pos := pos + n)],
               contents := s.contents[x := Spliced(s.contents[x], pos, data[..n])])
  }

  // file_deny_write and file_allow_write
  ghost predicate Denied(s: State, t: State, file: nat, deny: bool)
  {
    && file in s.files && s.files[file].inode in s.inodes
    && var h, files := s.files[file].inode, s.files[file := s.files[file].(denyWrite := deny)];
    t == s.(files := files, inodes := s.inodes[h := s.inodes[h].(denyWriteCnt := |L.Deniers(files, h)|)])
  }

  /** file_close: the sectors of a removed inode become free when its last file is closed,
      and at no other close does a sector become free. */
  ghost predicate HasClosed(s: State, t: State, file: nat)
  {
    && file in s.files && s.files[file].inode in s.inodes
    && var h := s.files[file].inode;
    && t.dir == s.dir && t.files == s.files - {file}
    && (h in t.inodes <==> L.Openers(t.files, h) != {})
    && (forall g | g != h :: (g in t.inodes <==> g in s.inodes) && (g in t.inodes ==> t.inodes[g] == s.inodes[g]))
    && (h in t.inodes ==>
          t.inodes[h] == s.inodes[h].(openCnt := |L.Openers(t.files, h)|, denyWriteCnt := |L.Deniers(t.files, h)|))
    && if L.Openers(t.files, h) == {} && s.inodes[h].removed then
         && t.live == s.live - {s.inodes[h].sector} && t.contents == s.contents - {s.inodes[h].sector}
         && Freed(s.used, s.live, t.used, s.inodes[h].sector)
       else
         t.live == s.live && t.used == s.used && t.contents == s.contents
  }

  /** filesys_remove: the first entry by that name goes at once, if the lookup gets that far. The inode, its
      bytes and its sectors go at once too if no file has it open; otherwise it is marked, and its sectors
      stay in use. A call that fails changes nothing. */
  ghost predicate HasRemoved(s: State, t: State, name: Name, e: Env, success: bool)
  {
    var found := Lookup(s.dir, name, e.lookupReads);
    && success == (e.rootOk && found.Some? && e.slotOk &&
                   (e.inodeOk || L.OpenAt(s.inodes, s.dir[found.value].sector)))
    && if !success then t == s else EntryGone(s, t, found.value)
  }

  // The entry in slot i goes, and its inode with it if no file has it open.
  ghost predicate EntryGone(s: State, t: State, i: nat)
  {
    && i < |s.dir| && t.dir == s.dir[i := s.dir[i].(inUse := false)] && t.files == s.files
    && var x := s.dir[i].sector;
    && Marked(s.inodes, t.inodes, x)
    && if L.OpenAt(s.inodes, x) then
         t.live == s.live && t.used == s.used && t.contents == s.contents
       else
         t.live == s.live - {x} && t.contents == s.contents - {x} && Freed(s.used, s.live, t.used, x)
  }

  /* Runs */

  // A file that is not open is not passed in, and memory in use is not handed out again.
  predicate Possible(inodes: Inodes, files: Files, c: Call, e: Env)
  {
    && (c.Reopen? || c.Read? || c.Write? || c.Seek? || c.SetDeny? || c.Close? ==> c.file in files)
    && e.inodeAt !in inodes && e.fileAt !in files
  }

  ghost predicate Step(s: State, t: State, c: Call, e: Env, r: Reply)
  {
    if !Possible(s.inodes, s.files, c, e) then
      r == Refused && t == s
    else
      match c
      case Create(name, size) => r.Done? && Created(s, t, name, size, e, r.ok)
      case Open(name) => r.Handle? && Opened(s, t, name, e, r.f)
      case Reopen(file) => r.Handle? && Reopened(s, t, file, e, r.f)
      case Read(file, size) => r.Bytes? && HasRead(s, t, file, size, e.bounceOk, r.data)
      case Write(file, data) => r.Count? && Written(s, t, file, data, |data|, e.bounceOk, r.n)
      case Seek(file, newPos) => r == Done(true) && Moved(s, t, file, newPos)
      case SetDeny(file, deny) => r == Done(true) && Denied(s, t, file, deny)
      case Close(file) => r == Done(true) && HasClosed(s, t, file)
      case Remove(name) => r.Done? && HasRemoved(s, t, name, e, r.ok)
  }

  // A run: what the state is before the first and after every call, and what each call replies.
  ghost predicate Behaves(trace: seq<State>, calls: seq<(Call, Env)>, replies: seq<Reply>)
  {
    && |trace| == |calls| + 1 && |replies| == |calls|
    && (forall i | 0 <= i <= |calls| :: Good(trace[i]))
    && forall i | 0 <= i < |calls| :: Step(trace[i], trace[i + 1], calls[i].0, calls[i].1, replies[i])
  }

  /* What the specification means */

  lemma FileInode(s: State, file: nat)
    requires Good(s) && file in s.files
    ensures s.files[file].inode in s.inodes && SectorOf(s, file) in s.contents && SectorOf(s, file) in s.live
    ensures s.live[SectorOf(s, file)] == s.inodes[s.files[file].inode].data && SectorOf(s, file) > L.ROOT_DIR_SECTOR
  {
    var h := s.files[file].inode;
    assert L.InodeOk(s.live, s.files, s.inodes, h) && UserInode(s.inodes, h);
  }

  lemma OneFirst(used: seq<bool>, a: nat, m: nat, n: nat)
    requires L.First(used, a, m)
    ensures TwoFit(used, m, n) <==> L.HasRoom(Bm.WithGroup(used, a, m, true), n)
  {
    if b: nat :| L.First(used, b, m) && L.HasRoom(Bm.WithGroup(used, b, m, true), n) {
      assert a == b;
    }
  }

  lemma NoRoom(used: seq<bool>, m: nat, n: nat)
    ensures TwoFit(used, m, n) ==> L.HasRoom(used, m)
  {}

  /** A failed filesys_create leaves the free map as it was, unless the inode could be made, the size is not
      zero, and the name could not be entered: it is invalid, an entry by that name is read, no slot is free
      among those that are read and none is beyond them, or the slot gets no bounce buffer. */
  lemma CreateLeaksIff(s: State, t: State, name: Name, size: nat, e: Env, success: bool)
    requires Created(s, t, name, size, e, success)
    ensures !success && t.used != s.used <==>
      && CanMake(s.used, size, e) && size > 0
      && (!ValidName(name) || Lookup(s.dir, name, e.lookupReads).Some? || !e.slotOk
          || (e.scanReads >= |s.dir| && forall i | 0 <= i < |s.dir| :: s.dir[i].inUse))
  {
    hide CanMake;
    TargetInside(s.dir, e.scanReads);
    if !success && CanMake(s.used, size, e) {
      var n := BytesToSectors(size);
      var a: nat :| Leak(s.used, t.used, a, n);
      if n > 0 {
        assert t.used[a] && !s.used[a];
      } else {
        assert t.used == s.used;
      }
    }
  }

  /** When filesys_create succeeds: the inode can be made, the name has 1 to 14 bytes, no entry in use that is read
      has it, and there is a slot to write, free or the one where the search was cut short, and memory to write it. */
  lemma CreateSucceedsIff(s: State, t: State, name: Name, size: nat, e: Env, success: bool)
    requires Created(s, t, name, size, e, success)
    ensures success <==>
      && CanMake(s.used, size, e) && 1 <= |name| <= 14 && e.slotOk
      && (forall i | 0 <= i < |s.dir| && i < e.lookupReads :: !(s.dir[i].inUse && s.dir[i].name == name))
      && (e.scanReads < |s.dir| || exists i | 0 <= i < |s.dir| :: !s.dir[i].inUse)
  {
    hide CanMake;
    TargetInside(s.dir, e.scanReads);
    assert Lookup(s.dir, name, e.lookupReads).None? <==>
      forall i | 0 <= i < |s.dir| && i < e.lookupReads :: !(s.dir[i].inUse && s.dir[i].name == name);
  }

  // The search ends outside the directory only when it has read every slot and none is free.
  lemma TargetInside(slots: seq<Entry>, scanReads: nat)
    ensures Target(slots, scanReads) == |slots| <==>
      scanReads >= |slots| && forall i | 0 <= i < |slots| :: slots[i].inUse
  {}

  /** So creating a file under a name that is in use and read, or that is empty or too long, or when all 16 slots
      are in use and read, fails and marks sectors that belong to no inode. */
  lemma CreateAgainLeaks(s: State, t: State, name: Name, size: nat, e: Env, success: bool)
    requires Good(s) && Created(s, t, name, size, e, success)
    requires !ValidName(name) || Lookup(s.dir, name, e.lookupReads).Some?
      || (e.scanReads >= |s.dir| && forall i | 0 <= i < |s.dir| :: s.dir[i].inUse)
    requires CanMake(s.used, size, e) && size > 0
    ensures !success && t.used != s.used
    ensures exists a: nat :: Leak(s.used, t.used, a, BytesToSectors(size)) && L.Unowned(t.live, a, BytesToSectors(size))
  {
    CreateLeaksIff(s, t, name, size, e, success);
    var a: nat :| Leak(s.used, t.used, a, BytesToSectors(size));
    L.FreeIsUnowned(s.used, s.live, s.inodes, s.files, a, BytesToSectors(size));
  }

  lemma OneFree(used: seq<bool>)
    ensures L.HasRoom(used, 1) <==> exists c | 0 <= c < |used| :: !used[c]
  {
    if c :| 0 <= c < |used| && !used[c] {
      assert L.Free(used, c, 1);
    }
    if c: nat :| c <= |used| && L.Free(used, c, 1) {
      assert !used[c];
    }
  }

  /** On a disk where only the two reserved sectors are in use, formatting needs room for the free map, one
      sector for the root directory, and no more. */
  lemma FormatRoom(used: seq<bool>, m: nat)
    requires |used| >= 2 && forall k | 0 <= k < |used| :: used[k] == (k <= L.ROOT_DIR_SECTOR)
    ensures TwoFit(used, m, 1) <==> |used| >= m + 3
  {
    var a := if m == 0 then 0 else 2;
    assert used[0] && used[1];
    if a + m <= |used| {
      assert L.First(used, a, m);
      Bm.FlipBack(used, a, m, false);
      OneFirst(used, a, m, 1);
      var taken := Bm.WithGroup(used, a, m, true);
      OneFree(taken);
      assert |used| >= m + 3 ==> !taken[m + 2];
    } else {
      assert forall b: nat :: !L.Free(used, b, m);
    }
  }

  /** A sector in use becomes free only when the inode that owns it goes: at the last close of a removed file,
      or at the removal of a file that is not open. */
  lemma SectorFreed(s: State, t: State, c: Call, e: Env, r: Reply, k: nat)
    requires Good(s) && Step(s, t, c, e, r)
    requires k < |s.used| && s.used[k] && !(k < |t.used| && t.used[k])
    ensures exists x: nat :: L.Owns(s.live, x, k) && x !in t.live && (LastCloseOf(s, t, c, x) || RemovalOf(s, c, e, x))
  {
    match c
    case Close(file) =>
      assert L.Owns(s.live, SectorOf(s, file), k) && LastCloseOf(s, t, c, SectorOf(s, file));
    case Remove(name) =>
      var x := s.dir[Lookup(s.dir, name, e.lookupReads).value].sector;
      assert L.Owns(s.live, x, k) && RemovalOf(s, c, e, x);
    case _ =>
  }

  ghost predicate LastCloseOf(s: State, t: State, c: Call, x: nat)
  {
    && c.Close? && c.file in s.files && s.files[c.file].inode in s.inodes
    && SectorOf(s, c.file) == x && s.inodes[s.files[c.file].inode].removed
    && L.Openers(t.files, s.files[c.file].inode) == {}
  }

  ghost predicate RemovalOf(s: State, c: Call, e: Env, x: nat)
  {
    c.Remove? &&
    var i := Lookup(s.dir, c.name, e.lookupReads);
    i.Some? && s.dir[i.value].sector == x && !L.OpenAt(s.inodes, x)
  }

  // Sector k is in use, and no inode owns it.
  ghost predicate LostSector(s: State, k: nat) { k < |s.used| && s.used[k] && L.Unowned(s.live, k, 1) }

  /** Sectors that a failed filesys_create left behind stay marked for good: a sector in use that no inode owns
      never becomes free and never gets an owner, whatever is called. */
  lemma LostStays(s: State, t: State, c: Call, e: Env, r: Reply, k: nat)
    requires Good(s) && Step(s, t, c, e, r) && LostSector(s, k)
    ensures LostSector(t, k)
  {
    hide CanMake, Freed, L.Inv, Book;
    forall x: nat
      ensures !L.Owns(s.live, x, k)
    {
      NotOwner(s.live, x, k);
    }
    if !(k < |t.used| && t.used[k]) {
      SectorFreed(s, t, c, e, r, k);
    }
    forall x: nat
      ensures !L.Owns(t.live, x, k)
    {
      assert !L.Owns(s.live, x, k);
    }
  }

  lemma NotOwner(live: Disk, x: nat, k: nat)
    requires L.Unowned(live, k, 1)
    ensures !L.Owns(live, x, k)
  {}

  lemma {:induction false} LostForGood(trace: seq<State>, calls: seq<(Call, Env)>, replies: seq<Reply>, i: nat, j: nat,
                                       k: nat)
    requires Behaves(trace, calls, replies) && i <= j <= |calls|
    requires LostSector(trace[i], k)
    ensures LostSector(trace[j], k)
    decreases j - i
  {
    hide Good, Step, LostSector;
    if i < j {
      LostForGood(trace, calls, replies, i, j - 1, k);
      LostStays(trace[j - 1], trace[j], calls[j - 1].0, calls[j - 1].1, replies[j - 1], k);
    }
  }

  // Sectors [a, a + n) were free before the call, and are in use without an owner in a later state.
  ghost predicate LostGroup(s: State, t: State, a: nat, n: nat)
  {
    && n > 0 && L.Free(s.used, a, n)
    && forall k: nat | a <= k < a + n :: LostSector(t, k)
  }

  /** What a failed filesys_create leaves marked stays marked in every later state of the run, and no inode ever
      owns it. */
  lemma LeakedForGood(trace: seq<State>, calls: seq<(Call, Env)>, replies: seq<Reply>, i: nat, j: nat)
    requires Behaves(trace, calls, replies) && i < j <= |calls|
    requires var c, e, s := calls[i].0, calls[i].1, trace[i];
      && c.Create? && Possible(s.inodes, s.files, c, e) && CanMake(s.used, c.initialSize, e)
      && c.initialSize > 0 && !CanEnter(s.dir, c.name, e)
    ensures replies[i] == Done(false)
    ensures exists a: nat :: LostGroup(trace[i], trace[j], a, BytesToSectors(calls[i].0.initialSize))
  {
    hide Good, CanMake, CanEnter, L.Unowned;
    var c, e, s, t := calls[i].0, calls[i].1, trace[i], trace[i + 1];
    var n := BytesToSectors(c.initialSize);
    var a: nat :| Leak(s.used, t.used, a, n);
    assert n > 0 && L.Free(s.used, a, n);
    FreeInGood(s, a, n);
    hide L.Free;
    forall k: nat | a <= k < a + n
      ensures LostSector(trace[j], k)
    {
      OneUnowned(s.live, a, n, k);
      assert LostSector(t, k);
      LostForGood(trace, calls, replies, i + 1, j, k);
    }
    assert LostGroup(s, trace[j], a, n);
  }

  lemma FreeInGood(s: State, a: nat, n: nat)
    requires Good(s) && L.Free(s.used, a, n)
    ensures L.Unowned(s.live, a, n)
  {
    L.FreeIsUnowned(s.used, s.live, s.inodes, s.files, a, n);
  }

  lemma OneUnowned(live: Disk, a: nat, n: nat, k: nat)
    requires L.Unowned(live, a, n) && a <= k < a + n
    ensures L.Unowned(live, k, 1)
  {}

  // The call writes to a file on the inode at x.
  ghost predicate WritesTo(s: State, c: Call, x: nat)
  {
    c.Write? && c.file in s.files && s.files[c.file].inode in s.inodes && SectorOf(s, c.file) == x
  }

  // A file stays what it is until it is closed itself.
  lemma HandleStays(s: State, t: State, c: Call, e: Env, r: Reply, g: nat)
    requires Good(s) && Step(s, t, c, e, r) && g in s.files && c != Close(g)
    ensures g in t.files && t.files[g].inode == s.files[g].inode
    ensures s.files[g].inode in s.inodes && s.files[g].inode in t.inodes
    ensures SectorOf(t, g) == SectorOf(s, g)
  {
    FileInode(s, g);
    if c.Close? && c.file in s.files && s.files[c.file].inode == s.files[g].inode {
      assert Possible(s.inodes, s.files, c, e) ==> g in L.Openers(t.files, s.files[g].inode);
    }
  }

  /** While a file stays open, the bytes of its inode change only by writes to that inode, whatever else is
      created, opened, written, closed or removed. */
  lemma ContentStays(s: State, t: State, c: Call, e: Env, r: Reply, g: nat)
    requires Good(s) && Good(t) && Step(s, t, c, e, r) && g in s.files && c != Close(g)
    ensures g in t.files && s.files[g].inode in s.inodes && t.files[g].inode in t.inodes
    ensures var x := SectorOf(s, g);
      x in s.contents && x in t.contents && (WritesTo(s, c, x) || t.contents[x] == s.contents[x])
  {
    hide Good;
    HandleStays(s, t, c, e, r, g);
    FileInode(s, g);
    FileInode(t, g);
  }

  lemma {:induction false} UnwrittenStays(trace: seq<State>, calls: seq<(Call, Env)>, replies: seq<Reply>,
                                          i: nat, j: nat, g: nat)
    requires Behaves(trace, calls, replies) && i <= j <= |calls|
    requires g in trace[i].files && trace[i].files[g].inode in trace[i].inodes
    requires forall k | i <= k < j :: calls[k].0 != Close(g) && !WritesTo(trace[k], calls[k].0, SectorOf(trace[i], g))
    ensures g in trace[j].files && trace[j].files[g].inode in trace[j].inodes
    ensures var x := SectorOf(trace[i], g);
      x == SectorOf(trace[j], g) && x in trace[i].contents && x in trace[j].contents
      && trace[j].contents[x] == trace[i].contents[x]
    decreases j - i
  {
    hide Good, Step;
    FileInodeAt(trace, calls, replies, i, g);
    if i < j {
      UnwrittenStays(trace, calls, replies, i, j - 1, g);
      var s, t, c, e, r := trace[j - 1], trace[j], calls[j - 1].0, calls[j - 1].1, replies[j - 1];
      assert Good(s) && Good(t) && Step(s, t, c, e, r);
      HandleStays(s, t, c, e, r, g);
      ContentStays(s, t, c, e, r, g);
    }
  }

  lemma FileInodeAt(trace: seq<State>, calls: seq<(Call, Env)>, replies: seq<Reply>, i: nat, g: nat)
    requires Behaves(trace, calls, replies) && i <= |calls| && g in trace[i].files
    ensures trace[i].files[g].inode in trace[i].inodes && SectorOf(trace[i], g) in trace[i].contents
  {
    FileInode(trace[i], g);
  }

  /** What one file wrote, every other file on the same inode reads, through any calls in between that do not
      write to this inode: other files may be written, the name may be removed, the writer may be closed. */
  lemma ReadBack(trace: seq<State>, calls: seq<(Call, Env)>, replies: seq<Reply>, i: nat, j: nat, f: nat, g: nat)
    requires Behaves(trace, calls, replies) && i < j < |calls|
    requires calls[i].0.Write? && calls[i].0.file == f && replies[i].Count?
    requires calls[j].0.Read? && calls[j].0.file == g && replies[j].Bytes?
    requires f in trace[i].files && g in trace[i].files
    requires trace[i].files[f].inode in trace[i].inodes && trace[i].files[g].inode in trace[i].inodes
    requires SectorOf(trace[i], f) == SectorOf(trace[i], g)
    requires forall k | i < k < j :: calls[k].0 != Close(g) && !WritesTo(trace[k], calls[k].0, SectorOf(trace[i], g))
    ensures g in trace[j].files && replies[i].n <= |calls[i].0.data|
    ensures Agree(calls[i].0.data[..replies[i].n], trace[i].files[f].pos, replies[j].data, trace[j].files[g].pos)
  {
    hide Good, Step, Agree, Transferred, Spliced;
    var c, e, d, b := calls[i].0, calls[i].1, calls[j].0, calls[j].1;
    WriteStep(trace[i], trace[i + 1], f, c.data, e, replies[i]);
    HandleStays(trace[i], trace[i + 1], c, e, replies[i], g);
    UnwrittenStays(trace, calls, replies, i + 1, j, g);
    var x := SectorOf(trace[i], g);
    ReadStep(trace[j], trace[j + 1], g, d.size, b, replies[j]);
    SplicedRead(trace[i].contents[x], trace[i].files[f].pos, c.data[..replies[i].n],
                trace[j].files[g].pos, replies[j].data);
  }

  // Where the bytes got from a position on overlap those written at a position, they are the same.
  ghost predicate Agree(written: seq<Byte>, at: nat, got: seq<Byte>, from: nat)
  {
    forall k | 0 <= k < |got| && at <= from + k < at + |written| :: got[k] == written[from + k - at]
  }

  lemma SplicedRead(c: seq<Byte>, at: nat, data: seq<Byte>, from: nat, got: seq<Byte>)
    requires data == [] || at + |data| <= |c|
    requires got == [] || (from + |got| <= |c| && got == Spliced(c, at, data)[from..from + |got|])
    ensures Agree(data, at, got, from)
  {}

  lemma WriteStep(s: State, t: State, f: nat, data: seq<Byte>, e: Env, r: Reply)
    requires Step(s, t, Write(f, data), e, r) && r.Count?
    ensures Written(s, t, f, data, |data|, e.bounceOk, r.n)
  {}

  lemma ReadStep(s: State, t: State, f: nat, size: int, e: Env, r: Reply)
    requires Step(s, t, Read(f, size), e, r) && r.Bytes?
    ensures HasRead(s, t, f, size, e.bounceOk, r.data)
  {}
}
