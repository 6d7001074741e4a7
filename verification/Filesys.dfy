/** The file system calls over the inode layer: create, open, reopen, read, write, seek, deny and
    allow writes, close and remove, in any order and with any outcome of every memory allocation and
    of the writes to the free map. The root directory is a file on the same disk. */
module Filesys {
  import opened Directory
  import opened FilesysBooks
  import opened FilesysSpec
  import opened InodeIO
  import opened Options
  import Bm = Bitmap
  import L = InodeLayer

  class Filesys {
    const layer: L.Layer

    // Before the disk is formatted.
    ghost predicate Blank()
      reads this, layer, layer.freeMap.elems, layer.dev
    {
      layer.Valid() && Reserved(layer.Used(), layer.live)
      && layer.live == map[] && layer.inodes == map[] && layer.files == map[]
    }

    ghost predicate Valid()
      reads this, layer, layer.freeMap.elems, layer.dev
    {
      && layer.Valid() && Formatted(layer.live)
      && Reserved(layer.Used(), layer.live)
      && Book(Slots(), layer.live, layer.inodes, layer.files)
    }

    // The entries of the root directory.
    ghost function Slots(): seq<Entry>
      requires layer.Valid() && Formatted(layer.live)
      reads this, layer, layer.freeMap.elems, layer.dev
    {
      Directory.Slots(L.Contents(layer.dev.sectors, layer.live)[L.ROOT_DIR_SECTOR])
    }

    ghost function Now(): (s: State)
      requires Valid()
      reads this, layer, layer.freeMap.elems, layer.dev
      ensures Good(s)
    {
      State(Slots(), layer.Used(), layer.live, layer.inodes, layer.files,
            UserOnly(L.Contents(layer.dev.sectors, layer.live)))
    }

    // The disk before it is formatted.
    constructor (n: nat)
      requires 2 <= n < 0x1_0000_0000
      ensures Blank() && fresh(layer) && fresh(layer.freeMap.elems) && fresh(layer.dev)
      ensures |layer.Used()| == n && forall k | 0 <= k < n :: layer.Used()[k] == (k <= L.ROOT_DIR_SECTOR)
    {
      layer := new L.Layer(n);
    }

    // do_format: the inodes of the free map file and of the root directory, which has room for
    // 16 entries of 20 bytes. A failure is a panic in the source.
    method DoFormat(mapBytes: Offset, memOk: bool, memOk2: bool) returns (ok: bool)
      requires Blank()
      modifies layer`live, layer.freeMap.elems, layer.dev
      ensures ok <==> memOk && memOk2 && TwoFit(old(layer.Used()), BytesToSectors(mapBytes), 1)
      ensures ok ==> Valid() && Fresh(Now()) && layer.live[L.FREE_MAP_SECTOR].length == mapBytes
    {
      hide L.Inv, Book, Reserved, L.AllOnDisk, L.Contents, L.First, L.HasRoom, TwoFit, Bm.WithGroup;
      hide L.Layer.Used, Bm.Bitmap.Bits, Bm.BitsOf, Directory.Slots, TidyBook, UserOnly, Zeros;
      ghost var used := layer.Used();
      NoRoom(used, BytesToSectors(mapBytes), 1);
      ok := CreateReserved(L.FREE_MAP_SECTOR, mapBytes, memOk);
      if ok {
        ghost var a := layer.live[L.FREE_MAP_SECTOR].start;
        OneFirst(used, a, BytesToSectors(mapBytes), 1);
        ok := CreateReserved(L.ROOT_DIR_SECTOR, 320, memOk2);
        if ok {
          FreshDirectory(layer.live, mapBytes, L.Contents(layer.dev.sectors, layer.live));
        }
      }
    }

    method CreateReserved(x: nat, length: Offset, memOk: bool) returns (ok: bool)
      requires layer.Valid() && Reserved(layer.Used(), layer.live) && layer.inodes == map[]
      requires x !in layer.live && x <= L.ROOT_DIR_SECTOR
      modifies layer`live, layer.freeMap.elems, layer.dev
      ensures layer.Valid() && Reserved(layer.Used(), layer.live)
      ensures ok <==> memOk && L.HasRoom(old(layer.Used()), BytesToSectors(length))
      ensures ok ==>
        && x in layer.live && layer.live == old(layer.live)[x := layer.live[x]] && layer.live[x].length == length
        && L.Contents(layer.dev.sectors, layer.live) ==
             old(L.Contents(layer.dev.sectors, layer.live))[x := Zeros(length)]
        && L.First(old(layer.Used()), layer.live[x].start, BytesToSectors(length))
        && layer.Used() == Bm.WithGroup(old(layer.Used()), layer.live[x].start, BytesToSectors(length), true)
    {
      hide L.Inv, L.AllOnDisk, L.Contents, L.HasRoom, Bm.WithGroup, Zeros;
      ghost var used, live := layer.Used(), layer.live;
      assert L.Unowned(layer.live, x, 1) by {
        assert forall t, k: nat :: L.Owns(layer.live, t, k) ==> k != x;
      }
      ok := layer.InodeCreate(x, length, memOk, true);
      if ok {
        ReservedMore(used, live, x, layer.live[x]);
      }
    }

    // dir_open_root, when its two allocations succeed; nobody else has this inode open.
    method OpenRoot() returns (root: Inode)
      requires layer.Valid() && Formatted(layer.live)
      ensures root == Inode(L.ROOT_DIR_SECTOR, 1, false, 0, layer.live[L.ROOT_DIR_SECTOR])
      ensures IsDirectory(layer.dev.sectors, root) && SlotsOf(layer.dev.sectors, root) == Slots()
    {
      hide Content, Directory.Slots;
      assert L.OnDisk(layer.dev.sectors, layer.live, L.ROOT_DIR_SECTOR);
      HeaderRoundTrip(layer.live[L.ROOT_DIR_SECTOR]);
      L.ContentsAt(layer.dev.sectors, layer.live, L.ROOT_DIR_SECTOR);
      var data := layer.dev.BlockRead(L.ROOT_DIR_SECTOR);
      root := Inode(L.ROOT_DIR_SECTOR, 1, false, 0, ParsedHeader(data));
    }

    // filesys_create
    method FilesysCreate(name: Name, size: Offset, e: Env) returns (success: bool)
      requires Valid()
      modifies layer`live, layer.freeMap.elems, layer.dev
      ensures Valid() && Created(old(Now()), Now(), name, size, e, success)
    {
      hide Valid, Good, Created, L.HasRoom, TwoFit, Allocated, CanEnter, L.Inv, L.Contents, Bm.WithGroup;
      ghost var s0 := Now();
      NoRoom(s0.used, 1, BytesToSectors(size));
      success := false;
      if !e.rootOk {
        NotMade(s0, name, size, e);
        return;
      }
      var sector := TakeHeader(e.mapOk);
      if sector.None? {
        NotMade(s0, name, size, e);
        return;
      }
      var x := sector.value;
      ghost var s1 := Now();
      success := MakeInode(x, size, e, s0);
      ghost var made, s2 := success, Now();
      HeaderKept(s0, s1, s2, x, size, made);
      if success {
        success := DirAdd(name, x, e, s0);
      }
      if !success && x != 0 {
        GiveBack(x, s0);
      }
      CreateDone(s0, s1, s2, Now(), x, name, size, e, made, success);
    }

    // The allocation of the header sector.
    method TakeHeader(mapOk: bool) returns (sector: Option<nat>)
      requires Valid()
      modifies layer.freeMap.elems
      ensures Valid()
      ensures sector.Some? <==> mapOk && L.HasRoom(old(Now()).used, 1)
      ensures sector.None? ==> Now() == old(Now())
      ensures sector.Some? ==>
        && Now() == old(Now()).(used := Now().used) && Allocated(old(Now()), Now().used, sector.value)
        && L.First(old(Now()).used, sector.value, 1)
        && Now().used == Bm.WithGroup(old(Now()).used, sector.value, 1, true)
    {
      hide L.Inv, Book, Reserved, L.AllOnDisk, L.Contents, L.HasRoom, L.First, Bm.WithGroup, Directory.Slots, Good;
      ghost var was := Now();
      sector := layer.FreeMapAllocate(1, mapOk);
      if sector.Some? {
        HeaderIsNew(was, sector.value);
        ReservedUsed(was.used, layer.Used(), was.live);
      }
    }

    // inode_create at the allocated header sector x
    method MakeInode(x: nat, size: Offset, e: Env, ghost s0: State) returns (made: bool)
      requires Valid() && Good(s0) && Allocated(s0, Now().used, x) && Now() == s0.(used := Now().used)
      modifies layer`live, layer.freeMap.elems, layer.dev
      ensures Valid()
      ensures made <==> e.inodeOk && e.mapOk2 && L.HasRoom(old(Now()).used, BytesToSectors(size))
      ensures !made ==> Now() == old(Now())
      ensures made ==> x in Now().live && Made(old(Now()), Now(), x, size)
    {
      hide L.Inv, Book, Good, Reserved, L.AllOnDisk, L.Contents, L.HasRoom, L.First, Bm.WithGroup, Directory.Slots;
      hide UserOnly, Zeros, L.Unowned;
      ghost var was, bytes := Now(), L.Contents(layer.dev.sectors, layer.live);
      made := layer.InodeCreate(x, size, e.inodeOk, e.mapOk2);
      if made {
        ghost var d := layer.live[x];
        ReservedMade(was.used, layer.Used(), was.live, x, d);
        BookInode(was.dir, was.live, was.inodes, was.files, x, d);
        UserContent(bytes, x, Zeros(size));
        MadeIs(was, Now(), x, d);
      }
    }

    // dir_add for the new inode at x
    method DirAdd(name: Name, x: nat, e: Env, ghost s0: State) returns (success: bool)
      requires Valid() && x in layer.live && L.ROOT_DIR_SECTOR < x < |Now().used| && Good(s0) && x !in s0.live
      requires Now().dir == s0.dir && Now().inodes == s0.inodes && Now().files == s0.files
      modifies layer.dev
      ensures Valid() && success == CanEnter(s0.dir, name, e)
      ensures Now() == if success then
                         old(Now()).(dir := s0.dir[Target(s0.dir, e.scanReads) := Entry(x, name, true)])
                       else old(Now())
    {
      hide L.Inv, Book, Good, Reserved, L.AllOnDisk, L.Contents, Directory.Slots, Spliced, Patched, SlotsOf;
      hide IsDirectory, Target, Lookup, UserOnly;
      ghost var was, sectors, bytes := Now(), layer.dev.sectors, L.Contents(layer.dev.sectors, layer.live);
      var root := OpenRoot();
      ghost var at, data;
      success, at, data := Add(layer.dev, root, name, x, e.lookupReads, e.scanReads, e.slotOk);
      L.PatchedSize(sectors, layer.dev.sectors, root.data.start, at, data);
      L.ContentsWritten(sectors, layer.dev.sectors, was.used, was.live, was.inodes, was.files, L.ROOT_DIR_SECTOR, at,
                        data);
      RootWritten(layer.dev.sectors, was.live, root);
      UserSame(bytes, Spliced(bytes[L.ROOT_DIR_SECTOR], at, data));
      if success {
        Unpointed(s0, x);
        BookEntry(was.dir, was.live, was.inodes, was.files, Target(s0.dir, e.scanReads), name, x);
      }
    }

    // Line 55 of filesys.c: the header sector is free again, so it holds no inode.
    method GiveBack(x: nat, ghost s0: State)
      requires Valid() && x < |Now().used| && Now().used[x] && x > L.ROOT_DIR_SECTOR && Good(s0) && x !in s0.live
      requires Now().dir == s0.dir && Now().inodes == s0.inodes && L.Unowned(Now().live - {x}, x, 1)
      modifies layer`live, layer.freeMap.elems
      ensures Valid() && Now() == old(Now()).(used := Now().used, live := old(Now()).live - {x},
                                              contents := old(Now()).contents - {x})
      ensures |Now().used| == |old(Now()).used|
      ensures forall k | 0 <= k < |Now().used| :: Now().used[k] == (old(Now()).used[k] && k != x)
    {
      hide L.Inv, Book, Good, Reserved, L.AllOnDisk, L.Contents, L.Layer.Used, Bm.Bitmap.Bits, Bm.BitsOf;
      hide Directory.Slots, UserOnly, L.Unowned;
      ghost var was, bytes := Now(), L.Contents(layer.dev.sectors, layer.live);
      Unpointed(s0, x);
      L.ContentsLess(layer.dev.sectors, layer.live, x);
      UserContentLess(bytes, x);
      BookGone(was.dir, was.live, was.inodes, was.files, x);
      ReservedGone(was.used, was.live, x);
      if x in layer.live {
        L.LiveLess(layer.Used(), layer.live, layer.inodes, layer.files, x);
      } else {
        assert layer.live - {x} == layer.live;
      }
      layer.live := layer.live - {x};
      layer.FreeMapRelease(x, 1);
      ReservedBack(was.used, layer.Used(), was.live - {x}, x);
    }

    // filesys_open
    method FilesysOpen(name: Name, e: Env) returns (f: Option<nat>)
      requires Valid() && e.inodeAt !in layer.inodes && e.fileAt !in layer.files
      modifies layer`inodes, layer`files, layer`live, layer.freeMap.elems
      ensures Valid() && Opened(old(Now()), Now(), name, e, f)
    {
      hide L.Inv, Book, Good, Reserved, L.AllOnDisk, L.Contents, Directory.Slots, SlotsOf, IsDirectory, Lookup;
      if !e.rootOk {
        return None;
      }
      ghost var was := Now();
      var root := OpenRoot();
      var entry := new Byte[20];
      var found, _ := LookupEntry(layer.dev, root, name, e.lookupReads, entry);
      if !found {
        return None;
      }
      ghost var i := Lookup(was.dir, name, e.lookupReads).value;
      var x := WordAt(entry[..], 0);
      FoundSlot(was.dir, was.live, was.inodes, was.files, name, e.lookupReads);
      f := OpenFound(x, e);
    }

    // The inode of the entry that was found, and a file on it.
    method OpenFound(x: nat, e: Env) returns (f: Option<nat>)
      requires Valid() && e.inodeAt !in layer.inodes && e.fileAt !in layer.files
      requires x in layer.live && x > L.ROOT_DIR_SECTOR
      modifies layer`inodes, layer`files, layer`live, layer.freeMap.elems
      ensures Valid() && Now() == old(Now()).(inodes := Now().inodes, files := Now().files)
      ensures f.Some? <==> e.fileOk && (e.inodeOk || L.OpenAt(old(Now()).inodes, x))
      ensures f.None? ==> Now() == old(Now())
      ensures f.Some? ==> f.value == e.fileAt && f.value in Now().files && OpenedOn(old(Now()), Now(), x, f.value)
    {
      hide L.Inv, Book, Good, Reserved, L.AllOnDisk, L.Contents, Directory.Slots, UserOnly, L.Closed;
      hide L.Layer.Used, Bm.Bitmap.Bits, Bm.BitsOf;
      ghost var was := Now();
      var h := layer.InodeOpen(x, e.inodeOk, e.inodeAt);
      if h.None? {
        return None;
      }
      ghost var inodes1 := layer.inodes;
      NewOpeners(was.used, was.live, was.inodes, was.files, h.value);
      f := layer.FileOpen(h.value, e.fileOk, e.fileAt);
      if f.Some? {
        BookOpen(was.dir, was.live, was.inodes, was.files, h.value, inodes1[h.value], f.value);
      } else {
        OpenThenClose(was.used, was.live, was.inodes, was.files, x, h.value, inodes1, false, layer.Used(), layer.live,
                      layer.inodes);
      }
    }

    // file_reopen
    method FileReopen(file: nat, e: Env) returns (f: Option<nat>)
      requires Valid() && file in layer.files && e.fileAt !in layer.files
      modifies layer`inodes, layer`files, layer`live, layer.freeMap.elems
      ensures Valid() && Reopened(old(Now()), Now(), file, e, f)
    {
      ghost var inodes, files := layer.inodes, layer.files;
      var h := layer.files[file].inode;
      assert CountOk(inodes, files, h) && L.InodeOk(layer.live, files, inodes, h);
      layer.InodeReopen(h);
      f := layer.FileOpen(h, e.fileOk, e.fileAt);
      if f.Some? {
        BookOpen(Slots(), layer.live, inodes, files, h, layer.inodes[h], f.value);
      } else {
        assert layer.inodes == inodes;
      }
    }

    // file_read
    method FileRead(file: nat, buffer: array<Byte>, size: int, bounceOk: bool) returns (n: nat)
      requires Valid() && file in layer.files && size <= buffer.Length
      modifies layer`files, buffer
      ensures Valid() && n <= buffer.Length && HasRead(old(Now()), Now(), file, size, bounceOk, buffer[..n])
      ensures forall k | n <= k < buffer.Length :: buffer[k] == old(buffer[k])
    {
      hide L.Inv, Book, Good, Reserved, L.AllOnDisk, L.Contents, Transferred;
      ghost var files := layer.files;
      L.FileFacts(layer.dev.sectors, layer.Used(), layer.live, layer.inodes, files, file);
      FileInode(Now(), file);
      n := layer.FileRead(file, buffer, size, bounceOk);
      BookMove(Slots(), layer.live, layer.inodes, files, file, files[file].pos + n);
    }

    // file_read into a new buffer of that size
    method FileReadInto(file: nat, size: int, bounceOk: bool) returns (data: seq<Byte>)
      requires Valid() && file in layer.files
      modifies layer`files
      ensures Valid() && HasRead(old(Now()), Now(), file, size, bounceOk, data)
    {
      hide Valid, HasRead, L.Contents;
      var buffer := new Byte[if size > 0 then size else 0];
      var n := FileRead(file, buffer, size, bounceOk);
      data := buffer[..n];
    }

    // file_write
    method FileWrite(file: nat, data: seq<Byte>, size: int, bounceOk: bool) returns (n: nat)
      requires Valid() && file in layer.files && size <= |data|
      modifies layer`files, layer.dev
      ensures Valid() && Written(old(Now()), Now(), file, data, size, bounceOk, n)
    {
      hide L.Inv, Book, Good, Reserved, L.AllOnDisk, L.Contents, Transferred, Spliced;
      ghost var was, files := L.Contents(layer.dev.sectors, layer.live), layer.files;
      L.FileFacts(layer.dev.sectors, layer.Used(), layer.live, layer.inodes, files, file);
      FileInode(Now(), file);
      n := layer.FileWrite(file, data, size, bounceOk);
      ghost var x := layer.inodes[files[file].inode].sector;
      UserContent(was, x, Spliced(was[x], files[file].pos, data[..n]));
      BookMove(Slots(), layer.live, layer.inodes, files, file, files[file].pos + n);
    }

    // file_seek
    method FileSeek(file: nat, newPos: nat)
      requires Valid() && file in layer.files
      modifies layer`files
      ensures Valid() && Moved(old(Now()), Now(), file, newPos)
    {
      ghost var files := layer.files;
      layer.MoveFile(file, newPos);
      BookMove(Slots(), layer.live, layer.inodes, files, file, newPos);
    }

    // file_deny_write and file_allow_write
    method FileSetDeny(file: nat, deny: bool)
      requires Valid() && file in layer.files
      modifies layer`inodes, layer`files
      ensures Valid() && Denied(old(Now()), Now(), file, deny)
    {
      ghost var inodes, files := layer.inodes, layer.files;
      layer.FileSetDeny(file, deny);
      SameOpeners(files, file, deny);
      BookFlag(Slots(), layer.live, inodes, files, layer.inodes, layer.files);
    }

    // file_close
    method FileClose(file: nat)
      requires Valid() && file in layer.files
      modifies layer`inodes, layer`files, layer`live, layer.freeMap.elems
      ensures Valid() && HasClosed(old(Now()), Now(), file)
    {
      hide L.Inv, Book, Good, Reserved, L.AllOnDisk, L.Contents, L.Closed, HasClosed;
      hide L.Layer.Used, Bm.Bitmap.Bits, Bm.BitsOf;
      ghost var was, bytes := Now(), L.Contents(layer.dev.sectors, layer.live);
      ghost var h := layer.files[file].inode;
      FileInode(was, file);
      L.ContentsLess(layer.dev.sectors, layer.live, was.inodes[h].sector);
      UserContentLess(bytes, was.inodes[h].sector);
      layer.FileClose(file);
      CloseBooks(was.dir, was.used, was.live, was.inodes, was.files, layer.Used(), layer.live, layer.inodes, file);
      CloseState(was, Now(), file);
    }

    // filesys_remove
    method FilesysRemove(name: Name, e: Env) returns (success: bool)
      requires Valid() && e.inodeAt !in layer.inodes
      modifies layer`inodes, layer`live, layer.freeMap.elems, layer.dev
      ensures Valid() && HasRemoved(old(Now()), Now(), name, e, success)
    {
      hide L.Inv, Book, Good, Reserved, L.AllOnDisk, L.Contents, Marked, Freed, L.Closed, Directory.Slots, SlotsOf;
      hide L.Layer.Used, Bm.Bitmap.Bits, Bm.BitsOf, IsDirectory, Lookup, UserOnly;
      if !e.rootOk {
        return false;
      }
      ghost var was := Now();
      var root := OpenRoot();
      var entry := new Byte[20];
      var found, ofs := LookupEntry(layer.dev, root, name, e.lookupReads, entry);
      if !found {
        return false;
      }
      ghost var i := Lookup(was.dir, name, e.lookupReads).value;
      var x := WordAt(entry[..], 0);
      FoundSlot(was.dir, was.live, was.inodes, was.files, name, e.lookupReads);
      var h := layer.InodeOpen(x, e.inodeOk, e.inodeAt);
      if h.None? {
        return false;
      }
      success := EraseEntry(root, entry, ofs, e.slotOk, i);
      CloseEntry(h.value, x, success, i, was);
    }

    // Lines 209-214 of dir_remove: the inode is marked if the entry was erased, and closed.
    method CloseEntry(h: nat, x: nat, erased: bool, ghost i: nat, ghost was: State)
      requires layer.Valid() && Formatted(layer.live) && Good(was)
      requires i < |was.dir| && was.dir[i].inUse && was.dir[i].sector == x && x in was.live && x > L.ROOT_DIR_SECTOR
      requires Slots() == if erased then was.dir[i := was.dir[i].(inUse := false)] else was.dir
      requires layer.live == was.live && layer.Used() == was.used && layer.files == was.files
      requires UserOnly(L.Contents(layer.dev.sectors, layer.live)) == was.contents
      requires L.Referenced(was.inodes, layer.inodes, x, was.live[x], h) && h in layer.inodes
      requires |L.Openers(layer.files, h)| < layer.inodes[h].openCnt
      modifies layer`inodes, layer`live, layer.freeMap.elems
      ensures Valid() && if erased then EntryGone(was, Now(), i) else Now() == was
    {
      hide L.Inv, Book, Reserved, L.AllOnDisk, L.Contents, Marked, Freed, L.Closed, Directory.Slots, L.Referenced;
      hide L.Layer.Used, Bm.Bitmap.Bits, Bm.BitsOf, UserOnly;
      ghost var inodes1, bytes := layer.inodes, L.Contents(layer.dev.sectors, layer.live);
      L.ContentsLess(layer.dev.sectors, layer.live, x);
      UserContentLess(bytes, x);
      if erased {
        layer.InodeRemove(h);
      }
      layer.InodeClose(h);
      OpenThenClose(was.used, was.live, was.inodes, was.files, x, h, inodes1, erased, layer.Used(), layer.live,
                    layer.inodes);
      if erased {
        BookRemove(was.dir, was.used, was.live, was.inodes, was.files, i, layer.live, layer.inodes);
        if !L.OpenAt(was.inodes, x) {
          ReservedFreed(was.used, was.live, layer.Used(), x);
        }
      }
    }

    // The write of dir_remove, while the inode of the entry is open.
    method EraseEntry(root: Inode, entry: array<Byte>, ofs: nat, slotOk: bool, ghost i: nat) returns (ok: bool)
      requires layer.Valid() && Formatted(layer.live) && entry.Length == 20 && ofs == 20 * i
      requires root == Inode(L.ROOT_DIR_SECTOR, 1, false, 0, layer.live[L.ROOT_DIR_SECTOR])
      requires i < |Slots()| && ParseEntry(entry[..]) == Slots()[i]
      modifies layer.dev, entry
      ensures layer.Valid() && ok == slotOk
      ensures Slots() == if ok then old(Slots())[i := old(Slots())[i].(inUse := false)] else old(Slots())
      ensures UserOnly(L.Contents(layer.dev.sectors, layer.live)) ==
        old(UserOnly(L.Contents(layer.dev.sectors, layer.live)))
      ensures L.Contents(layer.dev.sectors, layer.live).Keys == old(L.Contents(layer.dev.sectors, layer.live)).Keys
    {
      hide L.Inv, L.AllOnDisk, L.Contents, Directory.Slots, Spliced, Patched, SlotsOf, IsDirectory, ParseEntry;
      hide UserOnly;
      ghost var sectors, bytes := layer.dev.sectors, L.Contents(layer.dev.sectors, layer.live);
      RootWritten(sectors, layer.live, root);
      ghost var data;
      ok, data := Erase(layer.dev, root, entry, ofs, slotOk, i);
      L.PatchedSize(sectors, layer.dev.sectors, root.data.start, ofs, data);
      L.ContentsWritten(sectors, layer.dev.sectors, layer.Used(), layer.live, layer.inodes, layer.files,
                        L.ROOT_DIR_SECTOR, ofs, data);
      RootWritten(layer.dev.sectors, layer.live, root);
      UserSame(bytes, Spliced(bytes[L.ROOT_DIR_SECTOR], ofs, data));
    }

    // One call.
    method Do(c: Call, e: Env) returns (r: Reply)
      requires Valid()
      modifies layer`inodes, layer`files, layer`live, layer.freeMap.elems, layer.dev
      ensures Valid() && Step(old(Now()), Now(), c, e, r)
    {
      hide Valid, Created, Opened, HasRemoved, L.Inv, L.Contents;
      r := Refused;
      if Possible(layer.inodes, layer.files, c, e) {
        match c {
          case Create(name, size) =>
            var ok := FilesysCreate(name, size, e);
            r := Done(ok);
          case Open(name) =>
            var f := FilesysOpen(name, e);
            r := Handle(f);
          case Remove(name) =>
            var ok := FilesysRemove(name, e);
            r := Done(ok);
          case _ =>
            r := DoFile(c, e);
        }
      }
    }

    // One call on an open file.
    method DoFile(c: Call, e: Env) returns (r: Reply)
      requires Valid() && Possible(layer.inodes, layer.files, c, e) && !c.Create? && !c.Open? && !c.Remove?
      modifies layer`inodes, layer`files, layer`live, layer.freeMap.elems, layer.dev
      ensures Valid() && Step(old(Now()), Now(), c, e, r)
    {
      hide Valid, Reopened, HasRead, Written, Moved, Denied, HasClosed, L.Inv, L.Contents;
      match c {
        case Reopen(file) =>
          var f := FileReopen(file, e);
          r := Handle(f);
        case Read(file, size) =>
          var data := FileReadInto(file, size, e.bounceOk);
          r := Bytes(data);
        case Write(file, data) =>
          var n := FileWrite(file, data, |data|, e.bounceOk);
          r := Count(n);
        case Seek(file, newPos) =>
          FileSeek(file, newPos);
          r := Done(true);
        case SetDeny(file, deny) =>
          FileSetDeny(file, deny);
          r := Done(true);
        case Close(file) =>
          FileClose(file);
          r := Done(true);
      }
    }

    /** From a formatted disk, any sequence of calls behaves step by step as specified, and every state
        on the way is a good one. */
    method Run(mapBytes: Offset, memOk: bool, memOk2: bool, calls: seq<(Call, Env)>)
        returns (ok: bool, replies: seq<Reply>, ghost trace: seq<State>)
      requires Blank()
      modifies layer`inodes, layer`files, layer`live, layer.freeMap.elems, layer.dev
      ensures ok <==> memOk && memOk2 && TwoFit(old(layer.Used()), BytesToSectors(mapBytes), 1)
      ensures ok ==> Valid() && Behaves(trace, calls, replies) && Fresh(trace[0]) && trace[|calls|] == Now()
    {
      hide Valid, Behaves, Step, TwoFit, L.Contents, BytesToSectors, Fresh;
      replies, trace := [], [];
      ok := DoFormat(mapBytes, memOk, memOk2);
      if ok {
        trace := [Now()];
        ghost var start := Now();
        BehavesNone(Now());
        assert calls[..0] == [];
        for i := 0 to |calls|
          invariant Valid() && |trace| == i + 1 && trace[i] == Now()
          invariant trace[0] == start
          invariant Behaves(trace, calls[..i], replies)
        {
          var r := Do(calls[i].0, calls[i].1);
          BehavesMore(trace, calls[..i], replies, Now(), calls[i], r);
          assert calls[..i] + [calls[i]] == calls[..i + 1];
          trace, replies := trace + [Now()], replies + [r];
        }
        assert calls[..|calls|] == calls;
      }
    }
  }

  lemma BehavesNone(s: State)
    requires Good(s)
    ensures Behaves([s], [], [])
  {}

  lemma BehavesMore(trace: seq<State>, calls: seq<(Call, Env)>, replies: seq<Reply>, t: State, c: (Call, Env), r: Reply)
    requires Behaves(trace, calls, replies) && Good(t) && Step(trace[|calls|], t, c.0, c.1, r)
    ensures Behaves(trace + [t], calls + [c], replies + [r])
  {
    hide Good, Step;
  }

  // The states of one filesys_create: before it, with the header sector allocated, after inode_create, and at the end.
  lemma CreateDone(s0: State, s1: State, s2: State, t: State, x: nat, name: Name, size: nat, e: Env, made: bool,
                   success: bool)
    requires e.rootOk && e.mapOk && Allocated(s0, s1.used, x) && s1 == s0.(used := s1.used)
    requires L.First(s0.used, x, 1) && s1.used == Bm.WithGroup(s0.used, x, 1, true)
    requires made <==> e.inodeOk && e.mapOk2 && L.HasRoom(s1.used, BytesToSectors(size))
    requires if made then x in s2.live && Made(s1, s2, x, size) else s2 == s1
    requires success == (made && CanEnter(s0.dir, name, e))
    requires if success then t == s2.(dir := s0.dir[Target(s0.dir, e.scanReads) := Entry(x, name, true)])
             else
               && t == s2.(used := t.used, live := s2.live - {x}, contents := s2.contents - {x})
               && |t.used| == |s2.used| && forall k | 0 <= k < |t.used| :: t.used[k] == (s2.used[k] && k != x)
    requires x !in s0.contents
    ensures Created(s0, t, name, size, e, success)
  {
    hide CanEnter, L.HasRoom, L.First, Bm.WithGroup, BytesToSectors;
    OneFirst(s0.used, x, 1, BytesToSectors(size));
    if success {
      EnteredIs(s0, s1, s2, t, x, name, size, e);
    } else {
      assert t.live == s0.live && t.contents == s0.contents;
      if made {
        LeakIs(s0, s1, s2, t, x, size);
      } else {
        assert t.used == s0.used;
      }
    }
  }

  lemma HeaderKept(s0: State, s1: State, s2: State, x: nat, size: nat, made: bool)
    requires Allocated(s0, s1.used, x) && s1 == s0.(used := s1.used)
    requires if made then x in s2.live && Made(s1, s2, x, size) else s2 == s1
    ensures x < |s2.used| && s2.used[x] && x > L.ROOT_DIR_SECTOR && x !in s0.live && x !in s0.contents
    ensures s2.dir == s0.dir && s2.inodes == s0.inodes && s2.files == s0.files
    ensures s2.live - {x} == s0.live && L.Unowned(s2.live - {x}, x, 1)
  {}

  lemma EnteredIs(s0: State, s1: State, s2: State, t: State, x: nat, name: Name, size: nat, e: Env)
    requires Allocated(s0, s1.used, x) && s1 == s0.(used := s1.used) && x in s2.live && Made(s1, s2, x, size)
    requires CanEnter(s0.dir, name, e)
    requires t == s2.(dir := s0.dir[Target(s0.dir, e.scanReads) := Entry(x, name, true)])
    ensures Target(s0.dir, e.scanReads) < |t.dir| && NewFile(s0, t, Target(s0.dir, e.scanReads), name, x, size)
  {}

  lemma LeakIs(s0: State, s1: State, s2: State, t: State, x: nat, size: nat)
    requires Allocated(s0, s1.used, x) && s1 == s0.(used := s1.used) && x in s2.live && Made(s1, s2, x, size)
    requires |t.used| == |s2.used| && forall k | 0 <= k < |t.used| :: t.used[k] == (s2.used[k] && k != x)
    ensures Leak(s0.used, t.used, s2.live[x].start, BytesToSectors(size))
  {}

  lemma NotMade(s: State, name: Name, size: nat, e: Env)
    requires !(e.rootOk && e.mapOk && L.HasRoom(s.used, 1))
    ensures Created(s, s, name, size, e, false)
  {
    NoRoom(s.used, 1, BytesToSectors(size));
  }

  // inode_create at header sector x: the data sectors were free, and the inode is on disk.
  ghost predicate Made(s: State, t: State, x: nat, size: nat)
    requires x in t.live
  {
    var d := t.live[x];
    && d.length == size && t == s.(used := t.used, live := s.live[x := d], contents := s.contents[x := Zeros(size)])
    && L.Free(s.used, d.start, L.Sectors(d)) && |t.used| == |s.used|
    && forall k | 0 <= k < |t.used| :: t.used[k] == (s.used[k] || d.start <= k < d.start + L.Sectors(d))
  }

  lemma MadeIs(s: State, t: State, x: nat, d: DiskInode)
    requires t == s.(used := t.used, live := s.live[x := d], contents := s.contents[x := Zeros(d.length)])
    requires L.First(s.used, d.start, L.Sectors(d)) && |t.used| == |s.used|
    requires forall k | 0 <= k < |t.used| :: t.used[k] == (s.used[k] || d.start <= k < d.start + L.Sectors(d))
    ensures Made(s, t, x, d.length)
  {}

  lemma ReservedMade(used: seq<bool>, used': seq<bool>, live: Disk, x: nat, d: DiskInode)
    requires Reserved(used, live) && L.First(used, d.start, L.Sectors(d))
    requires |used'| == |used| && forall k | 0 <= k < |used| && used[k] :: used'[k]
    ensures Reserved(used', live[x := d])
  {
    ReservedMore(used, live, x, d);
  }

  lemma ReservedGone(used: seq<bool>, live: Disk, x: nat)
    requires Reserved(used, live) && x > L.ROOT_DIR_SECTOR
    ensures Reserved(used, live - {x})
  {
    ReservedLess(used, live, used, x);
  }

  // Nothing points to a sector that holds no inode.
  lemma Unpointed(s: State, x: nat)
    requires Good(s) && x !in s.live
    ensures !Pointed(s.dir, x) && forall h | h in s.inodes :: s.inodes[h].sector != x
  {
    forall i | 0 <= i < |s.dir| && s.dir[i].inUse
      ensures s.dir[i].sector != x
    {
      assert SlotOk(s.dir, s.live, s.inodes, i);
    }
    forall h | h in s.inodes
      ensures s.inodes[h].sector != x
    {
      assert L.InodeOk(s.live, s.files, s.inodes, h);
    }
  }

  lemma FoundSlot(dir: seq<Entry>, live: Disk, inodes: Inodes, files: Files, name: Name, lookupReads: nat)
    requires Book(dir, live, inodes, files) && Lookup(dir, name, lookupReads).Some?
    ensures var i := Lookup(dir, name, lookupReads).value;
      i < |dir| && dir[i].inUse && dir[i].sector in live && dir[i].sector > L.ROOT_DIR_SECTOR
  {
    SlotFacts(dir, live, inodes, files, Lookup(dir, name, lookupReads).value);
  }

  // The entries are those of the directory file.
  lemma RootWritten(sectors: seq<Sector>, live: Disk, root: Inode)
    requires L.AllOnDisk(sectors, live) && Formatted(live) && root.data == live[L.ROOT_DIR_SECTOR]
    ensures IsDirectory(sectors, root)
    ensures SlotsOf(sectors, root) == Directory.Slots(L.Contents(sectors, live)[L.ROOT_DIR_SECTOR])
  {
    L.ContentsAt(sectors, live, L.ROOT_DIR_SECTOR);
  }

  lemma FreshDirectory(live: Disk, mapBytes: nat, bytes: map<nat, seq<Byte>>)
    requires live.Keys == {L.FREE_MAP_SECTOR, L.ROOT_DIR_SECTOR} && live[L.ROOT_DIR_SECTOR].length == 320
    requires bytes.Keys == live.Keys && bytes[L.ROOT_DIR_SECTOR] == Zeros(320)
    ensures var dir := Directory.Slots(bytes[L.ROOT_DIR_SECTOR]);
      && |dir| == DIR_SLOTS && (forall i | 0 <= i < |dir| :: !dir[i].inUse)
      && Book(dir, live, map[], map[]) && TidyBook(dir, live, map[])
    ensures UserOnly(bytes) == map[]
  {
    NoEntries(320);
    BookStart(live, Directory.Slots(bytes[L.ROOT_DIR_SECTOR]));
  }

  // The contents of the files, when one of them changes.
  lemma UserContent(m: map<nat, seq<Byte>>, x: nat, c: seq<Byte>)
    requires x > L.ROOT_DIR_SECTOR
    ensures UserOnly(m[x := c]) == UserOnly(m)[x := c]
  {}

  lemma UserSame(m: map<nat, seq<Byte>>, c: seq<Byte>)
    ensures UserOnly(m[L.ROOT_DIR_SECTOR := c]) == UserOnly(m)
  {}

  lemma UserContentLess(m: map<nat, seq<Byte>>, x: nat)
    ensures UserOnly(m - {x}) == UserOnly(m) - {x}
  {}

  lemma CloseState(s: State, t: State, file: nat)
    requires Good(s) && file in s.files && s.files[file].inode in s.inodes
    requires t.dir == s.dir && t.files == s.files - {file}
    requires var h := s.files[file].inode;
      && L.Closed(s.inodes[h := s.inodes[h].(denyWriteCnt := |L.Deniers(t.files, h)|)], s.live, s.used,
                  t.inodes, t.live, t.used, h)
      && s.inodes[h].openCnt == |L.Openers(t.files, h)| + 1 && SectorOf(s, file) in s.live
    requires t.live == s.live ==> t.contents == s.contents
    requires t.live == s.live - {SectorOf(s, file)} ==> t.contents == s.contents - {SectorOf(s, file)}
    ensures HasClosed(s, t, file)
  {}

  // Sector x was free, and is the only one that was marked.
  ghost predicate Allocated(s: State, used: seq<bool>, x: nat)
  {
    && x > L.ROOT_DIR_SECTOR && x !in s.live && s.live - {x} == s.live && x < |s.used| && !s.used[x]
    && x !in s.contents && |used| == |s.used| && (forall k | 0 <= k < |used| :: used[k] == (s.used[k] || k == x))
    && L.Unowned(s.live, x, 1) && forall h | h in s.inodes :: s.inodes[h].sector != x
  }

  lemma HeaderIsNew(s: State, x: nat)
    requires Good(s) && L.First(s.used, x, 1)
    ensures x > L.ROOT_DIR_SECTOR && x !in s.live && s.live - {x} == s.live && x < |s.used| && !s.used[x]
    ensures x !in s.contents
    ensures forall h | h in s.inodes :: s.inodes[h].sector != x
  {
    assert !s.used[x];
    assert L.LiveOk(s.used, s.live, x) && L.Owns(s.live, x, x) == (x in s.live);
    forall h | h in s.inodes
      ensures s.inodes[h].sector != x
    {
      assert L.InodeOk(s.live, s.files, s.inodes, h);
    }
  }
}
