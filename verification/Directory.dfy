/** A directory: a file of 20-byte entries that is read and written one entry at a time. Every read and
    write of an entry touches part of a sector, so it needs memory for a bounce buffer; without it a
    search ends as if it had reached the end of the file. */
module Directory {
  import opened InodeIO
  import opened Options

  const NAME_MAX: nat := 14

  predicate NoZero(s: seq<Byte>) { forall i | 0 <= i < |s| :: s[i] != 0 }

  // A C string without its terminator.
  type Name = s: seq<Byte> | NoZero(s)

  datatype Entry = Entry(sector: nat, name: Name, inUse: bool)

  predicate ValidName(name: Name) { name != [] && |name| <= NAME_MAX }

  /* The 20 bytes of struct dir_entry: a sector number, 15 bytes of name, a flag */

  // The string that starts at b[0].
  function CString(b: seq<Byte>): Name
  {
    if b == [] || b[0] == 0 then []
    else
      var rest := CString(b[1..]);
      assert NoZero([b[0]] + rest);
      [b[0]] + rest
  }

  function ParseEntry(b: seq<Byte>): Entry
    requires |b| == 20
  {
    Entry(WordAt(b, 0), CString(b[4..19]), b[19] != 0)
  }

  // The entries of a directory with content c.
  function Slots(c: seq<Byte>): (s: seq<Entry>)
    ensures |s| == |c| / 20
    ensures forall i | 0 <= i < |s| :: 20 * i + 20 <= |c| && s[i] == ParseEntry(c[20 * i..20 * i + 20])
  {
    seq(|c| / 20, i requires 0 <= i < |c| / 20 => ParseEntry(c[20 * i..20 * i + 20]))
  }

  lemma {:induction false} StringEnds(name: Name, b: seq<Byte>)
    requires |name| < |b| && b[..|name|] == name && b[|name|] == 0
    ensures CString(b) == name
  {
    if name != [] {
      assert b[0] == b[..|name|][0] == name[0];
      assert b[1..][..|name| - 1] == b[..|name|][1..];
      StringEnds(name[1..], b[1..]);
    }
  }

  // An entry written in place of slot i, or nothing.
  lemma SlotsSpliced(c: seq<Byte>, i: nat, data: seq<Byte>)
    requires |data| == 20 && 20 * i + 20 <= |c|
    ensures Slots(Spliced(c, 20 * i, data)) == Slots(c)[i := ParseEntry(data)]
  {
    hide ParseEntry;
    var c' := Spliced(c, 20 * i, data);
    forall j | 0 <= j < |c| / 20
      ensures c'[20 * j..20 * j + 20] == if j == i then data else c[20 * j..20 * j + 20]
    {
      OtherSlot(i, j);
      forall k | 0 <= k < 20
        ensures c'[20 * j + k] == if j == i then data[k] else c[20 * j + k]
      {
        SplicedAt(c, 20 * i, data, 20 * j + k);
      }
    }
  }

  lemma OtherSlot(i: nat, j: nat)
    ensures i != j ==> 20 * j + 20 <= 20 * i || 20 * i + 20 <= 20 * j
  {}

  lemma SplicedAt(c: seq<Byte>, offset: nat, data: seq<Byte>, k: nat)
    requires offset + |data| <= |c| && k < |c|
    ensures Spliced(c, offset, data)[k] == if offset <= k < offset + |data| then data[k - offset] else c[k]
  {}

  lemma {:induction false} NoEntries(n: nat)
    ensures forall i | 0 <= i < n / 20 :: !Slots(Zeros(n))[i].inUse
  {
    forall i | 0 <= i < n / 20
      ensures !Slots(Zeros(n))[i].inUse
    {
      assert Slots(Zeros(n))[i] == ParseEntry(Zeros(n)[20 * i..20 * i + 20]);
    }
  }

  /* What a search finds */

  predicate Named(e: Entry, name: Name) { e.inUse && e.name == name }

  // The first entry in use by that name in slots [from, end), or end.
  function FirstNamed(slots: seq<Entry>, name: Name, from: nat, end: nat): (i: nat)
    requires from <= end <= |slots|
    ensures from <= i <= end && (i < end ==> Named(slots[i], name))
    ensures forall j | from <= j < i :: !Named(slots[j], name)
    decreases end - from
  {
    if from == end || Named(slots[from], name) then from else FirstNamed(slots, name, from + 1, end)
  }

  // The first entry not in use in slots [from, end), or end.
  function FirstFree(slots: seq<Entry>, from: nat, end: nat): (i: nat)
    requires from <= end <= |slots|
    ensures from <= i <= end && (i < end ==> !slots[i].inUse)
    ensures forall j | from <= j < i :: slots[j].inUse
    decreases end - from
  {
    if from == end || !slots[from].inUse then from else FirstFree(slots, from + 1, end)
  }

  // How many entries a search reads in full when only its first bounce buffers can be allocated.
  function Seen(slots: seq<Entry>, bounces: nat): (n: nat)
    ensures n <= |slots|
  {
    if bounces < |slots| then bounces else |slots|
  }

  // lookup: the slot of the first entry by that name that is read.
  function Lookup(slots: seq<Entry>, name: Name, bounces: nat): (i: Option<nat>)
    ensures i.Some? ==> i.value < Seen(slots, bounces) && Named(slots[i.value], name)
    ensures i.Some? ==> forall j | 0 <= j < i.value :: !Named(slots[j], name)
    ensures i.None? ==> forall j | 0 <= j < Seen(slots, bounces) :: !Named(slots[j], name)
  {
    var i := FirstNamed(slots, name, 0, Seen(slots, bounces));
    if i < Seen(slots, bounces) then Some(i) else None
  }

  // The slot that dir_add writes: the first free one, or the one where its search was cut short.
  function Target(slots: seq<Entry>, bounces: nat): (i: nat)
    ensures i <= Seen(slots, bounces) && (forall j | 0 <= j < i :: slots[j].inUse)
    ensures i < Seen(slots, bounces) ==> !slots[i].inUse
  {
    FirstFree(slots, 0, Seen(slots, bounces))
  }

  /* The operations */

  ghost predicate IsDirectory(sectors: seq<Sector>, inode: Inode)
  {
    OnDevice(sectors, inode.data.start, inode.data.length) && inode.data.length % 20 == 0
  }

  ghost function SlotsOf(sectors: seq<Sector>, inode: Inode): seq<Entry>
    requires IsDirectory(sectors, inode)
  {
    Slots(Content(sectors, inode.data.start, inode.data.length))
  }

  // How much of one entry is transferred: all of it or nothing.
  lemma WholeEntry(length: nat, i: nat, bounceOk: bool)
    requires length % 20 == 0
    ensures Transferred(length, 20, 20 * i, bounceOk) == if bounceOk && i < length / 20 then 20 else 0
  {}

  // inode_read_at of one entry; bounceOk tells whether the bounce buffer can be allocated.
  method ReadEntry(dev: Device, inode: Inode, e: array<Byte>, ofs: nat, bounceOk: bool, ghost i: nat)
      returns (whole: bool)
    requires IsDirectory(dev.sectors, inode) && e.Length == 20 && ofs == 20 * i
    modifies e
    ensures whole <==> bounceOk && i < |SlotsOf(dev.sectors, inode)|
    ensures whole ==> ParseEntry(e[..]) == SlotsOf(dev.sectors, inode)[i]
  {
    hide OnDevice, Content, Transferred, ParseEntry;
    var n := ReadAt(dev, inode, e, 20, ofs, bounceOk);
    WholeEntry(inode.data.length, i, bounceOk);
    whole := n == 20;
    ghost var c := Content(dev.sectors, inode.data.start, inode.data.length);
    assert whole ==> e[..] == c[ofs..ofs + 20];
  }

  // lookup, which leaves the entry it found in e.
  method LookupEntry(dev: Device, inode: Inode, name: Name, bounces: nat, e: array<Byte>)
      returns (found: bool, ofs: nat)
    requires IsDirectory(dev.sectors, inode) && e.Length == 20
    modifies e
    ensures var slots := SlotsOf(dev.sectors, inode);
      && found == Lookup(slots, name, bounces).Some?
      && (found ==> ofs == 20 * Lookup(slots, name, bounces).value)
      && (found ==> ParseEntry(e[..]) == slots[Lookup(slots, name, bounces).value])
  {
    hide IsDirectory, SlotsOf;
    ghost var slots := SlotsOf(dev.sectors, inode);
    ghost var end := Seen(slots, bounces);
    var k: nat := 0;
    ofs := 0;
    while true
      invariant ofs == 20 * k && k <= end && FirstNamed(slots, name, k, end) == FirstNamed(slots, name, 0, end)
      decreases end - k
    {
      var whole := ReadEntry(dev, inode, e, ofs, k < bounces, k);
      if !whole {
        return false, 0;
      }
      if e[19] != 0 && CString(e[4..19]) == name {
        assert e[..][4..19] == e[4..19];
        return true, ofs;
      }
      assert e[..][4..19] == e[4..19];
      ofs, k := ofs + 20, k + 1;
    }
  }

  // The search for a free slot in dir_add.
  method FindFree(dev: Device, inode: Inode, bounces: nat, e: array<Byte>) returns (ofs: nat)
    requires IsDirectory(dev.sectors, inode) && e.Length == 20
    modifies e
    ensures ofs == 20 * Target(SlotsOf(dev.sectors, inode), bounces)
  {
    hide IsDirectory, SlotsOf;
    ghost var slots := SlotsOf(dev.sectors, inode);
    ghost var end := Seen(slots, bounces);
    var k: nat := 0;
    ofs := 0;
    while true
      invariant ofs == 20 * k && k <= end && FirstFree(slots, k, end) == FirstFree(slots, 0, end)
      decreases end - k
    {
      var whole := ReadEntry(dev, inode, e, ofs, k < bounces, k);
      if !whole || e[19] == 0 {
        return;
      }
      ofs, k := ofs + 20, k + 1;
    }
  }

  // Lines 172-174 of dir_add. What the name field held behind the new terminator stays there.
  method FillEntry(e: array<Byte>, name: Name, sector: nat)
    requires e.Length == 20 && ValidName(name) && sector < 0x1_0000_0000
    modifies e
    ensures ParseEntry(e[..]) == Entry(sector, name, true)
  {
    e[19] := 1;
    for k := 0 to |name|
      invariant e[19] == 1 && e[4..4 + k] == name[..k]
    {
      e[4 + k] := name[k];
    }
    e[4 + |name|] := 0;
    var w := WordBytes(sector);
    e[0], e[1], e[2], e[3] := w[0], w[1], w[2], w[3];
    FilledEntry(e[..], name, sector);
  }

  lemma FilledEntry(b: seq<Byte>, name: Name, sector: nat)
    requires |b| == 20 && ValidName(name) && sector < 0x1_0000_0000
    requires b[0..4] == WordBytes(sector) && b[4..4 + |name|] == name && b[4 + |name|] == 0 && b[19] == 1
    ensures ParseEntry(b) == Entry(sector, name, true)
  {
    hide WordAt, WordBytes, CString;
    BytesOfWord(sector, b, 0);
    var field := b[4..19];
    assert field[..|name|] == name && field[|name|] == 0;
    StringEnds(name, field);
  }

  // inode_write_at of one entry
  method WriteEntry(dev: Device, inode: Inode, e: array<Byte>, ofs: nat, bounceOk: bool, ghost i: nat)
      returns (ok: bool)
    requires IsDirectory(dev.sectors, inode) && inode.denyWriteCnt == 0 && e.Length == 20 && ofs == 20 * i
    modifies dev
    ensures ok <==> bounceOk && i < |old(SlotsOf(dev.sectors, inode))|
    ensures Patched(old(dev.sectors), dev.sectors, inode.data.start, ofs, if ok then e[..] else [])
    ensures ok ==> ofs + 20 <= inode.data.length
    ensures IsDirectory(dev.sectors, inode)
    ensures SlotsOf(dev.sectors, inode) ==
      if ok then old(SlotsOf(dev.sectors, inode))[i := ParseEntry(e[..])] else old(SlotsOf(dev.sectors, inode))
  {
    hide OnDevice, Content, Transferred, ParseEntry, Spliced, Patched;
    ghost var was := dev.sectors;
    var n := WriteAt(dev, inode, e[..], 20, ofs, bounceOk);
    WholeEntry(inode.data.length, i, bounceOk);
    ok := n == 20;
    assert e[..][..n] == if ok then e[..] else [];
    PatchedContent(was, dev.sectors, inode.data.start, inode.data.length, ofs, e[..][..n]);
    ghost var c := Content(was, inode.data.start, inode.data.length);
    NothingSpliced(c, ofs);
    if ok {
      SlotsSpliced(c, i, e[..]);
    }
  }

  lemma NothingSpliced(c: seq<Byte>, offset: nat)
    ensures Spliced(c, offset, []) == c
  {}

  /** dir_add gets to write its entry: the name is valid, no entry by that name is read, and the slot is
      inside the file. slotOk tells whether the bounce buffer for the slot can be allocated. */
  predicate Enters(slots: seq<Entry>, name: Name, lookupReads: nat, scanReads: nat, slotOk: bool)
  {
    ValidName(name) && Lookup(slots, name, lookupReads).None? && Target(slots, scanReads) < |slots| && slotOk
  }

  // dir_add; data is what it writes to the directory, at offset at.
  method Add(dev: Device, inode: Inode, name: Name, sector: nat, lookupReads: nat, scanReads: nat, slotOk: bool)
      returns (success: bool, ghost at: nat, ghost data: seq<Byte>)
    requires IsDirectory(dev.sectors, inode) && inode.denyWriteCnt == 0 && sector < 0x1_0000_0000
    modifies dev
    ensures success == Enters(old(SlotsOf(dev.sectors, inode)), name, lookupReads, scanReads, slotOk)
    ensures Patched(old(dev.sectors), dev.sectors, inode.data.start, at, data)
    ensures data == [] || at + |data| <= inode.data.length
    ensures IsDirectory(dev.sectors, inode)
    ensures var slots := old(SlotsOf(dev.sectors, inode));
      SlotsOf(dev.sectors, inode) ==
      if success then slots[Target(slots, scanReads) := Entry(sector, name, true)] else slots
  {
    hide IsDirectory, SlotsOf, Patched, Lookup, Target, ParseEntry;
    success, at, data := false, 0, [];
    PatchedNothing(dev.sectors, inode.data.start);
    if name == [] || |name| > NAME_MAX {
      return;
    }
    var e := new Byte[20];
    var found, _ := LookupEntry(dev, inode, name, lookupReads, e);
    if found {
      return;
    }
    ghost var i := Target(SlotsOf(dev.sectors, inode), scanReads);
    var ofs := FindFree(dev, inode, scanReads, e);
    FillEntry(e, name, sector);
    success := WriteEntry(dev, inode, e, ofs, slotOk, i);
    at, data := ofs, if success then e[..] else [];
  }

  lemma PatchedNothing(sectors: seq<Sector>, start: nat)
    ensures Patched(sectors, sectors, start, 0, [])
  {}

  // Lines 205-206 of dir_remove, for the entry in e, read from slot i.
  method Erase(dev: Device, inode: Inode, e: array<Byte>, ofs: nat, slotOk: bool, ghost i: nat)
      returns (ok: bool, ghost data: seq<Byte>)
    requires IsDirectory(dev.sectors, inode) && inode.denyWriteCnt == 0 && e.Length == 20 && ofs == 20 * i
    requires i < |SlotsOf(dev.sectors, inode)| && ParseEntry(e[..]) == SlotsOf(dev.sectors, inode)[i]
    modifies dev, e
    ensures ok == slotOk
    ensures Patched(old(dev.sectors), dev.sectors, inode.data.start, ofs, data)
    ensures data == [] || ofs + |data| <= inode.data.length
    ensures IsDirectory(dev.sectors, inode)
    ensures var slots := old(SlotsOf(dev.sectors, inode));
      SlotsOf(dev.sectors, inode) == if ok then slots[i := slots[i].(inUse := false)] else slots
  {
    hide IsDirectory, SlotsOf, Patched;
    ghost var b := e[..];
    e[19] := 0;
    assert e[..][4..19] == b[4..19] && e[..] == b[19 := 0];
    hide ParseEntry;
    ok := WriteEntry(dev, inode, e, ofs, slotOk, i);
    data := if ok then e[..] else [];
  }

  /* When the searches are not cut short */

  // The sector that a name stands for: that of its first entry.
  function Where(slots: seq<Entry>, name: Name): Option<nat>
  {
    var i := Lookup(slots, name, |slots|);
    if i.Some? then Some(slots[i.value].sector) else None
  }

  // No name has two entries.
  ghost predicate OnceNamed(slots: seq<Entry>)
  {
    forall i, j | 0 <= i < |slots| && 0 <= j < |slots| && slots[i].inUse && slots[j].inUse ::
      slots[i].name == slots[j].name ==> i == j
  }

  /** What dir_add should do, as its comment has it: enter a valid name that is not in use, in the first free
      slot, and change nothing else; fail if there is no such slot. */
  ghost predicate AddsRightly(slots: seq<Entry>, slots': seq<Entry>, name: Name, slotOk: bool, success: bool)
  {
    var i := FirstFree(slots, 0, |slots|);
    && success == (ValidName(name) && Where(slots, name).None? && i < |slots| && slotOk)
    && |slots'| == |slots|
    && slots' == if success then slots[i := Entry(slots'[i].sector, name, true)] else slots
  }

  /** The call goes wrong exactly when it writes an entry and a search of it was cut short where that matters:
      the lookup before an entry by this name, or the search for a free slot before the first one. */
  lemma AddsRightlyIff(slots: seq<Entry>, slots': seq<Entry>, name: Name, sector: nat, lookupReads: nat,
                       scanReads: nat, slotOk: bool, success: bool)
    requires success == Enters(slots, name, lookupReads, scanReads, slotOk)
    requires slots' == if success then slots[Target(slots, scanReads) := Entry(sector, name, true)] else slots
    ensures AddsRightly(slots, slots', name, slotOk, success) <==>
      !(success && (Where(slots, name).Some? || scanReads < FirstFree(slots, 0, |slots|)))
  {
    TargetIs(slots, scanReads);
    var f, i := FirstFree(slots, 0, |slots|), Target(slots, scanReads);
    if success && i != f {
      assert slots'[i].name == name && slots[i].inUse;
    }
  }

  // A search for a free slot that is cut short ends where it was cut.
  lemma TargetIs(slots: seq<Entry>, scanReads: nat)
    ensures var f := FirstFree(slots, 0, |slots|);
      Target(slots, scanReads) == if scanReads < f then scanReads else f
  {}
}
