/** Names in the file system. The source trusts that a search of the root directory ends early only at the end
    of the file. While that holds, the names in use behave as a map and no file is lost; a filesys_create
    whose search is cut short by a failed allocation can break both, and it is said exactly when. */
module FilesysNames {
  import opened Directory
  import opened FilesysBooks
  import opened FilesysSpec
  import opened InodeIO
  import opened Options
  import L = InodeLayer

  // Every name has one entry, and every file on disk has a name or is kept by an open file.
  ghost predicate Tidy(s: State) { TidyBook(s.dir, s.live, s.inodes) }

  /** A filesys_create that enters its name although a search was cut short where it matters: the lookup before
      an entry by that name, or the search for a free slot before the first one. */
  ghost predicate Clobbers(s: State, c: Call, e: Env)
  {
    && c.Create? && Possible(s.inodes, s.files, c, e)
    && CanMake(s.used, c.initialSize, e) && CanEnter(s.dir, c.name, e)
    && (Where(s.dir, c.name).Some? || e.scanReads < FirstFree(s.dir, 0, |s.dir|))
  }

  // No search of the directory is cut short.
  predicate Uncut(dir: seq<Entry>, e: Env) { e.lookupReads >= |dir| && e.scanReads >= |dir| }

  lemma UncutIsSafe(s: State, c: Call, e: Env)
    requires Uncut(s.dir, e)
    ensures !Clobbers(s, c, e)
  {}

  /* One call */

  lemma PointedElsewhere(dir: seq<Entry>, i: nat, e: Entry, y: nat)
    requires i < |dir| && (dir[i].inUse ==> dir[i].sector != y) && Pointed(dir, y)
    ensures Pointed(dir[i := e], y)
  {
    var j :| 0 <= j < |dir| && dir[j].inUse && dir[j].sector == y;
    assert dir[i := e][j] == dir[j];
  }

  // The new entry is in a free slot, and its name is new.
  lemma TidyCreate(dir: seq<Entry>, live: Disk, inodes: Inodes, i: nat, name: Name, x: nat, d: DiskInode)
    requires TidyBook(dir, live, inodes) && i < |dir| && !dir[i].inUse && x !in live
    requires forall j | 0 <= j < |dir| :: !Named(dir[j], name)
    ensures TidyBook(dir[i := Entry(x, name, true)], live[x := d], inodes)
  {
    var dir', live' := dir[i := Entry(x, name, true)], live[x := d];
    forall y
      ensures Kept(dir', live', inodes, y)
    {
      assert Kept(dir, live, inodes, y);
      if y == x {
        assert dir'[i].inUse && dir'[i].sector == x;
      } else if y in live && Pointed(dir, y) {
        PointedElsewhere(dir, i, Entry(x, name, true), y);
      }
    }
  }

  // An overwritten entry leaves its file without a name.
  lemma Overwritten(dir: seq<Entry>, live: Disk, inodes: Inodes, files: Files, i: nat, name: Name, x: nat)
    requires Book(dir, live, inodes, files) && i < |dir| && dir[i].inUse && x !in live
    ensures var dir', y := dir[i := Entry(x, name, true)], dir[i].sector;
      && y in live && y > L.ROOT_DIR_SECTOR && !Pointed(dir', y)
      && forall h | h in inodes && inodes[h].removed :: inodes[h].sector != y
  {
    assert SlotOk(dir, live, inodes, i);
    var dir', y := dir[i := Entry(x, name, true)], dir[i].sector;
    forall j | 0 <= j < |dir'| && dir'[j].inUse
      ensures dir'[j].sector != y
    {
      assert j != i ==> dir'[j] == dir[j] && OneSlot(dir, i, j);
    }
  }

  lemma UntidyCreate(dir: seq<Entry>, live: Disk, inodes: Inodes, files: Files, i: nat, name: Name, x: nat,
                     d: DiskInode)
    requires Book(dir, live, inodes, files) && i < |dir| && x !in live
    requires dir[i].inUse || exists j | 0 <= j < |dir| :: Named(dir[j], name)
    ensures !TidyBook(dir[i := Entry(x, name, true)], live[x := d], inodes)
  {
    var dir', live' := dir[i := Entry(x, name, true)], live[x := d];
    if dir[i].inUse {
      Overwritten(dir, live, inodes, files, i, name, x);
      assert !Kept(dir', live', inodes, dir[i].sector);
    } else {
      var j :| 0 <= j < |dir| && Named(dir[j], name);
      assert dir'[j] == dir[j] && dir'[i].inUse && dir'[i].name == dir'[j].name;
    }
  }

  // Inodes that are removed stay so, or leave the disk.
  lemma TidySame(dir: seq<Entry>, live: Disk, inodes: Inodes, live': Disk, inodes': Inodes)
    requires TidyBook(dir, live, inodes) && live'.Keys <= live.Keys
    requires forall h | h in inodes && inodes[h].removed && inodes[h].sector in live' ::
      h in inodes' && inodes'[h].removed && inodes'[h].sector == inodes[h].sector
    ensures TidyBook(dir, live', inodes')
  {
    forall y
      ensures Kept(dir, live', inodes', y)
    {
      assert Kept(dir, live, inodes, y);
    }
  }

  lemma TidyRemove(dir: seq<Entry>, live: Disk, inodes: Inodes, i: nat, live': Disk, inodes': Inodes)
    requires TidyBook(dir, live, inodes) && i < |dir| && dir[i].inUse && Marked(inodes, inodes', dir[i].sector)
    requires live' == if L.OpenAt(inodes, dir[i].sector) then live else live - {dir[i].sector}
    ensures TidyBook(dir[i := dir[i].(inUse := false)], live', inodes')
  {
    var dir', x := dir[i := dir[i].(inUse := false)], dir[i].sector;
    forall y
      ensures Kept(dir', live', inodes', y)
    {
      assert Kept(dir, live, inodes, y);
      if h :| h in inodes && inodes[h].sector == y && (inodes[h].removed || y == x) {
        assert h in inodes' && inodes'[h].removed && inodes'[h].sector == y;
      } else if y in live' && Pointed(dir, y) {
        PointedElsewhere(dir, i, dir[i].(inUse := false), y);
      }
    }
  }

  lemma TidyCreated(s: State, t: State, c: Call, e: Env, r: Reply)
    requires Good(s) && Step(s, t, c, e, r) && Tidy(s) && c.Create?
    ensures Tidy(t) <==> !Clobbers(s, c, e)
  {
    hide CanMake;
    if Possible(s.inodes, s.files, c, e) && r.ok {
      var i := Target(s.dir, e.scanReads);
      var x := t.dir[i].sector;
      TargetIs(s.dir, e.scanReads);
      NamedIff(s.dir, c.name);
      if Clobbers(s, c, e) {
        UntidyCreate(s.dir, s.live, s.inodes, s.files, i, c.name, x, t.live[x]);
      } else {
        TidyCreate(s.dir, s.live, s.inodes, i, c.name, x, t.live[x]);
      }
    }
  }

  lemma NamedIff(dir: seq<Entry>, name: Name)
    ensures Where(dir, name).Some? <==> exists j | 0 <= j < |dir| :: Named(dir[j], name)
  {}

  lemma TidyOther(s: State, t: State, c: Call, e: Env, r: Reply)
    requires Good(s) && Step(s, t, c, e, r) && Tidy(s) && !c.Create?
    ensures Tidy(t)
  {
    if c.Remove? && Possible(s.inodes, s.files, c, e) && r.ok {
      var i := Lookup(s.dir, c.name, e.lookupReads).value;
      TidyRemove(s.dir, s.live, s.inodes, i, t.live, t.inodes);
    } else {
      RemovedStays(s, t, c, e, r);
      TidySame(s.dir, s.live, s.inodes, t.live, t.inodes);
    }
  }

  lemma RemovedStays(s: State, t: State, c: Call, e: Env, r: Reply)
    requires Good(s) && Step(s, t, c, e, r) && !c.Create? && !(c.Remove? && r == Done(true))
    ensures t.dir == s.dir && t.live.Keys <= s.live.Keys
    ensures forall h | h in s.inodes && s.inodes[h].removed && s.inodes[h].sector in t.live ::
      h in t.inodes && t.inodes[h].removed && t.inodes[h].sector == s.inodes[h].sector
  {}

  /** Every call keeps the books tidy, except exactly a create whose search is cut short where it matters. */
  lemma TidyStep(s: State, t: State, c: Call, e: Env, r: Reply)
    requires Good(s) && Step(s, t, c, e, r) && Tidy(s)
    ensures Tidy(t) <==> !Clobbers(s, c, e)
  {
    if c.Create? {
      TidyCreated(s, t, c, e, r);
    } else {
      TidyOther(s, t, c, e, r);
    }
  }

  lemma FreshIsTidy(s: State)
    requires Fresh(s)
    ensures Tidy(s)
  {}

  /** So from a formatted disk on, all states are tidy until the first such create. */
  lemma {:induction false} TidyRun(trace: seq<State>, calls: seq<(Call, Env)>, replies: seq<Reply>, n: nat)
    requires Behaves(trace, calls, replies) && Fresh(trace[0]) && n <= |calls|
    requires forall i | 0 <= i < n :: !Clobbers(trace[i], calls[i].0, calls[i].1)
    ensures forall i | 0 <= i <= n :: Tidy(trace[i])
    decreases n
  {
    hide Good, Step, Tidy, Clobbers, Fresh;
    FreshIsTidy(trace[0]);
    if n > 0 {
      TidyRun(trace, calls, replies, n - 1);
      TidyStep(trace[n - 1], trace[n], calls[n - 1].0, calls[n - 1].1, replies[n - 1]);
    }
  }

  /** In a run in which no search is cut short, every file on disk always has exactly one name, or an open file
      keeps it after its removal. */
  lemma UncutRun(trace: seq<State>, calls: seq<(Call, Env)>, replies: seq<Reply>, i: nat, y: nat)
    requires Behaves(trace, calls, replies) && Fresh(trace[0]) && i <= |calls| && y > L.ROOT_DIR_SECTOR
    requires forall k | 0 <= k < |calls| :: Uncut(trace[k].dir, calls[k].1)
    ensures OnceNamed(trace[i].dir)
    ensures var s := trace[i];
      y in s.live <==>
      || Pointed(s.dir, y)
      || exists f | f in s.files && s.files[f].inode in s.inodes ::
           s.inodes[s.files[f].inode].removed && s.inodes[s.files[f].inode].sector == y
  {
    hide Step, Clobbers, Fresh, Kept, L.Inv;
    forall k | 0 <= k < |calls|
      ensures !Clobbers(trace[k], calls[k].0, calls[k].1)
    {
      UncutIsSafe(trace[k], calls[k].0, calls[k].1);
    }
    TidyRun(trace, calls, replies, |calls|);
    var s := trace[i];
    assert Good(s) && Tidy(s);
    NoOrphans(s.dir, s.used, s.live, s.inodes, s.files, y);
    OpenedInodes(s);
  }

  lemma OpenedInodes(s: State)
    requires Good(s)
    ensures forall f | f in s.files :: s.files[f].inode in s.inodes
  {}

  /** filesys_create does to the directory what it should exactly if it does not clobber it. */
  lemma CreateRightIff(s: State, t: State, c: Call, e: Env, r: Reply)
    requires c.Create? && Possible(s.inodes, s.files, c, e) && Step(s, t, c, e, r)
    requires CanMake(s.used, c.initialSize, e)
    ensures AddsRightly(s.dir, t.dir, c.name, e.slotOk, r.ok) <==> !Clobbers(s, c, e)
  {
    hide CanMake, AddsRightly;
    var i := Target(s.dir, e.scanReads);
    AddsRightlyIff(s.dir, t.dir, c.name, if r.ok then t.dir[i].sector else 0, e.lookupReads, e.scanReads, e.slotOk,
                   r.ok);
  }

  /** What is lost when the search for a free slot is cut short: the entry in the slot where it was cut. Its file
      stays on disk, with all its bytes, but no entry points to it. */
  lemma CutScanLosesName(s: State, t: State, c: Call, e: Env, r: Reply)
    requires Good(s) && c.Create? && Possible(s.inodes, s.files, c, e) && Step(s, t, c, e, r) && r.ok
    requires e.scanReads < FirstFree(s.dir, 0, |s.dir|)
    ensures s.dir[e.scanReads].inUse && e.scanReads < |t.dir| && t.dir[e.scanReads].name == c.name
    ensures Lost(t, s.dir[e.scanReads].sector)
    ensures var y := s.dir[e.scanReads].sector;
      y in s.contents && y in t.contents && t.contents[y] == s.contents[y]
  {
    hide CanMake;
    TargetIs(s.dir, e.scanReads);
    var i := e.scanReads;
    Overwritten(s.dir, s.live, s.inodes, s.files, i, c.name, t.dir[i].sector);
  }

  /** It takes two files: the second create loses the first file when its search for a free slot gets no bounce
      buffer at all and the buffer for the slot can be had again. */
  lemma SecondCreateCut(s: State, t: State, u: State, c: Call, d: Call, e: Env, b: Env)
    requires Fresh(s) && Good(t) && c.Create? && d.Create? && c.name != d.name && e.scanReads > 0 && b.scanReads == 0
    requires Possible(s.inodes, s.files, c, e) && Step(s, t, c, e, Done(true))
    requires Possible(t.inodes, t.files, d, b) && Step(t, u, d, b, Done(true))
    ensures t.dir[0].name == c.name && Lost(u, t.dir[0].sector) && Where(u.dir, c.name) == None
  {
    hide CanMake;
    assert Target(s.dir, e.scanReads) == 0 && Target(t.dir, b.scanReads) == 0;
    Overwritten(t.dir, t.live, t.inodes, t.files, 0, d.name, u.dir[0].sector);
    assert forall j | 0 <= j < |u.dir| :: !Named(u.dir[j], c.name);
  }

  // The inode at y is on disk, but no entry points to it and it is not removed.
  ghost predicate Lost(s: State, y: nat)
  {
    && y in s.live && y > L.ROOT_DIR_SECTOR && !Pointed(s.dir, y)
    && forall h | h in s.inodes && s.inodes[h].removed :: s.inodes[h].sector != y
  }

  /** Such a file stays lost, whatever is called: it cannot be opened by name or removed, and keeps its sectors. */
  lemma LostFileStays(s: State, t: State, c: Call, e: Env, r: Reply, y: nat)
    requires Good(s) && Step(s, t, c, e, r) && Lost(s, y)
    ensures Lost(t, y)
  {
    if c.Remove? && Possible(s.inodes, s.files, c, e) && r.ok {
      var i := Lookup(s.dir, c.name, e.lookupReads).value;
      assert s.dir[i].sector != y;
      StillUnpointed(s.dir, i, s.dir[i].(inUse := false), y);
    } else if c.Create? && Possible(s.inodes, s.files, c, e) && r.ok {
      hide CanMake, CanEnter;
      var i := Target(s.dir, e.scanReads);
      StillUnpointed(s.dir, i, t.dir[i], y);
    } else {
      LostOther(s, t, c, e, r, y);
    }
  }

  lemma LostOther(s: State, t: State, c: Call, e: Env, r: Reply, y: nat)
    requires Good(s) && Step(s, t, c, e, r) && Lost(s, y)
    requires !((c.Remove? || c.Create?) && r == Done(true))
    ensures Lost(t, y)
  {
    hide CanMake, CanEnter, Pointed, Lookup, L.Inv, Book;
  }

  lemma StillUnpointed(dir: seq<Entry>, i: nat, e: Entry, y: nat)
    requires i < |dir| && !Pointed(dir, y) && (e.inUse ==> e.sector != y)
    ensures !Pointed(dir[i := e], y)
  {
    var dir' := dir[i := e];
    assert forall j | 0 <= j < |dir'| :: j != i ==> dir'[j] == dir[j];
  }

  /* Names as a map */

  lemma FullLookup(dir: seq<Entry>, name: Name, n: nat)
    requires n >= |dir|
    ensures Lookup(dir, name, n) == Lookup(dir, name, |dir|)
  {}

  // What a name stands for after one slot changed, while every name has at most one entry.
  lemma WhereIs(dir: seq<Entry>, name: Name, i: nat)
    requires OnceNamed(dir) && i < |dir| && Named(dir[i], name)
    ensures Where(dir, name) == Some(dir[i].sector)
  {}

  lemma WhereAfterAdd(dir: seq<Entry>, i: nat, name: Name, x: nat, m: Name)
    requires OnceNamed(dir) && i < |dir| && !dir[i].inUse && Where(dir, name).None?
    ensures Where(dir[i := Entry(x, name, true)], m) == if m == name then Some(x) else Where(dir, m)
  {
    var dir' := dir[i := Entry(x, name, true)];
    assert OnceNamed(dir') by {
      forall j, k | 0 <= j < |dir'| && 0 <= k < |dir'| && dir'[j].inUse && dir'[k].inUse
        ensures dir'[j].name == dir'[k].name ==> j == k
      {
        assert j != i ==> !Named(dir[j], name);
        assert k != i ==> !Named(dir[k], name);
      }
    }
    if m == name {
      assert Named(dir'[i], name);
      WhereIs(dir', name, i);
    } else if Where(dir, m).Some? {
      var j := Lookup(dir, m, |dir|).value;
      assert Named(dir'[j], m);
      WhereIs(dir', m, j);
    } else {
      assert forall j | 0 <= j < |dir'| :: j != i ==> dir'[j] == dir[j];
    }
  }

  lemma WhereAfterErase(dir: seq<Entry>, i: nat, m: Name)
    requires OnceNamed(dir) && i < |dir| && dir[i].inUse
    ensures Where(dir[i := dir[i].(inUse := false)], m) == if m == dir[i].name then None else Where(dir, m)
  {
    var dir' := dir[i := dir[i].(inUse := false)];
    assert forall j | 0 <= j < |dir'| && dir'[j].inUse :: j != i && dir'[j] == dir[j];
    if m != dir[i].name && Where(dir, m).Some? {
      var j := Lookup(dir, m, |dir|).value;
      assert Named(dir'[j], m);
      WhereIs(dir', m, j);
    }
  }

  /** While the books are tidy and no search is cut short, the names are a map from names to header sectors:
      a create succeeds only for a name not in use and adds it with a new sector, a remove succeeds only for a
      name in use and takes it away, an open gets the file of its name, and nothing else changes any name. */
  lemma NamesAreMap(s: State, t: State, c: Call, e: Env, r: Reply, m: Name)
    requires Good(s) && Step(s, t, c, e, r) && Tidy(s) && Uncut(s.dir, e) && r != Refused
    ensures c.Create? && r.ok ==>
      && Where(s.dir, c.name).None? && Where(t.dir, c.name).Some? && Where(t.dir, c.name).value !in s.live
      && (m != c.name ==> Where(t.dir, m) == Where(s.dir, m))
    ensures c.Remove? && r.ok ==>
      Where(s.dir, c.name).Some? && Where(t.dir, m) == if m == c.name then None else Where(s.dir, m)
    ensures c.Open? && r.f.Some? ==>
      && Where(s.dir, c.name).Some? && r.f.value in t.files && t.files[r.f.value].inode in t.inodes
      && SectorOf(t, r.f.value) == Where(s.dir, c.name).value
    ensures !(c.Create? && r.ok) && !(c.Remove? && r.ok) ==> t.dir == s.dir
  {
    if c.Create? && r.ok {
      var i := Target(s.dir, e.scanReads);
      FullLookup(s.dir, c.name, e.lookupReads);
      WhereAfterAdd(s.dir, i, c.name, t.dir[i].sector, c.name);
      WhereAfterAdd(s.dir, i, c.name, t.dir[i].sector, m);
    } else if c.Remove? && r.ok {
      FullLookup(s.dir, c.name, e.lookupReads);
      WhereAfterErase(s.dir, Lookup(s.dir, c.name, e.lookupReads).value, m);
    } else if c.Open? {
      FullLookup(s.dir, c.name, e.lookupReads);
    }
  }
}
