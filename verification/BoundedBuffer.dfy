/** sbuf: the semaphore-based bounded buffer between the acceptor and the workers.
    Any number of inserting and removing threads, interleaved one semaphore
    operation or one access to shared memory at a time. */
module BoundedBuffer {
  import opened FiniteSets
  import opened ThreadSets
  import opened Options
  import IntegerFacts

  type Tid = nat

  datatype PC =
    | Idle
    // sbuf_insert: lines 103-107
    | InsPSlots(item: int) | InsPMutex(item: int) | InsRear(item: int) | InsStore(item: int) | InsVMutex | InsVItems
    // sbuf_remove: lines 113-119
    | RemPItems | RemPMutex | RemFront | RemLoad | RemVMutex(item: int) | RemVSlots(item: int)

  // An item, and the thread that stored or loaded it.
  datatype Move = Move(tid: Tid, item: int)

  // put and got record what was stored and loaded so far; the program does not keep them.
  datatype State = State(n: nat, buf: seq<int>, front: nat, rear: nat, mutex: nat, slots: nat, items: nat,
                         pcs: map<Tid, PC>, put: seq<Move>, got: seq<Move>)

  ghost predicate Step(s: State, s': State, t: Tid) {
    && t in s.pcs && t in s'.pcs && s.n > 0 && |s.buf| == s.n
    && var pc' := s'.pcs[t];
    && var moved := s.(pcs := s.pcs[t := pc']);
    match s.pcs[t]
    case Idle => (pc'.InsPSlots? || pc' == RemPItems) && s' == moved
    case InsPSlots(x) => s.slots > 0 && pc' == InsPMutex(x) && s' == moved.(slots := s.slots - 1)
    case InsPMutex(x) => s.mutex > 0 && pc' == InsRear(x) && s' == moved.(mutex := s.mutex - 1)
    case InsRear(x) => pc' == InsStore(x) && s' == moved.(rear := s.rear + 1)
    case InsStore(x) => pc' == InsVMutex && s' == moved.(buf := s.buf[s.rear % s.n := x], put := s.put + [Move(t, x)])
    case InsVMutex => pc' == InsVItems && s' == moved.(mutex := s.mutex + 1)
    case InsVItems => pc' == Idle && s' == moved.(items := s.items + 1)
    case RemPItems => s.items > 0 && pc' == RemPMutex && s' == moved.(items := s.items - 1)
    case RemPMutex => s.mutex > 0 && pc' == RemFront && s' == moved.(mutex := s.mutex - 1)
    case RemFront => pc' == RemLoad && s' == moved.(front := s.front + 1)
    case RemLoad =>
      pc' == RemVMutex(s.buf[s.front % s.n]) && s' == moved.(got := s.got + [Move(t, s.buf[s.front % s.n])])
    case RemVMutex(x) => pc' == RemVSlots(x) && s' == moved.(mutex := s.mutex + 1)
    case RemVSlots(x) => pc' == Idle && s' == moved.(slots := s.slots + 1)
  }

  ghost predicate Next(s: State, s': State) {
    exists t :: Step(s, s', t)
  }

  // sbuf_init(n), n > 0.
  ghost predicate Init(s: State) {
    && s.n > 0 && |s.buf| == s.n && s.front == s.rear == 0
    && s.mutex == 1 && s.slots == s.n && s.items == 0
    && s.put == [] && s.got == []
    && forall t | t in s.pcs :: s.pcs[t] == Idle
  }

  ghost predicate IsRun(run: seq<State>) {
    |run| > 0 && Init(run[0]) && forall i | 0 < i < |run| :: Next(run[i - 1], run[i])
  }

  /* Classes of threads */

  predicate HoldsMutex(pc: PC) {
    pc.InsRear? || pc.InsStore? || pc.InsVMutex? || pc.RemFront? || pc.RemLoad? || pc.RemVMutex?
  }

  // Holding a slot that is not filled yet, and filled slots that are not announced yet.
  predicate Filling(pc: PC) { pc.InsPMutex? || pc.InsRear? || pc.InsStore? }

  predicate Filled(pc: PC) { pc.InsVMutex? || pc.InsVItems? }

  // Holding an item that is not loaded yet, and loaded items whose slot is not given back yet.
  predicate Emptying(pc: PC) { pc.RemPMutex? || pc.RemFront? || pc.RemLoad? }

  predicate Emptied(pc: PC) { pc.RemVMutex? || pc.RemVSlots? }

  predicate AtStore(pc: PC) { pc.InsStore? }

  predicate AtLoad(pc: PC) { pc.RemLoad? }

  ghost function Count(pcs: map<Tid, PC>, p: PC -> bool): nat {
    |Threads(pcs, p)|
  }

  ghost predicate Inv(s: State) {
    && s.n > 0 && |s.buf| == s.n
    && s.mutex + Count(s.pcs, HoldsMutex) == 1
    && s.rear == |s.put| + Count(s.pcs, AtStore)
    && s.front == |s.got| + Count(s.pcs, AtLoad)
    // every stored item is announced, about to be announced, being loaded or loaded
    && |s.put| == |s.got| + s.items + Count(s.pcs, Filled) + Count(s.pcs, Emptying)
    // every slot is free, being filled, holds an item or is being given back
    && s.slots + Count(s.pcs, Filling) + (|s.put| - |s.got|) + Count(s.pcs, Emptied) == s.n
    && (forall k {:trigger s.put[k]} | |s.got| <= k < |s.put| :: s.buf[(k + 1) % s.n] == s.put[k].item)
    && |s.got| <= |s.put| && forall k | 0 <= k < |s.got| :: s.got[k].item == s.put[k].item
  }

  lemma CountMoved(pcs: map<Tid, PC>, t: Tid, pc': PC, p: PC -> bool)
    requires t in pcs
    ensures Count(pcs[t := pc'], p) == Count(pcs, p) + Int(p(pc')) - Int(p(pcs[t]))
  {
    Moved(pcs, t, pc', p);
  }

  // The effect of a step on the counters.
  lemma StepEffect(s: State, s': State, t: Tid)
    requires Step(s, s', t)
    ensures s'.pcs == s.pcs[t := s'.pcs[t]] && s'.n == s.n && |s'.buf| == s.n
    ensures var pc, pc' := s.pcs[t], s'.pcs[t];
      && s'.mutex + Int(HoldsMutex(pc')) == s.mutex + Int(HoldsMutex(pc))
      && s'.rear - Int(AtStore(pc')) - |s'.put| == s.rear - Int(AtStore(pc)) - |s.put|
      && s'.front - Int(AtLoad(pc')) - |s'.got| == s.front - Int(AtLoad(pc)) - |s.got|
      && |s'.put| == |s.put| + Int(pc.InsStore?) && |s'.got| == |s.got| + Int(pc.RemLoad?)
      && s'.items + Int(Filled(pc')) + Int(Emptying(pc')) - Int(pc.InsStore?) + Int(pc.RemLoad?) ==
         s.items + Int(Filled(pc)) + Int(Emptying(pc))
      && s'.slots + Int(Filling(pc')) + Int(Emptied(pc')) + Int(pc.InsStore?) - Int(pc.RemLoad?) ==
         s.slots + Int(Filling(pc)) + Int(Emptied(pc))
  {}

  lemma CountersStep(s: State, s': State, t: Tid)
    requires Inv(s) && Step(s, s', t)
    ensures s'.mutex + Count(s'.pcs, HoldsMutex) == 1
    ensures s'.rear == |s'.put| + Count(s'.pcs, AtStore)
    ensures s'.front == |s'.got| + Count(s'.pcs, AtLoad)
    ensures |s'.put| == |s'.got| + s'.items + Count(s'.pcs, Filled) + Count(s'.pcs, Emptying)
    ensures s'.slots + Count(s'.pcs, Filling) + (|s'.put| - |s'.got|) + Count(s'.pcs, Emptied) == s'.n
  {
    StepEffect(s, s', t);
    assert t in s.pcs;
    hide Step, Count;
    var pc' := s'.pcs[t];
    CountMoved(s.pcs, t, pc', HoldsMutex);
    CountMoved(s.pcs, t, pc', AtStore);
    CountMoved(s.pcs, t, pc', AtLoad);
    CountMoved(s.pcs, t, pc', Filled);
    CountMoved(s.pcs, t, pc', Emptying);
    CountMoved(s.pcs, t, pc', Filling);
    CountMoved(s.pcs, t, pc', Emptied);
  }

  // Distinct live positions occupy distinct slots.
  lemma SlotsDistinct(n: nat, a: nat, b: nat)
    requires n > 0 && a < b < a + n
    ensures a % n != b % n
  {
    IntegerFacts.DivMod(a, n);
    IntegerFacts.DivMod(b, n);
    var qa, qb := a / n, b / n;
    IntegerFacts.MulDist(qb, qa, n);
    IntegerFacts.MulDist(qa, 1, n);
    if qa < qb {
      IntegerFacts.MulMono(qa + 1, qb, n);
    } else {
      IntegerFacts.MulMono(qb, qa, n);
    }
  }

  lemma AtMostOne(s: State, t: Tid)
    requires s.mutex + Count(s.pcs, HoldsMutex) == 1 && t in s.pcs
    ensures s.pcs[t].InsStore? ==> Count(s.pcs, AtStore) == 1 && Count(s.pcs, AtLoad) == 0
    ensures s.pcs[t].RemLoad? ==> Count(s.pcs, AtLoad) == 1 && Count(s.pcs, AtStore) == 0
  {
    if HoldsMutex(s.pcs[t]) {
      forall x | x in s.pcs && HoldsMutex(s.pcs[x])
        ensures x == t
      {
        OnlyOne(Threads(s.pcs, HoldsMutex), x, t);
      }
      assert s.pcs[t].InsStore? ==> Threads(s.pcs, AtStore) == {t} && Threads(s.pcs, AtLoad) == {};
      assert s.pcs[t].RemLoad? ==> Threads(s.pcs, AtLoad) == {t} && Threads(s.pcs, AtStore) == {};
    }
  }

  // A store goes to a slot that holds no unread item; a load takes the oldest unread item.
  lemma BufferStep(s: State, s': State, t: Tid)
    requires Inv(s) && Step(s, s', t)
    ensures |s'.got| <= |s'.put| && forall k | 0 <= k < |s'.got| :: s'.got[k].item == s'.put[k].item
    ensures forall k {:trigger s'.put[k]} | |s'.got| <= k < |s'.put| :: s'.buf[(k + 1) % s'.n] == s'.put[k].item
  {
    AtMostOne(s, t);
    var pc := s.pcs[t];
    if pc.InsStore? {
      StoreRoom(s, t);
      forall k | |s'.got| <= k < |s'.put|
        ensures s'.buf[(k + 1) % s'.n] == s'.put[k].item
      {
        if k < |s.put| {
          SlotsDistinct(s.n, k + 1, s.rear);
          assert s.buf[(k + 1) % s.n] == s.put[k].item;
        }
      }
    } else if pc.RemLoad? {
      LoadRoom(s, t);
      assert s.put[|s.got|].item == s.buf[s.front % s.n];
    }
  }

  lemma StoreRoom(s: State, t: Tid)
    requires Inv(s) && t in s.pcs && s.pcs[t].InsStore?
    ensures |s.put| - |s.got| < s.n && s.rear == |s.put| + 1
  {
    AtMostOne(s, t);
    CountMoved(s.pcs, t, Idle, Filling);
  }

  lemma LoadRoom(s: State, t: Tid)
    requires Inv(s) && t in s.pcs && s.pcs[t].RemLoad?
    ensures |s.got| < |s.put| && s.front == |s.got| + 1
  {
    AtMostOne(s, t);
    CountMoved(s.pcs, t, Idle, Emptying);
  }

  lemma InvStep(s: State, s': State, t: Tid)
    requires Inv(s) && Step(s, s', t)
    ensures Inv(s')
  {
    CountersStep(s, s', t);
    BufferStep(s, s', t);
    StepEffect(s, s', t);
    hide Step, Count;
  }

  lemma InitInv(s: State)
    requires Init(s)
    ensures Inv(s)
  {
    assert Threads(s.pcs, HoldsMutex) == {} && Threads(s.pcs, AtStore) == {} && Threads(s.pcs, AtLoad) == {};
    assert Threads(s.pcs, Filled) == {} && Threads(s.pcs, Emptying) == {};
    assert Threads(s.pcs, Filling) == {} && Threads(s.pcs, Emptied) == {};
  }

  lemma {:induction false} RunInv(run: seq<State>, i: nat)
    requires IsRun(run) && i < |run|
    ensures Inv(run[i]) && run[i].n == run[0].n
    decreases i
  {
    if i == 0 {
      InitInv(run[0]);
    } else {
      RunInv(run, i - 1);
      var t: Tid :| Step(run[i - 1], run[i], t);
      InvStep(run[i - 1], run[i], t);
    }
  }

  /* The promised properties, for every run */

  // The k-th item loaded is the k-th item stored.
  lemma InOrder(run: seq<State>, i: nat, k: nat)
    requires IsRun(run) && i < |run| && k < |run[i].got|
    ensures k < |run[i].put| && run[i].got[k].item == run[i].put[k].item
  {
    RunInv(run, i);
  }

  /* Calls: from arguments to results */

  // Thread t is busy from state i on, and idle again in state j.
  ghost predicate Serves(run: seq<State>, i: nat, j: nat, t: Tid) {
    && i < j < |run| && t in run[j].pcs && run[j].pcs[t] == Idle
    && forall m | i <= m < j :: t in run[m].pcs && run[m].pcs[t] != Idle
  }

  // A call of sbuf_insert with argument x.
  ghost predicate Inserts(run: seq<State>, i: nat, j: nat, t: Tid, x: int) {
    Serves(run, i, j, t) && run[i].pcs[t] == InsPSlots(x)
  }

  // A call of sbuf_remove that returns x.
  ghost predicate Removes(run: seq<State>, i: nat, j: nat, t: Tid, x: int) {
    Serves(run, i, j, t) && run[i].pcs[t] == RemPItems && run[j - 1].pcs[t] == RemVSlots(x)
  }

  // The moves b are those of a and more; among the new ones t has none.
  ghost predicate NoneNew(a: seq<Move>, b: seq<Move>, t: Tid) {
    a <= b && forall p | |a| <= p < |b| :: b[p].tid != t
  }

  // Among the new ones t has that at position k, of item x, and no other.
  ghost predicate OneNew(a: seq<Move>, b: seq<Move>, t: Tid, x: int, k: nat) {
    a <= b && |a| <= k < |b| && b[k] == Move(t, x) && forall p | |a| <= p < |b| && p != k :: b[p].tid != t
  }

  ghost predicate SomeNew(a: seq<Move>, b: seq<Move>, t: Tid, x: int) {
    exists k: nat :: OneNew(a, b, t, x, k)
  }

  // How far the insertion of x that started in state s0 is.
  ghost predicate InsertSoFar(s0: State, s: State, t: Tid, x: int) {
    && t in s.pcs && NoneNew(s0.got, s.got, t)
    && match s.pcs[t]
       case InsPSlots(y) => y == x && NoneNew(s0.put, s.put, t)
       case InsPMutex(y) => y == x && NoneNew(s0.put, s.put, t)
       case InsRear(y) => y == x && NoneNew(s0.put, s.put, t)
       case InsStore(y) => y == x && NoneNew(s0.put, s.put, t)
       case InsVMutex => SomeNew(s0.put, s.put, t, x)
       case InsVItems => SomeNew(s0.put, s.put, t, x)
       case _ => false
  }

  ghost predicate RemoveSoFar(s0: State, s: State, t: Tid) {
    && t in s.pcs && NoneNew(s0.put, s.put, t)
    && match s.pcs[t]
       case RemPItems => NoneNew(s0.got, s.got, t)
       case RemPMutex => NoneNew(s0.got, s.got, t)
       case RemFront => NoneNew(s0.got, s.got, t)
       case RemLoad => NoneNew(s0.got, s.got, t)
       case RemVMutex(x) => SomeNew(s0.got, s.got, t, x)
       case RemVSlots(x) => SomeNew(s0.got, s.got, t, x)
       case _ => false
  }

  // One step as the moves see it: at most one new move, of the thread that steps.
  ghost predicate Adds(a: seq<Move>, b: seq<Move>, t: Tid) {
    b == a || (|b| == |a| + 1 && b[..|a|] == a && b[|a|].tid == t)
  }

  lemma MovesStep(s: State, s': State, x: Tid)
    requires Step(s, s', x)
    ensures x in s.pcs && s'.pcs == s.pcs[x := s'.pcs[x]] && Adds(s.put, s'.put, x) && Adds(s.got, s'.got, x)
    ensures s'.put == s.put || (s.pcs[x].InsStore? && s'.put == s.put + [Move(x, s.pcs[x].item)])
    ensures s'.got == s.got || (s.pcs[x].RemLoad? && exists y :: s'.got == s.got + [Move(x, y)])
  {}

  lemma NoneKept(a: seq<Move>, b: seq<Move>, c: seq<Move>, t: Tid, x: Tid)
    requires NoneNew(a, b, t) && Adds(b, c, x) && (x != t || c == b)
    ensures NoneNew(a, c, t)
  {}

  lemma SomeKept(a: seq<Move>, b: seq<Move>, c: seq<Move>, t: Tid, y: int, x: Tid)
    requires SomeNew(a, b, t, y) && Adds(b, c, x) && (x != t || c == b)
    ensures SomeNew(a, c, t, y)
  {
    var k: nat :| OneNew(a, b, t, y, k);
    assert OneNew(a, c, t, y, k);
  }

  lemma NowOne(a: seq<Move>, b: seq<Move>, t: Tid, y: int)
    requires NoneNew(a, b, t)
    ensures SomeNew(a, b + [Move(t, y)], t, y)
  {
    assert OneNew(a, b + [Move(t, y)], t, y, |b|);
  }

  lemma InsertOther(s0: State, s: State, s': State, t: Tid, x: int, u: Tid)
    requires Step(s, s', u) && u != t && InsertSoFar(s0, s, t, x)
    ensures InsertSoFar(s0, s', t, x)
  {
    MovesStep(s, s', u);
    hide Step, NoneNew, SomeNew, Adds;
    NoneKept(s0.got, s.got, s'.got, t, u);
    if s.pcs[t].InsVMutex? || s.pcs[t].InsVItems? {
      SomeKept(s0.put, s.put, s'.put, t, x, u);
    } else {
      NoneKept(s0.put, s.put, s'.put, t, u);
    }
  }

  lemma InsertOwn(s0: State, s: State, s': State, t: Tid, x: int)
    requires Step(s, s', t) && InsertSoFar(s0, s, t, x)
    ensures if s'.pcs[t] == Idle then SomeNew(s0.put, s'.put, t, x) else InsertSoFar(s0, s', t, x)
  {
    hide NoneNew, SomeNew;
    if s.pcs[t].InsStore? {
      NowOne(s0.put, s.put, t, x);
    }
  }

  lemma RemoveOther(s0: State, s: State, s': State, t: Tid, u: Tid)
    requires Step(s, s', u) && u != t && RemoveSoFar(s0, s, t)
    ensures RemoveSoFar(s0, s', t)
  {
    MovesStep(s, s', u);
    hide Step, NoneNew, SomeNew, Adds;
    NoneKept(s0.put, s.put, s'.put, t, u);
    if s.pcs[t].RemVMutex? || s.pcs[t].RemVSlots? {
      SomeKept(s0.got, s.got, s'.got, t, s.pcs[t].item, u);
    } else {
      NoneKept(s0.got, s.got, s'.got, t, u);
    }
  }

  lemma RemoveOwn(s0: State, s: State, s': State, t: Tid)
    requires Step(s, s', t) && RemoveSoFar(s0, s, t)
    ensures if s'.pcs[t] == Idle then s.pcs[t].RemVSlots? && s'.got == s.got else RemoveSoFar(s0, s', t)
  {
    hide NoneNew, SomeNew;
    if s.pcs[t].RemLoad? {
      NowOne(s0.got, s.got, t, s.buf[s.front % s.n]);
    }
  }

  lemma StepAt(run: seq<State>, m: nat) returns (x: Tid)
    requires IsRun(run) && m + 1 < |run|
    ensures Step(run[m], run[m + 1], x)
  {
    x :| Step(run[m], run[m + 1], x);
  }

  lemma SoFarStarts(s: State, t: Tid)
    requires t in s.pcs
    ensures s.pcs[t].InsPSlots? ==> InsertSoFar(s, s, t, s.pcs[t].item)
    ensures s.pcs[t] == RemPItems ==> RemoveSoFar(s, s, t)
  {}

  lemma {:induction false} InsertUntil(run: seq<State>, i: nat, m: nat, j: nat, t: Tid, x: int)
    requires IsRun(run) && Inserts(run, i, j, t, x) && i <= m < j
    ensures InsertSoFar(run[i], run[m], t, x)
    decreases m
  {
    hide Step, InsertSoFar, IsRun, NoneNew, SomeNew;
    if i == m {
      SoFarStarts(run[i], t);
    } else {
      InsertUntil(run, i, m - 1, j, t, x);
      var u := StepAt(run, m - 1);
      if u == t {
        InsertOwn(run[i], run[m - 1], run[m], t, x);
      } else {
        InsertOther(run[i], run[m - 1], run[m], t, x, u);
      }
    }
  }

  lemma {:induction false} RemoveUntil(run: seq<State>, i: nat, m: nat, j: nat, t: Tid)
    requires IsRun(run) && Serves(run, i, j, t) && run[i].pcs[t] == RemPItems && i <= m < j
    ensures RemoveSoFar(run[i], run[m], t)
    decreases m
  {
    hide Step, RemoveSoFar, IsRun, NoneNew, SomeNew;
    if i == m {
      SoFarStarts(run[i], t);
    } else {
      RemoveUntil(run, i, m - 1, j, t);
      var u := StepAt(run, m - 1);
      if u == t {
        RemoveOwn(run[i], run[m - 1], run[m], t);
      } else {
        RemoveOther(run[i], run[m - 1], run[m], t, u);
      }
    }
  }

  // The thread that steps to idle is the one that was busy.
  lemma LastStep(run: seq<State>, i: nat, j: nat, t: Tid)
    requires IsRun(run) && Serves(run, i, j, t)
    ensures Step(run[j - 1], run[j], t)
  {
    hide Step, IsRun;
    var u := StepAt(run, j - 1);
    Mover(run[j - 1], run[j], u, t);
  }

  lemma Mover(s: State, s': State, u: Tid, t: Tid)
    requires Step(s, s', u) && t in s.pcs && t in s'.pcs && s'.pcs[t] != s.pcs[t]
    ensures u == t
  {}

  /** A call of sbuf_insert that finishes stores its argument, at one position, and nothing else. */
  lemma InsertCall(run: seq<State>, i: nat, j: nat, t: Tid, x: int) returns (k: nat)
    requires IsRun(run) && Inserts(run, i, j, t, x)
    ensures OneNew(run[i].put, run[j].put, t, x, k)
  {
    hide Step, InsertSoFar, OneNew;
    InsertUntil(run, i, j - 1, j, t, x);
    LastStep(run, i, j, t);
    InsertOwn(run[i], run[j - 1], run[j], t, x);
    k :| OneNew(run[i].put, run[j].put, t, x, k);
  }

  /** A call of sbuf_remove that finishes has a result, which it loaded, at one position, and nothing else. */
  lemma RemoveCall(run: seq<State>, i: nat, j: nat, t: Tid) returns (x: int, k: nat)
    requires IsRun(run) && Serves(run, i, j, t) && run[i].pcs[t] == RemPItems
    ensures Removes(run, i, j, t, x) && OneNew(run[i].got, run[j].got, t, x, k)
  {
    hide Step, OneNew;
    RemoveUntil(run, i, j - 1, j, t);
    LastStep(run, i, j, t);
    RemoveOwn(run[i], run[j - 1], run[j], t);
    x := run[j - 1].pcs[t].item;
    k :| OneNew(run[i].got, run[j].got, t, x, k);
  }

  lemma {:induction false} Longer(run: seq<State>, i: nat, j: nat)
    requires IsRun(run) && i <= j < |run|
    ensures run[i].put <= run[j].put && run[i].got <= run[j].got
    decreases j
  {
    if i < j {
      Longer(run, i, j - 1);
      var u := StepAt(run, j - 1);
      MovesStep(run[j - 1], run[j], u);
    }
  }

  /** First in, first out: the call of sbuf_remove at position k returns the argument of the call of sbuf_insert at
      position k, whenever and by whomever they are made. */
  lemma Fifo(run: seq<State>, i: nat, j: nat, t: Tid, x: int, a: nat, b: nat, u: Tid, y: int, k: nat)
    requires IsRun(run) && Inserts(run, i, j, t, x) && OneNew(run[i].put, run[j].put, t, x, k)
    requires Removes(run, a, b, u, y) && OneNew(run[a].got, run[b].got, u, y, k)
    ensures y == x
  {
    InOrder(run, b, k);
    if b <= j {
      Longer(run, b, j);
    } else {
      Longer(run, j, b);
    }
  }

  /** Calls that follow each other have positions that follow each other. */
  lemma CallOrder(run: seq<State>, i: nat, j: nat, t: Tid, x: int, k: nat, i': nat, j': nat, t': Tid, x': int, k': nat)
    requires IsRun(run) && j <= i' && i < j && i' < j' < |run|
    ensures OneNew(run[i].put, run[j].put, t, x, k) && OneNew(run[i'].put, run[j'].put, t', x', k') ==> k < k'
    ensures OneNew(run[i].got, run[j].got, t, x, k) && OneNew(run[i'].got, run[j'].got, t', x', k') ==> k < k'
  {
    Longer(run, j, i');
  }

  // The item that thread t carries towards the buffer, or stored there, was the argument of a call.
  ghost predicate Asked(run: seq<State>, m: nat, t: Tid, x: int) {
    exists i: nat :: i <= m < |run| && t in run[i].pcs && run[i].pcs[t] == InsPSlots(x)
  }

  lemma AskedLater(run: seq<State>, m: nat, n: nat, t: Tid, x: int)
    requires Asked(run, m, t, x) && m <= n < |run|
    ensures Asked(run, n, t, x)
  {}

  // The item on its way into the buffer.
  function Carried(pc: PC): Option<int> {
    match pc
    case InsPSlots(x) => Some(x)
    case InsPMutex(x) => Some(x)
    case InsRear(x) => Some(x)
    case InsStore(x) => Some(x)
    case _ => None
  }

  ghost predicate AllAsked(run: seq<State>, m: nat)
    requires m < |run|
  {
    && (forall t | t in run[m].pcs && Carried(run[m].pcs[t]).Some? :: Asked(run, m, t, Carried(run[m].pcs[t]).value))
    && forall k | 0 <= k < |run[m].put| :: Asked(run, m, run[m].put[k].tid, run[m].put[k].item)
  }

  /** Every item stored was the argument of an earlier call of sbuf_insert by the same thread; so with InOrder no
      result of sbuf_remove is made up. */
  lemma {:induction false} StoredWasAsked(run: seq<State>, m: nat)
    requires IsRun(run) && m < |run|
    ensures AllAsked(run, m)
    decreases m
  {
    if m > 0 {
      StoredWasAsked(run, m - 1);
      var u := StepAt(run, m - 1);
      AskedStep(run, m - 1, u);
    }
  }

  lemma AskedStep(run: seq<State>, m: nat, u: Tid)
    requires m + 1 < |run| && AllAsked(run, m) && Step(run[m], run[m + 1], u)
    ensures AllAsked(run, m + 1)
  {
    CarriedStep(run[m], run[m + 1], u);
    forall t, x | Asked(run, m, t, x)
      ensures Asked(run, m + 1, t, x)
    {
      AskedLater(run, m, m + 1, t, x);
    }
    if run[m + 1].pcs[u].InsPSlots? {
      assert Asked(run, m + 1, u, run[m + 1].pcs[u].item);
    }
    hide Asked, Step, Carried;
  }

  lemma CarriedStep(s: State, s': State, u: Tid)
    requires Step(s, s', u)
    ensures u in s.pcs && s'.pcs == s.pcs[u := s'.pcs[u]]
    ensures Carried(s'.pcs[u]).Some? ==> s'.pcs[u].InsPSlots? || Carried(s.pcs[u]) == Carried(s'.pcs[u])
    ensures s'.pcs[u].InsPSlots? ==> Carried(s'.pcs[u]) == Some(s'.pcs[u].item)
    ensures s'.put == s.put || (Carried(s.pcs[u]).Some? && s'.put == s.put + [Move(u, Carried(s.pcs[u]).value)])
  {}

  // Never more than n unread items.
  lemma Capacity(run: seq<State>, i: nat)
    requires IsRun(run) && i < |run|
    ensures 0 <= |run[i].put| - |run[i].got| <= run[0].n
  {
    RunInv(run, i);
  }

  // An insert never overwrites an unread item.
  lemma NoOverwrite(run: seq<State>, i: nat, t: Tid, k: nat)
    requires IsRun(run) && i + 1 < |run| && Step(run[i], run[i + 1], t) && run[i].pcs[t].InsStore?
    requires |run[i].got| <= k < |run[i].put|
    ensures (k + 1) % run[i].n != run[i].rear % run[i].n
    ensures run[i + 1].buf[(k + 1) % run[i].n] == run[i].put[k].item
  {
    RunInv(run, i);
    RunInv(run, i + 1);
    StepKeeps(run[i], run[i + 1], t);
    hide Step, Inv, IsRun;
    ItemAt(run[i + 1], k);
    StoreRoom(run[i], t);
    SlotsDistinct(run[i].n, k + 1, run[i].rear);
  }

  lemma StepKeeps(s: State, s': State, t: Tid)
    requires Step(s, s', t) && s.pcs[t].InsStore?
    ensures t in s.pcs && s'.n == s.n && s'.got == s.got && s.put <= s'.put
  {}

  lemma ItemAt(s: State, k: nat)
    requires Inv(s) && |s.got| <= k < |s.put|
    ensures |s.buf| == s.n > 0 && s.buf[(k + 1) % s.n] == s.put[k].item
  {
    var item := s.put[k];
  }

  // A remove never reads an empty slot: it gets the oldest unread item.
  lemma NoEmptyRead(run: seq<State>, i: nat, t: Tid)
    requires IsRun(run) && i + 1 < |run| && Step(run[i], run[i + 1], t) && run[i].pcs[t].RemLoad?
    ensures |run[i].got| < |run[i].put|
    ensures run[i + 1].pcs[t] == RemVMutex(run[i].put[|run[i].got|].item)
  {
    RunInv(run, i);
    LoadRoom(run[i], t);
    assert run[i].buf[run[i].front % run[i].n] == run[i].put[|run[i].got|].item;
  }

  predicate Inserting(pc: PC) { Filling(pc) || Filled(pc) }

  predicate Removing(pc: PC) { Emptying(pc) || Emptied(pc) }

  predicate InFlight(pc: PC) { Inserting(pc) || Removing(pc) }

  // slots, items and the operations between their two semaphores always total n.
  lemma TokensConserved(run: seq<State>, i: nat)
    requires IsRun(run) && i < |run|
    ensures run[i].slots + run[i].items + Count(run[i].pcs, InFlight) == run[0].n
  {
    RunInv(run, i);
    Total(run[i]);
    FlightSize(run[i].pcs);
  }

  lemma FlightSize(pcs: map<Tid, PC>)
    ensures Count(pcs, InFlight) ==
      Count(pcs, Filling) + Count(pcs, Filled) + Count(pcs, Emptying) + Count(pcs, Emptied)
  {
    hide Count;
    Both(pcs, Filling, Filled, Inserting);
    Both(pcs, Emptying, Emptied, Removing);
    Both(pcs, Inserting, Removing, InFlight);
  }

  lemma Both(pcs: map<Tid, PC>, p: PC -> bool, q: PC -> bool, r: PC -> bool)
    requires forall pc :: r(pc) <==> p(pc) || q(pc)
    requires forall pc :: !(p(pc) && q(pc))
    ensures Count(pcs, r) == Count(pcs, p) + Count(pcs, q)
  {
    assert Threads(pcs, r) == Threads(pcs, p) + Threads(pcs, q);
  }

  lemma Total(s: State)
    ensures Inv(s) ==> s.slots + s.items + Count(s.pcs, Filling) + Count(s.pcs, Filled)
                       + Count(s.pcs, Emptying) + Count(s.pcs, Emptied) == s.n
  {}

  // An idle thread can insert any item, or remove one.
  lemma AnyCallStarts(s: State, t: Tid, x: int)
    requires s.n > 0 && |s.buf| == s.n && t in s.pcs && s.pcs[t] == Idle
    ensures Step(s, s.(pcs := s.pcs[t := InsPSlots(x)]), t) && Step(s, s.(pcs := s.pcs[t := RemPItems]), t)
  {}

  /* No deadlock */

  predicate Ready(s: State, t: Tid) {
    && t in s.pcs && !s.pcs[t].Idle?
    && (s.pcs[t].InsPSlots? ==> s.slots > 0) && (s.pcs[t].RemPItems? ==> s.items > 0)
    && (s.pcs[t].InsPMutex? || s.pcs[t].RemPMutex? ==> s.mutex > 0)
  }

  lemma ReadyMoves(s: State, t: Tid)
    requires s.n > 0 && |s.buf| == s.n && Ready(s, t)
    ensures exists s' :: Step(s, s', t)
  {
    var x := s.buf[s.front % s.n];
    match s.pcs[t]
    case InsPSlots(x) => assert Step(s, s.(slots := s.slots - 1, pcs := s.pcs[t := InsPMutex(x)]), t);
    case InsPMutex(x) => assert Step(s, s.(mutex := s.mutex - 1, pcs := s.pcs[t := InsRear(x)]), t);
    case InsRear(x) => assert Step(s, s.(rear := s.rear + 1, pcs := s.pcs[t := InsStore(x)]), t);
    case InsStore(x) =>
      assert Step(s, s.(buf := s.buf[s.rear % s.n := x], put := s.put + [Move(t, x)], pcs := s.pcs[t := InsVMutex]), t);
    case InsVMutex => assert Step(s, s.(mutex := s.mutex + 1, pcs := s.pcs[t := InsVItems]), t);
    case InsVItems => assert Step(s, s.(items := s.items + 1, pcs := s.pcs[t := Idle]), t);
    case RemPItems => assert Step(s, s.(items := s.items - 1, pcs := s.pcs[t := RemPMutex]), t);
    case RemPMutex => assert Step(s, s.(mutex := s.mutex - 1, pcs := s.pcs[t := RemFront]), t);
    case RemFront => assert Step(s, s.(front := s.front + 1, pcs := s.pcs[t := RemLoad]), t);
    case RemLoad => assert Step(s, s.(got := s.got + [Move(t, x)], pcs := s.pcs[t := RemVMutex(x)]), t);
    case RemVMutex(y) => assert Step(s, s.(mutex := s.mutex + 1, pcs := s.pcs[t := RemVSlots(y)]), t);
    case RemVSlots(_) => assert Step(s, s.(slots := s.slots + 1, pcs := s.pcs[t := Idle]), t);
  }

  predicate Waiting(pc: PC) { pc.InsPSlots? || pc.RemPItems? }

  // Some operation in progress can move, unless all of them wait and the buffer
  // really is full (only inserts wait) or really is empty (only removes wait).
  lemma NoDeadlock(run: seq<State>, i: nat, busy: Tid)
    requires IsRun(run) && i < |run| && busy in run[i].pcs && !run[i].pcs[busy].Idle?
    ensures var s := run[i];
      || (exists t, s' :: t in s.pcs && !s.pcs[t].Idle? && Step(s, s', t))
      || (|s.put| - |s.got| == s.n && forall t | t in s.pcs :: s.pcs[t].Idle? || s.pcs[t].InsPSlots?)
      || (|s.put| == |s.got| && forall t | t in s.pcs :: s.pcs[t].Idle? || s.pcs[t].RemPItems?)
  {
    RunInv(run, i);
    var s := run[i];
    if t :| t in s.pcs && Ready(s, t) {
      ReadyMoves(s, t);
    } else {
      AllWaiting(s, busy);
    }
  }

  lemma AllWaiting(s: State, busy: Tid)
    requires Inv(s) && busy in s.pcs && !s.pcs[busy].Idle?
    requires forall t | t in s.pcs :: !Ready(s, t)
    ensures || (|s.put| - |s.got| == s.n && forall t | t in s.pcs :: s.pcs[t].Idle? || s.pcs[t].InsPSlots?)
            || (|s.put| == |s.got| && forall t | t in s.pcs :: s.pcs[t].Idle? || s.pcs[t].RemPItems?)
  {
    assert Threads(s.pcs, HoldsMutex) == {} by {
      assert forall t | t in s.pcs :: !Ready(s, t) ==> !HoldsMutex(s.pcs[t]);
    }
    assert s.mutex == 1;
    forall t | t in s.pcs
      ensures s.pcs[t].Idle? || Waiting(s.pcs[t])
    {
      assert !Ready(s, t);
    }
    assert Threads(s.pcs, Filling) == {} && Threads(s.pcs, Filled) == {};
    assert Threads(s.pcs, Emptying) == {} && Threads(s.pcs, Emptied) == {};
    if s.slots > 0 {
      forall t | t in s.pcs
        ensures !s.pcs[t].InsPSlots?
      {
        assert !Ready(s, t);
      }
    }
    if s.items > 0 {
      forall t | t in s.pcs
        ensures !s.pcs[t].RemPItems?
      {
        assert !Ready(s, t);
      }
    }
  }
}
