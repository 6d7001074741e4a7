/** The show, buy and sell critical sections of stock_server, interleaved one
    semaphore operation or one access to shared memory at a time. A worker thread
    follows the program counter PC; a run is any sequence of such steps by any
    threads. An unknown stock id ends the process, and with it the run. */
module StockServer {
  import opened Options
  import opened StockTree
  import opened FiniteSets
  import opened ThreadSets

  type Tid = nat

  datatype Kind = Buy | Sell

  datatype Req = Req(kind: Kind, id: int, amount: int)

  datatype PC =
    | Idle
    // show, on the way in: lines 146-151
    | ShowP | ShowInc | ShowTest | ShowPW | ShowV
    // show_tree, with the lines printed so far
    | Reading(out: seq<Line>)
    // show, on the way out: lines 155-160
    | DoneP(out: seq<Line>) | DoneDec(out: seq<Line>) | DoneTest(out: seq<Line>)
    | DoneVW(out: seq<Line>) | DoneV(out: seq<Line>)
    // buy and sell: lines 173-193 and 200-216
    | WriteP(req: Req) | WriteFind(req: Req) | WriteTest(req: Req) | WriteLoad(req: Req)
    | WriteStore(req: Req, seen: int) | WriteV(req: Req, reply: Reply)

  // What a buy or sell answers: lines 186, 188 and 212.
  datatype Reply = Success | NotEnough

  datatype Event = Sold(id: int, amount: int) | Bought(id: int, amount: int)

  // events records the completed updates of counts, in order; the program does not keep it.
  datatype State = State(mutex: nat, w: nat, readcnt: int, tree: Tree, halted: bool,
                         pcs: map<Tid, PC>, events: seq<Event>)

  /* One step of thread t */

  ghost predicate Starts(pc: PC) {
    pc == ShowP || pc.WriteP?
  }

  ghost predicate Step(s: State, s': State, t: Tid) {
    && t in s.pcs && t in s'.pcs && !s.halted
    && var pc' := s'.pcs[t];
    && var moved := s.(pcs := s.pcs[t := pc']);
    match s.pcs[t]
    case Idle => Starts(pc') && s' == moved
    case ShowP => s.mutex > 0 && pc' == ShowInc && s' == moved.(mutex := s.mutex - 1)
    case ShowInc => pc' == ShowTest && s' == moved.(readcnt := s.readcnt + 1)
    case ShowTest => pc' == (if s.readcnt == 1 then ShowPW else ShowV) && s' == moved
    case ShowPW => s.w > 0 && pc' == ShowV && s' == moved.(w := s.w - 1)
    case ShowV => pc' == Reading([]) && s' == moved.(mutex := s.mutex + 1)
    case Reading(out) =>
      if |out| < |Show(s.tree)| then pc' == Reading(out + [Show(s.tree)[|out|]]) && s' == moved
      else pc' == DoneP(out) && s' == moved
    case DoneP(out) => s.mutex > 0 && pc' == DoneDec(out) && s' == moved.(mutex := s.mutex - 1)
    case DoneDec(out) => pc' == DoneTest(out) && s' == moved.(readcnt := s.readcnt - 1)
    case DoneTest(out) => pc' == (if s.readcnt == 0 then DoneVW(out) else DoneV(out)) && s' == moved
    case DoneVW(out) => pc' == DoneV(out) && s' == moved.(w := s.w + 1)
    case DoneV(out) => pc' == Idle && s' == moved.(mutex := s.mutex + 1)
    case WriteP(req) => s.w > 0 && pc' == WriteFind(req) && s' == moved.(w := s.w - 1)
    case WriteFind(req) =>
      if Find(s.tree, req.id).None? then pc' == WriteFind(req) && s' == moved.(halted := true)
      else pc' == (if req.kind == Buy then WriteTest(req) else WriteLoad(req)) && s' == moved
    case WriteTest(req) =>
      Find(s.tree, req.id).Some? &&
      pc' == (if Find(s.tree, req.id).value >= req.amount then WriteLoad(req) else WriteV(req, NotEnough)) &&
      s' == moved
    case WriteLoad(req) =>
      Find(s.tree, req.id).Some? && pc' == WriteStore(req, Find(s.tree, req.id).value) && s' == moved
    case WriteStore(req, seen) =>
      && pc' == WriteV(req, Success)
      && s' == moved.(tree := SetCount(s.tree, req.id, NewCount(req, seen)), events := s.events + [EventOf(req)])
    case WriteV(_, _) => pc' == Idle && s' == moved.(w := s.w + 1)
  }

  function NewCount(req: Req, seen: int): int {
    if req.kind == Buy then seen - req.amount else seen + req.amount
  }

  function EventOf(req: Req): Event {
    if req.kind == Buy then Bought(req.id, req.amount) else Sold(req.id, req.amount)
  }

  ghost predicate Next(s: State, s': State) {
    exists t :: Step(s, s', t)
  }

  ghost predicate Init(s: State) {
    && s.mutex == 1 && s.w == 1 && s.readcnt == 0 && !s.halted && s.events == []
    && forall t | t in s.pcs :: s.pcs[t] == Idle
  }

  ghost predicate IsRun(run: seq<State>) {
    |run| > 0 && Init(run[0]) && forall i | 0 < i < |run| :: Next(run[i - 1], run[i])
  }

  /* Where a thread is */

  predicate HoldsMutex(pc: PC) {
    pc.ShowInc? || pc.ShowTest? || pc.ShowPW? || pc.ShowV? || pc.DoneDec? || pc.DoneTest? || pc.DoneVW? || pc.DoneV?
  }

  // Counted in readcnt.
  predicate Counted(pc: PC) {
    pc.ShowTest? || pc.ShowPW? || pc.ShowV? || pc.Reading? || pc.DoneP? || pc.DoneDec?
  }

  // Inside the section that the readers together protect with w.
  predicate InRead(pc: PC) {
    pc.ShowV? || pc.Reading? || pc.DoneP? || pc.DoneDec? || pc.DoneTest? || pc.DoneVW?
  }

  predicate InWrite(pc: PC) {
    pc.WriteFind? || pc.WriteTest? || pc.WriteLoad? || pc.WriteStore? || pc.WriteV?
  }

  /* The invariant */

  ghost predicate Semaphores(s: State) {
    && s.mutex + |Threads(s.pcs, HoldsMutex)| == 1
    && s.readcnt == |Threads(s.pcs, Counted)|
    && s.w + |Threads(s.pcs, InWrite)| + (if Threads(s.pcs, InRead) != {} then 1 else 0) == 1
    && (forall t | t in s.pcs && s.pcs[t].ShowPW? :: s.readcnt == 1)
    && (forall t | t in s.pcs && s.pcs[t].DoneVW? :: s.readcnt == 0)
  }

  // What each thread knows of the shared tree while it is inside.
  ghost predicate Knows(tree: Tree, pc: PC) {
    match pc
    case Reading(out) => |out| <= |Show(tree)| && out == Show(tree)[..|out|]
    case WriteTest(req) => Find(tree, req.id).Some? && req.kind == Buy
    case WriteLoad(req) => Find(tree, req.id).Some? && (req.kind == Buy ==> Find(tree, req.id).value >= req.amount)
    case WriteStore(req, seen) => Find(tree, req.id) == Some(seen) && (req.kind == Buy ==> seen >= req.amount)
    case _ => true
  }

  // Units of one stock that the events added.
  function Net(events: seq<Event>, id: int): int {
    if events == [] then 0
    else
      Net(events[..|events| - 1], id) +
      match events[|events| - 1]
      case Sold(i, n) => if i == id then n else 0
      case Bought(i, n) => if i == id then -n else 0
  }

  ghost predicate Balanced(tree0: Tree, s: State, id: int) {
    && (Find(s.tree, id).Some? <==> Find(tree0, id).Some?)
    && (Find(s.tree, id).Some? ==> Find(s.tree, id).value == Find(tree0, id).value + Net(s.events, id))
  }

  ghost predicate Inv(tree0: Tree, s: State) {
    && Semaphores(s)
    && (forall t {:trigger s.pcs[t]} | t in s.pcs :: Knows(s.tree, s.pcs[t]))
    && (forall id {:trigger Balanced(tree0, s, id)} :: Balanced(tree0, s, id))
  }

  /* One step keeps the invariant */

  // Away from the mutex, a counted thread is a reader inside, and the other way round.
  lemma CountedIsInside(s: State, t: Tid, x: Tid)
    requires |Threads(s.pcs, HoldsMutex)| <= 1 && t in s.pcs && HoldsMutex(s.pcs[t])
    requires x in s.pcs && x != t
    ensures Counted(s.pcs[x]) <==> InRead(s.pcs[x])
  {
    if HoldsMutex(s.pcs[x]) {
      OnlyOne(Threads(s.pcs, HoldsMutex), t, x);
    }
  }

  // With the mutex held by t: other readers are inside exactly when others are counted.
  lemma OtherReaders(s: State, t: Tid)
    requires Semaphores(s) && t in s.pcs && HoldsMutex(s.pcs[t])
    ensures Threads(s.pcs, InRead) - {t} == Threads(s.pcs, Counted) - {t}
    ensures |Threads(s.pcs, Counted) - {t}| == s.readcnt - (if Counted(s.pcs[t]) then 1 else 0)
  {
    assert |Threads(s.pcs, HoldsMutex)| <= 1 && s.readcnt == |Threads(s.pcs, Counted)|;
    hide Semaphores, HoldsMutex, Counted, InRead;
    forall x | x != t && x in s.pcs
      ensures Counted(s.pcs[x]) <==> InRead(s.pcs[x])
    {
      CountedIsInside(s, t, x);
    }
    if !Counted(s.pcs[t]) {
      assert Threads(s.pcs, Counted) - {t} == Threads(s.pcs, Counted);
    }
  }

  // Readcnt changes only under the mutex, so a thread that tested it still sees the tested value.
  lemma TestStillHolds(s: State, s': State, t: Tid, x: Tid)
    requires Semaphores(s) && Step(s, s', t)
    requires x in s'.pcs
    ensures s'.pcs[x].ShowPW? ==> s'.readcnt == 1
    ensures s'.pcs[x].DoneVW? ==> s'.readcnt == 0
  {
    if x != t && HoldsMutex(s.pcs[x]) && HoldsMutex(s.pcs[t]) {
      OnlyOne(Threads(s.pcs, HoldsMutex), t, x);
    }
  }

  // What one step does to the program counters and the three counters, reader entry and exit apart.
  lemma StepEffect(s: State, s': State, t: Tid)
    requires Step(s, s', t)
    ensures s'.pcs == s.pcs[t := s'.pcs[t]]
    ensures var pc, pc' := s.pcs[t], s'.pcs[t];
      && s'.mutex + Int(HoldsMutex(pc')) == s.mutex + Int(HoldsMutex(pc))
      && s'.readcnt - Int(Counted(pc')) == s.readcnt - Int(Counted(pc))
      && s'.w + Int(InWrite(pc')) - Int(pc.DoneVW?) + Int(pc.ShowPW?) == s.w + Int(InWrite(pc))
      && (pc.ShowPW? ==> s.w > 0 && pc'.ShowV?)
      && (pc.ShowTest? ==> pc' == if s.readcnt == 1 then ShowPW else ShowV)
      && (pc.DoneTest? ==> if s.readcnt == 0 then pc'.DoneVW? else pc'.DoneV?)
      && (pc.DoneVW? ==> pc'.DoneV?)
      && (!pc.ShowPW? && !pc.ShowTest? && !pc.DoneTest? && !pc.DoneVW? ==> InRead(pc') == InRead(pc))
  {}

  lemma MutexStep(s: State, s': State, t: Tid)
    requires Semaphores(s) && Step(s, s', t)
    ensures s'.mutex + |Threads(s'.pcs, HoldsMutex)| == 1
    ensures s'.readcnt == |Threads(s'.pcs, Counted)|
  {
    StepEffect(s, s', t);
    Moved(s.pcs, t, s'.pcs[t], HoldsMutex);
    Moved(s.pcs, t, s'.pcs[t], Counted);
    hide Threads, Step;
  }

  // Readers keep w as a group: the first one in takes it, the last one out gives it back.
  lemma ReadersStep(s: State, s': State, t: Tid)
    requires Semaphores(s) && Step(s, s', t)
    ensures var r, r' := Threads(s.pcs, InRead), Threads(s'.pcs, InRead);
      Int(r' != {}) == Int(r != {}) - Int(s.pcs[t].DoneVW?) + Int(s.pcs[t].ShowPW?)
  {
    hide Threads, Step, Semaphores;
    StepThread(s, s', t);
    StepEffect(s, s', t);
    var pc, pc', r := s.pcs[t], s'.pcs[t], Threads(s.pcs, InRead);
    Moved(s.pcs, t, pc', InRead);
    WithAndWithout(r, t);
    if HoldsMutex(pc) {
      OtherReaders(s, t);
      OthersCounted(s, t);
    }
    assert pc.ShowPW? || pc.ShowTest? || pc.DoneTest? || pc.DoneVW? || InRead(pc') == InRead(pc);
    hide *;
  }

  lemma WithAndWithout<T>(r: set<T>, t: T)
    ensures if t in r then r == (r - {t}) + {t} else r == r - {t}
  {}

  lemma StepThread(s: State, s': State, t: Tid)
    requires Step(s, s', t)
    ensures t in s.pcs
  {}

  // Whether anyone else is counted, as the test of readcnt decides it.
  lemma OthersCounted(s: State, t: Tid)
    requires Semaphores(s) && t in s.pcs && HoldsMutex(s.pcs[t])
    ensures Threads(s.pcs, Counted) - {t} == {} <==> s.readcnt == Int(Counted(s.pcs[t]))
    ensures s.pcs[t].ShowPW? ==> s.readcnt == 1
    ensures s.pcs[t].DoneVW? ==> s.readcnt == 0
  {
    OtherReaders(s, t);
  }

  lemma WriteLockStep(s: State, s': State, t: Tid)
    requires Semaphores(s) && Step(s, s', t)
    ensures s'.w + |Threads(s'.pcs, InWrite)| + (if Threads(s'.pcs, InRead) != {} then 1 else 0) == 1
  {
    StepEffect(s, s', t);
    Moved(s.pcs, t, s'.pcs[t], InWrite);
    ReadersStep(s, s', t);
    hide Threads, Step;
  }

  lemma SemaphoresStep(s: State, s': State, t: Tid)
    requires Semaphores(s) && Step(s, s', t)
    ensures Semaphores(s')
  {
    MutexStep(s, s', t);
    WriteLockStep(s, s', t);
    forall x | x in s'.pcs
      ensures s'.pcs[x].ShowPW? ==> s'.readcnt == 1
      ensures s'.pcs[x].DoneVW? ==> s'.readcnt == 0
    {
      TestStillHolds(s, s', t, x);
    }
  }

  // Nobody else is inside when a writer stores.
  lemma WriterAlone(s: State, t: Tid, x: Tid)
    requires Semaphores(s) && t in s.pcs && InWrite(s.pcs[t]) && x in s.pcs && x != t
    ensures !InWrite(s.pcs[x]) && !InRead(s.pcs[x])
  {
    assert t in Threads(s.pcs, InWrite);
    assert |Threads(s.pcs, InWrite)| != 0;
    if InWrite(s.pcs[x]) {
      OnlyOne(Threads(s.pcs, InWrite), t, x);
    }
    assert InRead(s.pcs[x]) ==> x in Threads(s.pcs, InRead);
  }

  lemma KnowsStep(s: State, s': State, t: Tid, x: Tid)
    requires Semaphores(s) && Step(s, s', t) && x in s'.pcs
    requires Knows(s.tree, s.pcs[x]) && Knows(s.tree, s.pcs[t])
    ensures Knows(s'.tree, s'.pcs[x])
  {
    if x != t && s.pcs[t].WriteStore? {
      WriterAlone(s, t, x);
    }
    if s.pcs[t].Reading? && x == t {
      var out := s.pcs[t].out;
      if |out| < |Show(s.tree)| {
        assert Show(s.tree)[..|out| + 1] == out + [Show(s.tree)[|out|]];
      }
    }
  }

  lemma BalancedStep(tree0: Tree, s: State, s': State, t: Tid, id: int)
    requires Step(s, s', t) && Knows(s.tree, s.pcs[t]) && Balanced(tree0, s, id)
    ensures Balanced(tree0, s', id)
  {
    if s.pcs[t].WriteStore? {
      var req, seen := s.pcs[t].req, s.pcs[t].seen;
      SetCountEffect(s.tree, req.id, NewCount(req, seen));
      assert s'.events[..|s'.events| - 1] == s.events;
    }
  }

  lemma InvStep(tree0: Tree, s: State, s': State, t: Tid)
    requires Inv(tree0, s) && Step(s, s', t)
    ensures Inv(tree0, s')
  {
    SemaphoresStep(s, s', t);
    hide Semaphores, Balanced, Knows;
    forall x | x in s'.pcs
      ensures Knows(s'.tree, s'.pcs[x])
    {
      KnowsStep(s, s', t, x);
    }
    forall id
      ensures Balanced(tree0, s', id)
    {
      BalancedStep(tree0, s, s', t, id);
    }
  }

  lemma InitInv(s: State)
    requires Init(s)
    ensures Inv(s.tree, s)
  {
    assert Threads(s.pcs, HoldsMutex) == {} && Threads(s.pcs, Counted) == {};
    assert Threads(s.pcs, InWrite) == {} && Threads(s.pcs, InRead) == {};
    forall id
      ensures Balanced(s.tree, s, id)
    {
    }
  }

  // Every state of every run satisfies the invariant.
  lemma {:induction false} RunInv(run: seq<State>, i: nat)
    requires IsRun(run) && i < |run|
    ensures Inv(run[0].tree, run[i])
    decreases i
  {
    if i == 0 {
      InitInv(run[0]);
    } else {
      RunInv(run, i - 1);
      var t: Tid :| Step(run[i - 1], run[i], t);
      InvStep(run[0].tree, run[i - 1], run[i], t);
    }
  }

  /* The promised properties, for every run and every state in it */

  // No writer overlaps a reader or another writer.
  lemma MutualExclusion(run: seq<State>, i: nat, x: Tid, y: Tid)
    requires IsRun(run) && i < |run| && x in run[i].pcs && y in run[i].pcs && x != y
    requires InWrite(run[i].pcs[x])
    ensures !InWrite(run[i].pcs[y]) && !InRead(run[i].pcs[y])
  {
    RunInv(run, i);
    WriterAlone(run[i], x, y);
  }

  // Readcnt is the number of readers that have counted themselves in and not yet out.
  lemma ReadcntExact(run: seq<State>, i: nat)
    requires IsRun(run) && i < |run|
    ensures run[i].readcnt == |set t | t in run[i].pcs && Counted(run[i].pcs[t])|
  {
    RunInv(run, i);
    assert Threads(run[i].pcs, Counted) == set t | t in run[i].pcs && Counted(run[i].pcs[t]);
  }

  // A finished show has printed the stock as it is at the moment it finishes.
  lemma ShowIsSnapshot(run: seq<State>, i: nat, t: Tid)
    requires IsRun(run) && i + 1 < |run| && Step(run[i], run[i + 1], t)
    requires run[i].pcs[t].Reading? && run[i + 1].pcs[t].DoneP?
    ensures run[i + 1].pcs[t].out == Show(run[i].tree) == Show(run[i + 1].tree)
  {
    RunInv(run, i);
    assert Knows(run[i].tree, run[i].pcs[t]);
  }

  // Each count is what it was, plus what was sold, minus what was bought.
  lemma Conservation(run: seq<State>, i: nat, id: int)
    requires IsRun(run) && i < |run|
    ensures Find(run[i].tree, id).Some? <==> Find(run[0].tree, id).Some?
    ensures Find(run[i].tree, id).Some? ==>
      Find(run[i].tree, id).value == Find(run[0].tree, id).value + Net(run[i].events, id)
  {
    RunInv(run, i);
    assert Balanced(run[0].tree, run[i], id);
  }

  /* What one request does, from its start to the next idle state of its thread */

  // Thread t is busy from state i on, and idle again in state j.
  ghost predicate Serves(run: seq<State>, i: nat, j: nat, t: Tid) {
    && i < j < |run| && t in run[j].pcs && run[j].pcs[t] == Idle
    && forall m | i <= m < j :: t in run[m].pcs && run[m].pcs[t] != Idle
  }

  /** A request applied to the stock at one instant, from state s to state s', with its reply: a sell adds its
      amount to the count; a buy takes its amount if the count is not smaller; nothing else changes. */
  ghost predicate Applied(s: State, s': State, req: Req, reply: Reply) {
    && Find(s.tree, req.id).Some?
    && var c := Find(s.tree, req.id).value;
    if req.kind == Sell then
      && reply == Success
      && s'.tree == SetCount(s.tree, req.id, c + req.amount) && s'.events == s.events + [Sold(req.id, req.amount)]
    else if c >= req.amount then
      && reply == Success
      && s'.tree == SetCount(s.tree, req.id, c - req.amount) && s'.events == s.events + [Bought(req.id, req.amount)]
    else
      reply == NotEnough && s'.tree == s.tree && s'.events == s.events
  }

  // How far the request of a writer is that took w in state s0.
  ghost predicate Holding(s0: State, s: State, t: Tid, req: Req) {
    && t in s.pcs
    && match s.pcs[t]
       case WriteFind(r) => r == req && s.tree == s0.tree && s.events == s0.events
       case WriteTest(r) =>
         r == req && s.tree == s0.tree && s.events == s0.events && r.kind == Buy && Find(s.tree, r.id).Some?
       case WriteLoad(r) =>
         && r == req && s.tree == s0.tree && s.events == s0.events && Find(s.tree, r.id).Some?
         && (r.kind == Buy ==> Find(s.tree, r.id).value >= r.amount)
       case WriteStore(r, seen) =>
         && r == req && s.tree == s0.tree && s.events == s0.events && Find(s.tree, r.id) == Some(seen)
         && (r.kind == Buy ==> seen >= r.amount)
       case WriteV(r, reply) => r == req && Applied(s0, s, req, reply)
       case _ => false
  }

  // While t holds w, only t changes the stock.
  lemma OthersKeep(s: State, s': State, t: Tid, x: Tid)
    requires Semaphores(s) && Step(s, s', x) && x != t && t in s.pcs && InWrite(s.pcs[t])
    ensures t in s'.pcs && s'.pcs[t] == s.pcs[t] && s'.tree == s.tree && s'.events == s.events
  {
    if s.pcs[x].WriteStore? {
      WriterAlone(s, t, x);
    }
    hide Semaphores;
  }

  lemma HoldOwn(s0: State, s: State, s': State, t: Tid, req: Req)
    requires Step(s, s', t) && Holding(s0, s, t, req)
    ensures t in s'.pcs && (s'.pcs[t] == Idle || Holding(s0, s', t, req))
    ensures s'.pcs[t] == Idle ==> s.pcs[t].WriteV? && s'.tree == s.tree && s'.events == s.events
  {}

  lemma HoldKept(s0: State, s: State, s': State, t: Tid, req: Req)
    requires Holding(s0, s, t, req)
    requires t in s'.pcs && s'.pcs[t] == s.pcs[t] && s'.tree == s.tree && s'.events == s.events
    ensures InWrite(s.pcs[t]) && Holding(s0, s', t, req)
  {}

  lemma HoldsW(s0: State, s: State, t: Tid, req: Req)
    requires Holding(s0, s, t, req)
    ensures t in s.pcs && InWrite(s.pcs[t])
  {}

  lemma HoldStep(s0: State, s: State, s': State, t: Tid, x: Tid, req: Req)
    requires Semaphores(s) && Step(s, s', x) && Holding(s0, s, t, req)
    ensures t in s'.pcs && (s'.pcs[t] == Idle || Holding(s0, s', t, req))
    ensures s'.pcs[t] == Idle ==> t in s.pcs && s.pcs[t].WriteV? && s'.tree == s.tree && s'.events == s.events
  {
    HoldsW(s0, s, t, req);
    hide Semaphores, Step, Holding;
    if x != t {
      OthersKeep(s, s', t, x);
      HoldKept(s0, s, s', t, req);
    } else {
      HoldOwn(s0, s, s', t, req);
    }
  }

  lemma StepAt(run: seq<State>, m: nat) returns (x: Tid)
    requires IsRun(run) && m + 1 < |run|
    ensures Step(run[m], run[m + 1], x)
  {
    x :| Step(run[m], run[m + 1], x);
  }

  // Until it is idle again, a writer is inside with its request.
  lemma {:induction false} HeldUntil(run: seq<State>, k: nat, m: nat, j: nat, t: Tid, req: Req)
    requires IsRun(run) && k <= m < j && Serves(run, k, j, t) && run[k].pcs[t] == WriteFind(req)
    ensures Holding(run[k], run[m], t, req)
    decreases m
  {
    hide Holding, Semaphores, Step, IsRun;
    if k == m {
      FindHolds(run[k], t, req);
    } else {
      HeldUntil(run, k, m - 1, j, t, req);
      RunInv(run, m - 1);
      var x := StepAt(run, m - 1);
      HoldStep(run[k], run[m - 1], run[m], t, x, req);
    }
  }

  lemma FindHolds(s: State, t: Tid, req: Req)
    requires t in s.pcs && s.pcs[t] == WriteFind(req)
    ensures Holding(s, s, t, req)
  {}

  lemma TakesW(s: State, s': State, t: Tid, x: Tid, req: Req)
    requires Step(s, s', x) && t in s.pcs && s.pcs[t] == WriteP(req)
    ensures t in s'.pcs
    ensures s'.pcs[t] == WriteP(req) || (s'.pcs[t] == WriteFind(req) && s'.tree == s.tree && s'.events == s.events)
  {}

  // A request waits for w until some state k.
  lemma {:induction false} WaitsFor(run: seq<State>, i: nat, j: nat, t: Tid, req: Req) returns (k: nat)
    requires IsRun(run) && Serves(run, i, j, t) && run[i].pcs[t] == WriteP(req)
    ensures i <= k && k + 1 < j && run[k + 1].pcs[t] == WriteFind(req)
    ensures run[k + 1].tree == run[k].tree && run[k + 1].events == run[k].events
    ensures forall m | i <= m <= k :: run[m].pcs[t] == WriteP(req)
    decreases j - i
  {
    hide IsRun, Step;
    var x := StepAt(run, i);
    TakesW(run[i], run[i + 1], t, x, req);
    k := i;
    if run[i + 1].pcs[t] == WriteP(req) {
      k := WaitsFor(run, i + 1, j, t, req);
    }
  }

  /** Every buy and sell that finishes, in every run: it waits until it gets w, in state k, and when its thread is
      idle again the stock is what it was then with the request applied, exactly once, and its reply says so. No
      update of another thread comes in between. A request for an unknown id does not finish. */
  lemma RequestEffect(run: seq<State>, i: nat, j: nat, t: Tid, req: Req) returns (k: nat)
    requires IsRun(run) && Serves(run, i, j, t) && run[i].pcs[t] == WriteP(req)
    ensures i <= k && k + 1 < j && (forall m | i <= m <= k :: run[m].pcs[t] == WriteP(req))
    ensures forall m | k < m < j :: InWrite(run[m].pcs[t])
    ensures run[j - 1].pcs[t].WriteV? && run[j - 1].pcs[t].req == req
    ensures Applied(run[k], run[j], req, run[j - 1].pcs[t].reply)
  {
    hide IsRun, Step, Holding, Semaphores, InWrite;
    k := WaitsFor(run, i, j, t, req);
    forall m | k < m < j
      ensures InWrite(run[m].pcs[t])
    {
      HeldUntil(run, k + 1, m, j, t, req);
      HoldsW(run[k + 1], run[m], t, req);
    }
    HeldUntil(run, k + 1, j - 1, j, t, req);
    RunInv(run, j - 1);
    var x := StepAt(run, j - 1);
    HoldStep(run[k + 1], run[j - 1], run[j], t, x, req);
    HoldingEnds(run[k + 1], run[j - 1], t, req);
  }

  lemma HoldingEnds(s0: State, s: State, t: Tid, req: Req)
    requires Holding(s0, s, t, req) && t in s.pcs && s.pcs[t].WriteV?
    ensures s.pcs[t].req == req && Applied(s0, s, req, s.pcs[t].reply)
  {}

  // What a show has printed is the stock of one earlier state of its own.
  ghost predicate Printed(run: seq<State>, i: nat, m: nat, t: Tid) {
    && i <= m < |run| && t in run[m].pcs
    && match run[m].pcs[t]
       case DoneP(out) => exists k :: i < k <= m && out == Show(run[k].tree)
       case DoneDec(out) => exists k :: i < k <= m && out == Show(run[k].tree)
       case DoneTest(out) => exists k :: i < k <= m && out == Show(run[k].tree)
       case DoneVW(out) => exists k :: i < k <= m && out == Show(run[k].tree)
       case DoneV(out) => exists k :: i < k <= m && out == Show(run[k].tree)
       case Reading(_) => true
       case pc => pc == ShowP || pc == ShowInc || pc == ShowTest || pc == ShowPW || pc == ShowV
  }

  lemma PrintedStep(run: seq<State>, i: nat, m: nat, t: Tid, x: Tid)
    requires m + 1 < |run| && Printed(run, i, m, t) && Step(run[m], run[m + 1], x)
    requires Knows(run[m].tree, run[m].pcs[t]) && t in run[m + 1].pcs && run[m + 1].pcs[t] != Idle
    ensures Printed(run, i, m + 1, t)
  {
    if x == t && run[m].pcs[t].Reading? && run[m + 1].pcs[t].DoneP? {
      assert run[m + 1].pcs[t].out == Show(run[m + 1].tree);
    }
  }

  lemma {:induction false} PrintedUntil(run: seq<State>, i: nat, m: nat, j: nat, t: Tid)
    requires IsRun(run) && Serves(run, i, j, t) && run[i].pcs[t] == ShowP && i <= m < j
    ensures Printed(run, i, m, t)
    decreases m
  {
    hide Printed, Step, Knows, IsRun;
    if i == m {
      assert Printed(run, i, m, t) by {
        StartsPrinting(run, i, t);
      }
    } else {
      PrintedUntil(run, i, m - 1, j, t);
      KnowsAt(run, m - 1, t);
      var x := StepAt(run, m - 1);
      PrintedStep(run, i, m - 1, t, x);
    }
  }

  lemma StartsPrinting(run: seq<State>, i: nat, t: Tid)
    requires i < |run| && t in run[i].pcs && run[i].pcs[t] == ShowP
    ensures Printed(run, i, i, t)
  {}

  lemma KnowsAt(run: seq<State>, m: nat, t: Tid)
    requires IsRun(run) && m < |run| && t in run[m].pcs
    ensures Knows(run[m].tree, run[m].pcs[t])
  {
    hide IsRun, Semaphores, Knows;
    RunInv(run, m);
  }

  /** Every show that finishes answers with the whole stock of one state k while it was served. */
  lemma ShowEffect(run: seq<State>, i: nat, j: nat, t: Tid) returns (k: nat)
    requires IsRun(run) && Serves(run, i, j, t) && run[i].pcs[t] == ShowP
    ensures i < k < j && run[j - 1].pcs[t].DoneV? && run[j - 1].pcs[t].out == Show(run[k].tree)
  {
    hide Step, IsRun, Semaphores, Knows;
    PrintedUntil(run, i, j - 1, j, t);
    var x := StepAt(run, j - 1);
    BackToIdle(run[j - 1], run[j], t, x);
    k :| i < k <= j - 1 && run[j - 1].pcs[t].out == Show(run[k].tree);
  }

  lemma BackToIdle(s: State, s': State, t: Tid, x: Tid)
    requires Step(s, s', x) && t in s.pcs && t in s'.pcs && s.pcs[t] != Idle && s'.pcs[t] == Idle
    ensures s.pcs[t].DoneV? || s.pcs[t].WriteV?
  {}

  // A buy takes no more than there is.
  lemma BuyWithinStock(run: seq<State>, i: nat, t: Tid, id: int, n: int)
    requires IsRun(run) && i + 1 < |run| && Step(run[i], run[i + 1], t)
    requires run[i + 1].events == run[i].events + [Bought(id, n)]
    ensures Find(run[i].tree, id).Some? && Find(run[i].tree, id).value >= n
    ensures Find(run[i + 1].tree, id) == Some(Find(run[i].tree, id).value - n)
  {
    RunInv(run, i);
    assert Knows(run[i].tree, run[i].pcs[t]);
    var before, after := run[i].events, run[i + 1].events;
    assert after[|before|] == Bought(id, n);
    assert |before| != |after|;
    SetCountEffect(run[i].tree, id, Find(run[i].tree, id).value - n);
  }

  ghost predicate NonNegative(tree: Tree) {
    forall id :: Find(tree, id).Some? ==> Find(tree, id).value >= 0
  }

  ghost predicate AmountsNonNegative(s: State) {
    forall t | t in s.pcs && s.pcs[t].WriteStore? :: s.pcs[t].req.amount >= 0
  }

  // Nonnegative stock stays nonnegative as long as no request carries a negative amount.
  lemma {:induction false} NeverNegative(run: seq<State>, i: nat)
    requires IsRun(run) && i < |run| && NonNegative(run[0].tree)
    requires forall k | 0 <= k < i :: AmountsNonNegative(run[k])
    ensures NonNegative(run[i].tree)
    decreases i
  {
    if i > 0 {
      NeverNegative(run, i - 1);
      RunInv(run, i - 1);
      var t: Tid :| Step(run[i - 1], run[i], t);
      hide Semaphores, Balanced;
      StoreNonNegative(run[0].tree, run[i - 1], run[i], t);
    }
  }

  lemma StoreNonNegative(tree0: Tree, s: State, s': State, t: Tid)
    requires Inv(tree0, s) && Step(s, s', t) && NonNegative(s.tree) && AmountsNonNegative(s)
    ensures NonNegative(s'.tree)
  {
    hide Semaphores, Balanced;
    assert Knows(s.tree, s.pcs[t]);
    if s.pcs[t].WriteStore? {
      SetCountEffect(s.tree, s.pcs[t].req.id, NewCount(s.pcs[t].req, s.pcs[t].seen));
    }
  }

  /* What can happen */

  // An idle thread can take up any request.
  lemma AnyRequestStarts(s: State, t: Tid, req: Req)
    requires t in s.pcs && s.pcs[t] == Idle && !s.halted
    ensures Step(s, s.(pcs := s.pcs[t := ShowP]), t) && Step(s, s.(pcs := s.pcs[t := WriteP(req)]), t)
  {}

  /** Readers do not exclude each other: while one prints, another gets in by steps of its own, as soon as nobody
      holds the mutex, and without touching w. */
  lemma ReadersShare(run: seq<State>, i: nat, x: Tid, t: Tid) returns (more: seq<State>)
    requires IsRun(run) && i < |run| && !run[i].halted && run[i].mutex > 0
    requires x in run[i].pcs && run[i].pcs[x].Reading? && t in run[i].pcs && run[i].pcs[t] == ShowP
    ensures |more| == 5 && more[0] == run[i] && (forall m | 0 <= m < 4 :: Step(more[m], more[m + 1], t))
    ensures more[4].pcs == run[i].pcs[t := Reading([])] && forall m | 0 <= m <= 4 :: more[m].w == run[i].w
  {
    RunInv(run, i);
    assert x in Threads(run[i].pcs, Counted);
    more := ReaderJoins(run[i], t);
  }

  lemma ReaderJoins(s: State, t: Tid) returns (more: seq<State>)
    requires !s.halted && s.mutex > 0 && s.readcnt > 0 && t in s.pcs && s.pcs[t] == ShowP
    ensures |more| == 5 && more[0] == s && (forall m | 0 <= m < 4 :: Step(more[m], more[m + 1], t))
    ensures more[4].pcs == s.pcs[t := Reading([])] && forall m | 0 <= m <= 4 :: more[m].w == s.w
  {
    hide Step;
    var s1 := s.(mutex := s.mutex - 1, pcs := s.pcs[t := ShowInc]);
    var s2 := s1.(readcnt := s.readcnt + 1, pcs := s1.pcs[t := ShowTest]);
    var s3 := s2.(pcs := s2.pcs[t := ShowV]);
    var s4 := s3.(mutex := s3.mutex + 1, pcs := s3.pcs[t := Reading([])]);
    CanMove(s, t, s1, ShowInc);
    CanMove(s1, t, s2, ShowTest);
    CanMove(s2, t, s3, ShowV);
    CanMove(s3, t, s4, Reading([]));
    more := [s, s1, s2, s3, s4];
  }

  // The steps of a show on its way in that do not wait for w.
  lemma CanMove(s: State, t: Tid, s': State, pc: PC)
    requires !s.halted && t in s.pcs
    requires var moved := s.(pcs := s.pcs[t := pc]);
      || (s.pcs[t] == ShowP && pc == ShowInc && s.mutex > 0 && s' == moved.(mutex := s.mutex - 1))
      || (s.pcs[t] == ShowInc && pc == ShowTest && s' == moved.(readcnt := s.readcnt + 1))
      || (s.pcs[t] == ShowTest && pc == ShowV && s.readcnt != 1 && s' == moved)
      || (s.pcs[t] == ShowV && pc == Reading([]) && s' == moved.(mutex := s.mutex + 1))
    ensures Step(s, s', t)
  {}

  /* No deadlock */

  // Not waiting on a semaphore that is zero.
  predicate Ready(s: State, t: Tid) {
    && t in s.pcs && !s.pcs[t].Idle?
    && (s.pcs[t].ShowP? || s.pcs[t].DoneP? ==> s.mutex > 0)
    && (s.pcs[t].ShowPW? || s.pcs[t].WriteP? ==> s.w > 0)
  }

  lemma ReadyMoves(tree0: Tree, s: State, t: Tid)
    requires Inv(tree0, s) && !s.halted && Ready(s, t)
    ensures exists s' :: Step(s, s', t)
  {
    hide Semaphores, Balanced;
    assert Knows(s.tree, s.pcs[t]);
    hide Knows;
    match s.pcs[t]
    case ShowP => assert Step(s, s.(mutex := s.mutex - 1, pcs := s.pcs[t := ShowInc]), t);
    case ShowInc => assert Step(s, s.(readcnt := s.readcnt + 1, pcs := s.pcs[t := ShowTest]), t);
    case ShowTest => assert Step(s, s.(pcs := s.pcs[t := if s.readcnt == 1 then ShowPW else ShowV]), t);
    case ShowPW => assert Step(s, s.(w := s.w - 1, pcs := s.pcs[t := ShowV]), t);
    case ShowV => assert Step(s, s.(mutex := s.mutex + 1, pcs := s.pcs[t := Reading([])]), t);
    case Reading(out) =>
      var pc := if |out| < |Show(s.tree)| then Reading(out + [Show(s.tree)[|out|]]) else DoneP(out);
      assert Step(s, s.(pcs := s.pcs[t := pc]), t);
    case DoneP(out) => assert Step(s, s.(mutex := s.mutex - 1, pcs := s.pcs[t := DoneDec(out)]), t);
    case DoneDec(out) => assert Step(s, s.(readcnt := s.readcnt - 1, pcs := s.pcs[t := DoneTest(out)]), t);
    case DoneTest(out) => assert Step(s, s.(pcs := s.pcs[t := if s.readcnt == 0 then DoneVW(out) else DoneV(out)]), t);
    case DoneVW(out) => assert Step(s, s.(w := s.w + 1, pcs := s.pcs[t := DoneV(out)]), t);
    case DoneV(out) => assert Step(s, s.(mutex := s.mutex + 1, pcs := s.pcs[t := Idle]), t);
    case _ => WriterMoves(s, t);
  }

  lemma WriterMoves(s: State, t: Tid)
    requires !s.halted && Ready(s, t) && (s.pcs[t].WriteP? || InWrite(s.pcs[t]))
    requires s.pcs[t].WriteTest? || s.pcs[t].WriteLoad? ==> Find(s.tree, s.pcs[t].req.id).Some?
    ensures exists s' :: Step(s, s', t)
  {
    match s.pcs[t]
    case WriteP(req) => assert Step(s, s.(w := s.w - 1, pcs := s.pcs[t := WriteFind(req)]), t);
    case WriteFind(req) =>
      if Find(s.tree, req.id).None? {
        assert Step(s, s.(halted := true, pcs := s.pcs[t := WriteFind(req)]), t);
      } else {
        assert Step(s, s.(pcs := s.pcs[t := if req.kind == Buy then WriteTest(req) else WriteLoad(req)]), t);
      }
    case WriteTest(req) =>
      var pc := if Find(s.tree, req.id).value >= req.amount then WriteLoad(req) else WriteV(req, NotEnough);
      assert Step(s, s.(pcs := s.pcs[t := pc]), t);
    case WriteLoad(req) => assert Step(s, s.(pcs := s.pcs[t := WriteStore(req, Find(s.tree, req.id).value)]), t);
    case WriteStore(req, seen) =>
      assert Step(s, s.(tree := SetCount(s.tree, req.id, NewCount(req, seen)), events := s.events + [EventOf(req)],
                        pcs := s.pcs[t := WriteV(req, Success)]), t);
    case WriteV(_, _) => assert Step(s, s.(w := s.w + 1, pcs := s.pcs[t := Idle]), t);
  }

  // If w is taken while a first reader waits for it, a writer has it.
  lemma WaitingReader(s: State, t: Tid) returns (x: Tid)
    requires Semaphores(s) && t in s.pcs && s.pcs[t].ShowPW?
    ensures Ready(s, x)
  {
    x := t;
    if s.w == 0 {
      OtherReaders(s, t);
      OthersCounted(s, t);
      assert Threads(s.pcs, InRead) == Threads(s.pcs, InRead) - {t};
      assert |Threads(s.pcs, InWrite)| == 1;
      x :| x in Threads(s.pcs, InWrite);
    }
  }

  // Some busy thread is never blocked.
  lemma SomeoneReady(s: State, busy: Tid) returns (t: Tid)
    requires Semaphores(s) && busy in s.pcs && !s.pcs[busy].Idle?
    ensures Ready(s, t)
  {
    if t1 :| t1 in s.pcs && HoldsMutex(s.pcs[t1]) {
      t := t1;
      if s.pcs[t].ShowPW? {
        t := WaitingReader(s, t);
      }
    } else if t1 :| t1 in s.pcs && (s.pcs[t1].ShowP? || InRead(s.pcs[t1]) || InWrite(s.pcs[t1])) {
      t := t1;
      assert Threads(s.pcs, HoldsMutex) == {};
    } else {
      t := busy;
      assert Threads(s.pcs, InRead) == {} && Threads(s.pcs, InWrite) == {};
    }
  }

  // In every reachable state with a request in progress, some request can proceed.
  lemma NoDeadlock(run: seq<State>, i: nat, busy: Tid) returns (t: Tid)
    requires IsRun(run) && i < |run| && !run[i].halted
    requires busy in run[i].pcs && !run[i].pcs[busy].Idle?
    ensures t in run[i].pcs && !run[i].pcs[t].Idle? && exists s' :: Step(run[i], s', t)
  {
    RunInv(run, i);
    t := SomeoneReady(run[i], busy);
    ReadyMoves(run[0].tree, run[i], t);
  }
}
