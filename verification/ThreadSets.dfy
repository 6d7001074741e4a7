/** Sets of threads classified by their program counters. */
module ThreadSets {

  ghost function Threads<PC>(pcs: map<nat, PC>, p: PC -> bool): set<nat>
  {
    set t | t in pcs && p(pcs[t])
  }

  function Int(b: bool): int { if b then 1 else 0 }

  // How one move of one thread changes a class of threads.
  lemma Moved<PC>(pcs: map<nat, PC>, t: nat, pc': PC, p: PC -> bool)
    requires t in pcs
    ensures var a, b := Threads(pcs, p), Threads(pcs[t := pc'], p);
      && (t in a <==> p(pcs[t])) && (t in b <==> p(pc'))
      && b == (if p(pc') then a + {t} else a - {t})
      && |b| == |a| + Int(p(pc')) - Int(p(pcs[t]))
  {
    var a, b := Threads(pcs, p), Threads(pcs[t := pc'], p);
    assert b == (if p(pc') then a + {t} else a - {t});
  }
}
