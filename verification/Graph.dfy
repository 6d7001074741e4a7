/** Finite undirected graphs: connectivity by paths, forests and spanning trees. */
module Graph {

  datatype Cell = Cell(row: nat, col: nat)
  datatype Edge = Edge(a: Cell, b: Cell)

  ghost predicate Adjacent(es: set<Edge>, x: Cell, y: Cell)
  {
    Edge(x, y) in es || Edge(y, x) in es
  }

  ghost predicate IsPath(es: set<Edge>, p: seq<Cell>)
  {
    |p| >= 1 && forall i | 0 <= i < |p| - 1 :: Adjacent(es, p[i], p[i + 1])
  }

  ghost predicate PathBetween(es: set<Edge>, p: seq<Cell>, x: Cell, y: Cell)
  {
    IsPath(es, p) && p[0] == x && p[|p| - 1] == y
  }

  ghost predicate Connected(es: set<Edge>, x: Cell, y: Cell)
  {
    exists p :: PathBetween(es, p, x, y)
  }

  // No edge lies on a cycle: without it, its ends are no longer connected.
  ghost predicate Acyclic(es: set<Edge>)
  {
    forall e | e in es :: !Connected(es - {e}, e.a, e.b)
  }

  ghost predicate Within(es: set<Edge>, vs: set<Cell>)
  {
    forall e | e in es :: e.a in vs && e.b in vs
  }

  ghost predicate SpanningTree(es: set<Edge>, vs: set<Cell>)
  {
    && Within(es, vs)
    && (forall x, y | x in vs && y in vs :: Connected(es, x, y))
    && Acyclic(es)
    && |es| + 1 == |vs|
  }

  lemma ConnectedRefl(es: set<Edge>, x: Cell)
    ensures Connected(es, x, x)
  {
    assert PathBetween(es, [x], x, x);
  }

  lemma ConnectedEdge(es: set<Edge>, x: Cell, y: Cell)
    requires Adjacent(es, x, y)
    ensures Connected(es, x, y)
  {
    assert PathBetween(es, [x, y], x, y);
  }

  lemma ConnectedTrans(es: set<Edge>, x: Cell, y: Cell, z: Cell)
    requires Connected(es, x, y) && Connected(es, y, z)
    ensures Connected(es, x, z)
  {
    var p :| PathBetween(es, p, x, y);
    var q :| PathBetween(es, q, y, z);
    assert PathBetween(es, p + q[1..], x, z);
  }

  lemma ConnectedSym(es: set<Edge>, x: Cell, y: Cell)
    requires Connected(es, x, y)
    ensures Connected(es, y, x)
  {
    var p :| PathBetween(es, p, x, y);
    var q := seq(|p|, i requires 0 <= i < |p| => p[|p| - 1 - i]);
    forall i | 0 <= i < |q| - 1
      ensures Adjacent(es, q[i], q[i + 1])
    {
      assert Adjacent(es, p[|p| - 2 - i], p[|p| - 1 - i]);
    }
    assert PathBetween(es, q, y, x);
  }

  lemma ConnectedMono(es: set<Edge>, fs: set<Edge>, x: Cell, y: Cell)
    requires Connected(es, x, y) && es <= fs
    ensures Connected(fs, x, y)
  {
    var p :| PathBetween(es, p, x, y);
    assert PathBetween(fs, p, x, y);
  }

  // A path that leaves a vertex starts at one end of an edge of the graph.
  lemma ConnectedInside(es: set<Edge>, vs: set<Cell>, x: Cell, y: Cell)
    requires Within(es, vs) && Connected(es, x, y) && x !in vs
    ensures x == y
  {
    var p :| PathBetween(es, p, x, y);
    assert |p| > 1 ==> Adjacent(es, p[0], p[1]);
  }

  // The ways of getting from x to y once the edge (a, b) is there.
  ghost predicate Via(es: set<Edge>, a: Cell, b: Cell, x: Cell, y: Cell)
  {
    || Connected(es, x, y)
    || (Connected(es, x, a) && Connected(es, b, y))
    || (Connected(es, x, b) && Connected(es, a, y))
  }

  lemma {:induction false} PathWithEdge(es: set<Edge>, a: Cell, b: Cell, p: seq<Cell>)
    requires IsPath(es + {Edge(a, b)}, p)
    ensures Via(es, a, b, p[0], p[|p| - 1])
    decreases |p|
  {
    var y := p[|p| - 1];
    if |p| == 1 {
      ConnectedRefl(es, y);
    } else {
      var q := p[1..];
      forall i | 0 <= i < |q| - 1
        ensures Adjacent(es + {Edge(a, b)}, q[i], q[i + 1])
      {
        assert Adjacent(es + {Edge(a, b)}, p[i + 1], p[i + 2]);
      }
      PathWithEdge(es, a, b, q);
      assert Adjacent(es + {Edge(a, b)}, p[0], p[1]);
      ViaStep(es, a, b, p[0], p[1], y);
    }
  }

  lemma ViaStep(es: set<Edge>, a: Cell, b: Cell, x: Cell, z: Cell, y: Cell)
    requires Adjacent(es + {Edge(a, b)}, x, z) && Via(es, a, b, z, y)
    ensures Via(es, a, b, x, y)
  {
    ConnectedRefl(es, a);
    ConnectedRefl(es, b);
    if Adjacent(es, x, z) {
      ConnectedEdge(es, x, z);
      ConnectedExtend(es, x, z, y);
      ConnectedExtend(es, x, z, a);
      ConnectedExtend(es, x, z, b);
    }
  }

  lemma ConnectedExtend(es: set<Edge>, x: Cell, z: Cell, y: Cell)
    requires Connected(es, x, z)
    ensures Connected(es, z, y) ==> Connected(es, x, y)
  {
    if Connected(es, z, y) {
      ConnectedTrans(es, x, z, y);
    }
  }

  // Connectivity after adding one edge, in both directions.
  lemma ConnectedAdd(es: set<Edge>, a: Cell, b: Cell, x: Cell, y: Cell)
    ensures Connected(es + {Edge(a, b)}, x, y) <==> Via(es, a, b, x, y)
  {
    var fs := es + {Edge(a, b)};
    if Connected(fs, x, y) {
      var p :| PathBetween(fs, p, x, y);
      PathWithEdge(es, a, b, p);
    }
    if Via(es, a, b, x, y) {
      ConnectedEdge(fs, a, b);
      ConnectedEdge(fs, b, a);
      if Connected(es, x, y) {
        ConnectedMono(es, fs, x, y);
      } else if Connected(es, x, a) && Connected(es, b, y) {
        ViaJoin(es, fs, x, a, b, y);
      } else {
        ViaJoin(es, fs, x, b, a, y);
      }
    }
  }

  lemma ViaJoin(es: set<Edge>, fs: set<Edge>, x: Cell, a: Cell, b: Cell, y: Cell)
    requires es <= fs && Connected(es, x, a) && Connected(fs, a, b) && Connected(es, b, y)
    ensures Connected(fs, x, y)
  {
    ConnectedMono(es, fs, x, a);
    ConnectedMono(es, fs, b, y);
    ConnectedTrans(fs, x, a, b);
    ConnectedTrans(fs, x, b, y);
  }

  // An edge between two components closes no cycle.
  lemma AcyclicAdd(es: set<Edge>, a: Cell, b: Cell)
    requires Acyclic(es) && !Connected(es, a, b)
    ensures Edge(a, b) !in es && Acyclic(es + {Edge(a, b)})
  {
    var n := Edge(a, b);
    if n in es {
      ConnectedEdge(es, a, b);
      assert false;
    }
    var fs := es + {n};
    forall e | e in fs
      ensures !Connected(fs - {e}, e.a, e.b)
    {
      if e == n {
        assert fs - {e} == es;
      } else {
        assert fs - {e} == (es - {e}) + {n};
        ConnectedAdd(es - {e}, a, b, e.a, e.b);
        if Connected(fs - {e}, e.a, e.b) {
          CycleThrough(es, e, a, b);
        }
      }
    }
  }

  lemma CycleThrough(es: set<Edge>, e: Edge, a: Cell, b: Cell)
    requires e in es && !Connected(es - {e}, e.a, e.b) && Via(es - {e}, a, b, e.a, e.b)
    ensures Connected(es, a, b)
  {
    var gs := es - {e};
    ConnectedEdge(es, e.a, e.b);
    ConnectedSym(es, e.a, e.b);
    if Connected(gs, e.a, a) && Connected(gs, b, e.b) {
      ViaJoin(gs, es, a, e.a, e.b, b) by {
        ConnectedSym(gs, e.a, a);
        ConnectedSym(gs, b, e.b);
      }
    } else {
      ViaJoin(gs, es, a, e.b, e.a, b) by {
        ConnectedSym(gs, e.a, b);
      }
    }
  }
}
