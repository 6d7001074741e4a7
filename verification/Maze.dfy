/** The maze generator of Week_11 (Eller's algorithm): rows are made top down and
    only one set label per column is kept. Wall flags are 0 for open and 1 for
    closed, as the program prints them. */
module Maze {
  import opened Graph

  /* The frontier: one current cell per column, labelled by component */

  ghost predicate Represents(es: set<Edge>, front: seq<Cell>, v: Cell, i: nat)
  {
    i < |front| && Connected(es, v, front[i])
  }

  ghost predicate Reaches(es: set<Edge>, front: seq<Cell>, v: Cell)
  {
    exists i :: Represents(es, front, v, i)
  }

  ghost predicate SameIff(es: set<Edge>, front: seq<Cell>, labels: seq<int>, i: nat, k: nat)
    requires |front| == |labels|
  {
    i < |labels| && k < |labels| ==> (labels[i] == labels[k] <==> Connected(es, front[i], front[k]))
  }

  function Labels(labels: seq<int>): set<int> {
    set l | l in labels
  }

  // Labels say exactly which frontier cells are connected; every cell made so far is
  // connected to the frontier; no cycle; one component per label.
  ghost predicate Eller(es: set<Edge>, vs: set<Cell>, front: seq<Cell>, labels: seq<int>)
  {
    && |front| == |labels|
    && Within(es, vs) && Acyclic(es)
    && (forall i | 0 <= i < |front| :: front[i] in vs)
    && (forall i, k {:trigger SameIff(es, front, labels, i, k)} :: SameIff(es, front, labels, i, k))
    && (forall v {:trigger Reaches(es, front, v)} | v in vs :: Reaches(es, front, v))
    && |es| + |Labels(labels)| == |vs|
  }

  // All occurrences of one label renamed to another.
  function Relabel(labels: seq<int>, from: int, to: int): (r: seq<int>)
    ensures |r| == |labels| && forall i | 0 <= i < |r| :: r[i] == if labels[i] == from then to else labels[i]
  {
    seq(|labels|, i requires 0 <= i < |labels| => if labels[i] == from then to else labels[i])
  }

  // Opening a wall between two frontier cells with different labels.
  lemma JoinSame(es: set<Edge>, vs: set<Cell>, front: seq<Cell>, labels: seq<int>, i: nat, k: nat, x: nat, y: nat)
    requires Eller(es, vs, front, labels)
    requires i < |front| && k < |front| && labels[i] != labels[k]
    ensures SameIff(es + {Edge(front[i], front[k])}, front, Relabel(labels, labels[k], labels[i]), x, y)
  {
    if x < |labels| && y < |labels| {
      ConnectedAdd(es, front[i], front[k], front[x], front[y]);
      assert SameIff(es, front, labels, x, y);
      assert SameIff(es, front, labels, x, i) && SameIff(es, front, labels, k, y);
      assert SameIff(es, front, labels, x, k) && SameIff(es, front, labels, i, y);
    }
  }

  lemma JoinReaches(es: set<Edge>, fs: set<Edge>, front: seq<Cell>, v: Cell)
    requires Reaches(es, front, v) && es <= fs
    ensures Reaches(fs, front, v)
  {
    var j: nat :| Represents(es, front, v, j);
    ConnectedMono(es, fs, v, front[j]);
    assert Represents(fs, front, v, j);
  }

  lemma JoinLabels(labels: seq<int>, from: int, to: int)
    requires from in labels && to in labels && from != to
    ensures |Labels(Relabel(labels, from, to))| + 1 == |Labels(labels)|
  {
    var r := Relabel(labels, from, to);
    forall l
      ensures l in Labels(r) <==> l in Labels(labels) && l != from
    {
      if l in labels && l != from {
        var i :| 0 <= i < |labels| && labels[i] == l;
        assert r[i] == l;
      }
      if l == to {
        var i :| 0 <= i < |labels| && labels[i] == to;
        assert r[i] == to;
      }
    }
    assert Labels(r) == Labels(labels) - {from};
  }

  lemma Join(es: set<Edge>, vs: set<Cell>, front: seq<Cell>, labels: seq<int>, i: nat, k: nat)
    requires Eller(es, vs, front, labels)
    requires i < |front| && k < |front| && labels[i] != labels[k]
    ensures Edge(front[i], front[k]) !in es
    ensures Eller(es + {Edge(front[i], front[k])}, vs, front, Relabel(labels, labels[k], labels[i]))
  {
    var fs, labels' := es + {Edge(front[i], front[k])}, Relabel(labels, labels[k], labels[i]);
    assert SameIff(es, front, labels, i, k);
    AcyclicAdd(es, front[i], front[k]);
    JoinLabels(labels, labels[k], labels[i]);
    assert Within(fs, vs);
    forall x: nat, y: nat
      ensures SameIff(fs, front, labels', x, y)
    {
      JoinSame(es, vs, front, labels, i, k, x, y);
    }
    forall v | v in vs
      ensures Reaches(fs, front, v)
    {
      JoinReaches(es, fs, front, v);
    }
  }

  /* Moving a column down one row */

  // A new cell is connected to nothing but itself.
  lemma NewCellAlone(es: set<Edge>, vs: set<Cell>, v: Cell, w: Cell)
    requires Within(es, vs) && v !in vs && w in vs
    ensures !Connected(es, v, w) && !Connected(es, w, v)
  {
    if Connected(es, w, v) {
      ConnectedSym(es, w, v);
    }
    if Connected(es, v, w) {
      ConnectedInside(es, vs, v, w);
    }
  }

  lemma ClosedSame(es: set<Edge>, vs: set<Cell>, front: seq<Cell>, labels: seq<int>,
                   j: nat, v: Cell, unused: int, x: nat, y: nat)
    requires Eller(es, vs, front, labels) && j < |front| && v !in vs && unused !in labels
    ensures SameIff(es, front[j := v], labels[j := unused], x, y)
  {
    if x < |labels| && y < |labels| {
      assert SameIff(es, front, labels, x, y);
      ConnectedRefl(es, v);
      if x != j {
        NewCellAlone(es, vs, v, front[x]);
      }
      if y != j {
        NewCellAlone(es, vs, v, front[y]);
      }
    }
  }

  lemma ClosedReaches(es: set<Edge>, vs: set<Cell>, front: seq<Cell>, labels: seq<int>,
                      j: nat, k: nat, v: Cell, w: Cell)
    requires Eller(es, vs, front, labels) && w in vs
    requires j < |front| && k < |front| && j != k && labels[j] == labels[k]
    ensures Reaches(es, front[j := v], w)
  {
    assert Reaches(es, front, w);
    var i: nat :| Represents(es, front, w, i);
    if i == j {
      assert SameIff(es, front, labels, j, k);
      ConnectedTrans(es, w, front[j], front[k]);
      assert Represents(es, front[j := v], w, k);
    } else {
      assert Represents(es, front[j := v], w, i);
    }
  }

  // Closing column j is allowed when another column carries the same label.
  lemma DownClosed(es: set<Edge>, vs: set<Cell>, front: seq<Cell>, labels: seq<int>,
                   j: nat, k: nat, v: Cell, unused: int)
    requires Eller(es, vs, front, labels) && v !in vs && unused !in labels
    requires j < |front| && k < |front| && j != k && labels[j] == labels[k]
    ensures Eller(es, vs + {v}, front[j := v], labels[j := unused])
  {
    var front', labels' := front[j := v], labels[j := unused];
    assert Labels(labels') == Labels(labels) + {unused} by {
      assert labels'[j] == unused && labels'[k] == labels[j];
      forall l | l in labels
        ensures l in labels'
      {
        var i :| 0 <= i < |labels| && labels[i] == l;
        assert labels'[if i == j then k else i] == l;
      }
    }
    forall x: nat, y: nat
      ensures SameIff(es, front', labels', x, y)
    {
      ClosedSame(es, vs, front, labels, j, v, unused, x, y);
    }
    forall w | w in vs + {v}
      ensures Reaches(es, front', w)
    {
      if w in vs {
        ClosedReaches(es, vs, front, labels, j, k, v, w);
      } else {
        ConnectedRefl(es, v);
        assert Represents(es, front', v, j);
      }
    }
  }

  lemma OpenSame(es: set<Edge>, vs: set<Cell>, front: seq<Cell>, labels: seq<int>, j: nat, v: Cell, x: nat, y: nat)
    requires Eller(es, vs, front, labels) && j < |front| && v !in vs
    ensures SameIff(es + {Edge(front[j], v)}, front[j := v], labels, x, y)
  {
    if x < |labels| && y < |labels| {
      var front' := front[j := v];
      assert SameIff(es, front, labels, x, y);
      ConnectedRefl(es, v);
      ConnectedRefl(es + {Edge(front[j], v)}, v);
      NewCellAlone(es, vs, v, front[x]);
      NewCellAlone(es, vs, v, front[y]);
      ConnectedAdd(es, front[j], v, front'[x], front'[y]);
    }
  }

  lemma OpenReaches(es: set<Edge>, front: seq<Cell>, j: nat, v: Cell, w: Cell)
    requires Reaches(es, front, w) && j < |front|
    ensures Reaches(es + {Edge(front[j], v)}, front[j := v], w)
  {
    var fs := es + {Edge(front[j], v)};
    var i: nat :| Represents(es, front, w, i);
    ConnectedMono(es, fs, w, front[i]);
    if i == j {
      ConnectedEdge(fs, front[j], v);
      ConnectedTrans(fs, w, front[j], v);
    }
    assert Represents(fs, front[j := v], w, i);
  }

  lemma DownOpen(es: set<Edge>, vs: set<Cell>, front: seq<Cell>, labels: seq<int>, j: nat, v: Cell)
    requires Eller(es, vs, front, labels) && j < |front| && v !in vs
    ensures Edge(front[j], v) !in es
    ensures Eller(es + {Edge(front[j], v)}, vs + {v}, front[j := v], labels)
  {
    var fs, front' := es + {Edge(front[j], v)}, front[j := v];
    NewCellAlone(es, vs, v, front[j]);
    AcyclicAdd(es, front[j], v);
    assert Within(fs, vs + {v});
    forall x: nat, y: nat
      ensures SameIff(fs, front', labels, x, y)
    {
      OpenSame(es, vs, front, labels, j, v, x, y);
    }
    forall w | w in vs + {v}
      ensures Reaches(fs, front', w)
    {
      if w in vs {
        OpenReaches(es, front, j, v, w);
      } else {
        ConnectedRefl(fs, v);
        assert Represents(fs, front', v, j);
      }
    }
  }

  /* Growing the first row */

  lemma Append(es: set<Edge>, vs: set<Cell>, front: seq<Cell>, labels: seq<int>, v: Cell, unused: int)
    requires Eller(es, vs, front, labels) && v !in vs && unused !in labels
    ensures Eller(es, vs + {v}, front + [v], labels + [unused])
  {
    var n, front', labels' := |front|, front + [v], labels + [unused];
    ConnectedRefl(es, v);
    assert Labels(labels') == Labels(labels) + {unused};
    forall x: nat, y: nat
      ensures SameIff(es, front', labels', x, y)
    {
      AppendSame(es, vs, front, labels, v, unused, x, y);
    }
    forall w | w in vs + {v}
      ensures Reaches(es, front', w)
    {
      if w in vs {
        assert Reaches(es, front, w);
        var i: nat :| Represents(es, front, w, i);
        assert Represents(es, front', w, i);
      } else {
        assert Represents(es, front', v, n);
      }
    }
  }

  lemma AppendSame(es: set<Edge>, vs: set<Cell>, front: seq<Cell>, labels: seq<int>,
                   v: Cell, unused: int, x: nat, y: nat)
    requires Eller(es, vs, front, labels) && v !in vs && unused !in labels
    ensures SameIff(es, front + [v], labels + [unused], x, y)
  {
    var n := |front|;
    ConnectedRefl(es, v);
    if x <= n && y <= n {
      if x < n {
        NewCellAlone(es, vs, v, front[x]);
      }
      if y < n {
        NewCellAlone(es, vs, v, front[y]);
      }
      if x < n && y < n {
        assert SameIff(es, front, labels, x, y);
      }
    }
  }

  // With one label left, the maze is a spanning tree.
  lemma OneLabel(es: set<Edge>, vs: set<Cell>, front: seq<Cell>, labels: seq<int>)
    requires Eller(es, vs, front, labels) && |front| > 0
    requires forall i | 0 <= i < |labels| :: labels[i] == labels[0]
    ensures SpanningTree(es, vs)
  {
    assert Labels(labels) == {labels[0]};
    forall x, y | x in vs && y in vs
      ensures Connected(es, x, y)
    {
      assert Reaches(es, front, x) && Reaches(es, front, y);
      var i: nat, k: nat :| Represents(es, front, x, i) && Represents(es, front, y, k);
      assert SameIff(es, front, labels, i, k);
      ConnectedSym(es, y, front[k]);
      ConnectedTrans(es, x, front[i], front[k]);
      ConnectedTrans(es, x, front[k], y);
    }
  }

  /* The maze as the program prints it */

  function Row(r: nat, w: nat): (row: seq<Cell>)
    ensures |row| == w && forall i | 0 <= i < w :: row[i] == Cell(r, i)
  {
    seq(w, i requires 0 <= i < w => Cell(r, i))
  }

  // All cells of the first rows, and the first c cells of the row below them.
  ghost function Cells(rows: nat, c: nat, w: nat): set<Cell>
  {
    (set i, k | 0 <= i < rows && 0 <= k < w :: Cell(i, k)) + (set k | 0 <= k < c :: Cell(rows, k))
  }

  // 1 is a wall, and 0 is a gap.
  type Flag = b: int | b == 0 || b == 1

  // Openings between the rooms of row r: write_room prints flag 0 as a gap.
  ghost function RoomGaps(r: nat, wall: seq<Flag>): set<Edge>
  {
    set c | 0 <= c < |wall| && wall[c] == 0 :: Edge(Cell(r, c), Cell(r, c + 1))
  }

  // Openings between row r and the row below: write_wall prints flag 0 as a gap.
  ghost function FloorGaps(r: nat, floor: seq<Flag>): set<Edge>
  {
    set c | 0 <= c < |floor| && floor[c] == 0 :: Edge(Cell(r, c), Cell(r + 1, c))
  }

  ghost function AllRoomGaps(rooms: seq<seq<Flag>>): set<Edge>
  {
    if |rooms| == 0 then {}
    else AllRoomGaps(rooms[..|rooms| - 1]) + RoomGaps(|rooms| - 1, rooms[|rooms| - 1])
  }

  ghost function AllFloorGaps(floors: seq<seq<Flag>>): set<Edge>
  {
    if |floors| == 0 then {}
    else AllFloorGaps(floors[..|floors| - 1]) + FloorGaps(|floors| - 1, floors[|floors| - 1])
  }

  // The graph of a printed maze: its rooms, joined wherever no wall is printed.
  ghost function Openings(rooms: seq<seq<Flag>>, floors: seq<seq<Flag>>): set<Edge>
  {
    AllRoomGaps(rooms) + AllFloorGaps(floors)
  }

  /* One step of each loop */

  lemma RoomGapsStep(r: nat, wall: seq<Flag>, bit: Flag)
    ensures RoomGaps(r, wall + [bit]) ==
            RoomGaps(r, wall) + (if bit == 0 then {Edge(Cell(r, |wall|), Cell(r, |wall| + 1))} else {})
  {
    var all := wall + [bit];
    assert all[|wall|] == bit && forall c | 0 <= c < |wall| :: all[c] == wall[c];
  }

  lemma FloorGapsStep(r: nat, floor: seq<Flag>, bit: Flag)
    ensures FloorGaps(r, floor + [bit]) ==
            FloorGaps(r, floor) + (if bit == 0 then {Edge(Cell(r, |floor|), Cell(r + 1, |floor|))} else {})
  {
    var all := floor + [bit];
    assert all[|floor|] == bit && forall c | 0 <= c < |floor| :: all[c] == floor[c];
  }

  lemma NoGaps(es: set<Edge>, r: nat)
    ensures es + RoomGaps(r, []) == es == es + FloorGaps(r, [])
  {}

  // The frontier while column j of the next row is being decided.
  ghost function Mixed(r: nat, j: nat, w: nat): seq<Cell>
    requires j <= w
  {
    Row(r + 1, j) + Row(r, w)[j..]
  }

  lemma CellsStep(rows: nat, j: nat, w: nat)
    requires j < w
    ensures Cell(rows, j) !in Cells(rows, j, w)
    ensures Cells(rows, j + 1, w) == Cells(rows, j, w) + {Cell(rows, j)}
  {}

  lemma MixedStep(r: nat, j: nat, w: nat)
    requires j < w
    ensures Mixed(r, j, w)[j] == Cell(r, j) && Mixed(r, j + 1, w) == Mixed(r, j, w)[j := Cell(r + 1, j)]
  {}

  lemma DownStep(es: set<Edge>, r: nat, w: nat, k: nat, labels: seq<int>, floor: seq<Flag>, bit: Flag, group: int)
    requires |labels| == w && |floor| < w
    requires Eller(es + FloorGaps(r, floor), Cells(r + 1, |floor|, w), Mixed(r, |floor|, w), labels)
    requires group !in labels
    requires bit != 0 ==> k < w && k != |floor| && labels[k] == labels[|floor|]
    ensures Eller(es + FloorGaps(r, floor + [bit]), Cells(r + 1, |floor| + 1, w), Mixed(r, |floor| + 1, w),
                  if bit == 0 then labels else labels[|floor| := group])
  {
    hide Eller;
    var j := |floor|;
    MixedStep(r, j, w);
    CellsStep(r + 1, j, w);
    hide Cells, Mixed;
    FloorGapsStep(r, floor, bit);
    var fs := es + FloorGaps(r, floor);
    if bit == 0 {
      DownOpen(fs, Cells(r + 1, j, w), Mixed(r, j, w), labels, j, Cell(r + 1, j));
      assert fs + {Edge(Cell(r, j), Cell(r + 1, j))} == es + FloorGaps(r, floor + [bit]);
    } else {
      DownClosed(fs, Cells(r + 1, j, w), Mixed(r, j, w), labels, j, k, Cell(r + 1, j), group);
      assert fs == es + FloorGaps(r, floor + [bit]);
    }
  }

  // The outcomes of rand() % 2, one after the other.
  class Random {
    const outcomes: nat -> Flag
    var drawn: nat

    constructor (outcomes: nat -> Flag)
      ensures this.outcomes == outcomes && drawn == 0
    {
      this.outcomes, drawn := outcomes, 0;
    }

    method Rand() returns (bit: Flag)
      modifies this
      ensures bit == outcomes(old(drawn)) && drawn == old(drawn) + 1
    {
      bit, drawn := outcomes(drawn), drawn + 1;
    }
  }

  // Whether some column in front of j in its run, by the labels, came out open when it was drawn.
  ghost function RunOpen(labels: seq<int>, rand: nat -> Flag, at: nat, j: nat): Flag
    requires j < |labels|
  {
    if j == 0 || labels[j - 1] != labels[j] then 0
    else if rand(at + j - 1) == 0 then 1
    else RunOpen(labels, rand, at, j - 1)
  }

  // What is printed below column j.
  ghost function FloorAt(labels: seq<int>, rand: nat -> Flag, at: nat, j: nat): Flag
    requires j < |labels|
  {
    if j + 1 == |labels| then RunOpen(labels, rand, at, j)
    else if rand(at + j) == 0 || (labels[j] != labels[j + 1] && RunOpen(labels, rand, at, j) == 0) then 0
    else 1
  }

  // The columns from i to j carry the same label.
  ghost predicate OneRun(labels: seq<int>, i: nat, j: nat)
  {
    i <= j < |labels| && forall k | i <= k <= j :: labels[k] == labels[j]
  }

  // Column i is in front of j in its run and came out open.
  ghost predicate OpenBefore(labels: seq<int>, rand: nat -> Flag, at: nat, i: nat, j: nat)
  {
    i < j && OneRun(labels, i, j) && rand(at + i) == 0
  }

  lemma {:induction false} RunOpenIff(labels: seq<int>, rand: nat -> Flag, at: nat, j: nat)
    requires j < |labels|
    ensures RunOpen(labels, rand, at, j) == 1 <==> exists i: nat :: OpenBefore(labels, rand, at, i, j)
  {
    if i: nat :| OpenBefore(labels, rand, at, i, j) {
      OpenEarlier(labels, rand, at, i, j);
    }
    if j > 0 && labels[j - 1] == labels[j] {
      RunOpenIff(labels, rand, at, j - 1);
      OpenHere(labels, rand, at, j);
      var k := j - 1;
      if i: nat :| OpenBefore(labels, rand, at, i, k) {
        OpenLater(labels, rand, at, i, j);
      }
    }
    hide OpenBefore;
  }

  lemma OpenEarlier(labels: seq<int>, rand: nat -> Flag, at: nat, i: nat, j: nat)
    requires OpenBefore(labels, rand, at, i, j)
    ensures j > 0 && j < |labels| && labels[j - 1] == labels[j]
    ensures rand(at + j - 1) == 0 || OpenBefore(labels, rand, at, i, j - 1)
  {}

  lemma OpenHere(labels: seq<int>, rand: nat -> Flag, at: nat, j: nat)
    requires 0 < j < |labels| && labels[j - 1] == labels[j]
    ensures rand(at + j - 1) == 0 ==> OpenBefore(labels, rand, at, j - 1, j)
  {}

  lemma OpenLater(labels: seq<int>, rand: nat -> Flag, at: nat, i: nat, j: nat)
    requires 0 < j < |labels| && labels[j - 1] == labels[j] && OpenBefore(labels, rand, at, i, j - 1)
    ensures OpenBefore(labels, rand, at, i, j)
  {}

  /** A column opens downwards exactly if rand says so, or if it is the last of its run and rand opened no other one. */
  lemma FloorOpensIff(labels: seq<int>, rand: nat -> Flag, at: nat, j: nat)
    requires j < |labels|
    ensures FloorAt(labels, rand, at, j) == 0 <==>
      || (j + 1 < |labels| && rand(at + j) == 0)
      || ((j + 1 == |labels| || labels[j] != labels[j + 1]) &&
          forall i: nat :: !OpenBefore(labels, rand, at, i, j))
  {
    RunOpenIff(labels, rand, at, j);
  }

  // One column of OpenFloors. While meetFlag is 1, met is an open column of the same run.
  method OpenColumn(maze: array<int>, wall: array<Flag>, random: Random, j: nat, group0: int, meetFlag0: Flag,
                    ghost met0: nat)
      returns (group: int, meetFlag: Flag, ghost met: nat, ghost k: nat)
    requires j + 1 < maze.Length && wall.Length == maze.Length - 1
    requires meetFlag0 == 0 || (meetFlag0 == 1 && met0 < j && maze[met0] == maze[j])
    requires forall i | 0 <= i < maze.Length :: maze[i] < group0
    modifies maze, wall, random
    ensures random.drawn == old(random.drawn) + 1
    ensures var bit, ends := random.outcomes(old(random.drawn)), old(maze[j]) != old(maze[j + 1]);
      && (wall[j] == 0 <==> bit == 0 || (ends && meetFlag0 == 0))
      && (meetFlag == 1 <==> !ends && (bit == 0 || meetFlag0 == 1))
    ensures wall[..j] == old(wall[..j])
    ensures maze[..] == if wall[j] == 0 then old(maze[..]) else old(maze[..])[j := group0]
    ensures wall[j] != 0 ==> k < maze.Length && k != j && old(maze[k]) == old(maze[j])
    ensures group0 <= group && forall i | 0 <= i < maze.Length :: maze[i] < group
    ensures meetFlag == 0 || (meetFlag == 1 && met < j + 1 && maze[met] == maze[j + 1])
  {
    group, meetFlag, met := group0, meetFlag0, met0;
    wall[j] := random.Rand();
    if wall[j] == 0 {
      meetFlag := 1;
      met := j;
    }
    k := if maze[j] != maze[j + 1] then met else j + 1;
    if maze[j] != maze[j + 1] {
      if meetFlag == 0 {
        wall[j] := 0;
      }
      meetFlag := 0;
    }
    if wall[j] == 1 {
      maze[j] := group;
      group := group + 1;
    }
  }

  // Lines 84-105 and 135-156: choose which cells of row r open downwards.
  method OpenFloors(maze: array<int>, wall: array<Flag>, random: Random, group0: int, ghost r: nat, ghost es: set<Edge>)
      returns (group: int, meetFlag: Flag)
    requires maze.Length >= 1 && wall.Length == maze.Length - 1
    requires Eller(es, Cells(r + 1, 0, maze.Length), Row(r, maze.Length), maze[..])
    requires forall i | 0 <= i < maze.Length :: maze[i] < group0
    modifies maze, wall, random
    ensures random.drawn == old(random.drawn) + maze.Length - 1
    ensures forall j | 0 <= j < maze.Length ::
      (wall[..] + [meetFlag])[j] == FloorAt(old(maze[..]), random.outcomes, old(random.drawn), j)
    ensures
      Eller(es + FloorGaps(r, wall[..] + [meetFlag]), Cells(r + 2, 0, maze.Length), Row(r + 1, maze.Length), maze[..])
    ensures forall i | 0 <= i < maze.Length :: maze[i] < group
  {
    hide *;
    var w := maze.Length;
    ghost var met: nat, k: nat, was, at := 0, 0, maze[..], random.drawn;
    group, meetFlag := group0, 0;
    OpenStart(r, w);
    NoGaps(es, r);
    RunStarts(was, random.outcomes, at);
    for j := 0 to w - 1
      invariant random.drawn == at + j && maze[j..] == was[j..]
      invariant FloorsDone(was, random.outcomes, at, wall[..j], j, meetFlag)
      invariant Eller(es + FloorGaps(r, wall[..j]), Cells(r + 1, j, w), Mixed(r, j, w), maze[..])
      invariant forall i | 0 <= i < w :: maze[i] < group
      invariant meetFlag == 0 || (meetFlag == 1 && met < j && maze[met] == maze[j])
    {
      ghost var labels, before, unused := maze[..], wall[..j], group;
      ghost var flag := meetFlag;
      SameFrom(maze[..], was, j);
      group, meetFlag, met, k := OpenColumn(maze, wall, random, j, group, meetFlag, met);
      FloorDone(was, random.outcomes, at, before, wall[j], flag, meetFlag);
      StillFrom(labels, was, maze[..], j, unused);
      DownStep(es, r, w, k, labels, before, wall[j], unused);
      assert wall[..j + 1] == before + [wall[j]];
    }
    assert wall[..w - 1] == wall[..];
    AllFloorsDone(was, random.outcomes, at, wall[..], meetFlag);
    group := LastFloor(maze, wall[..], group, meetFlag, met, r, es);
  }

  // The floors in front of column j, and whether its run has an opening so far.
  ghost predicate FloorsDone(labels: seq<int>, rand: nat -> Flag, at: nat, floors: seq<Flag>, j: nat, meetFlag: Flag)
  {
    && j == |floors| < |labels| && meetFlag == RunOpen(labels, rand, at, j)
    && forall i | 0 <= i < j :: floors[i] == FloorAt(labels, rand, at, i)
  }

  lemma RunStarts(labels: seq<int>, rand: nat -> Flag, at: nat)
    requires labels != []
    ensures FloorsDone(labels, rand, at, [], 0, 0)
  {}

  lemma SameFrom(a: seq<int>, b: seq<int>, j: nat)
    requires |a| == |b| && j + 1 < |a| && a[j..] == b[j..]
    ensures a[j] == b[j] && a[j + 1] == b[j + 1]
  {
    assert a[j..][0] == b[j..][0] && a[j..][1] == b[j..][1];
  }

  lemma StillFrom(a: seq<int>, b: seq<int>, c: seq<int>, j: nat, x: int)
    requires |a| == |b| && j < |a| && a[j..] == b[j..] && (c == a || c == a[j := x])
    ensures c[j + 1..] == b[j + 1..]
  {
    assert a[j + 1..] == a[j..][1..] && b[j + 1..] == b[j..][1..];
  }

  lemma FloorDone(labels: seq<int>, rand: nat -> Flag, at: nat, floors: seq<Flag>, bit: Flag, flag: Flag, flag': Flag)
    requires |floors| + 1 < |labels| && FloorsDone(labels, rand, at, floors, |floors|, flag)
    requires var j := |floors|;
      var ends := labels[j] != labels[j + 1];
      && (bit == 0 <==> rand(at + j) == 0 || (ends && flag == 0))
      && (flag' == 1 <==> !ends && (rand(at + j) == 0 || flag == 1))
    ensures FloorsDone(labels, rand, at, floors + [bit], |floors| + 1, flag')
  {}

  lemma AllFloorsDone(labels: seq<int>, rand: nat -> Flag, at: nat, floors: seq<Flag>, meetFlag: Flag)
    requires |floors| + 1 == |labels| && FloorsDone(labels, rand, at, floors, |floors|, meetFlag)
    ensures forall j | 0 <= j < |labels| :: (floors + [meetFlag])[j] == FloorAt(labels, rand, at, j)
  {}

  // The last column is closed when its run already has an opening.
  method LastFloor(maze: array<int>, ghost wall: seq<Flag>, group0: int, meetFlag: Flag, ghost met: nat,
                   ghost r: nat, ghost es: set<Edge>)
      returns (group: int)
    requires maze.Length >= 1 && |wall| == maze.Length - 1
    requires var w := maze.Length;
      Eller(es + FloorGaps(r, wall), Cells(r + 1, w - 1, w), Mixed(r, w - 1, w), maze[..])
    requires forall i | 0 <= i < maze.Length :: maze[i] < group0
    requires meetFlag == 0 || (meetFlag == 1 && met < maze.Length - 1 && maze[met] == maze[maze.Length - 1])
    modifies maze
    ensures Eller(es + FloorGaps(r, wall + [meetFlag]), Cells(r + 2, 0, maze.Length), Row(r + 1, maze.Length), maze[..])
    ensures forall i | 0 <= i < maze.Length :: maze[i] < group
  {
    hide Eller, Cells, Mixed, FloorGaps;
    var w := maze.Length;
    group := group0;
    DownStep(es, r, w, met, maze[..], wall, meetFlag, group);
    OpenEnd(r, w);
    if meetFlag == 1 {
      maze[w - 1] := group;
      group := group + 1;
    }
  }

  lemma OpenStart(r: nat, w: nat)
    ensures Mixed(r, 0, w) == Row(r, w)
  {}

  lemma OpenEnd(r: nat, w: nat)
    ensures Mixed(r, w, w) == Row(r + 1, w) && Cells(r + 1, w, w) == Cells(r + 2, 0, w)
  {
  }

  /* Walls inside a row */

  lemma RoomStep(es: set<Edge>, vs: set<Cell>, r: nat, w: nat, labels: seq<int>, wall: seq<Flag>, bit: Flag)
    requires |labels| == w && |wall| + 1 < w
    requires Eller(es + RoomGaps(r, wall), vs, Row(r, w), labels)
    requires bit == 0 ==> labels[|wall|] != labels[|wall| + 1]
    ensures Eller(es + RoomGaps(r, wall + [bit]), vs, Row(r, w),
                  if bit == 0 then Relabel(labels, labels[|wall| + 1], labels[|wall|]) else labels)
  {
    hide Eller;
    var j := |wall|;
    RoomGapsStep(r, wall, bit);
    var fs := es + RoomGaps(r, wall);
    if bit == 0 {
      Join(fs, vs, Row(r, w), labels, j, j + 1);
      assert fs + {Edge(Cell(r, j), Cell(r, j + 1))} == es + RoomGaps(r, wall + [bit]);
    } else {
      assert fs == es + RoomGaps(r, wall + [bit]);
    }
  }

  // The labelling loops of lines 70-72 and 77-79.
  method Fill(maze: array<int>, lo: nat, hi: nat, group: int)
    requires lo <= hi <= maze.Length
    modifies maze
    ensures forall k | 0 <= k < maze.Length :: maze[k] == if lo <= k < hi then group else old(maze[k])
  {
    for j := lo to hi
      invariant forall k | 0 <= k < maze.Length :: maze[k] == if lo <= k < j then group else old(maze[k])
    {
      maze[j] := group;
    }
  }

  lemma TakeMore<X>(a: array<X>, i: nat)
    requires i < a.Length
    ensures a[..i + 1] == a[..i] + [a[i]]
  {}

  // The columns of the first row so far: before temp they carry their labels, and the last run will get group.
  ghost predicate Runs(labels: seq<int>, row: seq<int>, temp: nat, group: int)
  {
    && temp < |labels| <= |row|
    && (forall k | 0 <= k < temp :: labels[k] == row[k] < group)
    && forall k | temp <= k < |labels| :: labels[k] == group
  }

  lemma RunsUnused(labels: seq<int>, row: seq<int>, temp: nat, group: int)
    requires Runs(labels, row, temp, group)
    ensures group + 1 !in labels
  {}

  // One column of the first row: a wall ends the current run, which then gets its label.
  method FirstColumn(maze: array<int>, wall: array<Flag>, random: Random, i: nat, group0: int, temp0: nat,
                     ghost labels0: seq<int>)
      returns (group: int, temp: nat, ghost labels: seq<int>)
    requires i + 1 < maze.Length && wall.Length == maze.Length - 1
    requires |labels0| == i + 1 && Runs(labels0, maze[..], temp0, group0)
    modifies maze, wall, random
    ensures random.drawn == old(random.drawn) + 1 && wall[i] == random.outcomes(old(random.drawn))
    ensures wall[..i] == old(wall[..i])
    ensures labels == labels0 + [if wall[i] == 0 then labels0[i] else group0 + 1]
    ensures Runs(labels, maze[..], temp, group)
  {
    group, temp := group0, temp0;
    wall[i] := random.Rand();
    labels := labels0 + [if wall[i] == 0 then labels0[i] else group + 1];
    if wall[i] == 1 {
      Fill(maze, temp, i + 1, group);
      temp := i + 1;
      group := group + 1;
    }
  }

  // One iteration, with what it means for the maze.
  method FirstWall(maze: array<int>, wall: array<Flag>, random: Random, i: nat, group0: int, temp0: nat,
                   ghost labels0: seq<int>, ghost at: nat)
      returns (group: int, temp: nat, ghost labels: seq<int>)
    requires i + 1 < maze.Length && wall.Length == maze.Length - 1
    requires |labels0| == i + 1 && Runs(labels0, maze[..], temp0, group0)
    requires random.drawn == at + i && Drawn(wall[..i], random.outcomes, at)
    requires Eller(RoomGaps(0, wall[..i]), Cells(0, i + 1, maze.Length), Row(0, i + 1), labels0)
    modifies maze, wall, random
    ensures |labels| == i + 2 && Runs(labels, maze[..], temp, group)
    ensures random.drawn == at + i + 1 && Drawn(wall[..i + 1], random.outcomes, at)
    ensures Eller(RoomGaps(0, wall[..i + 1]), Cells(0, i + 2, maze.Length), Row(0, i + 2), labels)
  {
    hide *;
    ghost var before, unused := wall[..i], group0 + 1;
    RunsUnused(labels0, maze[..], temp0, group0);
    group, temp, labels := FirstColumn(maze, wall, random, i, group0, temp0, labels0);
    TakeMore(wall, i);
    DrawnMore(before, wall[i], random.outcomes, at);
    FirstStep(maze.Length, labels0, before, wall[i], unused);
  }

  // These flags are the outcomes of rand from number at on.
  ghost predicate Drawn(flags: seq<Flag>, rand: nat -> Flag, at: nat)
  {
    forall i | 0 <= i < |flags| :: flags[i] == rand(at + i)
  }

  lemma DrawnMore(flags: seq<Flag>, bit: Flag, rand: nat -> Flag, at: nat)
    requires Drawn(flags, rand, at) && bit == rand(at + |flags|)
    ensures Drawn(flags + [bit], rand, at)
  {}

  // Lines 67-76: columns before temp carry their final label; the last run is still open.
  method FirstWalls(maze: array<int>, wall: array<Flag>, random: Random)
      returns (group: int, temp: nat, ghost labels: seq<int>)
    requires maze.Length >= 1 && wall.Length == maze.Length - 1
    modifies maze, wall, random
    ensures Drawn(wall[..], random.outcomes, old(random.drawn)) && random.drawn == old(random.drawn) + wall.Length
    ensures |labels| == maze.Length && Runs(labels, maze[..], temp, group)
    ensures Eller(RoomGaps(0, wall[..]), Cells(0, maze.Length, maze.Length), Row(0, maze.Length), labels)
  {
    var w := maze.Length;
    group, temp, labels := 0, 0, [0];
    FirstCell(w);
    assert Runs(labels, maze[..], temp, group);
    ghost var at := random.drawn;
    assert Drawn(wall[..0], random.outcomes, at);
    hide *;
    for i := 0 to w - 1
      invariant random.drawn == at + i && Drawn(wall[..i], random.outcomes, at)
      invariant |labels| == i + 1 && Runs(labels, maze[..], temp, group)
      invariant Eller(RoomGaps(0, wall[..i]), Cells(0, i + 1, w), Row(0, i + 1), labels)
    {
      group, temp, labels := FirstWall(maze, wall, random, i, group, temp, labels, at);
    }
    assert wall[..w - 1] == wall[..];
  }

  // Lines 66-81: the first row; runs of rooms without a wall share a label.
  method FirstRow(maze: array<int>, wall: array<Flag>, random: Random) returns (group: int)
    requires maze.Length >= 1 && wall.Length == maze.Length - 1
    modifies maze, wall, random
    ensures Drawn(wall[..], random.outcomes, old(random.drawn)) && random.drawn == old(random.drawn) + wall.Length
    ensures Eller(RoomGaps(0, wall[..]), Cells(1, 0, maze.Length), Row(0, maze.Length), maze[..])
    ensures forall i | 0 <= i < maze.Length :: maze[i] < group
  {
    hide Eller, Cells, Row, RoomGaps;
    var temp;
    ghost var labels;
    group, temp, labels := FirstWalls(maze, wall, random);
    Fill(maze, temp, maze.Length, group);
    assert maze[..] == labels;
    group := group + 1;
    OpenEndCells(0, maze.Length);
  }

  lemma FirstCell(w: nat)
    requires w >= 1
    ensures Eller(RoomGaps(0, []), Cells(0, 1, w), Row(0, 1), [0])
  {
    ConnectedRefl({}, Cell(0, 0));
    assert Cells(0, 1, w) == {Cell(0, 0)};
    assert RoomGaps(0, []) == {} && Labels([0]) == {0};
    assert Row(0, 1) == [Cell(0, 0)];
    assert Represents({}, Row(0, 1), Cell(0, 0), 0);
    assert Reaches({}, Row(0, 1), Cell(0, 0));
  }

  lemma FirstStep(w: nat, labels: seq<int>, wall: seq<Flag>, bit: Flag, unused: int)
    requires |labels| == |wall| + 1 < w && unused !in labels
    requires Eller(RoomGaps(0, wall), Cells(0, |labels|, w), Row(0, |labels|), labels)
    ensures Eller(RoomGaps(0, wall + [bit]), Cells(0, |labels| + 1, w), Row(0, |labels| + 1),
                  labels + [if bit == 0 then labels[|wall|] else unused])
  {
    hide *;
    var n, es, more := |labels|, RoomGaps(0, wall), labels + [unused];
    CellsStep(0, n, w);
    RowSnoc(0, n);
    Append(es, Cells(0, n, w), Row(0, n), labels, Cell(0, n), unused);
    assert {} + es == es && {} + RoomGaps(0, wall + [bit]) == RoomGaps(0, wall + [bit]);
    RoomStep({}, Cells(0, n + 1, w), 0, n + 1, more, wall, bit);
    assert Relabel(more, unused, labels[n - 1]) == labels + [labels[n - 1]];
  }

  lemma RowSnoc(r: nat, n: nat)
    ensures Row(r, n) + [Cell(r, n)] == Row(r, n + 1)
  {}

  // Lines 114-120: every column labelled like j + 1 takes the label of j.
  method Absorb(maze: array<int>, j: nat)
    requires j + 1 < maze.Length && maze[j] != maze[j + 1]
    modifies maze
    ensures maze[..] == Relabel(old(maze[..]), old(maze[j + 1]), old(maze[j]))
  {
    var temp := maze[j + 1];
    maze[j + 1] := maze[j];
    for k := 0 to maze.Length
      invariant maze[j] == old(maze[j]) && maze[j + 1] == old(maze[j])
      invariant forall i | 0 <= i < k && i != j + 1 ::
        maze[i] == if old(maze[i]) == temp then old(maze[j]) else old(maze[i])
      invariant forall i | k <= i < maze.Length && i != j + 1 :: maze[i] == old(maze[i])
    {
      if maze[k] == temp {
        maze[k] := maze[j];
      }
    }
  }

  // Lines 108-131: a middle row; random openings, never inside one component.
  method MiddleRow(maze: array<int>, wall: array<Flag>, random: Random, group: int, ghost r: nat, ghost vs: set<Cell>,
                   ghost es: set<Edge>)
    requires maze.Length >= 1 && wall.Length == maze.Length - 1
    requires Eller(es, vs, Row(r, maze.Length), maze[..])
    requires forall i | 0 <= i < maze.Length :: maze[i] < group
    modifies maze, wall, random
    ensures Eller(es + RoomGaps(r, wall[..]), vs, Row(r, maze.Length), maze[..])
    ensures forall i | 0 <= i < maze.Length :: maze[i] < group
    ensures JoinsDrawn(es, r, wall[..], random.outcomes, old(random.drawn))
    ensures random.drawn == old(random.drawn) + Choices(es, r, wall[..])
  {
    hide *;
    var w := maze.Length;
    NoGaps(es, r);
    ghost var at := random.drawn;
    NoChoices(es, r, random.outcomes, at);
    assert wall[..0] == [];
    for j := 0 to w - 1
      invariant random.drawn == at + Choices(es, r, wall[..j])
      invariant JoinsDrawn(es, r, wall[..j], random.outcomes, at)
      invariant Eller(es + RoomGaps(r, wall[..j]), vs, Row(r, w), maze[..])
      invariant forall i | 0 <= i < w :: maze[i] < group
    {
      ghost var before, labels := wall[..j], maze[..];
      if maze[j] != maze[j + 1] {
        var meetFlag := random.Rand();
        if meetFlag == 1 {
          Absorb(maze, j);
          wall[j] := 0;
        } else {
          wall[j] := 1;
        }
      } else {
        wall[j] := 1;
      }
      LabelsTell(es, before, vs, r, w, labels);
      JoinIs(es, r, before, wall[j], random.outcomes, at);
      OneChoice(es, r, before, wall[j], random.outcomes, at);
      RoomStep(es, vs, r, w, labels, before, wall[j]);
      assert wall[..j + 1] == before + [wall[j]];
    }
    assert wall[..w - 1] == wall[..];
  }

  // Whether the rooms on both sides of the next wall are still in different components.
  ghost predicate Apart(es: set<Edge>, r: nat, wall: seq<Flag>)
  {
    !Connected(es + RoomGaps(r, wall), Cell(r, |wall|), Cell(r, |wall| + 1))
  }

  // For how many of the walls rand was asked.
  ghost function Choices(es: set<Edge>, r: nat, wall: seq<Flag>): nat
  {
    if wall == [] then 0
    else
      var before := wall[..|wall| - 1];
      Choices(es, r, before) + if Apart(es, r, before) then 1 else 0
  }

  // A wall is left out exactly if the rooms on both sides are in different components and rand says 1.
  ghost predicate JoinsDrawn(es: set<Edge>, r: nat, wall: seq<Flag>, rand: nat -> Flag, at: nat)
  {
    forall j: nat | j < |wall| :: JoinAt(es, r, wall[..j], wall[j], rand, at)
  }

  ghost predicate JoinAt(es: set<Edge>, r: nat, before: seq<Flag>, flag: Flag, rand: nat -> Flag, at: nat)
  {
    flag == 0 <==> Apart(es, r, before) && rand(at + Choices(es, r, before)) == 1
  }

  lemma NoChoices(es: set<Edge>, r: nat, rand: nat -> Flag, at: nat)
    ensures Choices(es, r, []) == 0 && JoinsDrawn(es, r, [], rand, at)
  {}

  lemma OneChoice(es: set<Edge>, r: nat, wall: seq<Flag>, bit: Flag, rand: nat -> Flag, at: nat)
    requires JoinsDrawn(es, r, wall, rand, at)
    requires JoinAt(es, r, wall, bit, rand, at)
    ensures JoinsDrawn(es, r, wall + [bit], rand, at)
    ensures Choices(es, r, wall + [bit]) == Choices(es, r, wall) + if Apart(es, r, wall) then 1 else 0
  {
    var more := wall + [bit];
    assert more[..|wall|] == wall;
    hide Apart, JoinAt;
    forall j: nat | j < |more|
      ensures JoinAt(es, r, more[..j], more[j], rand, at)
    {
      assert j < |wall| ==> more[..j] == wall[..j];
    }
  }

  lemma JoinIs(es: set<Edge>, r: nat, before: seq<Flag>, flag: Flag, rand: nat -> Flag, at: nat)
    requires flag == 0 <==> Apart(es, r, before) && rand(at + Choices(es, r, before)) == 1
    ensures JoinAt(es, r, before, flag, rand, at)
  {}

  lemma LabelsTell(es: set<Edge>, wall: seq<Flag>, vs: set<Cell>, r: nat, w: nat, labels: seq<int>)
    requires Eller(es + RoomGaps(r, wall), vs, Row(r, w), labels) && |wall| + 1 < w == |labels|
    ensures labels[|wall|] != labels[|wall| + 1] <==> Apart(es, r, wall)
  {
    assert SameIff(es + RoomGaps(r, wall), Row(r, w), labels, |wall|, |wall| + 1);
  }

  // Lines 163-169: as Absorb, but only columns from i on can carry the label.
  method AbsorbRight(maze: array<int>, i: nat)
    requires i + 1 < maze.Length && maze[i] != maze[i + 1]
    requires forall k | 0 <= k < i :: maze[k] != maze[i + 1]
    modifies maze
    ensures maze[..] == Relabel(old(maze[..]), old(maze[i + 1]), old(maze[i]))
  {
    var temp := maze[i + 1];
    maze[i + 1] := temp;
    for j := i to maze.Length
      invariant maze[i] == old(maze[i])
      invariant forall k | 0 <= k < j :: maze[k] == if old(maze[k]) == temp then old(maze[i]) else old(maze[k])
      invariant forall k | j <= k < maze.Length :: maze[k] == old(maze[k])
    {
      if maze[j] == temp {
        maze[j] := maze[i];
      }
    }
  }

  // Lines 159-174: the last row opens every wall between different components.
  method LastRow(maze: array<int>, wall: array<Flag>, ghost r: nat, ghost vs: set<Cell>, ghost es: set<Edge>)
    requires maze.Length >= 1 && wall.Length == maze.Length - 1
    requires Eller(es, vs, Row(r, maze.Length), maze[..])
    modifies maze, wall
    ensures SpanningTree(es + RoomGaps(r, wall[..]), vs)
  {
    hide *;
    var w := maze.Length;
    NoGaps(es, r);
    for i := 0 to w - 1
      invariant Eller(es + RoomGaps(r, wall[..i]), vs, Row(r, w), maze[..])
      invariant forall k | 0 <= k <= i :: maze[k] == maze[0]
    {
      ghost var before, labels := wall[..i], maze[..];
      if maze[i] != maze[i + 1] {
        wall[i] := 0;
        AbsorbRight(maze, i);
      } else {
        wall[i] := 1;
      }
      RoomStep(es, vs, r, w, labels, before, wall[i]);
      assert wall[..i + 1] == before + [wall[i]];
    }
    assert wall[..w - 1] == wall[..];
    OneLabel(es + RoomGaps(r, wall[..]), vs, Row(r, w), maze[..]);
  }

  predicate Rectangular(rows: seq<seq<Flag>>, n: nat, w: nat)
  {
    |rows| == n && forall i | 0 <= i < n :: |rows[i]| == w
  }

  // The first n rows are printed and row n - 1 is the current one.
  ghost predicate Printed(rooms: seq<seq<Flag>>, floors: seq<seq<Flag>>, n: nat, w: nat, labels: seq<int>, group: int)
  {
    && n >= 1 && w >= 1 && Rectangular(rooms, n, w - 1) && Rectangular(floors, n - 1, w)
    && Eller(Openings(rooms, floors), Cells(n, 0, w), Row(n - 1, w), labels)
    && forall i | 0 <= i < |labels| :: labels[i] < group
  }

  // The whole program: whatever rand() returns, the printed maze is a spanning tree of the grid,
  // and every flag that it is printed from is 0 or 1.
  method Generate(width: nat, height: int, random: Random) returns (rooms: seq<seq<Flag>>, floors: seq<seq<Flag>>)
    requires width >= 1
    modifies random
    ensures var rows := if height < 2 then 2 else height;
      && Rectangular(rooms, rows, width - 1) && Rectangular(floors, rows - 1, width)
      && SpanningTree(Openings(rooms, floors), Cells(rows, 0, width))
  {
    hide *;
    var maze, wall := new int[width], new Flag[width - 1];
    var group;
    rooms, group := TopRow(maze, wall, random);
    floors := [];
    var i := 1;
    while i < height - 1
      invariant 1 <= i && (i == 1 || i <= height - 1)
      invariant Printed(rooms, floors, i, width, maze[..], group)
    {
      rooms, floors, group := NextRow(maze, wall, random, rooms, floors, group, i);
      i := i + 1;
    }
    rooms, floors := FinalRow(maze, wall, random, rooms, floors, group, i);
  }

  // Lines 66-81 with the row printed.
  method TopRow(maze: array<int>, wall: array<Flag>, random: Random) returns (rooms: seq<seq<Flag>>, group: int)
    requires maze.Length >= 1 && wall.Length == maze.Length - 1
    modifies maze, wall, random
    ensures Printed(rooms, [], 1, maze.Length, maze[..], group)
  {
    hide Eller, Cells, Row, Openings, RoomGaps;
    group := FirstRow(maze, wall, random);
    var room := wall[..];
    rooms := [room];
    PrintFirst(room);
  }

  // Lines 84-132: the floor above a middle row, then its rooms.
  method NextRow(maze: array<int>, wall: array<Flag>, random: Random, rooms0: seq<seq<Flag>>, floors0: seq<seq<Flag>>,
                 group0: int, ghost n: nat)
      returns (rooms: seq<seq<Flag>>, floors: seq<seq<Flag>>, group: int)
    requires maze.Length >= 1 && wall.Length == maze.Length - 1
    requires Printed(rooms0, floors0, n, maze.Length, maze[..], group0)
    modifies maze, wall, random
    ensures Printed(rooms, floors, n + 1, maze.Length, maze[..], group)
  {
    hide Eller, Cells, Row, Openings, RoomGaps, FloorGaps;
    var meetFlag;
    ghost var es := Openings(rooms0, floors0);
    group, meetFlag := OpenFloors(maze, wall, random, group0, n - 1, es);
    var floor := wall[..] + [meetFlag];
    PrintFloor(rooms0, floors0, floor);
    MiddleRow(maze, wall, random, group, n, Cells(n + 1, 0, maze.Length), es + FloorGaps(n - 1, floor));
    var room := wall[..];
    PrintRoom(rooms0, floors0 + [floor], room);
    rooms, floors := rooms0 + [room], floors0 + [floor];
  }

  // Lines 135-175: the floor above the last row, then its rooms.
  method FinalRow(maze: array<int>, wall: array<Flag>, random: Random, rooms0: seq<seq<Flag>>, floors0: seq<seq<Flag>>,
                  group0: int, ghost n: nat)
      returns (rooms: seq<seq<Flag>>, floors: seq<seq<Flag>>)
    requires maze.Length >= 1 && wall.Length == maze.Length - 1
    requires Printed(rooms0, floors0, n, maze.Length, maze[..], group0)
    modifies maze, wall, random
    ensures Rectangular(rooms, n + 1, maze.Length - 1) && Rectangular(floors, n, maze.Length)
    ensures SpanningTree(Openings(rooms, floors), Cells(n + 1, 0, maze.Length))
  {
    hide Eller, Cells, Row, Openings, RoomGaps, FloorGaps, SpanningTree;
    ghost var es := Openings(rooms0, floors0);
    var group, meetFlag := OpenFloors(maze, wall, random, group0, n - 1, es);
    var floor := wall[..] + [meetFlag];
    PrintFloor(rooms0, floors0, floor);
    LastRow(maze, wall, n, Cells(n + 1, 0, maze.Length), es + FloorGaps(n - 1, floor));
    var room := wall[..];
    PrintRoom(rooms0, floors0 + [floor], room);
    rooms, floors := rooms0 + [room], floors0 + [floor];
  }

  lemma PrintFirst(room: seq<Flag>)
    ensures Openings([room], []) == RoomGaps(0, room)
  {
    assert [room][..0] == [];
    assert AllRoomGaps([room]) == AllRoomGaps([]) + RoomGaps(0, room);
  }

  lemma PrintFloor(rooms: seq<seq<Flag>>, floors: seq<seq<Flag>>, floor: seq<Flag>)
    ensures Openings(rooms, floors + [floor]) == Openings(rooms, floors) + FloorGaps(|floors|, floor)
  {
    assert (floors + [floor])[..|floors|] == floors;
  }

  lemma PrintRoom(rooms: seq<seq<Flag>>, floors: seq<seq<Flag>>, wall: seq<Flag>)
    ensures Openings(rooms + [wall], floors) == Openings(rooms, floors) + RoomGaps(|rooms|, wall)
  {
    assert (rooms + [wall])[..|rooms|] == rooms;
  }

  lemma {:induction false} CellCount(rows: nat, w: nat)
    ensures |Cells(rows, 0, w)| == w * rows
  {
    NoCells(w);
    hide Cells;
    if rows > 0 {
      CellCount(rows - 1, w);
      RowCount(rows - 1, w, w);
      OpenEndCells(rows - 1, w);
      assert w * rows == w * (rows - 1) + w;
    }
  }

  lemma NoCells(w: nat)
    ensures Cells(0, 0, w) == {}
  {}

  lemma OpenEndCells(rows: nat, w: nat)
    ensures Cells(rows, w, w) == Cells(rows + 1, 0, w)
  {}

  lemma {:induction false} RowCount(rows: nat, c: nat, w: nat)
    requires c <= w
    ensures |Cells(rows, c, w)| == |Cells(rows, 0, w)| + c
  {
    hide Cells;
    if c > 0 {
      RowCount(rows, c - 1, w);
      CellsStep(rows, c - 1, w);
    }
  }

  // A spanning tree of the printed grid has one opening less than it has rooms.
  lemma OpenWallCount(rooms: seq<seq<Flag>>, floors: seq<seq<Flag>>, w: nat)
    requires SpanningTree(Openings(rooms, floors), Cells(|rooms|, 0, w))
    ensures |Openings(rooms, floors)| == w * |rooms| - 1
  {
    CellCount(|rooms|, w);
  }
}
