/** The stock tree of the threaded server: add_tree, find_node and show_tree. */
module StockTree {
  import opened Options

  datatype Tree = Leaf | Node(left: Tree, id: int, count: int, price: int, right: Tree)

  datatype Line = Line(id: int, count: int, price: int)

  // add_tree: smaller ids go left, all others right.
  function Add(t: Tree, l: Line): Tree {
    match t
    case Leaf => Node(Leaf, l.id, l.count, l.price, Leaf)
    case Node(left, id, _, _, right) =>
      if l.id < id then t.(left := Add(left, l)) else t.(right := Add(right, l))
  }

  // find_node, returning the count of the node it finds.
  function Find(t: Tree, id: int): Option<int> {
    match t
    case Leaf => None
    case Node(left, i, count, _, right) =>
      if i == id then Some(count) else if id < i then Find(left, id) else Find(right, id)
  }

  // Assigning to the count of the node that find_node returns.
  function SetCount(t: Tree, id: int, c: int): Tree {
    match t
    case Leaf => Leaf
    case Node(left, i, _, _, right) =>
      if i == id then t.(count := c)
      else if id < i then t.(left := SetCount(left, id, c))
      else t.(right := SetCount(right, id, c))
  }

  // show_tree: the lines in the order they are printed.
  function Show(t: Tree): seq<Line> {
    match t
    case Leaf => []
    case Node(left, id, count, price, right) => Show(left) + [Line(id, count, price)] + Show(right)
  }

  // The tree that read_stock builds from the lines of stock.txt.
  function Load(lines: seq<Line>): Tree {
    if lines == [] then Leaf else Add(Load(lines[..|lines| - 1]), lines[|lines| - 1])
  }

  ghost predicate Between(t: Tree, lo: Option<int>, hi: Option<int>) {
    match t
    case Leaf => true
    case Node(left, id, _, _, right) =>
      && (lo.Some? ==> lo.value <= id) && (hi.Some? ==> id < hi.value)
      && Between(left, lo, Some(id)) && Between(right, Some(id), hi)
  }

  lemma {:induction false} AddBetween(t: Tree, l: Line, lo: Option<int>, hi: Option<int>)
    requires Between(t, lo, hi) && (lo.Some? ==> lo.value <= l.id) && (hi.Some? ==> l.id < hi.value)
    ensures Between(Add(t, l), lo, hi)
  {
    match t
    case Leaf =>
    case Node(left, id, _, _, right) =>
      if l.id < id {
        AddBetween(left, l, lo, Some(id));
      } else {
        AddBetween(right, l, Some(id), hi);
      }
  }

  function Shown(t: Tree): multiset<Line> {
    multiset(Show(t))
  }

  lemma ShownNode(t: Tree)
    requires t.Node?
    ensures Shown(t) == Shown(t.left) + multiset{Line(t.id, t.count, t.price)} + Shown(t.right)
  {
    var a, b, c := Show(t.left), [Line(t.id, t.count, t.price)], Show(t.right);
    assert multiset(a + b + c) == multiset(a) + multiset(b) + multiset(c);
  }

  lemma {:induction false} AddShown(t: Tree, l: Line)
    ensures Shown(Add(t, l)) == Shown(t) + multiset{l}
  {
    hide Shown;
    match t
    case Leaf =>
      ShownNode(Add(t, l));
      ShownLeaf();
    case Node(left, id, _, _, right) =>
      ShownNode(t);
      ShownNode(Add(t, l));
      if l.id < id {
        AddShown(left, l);
      } else {
        AddShown(right, l);
      }
  }

  lemma ShownLeaf()
    ensures Shown(Leaf) == multiset{}
  {}

  // The loaded tree is a search tree holding exactly the lines of the file.
  lemma {:induction false} LoadOrdered(lines: seq<Line>)
    ensures Between(Load(lines), None, None)
    ensures Shown(Load(lines)) == multiset(lines)
  {
    if lines != [] {
      var n := |lines| - 1;
      LoadOrdered(lines[..n]);
      AddBetween(Load(lines[..n]), lines[n], None, None);
      AddShown(Load(lines[..n]), lines[n]);
      assert lines == lines[..n] + [lines[n]];
      hide *;
    } else {
      ShownLeaf();
    }
  }

  ghost predicate Sorted(s: seq<Line>) {
    forall i, j | 0 <= i < j < |s| :: s[i].id <= s[j].id
  }

  lemma {:induction false} ShowSorted(t: Tree, lo: Option<int>, hi: Option<int>)
    requires Between(t, lo, hi)
    ensures Sorted(Show(t))
    ensures forall l | l in Show(t) :: (lo.Some? ==> lo.value <= l.id) && (hi.Some? ==> l.id < hi.value)
  {
    match t
    case Leaf =>
    case Node(left, id, count, price, right) =>
      ShowSorted(left, lo, Some(id));
      ShowSorted(right, Some(id), hi);
      SortedJoin(Show(left), Line(id, count, price), Show(right));
  }

  lemma SortedJoin(a: seq<Line>, l: Line, b: seq<Line>)
    requires Sorted(a) && Sorted(b)
    requires (forall x | x in a :: x.id < l.id) && forall x | x in b :: l.id <= x.id
    ensures Sorted(a + [l] + b)
  {
    assert forall i | 0 <= i < |a| :: a[i] in a;
    assert forall i | 0 <= i < |b| :: b[i] in b;
  }

  // find_node succeeds exactly on the ids that show_tree prints, with a printed count.
  lemma {:induction false} FindIffShown(t: Tree, id: int, lo: Option<int>, hi: Option<int>)
    requires Between(t, lo, hi)
    ensures Find(t, id).Some? <==> exists l | l in Show(t) :: l.id == id
    ensures Find(t, id).Some? ==> exists l | l in Show(t) :: l.id == id && l.count == Find(t, id).value
  {
    match t
    case Leaf =>
    case Node(left, i, count, price, right) =>
      FindIffShown(left, id, lo, Some(i));
      FindIffShown(right, id, Some(i), hi);
      ShowSorted(left, lo, Some(i));
      ShowSorted(right, Some(i), hi);
      assert Line(i, count, price) in Show(t);
  }

  // An update through find_node changes that one count and nothing else a client can see.
  lemma {:induction false} SetCountEffect(t: Tree, id: int, c: int)
    ensures Find(SetCount(t, id, c), id) == if Find(t, id).Some? then Some(c) else None
    ensures forall other | other != id :: Find(SetCount(t, id, c), other) == Find(t, other)
    ensures |Show(SetCount(t, id, c))| == |Show(t)|
    ensures forall k | 0 <= k < |Show(t)| ::
      Show(SetCount(t, id, c))[k].id == Show(t)[k].id && Show(SetCount(t, id, c))[k].price == Show(t)[k].price
  {
    match t
    case Leaf =>
    case Node(left, i, _, _, right) =>
      if id < i {
        SetCountEffect(left, id, c);
      } else if i < id {
        SetCountEffect(right, id, c);
      }
  }

  /* Ids that occur more than once */

  // The count of the first line with that id.
  function FirstCount(s: seq<Line>, id: int): Option<int> {
    if s == [] then None else if s[0].id == id then Some(s[0].count) else FirstCount(s[1..], id)
  }

  // The lines with that count in the first line with that id.
  function WithCount(s: seq<Line>, id: int, c: int): seq<Line> {
    if s == [] then []
    else if s[0].id == id then [s[0].(count := c)] + s[1..]
    else [s[0]] + WithCount(s[1..], id, c)
  }

  lemma {:induction false} FirstOfBoth(a: seq<Line>, b: seq<Line>, id: int, c: int)
    ensures FirstCount(a + b, id) == if FirstCount(a, id).Some? then FirstCount(a, id) else FirstCount(b, id)
    ensures WithCount(a + b, id, c) ==
      if FirstCount(a, id).Some? then WithCount(a, id, c) + b else a + WithCount(b, id, c)
  {
    if a == [] {
      assert a + b == b;
    } else {
      assert (a + b)[1..] == a[1..] + b && (a + b)[0] == a[0];
      FirstOfBoth(a[1..], b, id, c);
      var tail := WithCount(a[1..], id, c);
      assert [a[0]] + (tail + b) == ([a[0]] + tail) + b;
      assert [a[0]] + (a[1..] + WithCount(b, id, c)) == a + WithCount(b, id, c);
      assert [a[0].(count := c)] + (a[1..] + b) == ([a[0].(count := c)] + a[1..]) + b;
    }
  }

  lemma {:induction false} NotAmong(s: seq<Line>, id: int, c: int)
    requires forall l | l in s :: l.id != id
    ensures FirstCount(s, id) == None && WithCount(s, id, c) == s
  {
    if s != [] {
      assert s[0] in s;
      NotAmong(s[1..], id, c);
    }
  }

  /** On a search tree find_node finds the first line with the id that show_tree prints, and an update of its count
      changes that line only. */
  lemma {:induction false} FindIsFirst(t: Tree, id: int, c: int, lo: Option<int>, hi: Option<int>)
    requires Between(t, lo, hi)
    ensures Find(t, id) == FirstCount(Show(t), id)
    ensures Show(SetCount(t, id, c)) == WithCount(Show(t), id, c)
  {
    match t
    case Leaf =>
    case Node(left, i, count, price, right) =>
      var a, l, b := Show(left), Line(i, count, price), Show(right);
      ShowSorted(left, lo, Some(i));
      ShowSorted(right, Some(i), hi);
      hide FirstCount, WithCount, Sorted;
      if id < i {
        FindIsFirst(left, id, c, lo, Some(i));
        InLeftPart(a, l, b, id, c);
      } else {
        FirstFrom(a, l, b, id, c);
        if id > i {
          FindIsFirst(right, id, c, Some(i), hi);
        }
      }
  }

  lemma InLeftPart(a: seq<Line>, l: Line, b: seq<Line>, id: int, c: int)
    requires l.id != id && forall x | x in b :: x.id != id
    ensures FirstCount(a + [l] + b, id) == FirstCount(a, id)
    ensures WithCount(a + [l] + b, id, c) == WithCount(a, id, c) + [l] + b
  {
    FirstOfBoth(a + [l], b, id, c);
    FirstOfBoth(a, [l], id, c);
    OneLine(l, id, c);
    NotAmong(b, id, c);
    NoneToChange(a, id, c);
  }

  lemma FirstFrom(a: seq<Line>, l: Line, b: seq<Line>, id: int, c: int)
    requires forall x | x in a :: x.id != id
    ensures FirstCount(a + [l] + b, id) == if l.id == id then Some(l.count) else FirstCount(b, id)
    ensures WithCount(a + [l] + b, id, c) ==
      if l.id == id then a + [l.(count := c)] + b else a + [l] + WithCount(b, id, c)
  {
    HeadLine(l, b, id, c);
    hide FirstCount, WithCount;
    assert a + ([l] + b) == a + [l] + b;
    FirstOfBoth(a, [l] + b, id, c);
    NotAmong(a, id, c);
    assert a + ([l] + WithCount(b, id, c)) == a + [l] + WithCount(b, id, c);
    assert a + ([l.(count := c)] + b) == a + [l.(count := c)] + b;
  }

  lemma HeadLine(l: Line, b: seq<Line>, id: int, c: int)
    ensures FirstCount([l] + b, id) == if l.id == id then Some(l.count) else FirstCount(b, id)
    ensures WithCount([l] + b, id, c) == if l.id == id then [l.(count := c)] + b else [l] + WithCount(b, id, c)
  {
    assert ([l] + b)[1..] == b;
  }

  lemma {:induction false} NoneToChange(s: seq<Line>, id: int, c: int)
    ensures FirstCount(s, id).None? ==> WithCount(s, id, c) == s
  {
    if s != [] {
      NoneToChange(s[1..], id, c);
    }
  }

  lemma OneLine(l: Line, id: int, c: int)
    ensures FirstCount([l], id) == if l.id == id then Some(l.count) else None
    ensures WithCount([l], id, c) == [if l.id == id then l.(count := c) else l]
  {}

  lemma {:induction false} FindAdded(t: Tree, l: Line, id: int)
    ensures Find(Add(t, l), id) ==
      if Find(t, id).Some? then Find(t, id) else if l.id == id then Some(l.count) else None
  {
    match t
    case Leaf =>
    case Node(left, i, _, _, right) =>
      if l.id < i {
        FindAdded(left, l, id);
      } else {
        FindAdded(right, l, id);
      }
  }

  /** After loading, find_node finds the first line of the file with the id. */
  lemma {:induction false} LoadFirst(lines: seq<Line>, id: int)
    ensures Find(Load(lines), id) == FirstCount(lines, id)
  {
    if lines != [] {
      var n := |lines| - 1;
      LoadFirst(lines[..n], id);
      FindAdded(Load(lines[..n]), lines[n], id);
      FirstOfBoth(lines[..n], [lines[n]], id, 0);
      assert lines == lines[..n] + [lines[n]];
      OneLine(lines[n], id, 0);
    }
  }
}
