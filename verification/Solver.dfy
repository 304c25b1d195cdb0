/** The maze solver: Dijkstra's algorithm over the cells on the heap, with a linked list as its open list. */
module Solver {
  import opened Grids
  import opened MazeCells
  import opened ShortestPaths
  import opened CellList

  /** dist and prev of every cell are those of s. */
  ghost predicate Mirrors(maze: Maze, s: Search)
    requires maze.Valid()
    reads maze.CellSet()
  {
    && s.dist.Keys == Cells(maze.width, maze.height)
    && (forall p {:trigger maze.At(p).dist} :: maze.Has(p) ==> maze.At(p).dist == s.dist[p])
    && PrevMirrors(maze, s)
  }

  ghost predicate PrevMirrors(maze: Maze, s: Search)
    requires maze.Valid()
    reads maze.CellSet()`prev
  {
    && (forall p {:trigger s.prev[p]} :: maze.Has(p) && p in s.prev ==>
          maze.Has(s.prev[p]) && maze.At(p).prev == maze.At(s.prev[p]))
    && (forall p {:trigger maze.At(p).prev} :: maze.Has(p) ==> (p in s.prev <==> maze.At(p).prev != null))
    && (forall p {:trigger maze.At(p).prev} :: maze.Has(p) && p in s.prev ==>
          maze.Has(s.prev[p]) && maze.At(p).prev == maze.At(s.prev[p]))
  }

  /** p comes before (x, y) when the cells are taken row by row. */
  predicate Before(w: nat, p: Pos, x: int, y: int) {
    0 <= p.x < w && 0 <= p.y && (p.y < y || (p.y == y && p.x < x))
  }

  /** ps lists exactly the cells before (x, y), in that order. */
  ghost predicate RowByRow(w: nat, ps: seq<Pos>, x: int, y: int) {
    && Sorted(ps)
    && (forall p :: p in ps <==> Before(w, p, x, y))
  }

  lemma {:induction false} RowByRowNext(w: nat, ps: seq<Pos>, x: int, y: int)
    requires RowByRow(w, ps, x, y) && 0 <= x < w && 0 <= y
    ensures RowByRow(w, ps + [Pos(x, y)], x + 1, y)
  {
    var next := ps + [Pos(x, y)];
    assert forall p :: p in next <==> p in ps || p == Pos(x, y);
    forall i, j | 0 <= i < j < |next| ensures Earlier(next[i], next[j]) {
      if j == |ps| { assert ps[i] in ps; }
    }
  }

  /** The cells before (x, y) are unreached and have no pointer. */
  ghost predicate Blank(maze: Maze, x: int, y: int)
    requires maze.Valid()
    reads maze.CellSet()
  {
    forall p {:trigger maze.At(p).dist} {:trigger maze.At(p).prev} ::
      maze.Has(p) && Before(maze.width, p, x, y) ==> maze.At(p).dist == INT_MAX && maze.At(p).prev == null
  }

  method PushCell(maze: Maze, nodes: LinkedList, j: nat, i: nat, ghost before: seq<Pos>)
    requires maze.Valid() && nodes.Valid() && nodes.LastCurrent() && i < maze.height && j < maze.width
    requires maze.CellsAt(nodes.Contents, before) && Blank(maze, j, i)
    modifies nodes, nodes.Repr, maze.CellSet()`dist, maze.CellSet()`prev
    ensures nodes.Valid() && nodes.LastCurrent() && fresh(nodes.Repr - old(nodes.Repr))
    ensures maze.CellsAt(nodes.Contents, before + [Pos(j, i)]) && Blank(maze, j + 1, i)
  {
    hide LinkedList.Valid, LinkedList.LastCurrent;
    var cell := maze.cells[i][j];
    assert cell == maze.At(Pos(j, i));
    cell.dist := INT_MAX;
    cell.prev := null;
    nodes.Push(cell);
  }

  /** Pushes one row of cells, unreached and without pointer. */
  method PushRow(maze: Maze, nodes: LinkedList, i: nat, ghost before: seq<Pos>) returns (ghost pending: seq<Pos>)
    requires maze.Valid() && nodes.Valid() && nodes.LastCurrent() && i < maze.height
    requires RowByRow(maze.width, before, 0, i) && maze.CellsAt(nodes.Contents, before) && Blank(maze, 0, i)
    modifies nodes, nodes.Repr, maze.CellSet()`dist, maze.CellSet()`prev
    ensures nodes.Valid() && nodes.LastCurrent() && fresh(nodes.Repr - old(nodes.Repr))
    ensures RowByRow(maze.width, pending, 0, i + 1) && maze.CellsAt(nodes.Contents, pending) && Blank(maze, 0, i + 1)
  {
    pending := before;
    for j := 0 to maze.width
      invariant nodes.Valid() && nodes.LastCurrent()
      invariant fresh(nodes.Repr - old(nodes.Repr))
      invariant RowByRow(maze.width, pending, j, i) && maze.CellsAt(nodes.Contents, pending) && Blank(maze, j, i)
    {
      PushCell(maze, nodes, j, i, pending);
      RowByRowNext(maze.width, pending, j, i);
      pending := pending + [Pos(j, i)];
    }
  }

  /** Pushes all cells. */
  method PushAll(maze: Maze, nodes: LinkedList) returns (ghost pending: seq<Pos>)
    requires maze.Valid() && nodes.Valid() && nodes.LastCurrent() && nodes.Contents == [] && nodes.Repr == {}
    modifies nodes, maze.CellSet()`dist, maze.CellSet()`prev
    ensures nodes.Valid() && nodes.LastCurrent() && fresh(nodes.Repr)
    ensures RowByRow(maze.width, pending, 0, maze.height) && maze.CellsAt(nodes.Contents, pending)
    ensures Blank(maze, 0, maze.height)
  {
    pending := [];
    for i := 0 to maze.height
      invariant nodes.Valid() && nodes.LastCurrent() && fresh(nodes.Repr)
      invariant RowByRow(maze.width, pending, 0, i) && maze.CellsAt(nodes.Contents, pending) && Blank(maze, 0, i)
    {
      pending := PushRow(maze, nodes, i, pending);
    }
  }

  /** One can step from the cell at p to the side d, and the cell there is in the open list. */
  ghost predicate Near(maze: Maze, nodes: seq<Cell>, p: Pos, d: Dir)
    requires maze.Valid() && maze.Has(p)
    reads maze.At(p)
  {
    maze.Has(Step(p, d)) && !maze.At(p).Wall(d) && maze.At(Step(p, d)) in nodes
  }

  /** Adds the cell beside p on side d if it is to be relaxed. */
  method AddNear(maze: Maze, nodes: LinkedList, cell: Cell, d: Dir, cells: seq<Cell>, ghost p: Pos, ghost ds: seq<Dir>)
    returns (r: seq<Cell>, ghost es: seq<Dir>)
    requires maze.Valid() && nodes.Valid() && maze.Has(p) && cell == maze.At(p) && maze.Beside(p, cells, ds)
    ensures maze.Beside(p, r, es)
    ensures forall e :: e in es <==> e in ds || (e == d && Near(maze, nodes.Contents, p, e))
  {
    r, es := cells, ds;
    if Inside(maze.width, maze.height, Pos(cell.x, cell.y), d) && !cell.Wall(d) {
      var q := Step(Pos(cell.x, cell.y), d);
      var b := nodes.Contains(maze.cells[q.y][q.x]);
      if b { r, es := cells + [maze.cells[q.y][q.x]], ds + [d]; }
    }
  }

  /** The cells of the open list to which one can step from `cell`. */
  method PendingNeighbours(maze: Maze, nodes: LinkedList, cell: Cell, ghost p: Pos)
    returns (neighbours: seq<Cell>, ghost ds: seq<Dir>)
    requires maze.Valid() && maze.Has(p) && cell == maze.At(p) && nodes.Valid()
    ensures maze.Beside(p, neighbours, ds)
    ensures forall d :: d in ds <==> Near(maze, nodes.Contents, p, d)
  {
    neighbours, ds := AddNear(maze, nodes, cell, Left, [], p, []);
    neighbours, ds := AddNear(maze, nodes, cell, Right, neighbours, p, ds);
    neighbours, ds := AddNear(maze, nodes, cell, Top, neighbours, p, ds);
    neighbours, ds := AddNear(maze, nodes, cell, Bottom, neighbours, p, ds);
  }

  /** Settling p has got as far as the neighbours `done`. */
  ghost predicate Relaxed(maze: Maze, s: Search, p: Pos, done: seq<Cell>)
    requires maze.Valid() && maze.Has(p) && s.dist.Keys == Cells(maze.width, maze.height)
    reads maze.CellSet()
  {
    && (forall q {:trigger s.prev[q]} :: maze.Has(q) && q in s.prev ==> maze.Has(s.prev[q]))
    && (forall q {:trigger maze.At(q).dist} {:trigger maze.At(q).prev} :: maze.Has(q) ==>
          if maze.At(q) in done && Successor(s.dist[p]) < s.dist[q] then
            maze.At(q).dist == Successor(s.dist[p]) && maze.At(q).prev == maze.At(p)
          else
            maze.At(q).dist == s.dist[q] &&
            maze.At(q).prev == if q in s.prev then maze.At(s.prev[q]) else null)
  }

  method RelaxOne(maze: Maze, current: Cell, neighbour: Cell, ghost s: Search, ghost p: Pos, ghost r: Pos,
                  ghost done: seq<Cell>)
    requires maze.Valid() && maze.Has(p) && maze.Has(r) && r != p && current == maze.At(p) && neighbour == maze.At(r)
    requires s.dist.Keys == Cells(maze.width, maze.height)
    requires current !in done && Relaxed(maze, s, p, done)
    modifies neighbour`dist, neighbour`prev
    ensures Relaxed(maze, s, p, done + [neighbour])
  {
    var alt := Successor(current.dist);
    if alt < neighbour.dist {
      neighbour.dist := alt;
      neighbour.prev := current;
    }
  }

  /** Tells the neighbours of the way through `current`. */
  method Relax(maze: Maze, current: Cell, neighbours: seq<Cell>, ghost s: Search, ghost p: Pos, ghost ds: seq<Dir>)
    requires maze.Valid() && maze.Has(p) && current == maze.At(p) && maze.Beside(p, neighbours, ds)
    requires Mirrors(maze, s)
    modifies maze.CellSet()`dist, maze.CellSet()`prev
    ensures Relaxed(maze, s, p, neighbours)
  {
    for i := 0 to |neighbours|
      invariant Relaxed(maze, s, p, neighbours[..i])
    {
      assert neighbours[..i + 1] == neighbours[..i] + [neighbours[i]];
      RelaxOne(maze, current, neighbours[i], s, p, Step(p, ds[i]), neighbours[..i]);
    }
    assert neighbours[..|neighbours|] == neighbours;
  }

  /** The neighbours to relax are the cells q with a passage from p that are still in the open list. */
  lemma {:induction false} NearIsPending(maze: Maze, g: Grid, cells: seq<Cell>, pending: seq<Pos>,
                                         neighbours: seq<Cell>, p: Pos, ds: seq<Dir>, q: Pos)
    requires maze.Valid() && maze.Shows(g) && maze.Has(p) && maze.Has(q)
    requires maze.CellsAt(cells, pending) && maze.Beside(p, neighbours, ds)
    requires forall d :: d in ds <==> Near(maze, cells, p, d)
    ensures maze.At(q) in neighbours <==> g.Passage(p, q) && q in pending
  {
    maze.CellsAtMember(cells, pending, q);
    if maze.At(q) in neighbours {
      var k :| 0 <= k < |neighbours| && neighbours[k] == maze.At(q);
      assert q == Step(p, ds[k]) && ds[k] in ds && DirTo(p, q) == ds[k];
    }
    if g.Passage(p, q) && q in pending {
      assert Step(p, DirTo(p, q)) == q;
      assert DirTo(p, q) in ds;
      var k :| 0 <= k < |ds| && ds[k] == DirTo(p, q);
      assert neighbours[k] == maze.At(q);
    }
  }

  lemma {:induction false} RelaxedIsSettled(maze: Maze, g: Grid, s: Search, p: Pos, neighbours: seq<Cell>)
    requires maze.Valid() && maze.Has(p) && s.dist.Keys == Cells(maze.width, maze.height)
    requires Relaxed(maze, s, p, neighbours)
    requires forall q {:trigger maze.At(q) in neighbours} :: maze.Has(q) ==>
      (maze.At(q) in neighbours <==> g.Passage(p, q) && q in s.pending && q != p)
    ensures Mirrors(maze, Settle(g, s, p))
  {
    var s' := Settle(g, s, p);
    forall q | maze.Has(q)
      ensures maze.At(q).dist == s'.dist[q]
      ensures if q in s'.prev then maze.Has(s'.prev[q]) && maze.At(q).prev == maze.At(s'.prev[q])
              else maze.At(q).prev == null
    {
      assert Relaxes(g, s, p, q) <==> maze.At(q) in neighbours && Successor(s.dist[p]) < s.dist[q];
    }
  }

  /** The positions of the cells. */
  ghost function Positions(cells: seq<Cell>): (ps: seq<Pos>)
    ensures |ps| == |cells|
    ensures forall i :: 0 <= i < |cells| ==> ps[i] == Pos(cells[i].x, cells[i].y)
  {
    seq(|cells|, i requires 0 <= i < |cells| => Pos(cells[i].x, cells[i].y))
  }

  /** The neighbours that settling p has to look at. */
  method NeighboursToRelax(maze: Maze, nodes: LinkedList, current: Cell,
           ghost g: Grid, ghost pending: seq<Pos>, ghost p: Pos)
    returns (neighbours: seq<Cell>, ghost ds: seq<Dir>)
    requires maze.Valid() && nodes.Valid() && maze.Shows(g) && maze.CellsAt(nodes.Contents, pending)
    requires maze.Has(p) && current == maze.At(p)
    ensures maze.Beside(p, neighbours, ds)
    ensures forall q {:trigger maze.At(q) in neighbours} ::
      maze.Has(q) ==> (maze.At(q) in neighbours <==> g.Passage(p, q) && q in pending)
  {
    neighbours, ds := PendingNeighbours(maze, nodes, current, p);
    forall q | maze.Has(q) ensures maze.At(q) in neighbours <==> g.Passage(p, q) && q in pending {
      NearIsPending(maze, g, nodes.Contents, pending, neighbours, p, ds, q);
    }
  }

  method RelaxAll(maze: Maze, current: Cell, neighbours: seq<Cell>, ghost g: Grid, ghost s: Search, ghost p: Pos,
                  ghost ds: seq<Dir>)
    requires maze.Valid() && maze.Has(p) && current == maze.At(p) && maze.Beside(p, neighbours, ds)
    requires Mirrors(maze, s)
    requires forall q {:trigger maze.At(q) in neighbours} :: maze.Has(q) ==>
      (maze.At(q) in neighbours <==> g.Passage(p, q) && q in s.pending && q != p)
    modifies maze.CellSet()`dist, maze.CellSet()`prev
    ensures Mirrors(maze, Settle(g, s, p))
  {
    Relax(maze, current, neighbours, s, p, ds);
    RelaxedIsSettled(maze, g, s, p, neighbours);
  }

  /** Takes the cell out of the open list and finds the neighbours to relax. */
  method RemoveAndLook(maze: Maze, nodes: LinkedList, current: Cell,
           ghost g: Grid, ghost pending: seq<Pos>, ghost p: Pos)
    returns (neighbours: seq<Cell>, ghost ds: seq<Dir>)
    requires maze.Valid() && nodes.Valid() && maze.Shows(g) && maze.CellsAt(nodes.Contents, pending)
    requires maze.Has(p) && current == maze.At(p)
    requires nodes.LastCurrent() && |pending| > 0 && pending[|pending| - 1] != p
    modifies nodes, nodes.Repr
    ensures nodes.Valid() && nodes.LastCurrent() && nodes.Repr == old(nodes.Repr)
    ensures maze.CellsAt(nodes.Contents, Without(pending, p))
    ensures maze.Beside(p, neighbours, ds)
    ensures forall q {:trigger maze.At(q) in neighbours} ::
      maze.Has(q) ==> (maze.At(q) in neighbours <==> g.Passage(p, q) && q in Without(pending, p))
  {
    RemoveMirrors(maze, nodes.Contents, pending, p);
    nodes.Remove(current);
    neighbours, ds := NeighboursToRelax(maze, nodes, current, g, Without(pending, p), p);
  }

  lemma {:induction false} RemoveMirrors(maze: Maze, cells: seq<Cell>, ps: seq<Pos>, p: Pos)
    requires maze.Valid() && maze.CellsAt(cells, ps) && maze.Has(p)
    ensures maze.CellsAt(Without(cells, maze.At(p)), Without(ps, p))
  {
    if ps != [] && ps[0] != p {
      RemoveMirrors(maze, cells[1..], ps[1..], p);
    }
  }

  /** The cell at ps[i] points to the one at ps[i + 1], or to none at the end. */
  ghost predicate PointsOn(maze: Maze, ps: seq<Pos>, i: int)
    requires maze.Valid() && 0 <= i < |ps| && maze.Has(ps[i]) && (i + 1 < |ps| ==> maze.Has(ps[i + 1]))
    reads maze.At(ps[i])
  {
    maze.At(ps[i]).prev == if i + 1 < |ps| then maze.At(ps[i + 1]) else null
  }

  /** The cells at the positions ps point each to the next, and the last to none. */
  ghost predicate Linked(maze: Maze, ps: seq<Pos>)
    requires maze.Valid()
    reads maze.CellSet()
  {
    && |ps| > 0
    && (forall i :: 0 <= i < |ps| ==> maze.Has(ps[i]))
    && (forall i :: 0 <= i < |ps| ==> PointsOn(maze, ps, i))
  }

  /** Follows prev from the goal, pushing each cell onto a new list. */
  method Collect(maze: Maze, goal: Cell, ghost chain: seq<Pos>) returns (solution: LinkedList)
    requires maze.Valid() && Linked(maze, chain) && goal == maze.At(chain[0])
    ensures fresh(solution) && fresh(solution.Repr) && solution.Valid()
    ensures maze.CellsAt(solution.Contents, chain)
  {
    hide LinkedList.Valid, LinkedList.LastCurrent;
    solution := new LinkedList();
    var current: Cell? := goal;
    ghost var i := 0;
    while current != null
      invariant fresh(solution) && fresh(solution.Repr) && solution.Valid() && solution.LastCurrent()
      invariant 0 <= i <= |chain| && (i < |chain| ==> maze.Has(chain[i]))
      invariant current == (if i < |chain| then maze.At(chain[i]) else null)
      invariant maze.CellsAt(solution.Contents, chain[..i])
      decreases |chain| - i
    {
      assert old(PointsOn(maze, chain, i));
      maze.CellsAtNext(solution.Contents, chain, i);
      solution.Push(current);
      current := current.prev;
      i := i + 1;
    }
    assert chain[..i] == chain;
  }

  lemma {:induction false} ChainLinked(maze: Maze, s: Search, c: seq<Pos>)
    requires maze.Valid() && Mirrors(maze, s)
    requires |c| > 0 && c[|c| - 1] !in s.prev && forall i :: 0 <= i < |c| ==> maze.Has(c[i])
    requires forall i :: 0 <= i < |c| - 1 ==> c[i] in s.prev && c[i + 1] == s.prev[c[i]]
    ensures Linked(maze, c)
  {
    forall i | 0 <= i < |c| ensures PointsOn(maze, c, i) {
      if i + 1 < |c| { assert c[i + 1] == s.prev[c[i]]; }
    }
  }

  lemma {:induction false} NearestIsPick(maze: Maze, g: Grid, cells: seq<Cell>, s: Search, current: Cell)
    requires maze.Valid() && Mirrors(maze, s) && maze.CellsAt(cells, s.pending) && FirstLeast(cells, current)
    requires Sorted(s.pending)
    ensures maze.Has(Pos(current.x, current.y)) && maze.At(Pos(current.x, current.y)) == current
    ensures Pick(g, s, Pos(current.x, current.y))
  {
    var k :| 0 <= k < |cells| && cells[k] == current && LeastAt(cells, k, |cells|);
    forall q | q in s.pending && q in s.dist ensures s.dist[Pos(current.x, current.y)] <= s.dist[q] {
      var j :| 0 <= j < |s.pending| && s.pending[j] == q;
      assert cells[j] == maze.At(q);
    }
    forall q | q in s.pending && q in s.dist && q != Pos(current.x, current.y)
      ensures s.dist[Pos(current.x, current.y)] < s.dist[q] || Earlier(Pos(current.x, current.y), q)
    {
      var j :| 0 <= j < |s.pending| && s.pending[j] == q;
      assert cells[j] == maze.At(q);
      if j < k { assert cells[j].dist > cells[k].dist; }
    }
  }

  /** Puts all cells in the open list, with only the start reached. */
  method StartSearch(maze: Maze, nodes: LinkedList, ghost g: Grid) returns (ghost pending: seq<Pos>)
    requires maze.Valid() && nodes.Valid() && nodes.LastCurrent() && nodes.Contents == [] && nodes.Repr == {}
    requires g.width == maze.width && g.height == maze.height
    modifies nodes, maze.CellSet()`dist, maze.CellSet()`prev
    ensures nodes.Valid() && nodes.LastCurrent() && fresh(nodes.Repr)
    ensures RowByRow(maze.width, pending, 0, maze.height)
    ensures Mirrors(maze, Fresh(g, pending)) && maze.CellsAt(nodes.Contents, pending)
  {
    pending := PushAll(maze, nodes);
    var start := maze.cells[0][0];
    assert start == maze.At(ORIGIN);
    start.dist := 0;
  }

  lemma {:induction false} RowByRowIsAll(g: Grid, pending: seq<Pos>)
    requires g.width > 0 && g.height > 0 && RowByRow(g.width, pending, 0, g.height)
    requires |Cells(g.width, g.height)| <= INT_MAX
    ensures Legal(g, Begin(pending))
  {
    assert forall p :: Earlier(p, p) ==> false;
    NoRepeatsSize(pending);
    assert Elements(pending) == Cells(g.width, g.height);
    assert g.Goal() in pending;
    var last := pending[|pending| - 1];
    assert last in pending;
    assert g.Has(last) && !Earlier(g.Goal(), last);
    FreshInv(g, pending);
  }

  /** Settles the nearest cell of the open list. */
  method StepSearch(maze: Maze, nodes: LinkedList, current: Cell, ghost g: Grid, ghost s: Search, ghost p: Pos)
    requires maze.Valid() && nodes.Valid() && nodes.LastCurrent() && maze.Shows(g)
    requires Mirrors(maze, s) && maze.CellsAt(nodes.Contents, s.pending)
    requires p !in Without(s.pending, p) && |s.pending| > 0 && p != s.pending[|s.pending| - 1]
    requires maze.Has(p) && current == maze.At(p)
    modifies nodes, nodes.Repr, maze.CellSet()`dist, maze.CellSet()`prev
    ensures nodes.Valid() && nodes.LastCurrent() && nodes.Repr == old(nodes.Repr)
    ensures Mirrors(maze, Settle(g, s, p)) && maze.CellsAt(nodes.Contents, Settle(g, s, p).pending)
  {
    hide LinkedList.Valid, LinkedList.LastCurrent;
    var neighbours, ds := RemoveAndLook(maze, nodes, current, g, s.pending, p);
    RelaxAll(maze, current, neighbours, g, s, p, ds);
  }

  /** The open list and the cells are in the state that the run h has reached. */
  ghost predicate AtState(maze: Maze, nodes: LinkedList, g: Grid, h: History)
    requires maze.Valid()
    reads nodes, nodes.Repr, maze.CellSet()
  {
    && nodes.Valid() && nodes.LastCurrent() && Legal(g, h)
    && Mirrors(maze, State(g, h)) && maze.CellsAt(nodes.Contents, State(g, h).pending)
  }

  lemma {:induction false} StillOpen(maze: Maze, nodes: LinkedList, g: Grid, h: History)
    requires maze.Valid() && AtState(maze, nodes, g, h)
    ensures nodes.size > 0 && Sound(g, State(g, h))
  {
    LegalSound(g, h);
  }

  /** A nearest cell of the open list. */
  method PickNearest(maze: Maze, nodes: LinkedList, ghost g: Grid, ghost h: History) returns (current: Cell)
    requires maze.Valid() && maze.Shows(g) && AtState(maze, nodes, g, h) && nodes.size > 0
    ensures maze.Shows(g) && AtState(maze, nodes, g, h)
    ensures maze.Has(Pos(current.x, current.y)) && maze.At(Pos(current.x, current.y)) == current
    ensures Pick(g, State(g, h), Pos(current.x, current.y))
  {
    hide Legal, State, Pick, LinkedList.Valid, LinkedList.LastCurrent;
    hide Sorted;
    LegalSorted(g, h);
    current := nodes.GetMinimumDistance();
    NearestIsPick(maze, g, nodes.Contents, State(g, h), current);
  }

  method ContinueSearch(maze: Maze, nodes: LinkedList, current: Cell, ghost g: Grid, ghost h: History, ghost p: Pos)
    requires maze.Valid() && maze.Shows(g) && AtState(maze, nodes, g, h)
    requires Pick(g, State(g, h), p) && p != g.Goal() && maze.Has(p) && current == maze.At(p)
    modifies nodes, nodes.Repr, maze.CellSet()`dist, maze.CellSet()`prev
    ensures maze.Shows(g) && AtState(maze, nodes, g, Then(h, p)) && nodes.Repr == old(nodes.Repr)
    ensures |State(g, Then(h, p)).pending| < |State(g, h).pending|
  {
    hide Mirrors, Legal, State, Settle, Without, Pick;
    LegalSound(g, h);
    LegalNext(g, h, p);
    StepSearch(maze, nodes, current, g, State(g, h), p);
  }

  /** The solver's loop: it always ends by finding the goal nearest, never with an empty open list. */
  method FindGoal(maze: Maze, nodes: LinkedList, ghost g: Grid, ghost start: History)
    returns (goal: Cell, ghost h: History)
    requires maze.Valid() && maze.Shows(g) && AtState(maze, nodes, g, start)
    modifies nodes, nodes.Repr, maze.CellSet()`dist, maze.CellSet()`prev
    ensures AtState(maze, nodes, g, h) && Pick(g, State(g, h), g.Goal())
    ensures maze.Has(g.Goal()) && goal == maze.At(g.Goal())
  {
    hide AtState, Legal, State, Settle, Without, Pick;
    h := start;
    StillOpen(maze, nodes, g, h);
    var current: Cell? := null;
    while nodes.size > 0
      invariant maze.Shows(g) && AtState(maze, nodes, g, h) && nodes.Repr == old(nodes.Repr)
      invariant nodes.size > 0 && Sound(g, State(g, h))
      decreases |State(g, h).pending|
    {
      current := PickNearest(maze, nodes, g, h);
      ghost var p := Pos(current.x, current.y);
      if current.x == maze.width - 1 && current.y == maze.height - 1 {
        assert p == g.Goal();
        break;
      }
      ContinueSearch(maze, nodes, current, g, h, p);
      h := Then(h, p);
      StillOpen(maze, nodes, g, h);
    }
    goal := current;
  }

  /** The distances in the cells. */
  ghost function Distances(maze: Maze): map<Pos, int>
    requires maze.Valid()
    reads maze.CellSet()`dist
  {
    map p | p in Cells(maze.width, maze.height) :: maze.At(p).dist
  }

  /** Runs the search on a maze with the walls of g. */
  method RunSearch(maze: Maze, ghost g: Grid) returns (goal: Cell, ghost h: History)
    requires maze.Valid() && maze.Shows(g) && maze.width * maze.height <= INT_MAX
    modifies maze.CellSet()`dist, maze.CellSet()`prev
    ensures Legal(g, h) && Mirrors(maze, State(g, h)) && Pick(g, State(g, h), g.Goal())
    ensures maze.Has(g.Goal()) && goal == maze.At(g.Goal())
  {
    hide LinkedList.Valid, LinkedList.LastCurrent, RowByRow, Pick;
    CellCount(maze.width, maze.height);
    var nodes := new LinkedList();
    ghost var pending := StartSearch(maze, nodes, g);
    RowByRowIsAll(g, pending);
    goal, h := FindGoal(maze, nodes, g, Begin(pending));
  }

  /** The list c of positions is the answer for the walls g, with the distances and pointers left in the cells. */
  ghost predicate Answers(maze: Maze, g: Grid, c: seq<Pos>)
    requires maze.Valid()
    reads maze.CellSet()
  {
    && Solves(g, c)
    && Linked(maze, c)
    && (g.Reachable(g.Goal()) ==> RightUpToGoal(g, Distances(maze)))
  }

  lemma {:induction false} AnswerInCells(maze: Maze, g: Grid, h: History) returns (c: seq<Pos>)
    requires maze.Valid() && g.width == maze.width && g.height == maze.height
    requires Legal(g, h) && Mirrors(maze, State(g, h)) && Pick(g, State(g, h), g.Goal())
    ensures Answers(maze, g, c) && c[0] == g.Goal()
  {
    hide Legal, State, Solves, RightUpToGoal, Pick, Linked, PrevMirrors;
    c := LegalAnswer(g, h);
    ChainLinked(maze, State(g, h), c);
    assert Distances(maze) == State(g, h).dist;
  }

  /** Never fails to return a list: there is no case in which the open list runs out. The list follows prev from the
      goal; it is a shortest path back to the start whenever the goal can be reached. */
  method GetSolution(maze: Maze) returns (solution: LinkedList)
    requires maze.Valid() && maze.width * maze.height <= INT_MAX
    modifies maze.CellSet()`dist, maze.CellSet()`prev
    ensures maze.Snapshot() == old(maze.Snapshot())
    ensures fresh(solution) && fresh(solution.Repr) && solution.Valid()
    ensures maze.CellsAt(solution.Contents, Positions(solution.Contents))
    ensures Answers(maze, maze.Snapshot(), Positions(solution.Contents))
  {
    hide Legal, State, Mirrors, Pick, Solves, RightUpToGoal;
    ghost var g := maze.Snapshot();
    maze.ShowsSnapshot(g);
    var goal;
    ghost var h;
    goal, h := RunSearch(maze, g);
    ghost var c := AnswerInCells(maze, g, h);
    solution := Collect(maze, goal, c);
    assert Positions(solution.Contents) == c;
  }
}
