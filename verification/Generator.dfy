/** The maze generator: randomized depth-first search over the cells on the heap. */
module Generator {
  import opened Grids
  import opened Carving
  import opened MazeCells
  import opened CellStack

  /** The cells are in the state that c describes. */
  ghost predicate Depicts(maze: Maze, c: Carving)
    requires maze.Valid()
    reads maze.CellSet()
  {
    && maze.Shows(Grid(maze.width, maze.height, c.open))
    && (forall p :: maze.Has(p) ==> (maze.At(p).visited <==> p in c.visited))
  }

  method NewMaze(width: nat, height: nat) returns (maze: Maze)
    requires width > 0 && height > 0
    ensures maze.Valid() && maze.width == width && maze.height == height
    ensures fresh(maze.CellSet())
    ensures forall p :: maze.Has(p) ==> !maze.At(p).visited && forall d :: maze.At(p).Wall(d)
  {
    var cells: seq<seq<Cell>> := [];
    for i := 0 to height
      invariant |cells| == i
      invariant forall k :: 0 <= k < i ==> |cells[k]| == width
      invariant forall k, j :: 0 <= k < i && 0 <= j < width ==> IsNew(cells[k][j], j, k) && fresh(cells[k][j])
    {
      var row: seq<Cell> := [];
      for j := 0 to width
        invariant |row| == j
        invariant forall k :: 0 <= k < j ==> IsNew(row[k], k, i) && fresh(row[k])
        invariant forall k, j :: 0 <= k < i && 0 <= j < width ==> IsNew(cells[k][j], j, k)
      {
        var cell := new Cell(j, i);
        row := row + [cell];
      }
      cells := cells + [row];
    }
    maze := Maze(width, height, CELL_SIZE, cells);
    assert forall p :: maze.Has(p) ==> IsNew(maze.At(p), p.x, p.y);
  }

  ghost predicate IsNew(cell: Cell, x: int, y: int)
    reads cell
  {
    cell.x == x && cell.y == y && !cell.visited && forall d :: cell.Wall(d)
  }

  method AddUnvisited(maze: Maze, x: int, y: int, cells: seq<Cell>, ghost visited: set<Pos>, ghost p: Pos,
                      ghost ds: seq<Dir>, ghost d: Dir)
    returns (r: seq<Cell>)
    requires maze.Valid() && maze.Has(p) && maze.Has(Pos(x, y)) && Step(p, d) == Pos(x, y) && maze.Beside(p, cells, ds)
    requires forall p :: maze.Has(p) ==> (maze.At(p).visited <==> p in visited)
    ensures maze.Beside(p, r, AddFree(maze.width, maze.height, visited, p, ds, d))
  {
    var neighbour := maze.cells[y][x];
    assert neighbour == maze.At(Pos(x, y));
    r := if !neighbour.visited then cells + [neighbour] else cells;
  }

  method UnvisitedNeighbours(maze: Maze, cell: Cell, ghost visited: set<Pos>) returns (neighbours: seq<Cell>)
    requires maze.Valid() && cell in maze.CellSet()
    requires forall p :: maze.Has(p) ==> (maze.At(p).visited <==> p in visited)
    ensures maze.Beside(Pos(cell.x, cell.y), neighbours,
                  Choices(maze.width, maze.height, visited, Pos(cell.x, cell.y)))
  {
    var x, y := cell.x, cell.y;
    ghost var w, h, p := maze.width, maze.height, Pos(x, y);
    neighbours := [];
    ghost var ds: seq<Dir> := [];
    if x > 0 {
      neighbours := AddUnvisited(maze, x - 1, y, neighbours, visited, p, ds, Left);
    }
    ds := AddFree(w, h, visited, p, ds, Left);
    if x < maze.width - 1 {
      neighbours := AddUnvisited(maze, x + 1, y, neighbours, visited, p, ds, Right);
    }
    ds := AddFree(w, h, visited, p, ds, Right);
    if y > 0 {
      neighbours := AddUnvisited(maze, x, y - 1, neighbours, visited, p, ds, Top);
    }
    ds := AddFree(w, h, visited, p, ds, Top);
    if y < maze.height - 1 {
      neighbours := AddUnvisited(maze, x, y + 1, neighbours, visited, p, ds, Bottom);
    }
    ds := AddFree(w, h, visited, p, ds, Bottom);
  }

  /** Removes the two sides of the wall between neighbouring cells. */
  method RemoveWall(current: Cell, neighbour: Cell)
    requires Adjacent(Pos(current.x, current.y), Pos(neighbour.x, neighbour.y))
    modifies current, neighbour
    ensures current.visited == old(current.visited) && neighbour.visited == old(neighbour.visited)
    ensures var d := DirTo(Pos(current.x, current.y), Pos(neighbour.x, neighbour.y));
      && (forall e :: current.Wall(e) <==> old(current.Wall(e)) && e != d)
      && (forall e :: neighbour.Wall(e) <==> old(neighbour.Wall(e)) && e != Opposite(d))
  {
    if neighbour.x == current.x - 1 {
      current.leftWall := false;
      neighbour.rightWall := false;
    } else if neighbour.x == current.x + 1 {
      current.rightWall := false;
      neighbour.leftWall := false;
    } else if neighbour.y == current.y - 1 {
      current.topWall := false;
      neighbour.bottomWall := false;
    } else if neighbour.y == current.y + 1 {
      current.bottomWall := false;
      neighbour.topWall := false;
    }
  }

  /** Joins the current cell to an unvisited neighbour. */
  method Join(maze: Maze, current: Cell, neighbour: Cell, ghost c: Carving, ghost p: Pos, ghost d: Dir)
    requires maze.Valid() && Depicts(maze, c)
    requires maze.Has(p) && maze.Has(Step(p, d)) && current == maze.At(p) && neighbour == maze.At(Step(p, d))
    modifies current, neighbour
    ensures Depicts(maze, Carve(c, p, d))
  {
    assert Adjacent(p, Step(p, d)) && DirTo(p, Step(p, d)) == d;
    RemoveWall(current, neighbour);
    neighbour.visited := true;
  }

  /** Puts the current cell back and goes on to an unvisited neighbour. */
  method Extend(maze: Maze, stack: Stack, current: Cell, neighbour: Cell, ghost c: Carving, ghost p: Pos, ghost d: Dir)
    requires maze.Valid() && stack.Valid() && Depicts(maze, c)
    requires maze.Has(p) && maze.Has(Step(p, d)) && current == maze.At(p) && neighbour == maze.At(Step(p, d))
    requires maze.CellsAt(stack.Contents + [current], c.stack)
    modifies stack, current, neighbour
    ensures stack.Valid()
    ensures Depicts(maze, Carve(c, p, d))
    ensures maze.CellsAt(stack.Contents, Carve(c, p, d).stack)
  {
    hide Stack.Valid;
    stack.Push(current);
    Join(maze, current, neighbour, c, p, d);
    stack.Push(neighbour);
  }

  /** One iteration of the generator's loop. */
  method Iterate(maze: Maze, stack: Stack, rand: nat, ghost c: Carving)
    requires maze.Valid() && stack.Valid() && stack.size > 0
    requires Depicts(maze, c) && maze.CellsAt(stack.Contents, c.stack)
    modifies stack, maze.CellSet()
    ensures stack.Valid()
    ensures Depicts(maze, Advance(maze.width, maze.height, c, rand))
    ensures maze.CellsAt(stack.Contents, Advance(maze.width, maze.height, c, rand).stack)
  {
    ghost var p := c.stack[|c.stack| - 1];
    var current := stack.Pop();
    assert current == maze.At(p);
    var neighbours := UnvisitedNeighbours(maze, current, c.visited);
    if |neighbours| > 0 {
      ghost var ds := Choices(maze.width, maze.height, c.visited, p);
      Extend(maze, stack, current, neighbours[rand % |neighbours|], c, p, ds[rand % |ds|]);
    }
  }

  /** Marks the start as visited and puts it on the stack. */
  method Begin(maze: Maze, stack: Stack)
    requires maze.Valid() && stack.Valid() && stack.Contents == []
    requires forall p :: maze.Has(p) ==> !maze.At(p).visited && forall d :: maze.At(p).Wall(d)
    modifies stack, maze.CellSet()
    ensures stack.Valid() && Depicts(maze, Start()) && maze.CellsAt(stack.Contents, Start().stack)
  {
    var start := maze.cells[0][0];
    assert start == maze.At(ORIGIN);
    start.visited := true;
    stack.Push(start);
  }

  /** Cells and stack are in the state that the run has reached after n iterations. */
  ghost predicate OnRun(maze: Maze, stack: Stack, rand: nat -> nat, n: nat)
    requires maze.Valid()
    reads stack, maze.CellSet()
  {
    && stack.Valid() && Depicts(maze, Run(maze.width, maze.height, rand, n))
    && maze.CellsAt(stack.Contents, Run(maze.width, maze.height, rand, n).stack)
  }

  lemma {:induction false} StackOnRun(maze: Maze, stack: Stack, rand: nat -> nat, n: nat)
    requires maze.Valid() && OnRun(maze, stack, rand, n)
    ensures stack.size == |Run(maze.width, maze.height, rand, n).stack|
  {}

  method IterateOnRun(maze: Maze, stack: Stack, rand: nat -> nat, n: nat)
    requires maze.Valid() && stack.size > 0 && OnRun(maze, stack, rand, n)
    modifies stack, maze.CellSet()
    ensures OnRun(maze, stack, rand, n + 1)
  {
    Iterate(maze, stack, rand(n), Run(maze.width, maze.height, rand, n));
    RunNext(maze.width, maze.height, rand, n);
  }

  /** The generator's loop: it ends with the cells in the state that Carved names, after as many iterations as
      LoopLength says. */
  method CarveAll(maze: Maze, stack: Stack, rand: nat -> nat) returns (iterations: nat)
    requires maze.Valid() && stack.Valid()
    requires Depicts(maze, Start()) && maze.CellsAt(stack.Contents, Start().stack)
    modifies stack, maze.CellSet()
    ensures Depicts(maze, Run(maze.width, maze.height, rand, iterations))
    ensures iterations == 2 * |Cells(maze.width, maze.height)| - 1
  {
    assert OnRun(maze, stack, rand, 0);
    iterations := CarveFromStart(maze, stack, rand);
  }

  method CarveFromStart(maze: Maze, stack: Stack, rand: nat -> nat) returns (iterations: nat)
    requires maze.Valid() && OnRun(maze, stack, rand, 0)
    modifies stack, maze.CellSet()
    ensures OnRun(maze, stack, rand, iterations) && iterations == 2 * |Cells(maze.width, maze.height)| - 1
  {
    hide OnRun, Run, WorkLeft, Cells;
    ghost var total := 2 * |Cells(maze.width, maze.height)| - 1;
    WorkAfter(maze.width, maze.height, rand, 0);
    iterations := 0;
    StackOnRun(maze, stack, rand, 0);
    while stack.size > 0
      invariant OnRun(maze, stack, rand, iterations)
      invariant stack.size == |Run(maze.width, maze.height, rand, iterations).stack|
      invariant WorkLeft(maze.width, maze.height, rand, iterations) == total - iterations
      decreases total - iterations
    {
      OneIteration(maze.width, maze.height, rand, iterations);
      IterateOnRun(maze, stack, rand, iterations);
      iterations := iterations + 1;
      StackOnRun(maze, stack, rand, iterations);
    }
    OneIteration(maze.width, maze.height, rand, iterations);
  }

  /** For a screen of the given size and any numbers drawn, the walls of the new maze are those of CarvedGrid. */
  method GenerateMaze(xResolution: nat, yResolution: nat, rand: nat -> nat) returns (maze: Maze, iterations: nat)
    requires xResolution >= CELL_SIZE && yResolution >= CELL_SIZE
    ensures maze.Valid() && fresh(maze.CellSet())
    ensures maze.width == xResolution / CELL_SIZE && maze.height == yResolution / CELL_SIZE
    ensures maze.Snapshot() == CarvedGrid(maze.width, maze.height, rand)
    ensures iterations == 2 * (maze.width * maze.height) - 1
  {
    maze := NewMaze(xResolution / CELL_SIZE, yResolution / CELL_SIZE);
    var stack := new Stack();
    Begin(maze, stack);
    iterations := CarveAll(maze, stack, rand);
    CellCount(maze.width, maze.height);
    maze.ShowsSnapshot(Grid(maze.width, maze.height, Run(maze.width, maze.height, rand, iterations).open));
    CarvedAfter(maze.width, maze.height, rand, iterations);
  }
}
