/** Drawing the maze and its solution. */
module Rendering {
  import opened Grids
  import opened MazeCells
  import opened CellList
  import opened Solver
  import opened Canvases

  const WHITE: Color := [0xff, 0xff, 0xff, 0x00]
  const BLUE: Color := [0xff, 0x00, 0x00, 0x00]
  const GREEN: Color := [0x00, 0xff, 0x00, 0x00]
  const RED: Color := [0x00, 0x00, 0xff, 0x00]

  /** The points of the line that stands for the wall of cell p on side d. */
  ghost function Line(p: Pos, d: Dir): iset<Pos> {
    match d
    case Top => Rectangle(p.x * CELL_SIZE, p.y * CELL_SIZE, CELL_SIZE, 1)
    case Bottom => Rectangle(p.x * CELL_SIZE, p.y * CELL_SIZE + CELL_SIZE, CELL_SIZE, 1)
    case Left => Rectangle(p.x * CELL_SIZE, p.y * CELL_SIZE, 1, CELL_SIZE)
    case Right => Rectangle(p.x * CELL_SIZE + CELL_SIZE, p.y * CELL_SIZE, 1, CELL_SIZE)
  }

  /** The point q lies on the line of the standing wall of cell p on side d. */
  ghost predicate Lined(g: Grid, p: Pos, d: Dir, q: Pos) {
    g.Has(p) && (p, d) !in g.open && q in Line(p, d)
  }

  ghost predicate OnWall(g: Grid, q: Pos) {
    exists p, d :: Lined(g, p, d, q)
  }

  ghost function WallPoints(g: Grid): iset<Pos> {
    iset q: Pos | OnWall(g, q)
  }

  /** The square inside cell p. */
  ghost function Square(p: Pos): iset<Pos> {
    Rectangle(p.x * CELL_SIZE + 7, p.y * CELL_SIZE + 7, CELL_SIZE - 14, CELL_SIZE - 14)
  }

  /** What there is to see of the maze g on a screen that showed m, with n bytes to a pixel. */
  ghost function Drawn(g: Grid, m: Picture, n: nat): Picture
    requires n <= 4
  {
    var walls := Paint(m, WallPoints(g), WHITE[..n]);
    Paint(Paint(walls, Square(ORIGIN), BLUE[..n]), Square(g.Goal()), GREEN[..n])
  }

  // ----- walls, in the order in which they are drawn

  ghost function WallLine(g: Grid, p: Pos, d: Dir): iset<Pos> {
    if (p, d) in g.open then iset{} else Line(p, d)
  }

  ghost function CellLines(g: Grid, p: Pos): iset<Pos> {
    WallLine(g, p, Top) + WallLine(g, p, Bottom) + WallLine(g, p, Left) + WallLine(g, p, Right)
  }

  ghost function RowLines(g: Grid, i: int, j: nat): iset<Pos> {
    if j == 0 then iset{} else RowLines(g, i, j - 1) + CellLines(g, Pos(j - 1, i))
  }

  ghost function AllLines(g: Grid, i: nat): iset<Pos> {
    if i == 0 then iset{} else AllLines(g, i - 1) + RowLines(g, i - 1, g.width)
  }

  lemma {:induction false} InRowLines(g: Grid, i: int, j: nat, x: int, q: Pos)
    requires 0 <= x < j && q in CellLines(g, Pos(x, i))
    ensures q in RowLines(g, i, j)
  {
    hide CellLines;
    if x < j - 1 { InRowLines(g, i, j - 1, x, q); }
  }

  lemma {:induction false} FromRowLines(g: Grid, i: int, j: nat, q: Pos) returns (x: int)
    requires q in RowLines(g, i, j)
    ensures 0 <= x < j && q in CellLines(g, Pos(x, i))
  {
    hide CellLines;
    if q in CellLines(g, Pos(j - 1, i)) { x := j - 1; } else { x := FromRowLines(g, i, j - 1, q); }
  }

  lemma {:induction false} InAllLines(g: Grid, i: nat, y: int, q: Pos)
    requires 0 <= y < i && q in RowLines(g, y, g.width)
    ensures q in AllLines(g, i)
  {
    hide RowLines;
    if y < i - 1 { InAllLines(g, i - 1, y, q); }
  }

  lemma {:induction false} FromAllLines(g: Grid, i: nat, q: Pos) returns (y: int)
    requires q in AllLines(g, i)
    ensures 0 <= y < i && q in RowLines(g, y, g.width)
  {
    hide RowLines;
    if q in RowLines(g, i - 1, g.width) { y := i - 1; } else { y := FromAllLines(g, i - 1, q); }
  }

  lemma InCellLines(g: Grid, p: Pos, q: Pos)
    requires g.Has(p)
    ensures q in CellLines(g, p) <==> exists d :: Lined(g, p, d, q)
  {
    assert forall d :: Lined(g, p, d, q) <==> q in WallLine(g, p, d);
  }

  lemma {:induction false} AllLinesAreWalls(g: Grid)
    ensures AllLines(g, g.height) == WallPoints(g)
  {
    hide AllLines, RowLines, CellLines, Lined;
    forall q: Pos ensures q in AllLines(g, g.height) <==> OnWall(g, q) {
      if q in AllLines(g, g.height) {
        var y := FromAllLines(g, g.height, q);
        var x := FromRowLines(g, y, g.width, q);
        InCellLines(g, Pos(x, y), q);
      }
      if OnWall(g, q) {
        var p, d :| Lined(g, p, d, q);
        LinedIn(g, p, d, q);
        InRowLines(g, p.y, g.width, p.x, q);
        InAllLines(g, g.height, p.y, q);
      }
    }
  }

  lemma LinedIn(g: Grid, p: Pos, d: Dir, q: Pos)
    requires Lined(g, p, d, q)
    ensures g.Has(p) && q in CellLines(g, Pos(p.x, p.y))
  {
    InCellLines(g, p, q);
  }

  // ----- drawing

  /** A line or square of the maze fits the screen, or lies wholly beyond its edge. */
  lemma {:induction false} FitsOrMisses(canvas: Canvas, m: Picture, x: nat, y: nat, w: nat, h: nat, color: Bytes)
    requires m.Keys == Cells(canvas.width, canvas.height)
    requires y + h <= canvas.height || y >= canvas.height
    ensures Paint(m, canvas.Reached(x, y, w, h), color) == Paint(m, Rectangle(x, y, w, h), color)
  {
    PaintSame(m, canvas.Reached(x, y, w, h), Rectangle(x, y, w, h), color);
  }

  method DrawLine(canvas: Canvas, x: nat, y: nat, w: nat, h: nat, color: Color)
    requires canvas.Valid() && x <= canvas.width && y <= canvas.height && w <= CELL_SIZE && 0 < h <= CELL_SIZE
    requires y + h <= canvas.height || y == canvas.height
    modifies canvas.buffer
    ensures canvas.Shown() == Paint(old(canvas.Shown()), Rectangle(x, y, w, h), canvas.Stored(color))
  {
    FitsOrMisses(canvas, canvas.Shown(), x, y, w, h, canvas.Stored(color));
    var _ := canvas.DrawRectangle(x, y, w, h, color);
  }

  /** The walls of one cell. */
  method DrawCell(canvas: Canvas, maze: Maze, i: nat, j: nat, ghost g: Grid)
    requires canvas.Valid() && maze.Valid() && maze.Shows(g) && i < maze.height && j < maze.width
    requires maze.width * CELL_SIZE <= canvas.width && maze.height * CELL_SIZE <= canvas.height
    modifies canvas.buffer
    ensures canvas.Shown() == Paint(old(canvas.Shown()), CellLines(g, Pos(j, i)), canvas.Stored(WHITE))
  {
    hide Canvas.Shown, Canvas.HasRoom, Canvas.Stored, Paint, Rectangle, CellLines;
    ghost var before, p := canvas.Shown(), Pos(j, i);
    var size := maze.cellSize;
    DrawIf(canvas, maze.cells[i][j].topWall, j * size, i * size, size, 1, WallLine(g, p, Top));
    DrawIf(canvas, maze.cells[i][j].bottomWall, j * size, i * size + size, size, 1, WallLine(g, p, Bottom));
    DrawIf(canvas, maze.cells[i][j].leftWall, j * size, i * size, 1, size, WallLine(g, p, Left));
    DrawIf(canvas, maze.cells[i][j].rightWall, j * size + size, i * size, 1, size, WallLine(g, p, Right));
    PaintFour(before, g, p, canvas.Stored(WHITE));
  }

  lemma {:induction false} PaintFour(m: Picture, g: Grid, p: Pos, color: Bytes)
    ensures Paint(Paint(Paint(Paint(m, WallLine(g, p, Top), color), WallLine(g, p, Bottom), color),
                        WallLine(g, p, Left), color), WallLine(g, p, Right), color) ==
            Paint(m, CellLines(g, p), color)
  {
    hide Paint, WallLine;
    PaintTwice(m, WallLine(g, p, Top), WallLine(g, p, Bottom), color);
    PaintTwice(m, WallLine(g, p, Top) + WallLine(g, p, Bottom), WallLine(g, p, Left), color);
    PaintTwice(m, WallLine(g, p, Top) + WallLine(g, p, Bottom) + WallLine(g, p, Left), WallLine(g, p, Right), color);
  }

  /** Draws a wall if it stands. */
  method DrawIf(canvas: Canvas, stands: bool, x: nat, y: nat, w: nat, h: nat, ghost line: iset<Pos>)
    requires canvas.Valid() && x <= canvas.width && y <= canvas.height && w <= CELL_SIZE && 0 < h <= CELL_SIZE
    requires y + h <= canvas.height || y == canvas.height
    requires line == if stands then Rectangle(x, y, w, h) else iset{}
    modifies canvas.buffer
    ensures canvas.Shown() == Paint(old(canvas.Shown()), line, canvas.Stored(WHITE))
  {
    PaintNothing(canvas.Shown(), canvas.Stored(WHITE));
    if stands {
      DrawLine(canvas, x, y, w, h, WHITE);
    }
  }

  lemma NoLines(g: Grid)
    ensures AllLines(g, 0) == iset{}
  {}

  lemma {:induction false} NextRow(g: Grid, m: Picture, i: nat, color: Bytes)
    ensures Paint(Paint(m, AllLines(g, i), color), RowLines(g, i, g.width), color) ==
            Paint(m, AllLines(g, i + 1), color)
  {
    PaintTwice(m, AllLines(g, i), RowLines(g, i, g.width), color);
  }

  method DrawRow(canvas: Canvas, maze: Maze, i: nat, ghost g: Grid)
    requires canvas.Valid() && maze.Valid() && maze.Shows(g) && i < maze.height
    requires maze.width * CELL_SIZE <= canvas.width && maze.height * CELL_SIZE <= canvas.height
    modifies canvas.buffer
    ensures maze.Shows(g)
    ensures canvas.Shown() == Paint(old(canvas.Shown()), RowLines(g, i, g.width), canvas.Stored(WHITE))
  {
    hide Canvas.Shown, Canvas.HasRoom, Canvas.Stored, Paint, CellLines;
    ghost var before := canvas.Shown();
    PaintNothing(before, canvas.Stored(WHITE));
    for j := 0 to maze.width
      invariant canvas.Shown() == Paint(before, RowLines(g, i, j), canvas.Stored(WHITE))
    {
      DrawCell(canvas, maze, i, j, g);
      PaintTwice(before, RowLines(g, i, j), CellLines(g, Pos(j, i)), canvas.Stored(WHITE));
    }
  }

  /** The walls, row by row. */
  method DrawWalls(canvas: Canvas, maze: Maze, ghost g: Grid)
    requires canvas.Valid() && maze.Valid() && maze.Shows(g)
    requires maze.width * CELL_SIZE <= canvas.width && maze.height * CELL_SIZE <= canvas.height
    modifies canvas.buffer
    ensures canvas.Shown() == Paint(old(canvas.Shown()), WallPoints(g), canvas.Stored(WHITE))
  {
    hide Canvas.Shown, Canvas.HasRoom, Canvas.Stored, Paint, AllLines, WallPoints;
    ghost var before := canvas.Shown();
    PaintNothing(before, canvas.Stored(WHITE));
    NoLines(g);
    for i := 0 to maze.height
      invariant maze.Shows(g)
      invariant canvas.Shown() == Paint(before, AllLines(g, i), canvas.Stored(WHITE))
    {
      DrawRow(canvas, maze, i, g);
      NextRow(g, before, i, canvas.Stored(WHITE));
    }
    AllLinesAreWalls(g);
  }

  /** On a maze with the walls of g: the screen then shows it, as Drawn says. */
  method DrawMaze(canvas: Canvas, maze: Maze, ghost g: Grid)
    requires canvas.Valid() && maze.Valid() && maze.Shows(g)
    requires maze.width * CELL_SIZE <= canvas.width && maze.height * CELL_SIZE <= canvas.height
    modifies canvas.buffer
    ensures canvas.Shown() == Drawn(g, old(canvas.Shown()), canvas.bytesPerPixel)
  {
    hide Canvas.Shown, Canvas.HasRoom, Paint, Square, WallPoints;
    DrawWalls(canvas, maze, g);
    DrawSquare(canvas, maze, ORIGIN, BLUE);
    DrawSquare(canvas, maze, Pos(maze.width - 1, maze.height - 1), GREEN);
  }

  method DrawSquare(canvas: Canvas, maze: Maze, p: Pos, color: Color)
    requires canvas.Valid() && maze.Valid() && maze.Has(p)
    requires maze.width * CELL_SIZE <= canvas.width && maze.height * CELL_SIZE <= canvas.height
    modifies canvas.buffer
    ensures canvas.Shown() == Paint(old(canvas.Shown()), Square(p), canvas.Stored(color))
  {
    var size := maze.cellSize;
    DrawLine(canvas, p.x * size + 7, p.y * size + 7, size - 14, size - 14, color);
  }

  // ----- the solution

  /** The squares of the first n cells of c. */
  ghost function Squares(c: seq<Pos>, n: nat): iset<Pos>
    requires n <= |c|
  {
    if n == 0 then iset{} else Squares(c, n - 1) + Square(c[n - 1])
  }

  /** What is marked after n cells of c have been visited: all of them but the last of c. */
  ghost function Marked(c: seq<Pos>, n: nat): iset<Pos>
    requires n <= |c|
  {
    Squares(c, if n < |c| || n == 0 then n else n - 1)
  }

  lemma {:induction false} NothingMarked(c: seq<Pos>, m: Picture, color: Bytes)
    ensures Paint(m, Marked(c, 0), color) == m
  {
    PaintNothing(m, color);
  }

  lemma {:induction false} LinkedNext(maze: Maze, c: seq<Pos>, n: nat)
    requires maze.Valid() && Linked(maze, c) && n < |c|
    ensures maze.Has(c[n]) && maze.At(c[n]).prev == (if n + 1 < |c| then maze.At(c[n + 1]) else null)
    ensures n + 1 < |c| ==> maze.Has(c[n + 1])
  {
    assert PointsOn(maze, c, n);
  }

  /** One turn of the loop: the cell's square, unless prev ends there. */
  method MarkCell(canvas: Canvas, maze: Maze, current: Cell, ghost c: seq<Pos>, ghost n: nat, ghost before: Picture)
    requires canvas.Valid() && maze.Valid() && Linked(maze, c) && n < |c| && maze.Has(c[n]) && current == maze.At(c[n])
    requires maze.width * CELL_SIZE <= canvas.width && maze.height * CELL_SIZE <= canvas.height
    requires canvas.Shown() == Paint(before, Marked(c, n), canvas.Stored(RED))
    modifies canvas.buffer
    ensures Linked(maze, c) && current.prev == old(current.prev)
    ensures canvas.Shown() == Paint(before, Marked(c, n + 1), canvas.Stored(RED))
  {
    hide Canvas.Shown, Canvas.HasRoom, Canvas.Stored, Paint, Square;
    LinkedNext(maze, c, n);
    if current.prev != null {
      DrawSquare(canvas, maze, Pos(current.x, current.y), RED);
      PaintTwice(before, Squares(c, n), Square(c[n]), canvas.Stored(RED));
    }
  }

  /** Marks the cells on the way along prev, except where prev ends. */
  method MarkFrom(canvas: Canvas, maze: Maze, first: Cell?, ghost c: seq<Pos>)
    requires canvas.Valid() && maze.Valid() && (c == [] || Linked(maze, c))
    requires (c == [] <==> first == null) && (c != [] ==> maze.Has(c[0]) && first == maze.At(c[0]))
    requires maze.width * CELL_SIZE <= canvas.width && maze.height * CELL_SIZE <= canvas.height
    modifies canvas.buffer
    ensures canvas.Shown() == Paint(old(canvas.Shown()), Marked(c, |c|), canvas.Stored(RED))
  {
    hide Canvas.Shown, Canvas.HasRoom, Canvas.Stored, Paint, Marked, Linked;
    ghost var before := canvas.Shown();
    NothingMarked(c, before, canvas.Stored(RED));
    var current := first;
    ghost var n := 0;
    while current != null
      invariant n <= |c| && (n < |c| ==> maze.Has(c[n]))
      invariant current == if n < |c| then maze.At(c[n]) else null
      invariant c == [] || Linked(maze, c)
      invariant canvas.Shown() == Paint(before, Marked(c, n), canvas.Stored(RED))
      decreases |c| - n
    {
      LinkedNext(maze, c, n);
      MarkCell(canvas, maze, current, c, n, before);
      current := current.prev;
      n := n + 1;
    }
  }

  /** Marks the way from the first cell of the list. The list itself is not looked at again. */
  method DrawSolution(canvas: Canvas, maze: Maze, solution: LinkedList, ghost c: seq<Pos>)
    requires canvas.Valid() && maze.Valid() && solution.Valid() && maze.CellsAt(solution.Contents, c)
    requires c == [] || Linked(maze, c)
    requires maze.width * CELL_SIZE <= canvas.width && maze.height * CELL_SIZE <= canvas.height
    modifies canvas.buffer
    ensures canvas.Shown() == Paint(old(canvas.Shown()), Squares(c, if c == [] then 0 else |c| - 1), canvas.Stored(RED))
  {
    hide Canvas.Shown, Canvas.HasRoom, Canvas.Stored, Paint, LinkedList.Valid;
    var first := solution.First();
    MarkFrom(canvas, maze, first, c);
  }

  /** The marks are on the cells of the solution but the start, so the walls can still be read from the picture. */
  lemma {:induction false} MarksMissWalls(g: Grid, c: seq<Pos>, n: nat, q: Pos)
    requires n <= |c|
    ensures q in Squares(c, n) <==> exists i :: 0 <= i < n && q in Square(c[i])
    ensures q in Squares(c, n) ==> !OnWall(g, q)
  {
    hide Square;
    if n > 0 {
      MarksMissWalls(g, c, n - 1, q);
      if q in Square(c[n - 1]) { SquareIsInside(g, c[n - 1], q); }
    }
  }

  // ----- the picture and the walls

  lemma SquareMissesLine(p: Pos, c: Pos, d: Dir, q: Pos)
    requires q in Square(p)
    ensures q !in Line(c, d)
  {}

  /** No square touches a wall line. */
  lemma SquareIsInside(g: Grid, p: Pos, q: Pos)
    requires q in Square(p)
    ensures !OnWall(g, q)
  {
    forall c, d ensures !Lined(g, c, d, q) {
      SquareMissesLine(p, c, d, q);
    }
  }

  /** The colours of the squares are not white, given two bytes or more. */
  lemma ColorsDiffer(n: nat)
    requires 2 <= n <= 4
    ensures BLUE[..n] != WHITE[..n] && GREEN[..n] != WHITE[..n] && RED[..n] != WHITE[..n]
  {
    assert BLUE[..n][1] != WHITE[..n][1] && GREEN[..n][0] != WHITE[..n][0] && RED[..n][0] != WHITE[..n][0];
  }

  /** On a screen that had no white on it, white is exactly what lies on a standing wall. */
  lemma {:induction false} WhiteIsWall(g: Grid, m: Picture, n: nat, q: Pos)
    requires 2 <= n <= 4 && q in m && m[q] != WHITE[..n]
    ensures Drawn(g, m, n)[q] == WHITE[..n] <==> OnWall(g, q)
  {
    ColorsDiffer(n);
    if q in Square(ORIGIN) { SquareIsInside(g, ORIGIN, q); }
    if q in Square(g.Goal()) { SquareIsInside(g, g.Goal(), q); }
  }

  /** With one byte to a pixel blue is stored as white is: then the start square is as white as the walls, except where
      it is the goal square. */
  lemma {:induction false} OneByteIsWhite(g: Grid, m: Picture, q: Pos)
    requires q in m && m[q] != WHITE[..1]
    ensures Drawn(g, m, 1)[q] == WHITE[..1] <==> OnWall(g, q) || (q in Square(ORIGIN) && q !in Square(g.Goal()))
  {
    assert BLUE[..1] == WHITE[..1] && GREEN[..1][0] != WHITE[..1][0];
    if q in Square(g.Goal()) { SquareIsInside(g, g.Goal(), q); }
  }

  /** The point (x, y) is on a standing wall: in the first row of pixels of a cell whose top wall stands, or in the row
      of pixels below a cell whose bottom wall stands; likewise in columns. */
  ghost predicate WallAt(g: Grid, x: int, y: int) {
    exists i, j :: 0 <= i < g.width && 0 <= j < g.height && WallOfCellAt(g, i, j, x, y)
  }

  predicate WallOfCellAt(g: Grid, i: int, j: int, x: int, y: int) {
    || ((Pos(i, j), Top) !in g.open && y == 100 * j && 100 * i <= x <= 100 * i + 99)
    || ((Pos(i, j), Bottom) !in g.open && y == 100 * j + 100 && 100 * i <= x <= 100 * i + 99)
    || ((Pos(i, j), Left) !in g.open && x == 100 * i && 100 * j <= y <= 100 * j + 99)
    || ((Pos(i, j), Right) !in g.open && x == 100 * i + 100 && 100 * j <= y <= 100 * j + 99)
  }

  lemma OnWallAt(g: Grid, x: int, y: int)
    ensures OnWall(g, Pos(x, y)) <==> WallAt(g, x, y)
  {
    if OnWall(g, Pos(x, y)) {
      var p, d :| Lined(g, p, d, Pos(x, y));
      assert WallOfCellAt(g, p.x, p.y, x, y);
    }
    if WallAt(g, x, y) {
      var i, j :| 0 <= i < g.width && 0 <= j < g.height && WallOfCellAt(g, i, j, x, y);
      assert exists d :: Lined(g, Pos(i, j), d, Pos(x, y)) by {
        assert Lined(g, Pos(i, j), Top, Pos(x, y)) || Lined(g, Pos(i, j), Bottom, Pos(x, y)) ||
               Lined(g, Pos(i, j), Left, Pos(x, y)) || Lined(g, Pos(i, j), Right, Pos(x, y));
      }
    }
  }

  /** The picture pixel by pixel: the goal's inner 86 by 86 pixels green, else the start's blue, else standing walls
      white, and everything else as before. Of a colour's four bytes, the lowest first, as many are stored as fit. */
  lemma {:induction false} DrawnPixels(g: Grid, m: Picture, n: nat, x: int, y: int)
    requires n <= 4 && Pos(x, y) in m && g.width > 0 && g.height > 0
    ensures Drawn(g, m, n)[Pos(x, y)] ==
      if 100 * (g.width - 1) + 7 <= x <= 100 * (g.width - 1) + 92 &&
         100 * (g.height - 1) + 7 <= y <= 100 * (g.height - 1) + 92
      then [0x00, 0xff, 0x00, 0x00][..n]
      else if 7 <= x <= 92 && 7 <= y <= 92 then [0xff, 0x00, 0x00, 0x00][..n]
      else if WallAt(g, x, y) then [0xff, 0xff, 0xff, 0x00][..n]
      else m[Pos(x, y)]
  {
    OnWallAt(g, x, y);
    hide WallAt, OnWall;
  }

  /** The marks of a solution, pixel by pixel: the inner 86 by 86 pixels of the first k cells of c are red. */
  lemma {:induction false} MarkedPixels(c: seq<Pos>, k: nat, m: Picture, n: nat, x: int, y: int)
    requires k <= |c| && n <= 4 && Pos(x, y) in m
    ensures Paint(m, Squares(c, k), RED[..n])[Pos(x, y)] ==
      if exists i :: 0 <= i < k && InnerPixel(c[i], x, y) then [0x00, 0x00, 0xff, 0x00][..n] else m[Pos(x, y)]
  {
    InSquares(c, k, x, y);
  }

  predicate InnerPixel(p: Pos, x: int, y: int) {
    100 * p.x + 7 <= x <= 100 * p.x + 92 && 100 * p.y + 7 <= y <= 100 * p.y + 92
  }

  lemma {:induction false} InSquares(c: seq<Pos>, k: nat, x: int, y: int)
    requires k <= |c|
    ensures Pos(x, y) in Squares(c, k) <==> exists i :: 0 <= i < k && InnerPixel(c[i], x, y)
  {
    if k > 0 { InSquares(c, k - 1, x, y); }
  }

  /** The middle of a wall line. */
  function Middle(p: Pos, d: Dir): Pos {
    match d
    case Top => Pos(p.x * CELL_SIZE + 50, p.y * CELL_SIZE)
    case Bottom => Pos(p.x * CELL_SIZE + 50, p.y * CELL_SIZE + CELL_SIZE)
    case Left => Pos(p.x * CELL_SIZE, p.y * CELL_SIZE + 50)
    case Right => Pos(p.x * CELL_SIZE + CELL_SIZE, p.y * CELL_SIZE + 50)
  }

  /** Only the wall itself, or its other side, goes through the middle of its line. */
  lemma ThroughMiddle(p: Pos, d: Dir, p': Pos, d': Dir)
    requires Middle(p, d) in Line(p', d')
    ensures (p' == p && d' == d) || (p' == Step(p, d) && d' == Opposite(d))
  {}

  /** The walls can be read back from the picture: all of them where the screen has a row and a column to spare beyond
      the maze. */
  lemma {:induction false} WallsReadBack(g: Grid, m: Picture, n: nat, p: Pos, d: Dir)
    requires g.Agrees() && g.Has(p) && 2 <= n <= 4
    requires Middle(p, d) in m && m[Middle(p, d)] != WHITE[..n]
    ensures Drawn(g, m, n)[Middle(p, d)] == WHITE[..n] <==> (p, d) !in g.open
  {
    WhiteIsWall(g, m, n, Middle(p, d));
    if (p, d) !in g.open {
      assert Lined(g, p, d, Middle(p, d));
    } else if OnWall(g, Middle(p, d)) {
      var p', d' :| Lined(g, p', d', Middle(p, d));
      ThroughMiddle(p, d, p', d');
      assert false;
    }
  }
}
