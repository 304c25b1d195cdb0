/** The maze on the heap: one object per cell, and the grid it depicts. */
module MazeCells {
  import opened Grids

  const CELL_SIZE := 100

  class Cell {
    const x: int
    const y: int
    var visited: bool
    var topWall: bool
    var bottomWall: bool
    var leftWall: bool
    var rightWall: bool
    var dist: int
    var prev: Cell?

    /** A new cell stands alone behind four walls. */
    constructor (x: int, y: int)
      ensures this.x == x && this.y == y && !visited && prev == null
      ensures forall d :: Wall(d)
    {
      this.x, this.y := x, y;
      visited := false;
      topWall, bottomWall, leftWall, rightWall := true, true, true, true;
      prev := null;
    }

    predicate Wall(d: Dir)
      reads this`topWall, this`bottomWall, this`leftWall, this`rightWall
    {
      match d
      case Left => leftWall
      case Right => rightWall
      case Top => topWall
      case Bottom => bottomWall
    }
  }

  ghost function RowOf(row: seq<Cell>): set<Cell> {
    if row == [] then {} else RowOf(row[..|row| - 1]) + {row[|row| - 1]}
  }

  /** (Recursive, so that the verifier does not take the set apart wherever it frames something.) */
  ghost function AllOf(rows: seq<seq<Cell>>): set<Cell> {
    if rows == [] then {} else AllOf(rows[..|rows| - 1]) + RowOf(rows[|rows| - 1])
  }

  lemma {:induction false} InRow(row: seq<Cell>, j: nat)
    requires j < |row|
    ensures row[j] in RowOf(row)
  {
    if j < |row| - 1 { InRow(row[..|row| - 1], j); }
  }

  lemma {:induction false} InAll(rows: seq<seq<Cell>>, i: nat, j: nat)
    requires i < |rows| && j < |rows[i]|
    ensures rows[i][j] in AllOf(rows)
  {
    if i < |rows| - 1 { InAll(rows[..|rows| - 1], i, j); } else { InRow(rows[i], j); }
  }

  lemma {:induction false} RowPlace(row: seq<Cell>, c: Cell) returns (j: nat)
    requires c in RowOf(row)
    ensures j < |row| && row[j] == c
  {
    if c == row[|row| - 1] { j := |row| - 1; } else { j := RowPlace(row[..|row| - 1], c); }
  }

  lemma {:induction false} Place(rows: seq<seq<Cell>>, c: Cell) returns (i: nat, j: nat)
    requires c in AllOf(rows)
    ensures i < |rows| && j < |rows[i]| && rows[i][j] == c
  {
    if c in RowOf(rows[|rows| - 1]) {
      i := |rows| - 1;
      j := RowPlace(rows[i], c);
    } else {
      i, j := Place(rows[..|rows| - 1], c);
    }
  }

  /** The struct is a value; the cells it refers to are not. */
  datatype Maze = Maze(width: nat, height: nat, cellSize: nat, cells: seq<seq<Cell>>) {

    ghost predicate Valid() {
      && width > 0 && height > 0 && cellSize == CELL_SIZE
      && |cells| == height
      && (forall i :: 0 <= i < height ==> |cells[i]| == width)
      && (forall i, j :: 0 <= i < height && 0 <= j < width ==> cells[i][j].x == j && cells[i][j].y == i)
    }

    predicate Has(p: Pos) {
      InGrid(width, height, p)
    }

    function At(p: Pos): (c: Cell)
      requires Valid() && Has(p)
      ensures Pos(c.x, c.y) == p
    {
      cells[p.y][p.x]
    }

    /** The cells at the positions ps. */
    ghost predicate CellsAt(cs: seq<Cell>, ps: seq<Pos>)
      requires Valid()
    {
      && |cs| == |ps|
      && forall i :: 0 <= i < |cs| ==> Has(ps[i]) && cs[i] == At(ps[i])
    }

    lemma {:induction false} CellsAtNext(cs: seq<Cell>, ps: seq<Pos>, i: nat)
      requires Valid() && i < |ps| && CellsAt(cs, ps[..i]) && Has(ps[i])
      ensures CellsAt(cs + [At(ps[i])], ps[..i + 1])
    {}

    lemma {:induction false} CellsAtMember(cs: seq<Cell>, ps: seq<Pos>, p: Pos)
      requires Valid() && CellsAt(cs, ps) && Has(p)
      ensures At(p) in cs <==> p in ps
    {
      if At(p) in cs {
        var i :| 0 <= i < |cs| && cs[i] == At(p);
        assert ps[i] == p;
      }
      if i :| 0 <= i < |ps| && ps[i] == p {
        assert cs[i] == At(p);
      }
    }

    /** The cells next to p on the sides ds. */
    ghost predicate Beside(p: Pos, cs: seq<Cell>, ds: seq<Dir>)
      requires Valid()
    {
      && |cs| == |ds|
      && forall k :: 0 <= k < |cs| ==> Has(Step(p, ds[k])) && cs[k] == At(Step(p, ds[k]))
    }

    lemma AllAreCells()
      requires Valid()
      ensures forall p :: Has(p) ==> At(p) in AllOf(cells)
      ensures forall c :: c in AllOf(cells) ==> Has(Pos(c.x, c.y)) && At(Pos(c.x, c.y)) == c
    {
      forall p | Has(p) ensures At(p) in AllOf(cells) { InAll(cells, p.y, p.x); }
      forall c | c in AllOf(cells) ensures Has(Pos(c.x, c.y)) && At(Pos(c.x, c.y)) == c {
        var i, j := Place(cells, c);
      }
    }

    ghost function CellSet(): (s: set<Cell>)
      requires Valid()
      ensures forall p :: Has(p) ==> At(p) in s
      ensures forall c :: c in s ==> Has(Pos(c.x, c.y)) && At(Pos(c.x, c.y)) == c
    {
      AllAreCells();
      AllOf(cells)
    }

    /** The grid that the cells' walls make. */
    ghost function Snapshot(): (g: Grid)
      requires Valid()
      reads CellSet()`topWall, CellSet()`bottomWall, CellSet()`leftWall, CellSet()`rightWall
      ensures g.width == width && g.height == height
      ensures forall p, d :: (p, d) in g.open <==> Has(p) && !At(p).Wall(d)
    {
      Grid(width, height, set p, d | p in Cells(width, height) && !At(p).Wall(d) :: (p, d))
    }

    /** The cells' walls are those of g. */
    ghost predicate Shows(g: Grid)
      requires Valid()
      reads CellSet()`topWall, CellSet()`bottomWall, CellSet()`leftWall, CellSet()`rightWall
    {
      && g.width == width && g.height == height
      && (forall p, d :: (p, d) in g.open ==> Has(p))
      && (forall p, d :: Has(p) ==> ((p, d) in g.open <==> !At(p).Wall(d)))
    }

    lemma ShowsSnapshot(g: Grid)
      requires Valid()
      ensures Shows(g) <==> g == Snapshot()
    {
      if Shows(g) {
        forall e ensures e in g.open <==> e in Snapshot().open { assert e == (e.0, e.1); }
      }
    }

    /** The cell around a point of the screen, if there is one (null otherwise). */
    function GetCell(px: int, py: int): (c: Cell?)
      requires Valid()
      ensures c == null <==> !(0 <= px < width * cellSize && 0 <= py < height * cellSize)
      ensures c != null ==> c.x * cellSize <= px < c.x * cellSize + cellSize
      ensures c != null ==> c.y * cellSize <= py < c.y * cellSize + cellSize
      ensures c != null ==> Has(Pos(c.x, c.y)) && c == At(Pos(c.x, c.y))
    {
      if px < 0 || px >= width * cellSize || py < 0 || py >= height * cellSize then null
      else cells[py / cellSize][px / cellSize]
    }
  }
}
