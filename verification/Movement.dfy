/** Where the player can go: collision, single moves, and whole runs of key presses. */
module Movement {
  import opened Grids
  import opened Trees
  import opened Carving
  import opened ShortestPaths
  import opened Mazes

  const SIZE := 100       // pixels per cell
  const CLEARANCE := 25   // pixels between the player's centre and a wall

  /** C's conversion from double to int. */
  function Trunc(r: real): int {
    if r >= 0.0 then r.Floor else -(-r).Floor
  }

  /** The cell around a pixel, if it is inside the maze. */
  function CellAround(g: Grid, x: int, y: int): Option<Pos> {
    if x < 0 || x >= g.width * SIZE || y < 0 || y >= g.height * SIZE then None
    else Some(Pos(x / SIZE, y / SIZE))
  }

  /** Both sides of the wall between c and the cell n on its side d stand. */
  predicate Walled(g: Grid, c: Pos, n: Pos, d: Dir) {
    n != c && (n, Opposite(d)) !in g.open && (c, d) !in g.open
  }

  /** Something with the given extent in each direction, centred on (x, y), leaves the maze or reaches over a wall. */
  predicate Collides(g: Grid, x: int, y: int, size: nat) {
    var left, right := CellAround(g, x - size, y), CellAround(g, x + size, y);
    var top, bottom := CellAround(g, x, y - size), CellAround(g, x, y + size);
    var centre := CellAround(g, x, y);
    if left.None? || right.None? || top.None? || bottom.None? then true
    else
      || Walled(g, centre.value, left.value, Left)
      || Walled(g, centre.value, right.value, Right)
      || Walled(g, centre.value, top.value, Top)
      || Walled(g, centre.value, bottom.value, Bottom)
  }

  // ----- moves

  datatype Body = Body(x: real, y: real)

  /** A key press, with the cosine and sine of the direction the player faces. */
  datatype Press = Press(key: int, cos: real, sin: real)

  const W_KEY := 0x11
  const S_KEY := 0x1f
  const A_KEY := 0x1e
  const D_KEY := 0x20

  function Changer(e: Press): (real, real) {
    if e.key == W_KEY then (e.cos, e.sin)
    else if e.key == S_KEY then (-e.cos, -e.sin)
    else if e.key == A_KEY then (-e.sin, e.cos)
    else if e.key == D_KEY then (e.sin, -e.cos)
    else (0.0, 0.0)
  }

  predicate Real(e: Press) {
    -1.0 <= e.cos <= 1.0 && -1.0 <= e.sin <= 1.0
  }

  function Target(b: Body, e: Press): Body {
    Body(b.x + Changer(e).0 * 10.0, b.y - Changer(e).1 * 10.0)
  }

  function Moved(g: Grid, b: Body, e: Press): Body {
    var to := Target(b, e);
    if Collides(g, Trunc(to.x), Trunc(to.y), CLEARANCE) then b else to
  }

  const START := Body(50.0, 50.0)

  /** Where the player is after the presses es. */
  function After(g: Grid, es: seq<Press>): Body {
    if es == [] then START else Moved(g, After(g, es[..|es| - 1]), es[|es| - 1])
  }

  predicate Ended(g: Grid, b: Body) {
    b.x >= ((g.width - 1) * SIZE - CLEARANCE) as real && b.y >= ((g.height - 1) * SIZE - CLEARANCE) as real
  }

  predicate Clear(g: Grid, b: Body) {
    !Collides(g, Trunc(b.x), Trunc(b.y), CLEARANCE)
  }

  function Centre(b: Body): Pos {
    Pos(Trunc(b.x) / SIZE, Trunc(b.y) / SIZE)
  }

  /** The cells in which the player's centre has been, from the start to the position after es. */
  function Trail(g: Grid, es: seq<Press>): (s: seq<Pos>)
    ensures |s| == |es| + 1
  {
    if es == [] then [Centre(START)] else Trail(g, es[..|es| - 1]) + [Centre(After(g, es))]
  }

  /** How many presses changed the player's position. */
  function Displacements(g: Grid, es: seq<Press>): nat {
    if es == [] then 0
    else
      var before := es[..|es| - 1];
      Displacements(g, before) + if After(g, es) != After(g, before) then 1 else 0
  }

  lemma {:induction false} StaysClear(g: Grid, es: seq<Press>)
    requires g.width > 0 && g.height > 0
    ensures Clear(g, After(g, es))
  {
    if es != [] { StaysClear(g, es[..|es| - 1]); }
  }

  // ----- moves and collisions in pixels

  /** The conversion drops the fraction. */
  lemma TruncLaw(r: real)
    ensures r >= 0.0 ==> Trunc(r) as real <= r < (Trunc(r) + 1) as real
    ensures r <= 0.0 ==> (Trunc(r) - 1) as real < r <= Trunc(r) as real
  {}

  /** W moves by ten along the direction - on the screen y grows downwards - and S against it; A and D move as W would,
      facing a quarter turn to the left and to the right. A move that collides is not made; no other key moves. */
  lemma KeyLaws(g: Grid, b: Body, cos: real, sin: real)
    ensures Moved(g, b, Press(0x11, cos, sin)) ==
      var to := Body(b.x + 10.0 * cos, b.y - 10.0 * sin);
      if Collides(g, Trunc(to.x), Trunc(to.y), 25) then b else to
    ensures Moved(g, b, Press(0x1f, cos, sin)) ==
      var to := Body(b.x - 10.0 * cos, b.y + 10.0 * sin);
      if Collides(g, Trunc(to.x), Trunc(to.y), 25) then b else to
    ensures Moved(g, b, Press(0x1e, cos, sin)) == Moved(g, b, Press(0x11, -sin, cos))
    ensures Moved(g, b, Press(0x20, cos, sin)) == Moved(g, b, Press(0x11, sin, -cos))
    ensures forall key :: key !in {0x11, 0x1f, 0x1e, 0x20} ==> Moved(g, b, Press(key, cos, sin)) == b
  {
    hide Collides;
  }

  /** Neither side of the wall of the cell with column i and row j on side d has been removed. */
  predicate Stands(g: Grid, i: int, j: int, d: Dir) {
    match d
    case Left => (Pos(i, j), Left) !in g.open && (Pos(i - 1, j), Right) !in g.open
    case Right => (Pos(i, j), Right) !in g.open && (Pos(i + 1, j), Left) !in g.open
    case Top => (Pos(i, j), Top) !in g.open && (Pos(i, j - 1), Bottom) !in g.open
    case Bottom => (Pos(i, j), Bottom) !in g.open && (Pos(i, j + 1), Top) !in g.open
  }

  /** Where a player collides: within 25 pixels of the maze's edge, or of a standing wall of the cell it is in. */
  lemma CollisionLaw(g: Grid, x: int, y: int)
    ensures Collides(g, x, y, 25) <==>
      || x < 25 || x >= 100 * g.width - 25 || y < 25 || y >= 100 * g.height - 25
      || (x % 100 < 25 && Stands(g, x / 100, y / 100, Left))
      || (x % 100 >= 75 && Stands(g, x / 100, y / 100, Right))
      || (y % 100 < 25 && Stands(g, x / 100, y / 100, Top))
      || (y % 100 >= 75 && Stands(g, x / 100, y / 100, Bottom))
  {
    if 25 <= x < 100 * g.width - 25 && 25 <= y < 100 * g.height - 25 {
      SideLaw(g, x, y, Left);
      SideLaw(g, x, y, Right);
      SideLaw(g, x, y, Top);
      SideLaw(g, x, y, Bottom);
      hide Stands, Walled, CellAround;
    }
  }

  /** The point 25 pixels to the side d of (x, y). */
  function Reach(x: int, y: int, d: Dir): Pos {
    match d
    case Left => Pos(x - 25, y)
    case Right => Pos(x + 25, y)
    case Top => Pos(x, y - 25)
    case Bottom => Pos(x, y + 25)
  }

  lemma SideLaw(g: Grid, x: int, y: int, d: Dir)
    requires 25 <= x < 100 * g.width - 25 && 25 <= y < 100 * g.height - 25
    ensures var q := Reach(x, y, d);
      && CellAround(g, x, y).Some? && CellAround(g, q.x, q.y).Some?
      && (Walled(g, CellAround(g, x, y).value, CellAround(g, q.x, q.y).value, d) <==>
          && match d {
               case Left => x % 100 < 25
               case Right => x % 100 >= 75
               case Top => y % 100 < 25
               case Bottom => y % 100 >= 75
             }
          && Stands(g, x / 100, y / 100, d))
  {}

  // ----- one move

  lemma TruncClose(a: real, b: real)
    requires Trunc(a) >= CLEARANCE && Trunc(b) >= CLEARANCE && -10.0 <= a - b <= 10.0
    ensures -10 <= Trunc(a) - Trunc(b) <= 10
  {
    assert a.Floor <= (b + 10.0).Floor == b.Floor + 10;
    assert b.Floor <= (a + 10.0).Floor == a.Floor + 10;
  }

  /** In a tree a wall with one side down is no wall. */
  lemma NoWallIsPassage(g: Grid, t: Tree, c: Pos, d: Dir)
    requires Spans(t, g) && g.Has(c) && g.Has(Step(c, d)) && !Walled(g, c, Step(c, d), d)
    ensures g.Passage(c, Step(c, d)) && g.Passage(Step(c, d), c)
  {
    var n := Step(c, d);
    assert DirTo(c, n) == d && DirTo(n, c) == Opposite(d);
    assert g.Passage(c, n) || g.Passage(n, c);
    assert t.Linked(c, n) && t.Linked(n, c);
  }

  /** A clear position keeps its distance from the maze's edge, and reaches into a neighbouring cell only through a
      passage. */
  lemma ClearReach(g: Grid, t: Tree, x: int, y: int)
    requires Spans(t, g) && !Collides(g, x, y, CLEARANCE)
    ensures CLEARANCE <= x < g.width * SIZE - CLEARANCE && CLEARANCE <= y < g.height * SIZE - CLEARANCE
    ensures var c := Pos(x / SIZE, y / SIZE);
      && g.Has(c)
      && (x % SIZE < CLEARANCE ==> g.Passage(c, Step(c, Left)))
      && (x % SIZE >= SIZE - CLEARANCE ==> g.Passage(c, Step(c, Right)))
      && (y % SIZE < CLEARANCE ==> g.Passage(c, Step(c, Top)))
      && (y % SIZE >= SIZE - CLEARANCE ==> g.Passage(c, Step(c, Bottom)))
  {
    var c := Pos(x / SIZE, y / SIZE);
    if x % SIZE < CLEARANCE {
      assert CellAround(g, x - CLEARANCE, y) == Some(Step(c, Left));
      NoWallIsPassage(g, t, c, Left);
    }
    if x % SIZE >= SIZE - CLEARANCE {
      assert CellAround(g, x + CLEARANCE, y) == Some(Step(c, Right));
      NoWallIsPassage(g, t, c, Right);
    }
    if y % SIZE < CLEARANCE {
      assert CellAround(g, x, y - CLEARANCE) == Some(Step(c, Top));
      NoWallIsPassage(g, t, c, Top);
    }
    if y % SIZE >= SIZE - CLEARANCE {
      assert CellAround(g, x, y + CLEARANCE) == Some(Step(c, Bottom));
      NoWallIsPassage(g, t, c, Bottom);
    }
  }

  /** From one clear pixel to another at most ten pixels away in each direction, the centre stays in its cell or goes
      through one open passage. Going round a corner would need all four passages there. */
  lemma NoTunnelling(g: Grid, t: Tree, x: int, y: int, x': int, y': int)
    requires Spans(t, g) && !Collides(g, x, y, CLEARANCE) && !Collides(g, x', y', CLEARANCE)
    requires -10 <= x' - x <= 10 && -10 <= y' - y <= 10
    ensures var c, c' := Pos(x / SIZE, y / SIZE), Pos(x' / SIZE, y' / SIZE); c == c' || g.Passage(c, c')
  {
    var c, c' := Pos(x / SIZE, y / SIZE), Pos(x' / SIZE, y' / SIZE);
    ClearReach(g, t, x, y);
    ClearReach(g, t, x', y');
    if c.x != c'.x && c.y != c'.y {
      var beside, above := Pos(c'.x, c.y), Pos(c.x, c'.y);
      assert g.Passage(c, beside) && g.Passage(c, above);
      assert g.Passage(c', beside) && g.Passage(c', above);
      assert t.Linked(c', beside) && t.Linked(c', above);
      assert g.Passage(beside, c') && g.Passage(above, c');
      NoBlock(g, t, c, beside, above, c');
    }
  }

  lemma MoveIsNear(g: Grid, t: Tree, b: Body, e: Press)
    requires Spans(t, g) && Clear(g, b) && Clear(g, Moved(g, b, e)) && Real(e)
    ensures Centre(b) == Centre(Moved(g, b, e)) || g.Passage(Centre(b), Centre(Moved(g, b, e)))
  {
    var b' := Moved(g, b, e);
    ClearReach(g, t, Trunc(b.x), Trunc(b.y));
    ClearReach(g, t, Trunc(b'.x), Trunc(b'.y));
    TruncClose(b.x, b'.x);
    TruncClose(b.y, b'.y);
    NoTunnelling(g, t, Trunc(b.x), Trunc(b.y), Trunc(b'.x), Trunc(b'.y));
  }

  // ----- whole runs

  /** Over every run the centre's cells form a walk: the player never passes through a wall. */
  lemma {:induction false} TrailIsWalk(g: Grid, t: Tree, es: seq<Press>)
    requires Spans(t, g) && g.width > 0 && g.height > 0 && forall i :: 0 <= i < |es| ==> Real(es[i])
    ensures g.IsWalk(Trail(g, es)) && Trail(g, es)[0] == ORIGIN && Trail(g, es)[|es|] == Centre(After(g, es))
    ensures t.depth[Centre(After(g, es))] <= Displacements(g, es)
  {
    StaysClear(g, es);
    ClearReach(g, t, Trunc(After(g, es).x), Trunc(After(g, es).y));
    if es != [] {
      var before := es[..|es| - 1];
      TrailIsWalk(g, t, before);
      StaysClear(g, before);
      MoveIsNear(g, t, After(g, before), es[|es| - 1]);
      var c, c' := Centre(After(g, before)), Centre(After(g, es));
      assert c != c' ==> t.Linked(c, c');
    }
  }

  /** A clear position at which the game counts as won is at most two passages from the goal. */
  lemma WonIsNear(g: Grid, t: Tree, b: Body) returns (s: seq<Pos>)
    requires Spans(t, g) && Clear(g, b) && Ended(g, b)
    ensures g.PathBetween(s, g.Goal(), Centre(b)) && |s| <= 3
  {
    var goal, q := g.Goal(), Centre(b);
    ClearReach(g, t, Trunc(b.x), Trunc(b.y));
    assert q.x >= goal.x - 1 && q.y >= goal.y - 1;
    if q == goal {
      s := [goal];
    } else if q.x == goal.x || q.y == goal.y {
      assert t.Linked(goal, q);
      s := [goal, q];
    } else {
      var r := t.parent[goal];
      assert t.ParentOf(r, goal) && g.Passage(goal, r);
      assert r == Step(q, Right) || r == Step(q, Bottom);
      assert t.Linked(r, q);
      s := [goal, r, q];
    }
  }

  /** At a clear position the game is over exactly if the player's reach of 25 pixels gets to the goal's column on the
      right and to the goal's row below. */
  lemma EndedExactly(g: Grid, b: Body)
    requires g.width > 0 && g.height > 0 && Clear(g, b)
    ensures Ended(g, b) <==> Trunc(b.x) + 25 >= 100 * (g.width - 1) && Trunc(b.y) + 25 >= 100 * (g.height - 1)
  {
    CollisionLaw(g, Trunc(b.x), Trunc(b.y));
    hide Collides;
    TruncLaw(b.x);
    TruncLaw(b.y);
    assert b.x > 0.0 && b.y > 0.0;
  }

  lemma {:induction false} AfterOne(g: Grid, es: seq<Press>, e: Press)
    ensures After(g, es + [e]) == Moved(g, After(g, es), e)
  {
    assert (es + [e])[..|es|] == es;
  }

  lemma {:induction false} TwoCellsOpen(rand: nat -> nat)
    ensures (Pos(0, 0), Right) in CarvedGrid(2, 1, rand).open
  {
    var g, t := CarvedGrid(2, 1, rand), Carved(2, 1, rand).tree;
    CarvedSpans(2, 1, rand);
    DistanceIsDepth(g, t, Pos(1, 0));
    assert g.Distance(Pos(1, 0), t.depth[Pos(1, 0)]);
    var s :| g.PathBetween(s, ORIGIN, Pos(1, 0));
    assert g.Passage(s[0], s[1]);
  }

  /** Nobody wins without having been in every cell of the solution but (perhaps) the last two. */
  lemma {:induction false} NoShortcuts(w: nat, h: nat, rand: nat -> nat, es: seq<Press>, c: seq<Pos>)
    requires w > 0 && h > 0 && forall i :: 0 <= i < |es| ==> Real(es[i])
    requires Ended(CarvedGrid(w, h, rand), After(CarvedGrid(w, h, rand), es))
    requires Solves(CarvedGrid(w, h, rand), c)
    ensures forall i :: 2 <= i < |c| ==> c[i] in Trail(CarvedGrid(w, h, rand), es)
    ensures Displacements(CarvedGrid(w, h, rand), es) >= |c| - 3
  {
    var g, t := CarvedGrid(w, h, rand), Carved(w, h, rand).tree;
    CarvedSpans(w, h, rand);
    SolvedIsAncestry(g, t, c);
    StaysClear(g, es);
    TrailIsWalk(g, t, es);
    var s := WonIsNear(g, t, After(g, es));
    DepthAlongPath(g, t, s);
    forall i | 2 <= i < |c| ensures c[i] in Trail(g, es) {
      VisitsAncestor(g, t, s, Trail(g, es), c[i]);
    }
  }

  /** A path too short to get up to c stays below it. */
  lemma {:induction false} StaysUnder(g: Grid, t: Tree, s: seq<Pos>, c: Pos)
    requires Spans(t, g) && g.IsPath(s) && c in t.depth && t.Under(c, s[0])
    requires t.depth[c] + |s| - 1 <= t.depth[s[0]]
    ensures t.Under(c, s[|s| - 1])
  {
    if |s| > 1 {
      assert g.Passage(s[0], s[1]);
      assert t.Linked(s[0], s[1]);
      t.LinkKeepsSubtree(c, s[0], s[1]);
      StaysUnder(g, t, s[1..], c);
    }
  }

  lemma {:induction false} VisitsAncestor(g: Grid, t: Tree, s: seq<Pos>, trail: seq<Pos>, c: Pos)
    requires Spans(t, g) && g.IsPath(s) && |s| <= 3 && g.IsWalk(trail) && trail[0] == ORIGIN
    requires trail[|trail| - 1] == s[|s| - 1]
    requires c in t.depth && t.Under(c, s[0]) && t.depth[c] + 2 <= t.depth[s[0]]
    ensures c in trail
  {
    StaysUnder(g, t, s, c);
    if t.Under(c, ORIGIN) {
      t.UnderIsDeeper(c, ORIGIN);
    } else {
      CrossingVisits(g, t, trail, c);
    }
  }
}
