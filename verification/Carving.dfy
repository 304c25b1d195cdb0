/** What the maze generator does, on values: one iteration of its loop, and what every run of it keeps.
    The tree records from which cell each cell was carved. */
module Carving {
  import opened Grids
  import opened Trees

  datatype Carving = Carving(visited: set<Pos>, open: set<(Pos, Dir)>, stack: seq<Pos>, tree: Tree)

  function Start(): Carving {
    Carving({ORIGIN}, {}, [ORIGIN], Tree(map[], map[ORIGIN := 0]))
  }

  /** The generator's test for an unvisited neighbour on side d. */
  predicate Free(w: nat, h: nat, visited: set<Pos>, p: Pos, d: Dir) {
    Inside(w, h, p, d) && Step(p, d) !in visited
  }

  function AddFree(w: nat, h: nat, visited: set<Pos>, p: Pos, ds: seq<Dir>, d: Dir): (r: seq<Dir>)
    ensures forall e :: e in r <==> e in ds || (e == d && Free(w, h, visited, p, d))
    ensures NoRepeats(ds) && d !in ds ==> NoRepeats(r)
  {
    if Free(w, h, visited, p, d) then ds + [d] else ds
  }

  /** The sides on which p has an unvisited neighbour, in the order in which the generator looks. */
  function Choices(w: nat, h: nat, visited: set<Pos>, p: Pos): (ds: seq<Dir>)
    ensures forall d :: d in ds <==> Free(w, h, visited, p, d)
    ensures NoRepeats(ds)
  {
    var l := AddFree(w, h, visited, p, [], Left);
    var lr := AddFree(w, h, visited, p, l, Right);
    var lrt := AddFree(w, h, visited, p, lr, Top);
    AddFree(w, h, visited, p, lrt, Bottom)
  }

  function Carve(c: Carving, p: Pos, d: Dir): Carving {
    var q := Step(p, d);
    Carving(c.visited + {q},
            c.open + {(p, d), (q, Opposite(d))},
            c.stack + [q],
            Tree(c.tree.parent[q := p], c.tree.depth[q := |c.stack|]))
  }

  /** One iteration; `rand` is the number drawn in it, if one is drawn. With an empty stack the loop is over. */
  function Advance(w: nat, h: nat, c: Carving, rand: nat): Carving {
    if c.stack == [] then c
    else
      var top := c.stack[|c.stack| - 1];
      var ds := Choices(w, h, c.visited, top);
      if ds == [] then c.(stack := c.stack[..|c.stack| - 1])
      else Carve(c, top, ds[rand % |ds|])
  }

  ghost predicate Inv(w: nat, h: nat, c: Carving) {
    && c.tree.Rooted()
    && c.tree.depth.Keys == c.visited <= Cells(w, h)
    && OpenIsTree(c)
    && StackIsPath(c)
    && OffStackFinished(w, h, c)
    && |c.stack| <= |c.visited|
    && |Grid(w, h, c.open).Passages()| == |c.visited| - 1
  }

  ghost predicate OpenIsTree(c: Carving) {
    forall p, d :: (p, d) in c.open <==> p in c.visited && Step(p, d) in c.visited && c.tree.Linked(p, Step(p, d))
  }

  /** The stack is the way from the start to the current cell. */
  ghost predicate StackIsPath(c: Carving) {
    && (forall i :: 0 <= i < |c.stack| ==> c.stack[i] in c.tree.depth && c.tree.depth[c.stack[i]] == i)
    && (forall i :: 0 < i < |c.stack| ==> c.tree.ParentOf(c.stack[i - 1], c.stack[i]))
  }

  /** A visited cell that has left the stack has no unvisited neighbour. */
  ghost predicate OffStackFinished(w: nat, h: nat, c: Carving) {
    forall p, d :: p in c.visited && p !in c.stack && InGrid(w, h, Step(p, d)) ==> Step(p, d) in c.visited
  }

  lemma StartInv(w: nat, h: nat)
    requires w > 0 && h > 0
    ensures Inv(w, h, Start())
  {
    assert Grid(w, h, {}).Passages() == {};
  }

  lemma CountOne(w: nat, h: nat, open: set<(Pos, Dir)>, e: (Pos, Dir), f: (Pos, Dir))
    requires e !in open && f !in open && f.1 == Opposite(e.1)
    ensures |Grid(w, h, open + {e, f}).Passages()| == |Grid(w, h, open).Passages()| + 1
  {
    var counted := if e.1 == Right || e.1 == Bottom then e else f;
    assert Grid(w, h, open + {e, f}).Passages() == Grid(w, h, open).Passages() + {counted};
  }

  lemma {:induction false} CarveCountsOne(w: nat, h: nat, c: Carving, p: Pos, d: Dir)
    requires Inv(w, h, c) && p in c.visited && Step(p, d) !in c.visited
    ensures |Grid(w, h, Carve(c, p, d).open).Passages()| == |Grid(w, h, c.open).Passages()| + 1
  {
    var q := Step(p, d);
    assert (p, d) !in c.open && (q, Opposite(d)) !in c.open;
    CountOne(w, h, c.open, (p, d), (q, Opposite(d)));
  }

  lemma {:induction false} CarveKeepsRooted(c: Carving, p: Pos, d: Dir)
    requires c.tree.Rooted() && c.tree.depth.Keys == c.visited && p in c.visited && Step(p, d) !in c.visited
    requires c.tree.depth[p] == |c.stack| - 1
    ensures Carve(c, p, d).tree.Rooted()
  {}

  /** The new cell is nobody's parent yet. */
  lemma {:induction false} NewIsNoParent(t: Tree, q: Pos)
    requires t.Rooted() && q !in t.depth
    ensures forall v :: v in t.parent ==> t.parent[v] != q
  {}

  /** The removed walls of the cell u on side e are as the tree says. */
  ghost predicate Opens(c: Carving, u: Pos, e: Dir) {
    (u, e) in c.open <==> u in c.visited && Step(u, e) in c.visited && c.tree.Linked(u, Step(u, e))
  }

  lemma {:induction false} OpensAt(c: Carving, u: Pos, e: Dir)
    requires OpenIsTree(c)
    ensures Opens(c, u, e)
  {}

  lemma {:induction false} OpensEverywhere(c: Carving)
    requires forall u, e :: Opens(c, u, e)
    ensures OpenIsTree(c)
  {
    forall u, e
      ensures (u, e) in c.open <==> u in c.visited && Step(u, e) in c.visited && c.tree.Linked(u, Step(u, e))
    {
      assert Opens(c, u, e);
    }
  }

  lemma StepsOnce(p: Pos, d: Dir, e: Dir)
    ensures Step(Step(p, d), Opposite(d)) == p && Step(p, d) != p
    ensures Step(p, e) == Step(p, d) ==> e == d
    ensures Step(Step(p, d), e) == p ==> e == Opposite(d)
  {}

  lemma {:induction false} OpenAfter(c: Carving, p: Pos, d: Dir, u: Pos, e: Dir)
    requires c.tree.depth.Keys == c.visited && c.tree.parent.Keys <= c.visited && Opens(c, u, e)
    requires p in c.visited && Step(p, d) !in c.visited
    requires forall v :: v in c.tree.parent ==> c.tree.parent[v] != Step(p, d)
    ensures Opens(Carve(c, p, d), u, e)
  {
    StepsOnce(p, d, e);
    hide Step, Opposite;
    var c', q, r := Carve(c, p, d), Step(p, d), Step(u, e);
    if u == q {
      assert c'.tree.Linked(u, r) <==> r == p;
    } else if r == q {
      assert c'.tree.Linked(u, r) <==> u == p;
    } else {
      assert c'.tree.Linked(u, r) <==> c.tree.Linked(u, r);
    }
  }

  lemma {:induction false} CarveKeepsOpenIsTree(c: Carving, p: Pos, d: Dir)
    requires c.tree.Rooted() && c.tree.depth.Keys == c.visited && OpenIsTree(c)
    requires p in c.visited && Step(p, d) !in c.visited
    ensures OpenIsTree(Carve(c, p, d))
  {
    NewIsNoParent(c.tree, Step(p, d));
    assert c.tree.parent.Keys <= c.visited;
    hide OpenIsTree, Opens, Carve, Step, Tree.Rooted;
    forall u, e ensures Opens(Carve(c, p, d), u, e) {
      OpensAt(c, u, e);
      OpenAfter(c, p, d, u, e);
    }
    OpensEverywhere(Carve(c, p, d));
  }

  lemma {:induction false} CarveKeepsStack(w: nat, h: nat, c: Carving, d: Dir)
    requires c.stack != [] && c.tree.depth.Keys == c.visited && StackIsPath(c) && OffStackFinished(w, h, c)
    requires Step(c.stack[|c.stack| - 1], d) !in c.visited
    ensures StackIsPath(Carve(c, c.stack[|c.stack| - 1], d))
    ensures OffStackFinished(w, h, Carve(c, c.stack[|c.stack| - 1], d))
  {
    var c' := Carve(c, c.stack[|c.stack| - 1], d);
    assert c'.stack[..|c.stack|] == c.stack;
    assert forall u :: u in c.stack ==> u in c'.stack;
    forall u, e | u in c'.visited && u !in c'.stack && InGrid(w, h, Step(u, e)) ensures Step(u, e) in c'.visited {
      assert u in c.visited;
    }
  }

  lemma {:induction false} CarveInv(w: nat, h: nat, c: Carving, top: Pos, d: Dir)
    requires Inv(w, h, c) && c.stack != [] && top == c.stack[|c.stack| - 1] && Free(w, h, c.visited, top, d)
    ensures Inv(w, h, Carve(c, top, d)) && Work(w, h, Carve(c, top, d)) == Work(w, h, c) - 1
  {
    var c', q := Carve(c, top, d), Step(top, d);
    assert top in c.visited && c.tree.depth[top] == |c.stack| - 1 && InGrid(w, h, q);
    hide OpenIsTree, StackIsPath, OffStackFinished, Tree.Rooted;
    CarveKeepsRooted(c, top, d);
    CarveKeepsOpenIsTree(c, top, d);
    CarveKeepsStack(w, h, c, d);
    CarveCountsOne(w, h, c, top, d);
    assert |c'.visited| == |c.visited| + 1 && c'.tree.depth.Keys == c'.visited;
  }

  lemma {:induction false} AdvanceInv(w: nat, h: nat, c: Carving, rand: nat)
    requires Inv(w, h, c)
    ensures Inv(w, h, Advance(w, h, c, rand))
    ensures c.stack != [] ==> Work(w, h, Advance(w, h, c, rand)) == Work(w, h, c) - 1
  {
    hide Inv, Carve, Free;
    if c.stack != [] {
      var top := c.stack[|c.stack| - 1];
      var ds := Choices(w, h, c.visited, top);
      if ds == [] {
        PopInv(w, h, c);
      } else {
        assert ds[rand % |ds|] in ds;
        CarveInv(w, h, c, top, ds[rand % |ds|]);
      }
    }
  }

  lemma {:induction false} PopKeepsFinished(w: nat, h: nat, c: Carving, top: Pos)
    requires OffStackFinished(w, h, c) && c.stack != [] && top == c.stack[|c.stack| - 1]
    requires InGrid(w, h, top) && forall d :: !Free(w, h, c.visited, top, d)
    ensures OffStackFinished(w, h, c.(stack := c.stack[..|c.stack| - 1]))
  {
    var below := c.stack[..|c.stack| - 1];
    assert c.stack == below + [top];
    forall p, d | p in c.visited && p !in below && InGrid(w, h, Step(p, d)) ensures Step(p, d) in c.visited {
      if p == top {
        assert !Free(w, h, c.visited, top, d);
      } else {
        assert p !in c.stack;
      }
    }
  }

  lemma {:induction false} PopKeepsPath(c: Carving)
    requires StackIsPath(c) && c.stack != []
    ensures StackIsPath(c.(stack := c.stack[..|c.stack| - 1]))
  {}

  lemma {:induction false} PopInv(w: nat, h: nat, c: Carving)
    requires Inv(w, h, c) && c.stack != [] && Choices(w, h, c.visited, c.stack[|c.stack| - 1]) == []
    ensures Inv(w, h, c.(stack := c.stack[..|c.stack| - 1]))
  {
    var top := c.stack[|c.stack| - 1];
    assert top in c.visited;
    hide StackIsPath, OffStackFinished, OpenIsTree, Free;
    forall d ensures !Free(w, h, c.visited, top, d) { assert d !in Choices(w, h, c.visited, top); }
    PopKeepsFinished(w, h, c, top);
    PopKeepsPath(c);
    OpenIsTreeSame(c, c.(stack := c.stack[..|c.stack| - 1]));
  }

  lemma {:induction false} OpenIsTreeSame(c: Carving, c': Carving)
    requires OpenIsTree(c) && c'.open == c.open && c'.visited == c.visited && c'.tree == c.tree
    ensures OpenIsTree(c')
  {}

  /** Twice the cells still to visit, plus the height of the stack: the number of iterations left. */
  ghost function Work(w: nat, h: nat, c: Carving): int {
    2 * (|Cells(w, h)| - |c.visited|) + |c.stack|
  }

  /** The state after n iterations of a loop that draws rand(i) in iteration i (and stops at an empty stack). */
  ghost function Run(w: nat, h: nat, rand: nat -> nat, n: nat): Carving {
    if n == 0 then Start()
    else Advance(w, h, Run(w, h, rand, n - 1), rand(n - 1))
  }

  lemma {:induction false} RunNext(w: nat, h: nat, rand: nat -> nat, n: nat)
    ensures Run(w, h, rand, n + 1) == Advance(w, h, Run(w, h, rand, n), rand(n))
  {}

  lemma {:induction false} RunInv(w: nat, h: nat, rand: nat -> nat, n: nat)
    requires w > 0 && h > 0
    ensures Inv(w, h, Run(w, h, rand, n))
  {
    StartInv(w, h);
    var c := Start();
    for k := 0 to n
      invariant c == Run(w, h, rand, k)
      invariant Inv(w, h, c)
    {
      RunNext(w, h, rand, k);
      AdvanceInv(w, h, c, rand(k));
      c := Advance(w, h, c, rand(k));
    }
  }

  /** When the stack is empty every cell has been visited: each cell is reached from the start by going right,
      then down. */
  lemma {:induction false} EmptyStackVisitedAll(w: nat, h: nat, c: Carving, p: Pos)
    requires Inv(w, h, c) && c.stack == [] && ORIGIN in c.visited && InGrid(w, h, p)
    ensures p in c.visited
    decreases p.x + p.y
  {
    if p.y > 0 {
      EmptyStackVisitedAll(w, h, c, Step(p, Top));
      assert Step(Step(p, Top), Bottom) == p;
    } else if p.x > 0 {
      EmptyStackVisitedAll(w, h, c, Step(p, Left));
      assert Step(Step(p, Left), Right) == p;
    }
  }

  lemma {:induction false} FewerThanAll(w: nat, h: nat, c: Carving)
    requires Inv(w, h, c)
    ensures |c.visited| <= |Cells(w, h)|
    ensures |c.visited| == |Cells(w, h)| ==> c.visited == Cells(w, h)
  {
    var rest := Cells(w, h) - c.visited;
    assert Cells(w, h) == c.visited + rest;
    assert |Cells(w, h)| == |c.visited| + |rest|;
  }

  lemma {:induction false} EmptyStackNoWork(w: nat, h: nat, c: Carving)
    requires Inv(w, h, c)
    ensures c.stack == [] <==> Work(w, h, c) == 0
    ensures Work(w, h, c) >= 0
  {
    FewerThanAll(w, h, c);
    if c.stack == [] {
      forall p | p in Cells(w, h) ensures p in c.visited { EmptyStackVisitedAll(w, h, c, p); }
      assert c.visited == Cells(w, h);
    }
  }

  /** Iteration n happens exactly when there is work left, and takes one unit of it. */
  lemma {:induction false} OneIteration(w: nat, h: nat, rand: nat -> nat, n: nat)
    requires w > 0 && h > 0
    ensures WorkLeft(w, h, rand, n) >= 0
    ensures Run(w, h, rand, n).stack == [] <==> WorkLeft(w, h, rand, n) == 0
    ensures WorkLeft(w, h, rand, n + 1) == if WorkLeft(w, h, rand, n) == 0 then 0 else WorkLeft(w, h, rand, n) - 1
  {
    var c := Run(w, h, rand, n);
    RunInv(w, h, rand, n);
    EmptyStackNoWork(w, h, c);
    AdvanceInv(w, h, c, rand(n));
  }

  ghost function WorkLeft(w: nat, h: nat, rand: nat -> nat, n: nat): int {
    Work(w, h, Run(w, h, rand, n))
  }

  lemma {:induction false} WorkAfter(w: nat, h: nat, rand: nat -> nat, n: nat)
    requires w > 0 && h > 0
    ensures |Cells(w, h)| > 0
    ensures WorkLeft(w, h, rand, n) == if n < 2 * |Cells(w, h)| then 2 * |Cells(w, h)| - 1 - n else 0
  {
    assert ORIGIN in Cells(w, h);
    assert |{ORIGIN}| == 1;
    for k := 0 to n
      invariant WorkLeft(w, h, rand, k) == if k < 2 * |Cells(w, h)| then 2 * |Cells(w, h)| - 1 - k else 0
    {
      OneIteration(w, h, rand, k);
    }
  }

  ghost function Carved(w: nat, h: nat, rand: nat -> nat): Carving
    requires w > 0 && h > 0
  {
    assert ORIGIN in Cells(w, h);
    Run(w, h, rand, 2 * |Cells(w, h)| - 1)
  }

  ghost function CarvedGrid(w: nat, h: nat, rand: nat -> nat): Grid
    requires w > 0 && h > 0
  {
    Grid(w, h, Carved(w, h, rand).open)
  }

  lemma {:induction false} CarvedAfter(w: nat, h: nat, rand: nat -> nat, n: nat)
    requires w > 0 && h > 0 && n == 2 * |Cells(w, h)| - 1
    ensures CarvedGrid(w, h, rand) == Grid(w, h, Run(w, h, rand, n).open)
  {}

  lemma {:induction false} CarvedVisitsAll(w: nat, h: nat, rand: nat -> nat)
    requires w > 0 && h > 0
    ensures Carved(w, h, rand).stack == [] && Inv(w, h, Carved(w, h, rand))
    ensures Carved(w, h, rand).visited == Cells(w, h)
  {
    assert ORIGIN in Cells(w, h);
    WorkAfter(w, h, rand, 2 * |Cells(w, h)| - 1);
    OneIteration(w, h, rand, 2 * |Cells(w, h)| - 1);
    RunInv(w, h, rand, 2 * |Cells(w, h)| - 1);
    FewerThanAll(w, h, Carved(w, h, rand));
  }

  lemma {:induction false} CarvedSpans(w: nat, h: nat, rand: nat -> nat)
    requires w > 0 && h > 0
    ensures Spans(Carved(w, h, rand).tree, CarvedGrid(w, h, rand))
  {
    var c, g := Carved(w, h, rand), CarvedGrid(w, h, rand);
    CarvedVisitsAll(w, h, rand);
    PassagesAreLinks(w, h, c, g);
  }

  lemma {:induction false} PassagesAreLinks(w: nat, h: nat, c: Carving, g: Grid)
    requires Inv(w, h, c) && c.visited == Cells(w, h) && g == Grid(w, h, c.open)
    ensures Spans(c.tree, g)
  {
    forall p, q ensures g.Passage(p, q) <==> c.tree.Linked(p, q) {
      if c.tree.Linked(p, q) {
        assert Adjacent(p, q) && Step(p, DirTo(p, q)) == q;
      }
    }
  }

  lemma {:induction false} WallsAgree(w: nat, h: nat, c: Carving)
    requires Inv(w, h, c)
    ensures Grid(w, h, c.open).Agrees() && Grid(w, h, c.open).Enclosed()
  {
    forall p, d ensures (p, d) in c.open <==> (Step(p, d), Opposite(d)) in c.open {
      assert Step(Step(p, d), Opposite(d)) == p;
    }
  }

  /** Whatever is drawn: the walls of neighbours agree, the outer walls stand, w * h - 1 passages are open, and
      exactly one simple path joins any two cells. */
  lemma {:induction false} CarvedIsPerfect(w: nat, h: nat, rand: nat -> nat)
    requires w > 0 && h > 0
    ensures var g := CarvedGrid(w, h, rand);
      g.Agrees() && g.Enclosed() && |g.Passages()| == w * h - 1 && g.Perfect()
  {
    var c := Carved(w, h, rand);
    CarvedVisitsAll(w, h, rand);
    WallsAgree(w, h, c);
    CarvedSpans(w, h, rand);
    SpannedIsPerfect(CarvedGrid(w, h, rand), c.tree);
    CellCount(w, h);
  }

  /** The loop runs exactly 2 * w * h - 1 times, and its stack never holds more cells than the maze has. */
  lemma {:induction false} LoopLength(w: nat, h: nat, rand: nat -> nat, n: nat)
    requires w > 0 && h > 0
    ensures Run(w, h, rand, n).stack == [] <==> n >= 2 * (w * h) - 1
    ensures |Run(w, h, rand, n).stack| <= w * h
  {
    CellCount(w, h);
    RunInv(w, h, rand, n);
    FewerThanAll(w, h, Run(w, h, rand, n));
    WorkAfter(w, h, rand, n);
    OneIteration(w, h, rand, n);
  }

  lemma {:induction false} InvDepthFirst(w: nat, h: nat, c: Carving)
    requires Inv(w, h, c)
    ensures NoRepeats(c.stack)
    ensures c.stack != [] ==> Grid(w, h, c.open).IsPath(c.stack) && c.stack[0] == ORIGIN
    ensures forall p, q :: p in c.visited && p !in c.stack && Adjacent(p, q) && InGrid(w, h, q) ==> q in c.visited
  {
    var g := Grid(w, h, c.open);
    forall i | 0 <= i < |c.stack| - 1 ensures g.Passage(c.stack[i], c.stack[i + 1]) {
      var p, q := c.stack[i], c.stack[i + 1];
      assert c.tree.ParentOf(c.stack[i + 1 - 1], q);
      assert Step(p, DirTo(p, q)) == q;
    }
    if c.stack != [] { c.tree.OnlyRootAtZero(c.stack[0]); }
    forall p, q | p in c.visited && p !in c.stack && Adjacent(p, q) && InGrid(w, h, q) ensures q in c.visited {
      assert Step(p, DirTo(p, q)) == q;
    }
  }

  /** At every iteration the stack is a simple path from the start through removed walls, and every visited cell
      that is no longer on it has no unvisited neighbour. */
  lemma {:induction false} DepthFirst(w: nat, h: nat, rand: nat -> nat, n: nat)
    requires w > 0 && h > 0
    ensures var c := Run(w, h, rand, n);
      && NoRepeats(c.stack)
      && (c.stack != [] ==> Grid(w, h, c.open).IsPath(c.stack) && c.stack[0] == ORIGIN)
      && (forall p, q :: p in c.visited && p !in c.stack && Adjacent(p, q) && InGrid(w, h, q) ==> q in c.visited)
  {
    RunInv(w, h, rand, n);
    InvDepthFirst(w, h, Run(w, h, rand, n));
  }
}
