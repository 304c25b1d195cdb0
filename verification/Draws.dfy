/** What the numbers drawn decide: which way the generator goes; and that it can go every way a depth-first search
    can. */
module Draws {
  import opened Grids
  import opened Trees
  import opened Carving

  /** There is an unvisited cell next to p on side d. */
  predicate Unvisited(w: nat, h: nat, visited: set<Pos>, p: Pos, d: Dir) {
    0 <= Step(p, d).x < w && 0 <= Step(p, d).y < h && Step(p, d) !in visited
  }

  function One(b: bool): nat {
    if b then 1 else 0
  }

  /** How many such sides come before d, in the order left, right, top, bottom. */
  function UnvisitedBefore(w: nat, h: nat, visited: set<Pos>, p: Pos, d: Dir): nat {
    var l, r := One(Unvisited(w, h, visited, p, Left)), One(Unvisited(w, h, visited, p, Right));
    var t := One(Unvisited(w, h, visited, p, Top));
    match d
    case Left => 0
    case Right => l
    case Top => l + r
    case Bottom => l + r + t
  }

  function UnvisitedSides(w: nat, h: nat, visited: set<Pos>, p: Pos): nat {
    UnvisitedBefore(w, h, visited, p, Bottom) + One(Unvisited(w, h, visited, p, Bottom))
  }

  lemma {:induction false} ChoicesInOrder(w: nat, h: nat, visited: set<Pos>, p: Pos, d: Dir)
    requires 0 <= p.x < w && 0 <= p.y < h
    ensures |Choices(w, h, visited, p)| == UnvisitedSides(w, h, visited, p)
    ensures Unvisited(w, h, visited, p, d) ==>
      UnvisitedBefore(w, h, visited, p, d) < |Choices(w, h, visited, p)| &&
      Choices(w, h, visited, p)[UnvisitedBefore(w, h, visited, p, d)] == d
  {
    assert forall e :: Free(w, h, visited, p, e) <==> Unvisited(w, h, visited, p, e);
  }

  /** The next state of the search when it goes from its current cell to side d. */
  ghost predicate GoesTo(c: Carving, c': Carving, d: Dir)
    requires c.stack != []
  {
    var top := c.stack[|c.stack| - 1];
    var q := Step(top, d);
    && c'.open == c.open + {(top, d), (q, Opposite(d))}
    && c'.visited == c.visited + {q} && c'.stack == c.stack + [q]
    && c'.tree == Tree(c.tree.parent[q := top], c.tree.depth[q := |c.stack|])
  }

  /** When it goes back from its current cell. */
  ghost predicate GoesBack(c: Carving, c': Carving)
    requires c.stack != []
  {
    && c'.open == c.open && c'.visited == c.visited && c'.stack == c.stack[..|c.stack| - 1] && c'.tree == c.tree
  }

  /** A step of a depth-first search, whatever way it takes. */
  ghost predicate Searches(w: nat, h: nat, c: Carving, c': Carving) {
    && c.stack != []
    && var top := c.stack[|c.stack| - 1];
       if UnvisitedSides(w, h, c.visited, top) == 0 then GoesBack(c, c')
       else exists d :: Unvisited(w, h, c.visited, top, d) && GoesTo(c, c', d)
  }

  lemma {:induction false} SidesCount(w: nat, h: nat, visited: set<Pos>, p: Pos, k: nat) returns (d: Dir)
    requires k < UnvisitedSides(w, h, visited, p)
    ensures Unvisited(w, h, visited, p, d) && UnvisitedBefore(w, h, visited, p, d) == k
  {
    if Unvisited(w, h, visited, p, Left) && k == 0 { d := Left; }
    else if Unvisited(w, h, visited, p, Right) && k == UnvisitedBefore(w, h, visited, p, Right) { d := Right; }
    else if Unvisited(w, h, visited, p, Top) && k == UnvisitedBefore(w, h, visited, p, Top) { d := Top; }
    else { d := Bottom; }
  }

  /** One iteration on a state whose current cell is in the grid. */
  lemma {:induction false} AdvanceLaw(w: nat, h: nat, c: Carving, rand: nat) returns (d: Dir)
    requires c.stack != [] && InGrid(w, h, c.stack[|c.stack| - 1])
    ensures var top := c.stack[|c.stack| - 1]; var n := UnvisitedSides(w, h, c.visited, top);
      if n == 0 then GoesBack(c, Advance(w, h, c, rand))
      else
        && Unvisited(w, h, c.visited, top, d) && UnvisitedBefore(w, h, c.visited, top, d) == rand % n
        && GoesTo(c, Advance(w, h, c, rand), d)
  {
    var top := c.stack[|c.stack| - 1];
    var n := UnvisitedSides(w, h, c.visited, top);
    d := Left;
    ChoicesInOrder(w, h, c.visited, top, Left);
    if n > 0 {
      d := SidesCount(w, h, c.visited, top, rand % n);
      ChoicesInOrder(w, h, c.visited, top, d);
    }
  }

  lemma {:induction false} TopInGrid(w: nat, h: nat, rand: nat -> nat, n: nat)
    requires w > 0 && h > 0 && Run(w, h, rand, n).stack != []
    ensures var c := Run(w, h, rand, n); InGrid(w, h, c.stack[|c.stack| - 1])
  {
    RunInv(w, h, rand, n);
    var c := Run(w, h, rand, n);
    assert c.stack[|c.stack| - 1] in c.visited;
  }

  /** What the n-th number decides in a run: with m unvisited cells around the current one, the way to the one that has
      rand(n) % m others before it in the order left, right, top, bottom; with none, the way back. */
  lemma {:induction false} DrawDecides(w: nat, h: nat, rand: nat -> nat, n: nat) returns (d: Dir)
    requires w > 0 && h > 0 && Run(w, h, rand, n).stack != []
    ensures var c, c' := Run(w, h, rand, n), Run(w, h, rand, n + 1);
      var top := c.stack[|c.stack| - 1]; var m := UnvisitedSides(w, h, c.visited, top);
      if m == 0 then GoesBack(c, c')
      else
        && Unvisited(w, h, c.visited, top, d) && UnvisitedBefore(w, h, c.visited, top, d) == rand(n) % m
        && GoesTo(c, c', d)
  {
    TopInGrid(w, h, rand, n);
    RunNext(w, h, rand, n);
    d := AdvanceLaw(w, h, Run(w, h, rand, n), rand(n));
  }

  /** A run depends only on the numbers drawn so far. */
  lemma {:induction false} RunDependsOn(w: nat, h: nat, rand: nat -> nat, rand': nat -> nat, n: nat)
    requires forall i: nat :: i < n ==> rand(i) == rand'(i)
    ensures Run(w, h, rand, n) == Run(w, h, rand', n)
  {
    for k := 0 to n
      invariant Run(w, h, rand, k) == Run(w, h, rand', k)
    {
      RunNext(w, h, rand, k);
      RunNext(w, h, rand', k);
    }
  }

  /** Every way that is open to the search can be drawn, whatever was drawn before. */
  lemma {:induction false} EveryWayCanBeDrawn(w: nat, h: nat, rand: nat -> nat, n: nat, d: Dir)
    returns (rand': nat -> nat)
    requires w > 0 && h > 0 && Run(w, h, rand, n).stack != []
    requires var c := Run(w, h, rand, n); Unvisited(w, h, c.visited, c.stack[|c.stack| - 1], d)
    ensures forall i: nat :: i < n ==> rand'(i) == rand(i)
    ensures var c := Run(w, h, rand, n); GoesTo(c, Run(w, h, rand', n + 1), d)
  {
    hide Run, Unvisited, GoesTo, Advance;
    TopInGrid(w, h, rand, n);
    var k := DrawFor(w, h, Run(w, h, rand, n), d);
    rand' := (i: nat) => if i == n then k else rand(i);
    RunDependsOn(w, h, rand, rand', n);
    RunNext(w, h, rand', n);
  }

  lemma {:induction false} BeforeIsInjective(w: nat, h: nat, visited: set<Pos>, p: Pos, d: Dir, d': Dir)
    requires Unvisited(w, h, visited, p, d)
    ensures UnvisitedBefore(w, h, visited, p, d) < UnvisitedSides(w, h, visited, p)
    ensures Unvisited(w, h, visited, p, d') ==>
      (UnvisitedBefore(w, h, visited, p, d) == UnvisitedBefore(w, h, visited, p, d') <==> d == d')
  {}

  lemma SmallRemainder(k: nat, m: nat)
    requires k < m
    ensures k % m == k
  {}

  /** The number of unvisited sides before d makes the search go to d. */
  lemma {:induction false} DrawFor(w: nat, h: nat, c: Carving, d: Dir) returns (k: nat)
    requires c.stack != [] && InGrid(w, h, c.stack[|c.stack| - 1])
    requires Unvisited(w, h, c.visited, c.stack[|c.stack| - 1], d)
    ensures GoesTo(c, Advance(w, h, c, k), d)
  {
    hide Unvisited, UnvisitedBefore, UnvisitedSides, GoesTo, Advance, Step;
    var top := c.stack[|c.stack| - 1];
    k := UnvisitedBefore(w, h, c.visited, top, d);
    BeforeIsInjective(w, h, c.visited, top, d, d);
    SmallRemainder(k, UnvisitedSides(w, h, c.visited, top));
    var d' := AdvanceLaw(w, h, c, k);
    BeforeIsInjective(w, h, c.visited, top, d, d');
  }

  lemma {:induction false} SameWhere(c: Carving, c': Carving, c'': Carving, d: Dir)
    requires c.stack != []
    ensures GoesTo(c, c', d) && GoesTo(c, c'', d) ==> c' == c''
    ensures GoesBack(c, c') && GoesBack(c, c'') ==> c' == c''
  {}

  /** A number that makes the iteration go from c to c', if there is one. */
  ghost function Number(w: nat, h: nat, c: Carving, c': Carving): nat {
    if exists k: nat :: Advance(w, h, c, k) == c' then var k: nat :| Advance(w, h, c, k) == c'; k else 0
  }

  lemma {:induction false} SearchIsDrawn(w: nat, h: nat, c: Carving, c': Carving)
    requires Searches(w, h, c, c') && InGrid(w, h, c.stack[|c.stack| - 1])
    ensures Advance(w, h, c, Number(w, h, c, c')) == c'
  {
    hide Unvisited, UnvisitedSides, GoesTo, GoesBack, Advance;
    var top := c.stack[|c.stack| - 1];
    if UnvisitedSides(w, h, c.visited, top) == 0 {
      var _ := AdvanceLaw(w, h, c, 0);
      SameWhere(c, c', Advance(w, h, c, 0), Left);
      assert Advance(w, h, c, 0) == c';
    } else {
      var d :| Unvisited(w, h, c.visited, top, d) && GoesTo(c, c', d);
      var k := DrawFor(w, h, c, d);
      SameWhere(c, c', Advance(w, h, c, k), d);
      assert Advance(w, h, c, k) == c';
    }
  }

  /** A whole search from the start cell, as a depth-first search can go. */
  ghost predicate IsSearch(w: nat, h: nat, cs: seq<Carving>) {
    && |cs| > 0 && cs[0] == Carving({ORIGIN}, {}, [ORIGIN], Tree(map[], map[ORIGIN := 0]))
    && (forall i :: 0 <= i < |cs| - 1 ==> Searches(w, h, cs[i], cs[i + 1]))
    && cs[|cs| - 1].stack == []
  }

  /** Every maze that a depth-first search can make is one that the generator makes, for some numbers drawn. */
  lemma {:induction false} EverySearchCanBeDrawn(w: nat, h: nat, cs: seq<Carving>) returns (rand: nat -> nat)
    requires w > 0 && h > 0 && IsSearch(w, h, cs)
    ensures CarvedGrid(w, h, rand).open == cs[|cs| - 1].open && Carved(w, h, rand).tree == cs[|cs| - 1].tree
    ensures forall i :: 0 <= i < |cs| ==> Run(w, h, rand, i) == cs[i]
  {
    rand := (i: nat) => if i + 1 < |cs| then Number(w, h, cs[i], cs[i + 1]) else 0;
    for n := 0 to |cs| - 1
      invariant forall i :: 0 <= i <= n ==> Run(w, h, rand, i) == cs[i]
    {
      assert Searches(w, h, cs[n], cs[n + 1]);
      TopInGrid(w, h, rand, n);
      SearchIsDrawn(w, h, cs[n], cs[n + 1]);
      RunNext(w, h, rand, n);
    }
    var n := |cs| - 1;
    LoopLength(w, h, rand, n);
    if n > 0 {
      assert Searches(w, h, cs[n - 1], cs[n]);
      LoopLength(w, h, rand, n - 1);
    }
    CellCount(w, h);
    CarvedAfter(w, h, rand, n);
  }
}
