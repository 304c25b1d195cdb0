/** What the solver does, on values: the state of Dijkstra's algorithm with every step of length one, what settling
    a cell keeps, and what the state says about distances when the goal comes up. */
module ShortestPaths {
  import opened Grids

  const INT_MAX := 0x7FFF_FFFF
  const INT_MIN := -0x8000_0000

  /** d + 1 in a 32-bit int. */
  function Successor(d: int): int {
    if d == INT_MAX then INT_MIN else d + 1
  }

  function Without<T(==)>(s: seq<T>, x: T): (r: seq<T>)
    ensures |r| == if x in s then |s| - 1 else |s|
    ensures forall y :: y in r ==> y in s
    ensures forall y :: y in s && y != x ==> y in r
  {
    if s == [] then []
    else if s[0] == x then s[1..]
    else [s[0]] + Without(s[1..], x)
  }

  lemma {:induction false} WithoutIsCut<T>(s: seq<T>, i: nat)
    requires i < |s| && s[i] !in s[..i]
    ensures Without(s, s[i]) == s[..i] + s[i + 1..]
  {
    if i > 0 {
      assert s[1..][..i - 1] == s[..i][1..];
      WithoutIsCut(s[1..], i - 1);
    }
  }

  lemma {:induction false} WithoutAbsent<T>(s: seq<T>, x: T)
    requires x !in s
    ensures Without(s, x) == s
  {
    if s != [] { WithoutAbsent(s[1..], x); }
  }

  lemma {:induction false} WithoutKeepsOrder<T>(s: seq<T>, x: T)
    requires NoRepeats(s) && |s| > 1
    ensures NoRepeats(Without(s, x)) && x !in Without(s, x)
    ensures x != s[|s| - 1] ==> Without(s, x)[|Without(s, x)| - 1] == s[|s| - 1]
  {
    if i :| 0 <= i < |s| && s[i] == x {
      WithoutIsCut(s, i);
    } else {
      WithoutAbsent(s, x);
    }
  }

  /** `pending` lists the cells still in the open list; prev has no entry for a null pointer; rank[p] is how many
      cells had left the open list before p. */
  datatype Search = Search(dist: map<Pos, int>, prev: map<Pos, Pos>, pending: seq<Pos>, rank: map<Pos, nat>)

  predicate Relaxes(g: Grid, s: Search, p: Pos, q: Pos)
    requires p in s.dist && q in s.dist
  {
    g.Passage(p, q) && q != p && q in s.pending && Successor(s.dist[p]) < s.dist[q]
  }

  /** p leaves the open list and its neighbours there learn of the way through p. */
  ghost function Settle(g: Grid, s: Search, p: Pos): Search
    requires p in s.dist
  {
    Search(map q | q in s.dist :: if Relaxes(g, s, p, q) then Successor(s.dist[p]) else s.dist[q],
           map q | q in s.dist && (q in s.prev || Relaxes(g, s, p, q)) ::
             if Relaxes(g, s, p, q) then p else s.prev[q],
           Without(s.pending, p),
           s.rank[p := |s.rank|])
  }

  ghost predicate Least(s: Search, p: Pos)
    requires forall q :: q in s.pending ==> q in s.dist
  {
    p in s.pending && forall q :: q in s.pending ==> s.dist[p] <= s.dist[q]
  }

  // ----- the invariant

  ghost predicate Bookkeeping(g: Grid, s: Search) {
    && s.dist.Keys == Cells(g.width, g.height)
    && GoalLast(g, s.pending)
    && Ranked(g, s.pending, s.rank)
  }

  /** The open list holds distinct cells of the grid, the goal last. */
  ghost predicate GoalLast(g: Grid, pending: seq<Pos>) {
    && |pending| > 0 && NoRepeats(pending) && pending[|pending| - 1] == g.Goal()
    && (forall p :: p in pending ==> g.Has(p))
  }

  /** The cells that are not in the open list are numbered in the order in which they left it. */
  ghost predicate Ranked(g: Grid, pending: seq<Pos>, rank: map<Pos, nat>) {
    && (forall p :: p in rank <==> g.Has(p) && p !in pending)
    && (forall p :: p in rank ==> rank[p] < |rank|)
    && |rank| + |pending| == |Cells(g.width, g.height)|
  }

  /** Pointers lead back through passages, to cells that left the list earlier. */
  ghost predicate PointersBack(g: Grid, s: Search) {
    && (forall q {:trigger s.prev[q]} :: q in s.prev ==> g.Has(q) && s.prev[q] in s.rank && g.Passage(s.prev[q], q))
    && (forall q {:trigger s.prev[q]} :: q in s.prev && q in s.rank ==> s.rank[s.prev[q]] < s.rank[q])
    && ORIGIN !in s.prev
  }

  ghost predicate StartsAtOrigin(g: Grid, s: Search)
    requires s.dist.Keys == Cells(g.width, g.height)
  {
    g.Has(ORIGIN) && s.dist[ORIGIN] == 0 &&
    (ORIGIN in s.pending ==> forall q :: q in s.dist && q != ORIGIN ==> s.dist[q] == INT_MAX)
  }

  /** The distances found so far, as long as nothing has overflowed. */
  ghost predicate Reckoned(g: Grid, s: Search)
    requires s.dist.Keys == Cells(g.width, g.height)
  {
    && Bounded(s)
    && PointersCount(s)
    && Triangle(g, s)
    && SettledFirst(s)
  }

  ghost predicate Bounded(s: Search) {
    && (forall q :: q in s.dist ==> 0 <= s.dist[q] <= INT_MAX && (s.dist[q] == INT_MAX || s.dist[q] <= |s.rank|))
    && (forall q :: q in s.rank && q in s.dist ==> s.dist[q] == INT_MAX || s.dist[q] <= s.rank[q])
  }

  /** Exactly the cells reached so far have a pointer (but for the start), and it leads one step nearer. */
  ghost predicate PointersCount(s: Search) {
    && (forall q :: q in s.dist ==> (s.dist[q] < INT_MAX <==> q == ORIGIN || q in s.prev))
    && (forall q {:trigger s.prev[q]} ::
          q in s.prev && q in s.dist ==> s.prev[q] in s.dist && s.dist[s.prev[q]] + 1 == s.dist[q])
  }

  ghost predicate Triangle(g: Grid, s: Search) {
    forall q, r {:trigger g.Passage(q, r)} ::
      q in s.rank && q in s.dist && r in s.dist && g.Passage(q, r) ==> s.dist[r] <= s.dist[q] + 1
  }

  ghost predicate SettledFirst(s: Search) {
    forall q, r :: q in s.rank && q in s.dist && r in s.pending && r in s.dist ==> s.dist[q] <= s.dist[r]
  }

  ghost predicate Inv(g: Grid, s: Search) {
    && |Cells(g.width, g.height)| <= INT_MAX
    && Bookkeeping(g, s)
    && PointersBack(g, s)
    && StartsAtOrigin(g, s)
    && (Reckoned(g, s) || !g.Reachable(g.Goal()))
  }

  /** All cells in the open list, all but the start unreached. */
  ghost function Fresh(g: Grid, pending: seq<Pos>): Search {
    Search(map p | p in Cells(g.width, g.height) :: if p == ORIGIN then 0 else INT_MAX, map[], pending, map[])
  }

  /** Every cell is listed once, the goal last. */
  ghost predicate AllCells(g: Grid, pending: seq<Pos>) {
    && g.width > 0 && g.height > 0
    && |pending| == |Cells(g.width, g.height)| <= INT_MAX
    && NoRepeats(pending)
    && (forall p :: p in pending <==> g.Has(p))
    && |pending| > 0 && pending[|pending| - 1] == g.Goal()
  }

  lemma {:induction false} FreshInv(g: Grid, pending: seq<Pos>)
    requires AllCells(g, pending)
    ensures Inv(g, Fresh(g, pending))
  {}

  lemma {:induction false} SettleKeepsGoalLast(g: Grid, pending: seq<Pos>, p: Pos)
    requires GoalLast(g, pending) && p in pending && p != g.Goal()
    ensures GoalLast(g, Without(pending, p)) && p !in Without(pending, p)
  {
    WithoutKeepsOrder(pending, p);
  }

  lemma {:induction false} SettleKeepsRanked(g: Grid, pending: seq<Pos>, rank: map<Pos, nat>, p: Pos)
    requires Ranked(g, pending, rank) && p in pending && p !in Without(pending, p) && g.Has(p)
    ensures Ranked(g, Without(pending, p), rank[p := |rank|])
  {
    var after := rank[p := |rank|];
    assert after.Keys == rank.Keys + {p};
    assert |after.Keys| == |rank| + 1;
    forall q ensures q in after <==> g.Has(q) && q !in Without(pending, p) {
      assert q in rank <==> g.Has(q) && q !in pending;
    }
  }

  lemma {:induction false} SettleKeepsBookkeeping(g: Grid, s: Search, p: Pos)
    requires Bookkeeping(g, s) && p in s.pending && p != g.Goal()
    ensures Bookkeeping(g, Settle(g, s, p))
  {
    SettleKeepsGoalLast(g, s.pending, p);
    SettleKeepsRanked(g, s.pending, s.rank, p);
  }

  lemma {:induction false} SettleKeepsPointers(g: Grid, s: Search, p: Pos)
    requires Bookkeeping(g, s) && PointersBack(g, s) && StartsAtOrigin(g, s) && Least(s, p)
    ensures PointersBack(g, Settle(g, s, p))
  {
    var s' := Settle(g, s, p);
    assert ORIGIN in s.pending ==> p == ORIGIN;
    forall q | q in s'.prev ensures g.Has(q) && s'.prev[q] in s'.rank && g.Passage(s'.prev[q], q) {
      if !Relaxes(g, s, p, q) { assert q in s.prev; }
    }
    forall q | q in s'.prev && q in s'.rank ensures s'.rank[s'.prev[q]] < s'.rank[q] {
      assert !Relaxes(g, s, p, q);
    }
  }

  lemma {:induction false} SettleKeepsStart(g: Grid, s: Search, p: Pos)
    requires Bookkeeping(g, s) && StartsAtOrigin(g, s) && Least(s, p)
    ensures StartsAtOrigin(g, Settle(g, s, p))
  {
    WithoutKeepsOrderOrEmpties(s.pending, p);
    assert ORIGIN in s.pending ==> p == ORIGIN;
  }

  lemma {:induction false} WithoutKeepsOrderOrEmpties<T>(s: seq<T>, x: T)
    requires NoRepeats(s)
    ensures x !in Without(s, x)
  {
    if |s| > 1 { WithoutKeepsOrder(s, x); }
  }

  /** A cell that was reached and is settled before the goal is fewer steps away than there are cells, so one more
      step cannot overflow. */
  lemma {:induction false} RoomForOneMore(g: Grid, s: Search, p: Pos)
    requires |Cells(g.width, g.height)| <= INT_MAX && Bookkeeping(g, s) && Bounded(s)
    requires p in s.pending && p != g.Goal() && s.dist[p] < INT_MAX
    ensures Successor(s.dist[p]) == s.dist[p] + 1 <= |s.rank| + 1 < |Cells(g.width, g.height)|
  {
    hide NoRepeats, Cells;
    var i :| 0 <= i < |s.pending| && s.pending[i] == p;
    assert |s.pending| > 1;
  }

  lemma {:induction false} SettleKeepsBounded(g: Grid, s: Search, p: Pos)
    requires p in s.dist && p !in s.rank && (forall q :: q in s.rank ==> q !in s.pending)
    requires Bounded(s) && Successor(s.dist[p]) == s.dist[p] + 1 <= |s.rank| + 1 < INT_MAX
    ensures Bounded(Settle(g, s, p))
  {
    var s' := Settle(g, s, p);
    assert s'.rank.Keys == s.rank.Keys + {p};
    assert |s'.rank.Keys| == |s.rank| + 1;
  }

  lemma {:induction false} SettleKeepsPointersCount(g: Grid, s: Search, p: Pos)
    requires p in s.dist && ORIGIN in s.dist && PointersCount(s)
    requires forall q :: q in s.prev ==> s.prev[q] !in s.pending
    requires Successor(s.dist[p]) == s.dist[p] + 1 < INT_MAX
    ensures PointersCount(Settle(g, s, p))
  {
    var s' := Settle(g, s, p);
    forall q | q in s'.dist ensures s'.dist[q] < INT_MAX <==> q == ORIGIN || q in s'.prev {
      assert q in s'.prev <==> q in s.prev || Relaxes(g, s, p, q);
    }
    forall q | q in s'.prev && q in s'.dist ensures s'.prev[q] in s'.dist && s'.dist[s'.prev[q]] + 1 == s'.dist[q] {
      if Relaxes(g, s, p, q) {
        assert !Relaxes(g, s, p, p);
      } else {
        assert q in s.prev && !Relaxes(g, s, p, s.prev[q]);
      }
    }
  }

  lemma {:induction false} SettleKeepsTriangle(g: Grid, s: Search, p: Pos)
    requires |Cells(g.width, g.height)| <= INT_MAX && Bookkeeping(g, s) && Reckoned(g, s) && Least(s, p)
    requires p != g.Goal() && s.dist[p] < INT_MAX
    ensures Triangle(g, Settle(g, s, p))
  {
    RoomForOneMore(g, s, p);
    var s' := Settle(g, s, p);
    forall q, r | q in s'.rank && q in s'.dist && r in s'.dist && g.Passage(q, r)
      ensures s'.dist[r] <= s'.dist[q] + 1
    {
      assert !Relaxes(g, s, p, q);
      if q == p && r !in s.pending { assert r in s.rank; }
    }
  }

  lemma {:induction false} SettleKeepsOrder(g: Grid, s: Search, p: Pos)
    requires |Cells(g.width, g.height)| <= INT_MAX && Bookkeeping(g, s) && Reckoned(g, s) && Least(s, p)
    requires p != g.Goal() && s.dist[p] < INT_MAX
    ensures SettledFirst(Settle(g, s, p))
  {
    RoomForOneMore(g, s, p);
    var s' := Settle(g, s, p);
    forall q, r | q in s'.rank && q in s'.dist && r in s'.pending && r in s'.dist ensures s'.dist[q] <= s'.dist[r] {
      assert !Relaxes(g, s, p, q);
      assert r in s.pending;
    }
  }

  /** While the nearest cell of the open list is unreached, no path leads to any cell of the open list. */
  lemma {:induction false} NoPathIntoUnreached(g: Grid, s: Search, path: seq<Pos>, p: Pos)
    requires |Cells(g.width, g.height)| <= INT_MAX
    requires Bookkeeping(g, s) && StartsAtOrigin(g, s) && Reckoned(g, s)
    requires Least(s, p) && s.dist[p] == INT_MAX
    requires g.IsPath(path) && path[0] == ORIGIN
    ensures path[|path| - 1] in s.rank && s.dist[path[|path| - 1]] < INT_MAX
    decreases |path|
  {
    var q := path[|path| - 1];
    if |path| == 1 {
      assert q in s.dist;
    } else {
      var before := path[..|path| - 1];
      NoPathIntoUnreached(g, s, before, p);
      var u := path[|path| - 2];
      assert g.Passage(u, q);
      assert s.dist[q] <= s.dist[u] + 1 <= |s.rank| < INT_MAX;
    }
  }

  lemma {:induction false} UnreachedMeansUnreachable(g: Grid, s: Search, p: Pos)
    requires |Cells(g.width, g.height)| <= INT_MAX
    requires Bookkeeping(g, s) && StartsAtOrigin(g, s) && Reckoned(g, s)
    requires Least(s, p) && s.dist[p] == INT_MAX
    ensures !g.Reachable(g.Goal())
  {
    forall path | g.PathBetween(path, ORIGIN, g.Goal()) ensures false {
      NoPathIntoUnreached(g, s, path, p);
    }
  }

  /** Settling a nearest cell of the open list keeps the invariant. */
  lemma {:induction false} SettleInv(g: Grid, s: Search, p: Pos)
    requires Inv(g, s) && Least(s, p) && p != g.Goal()
    ensures Inv(g, Settle(g, s, p))
  {
    SettleKeepsBookkeeping(g, s, p);
    SettleKeepsPointers(g, s, p);
    SettleKeepsStart(g, s, p);
    if Reckoned(g, s) {
      if s.dist[p] < INT_MAX {
        RoomForOneMore(g, s, p);
        SettleKeepsBounded(g, s, p);
        SettleKeepsPointersCount(g, s, p);
        SettleKeepsTriangle(g, s, p);
        SettleKeepsOrder(g, s, p);
      } else {
        UnreachedMeansUnreachable(g, s, p);
      }
    }
  }

  // ----- runs

  /** The cells that have left the open list, in order. */
  datatype History = Begin(pending: seq<Pos>) | Then(before: History, settled: Pos)

  ghost function State(g: Grid, h: History): (s: Search)
    ensures s.dist.Keys == Cells(g.width, g.height)
  {
    match h
    case Begin(pending) => Fresh(g, pending)
    case Then(before, p) => if p in State(g, before).dist then Settle(g, State(g, before), p) else State(g, before)
  }

  /** A run of the solver's loop: each time a nearest cell leaves the list, and it is not the goal. */
  ghost predicate Legal(g: Grid, h: History) {
    match h
    case Begin(pending) => AllCells(g, pending) && Sorted(pending)
    case Then(before, p) => Legal(g, before) && Pick(g, State(g, before), p) && p != g.Goal()
  }

  /** p is the first, row by row, of the nearest cells in the open list. */
  ghost predicate Pick(g: Grid, s: Search, p: Pos) {
    && p in s.pending && p in s.dist
    && (forall q :: q in s.pending && q in s.dist ==> s.dist[p] <= s.dist[q])
    && (forall q :: q in s.pending && q in s.dist && q != p ==> s.dist[p] < s.dist[q] || Earlier(p, q))
  }

  /** p comes before q when the cells are taken row by row. */
  predicate Earlier(p: Pos, q: Pos) {
    p.y < q.y || (p.y == q.y && p.x < q.x)
  }

  ghost predicate Sorted(ps: seq<Pos>) {
    forall i, j :: 0 <= i < j < |ps| ==> Earlier(ps[i], ps[j])
  }

  lemma {:induction false} WithoutKeepsSorted(ps: seq<Pos>, p: Pos)
    requires Sorted(ps)
    ensures Sorted(Without(ps, p))
  {
    if ps != [] && ps[0] != p {
      WithoutKeepsSorted(ps[1..], p);
      assert forall q :: q in ps[1..] ==> Earlier(ps[0], q);
    }
  }

  lemma {:induction false} LegalInv(g: Grid, h: History)
    requires Legal(g, h)
    ensures Inv(g, State(g, h))
  {
    match h
    case Begin(pending) => FreshInv(g, pending);
    case Then(before, p) =>
      LegalInv(g, before);
      SettleInv(g, State(g, before), p);
  }

  /** What a run keeps about the open list. */
  ghost predicate Sound(g: Grid, s: Search) {
    && |s.pending| > 0 && s.pending[|s.pending| - 1] == g.Goal()
    && (forall p :: p in s.pending ==> g.Has(p))
    && Sorted(s.pending)
  }

  lemma {:induction false} LegalSound(g: Grid, h: History)
    requires Legal(g, h)
    ensures Sound(g, State(g, h))
  {
    LegalInv(g, h);
    LegalSorted(g, h);
    InvSound(g, State(g, h));
  }

  lemma {:induction false} InvSound(g: Grid, s: Search)
    requires Inv(g, s) && Sorted(s.pending)
    ensures Sound(g, s)
  {}

  lemma {:induction false} LegalSorted(g: Grid, h: History)
    requires Legal(g, h)
    ensures Sorted(State(g, h).pending)
  {
    match h
    case Begin(pending) =>
    case Then(before, p) =>
      LegalSorted(g, before);
      WithoutKeepsSorted(State(g, before).pending, p);
  }

  lemma {:induction false} LegalNext(g: Grid, h: History, p: Pos)
    requires Legal(g, h) && Pick(g, State(g, h), p) && p != g.Goal()
    ensures Legal(g, Then(h, p)) && State(g, Then(h, p)) == Settle(g, State(g, h), p)
    ensures p !in Without(State(g, h).pending, p)
    ensures |Settle(g, State(g, h), p).pending| == |State(g, h).pending| - 1
  {
    LegalInv(g, h);
    WithoutKeepsOrderOrEmpties(State(g, h).pending, p);
  }

  // ----- the answer

  /** The cells met by following the prev pointers from p. */
  ghost function Chain(g: Grid, s: Search, p: Pos): (c: seq<Pos>)
    requires Bookkeeping(g, s) && PointersBack(g, s) && g.Has(p)
    ensures |c| > 0 && c[0] == p && c[|c| - 1] !in s.prev
    ensures forall i :: 0 <= i < |c| ==> g.Has(c[i])
    ensures forall i :: 0 <= i < |c| - 1 ==> c[i] in s.prev && c[i + 1] == s.prev[c[i]]
    ensures forall i :: 0 < i < |c| ==> c[i] in s.rank && (p in s.rank ==> s.rank[c[i]] < s.rank[p])
    ensures NoRepeats(c)
    decreases if p in s.rank then s.rank[p] else |s.rank|
  {
    if p in s.prev then [p] + Chain(g, s, s.prev[p]) else [p]
  }

  /** Along the prev pointers dist falls by exactly one per hop, down to zero at the start. */
  lemma {:induction false} ChainCountsDown(g: Grid, s: Search, p: Pos)
    requires Bookkeeping(g, s) && PointersBack(g, s) && StartsAtOrigin(g, s) && Reckoned(g, s)
    requires g.Has(p) && s.dist[p] < INT_MAX
    ensures var c := Chain(g, s, p);
      c[|c| - 1] == ORIGIN && |c| == s.dist[p] + 1 && forall i :: 0 <= i < |c| ==> s.dist[c[i]] == s.dist[p] - i
    decreases s.dist[p]
  {
    if p in s.prev { ChainCountsDown(g, s, s.prev[p]); }
  }

  lemma {:induction false} ChainIsPath(g: Grid, s: Search, p: Pos)
    requires Bookkeeping(g, s) && PointersBack(g, s) && g.Has(p)
    ensures var c := Chain(g, s, p); g.PathBetween(Reverse(c), c[|c| - 1], p)
  {
    var c := Chain(g, s, p);
    var r := Reverse(c);
    forall i | 0 <= i < |r| - 1 ensures g.Passage(r[i], r[i + 1]) {
      assert c[|c| - 1 - i] == s.prev[c[|c| - 2 - i]];
    }
  }

  /** No path beats a settled distance, nor the nearest of the open list. */
  lemma {:induction false} NoShorterPath(g: Grid, s: Search, path: seq<Pos>, p: Pos)
    requires Bookkeeping(g, s) && StartsAtOrigin(g, s) && Reckoned(g, s) && Least(s, p)
    requires g.IsPath(path) && path[0] == ORIGIN
    ensures s.dist[path[|path| - 1]] <= |path| - 1 || s.dist[p] <= |path| - 1
  {
    if |path| > 1 {
      NoShorterPath(g, s, path[..|path| - 1], p);
      var before := path[|path| - 2];
      assert g.Passage(before, path[|path| - 1]);
      if before !in s.pending { assert before in s.rank; }
    }
  }

  lemma {:induction false} ReckonedIsDistance(g: Grid, s: Search, p: Pos, q: Pos)
    requires Bookkeeping(g, s) && PointersBack(g, s) && StartsAtOrigin(g, s) && Reckoned(g, s) && Least(s, p)
    requires s.dist[p] < INT_MAX && (q == p || q in s.rank)
    ensures g.Distance(q, s.dist[q])
  {
    ChainCountsDown(g, s, q);
    ChainIsPath(g, s, q);
    assert g.PathBetween(Reverse(Chain(g, s, q)), ORIGIN, q);
    forall path | g.PathBetween(path, ORIGIN, q) ensures |path| >= s.dist[q] + 1 {
      NoShorterPath(g, s, path, p);
    }
  }

  /** When the goal is the nearest cell of the open list: following prev from it gives a simple path (from the
      goal back); the path ends at the start exactly when the goal can be reached, and then it is a shortest one
      and every distance settled so far is right. */
  lemma {:induction false} Answer(g: Grid, s: Search)
    requires Inv(g, s) && Least(s, g.Goal())
    ensures var c := Chain(g, s, g.Goal());
      && g.PathBetween(Reverse(c), c[|c| - 1], g.Goal()) && NoRepeats(c)
      && (c[|c| - 1] == ORIGIN <==> g.Reachable(g.Goal()))
      && (g.Reachable(g.Goal()) ==>
            && g.Distance(g.Goal(), |c| - 1)
            && s.dist[g.Goal()] == |c| - 1
            && forall q :: q in s.rank ==> g.Distance(q, s.dist[q]))
  {
    var goal := g.Goal();
    ChainIsPath(g, s, goal);
    if g.Reachable(goal) {
      if s.dist[goal] == INT_MAX { UnreachedMeansUnreachable(g, s, goal); }
      ChainCountsDown(g, s, goal);
      ReckonedIsDistance(g, s, goal, goal);
      forall q | q in s.rank ensures g.Distance(q, s.dist[q]) { ReckonedIsDistance(g, s, goal, q); }
    }
  }

  /** If the goal can be reached, no addition in the run overflows: the distance of a cell about to be settled is
      below the number of cells. */
  lemma {:induction false} NoOverflow(g: Grid, s: Search, p: Pos)
    requires Inv(g, s) && Least(s, p) && p != g.Goal() && g.Reachable(g.Goal())
    ensures 0 <= s.dist[p] < |Cells(g.width, g.height)| - 1
    ensures Successor(s.dist[p]) == s.dist[p] + 1
  {
    if s.dist[p] == INT_MAX { UnreachedMeansUnreachable(g, s, p); }
    RoomForOneMore(g, s, p);
  }

  /** c is a simple path read from the goal back. It starts at the maze's start exactly when the goal can be reached,
      and then no path is shorter. */
  ghost predicate Solves(g: Grid, c: seq<Pos>) {
    && |c| > 0
    && g.PathBetween(Reverse(c), c[|c| - 1], g.Goal()) && NoRepeats(c)
    && (c[|c| - 1] == ORIGIN <==> g.Reachable(g.Goal()))
    && (g.Reachable(g.Goal()) ==> g.Distance(g.Goal(), |c| - 1))
  }

  /** dist is right for the goal and for every cell that is no farther away. */
  ghost predicate RightUpToGoal(g: Grid, dist: map<Pos, int>) {
    && g.Goal() in dist && g.Distance(g.Goal(), dist[g.Goal()])
    && forall p, n :: g.Distance(p, n) && n <= dist[g.Goal()] ==> p in dist && dist[p] == n
  }

  lemma {:induction false} DistanceIsUnique(g: Grid, p: Pos, n: int, m: int)
    requires g.Distance(p, n) && g.Distance(p, m)
    ensures n == m
  {
    var s :| g.PathBetween(s, ORIGIN, p) && |s| == n + 1;
    var s' :| g.PathBetween(s', ORIGIN, p) && |s'| == m + 1;
  }

  lemma {:induction false} NearerIsSettled(g: Grid, s: Search, p: Pos, n: int)
    requires Bookkeeping(g, s) && PointersBack(g, s) && StartsAtOrigin(g, s) && Reckoned(g, s)
    requires Least(s, g.Goal()) && s.dist[g.Goal()] < INT_MAX && g.Distance(p, n) && n < s.dist[g.Goal()]
    ensures p in s.rank && p in s.dist && s.dist[p] == n
  {
    var path :| g.PathBetween(path, ORIGIN, p) && |path| == n + 1;
    NoShorterPath(g, s, path, g.Goal());
    assert p in s.rank;
    ReckonedIsDistance(g, s, g.Goal(), p);
    DistanceIsUnique(g, p, n, s.dist[p]);
  }

  /** The cell before p on a shortest path is one step nearer. */
  lemma {:induction false} CellBefore(g: Grid, p: Pos, n: int) returns (u: Pos)
    requires g.Distance(p, n) && n > 0
    ensures g.Distance(u, n - 1) && g.Passage(u, p)
  {
    var path :| g.PathBetween(path, ORIGIN, p) && |path| == n + 1;
    u := path[n - 1];
    assert g.Passage(path[n - 1], path[n]);
    assert g.PathBetween(path[..n], ORIGIN, u);
    forall s | g.PathBetween(s, ORIGIN, u) ensures |s| >= n {
      assert g.PathBetween(s + [p], ORIGIN, p);
    }
  }

  /** Cells as far away as the goal need not be settled yet, but their distances are right. */
  lemma {:induction false} AsFarIsRight(g: Grid, s: Search, p: Pos)
    requires Bookkeeping(g, s) && PointersBack(g, s) && StartsAtOrigin(g, s) && Reckoned(g, s)
    requires Least(s, g.Goal()) && s.dist[g.Goal()] < INT_MAX && g.Distance(p, s.dist[g.Goal()])
    ensures p in s.dist && s.dist[p] == s.dist[g.Goal()]
  {
    var n := s.dist[g.Goal()];
    var path :| g.PathBetween(path, ORIGIN, p) && |path| == n + 1;
    if n > 0 {
      var u := CellBefore(g, p, n);
      NearerIsSettled(g, s, u, n - 1);
      assert g.Passage(u, p);
    }
    ChainCountsDown(g, s, p);
    ChainIsPath(g, s, p);
  }

  lemma {:induction false} SearchSolves(g: Grid, s: Search)
    requires Inv(g, s) && Least(s, g.Goal())
    ensures Solves(g, Chain(g, s, g.Goal()))
    ensures g.Reachable(g.Goal()) ==> RightUpToGoal(g, s.dist)
  {
    Answer(g, s);
    if g.Reachable(g.Goal()) {
      if s.dist[g.Goal()] == INT_MAX { UnreachedMeansUnreachable(g, s, g.Goal()); }
      forall p, n | g.Distance(p, n) && n <= s.dist[g.Goal()] ensures p in s.dist && s.dist[p] == n {
        if n < s.dist[g.Goal()] { NearerIsSettled(g, s, p, n); } else { AsFarIsRight(g, s, p); }
      }
    }
  }

  /** When the goal is taken, every distance settled in the run is right, if the goal can be reached. */
  lemma {:induction false} LegalSettled(g: Grid, h: History)
    requires Legal(g, h) && Pick(g, State(g, h), g.Goal()) && g.Reachable(g.Goal())
    ensures forall q :: q in State(g, h).rank ==> q in State(g, h).dist && g.Distance(q, State(g, h).dist[q])
  {
    LegalInv(g, h);
    Answer(g, State(g, h));
  }

  /** At the end of every run. */
  lemma {:induction false} LegalAnswer(g: Grid, h: History) returns (c: seq<Pos>)
    requires Legal(g, h) && Pick(g, State(g, h), g.Goal())
    ensures Solves(g, c)
    ensures g.Reachable(g.Goal()) ==> RightUpToGoal(g, State(g, h).dist)
    ensures |c| > 0 && c[0] == g.Goal() && c[|c| - 1] !in State(g, h).prev && forall i :: 0 <= i < |c| ==> g.Has(c[i])
    ensures forall i :: 0 <= i < |c| - 1 ==> c[i] in State(g, h).prev && c[i + 1] == State(g, h).prev[c[i]]
  {
    LegalInv(g, h);
    hide Legal, State, Solves, RightUpToGoal, Reckoned;
    SearchSolves(g, State(g, h));
    c := Chain(g, State(g, h), g.Goal());
  }

  /** When the goal is cut off from the start the addition does overflow: here the start is walled in and the cell
      next to the goal, taken with dist == INT_MAX, tells the goal a distance of INT_MIN. */
  lemma CutOffOverflows()
    ensures var g := Grid(3, 1, {(Pos(1, 0), Right), (Pos(2, 0), Left)});
      var s := Settle(g, Fresh(g, [Pos(0, 0), Pos(1, 0), Pos(2, 0)]), Pos(0, 0));
      && !g.Reachable(g.Goal())
      && Least(s, Pos(1, 0)) && s.dist[Pos(1, 0)] == INT_MAX
      && Settle(g, s, Pos(1, 0)).dist[g.Goal()] == INT_MIN
  {
    var g := Grid(3, 1, {(Pos(1, 0), Right), (Pos(2, 0), Left)});
    forall path ensures !g.PathBetween(path, ORIGIN, g.Goal()) {
      if |path| > 1 && path[0] == ORIGIN { assert !g.Passage(path[0], path[1]); }
    }
    var s0 := Fresh(g, [Pos(0, 0), Pos(1, 0), Pos(2, 0)]);
    assert forall q :: q in s0.dist ==> !Relaxes(g, s0, Pos(0, 0), q);
    var s := Settle(g, s0, Pos(0, 0));
    assert s.pending == [Pos(1, 0), Pos(2, 0)];
    assert Relaxes(g, s, Pos(1, 0), Pos(2, 0));
  }
}
