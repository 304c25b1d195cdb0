/** When the solver adds one to INT_MAX, and when not. */
module Overflow {
  import opened Grids
  import opened ShortestPaths

  /** Settling p adds one to INT_MAX: p is unreached, and a neighbour in the open list is looked at. */
  ghost predicate AddsAtMax(g: Grid, s: Search, p: Pos)
    requires p in s.dist
  {
    s.dist[p] == INT_MAX && exists q :: g.Passage(p, q) && q in s.pending && q != p
  }

  /** It has happened in the run h. */
  ghost predicate Overflowed(g: Grid, h: History) {
    match h
    case Begin(_) => false
    case Then(before, p) => Overflowed(g, before) || (p in State(g, before).dist && AddsAtMax(g, State(g, before), p))
  }

  /** A cell that cannot be reached from the start is open to one on its right or below that cannot be reached. */
  ghost predicate CutOffPassage(g: Grid) {
    exists p, q :: CutOff(g, p, q)
  }

  ghost predicate CutOff(g: Grid, p: Pos, q: Pos) {
    g.Passage(p, q) && Earlier(p, q) && !g.Reachable(p) && !g.Reachable(q)
  }

  /** What holds of the distances in every state before an overflow. */
  ghost predicate Exact(g: Grid, s: Search) {
    && |Cells(g.width, g.height)| <= INT_MAX
    && Bookkeeping(g, s) && PointersBack(g, s) && StartsAtOrigin(g, s) && Reckoned(g, s)
  }

  lemma {:induction false} ReachedIsReachable(g: Grid, s: Search, p: Pos)
    requires Exact(g, s) && g.Has(p) && !g.Reachable(p)
    ensures s.dist[p] == INT_MAX
  {
    if s.dist[p] < INT_MAX {
      ChainCountsDown(g, s, p);
      ChainIsPath(g, s, p);
    }
  }

  lemma {:induction false} PendingIsUnreachable(g: Grid, s: Search, p: Pos, q: Pos)
    requires Exact(g, s) && Least(s, p) && s.dist[p] == INT_MAX && q in s.pending
    ensures !g.Reachable(q)
  {
    forall path | g.PathBetween(path, ORIGIN, q) ensures false {
      NoPathIntoUnreached(g, s, path, p);
    }
  }

  lemma {:induction false} NothingToRelax(g: Grid, s: Search, p: Pos, q: Pos)
    requires p in s.dist && q in s.dist && s.dist[p] == INT_MAX && !AddsAtMax(g, s, p)
    ensures !Relaxes(g, s, p, q)
  {}

  /** Settling an unreached cell with no neighbour to look at changes no distance. */
  lemma {:induction false} SettleQuietly(g: Grid, s: Search, p: Pos)
    requires p in s.dist && s.prev.Keys <= s.dist.Keys && s.dist[p] == INT_MAX && !AddsAtMax(g, s, p)
    ensures Settle(g, s, p).dist == s.dist && Settle(g, s, p).prev == s.prev
  {
    forall q | q in s.dist ensures !Relaxes(g, s, p, q) { NothingToRelax(g, s, p, q); }
  }

  lemma {:induction false} SettleKeepsExact(g: Grid, s: Search, p: Pos)
    requires Exact(g, s) && Least(s, p) && !AddsAtMax(g, s, p) && p != g.Goal()
    ensures Exact(g, Settle(g, s, p))
  {
    SettleKeepsBookkeeping(g, s, p);
    SettleKeepsPointers(g, s, p);
    SettleKeepsStart(g, s, p);
    if s.dist[p] < INT_MAX {
      RoomForOneMore(g, s, p);
      SettleKeepsBounded(g, s, p);
      SettleKeepsPointersCount(g, s, p);
      SettleKeepsTriangle(g, s, p);
      SettleKeepsOrder(g, s, p);
    } else {
      assert forall q :: q in s.prev ==> q in s.dist by { assert forall q :: q in s.prev ==> s.prev[q] in s.rank; }
      SettleQuietly(g, s, p);
      QuietIsReckoned(g, s, p);
    }
  }

  lemma {:induction false} QuietIsBounded(s: Search, p: Pos, s': Search)
    requires Bounded(s) && p !in s.rank && p in s.dist && s.dist[p] == INT_MAX
    requires s'.dist == s.dist && s'.rank == s.rank[p := |s.rank|]
    ensures Bounded(s')
  {
    assert s'.rank.Keys == s.rank.Keys + {p};
    assert |s'.rank.Keys| == |s.rank| + 1;
  }

  lemma {:induction false} QuietIsTriangle(g: Grid, s: Search, p: Pos, s': Search)
    requires Triangle(g, s) && Bounded(s) && p in s.dist && s.dist[p] == INT_MAX
    requires s'.dist == s.dist && s'.rank == s.rank[p := |s.rank|]
    ensures Triangle(g, s')
  {}

  lemma {:induction false} QuietIsSettledFirst(s: Search, p: Pos, s': Search)
    requires SettledFirst(s) && p in s.dist && forall q :: q in s.pending ==> q in s.dist && s.dist[p] <= s.dist[q]
    requires s'.dist == s.dist && s'.rank == s.rank[p := |s.rank|] && s'.pending == Without(s.pending, p)
    ensures SettledFirst(s')
  {}

  lemma {:induction false} QuietPointersCount(s: Search, s': Search)
    requires PointersCount(s) && s'.dist == s.dist && s'.prev == s.prev
    ensures PointersCount(s')
  {}

  lemma {:induction false} QuietIsReckoned(g: Grid, s: Search, p: Pos)
    requires s.dist.Keys == Cells(g.width, g.height) && Reckoned(g, s)
    requires p in s.dist && p !in s.rank && s.dist[p] == INT_MAX
    requires forall q :: q in s.pending ==> q in s.dist && s.dist[p] <= s.dist[q]
    requires Settle(g, s, p).dist == s.dist && Settle(g, s, p).prev == s.prev
    ensures Reckoned(g, Settle(g, s, p))
  {
    hide Bounded, Triangle, SettledFirst, PointersCount, Cells;
    var s' := Settle(g, s, p);
    QuietIsBounded(s, p, s');
    QuietPointersCount(s, s');
    QuietIsTriangle(g, s, p, s');
    QuietIsSettledFirst(s, p, s');
  }

  lemma {:induction false} ExactUntilOverflow(g: Grid, h: History)
    requires Legal(g, h) && !Overflowed(g, h)
    ensures Exact(g, State(g, h))
  {
    match h
    case Begin(pending) => FreshInv(g, pending);
    case Then(before, p) =>
      ExactUntilOverflow(g, before);
      SettleKeepsExact(g, State(g, before), p);
  }

  lemma {:induction false} OverflowMeansCutOff(g: Grid, h: History)
    requires Legal(g, h) && Overflowed(g, h)
    ensures !g.Reachable(g.Goal()) && CutOffPassage(g)
  {
    var before, p := h.before, h.settled;
    if Overflowed(g, before) {
      OverflowMeansCutOff(g, before);
    } else {
      var s := State(g, before);
      ExactUntilOverflow(g, before);
      var q :| g.Passage(p, q) && q in s.pending && q != p;
      PendingIsUnreachable(g, s, p, p);
      PendingIsUnreachable(g, s, p, q);
      UnreachedMeansUnreachable(g, s, p);
      assert CutOff(g, p, q);
    }
  }

  /** As long as nothing overflows, both ends of such a passage stay in the open list: the later one cannot leave it
      first, and the earlier one cannot leave it without overflow. */
  lemma {:induction false} CutOffStays(g: Grid, h: History, p: Pos, q: Pos)
    requires Legal(g, h) && !Overflowed(g, h) && CutOff(g, p, q)
    ensures p in State(g, h).pending && q in State(g, h).pending
  {
    match h
    case Begin(pending) =>
    case Then(before, r) =>
      var s := State(g, before);
      CutOffStays(g, before, p, q);
      ExactUntilOverflow(g, before);
      ReachedIsReachable(g, s, p);
      ReachedIsReachable(g, s, q);
      assert r != p && r != q;
  }

  lemma GoalIsLatest(g: Grid, p: Pos, q: Pos)
    requires g.Has(p) && g.Has(q) && Earlier(p, q)
    ensures p != g.Goal() && !Earlier(g.Goal(), p)
  {}

  /** A whole run of the solver - up to taking the goal - adds one to INT_MAX if and only if the goal cannot be reached
      and somewhere a passage joins two cells that cannot be reached either. */
  lemma {:induction false} OverflowExactly(g: Grid, h: History)
    requires Legal(g, h) && Pick(g, State(g, h), g.Goal())
    ensures Overflowed(g, h) <==> !g.Reachable(g.Goal()) && CutOffPassage(g)
  {
    if Overflowed(g, h) {
      OverflowMeansCutOff(g, h);
    } else if !g.Reachable(g.Goal()) && CutOffPassage(g) {
      var p, q :| CutOff(g, p, q);
      GoalIsLatest(g, p, q);
      CutOffStays(g, h, p, q);
      ExactUntilOverflow(g, h);
      ReachedIsReachable(g, State(g, h), g.Goal());
      assert false;
    }
  }
}
