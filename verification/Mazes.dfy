/** What the generator and the solver give together. */
module Mazes {
  import opened Grids
  import opened Trees
  import opened Carving
  import opened ShortestPaths
  import opened Overflow

  /** On a generated maze the solver's list is the way up the generator's tree, which is the only simple path between
      start and goal; and the distances it settles are depths in that tree. */
  lemma {:induction false} SolvingWhatWasCarved(w: nat, h: nat, rand: nat -> nat, c: seq<Pos>, dist: map<Pos, int>)
    requires w > 0 && h > 0 && Solves(CarvedGrid(w, h, rand), c)
    requires CarvedGrid(w, h, rand).Reachable(Pos(w - 1, h - 1)) ==> RightUpToGoal(CarvedGrid(w, h, rand), dist)
    ensures c[0] == Pos(w - 1, h - 1) && c[|c| - 1] == ORIGIN
    ensures forall s :: CarvedGrid(w, h, rand).PathBetween(s, Pos(w - 1, h - 1), ORIGIN) && NoRepeats(s) ==> s == c
    ensures var t := Carved(w, h, rand).tree;
      && t.Rooted() && t.depth.Keys == Cells(w, h)
      && c == Ancestry(t, Pos(w - 1, h - 1))
      && (forall p :: p in t.depth && t.depth[p] <= t.depth[Pos(w - 1, h - 1)] ==>
            p in dist && dist[p] == t.depth[p])
  {
    var g, t, goal := CarvedGrid(w, h, rand), Carved(w, h, rand).tree, Pos(w - 1, h - 1);
    CarvedSpans(w, h, rand);
    SolvedIsAncestry(g, t, c);
    forall s | g.PathBetween(s, goal, ORIGIN) && NoRepeats(s) ensures s == c {
      SimplePathUnique(g, t, s, c, goal, ORIGIN);
    }
    forall p | p in t.depth && t.depth[p] <= t.depth[goal] ensures p in dist && dist[p] == t.depth[p] {
      DistanceIsDepth(g, t, p);
      DistanceIsDepth(g, t, goal);
      DistanceIsUnique(g, goal, t.depth[goal], dist[goal]);
      assert g.Distance(p, t.depth[p]);
    }
  }

  /** Every cell that any run of the solver settles before it takes the goal has its depth in the tree for distance. */
  lemma {:induction false} SettledIsDepth(w: nat, h: nat, rand: nat -> nat, run: History, q: Pos)
    requires w > 0 && h > 0 && Legal(CarvedGrid(w, h, rand), run)
    requires Pick(CarvedGrid(w, h, rand), State(CarvedGrid(w, h, rand), run), Pos(w - 1, h - 1))
    requires q in State(CarvedGrid(w, h, rand), run).rank
    ensures var s := State(CarvedGrid(w, h, rand), run); var t := Carved(w, h, rand).tree;
      q in s.dist && q in t.depth && s.dist[q] == t.depth[q]
  {
    var g, t := CarvedGrid(w, h, rand), Carved(w, h, rand).tree;
    CarvedSpans(w, h, rand);
    DistanceIsDepth(g, t, g.Goal());
    assert g.Distance(g.Goal(), t.depth[g.Goal()]);
    LegalSettled(g, run);
    DistanceIsDepth(g, t, q);
  }

  /** No run of the solver on a generated maze overflows. */
  lemma {:induction false} CarvedNeverOverflows(w: nat, h: nat, rand: nat -> nat, run: History)
    requires w > 0 && h > 0 && Legal(CarvedGrid(w, h, rand), run)
    ensures !Overflowed(CarvedGrid(w, h, rand), run)
  {
    var g, t := CarvedGrid(w, h, rand), Carved(w, h, rand).tree;
    CarvedSpans(w, h, rand);
    DistanceIsDepth(g, t, g.Goal());
    assert g.Distance(g.Goal(), t.depth[g.Goal()]);
    if Overflowed(g, run) { OverflowMeansCutOff(g, run); }
  }

  lemma {:induction false} SolvedIsAncestry(g: Grid, t: Tree, c: seq<Pos>)
    requires Spans(t, g) && Solves(g, c)
    ensures g.Goal() in t.depth && c == Ancestry(t, g.Goal())
    ensures g.Reachable(g.Goal()) && g.PathBetween(c, g.Goal(), ORIGIN)
  {
    var up := Ancestry(t, g.Goal());
    DistanceIsDepth(g, t, g.Goal());
    assert g.Distance(g.Goal(), t.depth[g.Goal()]);
    var r := Reverse(c);
    forall i | 0 <= i < |c| - 1 ensures g.Passage(c[i], c[i + 1]) {
      assert g.Passage(r[|c| - 2 - i], r[|c| - 1 - i]);
      assert t.Linked(c[i], c[i + 1]);
    }
    forall i | 0 <= i < |up| - 1 ensures g.Passage(up[i], up[i + 1]) {
      assert t.ParentOf(up[i + 1], up[i]);
    }
    assert NoRepeats(up) by {
      forall i, j | 0 <= i < j < |up| ensures up[i] != up[j] { assert t.depth[up[i]] > t.depth[up[j]]; }
    }
    forall i | 0 <= i < |c| ensures g.Has(c[i]) { assert g.Has(r[|c| - 1 - i]); }
    SimplePathUnique(g, t, c, up, g.Goal(), ORIGIN);
  }
}
