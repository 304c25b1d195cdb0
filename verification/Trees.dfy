/** Rooted trees over cells, and what a grid whose passages are the links of such a tree is like:
    between any two cells there is exactly one simple path. */
module Trees {
  import opened Grids

  datatype Tree = Tree(parent: map<Pos, Pos>, depth: map<Pos, nat>) {

    ghost predicate Rooted() {
      && ORIGIN in depth
      && depth[ORIGIN] == 0
      && parent.Keys == depth.Keys - {ORIGIN}
      && (forall p {:trigger parent[p]} :: p in parent ==> parent[p] in depth && depth[p] == depth[parent[p]] + 1)
      && (forall p {:trigger parent[p]} :: p in parent ==> Adjacent(p, parent[p]))
    }

    predicate ParentOf(q: Pos, p: Pos) {
      p in parent && parent[p] == q
    }

    predicate Linked(p: Pos, q: Pos) {
      ParentOf(p, q) || ParentOf(q, p)
    }

    /** p lies in the subtree that hangs from c. */
    ghost predicate Under(c: Pos, p: Pos)
      requires Rooted() && p in depth
      decreases depth[p]
    {
      p == c || (p in parent && Under(c, parent[p]))
    }

    /** The child of a above (or at) b. */
    ghost function ChildTowards(a: Pos, b: Pos): (c: Pos)
      requires Rooted() && a in depth && b in depth && Under(a, b) && a != b
      ensures ParentOf(a, c) && Under(c, b)
      decreases depth[b]
    {
      if parent[b] == a then b else ChildTowards(a, parent[b])
    }

    /** The first step of the way from a to b. */
    ghost function Hop(a: Pos, b: Pos): (c: Pos)
      requires Rooted() && a in depth && b in depth && a != b
      ensures Linked(a, c) && c in depth
    {
      if Under(a, b) then ChildTowards(a, b)
      else
        RootAbove(b);
        parent[a]
    }

    lemma {:induction false} RootAbove(p: Pos)
      requires Rooted() && p in depth
      ensures Under(ORIGIN, p)
      decreases depth[p]
    {
      if p in parent { RootAbove(parent[p]); }
    }

    lemma OnlyRootAtZero(p: Pos)
      requires Rooted() && p in depth
      ensures p in parent ==> depth[p] > 0
      ensures depth[p] == 0 ==> p == ORIGIN
    {
      if p in parent { assert parent[p] in depth; }
    }

    lemma {:induction false} UnderIsDeeper(c: Pos, p: Pos)
      requires Rooted() && p in depth && c in depth && Under(c, p)
      ensures depth[c] <= depth[p] && (depth[c] == depth[p] ==> c == p)
      decreases depth[p]
    {
      if p != c { UnderIsDeeper(c, parent[p]); }
    }

    /** Only the link between c and its parent leads into or out of the subtree of c. */
    lemma LinkKeepsSubtree(c: Pos, u: Pos, v: Pos)
      requires Rooted() && c in depth && u in depth && v in depth && Linked(u, v)
      requires !(u == c && ParentOf(v, c)) && !(v == c && ParentOf(u, c))
      ensures Under(c, u) == Under(c, v)
    {
      if ParentOf(v, u) {
        assert Under(c, u) == (u == c || Under(c, v));
      } else {
        assert Under(c, v) == (v == c || Under(c, u));
      }
    }
  }

  /** The passages of the grid are exactly the links of the tree, and the tree holds every cell. */
  ghost predicate Spans(t: Tree, g: Grid) {
    && t.Rooted()
    && t.depth.Keys == Cells(g.width, g.height)
    && (forall p, q :: g.Passage(p, q) <==> t.Linked(p, q))
  }

  /** A walk that starts on one side of the link above c and ends on the other goes through it, so through c
      and through the parent of c. */
  lemma {:induction false} CrossingVisits(g: Grid, t: Tree, s: seq<Pos>, c: Pos)
    requires Spans(t, g) && g.IsWalk(s) && c in t.depth
    requires t.Under(c, s[0]) != t.Under(c, s[|s| - 1])
    ensures c in s && c in t.parent && t.parent[c] in s
  {
    if t.Under(c, s[0]) == t.Under(c, s[1]) {
      CrossingVisits(g, t, s[1..], c);
    } else if !(s[0] == c && t.ParentOf(s[1], c)) && !(s[1] == c && t.ParentOf(s[0], c)) {
      assert g.Passage(s[0], s[1]);
      t.LinkKeepsSubtree(c, s[0], s[1]);
    }
  }

  lemma {:induction false} ChildIsUnique(t: Tree, a: Pos, c: Pos, b: Pos)
    requires t.Rooted() && b in t.depth && c in t.depth && t.ParentOf(a, c) && t.Under(c, b)
    ensures t.Under(a, b) && a != b && t.ChildTowards(a, b) == c
    decreases t.depth[b]
  {
    if b == c {
      assert t.Under(a, a);
    } else {
      ChildIsUnique(t, a, c, t.parent[b]);
      if t.parent[b] == a { t.UnderIsDeeper(c, a); }
      if a == b { t.UnderIsDeeper(c, b); }
    }
  }

  /** A simple path has no choice for its second cell. */
  lemma {:induction false} SimplePathHops(g: Grid, t: Tree, s: seq<Pos>)
    requires Spans(t, g) && g.IsPath(s) && NoRepeats(s) && |s| > 1
    ensures s[0] != s[|s| - 1] && s[1] == t.Hop(s[0], s[|s| - 1])
  {
    var a, b, c, rest := s[0], s[|s| - 1], s[1], s[1..];
    assert g.Passage(a, c);
    assert a !in rest;
    assert rest[|rest| - 1] == b;
    if t.ParentOf(a, c) {
      if !t.Under(c, b) { CrossingVisits(g, t, rest, c); }
      ChildIsUnique(t, a, c, b);
    } else {
      if t.Under(a, c) { t.UnderIsDeeper(a, c); }
      if t.Under(a, b) { CrossingVisits(g, t, rest, a); }
    }
  }

  lemma {:induction false} SimplePathUnique(g: Grid, t: Tree, s: seq<Pos>, s': seq<Pos>, a: Pos, b: Pos)
    requires Spans(t, g)
    requires g.PathBetween(s, a, b) && NoRepeats(s) && g.PathBetween(s', a, b) && NoRepeats(s')
    ensures s == s'
  {
    if |s| > 1 { SimplePathHops(g, t, s); }
    if |s'| > 1 { SimplePathHops(g, t, s'); }
    if |s| > 1 && |s'| > 1 {
      SimplePathUnique(g, t, s[1..], s'[1..], s[1], b);
      assert s == [a] + s[1..] == [a] + s'[1..] == s';
    }
  }

  /** Steps left on the way from a to b: never too small, and smaller after each hop. */
  ghost function Remaining(t: Tree, a: Pos, b: Pos): nat
    requires t.Rooted() && a in t.depth && b in t.depth
  {
    if t.Under(a, b) then
      t.UnderIsDeeper(a, b);
      t.depth[b] - t.depth[a]
    else t.depth[a] + t.depth[b] + 1
  }

  lemma HopShrinks(t: Tree, a: Pos, b: Pos)
    requires t.Rooted() && a in t.depth && b in t.depth && a != b
    ensures Remaining(t, t.Hop(a, b), b) < Remaining(t, a, b)
  {
    t.RootAbove(b);
    var c := t.Hop(a, b);
    if t.Under(c, b) { t.UnderIsDeeper(c, b); }
    if t.Under(a, b) { t.UnderIsDeeper(a, b); }
  }

  ghost function Way(t: Tree, a: Pos, b: Pos): (s: seq<Pos>)
    requires t.Rooted() && a in t.depth && b in t.depth
    ensures |s| > 0 && s[0] == a && s[|s| - 1] == b
    ensures forall i :: 0 <= i < |s| ==> s[i] in t.depth
    ensures forall i :: 0 <= i < |s| - 1 ==> t.Linked(s[i], s[i + 1])
    ensures forall i :: 0 <= i < |s| ==> Remaining(t, s[i], b) <= Remaining(t, a, b)
    ensures NoRepeats(s)
    decreases Remaining(t, a, b)
  {
    if a == b then [a]
    else
      HopShrinks(t, a, b);
      var c := t.Hop(a, b);
      [a] + Way(t, c, b)
  }

  /** A grid whose passages form a tree has exactly one simple path between any two cells. */
  lemma SpannedIsPerfect(g: Grid, t: Tree)
    requires Spans(t, g)
    ensures g.Perfect()
  {
    forall a, b | g.Has(a) && g.Has(b)
      ensures exists s :: g.PathBetween(s, a, b) && NoRepeats(s)
    {
      var s := Way(t, a, b);
      forall i | 0 <= i < |s| - 1 ensures g.Passage(s[i], s[i + 1]) {
        assert t.Linked(s[i], s[i + 1]);
      }
      assert g.PathBetween(s, a, b);
    }
    forall a, b, s, s' | g.PathBetween(s, a, b) && NoRepeats(s) && g.PathBetween(s', a, b) && NoRepeats(s')
      ensures s == s'
    {
      SimplePathUnique(g, t, s, s', a, b);
    }
  }

  /** The cells from p up to the root. */
  ghost function Ancestry(t: Tree, p: Pos): (s: seq<Pos>)
    requires t.Rooted() && p in t.depth
    ensures |s| == t.depth[p] + 1 && s[0] == p && s[|s| - 1] == ORIGIN
    ensures forall i :: 0 <= i < |s| ==> s[i] in t.depth && t.depth[s[i]] == t.depth[p] - i && t.Under(s[i], p)
    ensures forall i :: 0 <= i < |s| - 1 ==> t.ParentOf(s[i + 1], s[i])
    decreases t.depth[p]
  {
    if p in t.parent then
      var up := Ancestry(t, t.parent[p]);
      assert forall i :: 0 <= i < |up| ==> t.Under(up[i], t.parent[p]) ==> t.Under(up[i], p);
      [p] + up
    else [p]
  }

  /** A walk changes depth by one per step. */
  lemma {:induction false} DepthAlongPath(g: Grid, t: Tree, s: seq<Pos>)
    requires Spans(t, g) && g.IsPath(s)
    ensures -|s| < t.depth[s[0]] as int - t.depth[s[|s| - 1]] < |s|
  {
    if |s| > 1 {
      assert g.Passage(s[0], s[1]);
      DepthAlongPath(g, t, s[1..]);
    }
  }

  /** In a tree the distance from the start is the depth. */
  lemma DistanceIsDepth(g: Grid, t: Tree, p: Pos)
    requires Spans(t, g) && g.Has(p)
    ensures forall n :: g.Distance(p, n) <==> n == t.depth[p]
  {
    var s := Reverse(Ancestry(t, p));
    forall i | 0 <= i < |s| - 1 ensures g.Passage(s[i], s[i + 1]) {
      assert t.ParentOf(s[i], s[i + 1]);
    }
    assert g.PathBetween(s, ORIGIN, p) && |s| == t.depth[p] + 1;
    forall s' | g.PathBetween(s', ORIGIN, p) ensures |s'| >= t.depth[p] + 1 {
      DepthAlongPath(g, t, s');
    }
  }

  /** No four cells around a corner are joined all round. */
  lemma NoBlock(g: Grid, t: Tree, p: Pos, q: Pos, r: Pos, u: Pos)
    requires Spans(t, g) && p != u && q != r
    ensures !(g.Passage(p, q) && g.Passage(q, u) && g.Passage(p, r) && g.Passage(r, u))
  {}
}
