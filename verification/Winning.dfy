/** The other side of collision: what it lets through. Every generated maze can be won. */
module Winning {
  import opened Grids
  import opened Trees
  import opened Carving
  import opened Movement

  // ----- the keys

  predicate Opposed(k: int, k': int) {
    (k == W_KEY && k' == S_KEY) || (k == S_KEY && k' == W_KEY) ||
    (k == A_KEY && k' == D_KEY) || (k == D_KEY && k' == A_KEY)
  }

  /** One key undoes what the opposite one did, as long as the player does not turn. */
  lemma WayBack(g: Grid, b: Body, e: Press, back: Press)
    requires Clear(g, b) && Opposed(e.key, back.key) && back.cos == e.cos && back.sin == e.sin
    requires Moved(g, b, e) != b
    ensures Moved(g, Moved(g, b, e), back) == b
  {
    assert Moved(g, b, e) == Target(b, e);
    assert Target(Target(b, e), back) == b;
  }

  function OppositeKey(k: int): int {
    if k == W_KEY then S_KEY else if k == S_KEY then W_KEY else if k == A_KEY then D_KEY else A_KEY
  }

  lemma OnlyKeysMove(g: Grid, b: Body, e: Press)
    requires Moved(g, b, e) != b
    ensures Opposed(e.key, OppositeKey(e.key))
  {}

  /** What presses lead to depends on where the player stands, not on how it came there. */
  lemma {:induction false} SameFromHere(g: Grid, es: seq<Press>, es': seq<Press>, fs: seq<Press>)
    requires After(g, es) == After(g, es')
    ensures After(g, es + fs) == After(g, es' + fs)
  {
    hide Moved;
    if fs == [] {
      assert es + fs == es && es' + fs == es';
    } else {
      var before := fs[..|fs| - 1];
      SameFromHere(g, es, es', before);
      assert (es + fs)[..|es + fs| - 1] == es + before && (es' + fs)[..|es' + fs| - 1] == es' + before;
    }
  }

  /** The player faces as at some press of es. */
  ghost predicate FacesAsIn(e: Press, es: seq<Press>) {
    exists j :: 0 <= j < |es| && es[j].cos == e.cos && es[j].sin == e.sin
  }

  lemma {:induction false} FacesAsInMore(e: Press, es: seq<Press>, f: Press)
    ensures FacesAsIn(e, es) ==> FacesAsIn(e, es + [f])
    ensures e.cos == f.cos && e.sin == f.sin ==> FacesAsIn(e, es + [f])
  {
    if FacesAsIn(e, es) {
      var j :| 0 <= j < |es| && es[j].cos == e.cos && es[j].sin == e.sin;
      assert (es + [f])[j] == es[j];
    }
    assert (es + [f])[|es|] == f;
  }

  /** From wherever it got to, the player can go back to the start: key by key, the last one first, each time facing as
      on the way. */
  lemma {:induction false} UndoAll(g: Grid, es: seq<Press>) returns (fs: seq<Press>)
    requires g.width > 0 && g.height > 0
    ensures |fs| <= |es| && After(g, es + fs) == START && forall i :: 0 <= i < |fs| ==> FacesAsIn(fs[i], es)
  {
    hide Moved, Clear, FacesAsIn;
    if es == [] {
      fs := [];
    } else {
      var before, e := es[..|es| - 1], es[|es| - 1];
      var back := e.(key := OppositeKey(e.key));
      var rest := UndoAll(g, before);
      assert es == before + [e];
      forall i | 0 <= i < |rest| ensures FacesAsIn(rest[i], es) { FacesAsInMore(rest[i], before, e); }
      if After(g, es) == After(g, before) {
        SameFromHere(g, es, before, rest);
        fs := rest;
      } else {
        StaysClear(g, before);
        OnlyKeysMove(g, After(g, before), e);
        WayBack(g, After(g, before), e, back);
        assert (es + [back])[..|es|] == es;
        SameFromHere(g, es + [back], before, rest);
        assert es + [back] + rest == es + ([back] + rest);
        FacesAsInMore(back, before, e);
        fs := [back] + rest;
      }
    }
  }

  // ----- walking from cell to cell

  /** The player faces as at the start of the program, when it has not turned yet. */
  predicate Unturned(e: Press) {
    e.cos == 1.0 && e.sin == 0.0
  }

  /** The press that then moves to the side d. */
  function Sideways(d: Dir): (e: Press)
    ensures Unturned(e)
  {
    match d
    case Left => Press(S_KEY, 1.0, 0.0)
    case Right => Press(W_KEY, 1.0, 0.0)
    case Top => Press(A_KEY, 1.0, 0.0)
    case Bottom => Press(D_KEY, 1.0, 0.0)
  }

  /** W, facing the side d. */
  function Forward(d: Dir): Press {
    match d
    case Left => Press(0x11, -1.0, 0.0)
    case Right => Press(0x11, 1.0, 0.0)
    case Top => Press(0x11, 0.0, 1.0)
    case Bottom => Press(0x11, 0.0, -1.0)
  }

  /** A player gets to the side d either without turning or by turning there and going forward. */
  function PressFor(d: Dir, turning: bool): Press {
    if turning then Forward(d) else Sideways(d)
  }

  ghost predicate Plays(e: Press, turning: bool) {
    exists d :: e == PressFor(d, turning)
  }

  /** The point n tens of pixels from the middle of cell p towards side d. */
  function Towards(p: Pos, d: Dir, n: int): Pos {
    var x, y := p.x * SIZE + 50, p.y * SIZE + 50;
    match d
    case Left => Pos(x - 10 * n, y)
    case Right => Pos(x + 10 * n, y)
    case Top => Pos(x, y - 10 * n)
    case Bottom => Pos(x, y + 10 * n)
  }

  function BodyAt(q: Pos): Body {
    Body(q.x as real, q.y as real)
  }

  lemma InCell(g: Grid, c: Pos, x: int, y: int)
    requires g.Has(c) && c.x * SIZE <= x < c.x * SIZE + SIZE && c.y * SIZE <= y < c.y * SIZE + SIZE
    ensures CellAround(g, x, y) == Some(c)
  {}

  /** On the straight line between the middles of two cells joined by a passage nothing collides. */
  lemma LineIsClear(g: Grid, p: Pos, d: Dir, n: nat)
    requires g.Passage(p, Step(p, d)) && n <= 10
    ensures var q := Towards(p, d, n); !Collides(g, q.x, q.y, CLEARANCE)
  {
    hide CellAround;
    assert DirTo(p, Step(p, d)) == d;
    var q, o := Towards(p, d, n), Step(p, d);
    var early, middle, late := if n < 3 then p else o, if n < 5 then p else o, if n < 8 then p else o;
    match d
    case Right =>
      InCell(g, middle, q.x, q.y);
      InCell(g, middle, q.x, q.y - CLEARANCE);
      InCell(g, middle, q.x, q.y + CLEARANCE);
      InCell(g, late, q.x - CLEARANCE, q.y);
      InCell(g, early, q.x + CLEARANCE, q.y);
    case Left =>
      middle := if n < 6 then p else o;
      InCell(g, middle, q.x, q.y);
      InCell(g, middle, q.x, q.y - CLEARANCE);
      InCell(g, middle, q.x, q.y + CLEARANCE);
      InCell(g, early, q.x - CLEARANCE, q.y);
      InCell(g, late, q.x + CLEARANCE, q.y);
    case Bottom =>
      InCell(g, middle, q.x, q.y);
      InCell(g, middle, q.x - CLEARANCE, q.y);
      InCell(g, middle, q.x + CLEARANCE, q.y);
      InCell(g, late, q.x, q.y - CLEARANCE);
      InCell(g, early, q.x, q.y + CLEARANCE);
    case Top =>
      middle := if n < 6 then p else o;
      InCell(g, middle, q.x, q.y);
      InCell(g, middle, q.x - CLEARANCE, q.y);
      InCell(g, middle, q.x + CLEARANCE, q.y);
      InCell(g, early, q.x, q.y - CLEARANCE);
      InCell(g, late, q.x, q.y + CLEARANCE);
  }

  lemma OneStep(g: Grid, p: Pos, d: Dir, n: nat, turning: bool)
    requires g.Passage(p, Step(p, d)) && n < 10
    ensures Moved(g, BodyAt(Towards(p, d, n)), PressFor(d, turning)) == BodyAt(Towards(p, d, n + 1))
  {
    LineIsClear(g, p, d, n + 1);
    hide Collides;
    assert Target(BodyAt(Towards(p, d, n)), PressFor(d, turning)) == BodyAt(Towards(p, d, n + 1));
  }

  function Times(e: Press, n: nat): seq<Press> {
    if n == 0 then [] else Times(e, n - 1) + [e]
  }

  /** As many presses as there are tens of pixels lead from the middle of a cell towards the next. */
  lemma {:induction false} TowardsNext(g: Grid, es: seq<Press>, p: Pos, d: Dir, turning: bool, n: nat)
    requires g.Passage(p, Step(p, d)) && After(g, es) == BodyAt(Towards(p, d, 0)) && n <= 10
    ensures |Times(PressFor(d, turning), n)| == n
    ensures After(g, es + Times(PressFor(d, turning), n)) == BodyAt(Towards(p, d, n))
  {
    hide Moved;
    var e := PressFor(d, turning);
    if n == 0 {
      assert es + Times(e, 0) == es;
    } else {
      TowardsNext(g, es, p, d, turning, n - 1);
      AfterOne(g, es + Times(e, n - 1), e);
      OneStep(g, p, d, n - 1, turning);
      assert es + Times(e, n) == es + Times(e, n - 1) + [e];
    }
  }

  /** The way along the path s: ten presses from each cell to the next. */
  function Walk(s: seq<Pos>, turning: bool): seq<Press> {
    if |s| <= 1 then []
    else Walk(s[..|s| - 1], turning) + Times(PressFor(DirTo'(s[|s| - 2], s[|s| - 1]), turning), 10)
  }

  /** The middle of a cell does not depend on the side looked at, and ten steps lead to the next middle. */
  lemma MiddleReached(p: Pos, d: Dir, e: Dir)
    ensures Towards(p, d, 0) == Towards(p, e, 0) && Towards(p, d, 10) == Towards(Step(p, d), e, 0)
  {}

  /** Along every path that starts where the player starts, the player can walk: without turning, or with W alone,
      turning to face each next cell. */
  lemma {:induction false} WalkAlong(g: Grid, s: seq<Pos>, turning: bool)
    requires g.IsPath(s) && s[0] == ORIGIN
    ensures |Walk(s, turning)| == 10 * (|s| - 1)
    ensures After(g, Walk(s, turning)) == BodyAt(Towards(s[|s| - 1], Top, 0))
  {
    if |s| == 1 {
      AtStart(g);
    } else {
      var before, p, q := s[..|s| - 1], s[|s| - 2], s[|s| - 1];
      assert g.Passage(p, q) && Step(p, DirTo(p, q)) == q;
      MiddleReached(p, Top, DirTo(p, q));
      MiddleReached(p, DirTo(p, q), Top);
      hide After, Towards, BodyAt, PressFor, Times, Step;
      WalkAlong(g, before, turning);
      TowardsNext(g, Walk(before, turning), p, DirTo(p, q), turning, 10);
    }
  }

  lemma {:induction false} WalkPlays(s: seq<Pos>, turning: bool)
    ensures forall e :: e in Walk(s, turning) ==> Plays(e, turning)
  {
    if |s| > 1 {
      WalkPlays(s[..|s| - 1], turning);
      TimesPlay(PressFor(DirTo'(s[|s| - 2], s[|s| - 1]), turning), 10);
    }
  }

  lemma {:induction false} TimesPlay(e: Press, n: nat)
    ensures forall f :: f in Times(e, n) ==> f == e
  {
    if n > 0 { TimesPlay(e, n - 1); }
  }

  /** So on every maze whose goal can be reached, and on every generated maze, the game can be won without turning, and
      with W alone, and in ten presses for each step of the way. */
  lemma {:induction false} Winnable(g: Grid, n: int, turning: bool) returns (es: seq<Press>)
    requires g.Distance(g.Goal(), n)
    ensures |es| == 10 * n && (forall i :: 0 <= i < |es| ==> Plays(es[i], turning)) && Ended(g, After(g, es))
  {
    var s :| g.PathBetween(s, ORIGIN, g.Goal()) && |s| == n + 1;
    WalkAlong(g, s, turning);
    WalkPlays(s, turning);
    es := Walk(s, turning);
  }

  /** No run of presses leads into a trap: from wherever it leads, the game can still be won, facing only as on the way
      and as at the start. A player that has not turned need not turn. */
  lemma {:induction false} NeverTrapped(g: Grid, es: seq<Press>, n: int) returns (fs: seq<Press>)
    requires g.width > 0 && g.height > 0 && g.Distance(g.Goal(), n)
    ensures |fs| <= |es| + 10 * n && Ended(g, After(g, es + fs))
    ensures forall i :: 0 <= i < |fs| ==> Unturned(fs[i]) || FacesAsIn(fs[i], es)
    ensures (forall i :: 0 <= i < |es| ==> Unturned(es[i])) ==> forall i :: 0 <= i < |fs| ==> Unturned(fs[i])
  {
    hide Ended, After;
    var undo := UndoAll(g, es);
    var win := Winnable(g, n, false);
    AtStart(g);
    SameFromHere(g, es + undo, [], win);
    InParts(es, undo, win);
    fs := undo + win;
  }

  lemma AtStart(g: Grid)
    ensures After(g, []) == START
  {}

  lemma {:induction false} InParts(a: seq<Press>, b: seq<Press>, c: seq<Press>)
    ensures a + b + c == a + (b + c) && [] + c == c
  {}

  lemma {:induction false} CarvedIsWinnable(w: nat, h: nat, rand: nat -> nat, turning: bool) returns (es: seq<Press>)
    requires w > 0 && h > 0
    ensures forall i :: 0 <= i < |es| ==> Plays(es[i], turning)
    ensures Ended(CarvedGrid(w, h, rand), After(CarvedGrid(w, h, rand), es))
    ensures |es| <= 10 * (w * h - 1)
  {
    var g, t := CarvedGrid(w, h, rand), Carved(w, h, rand).tree;
    CarvedSpans(w, h, rand);
    DistanceIsDepth(g, t, g.Goal());
    assert g.Distance(g.Goal(), t.depth[g.Goal()]);
    es := Winnable(g, t.depth[g.Goal()], turning);
    DepthBelowCount(t, g.Goal());
    CellCount(w, h);
    assert t.depth.Keys == Cells(w, h);
  }

  lemma AtEighty(g: Grid)
    requires g.width == 2 && g.height == 1
    ensures BodyAt(Towards(ORIGIN, Right, 3)) == Body(80.0, 50.0)
    ensures Ended(g, Body(80.0, 50.0)) && Centre(Body(80.0, 50.0)) == Pos(0, 0)
  {}

  /** A player can win from outside the goal's cell: in the maze of two cells side by side, three presses of W do. */
  lemma {:induction false} WinOutsideGoal(rand: nat -> nat)
    ensures var g := CarvedGrid(2, 1, rand);
      var b := After(g, Times(Press(0x11, 1.0, 0.0), 3));
      b == Body(80.0, 50.0) && Ended(g, b) && Centre(b) == Pos(0, 0) && g.Goal() == Pos(1, 0)
  {
    var g := CarvedGrid(2, 1, rand);
    TwoCellsOpen(rand);
    AtEighty(g);
    AtStart(g);
    hide After, Ended, Centre;
    TowardsNext(g, [], ORIGIN, Right, false, 3);
    InParts([], [], Times(Press(0x11, 1.0, 0.0), 3));
  }

  /** A root path has no repeats, so it has no more cells than the tree. */
  lemma DepthBelowCount(t: Tree, p: Pos)
    requires t.Rooted() && p in t.depth
    ensures t.depth[p] < |t.depth.Keys|
  {
    var s := Ancestry(t, p);
    forall i, j | 0 <= i < j < |s| ensures s[i] != s[j] { assert t.depth[s[i]] > t.depth[s[j]]; }
    NoRepeatsSize(s);
    SubsetSize(Elements(s), t.depth.Keys);
  }

  lemma SubsetSize(a: set<Pos>, b: set<Pos>)
    requires a <= b
    ensures |a| <= |b|
  {
    assert b == a + (b - a);
  }
}
