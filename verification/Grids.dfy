/** The maze as a value: a rectangle of cells and the walls that have been removed from it. */
module Grids {

  datatype Option<+T> = None | Some(value: T)

  datatype Pos = Pos(x: int, y: int)

  datatype Dir = Left | Right | Top | Bottom

  const ORIGIN := Pos(0, 0)

  function Step(p: Pos, d: Dir): Pos {
    match d
    case Left => Pos(p.x - 1, p.y)
    case Right => Pos(p.x + 1, p.y)
    case Top => Pos(p.x, p.y - 1)
    case Bottom => Pos(p.x, p.y + 1)
  }

  function Opposite(d: Dir): Dir {
    match d
    case Left => Right
    case Right => Left
    case Top => Bottom
    case Bottom => Top
  }

  predicate Adjacent(p: Pos, q: Pos) {
    (p.y == q.y && (q.x == p.x - 1 || q.x == p.x + 1)) ||
    (p.x == q.x && (q.y == p.y - 1 || q.y == p.y + 1))
  }

  /** The side of p on which the adjacent cell q lies. */
  function DirTo(p: Pos, q: Pos): (d: Dir)
    requires Adjacent(p, q)
    ensures Step(p, d) == q && DirTo'(q, p) == Opposite(d)
  {
    DirTo'(p, q)
  }

  function DirTo'(p: Pos, q: Pos): Dir {
    if q.x == p.x - 1 then Left
    else if q.x == p.x + 1 then Right
    else if q.y == p.y - 1 then Top
    else Bottom
  }

  predicate InGrid(w: nat, h: nat, p: Pos) {
    0 <= p.x < w && 0 <= p.y < h
  }

  /** The test for a neighbour on side d of a cell of the grid. */
  predicate Inside(w: nat, h: nat, p: Pos, d: Dir)
    ensures InGrid(w, h, p) ==> (Inside(w, h, p, d) <==> InGrid(w, h, Step(p, d)))
  {
    match d
    case Left => p.x > 0
    case Right => p.x < w - 1
    case Top => p.y > 0
    case Bottom => p.y < h - 1
  }

  ghost function Cells(w: nat, h: nat): (s: set<Pos>)
    ensures forall p :: p in s <==> InGrid(w, h, p)
  {
    set x, y | 0 <= x < w && 0 <= y < h :: Pos(x, y)
  }

  ghost function Row(w: nat, y: int): set<Pos> {
    set x | 0 <= x < w :: Pos(x, y)
  }

  lemma {:induction false} RowSize(w: nat, y: int)
    ensures |Row(w, y)| == w
  {
    if w == 0 {
      assert Row(w, y) == {};
    } else {
      RowSize(w - 1, y);
      assert Row(w, y) == Row(w - 1, y) + {Pos(w - 1, y)};
    }
  }

  lemma {:induction false} CellCount(w: nat, h: nat)
    ensures |Cells(w, h)| == w * h
  {
    if h == 0 {
      assert Cells(w, h) == {};
    } else {
      CellCount(w, h - 1);
      RowSize(w, h - 1);
      assert Cells(w, h) == Cells(w, h - 1) + Row(w, h - 1);
      assert Cells(w, h - 1) !! Row(w, h - 1);
      assert w * h == w * (h - 1) + w;
    }
  }

  /** (p, d) is in `open` when cell p no longer has its wall on side d. */
  datatype Grid = Grid(width: nat, height: nat, open: set<(Pos, Dir)>) {

    predicate Has(p: Pos) {
      InGrid(width, height, p)
    }

    /** One can step from p to q: they are neighbours in the grid and p has no wall towards q. */
    predicate Passage(p: Pos, q: Pos) {
      Has(p) && Has(q) && Adjacent(p, q) && (p, DirTo(p, q)) in open
    }

    function Goal(): Pos {
      Pos(width - 1, height - 1)
    }

    /** The two cells on either side of an inner wall agree on whether it stands. */
    ghost predicate Agrees() {
      forall p, d {:trigger Step(p, d)} :: Has(p) && Has(Step(p, d)) ==>
        ((p, d) in open <==> (Step(p, d), Opposite(d)) in open)
    }

    /** No outer wall has been removed. */
    ghost predicate Enclosed() {
      forall e :: e in open ==> Has(e.0) && Has(Step(e.0, e.1))
    }

    /** Every removed wall, counted from one side only. */
    ghost function Passages(): set<(Pos, Dir)> {
      set e | e in open && (e.1 == Right || e.1 == Bottom)
    }

    ghost predicate IsPath(s: seq<Pos>) {
      && |s| > 0
      && (forall i :: 0 <= i < |s| ==> Has(s[i]))
      && (forall i :: 0 <= i < |s| - 1 ==> Passage(s[i], s[i + 1]))
    }

    /** Like a path, but it may also stay where it is. */
    ghost predicate IsWalk(s: seq<Pos>) {
      && |s| > 0
      && (forall i :: 0 <= i < |s| ==> Has(s[i]))
      && (forall i :: 0 <= i < |s| - 1 ==> s[i] == s[i + 1] || Passage(s[i], s[i + 1]))
    }

    ghost predicate PathBetween(s: seq<Pos>, a: Pos, b: Pos) {
      IsPath(s) && s[0] == a && s[|s| - 1] == b
    }

    ghost predicate Reachable(p: Pos) {
      exists s :: PathBetween(s, ORIGIN, p)
    }

    /** p is n steps from the start and no path to it is shorter. */
    ghost predicate Distance(p: Pos, n: int) {
      && (exists s :: PathBetween(s, ORIGIN, p) && |s| == n + 1)
      && (forall s :: PathBetween(s, ORIGIN, p) ==> |s| >= n + 1)
    }

    /** One simple path, and only one, joins every two cells. */
    ghost predicate Perfect() {
      forall a, b :: Has(a) && Has(b) ==>
        && (exists s :: PathBetween(s, a, b) && NoRepeats(s))
        && (forall s, s' :: PathBetween(s, a, b) && NoRepeats(s) && PathBetween(s', a, b) && NoRepeats(s') ==> s == s')
    }
  }

  /** s[i], or `none` where s has no such element. */
  ghost function ElementOr<T>(s: seq<T>, i: int, none: T): T {
    if 0 <= i < |s| then s[i] else none
  }

  ghost predicate NoRepeats<T>(s: seq<T>) {
    forall i, j :: 0 <= i < j < |s| ==> s[i] != s[j]
  }

  ghost function Elements<T(!new)>(s: seq<T>): (r: set<T>)
    ensures forall x :: x in r <==> x in s
  {
    set x | x in s
  }

  lemma {:induction false} NoRepeatsSize<T(!new)>(s: seq<T>)
    requires NoRepeats(s)
    ensures |Elements(s)| == |s|
  {
    if s != [] {
      var before := s[..|s| - 1];
      NoRepeatsSize(before);
      assert s == before + [s[|s| - 1]];
      assert Elements(s) == Elements(before) + {s[|s| - 1]};
    }
  }

  function Reverse<T>(s: seq<T>): (r: seq<T>)
    ensures |r| == |s|
    ensures forall i :: 0 <= i < |s| ==> r[i] == s[|s| - 1 - i]
  {
    seq(|s|, i requires 0 <= i < |s| => s[|s| - 1 - i])
  }
}
