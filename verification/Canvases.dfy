/** Drawing into a frame buffer, pixel by pixel. */
module Canvases {
  import opened Grids

  type Bytes = seq<int>

  /** A colour is a 32-bit word; these are its bytes, the lowest first. */
  type Color = c: Bytes | |c| == 4 witness [0, 0, 0, 0]

  /** A picture: what is stored of a colour for each point of the screen. */
  type Picture = map<Pos, Bytes>

  /** The picture m with the points of S painted over. */
  ghost function Paint(m: Picture, S: iset<Pos>, color: Bytes): (r: Picture)
    ensures r.Keys == m.Keys
    ensures forall p :: p in m ==> r[p] == if p in S then color else m[p]
  {
    map p | p in m :: if p in S then color else m[p]
  }

  lemma {:induction false} PaintTwice(m: Picture, S: iset<Pos>, T: iset<Pos>, color: Bytes)
    ensures Paint(Paint(m, S, color), T, color) == Paint(m, S + T, color)
  {}

  lemma {:induction false} PaintNothing(m: Picture, color: Bytes)
    ensures Paint(m, iset{}, color) == m
  {}

  /** Only the points on the screen count. */
  lemma {:induction false} PaintSame(m: Picture, S: iset<Pos>, T: iset<Pos>, color: Bytes)
    requires forall p :: p in m ==> (p in S <==> p in T)
    ensures Paint(m, S, color) == Paint(m, T, color)
  {}

  ghost function Rectangle(x: int, y: int, w: int, h: int): iset<Pos> {
    iset p: Pos | x <= p.x < x + w && y <= p.y < y + h
  }

  /** Where a point is in the buffer. */
  function Index(width: nat, x: nat, y: nat): nat {
    width * y + x
  }

  lemma {:induction false} RowsApart(width: nat, y: nat, y': nat)
    requires y < y'
    ensures width * y + width <= width * y'
  {
    assert width * y' == width * (y' - 1) + width;
    if y < y' - 1 { RowsApart(width, y, y' - 1); }
  }

  lemma IndexFits(width: nat, height: nat, x: nat, y: nat)
    requires x < width && y < height
    ensures Index(width, x, y) < width * height
  {
    RowsApart(width, y, height);
  }

  /** No two points share a place. */
  lemma IndexIsInjective(width: nat, x: nat, y: nat, x': nat, y': nat)
    requires x < width && x' < width && Index(width, x, y) == Index(width, x', y')
    ensures x == x' && y == y'
  {
    if y < y' { RowsApart(width, y, y'); }
    if y' < y { RowsApart(width, y', y); }
  }

  /** A rectangle's columns before column i, and of column i what is above row j. */
  ghost function Columns(x: int, y: int, h: int, i: int, j: int): iset<Pos> {
    iset p: Pos | y <= p.y < y + h && x <= p.x && (p.x < i || (p.x == i && p.y < j))
  }

  lemma NextPoint(x: int, y: int, h: int, i: int, j: int)
    requires x <= i && y <= j < y + h
    ensures Columns(x, y, h, i, j) + iset{Pos(i, j)} == Columns(x, y, h, i, j + 1)
  {}

  lemma NextColumn(x: int, y: int, h: int, i: int)
    requires x <= i
    ensures Columns(x, y, h, i, y + h) == Columns(x, y, h, i + 1, y)
  {}

  /** b with the bytes c from place start on. */
  ghost function Spliced(b: Bytes, start: nat, c: Bytes): (r: Bytes)
    requires start + |c| <= |b|
    ensures |r| == |b|
  {
    b[..start] + c + b[start + |c|..]
  }

  lemma {:induction false} SplicedMore(b: Bytes, start: nat, c: Bytes, k: nat)
    requires k < |c| && start + k < |b|
    ensures Spliced(b, start, c[..k])[start + k := c[k]] == Spliced(b, start, c[..k + 1])
  {}

  lemma {:induction false} SplicedBytes(b: Bytes, start: nat, c: Bytes, place: nat)
    requires start + |c| <= |b| && place + |c| <= |b|
    requires place == start || place + |c| <= start || start + |c| <= place
    ensures Spliced(b, start, c)[place..place + |c|] == if place == start then c else b[place..place + |c|]
  {}

  const MAX_WORD := 0xffff
  const MAX_INT := 0x7fff_ffff

  class Canvas {
    const width: nat
    const height: nat
    const bytesPerPixel: nat
    const buffer: array<int>   // the bytes of the pixels, row by row

    ghost predicate Valid() {
      0 < bytesPerPixel <= 4 && width <= MAX_WORD && height <= MAX_WORD && HasRoom()
    }

    /** The buffer holds all pixels, and is small enough for 32-bit arithmetic on its places. */
    ghost predicate HasRoom() {
      buffer.Length == bytesPerPixel * (width * height) <= MAX_INT
    }

    constructor (width: nat, height: nat, bytesPerPixel: nat)
      requires width <= MAX_WORD && height <= MAX_WORD && 0 < bytesPerPixel <= 4
      requires bytesPerPixel * (width * height) <= MAX_INT
      ensures Valid() && fresh(buffer)
      ensures this.width == width && this.height == height && this.bytesPerPixel == bytesPerPixel
    {
      this.width, this.height, this.bytesPerPixel := width, height, bytesPerPixel;
      buffer := new int[bytesPerPixel * (width * height)];
    }

    /** What there is room for of a colour. */
    function Stored(color: Color): (r: Bytes)
      requires bytesPerPixel <= 4
      ensures |r| == bytesPerPixel
    {
      color[..bytesPerPixel]
    }

    /** The first byte of a pixel. */
    function Start(x: nat, y: nat): nat {
      bytesPerPixel * Index(width, x, y)
    }

    lemma PixelFits(x: nat, y: nat)
      requires Valid() && x < width && y < height
      ensures Start(x, y) + bytesPerPixel <= buffer.Length && bytesPerPixel <= 4
      ensures Index(width, x, y) <= Start(x, y) < buffer.Length <= MAX_INT   // no step of the C code wraps round
    {
      IndexFits(width, height, x, y);
      RowsApart(bytesPerPixel, Index(width, x, y), width * height);
    }

    /** The bytes of different pixels do not overlap. */
    lemma PixelsApart(x: nat, y: nat, x': nat, y': nat)
      requires x < width && x' < width && (x != x' || y != y')
      ensures Start(x, y) + bytesPerPixel <= Start(x', y') || Start(x', y') + bytesPerPixel <= Start(x, y)
    {
      var i, j := Index(width, x, y), Index(width, x', y');
      if i == j { IndexIsInjective(width, x, y, x', y'); }
      if i < j { RowsApart(bytesPerPixel, i, j); } else { RowsApart(bytesPerPixel, j, i); }
    }

    /** What the pixel at p holds in a buffer with the bytes b. */
    ghost function PixelIn(b: Bytes, p: Pos): Bytes
      requires Valid() && |b| == buffer.Length && InGrid(width, height, p)
    {
      PixelFits(p.x, p.y);
      b[Start(p.x, p.y)..Start(p.x, p.y) + bytesPerPixel]
    }

    ghost function PictureOf(b: Bytes): (m: Picture)
      requires Valid() && |b| == buffer.Length
      ensures m.Keys == Cells(width, height)
      ensures forall p :: p in m ==> m[p] == PixelIn(b, p)
    {
      map p | p in Cells(width, height) :: PixelIn(b, p)
    }

    ghost function Shown(): (m: Picture)
      requires Valid()
      reads buffer
      ensures m.Keys == Cells(width, height)
    {
      PictureOf(buffer[..])
    }

    /** Copies as many bytes of the colour as there are to a pixel. */
    method CopyBytes(start: nat, color: Color)
      requires bytesPerPixel <= 4 && start + bytesPerPixel <= buffer.Length
      modifies buffer
      ensures buffer[..] == Spliced(old(buffer[..]), start, Stored(color))
    {
      ghost var before := buffer[..];
      assert before == Spliced(before, start, color[..0]);
      for k := 0 to bytesPerPixel
        invariant buffer[..] == Spliced(before, start, color[..k])
      {
        buffer[start + k] := color[k];
        SplicedMore(before, start, color, k);
      }
    }

    /** Only the bytes of the one pixel change. */
    lemma {:induction false} PictureSpliced(b: Bytes, x: nat, y: nat, color: Color)
      requires Valid() && |b| == buffer.Length && x < width && y < height
      requires Start(x, y) + bytesPerPixel <= buffer.Length
      ensures PictureOf(Spliced(b, Start(x, y), Stored(color))) == Paint(PictureOf(b), iset{Pos(x, y)}, Stored(color))
    {
      var b' := Spliced(b, Start(x, y), Stored(color));
      forall p | p in Cells(width, height)
        ensures PixelIn(b', p) == if p == Pos(x, y) then Stored(color) else PixelIn(b, p)
      {
        hide Start;
        PixelFits(p.x, p.y);
        if p != Pos(x, y) { PixelsApart(p.x, p.y, x, y); }
        SplicedBytes(b, Start(x, y), Stored(color), Start(p.x, p.y));
      }
    }

    method DrawPixel(x: nat, y: nat, color: Color) returns (status: int)
      requires Valid()
      modifies buffer
      ensures status == if x >= width || y >= height then 1 else 0
      ensures Shown() == Paint(old(Shown()), iset{Pos(x, y)}, Stored(color))
    {
      hide HasRoom, Start;
      if x >= width || y >= height { return 1; }
      PixelFits(x, y);
      PictureSpliced(buffer[..], x, y, color);
      CopyBytes(Start(x, y), color);
      status := 0;
    }

    /** Where the bytes of a pixel are: row by row, and in a row from the left. */
    lemma ShownInBuffer(x: nat, y: nat)
      requires Valid() && x < width && y < height
      ensures 0 <= (width * y + x) * bytesPerPixel <= (width * y + x) * bytesPerPixel + bytesPerPixel <= buffer.Length
      ensures Shown()[Pos(x, y)] ==
              buffer[(width * y + x) * bytesPerPixel..(width * y + x) * bytesPerPixel + bytesPerPixel]
    {
      PixelFits(x, y);
      InsideBuffer(x, y);
      assert Start(x, y) == (width * y + x) * bytesPerPixel;
      assert Shown()[Pos(x, y)] == PixelIn(buffer[..], Pos(x, y));
    }

    lemma InsideBuffer(x: nat, y: nat)
      ensures Start(x, y) == (width * y + x) * bytesPerPixel
    {}

    predicate OnScreen(p: Pos) {
      0 <= p.x < width && 0 <= p.y < height
    }

    /** A point of a rectangle is reached exactly if it and all points before it - in the columns to the left, or above
        it in its own - are on the screen. */
    lemma ReachedExactly(x: nat, y: nat, w: nat, h: nat, p: Pos)
      requires x <= p.x < x + w && y <= p.y < y + h
      ensures p in Reached(x, y, w, h) && OnScreen(p) <==>
        forall q: Pos :: x <= q.x < x + w && y <= q.y < y + h && (q.x < p.x || (q.x == p.x && q.y <= p.y)) ==>
          OnScreen(q)
    {
      var bottomLeft := Pos(x, y + h - 1);
      if y + h > height && p.x > x { assert !OnScreen(bottomLeft); }
    }

    /** The points that come before the loops of DrawRectangle stop at a point outside the screen. */
    ghost function Reached(x: nat, y: nat, w: nat, h: nat): iset<Pos> {
      if y + h <= height then Rectangle(x, y, w, h) else Rectangle(x, y, if w > 0 then 1 else 0, h)
    }

    /** One turn of the outer loop of DrawRectangle. */
    method DrawColumn(x: nat, y: nat, w: nat, h: nat, i: nat, color: Color, ghost before: Picture) returns (status: int)
      requires Valid() && y <= MAX_WORD && h <= MAX_WORD && x <= i < x + w && before.Keys == Cells(width, height)
      requires i > x && h > 0 ==> y + h <= height
      requires Shown() == Paint(before, Columns(x, y, h, i, y), Stored(color))
      modifies buffer
      ensures status == 0 ==> Shown() == Paint(before, Columns(x, y, h, i, y + h), Stored(color))
      ensures status != 0 ==> Shown() == Paint(before, Reached(x, y, w, h), Stored(color))
      ensures status == 0 <==> h == 0 || (i < width && y + h <= height)
    {
      hide HasRoom, Shown, Stored, Paint, Columns, Reached;
      var j := y;
      while j < h + y
        invariant y <= j <= y + h && j <= MAX_WORD && (j > y ==> i < width && j <= height)
        invariant Shown() == Paint(before, Columns(x, y, h, i, j), Stored(color))
      {
        var stop := DrawPixel(i, j, color);
        if stop != 0 {
          Beyond(before, Columns(x, y, h, i, j), i, j, Stored(color));
          Stopped(before, x, y, w, h, i, j, Stored(color));
          return 1;
        }
        PaintTwice(before, Columns(x, y, h, i, j), iset{Pos(i, j)}, Stored(color));
        NextPoint(x, y, h, i, j);
        j := j + 1;
      }
      status := 0;
    }

    /** Paints column by column and gives up at the first point outside the screen. */
    method DrawRectangle(x: nat, y: nat, w: nat, h: nat, color: Color) returns (status: int)
      requires Valid() && x <= MAX_WORD && y <= MAX_WORD && w <= MAX_WORD && h <= MAX_WORD
      requires h > 0 || x + w <= MAX_WORD  // else the column number wraps round and the loop never ends
      modifies buffer
      ensures Shown() == Paint(old(Shown()), Reached(x, y, w, h), Stored(color))
      ensures status == 0 <==> w == 0 || h == 0 || (x + w <= width && y + h <= height)
    {
      hide HasRoom, Shown, Stored, Paint, Columns, Reached;
      ghost var before := Shown();
      var i := x;
      NothingYet(before, x, y, h, Stored(color));
      while i < w + x
        invariant x <= i <= x + w && i <= MAX_WORD && (i > x && h > 0 ==> y + h <= height && i <= width)
        invariant Shown() == Paint(before, Columns(x, y, h, i, y), Stored(color))
      {
        var stop := DrawColumn(x, y, w, h, i, color, before);
        if stop != 0 { return 1; }
        NextColumn(x, y, h, i);
        i := i + 1;
      }
      Completed(before, x, y, w, h, Stored(color));
      status := 0;
    }

    lemma {:induction false} NothingYet(m: Picture, x: nat, y: nat, h: nat, color: Bytes)
      ensures Paint(m, Columns(x, y, h, x, y), color) == m
    {}

    /** A point outside the screen paints nothing. */
    lemma {:induction false} Beyond(m: Picture, S: iset<Pos>, i: nat, j: nat, color: Bytes)
      requires m.Keys == Cells(width, height) && (i >= width || j >= height)
      ensures Paint(Paint(m, S, color), iset{Pos(i, j)}, color) == Paint(m, S, color)
    {}

    lemma {:induction false} Stopped(m: Picture, x: nat, y: nat, w: nat, h: nat, i: nat, j: nat, color: Bytes)
      requires m.Keys == Cells(width, height) && (i >= width || j >= height)
      requires x <= i < x + w && y <= j < y + h && (i > x ==> y + h <= height) && (j > y ==> i < width)
      ensures Paint(m, Columns(x, y, h, i, j), color) == Paint(m, Reached(x, y, w, h), color)
    {
      PaintSame(m, Columns(x, y, h, i, j), Reached(x, y, w, h), color);
    }

    lemma {:induction false} Completed(m: Picture, x: nat, y: nat, w: nat, h: nat, color: Bytes)
      requires w > 0 && h > 0 ==> y + h <= height
      ensures Paint(m, Columns(x, y, h, x + w, y), color) == Paint(m, Reached(x, y, w, h), color)
    {
      PaintSame(m, Columns(x, y, h, x + w, y), Reached(x, y, w, h), color);
    }
  }
}
