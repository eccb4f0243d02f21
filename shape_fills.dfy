/**
 The filled shapes of the layout editor. A filled rectangle is built directly
 as a `SphereType[width, height]` patch; a filled diamond (and the oval, whose
 outline is not modelled) is first drawn as an outline into an empty
 `SphereType?[width, height]` and then filled row by row between the leftmost
 and the rightmost drawn cell of each row.
 */
module ShapeFills {
  import opened Wrappers
  import opened Seqs
  import opened SphereTypes
  import opened Grids
  import opened Lines
  import opened Shapes

  // ---------------------------------------------------------------------------------
  // Rectangles

  /** The `FillEdge` rectangle: `sphere` on the border, `bg` inside. */
  function Framed(w: nat, h: nat, sphere: SphereType, bg: SphereType): (g: Grid)
    ensures IsGrid(g, w, h)
  {
    seq(w, x => seq(h, y => if OnBorder(x, y, 0, 0, w, h) then sphere else bg))
  }

  /** A `w` by `h` grid with `v` everywhere. */
  function Solid<T>(w: nat, h: nat, v: T): (g: seq<seq<T>>)
    ensures IsGrid(g, w, h)
  {
    seq(w, x => seq(h, y => v))
  }

  /** Writes `v` into every cell of columns `x0 .. x1 - 1` and rows `y0 .. y1 - 1`, row by
      row; an empty range writes nothing. */
  method FillBlock<T>(a: array2<T>, x0: int, x1: int, y0: int, y1: int, v: T)
    requires x0 >= x1 || (0 <= x0 && x1 <= a.Length0)
    requires y0 >= y1 || (0 <= y0 && y1 <= a.Length1)
    modifies a
    ensures forall i, j :: 0 <= i < a.Length0 && 0 <= j < a.Length1 ==>
      a[i, j] == if x0 <= i < x1 && y0 <= j < y1 then v else old(a[i, j])
  {
    var y := y0;
    while y < y1
      invariant y == y0 || y0 < y <= y1
      invariant forall i, j :: 0 <= i < a.Length0 && 0 <= j < a.Length1 ==>
        a[i, j] == if x0 <= i < x1 && y0 <= j < y then v else old(a[i, j])
    {
      var x := x0;
      while x < x1
        invariant x == x0 || x0 < x <= x1
        invariant forall i, j :: 0 <= i < a.Length0 && 0 <= j < a.Length1 ==>
          a[i, j] == if x0 <= i < x1 && (y0 <= j < y || (j == y && i < x)) then v else old(a[i, j])
      {
        a[x, y] := v;
        x := x + 1;
      }
      y := y + 1;
    }
  }

  /** The rectangle tool in `ShapeMode.FillEdge`: a new patch with `sphere` on the border
      and `bg` inside. Cells are `Empty` to start with, so an `Empty` border or background
      is left as it is. */
  method RectangleFillEdge(w: int, h: int, sphere: SphereType, bg: SphereType) returns (fillrect: array2<SphereType>)
    requires w >= 1 && h >= 1
    ensures fresh(fillrect) && fillrect.Length0 == w && fillrect.Length1 == h
    ensures Holds(fillrect, Framed(w, h, sphere, bg))
  {
    fillrect := new SphereType[w, h]((_, _) => Empty);
    if sphere != Empty {
      var x := 0;
      while x < w
        invariant 0 <= x <= w
        invariant forall i, j :: 0 <= i < w && 0 <= j < h ==>
          fillrect[i, j] == if i < x && (j == 0 || j == h - 1) then sphere else Empty
      {
        fillrect[x, 0] := sphere;
        fillrect[x, h - 1] := sphere;
        x := x + 1;
      }
      var y := 1;
      while y < h - 1
        invariant y == 1 || 1 < y <= h - 1
        invariant forall i, j :: 0 <= i < w && 0 <= j < h ==>
          fillrect[i, j] == if j == 0 || j == h - 1 || ((i == 0 || i == w - 1) && j < y) then sphere else Empty
      {
        fillrect[0, y] := sphere;
        fillrect[w - 1, y] := sphere;
        y := y + 1;
      }
    }
    assert forall i, j :: 0 <= i < w && 0 <= j < h ==>
      fillrect[i, j] == if OnBorder(i, j, 0, 0, w, h) then sphere else Empty;
    if bg != Empty {
      FillBlock(fillrect, 1, w - 1, 1, h - 1, bg);
    }
  }

  /** The rectangle tool in `ShapeMode.Fill`: a new patch of `sphere` throughout. */
  method RectangleFill(w: int, h: int, sphere: SphereType) returns (fillrect: array2<SphereType>)
    requires w >= 1 && h >= 1
    ensures fresh(fillrect) && fillrect.Length0 == w && fillrect.Length1 == h
    ensures Holds(fillrect, Solid(w, h, sphere))
  {
    fillrect := new SphereType[w, h]((_, _) => Empty);
    if sphere != Empty {
      FillBlock(fillrect, 0, w, 0, h, sphere);
    }
  }

  /** The framed rectangle is the rectangle outline drawn over a solid background. */
  lemma FramedIsOutlineOverBackground(w: nat, h: nat, sphere: SphereType, bg: SphereType)
    requires w >= 1 && h >= 1
    ensures Framed(w, h, sphere, bg) == Paint(Solid(w, h, bg), w, h, RectEdgePoints(0, 0, w, h), sphere)
  {
    var pts := RectEdgePoints(0, 0, w, h);
    PaintCells(Solid(w, h, bg), w, h, pts, sphere);
    RectEdgeIsBorder(0, 0, w, h);
    GridExt(Framed(w, h, sphere, bg), Paint(Solid(w, h, bg), w, h, pts, sphere), w, h);
  }

  /** With the same sphere for border and background the framed rectangle is solid. */
  lemma FramedSameIsSolid(w: nat, h: nat, sphere: SphereType)
    ensures Framed(w, h, sphere, sphere) == Solid(w, h, sphere)
  {
    GridExt(Framed(w, h, sphere, sphere), Solid(w, h, sphere), w, h);
  }

  /** A rectangle one or two cells across has no inside: it is all border. */
  lemma FramedThinIsSolid(w: nat, h: nat, sphere: SphereType, bg: SphereType)
    requires w <= 2 || h <= 2
    ensures Framed(w, h, sphere, bg) == Solid(w, h, sphere)
  {
    GridExt(Framed(w, h, sphere, bg), Solid(w, h, sphere), w, h);
  }

  // ---------------------------------------------------------------------------------
  // The diamond outline in its own rectangle

  /** Drawing `a` and then `b` paints the same cells as drawing `a + b`. */
  lemma {:induction false} PaintConcat<T>(g: seq<seq<T>>, w: int, h: int, a: seq<(int, int)>, b: seq<(int, int)>, v: T)
    requires IsGrid(g, w, h)
    ensures Paint(g, w, h, a + b, v) == Paint(Paint(g, w, h, a, v), w, h, b, v)
    decreases |b|
  {
    if b == [] {
      assert a + b == a;
    } else {
      var b' := b[..|b| - 1];
      assert (a + b)[..|a + b| - 1] == a + b';
      assert (a + b)[|a + b| - 1] == b[|b| - 1];
      PaintConcat(g, w, h, a, b', v);
    }
  }

  /** A line between two cells of a `w` by `h` rectangle stays inside it. */
  lemma SideInside(x1: int, y1: int, x2: int, y2: int, w: int, h: int)
    requires 0 <= x1 < w && 0 <= y1 < h && 0 <= x2 < w && 0 <= y2 < h
    ensures LineInside(x1, y1, x2, y2, w, h)
  {
    var pts := LinePoints(x1, y1, x2, y2);
    SideInSpan(x1, y1, x2, y2, 0, w - 1, 0, h - 1);
    forall k | 0 <= k < |pts|
      ensures 0 <= pts[k].0 < w && 0 <= pts[k].1 < h
    {
      assert pts[k] in pts;
    }
  }

  /** The diamond outline drawn into an empty `w` by `h` rectangle. */
  function DiamondGrid(w: nat, h: nat, sphere: SphereType): (g: seq<seq<Option<SphereType>>>)
    ensures IsGrid(g, w, h)
  {
    Paint(Solid(w, h, None), w, h, DiamondPoints(0, 0, w, h), Some(sphere))
  }

  /** The outline grid holds `sphere` on the diamond and nothing elsewhere, and every cell
      of the diamond lies in the rectangle. */
  lemma DiamondGridCells(w: nat, h: nat, sphere: SphereType)
    requires w >= 1 && h >= 1
    ensures forall x, y :: 0 <= x < w && 0 <= y < h ==>
      DiamondGrid(w, h, sphere)[x][y] == if (x, y) in DiamondPoints(0, 0, w, h) then Some(sphere) else None
    ensures forall p :: p in DiamondPoints(0, 0, w, h) ==> 0 <= p.0 < w && 0 <= p.1 < h
  {
    PaintCells(Solid(w, h, None), w, h, DiamondPoints(0, 0, w, h), Some(sphere));
    DiamondInBox(0, 0, w, h);
  }

  /** The first stage of the diamond tool's fill modes: a new `SphereType?[w, h]` empty
      but for the four sides of the diamond. */
  method DrawDiamondRect(w: int, h: int, sphere: SphereType) returns (drawrect: array2<Option<SphereType>>)
    requires w >= 1 && h >= 1
    ensures fresh(drawrect) && drawrect.Length0 == w && drawrect.Length1 == h
    ensures Holds(drawrect, DiamondGrid(w, h, sphere))
  {
    drawrect := new Option<SphereType>[w, h]((_, _) => None);
    var c := DiamondCorners(0, 0, w, h);
    ghost var g0 := Solid(w, h, None);
    ghost var s1, s2 := LinePoints(c.xm, c.yt, c.xr, c.ym), LinePoints(c.xr, c.ym, c.xm, c.yb);
    ghost var s3, s4 := LinePoints(c.xm, c.yb, c.xl, c.ym), LinePoints(c.xl, c.ym, c.xm, c.yt);
    SideInside(c.xm, c.yt, c.xr, c.ym, w, h);
    SideInside(c.xr, c.ym, c.xm, c.yb, w, h);
    SideInside(c.xm, c.yb, c.xl, c.ym, w, h);
    SideInside(c.xl, c.ym, c.xm, c.yt, w, h);
    HoldsUnique(drawrect, g0);
    DrawLineRect(drawrect, sphere, c.xm, c.yt, c.xr, c.ym);
    ghost var g1 := Paint(g0, w, h, s1, Some(sphere));
    HoldsUnique(drawrect, g1);
    DrawLineRect(drawrect, sphere, c.xr, c.ym, c.xm, c.yb);
    ghost var g2 := Paint(g1, w, h, s2, Some(sphere));
    HoldsUnique(drawrect, g2);
    DrawLineRect(drawrect, sphere, c.xm, c.yb, c.xl, c.ym);
    ghost var g3 := Paint(g2, w, h, s3, Some(sphere));
    HoldsUnique(drawrect, g3);
    DrawLineRect(drawrect, sphere, c.xl, c.ym, c.xm, c.yt);
    PaintConcat(g0, w, h, s1, s2, Some(sphere));
    PaintConcat(g0, w, h, s1 + s2, s3, Some(sphere));
    PaintConcat(g0, w, h, s1 + s2 + s3, s4, Some(sphere));
  }

  // ---------------------------------------------------------------------------------
  // The row-scan fill

  /** A drawn rectangle as a value: `None` where nothing is drawn. The width never exceeds
      `int.MaxValue`, the largest length of a .NET array dimension. */
  ghost predicate Drawn<T>(g: seq<seq<Option<T>>>, h: int)
  {
    h >= 0 && IsGrid(g, |g|, h) && |g| <= IntMax
  }

  /** What the row scan leaves in `minX` after columns `0 .. n - 1` of row `y`: the leftmost
      drawn column, or `int.MaxValue` when there is none. */
  function ScanMin<T>(g: seq<seq<Option<T>>>, h: int, y: int, n: int): (m: int)
    requires Drawn(g, h) && 0 <= y < h && 0 <= n <= |g|
    ensures m == IntMax <==> forall x :: 0 <= x < n ==> g[x][y].None?
    ensures m != IntMax ==> 0 <= m < n && g[m][y].Some? && forall x :: 0 <= x < m ==> g[x][y].None?
    decreases n
  {
    if n == 0 then IntMax
    else
      var m := ScanMin(g, h, y, n - 1);
      if g[n - 1][y].Some? then Min(m, n - 1) else m
  }

  /** What the row scan leaves in `maxX`: the rightmost drawn column among `0 .. n - 1`, or
      `int.MinValue` when there is none. */
  function ScanMax<T>(g: seq<seq<Option<T>>>, h: int, y: int, n: int): (m: int)
    requires Drawn(g, h) && 0 <= y < h && 0 <= n <= |g|
    ensures m == IntMin <==> forall x :: 0 <= x < n ==> g[x][y].None?
    ensures m != IntMin ==> 0 <= m < n && g[m][y].Some? && forall x :: m < x < n ==> g[x][y].None?
    decreases n
  {
    if n == 0 then IntMin
    else
      var m := ScanMax(g, h, y, n - 1);
      if g[n - 1][y].Some? then Max(m, n - 1) else m
  }

  /** Cell `(x, y)` has a drawn cell on its left and one on its right in its row. */
  ghost predicate Enclosed<T>(g: seq<seq<Option<T>>>, h: int, y: int, x: int)
    requires Drawn(g, h) && 0 <= y < h
  {
    exists a, b :: 0 <= a < x < b < |g| && g[a][y].Some? && g[b][y].Some?
  }

  /** A cell after the fill of its row: `v` when it lies strictly between the leftmost and
      the rightmost drawn cell of the row; in `keep` mode only where nothing was drawn. */
  function FilledCell<T>(g: seq<seq<Option<T>>>, h: int, v: T, keep: bool, x: int, y: int): Option<T>
    requires Drawn(g, h) && 0 <= x < |g| && 0 <= y < h
  {
    if ScanMin(g, h, y, |g|) < x < ScanMax(g, h, y, |g|) && (!keep || g[x][y].None?) then Some(v) else g[x][y]
  }

  /** Every row filled: the whole result of the fill stage. */
  function RowFilled<T>(g: seq<seq<Option<T>>>, h: int, v: T, keep: bool): (r: seq<seq<Option<T>>>)
    requires Drawn(g, h)
    ensures Drawn(r, h) && |r| == |g|
  {
    seq(|g|, x requires 0 <= x < |g| => seq(h, y requires 0 <= y < h => FilledCell(g, h, v, keep, x, y)))
  }

  /** The scan's bounds pick out exactly the enclosed cells. */
  lemma ScanBoundsEnclose<T>(g: seq<seq<Option<T>>>, h: int, y: int, x: int)
    requires Drawn(g, h) && 0 <= y < h && 0 <= x < |g|
    ensures ScanMin(g, h, y, |g|) < x < ScanMax(g, h, y, |g|) <==> Enclosed(g, h, y, x)
  {
    var lo, hi := ScanMin(g, h, y, |g|), ScanMax(g, h, y, |g|);
    if Enclosed(g, h, y, x) {
      var a, b :| 0 <= a < x < b < |g| && g[a][y].Some? && g[b][y].Some?;
      assert lo <= a;
      assert hi >= b;
    }
  }

  /** The fill stage as the source describes it: a cell becomes `v` exactly when drawn
      cells enclose it in its row (and, in `keep` mode, nothing was drawn there). */
  lemma RowFilledCells<T>(g: seq<seq<Option<T>>>, h: int, v: T, keep: bool)
    requires Drawn(g, h)
    ensures forall x, y :: 0 <= x < |g| && 0 <= y < h ==>
      RowFilled(g, h, v, keep)[x][y] ==
        if Enclosed(g, h, y, x) && (!keep || g[x][y].None?) then Some(v) else g[x][y]
  {
    forall x, y | 0 <= x < |g| && 0 <= y < h
      ensures RowFilled(g, h, v, keep)[x][y] ==
        if Enclosed(g, h, y, x) && (!keep || g[x][y].None?) then Some(v) else g[x][y]
    {
      ScanBoundsEnclose(g, h, y, x);
    }
  }

  /** Filling never clears a drawn cell, and in `keep` mode never changes one. */
  lemma RowFilledKeepsDrawn<T>(g: seq<seq<Option<T>>>, h: int, v: T, keep: bool)
    requires Drawn(g, h)
    ensures forall x, y :: 0 <= x < |g| && 0 <= y < h && g[x][y].Some? ==>
      RowFilled(g, h, v, keep)[x][y].Some? && (keep ==> RowFilled(g, h, v, keep)[x][y] == g[x][y])
  {
  }

  /** One cell of the fill, as `RowFilledCells` states for all cells. */
  lemma FilledAt<T>(g: seq<seq<Option<T>>>, h: int, v: T, keep: bool, x: int, y: int)
    requires Drawn(g, h) && 0 <= x < |g| && 0 <= y < h
    ensures RowFilled(g, h, v, keep)[x][y] == if Enclosed(g, h, y, x) && (!keep || g[x][y].None?) then Some(v) else g[x][y]
  {
    ScanBoundsEnclose(g, h, y, x);
  }

  /** A cell set after the fill has a cell drawn before the fill at or left of it, and one
      at or right of it. */
  lemma DrawnAround<T>(g: seq<seq<Option<T>>>, h: int, v: T, keep: bool, x: int, y: int)
    requires Drawn(g, h) && 0 <= x < |g| && 0 <= y < h
    requires RowFilled(g, h, v, keep)[x][y].Some?
    ensures exists a :: 0 <= a <= x && g[a][y].Some?
    ensures exists b :: x <= b < |g| && g[b][y].Some?
  {
    FilledAt(g, h, v, keep, x, y);
    if g[x][y].None? {
      var a, b :| 0 <= a < x < b < |g| && g[a][y].Some? && g[b][y].Some?;
    }
  }

  /** Filling adds cells only between drawn cells, so it encloses the same cells as before. */
  lemma FillKeepsEnclosed<T>(g: seq<seq<Option<T>>>, h: int, v: T, keep: bool, y: int, x: int)
    requires Drawn(g, h) && 0 <= y < h && 0 <= x < |g|
    ensures Enclosed(RowFilled(g, h, v, keep), h, y, x) <==> Enclosed(g, h, y, x)
  {
    var r: seq<seq<Option<T>>> := RowFilled(g, h, v, keep);
    if Enclosed(r, h, y, x) {
      var a, b :| 0 <= a < x < b < |r| && r[a][y].Some? && r[b][y].Some?;
      DrawnAround(g, h, v, keep, a, y);
      DrawnAround(g, h, v, keep, b, y);
      var a' :| 0 <= a' <= a && g[a'][y].Some?;
      var b' :| b <= b' < |g| && g[b'][y].Some?;
      assert 0 <= a' < x < b' < |g| && g[a'][y].Some? && g[b'][y].Some?;
    }
    if Enclosed(g, h, y, x) {
      var a, b :| 0 <= a < x < b < |g| && g[a][y].Some? && g[b][y].Some?;
      FilledAt(g, h, v, keep, a, y);
      FilledAt(g, h, v, keep, b, y);
      assert r[a][y].Some? && r[b][y].Some?;
    }
  }

  /** After the fill no row has a gap: every enclosed cell is drawn. */
  lemma FilledRowsHaveNoGaps<T>(g: seq<seq<Option<T>>>, h: int, v: T, keep: bool)
    requires Drawn(g, h)
    ensures var r := RowFilled(g, h, v, keep);
      forall x, y :: 0 <= x < |r| && 0 <= y < h && Enclosed(r, h, y, x) ==> r[x][y].Some?
  {
    RowFilledCells(g, h, v, keep);
    forall x, y | 0 <= x < |g| && 0 <= y < h && Enclosed(RowFilled(g, h, v, keep), h, y, x)
      ensures RowFilled(g, h, v, keep)[x][y].Some?
    {
      FillKeepsEnclosed(g, h, v, keep, y, x);
    }
  }

  /** Filling a second time changes nothing. */
  lemma RowFillIdempotent<T>(g: seq<seq<Option<T>>>, h: int, v: T, keep: bool)
    requires Drawn(g, h)
    ensures RowFilled(RowFilled(g, h, v, keep), h, v, keep) == RowFilled(g, h, v, keep)
  {
    var r: seq<seq<Option<T>>> := RowFilled(g, h, v, keep);
    RowFilledCells(g, h, v, keep);
    RowFilledCells(r, h, v, keep);
    forall x, y | 0 <= x < |g| && 0 <= y < h
      ensures RowFilled(r, h, v, keep)[x][y] == r[x][y]
    {
      FillKeepsEnclosed(g, h, v, keep, y, x);
    }
    GridExt(RowFilled(r, h, v, keep), r, |g|, h);
  }

  /** When everything drawn is `v`, keeping drawn cells or overwriting them gives the same
      result: the diamond's `Fill` mode is its `FillEdge` mode with the outline sphere as
      background. */
  lemma FillModesAgree<T>(g: seq<seq<Option<T>>>, h: int, v: T)
    requires Drawn(g, h)
    requires forall x, y :: 0 <= x < |g| && 0 <= y < h && g[x][y].Some? ==> g[x][y] == Some(v)
    ensures RowFilled(g, h, v, true) == RowFilled(g, h, v, false)
  {
    GridExt(RowFilled(g, h, v, true), RowFilled(g, h, v, false), |g|, h);
  }

  /** The scan of row `y`: `minX` and `maxX` as the two nested loops leave them. Only the
      scanned row needs to agree with `g`. */
  method ScanMinMax<T>(rect: array2<Option<T>>, ghost g: seq<seq<Option<T>>>, y: int) returns (minX: int, maxX: int)
    requires Drawn(g, rect.Length1) && |g| == rect.Length0 && 0 <= y < rect.Length1
    requires forall x :: 0 <= x < rect.Length0 ==> rect[x, y] == g[x][y]
    ensures minX == ScanMin(g, rect.Length1, y, |g|) && maxX == ScanMax(g, rect.Length1, y, |g|)
  {
    minX, maxX := IntMax, IntMin;
    var x := 0;
    while x < rect.Length0
      invariant 0 <= x <= rect.Length0
      invariant minX == ScanMin(g, rect.Length1, y, x) && maxX == ScanMax(g, rect.Length1, y, x)
    {
      if rect[x, y].Some? {
        minX := Min(minX, x);
        maxX := Max(maxX, x);
      }
      x := x + 1;
    }
  }

  /** The second loop of a row: `v` into every cell strictly between `lo` and `hi`, only
      into empty cells in `keep` mode. For an empty row the scan leaves `int.MaxValue` and
      `int.MinValue`, and `minX + 1` wraps round to `int.MinValue`, so nothing is written. */
  method FillBetween<T>(rect: array2<Option<T>>, y: int, lo: int, hi: int, v: T, keep: bool)
    requires 0 <= y < rect.Length1
    requires rect.Length0 <= IntMax
    requires (lo == IntMax && hi == IntMin) || 0 <= lo <= hi < rect.Length0
    modifies rect
    ensures forall i, j :: 0 <= i < rect.Length0 && 0 <= j < rect.Length1 ==>
      rect[i, j] == if j == y && lo < i < hi && (!keep || old(rect[i, j]).None?) then Some(v) else old(rect[i, j])
  {
    var x := if lo == IntMax then IntMin else lo + 1;
    while x < hi
      invariant lo == IntMax || lo + 1 <= x <= hi || x == lo + 1
      invariant forall i, j :: 0 <= i < rect.Length0 && 0 <= j < rect.Length1 ==>
        rect[i, j] == if j == y && lo < i < x && (!keep || old(rect[i, j]).None?) then Some(v) else old(rect[i, j])
    {
      if !keep || rect[x, y].None? {
        rect[x, y] := Some(v);
      }
      x := x + 1;
    }
  }

  /** The fill stage: every row of `rect` scanned and filled in turn, top to bottom. */
  method FillRows<T>(rect: array2<Option<T>>, v: T, keep: bool)
    requires rect.Length0 <= IntMax
    modifies rect
    ensures Holds(rect, RowFilled(old(Snapshot(rect)), rect.Length1, v, keep))
  {
    ghost var g := Snapshot(rect);
    var y := 0;
    while y < rect.Length1
      invariant 0 <= y <= rect.Length1
      invariant forall i, j :: 0 <= i < rect.Length0 && 0 <= j < rect.Length1 ==>
        rect[i, j] == if j < y then FilledCell(g, rect.Length1, v, keep, i, j) else g[i][j]
    {
      var minX, maxX := ScanMinMax(rect, g, y);
      FillBetween(rect, y, minX, maxX, v, keep);
      y := y + 1;
    }
  }

  /** The diamond tool in `ShapeMode.FillEdge`: the outline in `sphere`, the cells inside
      it in `bg`. */
  method DiamondFillEdge(w: int, h: int, sphere: SphereType, bg: SphereType) returns (drawrect: array2<Option<SphereType>>)
    requires 1 <= w <= IntMax && h >= 1
    ensures fresh(drawrect) && drawrect.Length0 == w && drawrect.Length1 == h
    ensures Holds(drawrect, RowFilled(DiamondGrid(w, h, sphere), h, bg, true))
  {
    drawrect := DrawDiamondRect(w, h, sphere);
    HoldsUnique(drawrect, DiamondGrid(w, h, sphere));
    FillRows(drawrect, bg, true);
  }

  /** The diamond tool in `ShapeMode.Fill`: the outline and its inside in `sphere`. */
  method DiamondFill(w: int, h: int, sphere: SphereType) returns (drawrect: array2<Option<SphereType>>)
    requires 1 <= w <= IntMax && h >= 1
    ensures fresh(drawrect) && drawrect.Length0 == w && drawrect.Length1 == h
    ensures Holds(drawrect, RowFilled(DiamondGrid(w, h, sphere), h, sphere, false))
  {
    drawrect := DrawDiamondRect(w, h, sphere);
    HoldsUnique(drawrect, DiamondGrid(w, h, sphere));
    FillRows(drawrect, sphere, false);
  }

  /** The diamond's two fill modes agree when the background is the outline's sphere. */
  lemma DiamondFillIsFillEdgeWithOwnSphere(w: nat, h: nat, sphere: SphereType)
    requires 1 <= w <= IntMax && h >= 1
    ensures RowFilled(DiamondGrid(w, h, sphere), h, sphere, false) == RowFilled(DiamondGrid(w, h, sphere), h, sphere, true)
  {
    DiamondGridCells(w, h, sphere);
    FillModesAgree(DiamondGrid(w, h, sphere), h, sphere);
  }
}
