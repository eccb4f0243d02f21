/**
 The shape tools of the layout editor: the rectangle and the diamond dragged
 from one grid cell to another, and the row-scan fill stage the diamond shares
 with the oval. Outlines become a drawing list of `SphereLoc`s laid onto the
 wrapped layout; filled shapes become a patch placed at the shape's top-left
 cell.
 */
module Shapes {
  import opened Wrappers
  import opened Seqs
  import opened SphereTypes
  import opened Grids
  import opened Patches
  import opened SphereLists
  import opened LayoutModel
  import opened Lines
  import opened Actions

  /** `int.MaxValue` and `int.MinValue`, the starting values of the row scan. */
  const IntMax := 0x7FFF_FFFF
  const IntMin := -0x8000_0000

  /** `ShapeMode`: outline only, outline around a background fill, or solid. */
  datatype ShapeMode = Edge | FillEdge | Fill

  /** The width and height of a shape dragged from cell `(x0, y0)` to `(x1, y1)`: the
      rectangle with those corners, or with Control held the smallest square that holds
      both when laid from their top-left. */
  function ShapeSize(x0: int, y0: int, x1: int, y1: int, control: bool): (size: (int, int))
    ensures size.0 >= 1 && size.1 >= 1
    ensures !control ==> Min(x0, x1) + size.0 - 1 == Max(x0, x1) && Min(y0, y1) + size.1 - 1 == Max(y0, y1)
    ensures control ==> size.0 == size.1
    ensures control ==> Min(x0, x1) + size.0 - 1 >= Max(x0, x1) && Min(y0, y1) + size.1 - 1 >= Max(y0, y1)
    ensures control ==> size.0 == Abs(x1 - x0) + 1 || size.0 == Abs(y1 - y0) + 1
  {
    var w, h := Abs(x1 - x0) + 1, Abs(y1 - y0) + 1;
    if control then (Max(w, h), Max(w, h)) else (w, h)
  }

  // ---------------------------------------------------------------------------------
  // Outlines as drawing lists

  /** The cell `(px, py)` is on the border of the `w` by `h` rectangle at `(x, y)`. */
  predicate OnBorder(px: int, py: int, x: int, y: int, w: int, h: int)
  {
    x <= px < x + w && y <= py < y + h && (px == x || px == x + w - 1 || py == y || py == y + h - 1)
  }

  /** The four sides of the `w` by `h` rectangle with top-left cell `(x, y)`, in drawing
      order: top, left, bottom, right. */
  function RectEdgePoints(x: int, y: int, w: int, h: int): seq<(int, int)>
  {
    var xr, yb := x + w - 1, y + h - 1;
    LinePoints(x, y, xr, y) + LinePoints(x, y, x, yb) + LinePoints(x, yb, xr, yb) + LinePoints(xr, y, xr, yb)
  }

  /** The columns and rows a diamond's outline runs through: its left, middle and right
      columns and its top, middle and bottom rows. */
  datatype Corners = Corners(xl: int, xm: int, xr: int, yt: int, ym: int, yb: int)

  /** The diamond inscribed in the `w` by `h` rectangle at `(x, y)`: the vertices are the
      midpoints of the rectangle's sides, rounded down. */
  function DiamondCorners(x: int, y: int, w: int, h: int): Corners
  {
    Corners(x, x + w / 2, x + w - 1, y, y + h / 2, y + h - 1)
  }

  /** The four sides of a diamond, from the top vertex clockwise. */
  function DiamondOf(c: Corners): seq<(int, int)>
  {
    LinePoints(c.xm, c.yt, c.xr, c.ym) + LinePoints(c.xr, c.ym, c.xm, c.yb) +
    LinePoints(c.xm, c.yb, c.xl, c.ym) + LinePoints(c.xl, c.ym, c.xm, c.yt)
  }

  /** The diamond outline drawn for the `w` by `h` rectangle at `(x, y)`. */
  function DiamondPoints(x: int, y: int, w: int, h: int): seq<(int, int)>
  {
    DiamondOf(DiamondCorners(x, y, w, h))
  }

  /** A horizontal line holds exactly the cells of its row between its ends. */
  lemma HorizontalCells(x1: int, x2: int, y: int)
    requires x1 <= x2
    ensures forall p :: p in LinePoints(x1, y, x2, y) <==> p.1 == y && x1 <= p.0 <= x2
  {
    var pts := LinePoints(x1, y, x2, y);
    forall p
      ensures p in pts <==> p.1 == y && x1 <= p.0 <= x2
    {
      if p.1 == y && x1 <= p.0 <= x2 {
        AxisAt(x1, y, x2, y, p.0 - x1);
      }
      if p in pts {
        var k :| 0 <= k < |pts| && pts[k] == p;
        AxisAt(x1, y, x2, y, k);
      }
    }
  }

  /** A vertical line holds exactly the cells of its column between its ends. */
  lemma VerticalCells(x: int, y1: int, y2: int)
    requires y1 <= y2
    ensures forall p :: p in LinePoints(x, y1, x, y2) <==> p.0 == x && y1 <= p.1 <= y2
  {
    var pts := LinePoints(x, y1, x, y2);
    forall p
      ensures p in pts <==> p.0 == x && y1 <= p.1 <= y2
    {
      if p.0 == x && y1 <= p.1 <= y2 {
        AxisAt(x, y1, x, y2, p.1 - y1);
      }
      if p in pts {
        var k :| 0 <= k < |pts| && pts[k] == p;
        AxisAt(x, y1, x, y2, k);
      }
    }
  }

  /** The rectangle outline is exactly the border of the rectangle. */
  lemma RectEdgeIsBorder(x: int, y: int, w: int, h: int)
    requires w >= 1 && h >= 1
    ensures forall p :: p in RectEdgePoints(x, y, w, h) <==> OnBorder(p.0, p.1, x, y, w, h)
  {
    var xr, yb := x + w - 1, y + h - 1;
    var top, left, bottom, right := LinePoints(x, y, xr, y), LinePoints(x, y, x, yb), LinePoints(x, yb, xr, yb), LinePoints(xr, y, xr, yb);
    assert RectEdgePoints(x, y, w, h) == top + left + bottom + right;
    HorizontalCells(x, xr, y);
    VerticalCells(x, y, yb);
    HorizontalCells(x, xr, yb);
    VerticalCells(xr, y, yb);
    FourSides(top, left, bottom, right, x, y, w, h);
  }

  /** Four sequences holding exactly the cells of the four sides hold the rectangle's border. */
  lemma FourSides(top: seq<(int, int)>, left: seq<(int, int)>, bottom: seq<(int, int)>, right: seq<(int, int)>,
                  x: int, y: int, w: int, h: int)
    requires w >= 1 && h >= 1
    requires forall p :: p in top <==> p.1 == y && x <= p.0 <= x + w - 1
    requires forall p :: p in left <==> p.0 == x && y <= p.1 <= y + h - 1
    requires forall p :: p in bottom <==> p.1 == y + h - 1 && x <= p.0 <= x + w - 1
    requires forall p :: p in right <==> p.0 == x + w - 1 && y <= p.1 <= y + h - 1
    ensures forall p :: p in top + left + bottom + right <==> OnBorder(p.0, p.1, x, y, w, h)
  {
    forall p
      ensures p in top + left + bottom + right <==> OnBorder(p.0, p.1, x, y, w, h)
    {
      assert p in top + left + bottom + right <==> p in top || p in left || p in bottom || p in right;
    }
  }

  /** The cell `p` lies in columns `xl..xr` and rows `yt..yb`. */
  predicate InSpan(p: (int, int), xl: int, xr: int, yt: int, yb: int)
  {
    xl <= p.0 <= xr && yt <= p.1 <= yb
  }

  /** A line between two cells of a box lies in the box and passes through both. */
  lemma SideInSpan(x1: int, y1: int, x2: int, y2: int, xl: int, xr: int, yt: int, yb: int)
    requires InSpan((x1, y1), xl, xr, yt, yb) && InSpan((x2, y2), xl, xr, yt, yb)
    ensures forall p :: p in LinePoints(x1, y1, x2, y2) ==> InSpan(p, xl, xr, yt, yb)
    ensures (x1, y1) in LinePoints(x1, y1, x2, y2) && (x2, y2) in LinePoints(x1, y1, x2, y2)
  {
    LineBounds(x1, y1, x2, y2);
    LineEnds(x1, y1, x2, y2);
    var pts := LinePoints(x1, y1, x2, y2);
    assert (x1, y1) in {pts[0], pts[|pts| - 1]};
    assert (x2, y2) in {pts[0], pts[|pts| - 1]};
  }

  /** The diamond outline lies in its rectangle and passes through the midpoints of the
      rectangle's four sides. */
  lemma DiamondInBox(x: int, y: int, w: int, h: int)
    requires w >= 1 && h >= 1
    ensures forall p :: p in DiamondPoints(x, y, w, h) ==> InSpan(p, x, x + w - 1, y, y + h - 1)
    ensures var c := DiamondCorners(x, y, w, h);
      (c.xm, c.yt) in DiamondPoints(x, y, w, h) && (c.xr, c.ym) in DiamondPoints(x, y, w, h) &&
      (c.xm, c.yb) in DiamondPoints(x, y, w, h) && (c.xl, c.ym) in DiamondPoints(x, y, w, h)
  {
    DiamondOfInSpan(DiamondCorners(x, y, w, h));
  }

  lemma DiamondOfInSpan(c: Corners)
    requires c.xl <= c.xm <= c.xr && c.yt <= c.ym <= c.yb
    ensures forall p :: p in DiamondOf(c) ==> InSpan(p, c.xl, c.xr, c.yt, c.yb)
    ensures (c.xm, c.yt) in DiamondOf(c) && (c.xr, c.ym) in DiamondOf(c)
    ensures (c.xm, c.yb) in DiamondOf(c) && (c.xl, c.ym) in DiamondOf(c)
  {
    SideInSpan(c.xm, c.yt, c.xr, c.ym, c.xl, c.xr, c.yt, c.yb);
    SideInSpan(c.xr, c.ym, c.xm, c.yb, c.xl, c.xr, c.yt, c.yb);
    SideInSpan(c.xm, c.yb, c.xl, c.ym, c.xl, c.xr, c.yt, c.yb);
    SideInSpan(c.xl, c.ym, c.xm, c.yt, c.xl, c.xr, c.yt, c.yb);
  }

  /** The entries for a list of points are those points, wrapped, with the sphere. */
  lemma LocsMember(w: int, h: int, sphere: SphereType, pts: seq<(int, int)>)
    requires w > 0 && h > 0
    ensures forall e :: e in Locs(w, h, sphere, pts) <==>
      exists p :: p in pts && e == SphereLoc(sphere, Wrap(p.0, w), Wrap(p.1, h))
  {
    var l := Locs(w, h, sphere, pts);
    forall e
      ensures e in l <==> exists p :: p in pts && e == SphereLoc(sphere, Wrap(p.0, w), Wrap(p.1, h))
    {
      if e in l {
        var i :| 0 <= i < |l| && l[i] == e;
        assert pts[i] in pts;
      }
      if exists p :: p in pts && e == SphereLoc(sphere, Wrap(p.0, w), Wrap(p.1, h)) {
        var p :| p in pts && e == SphereLoc(sphere, Wrap(p.0, w), Wrap(p.1, h));
        var i :| 0 <= i < |pts| && pts[i] == p;
        LocAt(w, h, sphere, pts, i, p.0, p.1);
      }
    }
  }

  lemma LocsConcat(w: int, h: int, sphere: SphereType, p: seq<(int, int)>, q: seq<(int, int)>)
    requires w > 0 && h > 0
    ensures Locs(w, h, sphere, p + q) == Locs(w, h, sphere, p) + Locs(w, h, sphere, q)
  {
  }

  /** Drawing two lists one after the other is drawing their concatenation. */
  lemma {:induction false} AddAllConcat(list: seq<SphereLoc>, a: seq<SphereLoc>, b: seq<SphereLoc>)
    ensures AddAll(AddAll(list, a), b) == AddAll(list, a + b)
    decreases |b|
  {
    if b == [] {
      assert a + b == a;
    } else {
      var init := b[..|b| - 1];
      AddAllConcat(list, a, init);
      assert (a + b)[..|a + b| - 1] == a + init;
    }
  }

  /** A drawing list started empty holds each of its points' entries exactly once, and
      nothing else. */
  lemma ListFromPoints(w: int, h: int, sphere: SphereType, pts: seq<(int, int)>)
    requires w > 0 && h > 0
    ensures var r := AddAll([], Locs(w, h, sphere, pts));
      NoDup(r) && AllInGrid(r, w, h) &&
      forall e :: e in r <==> exists p :: p in pts && e == SphereLoc(sphere, Wrap(p.0, w), Wrap(p.1, h))
  {
    var ss := Locs(w, h, sphere, pts);
    var r := AddAll([], ss);
    AddAllSpec([], ss);
    LocsMember(w, h, sphere, pts);
    LocsInGrid(w, h, sphere, pts);
    forall i | 0 <= i < |r|
      ensures 0 <= r[i].x < w && 0 <= r[i].y < h
    {
      assert r[i] in ss;
      var j :| 0 <= j < |ss| && ss[j] == r[i];
    }
  }

  /** A point of the list is entered, wrapped onto the layout. */
  lemma PointListed(w: int, h: int, sphere: SphereType, pts: seq<(int, int)>, p: (int, int))
    requires w > 0 && h > 0 && p in pts
    ensures SphereLoc(sphere, Wrap(p.0, w), Wrap(p.1, h)) in AddAll([], Locs(w, h, sphere, pts))
  {
    ListFromPoints(w, h, sphere, pts);
  }

  /** The rectangle-edge tool (`Tool.Rectangle`, `ShapeMode.Edge`): the four sides drawn
      into a new list. */
  method RectangleEdge(layout: LayoutData, sphere: SphereType, x: int, y: int, w: int, h: int)
    returns (drawlist: seq<SphereLoc>)
    requires layout.Valid()
    ensures drawlist == AddAll([], Locs(layout.Width, layout.Height, sphere, RectEdgePoints(x, y, w, h)))
  {
    var W, H := layout.Width as int, layout.Height as int;
    var xr, yb := x + w - 1, y + h - 1;
    ghost var s1, s2 := LinePoints(x, y, xr, y), LinePoints(x, y, x, yb);
    ghost var s3, s4 := LinePoints(x, yb, xr, yb), LinePoints(xr, y, xr, yb);
    drawlist := DrawLineList(layout, [], sphere, x, y, xr, y);
    drawlist := DrawLineList(layout, drawlist, sphere, x, y, x, yb);
    drawlist := DrawLineList(layout, drawlist, sphere, x, yb, xr, yb);
    drawlist := DrawLineList(layout, drawlist, sphere, xr, y, xr, yb);
    SumOfFour(W, H, sphere, s1, s2, s3, s4, RectEdgePoints(x, y, w, h));
  }

  /** The diamond-edge tool (`Tool.Diamond`, `ShapeMode.Edge`). */
  method DiamondEdge(layout: LayoutData, sphere: SphereType, x: int, y: int, w: int, h: int)
    returns (drawlist: seq<SphereLoc>)
    requires layout.Valid()
    ensures drawlist == AddAll([], Locs(layout.Width, layout.Height, sphere, DiamondPoints(x, y, w, h)))
  {
    var W, H := layout.Width as int, layout.Height as int;
    var c := DiamondCorners(x, y, w, h);
    ghost var s1, s2 := LinePoints(c.xm, c.yt, c.xr, c.ym), LinePoints(c.xr, c.ym, c.xm, c.yb);
    ghost var s3, s4 := LinePoints(c.xm, c.yb, c.xl, c.ym), LinePoints(c.xl, c.ym, c.xm, c.yt);
    drawlist := DrawLineList(layout, [], sphere, c.xm, c.yt, c.xr, c.ym);
    drawlist := DrawLineList(layout, drawlist, sphere, c.xr, c.ym, c.xm, c.yb);
    drawlist := DrawLineList(layout, drawlist, sphere, c.xm, c.yb, c.xl, c.ym);
    drawlist := DrawLineList(layout, drawlist, sphere, c.xl, c.ym, c.xm, c.yt);
    SumOfFour(W, H, sphere, s1, s2, s3, s4, DiamondOf(c));
  }

  /** Four lines drawn in turn into an empty list give the list of their concatenation. */
  lemma SumOfFour(w: int, h: int, sphere: SphereType, s1: seq<(int, int)>, s2: seq<(int, int)>,
                  s3: seq<(int, int)>, s4: seq<(int, int)>, pts: seq<(int, int)>)
    requires w > 0 && h > 0 && pts == s1 + s2 + s3 + s4
    ensures AddAll(AddAll(AddAll(AddAll([], Locs(w, h, sphere, s1)), Locs(w, h, sphere, s2)),
                          Locs(w, h, sphere, s3)), Locs(w, h, sphere, s4))
         == AddAll([], Locs(w, h, sphere, pts))
  {
    var l1, l2, l3, l4 := Locs(w, h, sphere, s1), Locs(w, h, sphere, s2), Locs(w, h, sphere, s3), Locs(w, h, sphere, s4);
    AddAllConcat([], l1, l2);
    AddAllConcat([], l1 + l2, l3);
    AddAllConcat([], l1 + l2 + l3, l4);
    LocsConcat(w, h, sphere, s1, s2);
    LocsConcat(w, h, sphere, s1 + s2, s3);
    LocsConcat(w, h, sphere, s1 + s2 + s3, s4);
  }

  /** The rectangle-edge list names every border cell of the (wrapped) rectangle once, with
      the sphere, and nothing else. */
  lemma RectangleEdgeList(W: int, H: int, sphere: SphereType, x: int, y: int, w: int, h: int)
    requires W > 0 && H > 0 && w >= 1 && h >= 1
    ensures var r := AddAll([], Locs(W, H, sphere, RectEdgePoints(x, y, w, h)));
      NoDup(r) && AllInGrid(r, W, H) &&
      forall e :: e in r <==>
        exists px, py :: OnBorder(px, py, x, y, w, h) && e == SphereLoc(sphere, Wrap(px, W), Wrap(py, H))
  {
    var pts := RectEdgePoints(x, y, w, h);
    ListFromPoints(W, H, sphere, pts);
    RectEdgeIsBorder(x, y, w, h);
    var r := AddAll([], Locs(W, H, sphere, pts));
    forall e
      ensures e in r <==> exists px, py :: OnBorder(px, py, x, y, w, h) && e == SphereLoc(sphere, Wrap(px, W), Wrap(py, H))
    {
      if e in r {
        var p :| p in pts && e == SphereLoc(sphere, Wrap(p.0, W), Wrap(p.1, H));
        assert OnBorder(p.0, p.1, x, y, w, h);
      }
      if exists px, py :: OnBorder(px, py, x, y, w, h) && e == SphereLoc(sphere, Wrap(px, W), Wrap(py, H)) {
        var px, py :| OnBorder(px, py, x, y, w, h) && e == SphereLoc(sphere, Wrap(px, W), Wrap(py, H));
        assert (px, py) in pts;
      }
    }
  }

  /** The diamond-edge list names wrapped cells of the diamond's rectangle, each once, with
      the sphere, among them the four vertices. */
  lemma DiamondEdgeList(W: int, H: int, sphere: SphereType, x: int, y: int, w: int, h: int)
    requires W > 0 && H > 0 && w >= 1 && h >= 1
    ensures var r := AddAll([], Locs(W, H, sphere, DiamondPoints(x, y, w, h)));
      var c := DiamondCorners(x, y, w, h);
      NoDup(r) && AllInGrid(r, W, H) &&
      (forall e :: e in r ==>
        exists p :: InSpan(p, c.xl, c.xr, c.yt, c.yb) && e == SphereLoc(sphere, Wrap(p.0, W), Wrap(p.1, H))) &&
      SphereLoc(sphere, Wrap(c.xm, W), Wrap(c.yt, H)) in r &&
      SphereLoc(sphere, Wrap(c.xr, W), Wrap(c.ym, H)) in r &&
      SphereLoc(sphere, Wrap(c.xm, W), Wrap(c.yb, H)) in r &&
      SphereLoc(sphere, Wrap(c.xl, W), Wrap(c.ym, H)) in r
  {
    DiamondOfList(W, H, sphere, DiamondCorners(x, y, w, h));
  }

  lemma DiamondOfList(W: int, H: int, sphere: SphereType, c: Corners)
    requires W > 0 && H > 0 && c.xl <= c.xm <= c.xr && c.yt <= c.ym <= c.yb
    ensures var r := AddAll([], Locs(W, H, sphere, DiamondOf(c)));
      NoDup(r) && AllInGrid(r, W, H) &&
      (forall e :: e in r ==>
        exists p :: InSpan(p, c.xl, c.xr, c.yt, c.yb) && e == SphereLoc(sphere, Wrap(p.0, W), Wrap(p.1, H))) &&
      SphereLoc(sphere, Wrap(c.xm, W), Wrap(c.yt, H)) in r &&
      SphereLoc(sphere, Wrap(c.xr, W), Wrap(c.ym, H)) in r &&
      SphereLoc(sphere, Wrap(c.xm, W), Wrap(c.yb, H)) in r &&
      SphereLoc(sphere, Wrap(c.xl, W), Wrap(c.ym, H)) in r
  {
    var pts := DiamondOf(c);
    ListFromPoints(W, H, sphere, pts);
    DiamondOfInSpan(c);
    PointListed(W, H, sphere, pts, (c.xm, c.yt));
    PointListed(W, H, sphere, pts, (c.xr, c.ym));
    PointListed(W, H, sphere, pts, (c.xm, c.yb));
    PointListed(W, H, sphere, pts, (c.xl, c.ym));
    var r := AddAll([], Locs(W, H, sphere, pts));
    forall e | e in r
      ensures exists p :: InSpan(p, c.xl, c.xr, c.yt, c.yb) && e == SphereLoc(sphere, Wrap(p.0, W), Wrap(p.1, H))
    {
      var p :| p in pts && e == SphereLoc(sphere, Wrap(p.0, W), Wrap(p.1, H));
      assert InSpan(p, c.xl, c.xr, c.yt, c.yb);
    }
  }

}
