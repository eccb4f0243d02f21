/**
 The fill tool: a breadth-first flood fill over the wrapped grid from the
 clicked cell through its left, right, upper and lower neighbours that hold
 the clicked cell's value, and the `AreaAction` that the marked cells become,
 cropped to their bounding box.
 */
module FloodFills {
  import opened Wrappers
  import opened SphereTypes
  import opened Grids
  import opened Patches
  import opened LayoutModel
  import opened Actions

  /** The four cells the fill looks at from `(x, y)`, in the order it looks at them: left,
      right, up, down, each wrapped round the grid. */
  function Neighbours(x: int, y: int, w: int, h: int): (ns: seq<(int, int)>)
    requires w > 0 && h > 0 && 0 <= x < w && 0 <= y < h
    ensures |ns| == 4 && forall k :: 0 <= k < 4 ==> 0 <= ns[k].0 < w && 0 <= ns[k].1 < h
  {
    [(Wrap(x - 1, w), y), (Wrap(x + 1, w), y), (x, Wrap(y - 1, h)), (x, Wrap(y + 1, h))]
  }

  /** A walk from neighbour to neighbour through cells that all hold `v`. */
  ghost predicate IsPath(g: Grid, v: SphereType, p: seq<(int, int)>)
    requires WfGrid(g)
  {
    |p| > 0 &&
    (forall k :: 0 <= k < |p| ==> 0 <= p[k].0 < Width(g) && 0 <= p[k].1 < Height(g) && g[p[k].0][p[k].1] == v) &&
    (forall k :: 0 < k < |p| ==> p[k] in Neighbours(p[k - 1].0, p[k - 1].1, Width(g), Height(g)))
  }

  /** Cell `b` can be reached from cell `a` through cells holding `v`. */
  ghost predicate Reaches(g: Grid, v: SphereType, a: (int, int), b: (int, int))
    requires WfGrid(g)
  {
    exists p :: IsPath(g, v, p) && p[0] == a && p[|p| - 1] == b
  }

  /** A cell holding `v` reaches itself. */
  lemma ReachSelf(g: Grid, v: SphereType, a: (int, int))
    requires WfGrid(g) && 0 <= a.0 < Width(g) && 0 <= a.1 < Height(g) && g[a.0][a.1] == v
    ensures Reaches(g, v, a, a)
  {
    assert IsPath(g, v, [a]);
  }

  /** A reached cell's neighbour that holds `v` is reached too. */
  lemma ReachStep(g: Grid, v: SphereType, a: (int, int), b: (int, int), c: (int, int))
    requires WfGrid(g) && Reaches(g, v, a, b) && 0 <= b.0 < Width(g) && 0 <= b.1 < Height(g)
    requires c in Neighbours(b.0, b.1, Width(g), Height(g)) && g[c.0][c.1] == v
    ensures Reaches(g, v, a, c)
  {
    var p :| IsPath(g, v, p) && p[0] == a && p[|p| - 1] == b;
    var q := p + [c];
    assert forall k :: 0 <= k < |p| ==> q[k] == p[k];
    assert IsPath(g, v, q);
  }

  /** The fill as a value: `sphere` at every cell reached from `s` through cells holding
      the value of `s`, nothing elsewhere. */
  ghost function Reached(g: Grid, s: (int, int), sphere: SphereType): (f: seq<seq<Option<SphereType>>>)
    requires WfGrid(g) && 0 <= s.0 < Width(g) && 0 <= s.1 < Height(g)
    ensures IsGrid(f, Width(g), Height(g))
  {
    seq(Width(g), x requires 0 <= x < Width(g) =>
      seq(Height(g), y requires 0 <= y < Height(g) =>
        if Reaches(g, g[s.0][s.1], s, (x, y)) then Some(sphere) else None))
  }

  /** Every neighbour of `(x, y)` that holds `v` is marked, that is, not in `unmarked`. */
  ghost predicate Closed(g: Grid, v: SphereType, unmarked: set<(int, int)>, x: int, y: int)
    requires WfGrid(g) && 0 <= x < Width(g) && 0 <= y < Height(g)
  {
    forall k :: 0 <= k < 4 ==>
      var n := Neighbours(x, y, Width(g), Height(g))[k];
      g[n.0][n.1] == v ==> n !in unmarked
  }

  /** The search state between two steps of the fill: marked cells are reached from `s`;
      the queue holds marked cells; and every marked cell that has left the queue has all
      its matching neighbours marked. */
  ghost predicate Frontier(g: Grid, v: SphereType, s: (int, int), pts: seq<(int, int)>, unmarked: set<(int, int)>)
    requires WfGrid(g)
  {
    var w, h := Width(g), Height(g);
    (forall c :: c in unmarked ==> 0 <= c.0 < w && 0 <= c.1 < h) &&
    (forall x, y {:trigger Reaches(g, v, s, (x, y))} ::
      0 <= x < w && 0 <= y < h && (x, y) !in unmarked ==> Reaches(g, v, s, (x, y))) &&
    (forall k :: 0 <= k < |pts| ==> 0 <= pts[k].0 < w && 0 <= pts[k].1 < h && pts[k] !in unmarked) &&
    (forall x, y {:trigger Closed(g, v, unmarked, x, y)} ::
      0 <= x < w && 0 <= y < h && (x, y) !in unmarked && (x, y) !in pts ==> Closed(g, v, unmarked, x, y))
  }

  /** `fillgrid` holds `sphere` at the marked cells and nothing elsewhere. */
  ghost predicate Marks(f: array2<Option<SphereType>>, sphere: SphereType, unmarked: set<(int, int)>)
    reads f
  {
    forall x, y :: 0 <= x < f.Length0 && 0 <= y < f.Length1 ==>
      f[x, y] == if (x, y) in unmarked then None else Some(sphere)
  }

  /** Marking and queueing a reached cell keeps the search state. */
  lemma FrontierPush(g: Grid, v: SphereType, s: (int, int), pts: seq<(int, int)>, unmarked: set<(int, int)>, c: (int, int))
    requires WfGrid(g) && Frontier(g, v, s, pts, unmarked) && c in unmarked && Reaches(g, v, s, c)
    ensures Frontier(g, v, s, pts + [c], unmarked - {c})
  {
    var u := unmarked - {c};
    forall x, y | 0 <= x < Width(g) && 0 <= y < Height(g) && (x, y) !in u && (x, y) !in pts + [c]
      ensures Closed(g, v, u, x, y)
    {
      assert Closed(g, v, unmarked, x, y);
    }
  }

  /** Dropping the head of the queue keeps the search state once the head is closed. */
  lemma FrontierPop(g: Grid, v: SphereType, s: (int, int), pts: seq<(int, int)>, unmarked: set<(int, int)>)
    requires WfGrid(g) && Frontier(g, v, s, pts, unmarked) && |pts| > 0
    requires Closed(g, v, unmarked, pts[0].0, pts[0].1)
    ensures Frontier(g, v, s, pts[1..], unmarked)
  {
    forall x, y | 0 <= x < Width(g) && 0 <= y < Height(g) && (x, y) !in unmarked && (x, y) !in pts[1..]
      ensures Closed(g, v, unmarked, x, y)
    {
      if (x, y) != pts[0] {
        assert (x, y) !in pts;
      }
    }
  }

  /** One neighbour check of the fill loop: a neighbour `(x, y)` of the dequeued cell `pt`
      that holds `v` and is not yet marked gets marked and queued. */
  method Visit(a: array2<SphereType>, ghost g: Grid, v: SphereType, ghost s: (int, int), sphere: SphereType,
               f: array2<Option<SphereType>>, pts: seq<(int, int)>, ghost unmarked: set<(int, int)>,
               ghost pt: (int, int), x: int, y: int)
    returns (pts': seq<(int, int)>, ghost unmarked': set<(int, int)>)
    requires WfGrid(g) && Holds(a, g) && f.Length0 == Width(g) && f.Length1 == Height(g)
    requires Frontier(g, v, s, pts, unmarked) && Marks(f, sphere, unmarked)
    requires 0 <= pt.0 < Width(g) && 0 <= pt.1 < Height(g) && pt !in unmarked
    requires (x, y) in Neighbours(pt.0, pt.1, Width(g), Height(g))
    modifies f
    ensures Frontier(g, v, s, pts', unmarked') && Marks(f, sphere, unmarked')
    ensures g[x][y] == v ==> (x, y) !in unmarked'
    ensures unmarked' <= unmarked
    ensures (pts' == pts && unmarked' == unmarked) || (|unmarked'| < |unmarked| && pts' == pts + [(x, y)])
  {
    if a[x, y] == v && f[x, y].None? {
      ReachStep(g, v, s, pt, (x, y));
      FrontierPush(g, v, s, pts, unmarked, (x, y));
      f[x, y] := Some(sphere);
      pts' := pts + [(x, y)];
      unmarked' := unmarked - {(x, y)};
    } else {
      pts', unmarked' := pts, unmarked;
    }
  }

  /** Every cell of the grid. */
  function AllCells(w: int, h: int): (cells: set<(int, int)>)
    ensures forall x, y :: (x, y) in cells <==> 0 <= x < w && 0 <= y < h
  {
    set x, y | 0 <= x < w && 0 <= y < h :: (x, y)
  }

  /** One turn of the fill loop: the head of the queue is dequeued and its four
      neighbours are visited in order. Either more cells are marked, or nothing is marked
      and the queue is one shorter. */
  method Expand(layout: LayoutData, ghost g: Grid, v: SphereType, ghost s: (int, int), sphere: SphereType,
                f: array2<Option<SphereType>>, pts: seq<(int, int)>, ghost unmarked: set<(int, int)>)
    returns (pts': seq<(int, int)>, ghost unmarked': set<(int, int)>)
    requires layout.Valid() && WfGrid(g) && Holds(layout.Layout, g)
    requires f.Length0 == layout.Width && f.Length1 == layout.Height
    requires Frontier(g, v, s, pts, unmarked) && Marks(f, sphere, unmarked) && |pts| > 0
    modifies f
    ensures Frontier(g, v, s, pts', unmarked') && Marks(f, sphere, unmarked')
    ensures unmarked' <= unmarked
    ensures |unmarked'| < |unmarked| || (unmarked' == unmarked && |pts'| < |pts|)
  {
    // The source dequeues first and enqueues afterwards; appending before dropping the
    // head leaves the same queue.
    var pt := pts[0];
    var left, right := layout.WrapH(pt.0 - 1), layout.WrapH(pt.0 + 1);
    var up, down := layout.WrapV(pt.1 - 1), layout.WrapV(pt.1 + 1);
    assert Neighbours(pt.0, pt.1, Width(g), Height(g)) == [(left, pt.1), (right, pt.1), (pt.0, up), (pt.0, down)];
    pts', unmarked' := VisitPair(layout.Layout, g, v, s, sphere, f, pts, unmarked, pt, left, pt.1, right, pt.1);
    ghost var u2 := unmarked';
    pts', unmarked' := VisitPair(layout.Layout, g, v, s, sphere, f, pts', unmarked', pt, pt.0, up, pt.0, down);
    CloseHead(g, v, unmarked', pt.0, pt.1, left, right, up, down);
    FrontierPop(g, v, s, pts', unmarked');
    pts' := pts'[1..];
  }

  /** Two neighbour checks in a row; the queue only grows at its end. */
  method VisitPair(a: array2<SphereType>, ghost g: Grid, v: SphereType, ghost s: (int, int), sphere: SphereType,
                   f: array2<Option<SphereType>>, pts: seq<(int, int)>, ghost unmarked: set<(int, int)>,
                   ghost pt: (int, int), x1: int, y1: int, x2: int, y2: int)
    returns (pts': seq<(int, int)>, ghost unmarked': set<(int, int)>)
    requires WfGrid(g) && Holds(a, g) && f.Length0 == Width(g) && f.Length1 == Height(g)
    requires Frontier(g, v, s, pts, unmarked) && Marks(f, sphere, unmarked)
    requires 0 <= pt.0 < Width(g) && 0 <= pt.1 < Height(g) && pt !in unmarked
    requires (x1, y1) in Neighbours(pt.0, pt.1, Width(g), Height(g))
    requires (x2, y2) in Neighbours(pt.0, pt.1, Width(g), Height(g))
    modifies f
    ensures Frontier(g, v, s, pts', unmarked') && Marks(f, sphere, unmarked')
    ensures g[x1][y1] == v ==> (x1, y1) !in unmarked'
    ensures g[x2][y2] == v ==> (x2, y2) !in unmarked'
    ensures unmarked' <= unmarked && pts <= pts'
    ensures (pts' == pts && unmarked' == unmarked) || |unmarked'| < |unmarked|
  {
    pts', unmarked' := Visit(a, g, v, s, sphere, f, pts, unmarked, pt, x1, y1);
    ghost var u1 := unmarked';
    pts', unmarked' := Visit(a, g, v, s, sphere, f, pts', unmarked', pt, x2, y2);
    assert g[x1][y1] == v ==> (x1, y1) !in u1;
  }

  /** A cell whose four neighbours that hold `v` are all marked is closed. */
  lemma CloseHead(g: Grid, v: SphereType, unmarked: set<(int, int)>, x: int, y: int, left: int, right: int, up: int, down: int)
    requires WfGrid(g) && 0 <= x < Width(g) && 0 <= y < Height(g)
    requires Neighbours(x, y, Width(g), Height(g)) == [(left, y), (right, y), (x, up), (x, down)]
    requires g[left][y] == v ==> (left, y) !in unmarked
    requires g[right][y] == v ==> (right, y) !in unmarked
    requires g[x][up] == v ==> (x, up) !in unmarked
    requires g[x][down] == v ==> (x, down) !in unmarked
    ensures Closed(g, v, unmarked, x, y)
  {
  }

  /** The flood fill of the fill tool: `fillgrid` marks with `sphere` exactly the cells
      reached from `(sx, sy)` through cells holding the value of `(sx, sy)`. */
  method FloodFill(layout: LayoutData, sx: int, sy: int, sphere: SphereType) returns (fillgrid: array2<Option<SphereType>>)
    requires layout.Valid() && 0 <= sx < layout.Width && 0 <= sy < layout.Height
    ensures fresh(fillgrid)
    ensures Holds(fillgrid, Reached(old(layout.Value()).grid, (sx, sy), sphere))
  {
    ghost var g := layout.Value().grid;
    var w, h := layout.Width as int, layout.Height as int;
    var oldind := layout.Layout[sx, sy];
    var pts := [(sx, sy)];
    fillgrid := new Option<SphereType>[w, h]((_, _) => None);
    fillgrid[sx, sy] := Some(sphere);
    ghost var unmarked := AllCells(w, h) - {(sx, sy)};
    ReachSelf(g, oldind, (sx, sy));
    while |pts| > 0
      invariant fillgrid.Length0 == w && fillgrid.Length1 == h
      invariant Frontier(g, oldind, (sx, sy), pts, unmarked) && Marks(fillgrid, sphere, unmarked)
      invariant (sx, sy) !in unmarked
      decreases |unmarked|, |pts|
    {
      pts, unmarked := Expand(layout, g, oldind, (sx, sy), sphere, fillgrid, pts, unmarked);
    }
    assert pts == [];
    FillComplete(g, oldind, (sx, sy), unmarked);
    MarksAreReached(g, (sx, sy), sphere, fillgrid, unmarked);
  }

  /** Marks that are exactly the reached cells are the fill's value. */
  lemma MarksAreReached(g: Grid, s: (int, int), sphere: SphereType, f: array2<Option<SphereType>>, unmarked: set<(int, int)>)
    requires WfGrid(g) && 0 <= s.0 < Width(g) && 0 <= s.1 < Height(g)
    requires forall x, y :: 0 <= x < Width(g) && 0 <= y < Height(g) ==>
      ((x, y) !in unmarked <==> Reaches(g, g[s.0][s.1], s, (x, y)))
    requires f.Length0 == Width(g) && f.Length1 == Height(g) && Marks(f, sphere, unmarked)
    ensures Holds(f, Reached(g, s, sphere))
  {
    var r := Reached(g, s, sphere);
    assert forall x, y :: 0 <= x < Width(g) && 0 <= y < Height(g) ==>
      r[x][y] == if (x, y) in unmarked then None else Some(sphere);
    MarksHold(f, r, sphere, unmarked);
  }

  /** Marks that agree with a grid of options cell by cell hold that grid. */
  lemma MarksHold(f: array2<Option<SphereType>>, r: seq<seq<Option<SphereType>>>, sphere: SphereType, unmarked: set<(int, int)>)
    requires IsGrid(r, f.Length0, f.Length1) && Marks(f, sphere, unmarked)
    requires forall x, y :: 0 <= x < f.Length0 && 0 <= y < f.Length1 ==>
      r[x][y] == if (x, y) in unmarked then None else Some(sphere)
    ensures Holds(f, r)
  {
  }

  /** When the queue runs empty the marked cells are exactly the reached ones. */
  lemma FillComplete(g: Grid, v: SphereType, s: (int, int), unmarked: set<(int, int)>)
    requires WfGrid(g) && Frontier(g, v, s, [], unmarked)
    requires 0 <= s.0 < Width(g) && 0 <= s.1 < Height(g) && s !in unmarked
    ensures forall x, y :: 0 <= x < Width(g) && 0 <= y < Height(g) ==>
      ((x, y) !in unmarked <==> Reaches(g, v, s, (x, y)))
  {
    forall x, y | 0 <= x < Width(g) && 0 <= y < Height(g) && Reaches(g, v, s, (x, y))
      ensures (x, y) !in unmarked
    {
      var p :| IsPath(g, v, p) && p[0] == s && p[|p| - 1] == (x, y);
      PathMarked(g, v, unmarked, p);
    }
  }

  /** Once no marked cell waits in the queue, every walk from a marked cell ends on a
      marked cell. */
  lemma {:induction false} PathMarked(g: Grid, v: SphereType, unmarked: set<(int, int)>, p: seq<(int, int)>)
    requires WfGrid(g) && IsPath(g, v, p) && p[0] !in unmarked
    requires forall x, y :: 0 <= x < Width(g) && 0 <= y < Height(g) && (x, y) !in unmarked ==> Closed(g, v, unmarked, x, y)
    ensures p[|p| - 1] !in unmarked
    decreases |p|
  {
    if |p| > 1 {
      var q := p[..|p| - 1];
      assert IsPath(g, v, q);
      PathMarked(g, v, unmarked, q);
      var b, c := p[|p| - 2], p[|p| - 1];
      var ns := Neighbours(b.0, b.1, Width(g), Height(g));
      var k :| 0 <= k < 4 && ns[k] == c;
      assert Closed(g, v, unmarked, b.0, b.1);
    }
  }

  /** A reached cell holds the value the walk went through. */
  lemma ReachedHolds(g: Grid, v: SphereType, a: (int, int), b: (int, int))
    requires WfGrid(g) && Reaches(g, v, a, b)
    ensures 0 <= b.0 < Width(g) && 0 <= b.1 < Height(g) && g[b.0][b.1] == v
  {
    var p :| IsPath(g, v, p) && p[0] == a && p[|p| - 1] == b;
    assert p[|p| - 1] == b;
  }

  /** The layout after the fill: `sphere` at every reached cell, the old value elsewhere. */
  ghost function Filled(g: Grid, s: (int, int), sphere: SphereType): (r: Grid)
    requires WfGrid(g) && 0 <= s.0 < Width(g) && 0 <= s.1 < Height(g)
    ensures WfGrid(r) && IsGrid(r, Width(g), Height(g))
  {
    seq(Width(g), x requires 0 <= x < Width(g) =>
      seq(Height(g), y requires 0 <= y < Height(g) =>
        if Reaches(g, g[s.0][s.1], s, (x, y)) then sphere else g[x][y]))
  }

  /** The fill changes only cells that held the clicked cell's value, always changes the
      clicked cell, and leaves no matching neighbour of a filled cell unfilled. */
  lemma FilledRegion(g: Grid, s: (int, int), sphere: SphereType)
    requires WfGrid(g) && 0 <= s.0 < Width(g) && 0 <= s.1 < Height(g)
    ensures Filled(g, s, sphere)[s.0][s.1] == sphere
    ensures forall x, y :: 0 <= x < Width(g) && 0 <= y < Height(g) && Filled(g, s, sphere)[x][y] != g[x][y] ==>
      g[x][y] == g[s.0][s.1]
    ensures forall x, y, k ::
      0 <= x < Width(g) && 0 <= y < Height(g) && 0 <= k < 4 && Reaches(g, g[s.0][s.1], s, (x, y)) &&
      g[Neighbours(x, y, Width(g), Height(g))[k].0][Neighbours(x, y, Width(g), Height(g))[k].1] == g[s.0][s.1]
      ==> Reaches(g, g[s.0][s.1], s, Neighbours(x, y, Width(g), Height(g))[k])
  {
    var v := g[s.0][s.1];
    ReachSelf(g, v, s);
    forall x, y | 0 <= x < Width(g) && 0 <= y < Height(g) && Filled(g, s, sphere)[x][y] != g[x][y]
      ensures g[x][y] == v
    {
      ReachedHolds(g, v, s, (x, y));
    }
    forall x, y, k | 0 <= x < Width(g) && 0 <= y < Height(g) && 0 <= k < 4 &&
      Reaches(g, v, s, (x, y)) &&
      g[Neighbours(x, y, Width(g), Height(g))[k].0][Neighbours(x, y, Width(g), Height(g))[k].1] == v
      ensures Reaches(g, v, s, Neighbours(x, y, Width(g), Height(g))[k])
    {
      ReachStep(g, v, s, (x, y), Neighbours(x, y, Width(g), Height(g))[k]);
    }
  }

  // ---------------------------------------------------------------------------------
  // The cropping `AreaAction` constructor

  /** Column `x` of `spheres` has a cell with a value. */
  ghost predicate ColumnMarked(spheres: array2<Option<SphereType>>, x: int)
    reads spheres
  {
    0 <= x < spheres.Length0 && exists y :: 0 <= y < spheres.Length1 && spheres[x, y].Some?
  }

  /** Row `y` of `spheres` has a cell with a value. */
  ghost predicate RowMarked(spheres: array2<Option<SphereType>>, y: int)
    reads spheres
  {
    0 <= y < spheres.Length1 && exists x :: 0 <= x < spheres.Length0 && spheres[x, y].Some?
  }

  /** The bounding box scan of the cropping constructor: `minX` and `minY` start at the
      width and height, `maxX` and `maxY` at -1, and every cell with a value widens the box
      to take it in. */
  method MarkedBounds(spheres: array2<Option<SphereType>>) returns (minX: int, minY: int, maxX: int, maxY: int)
    ensures forall x, y :: 0 <= x < spheres.Length0 && 0 <= y < spheres.Length1 && spheres[x, y].Some? ==>
      minX <= x <= maxX && minY <= y <= maxY
    ensures maxX == -1 ==> minX == spheres.Length0 && minY == spheres.Length1 && maxY == -1
    ensures maxX != -1 ==>
      0 <= minX <= maxX < spheres.Length0 && 0 <= minY <= maxY < spheres.Length1 &&
      ColumnMarked(spheres, minX) && ColumnMarked(spheres, maxX) &&
      RowMarked(spheres, minY) && RowMarked(spheres, maxY)
  {
    var w, h := spheres.Length0, spheres.Length1;
    minX, minY, maxX, maxY := w, h, -1, -1;
    ghost var yMinX, yMaxX, xMinY, xMaxY := 0, 0, 0, 0;
    var y := 0;
    while y < h
      invariant 0 <= y <= h
      invariant forall i, j :: 0 <= i < w && 0 <= j < y && spheres[i, j].Some? ==>
        minX <= i <= maxX && minY <= j <= maxY
      invariant maxX == -1 ==> minX == w && minY == h && maxY == -1
      invariant maxX != -1 ==>
        0 <= minX <= maxX < w && 0 <= minY <= maxY < h &&
        0 <= yMinX < h && 0 <= yMaxX < h && 0 <= xMinY < w && 0 <= xMaxY < w &&
        spheres[minX, yMinX].Some? && spheres[maxX, yMaxX].Some? &&
        spheres[xMinY, minY].Some? && spheres[xMaxY, maxY].Some?
    {
      var x := 0;
      while x < w
        invariant 0 <= x <= w
        invariant forall i, j :: 0 <= i < w && 0 <= j < h && (j < y || (j == y && i < x)) && spheres[i, j].Some? ==>
          minX <= i <= maxX && minY <= j <= maxY
        invariant maxX == -1 ==> minX == w && minY == h && maxY == -1
        invariant maxX != -1 ==>
          0 <= minX <= maxX < w && 0 <= minY <= maxY < h &&
          0 <= yMinX < h && 0 <= yMaxX < h && 0 <= xMinY < w && 0 <= xMaxY < w &&
          spheres[minX, yMinX].Some? && spheres[maxX, yMaxX].Some? &&
          spheres[xMinY, minY].Some? && spheres[xMaxY, maxY].Some?
      {
        if spheres[x, y].Some? {
          if x < minX { yMinX := y; }
          if x > maxX { yMaxX := y; }
          if y < minY { xMinY := x; }
          if y > maxY { xMaxY := x; }
          minX := if minX < x then minX else x;
          minY := if minY < y then minY else y;
          maxX := if maxX < x then x else maxX;
          maxY := if maxY < y then y else maxY;
        }
        x := x + 1;
      }
      y := y + 1;
    }
  }

  /** The copy loop of the cropping constructor: the `cw` by `ch` window of `spheres` whose
      top-left corner is (`x0`, `y0`). */
  method CopyWindow(spheres: array2<Option<SphereType>>, x0: int, y0: int, cw: int, ch: int)
    returns (crop: array2<Option<SphereType>>)
    requires 0 <= x0 && 0 < cw && x0 + cw <= spheres.Length0
    requires 0 <= y0 && 0 < ch && y0 + ch <= spheres.Length1
    ensures fresh(crop) && crop.Length0 == cw && crop.Length1 == ch
    ensures forall i, j {:trigger crop[i, j]} :: 0 <= i < cw && 0 <= j < ch ==> crop[i, j] == spheres[x0 + i, y0 + j]
  {
    crop := new Option<SphereType>[cw, ch]((_, _) => None);
    var y := y0;
    while y < y0 + ch
      invariant y0 <= y <= y0 + ch
      invariant forall i, j :: 0 <= i < cw && 0 <= j < y - y0 ==> crop[i, j] == spheres[x0 + i, y0 + j]
    {
      var x := x0;
      while x < x0 + cw
        invariant x0 <= x <= x0 + cw
        invariant forall i, j :: 0 <= i < cw && 0 <= j < ch && (j < y - y0 || (j == y - y0 && i < x - x0)) ==>
          crop[i, j] == spheres[x0 + i, y0 + j]
      {
        crop[x - x0, y - y0] := spheres[x, y];
        x := x + 1;
      }
      y := y + 1;
    }
  }

  /** `AreaAction(spheres, size)`: the patch cut down to the bounding box of its cells with
      a value, placed at the box's top-left corner; a patch whose box is already the whole
      array is kept as it is. The flood fill always marks the clicked cell, so there is at
      least one such cell (for none the source would allocate an array of negative size). */
  method CropToMarked(spheres: array2<Option<SphereType>>) returns (p: Patch, px: int, py: int)
    requires exists x, y :: 0 <= x < spheres.Length0 && 0 <= y < spheres.Length1 && spheres[x, y].Some?
    ensures WfPatch(p) && Width(p) >= 1 && Height(p) >= 1
    ensures 0 <= px && px + Width(p) <= spheres.Length0 && 0 <= py && py + Height(p) <= spheres.Length1
    ensures forall x, y {:trigger p[x][y]} :: 0 <= x < Width(p) && 0 <= y < Height(p) ==> p[x][y] == spheres[px + x, py + y]
    ensures forall x, y :: 0 <= x < spheres.Length0 && 0 <= y < spheres.Length1 && spheres[x, y].Some? ==>
      px <= x < px + Width(p) && py <= y < py + Height(p)
    ensures ColumnMarked(spheres, px) && ColumnMarked(spheres, px + Width(p) - 1)
    ensures RowMarked(spheres, py) && RowMarked(spheres, py + Height(p) - 1)
  {
    var minX, minY, maxX, maxY := MarkedBounds(spheres);
    ghost var x0, y0 :| 0 <= x0 < spheres.Length0 && 0 <= y0 < spheres.Length1 && spheres[x0, y0].Some?;
    assert maxX != -1;
    p := BoxPatch(spheres, minX, minY, maxX, maxY);
    px, py := minX, minY;
  }

  /** The patch the cropping constructor keeps for the box from (`minX`, `minY`) to
      (`maxX`, `maxY`): the array itself when the box is all of it, a copy of the window
      otherwise. */
  method BoxPatch(spheres: array2<Option<SphereType>>, minX: int, minY: int, maxX: int, maxY: int) returns (p: Patch)
    requires 0 <= minX <= maxX < spheres.Length0 && 0 <= minY <= maxY < spheres.Length1
    ensures WfPatch(p) && Width(p) == maxX - minX + 1 && Height(p) == maxY - minY + 1
    ensures forall x, y {:trigger p[x][y]} :: 0 <= x < Width(p) && 0 <= y < Height(p) ==> p[x][y] == spheres[minX + x, minY + y]
  {
    if minX == 0 && minY == 0 && maxX == spheres.Length0 - 1 && maxY == spheres.Length1 - 1 {
      p := Snapshot(spheres);
      WholeWindow(spheres, p);
    } else {
      var crop := CopyWindow(spheres, minX, minY, maxX - minX + 1, maxY - minY + 1);
      p := Snapshot(crop);
    }
  }

  /** A snapshot of the whole array is its window at the origin. */
  lemma WholeWindow(spheres: array2<Option<SphereType>>, p: Patch)
    requires Holds(spheres, p) && spheres.Length0 > 0
    ensures Width(p) == spheres.Length0 && Height(p) == spheres.Length1
    ensures forall x, y {:trigger p[x][y]} :: 0 <= x < Width(p) && 0 <= y < Height(p) ==> p[x][y] == spheres[0 + x, 0 + y]
  {
  }

  /** Placing the cropped patch at its corner paints the same cells as placing the whole
      uncropped one at the origin. */
  lemma CropOverlay(g: Grid, f: Patch, p: Patch, px: int, py: int)
    requires WfGrid(g) && IsGrid(f, Width(g), Height(g)) && WfPatch(p)
    requires 0 <= px && px + Width(p) <= Width(g) && 0 <= py && py + Height(p) <= Height(g)
    requires forall x, y :: 0 <= x < Width(p) && 0 <= y < Height(p) ==> p[x][y] == f[px + x][py + y]
    requires forall x, y :: 0 <= x < Width(g) && 0 <= y < Height(g) && f[x][y].Some? ==>
      px <= x < px + Width(p) && py <= y < py + Height(p)
    ensures Overlay(g, p, px, py) == Overlay(g, f, 0, 0)
  {
    var w, h := Width(g), Height(g);
    var cropped, whole := Overlay(g, p, px, py), Overlay(g, f, 0, 0);
    forall cx, cy | 0 <= cx < w && 0 <= cy < h
      ensures cropped[cx][cy] == whole[cx][cy]
    {
      OverlayCell(g, p, px, py, cx, cy);
      OverlayCell(g, f, 0, 0, cx, cy);
      WrapWindow(cx, px, Width(p), w);
      WrapWindow(cy, py, Height(p), h);
      WrapIdentity(cx, w);
      WrapIdentity(cy, h);
      if px <= cx < px + Width(p) && py <= cy < py + Height(p) {
        assert p[cx - px][cy - py] == f[cx][cy];
      } else {
        assert f[cx][cy].None?;
      }
    }
    GridExt(cropped, whole, w, h);
  }

  /** The whole marked grid placed at the origin is the filled layout. */
  lemma ReachedOverlay(g: Grid, s: (int, int), sphere: SphereType)
    requires WfGrid(g) && 0 <= s.0 < Width(g) && 0 <= s.1 < Height(g)
    ensures Overlay(g, Reached(g, s, sphere), 0, 0) == Filled(g, s, sphere)
  {
    var w, h := Width(g), Height(g);
    var f := Reached(g, s, sphere);
    var placed, filled := Overlay(g, f, 0, 0), Filled(g, s, sphere);
    forall cx, cy | 0 <= cx < w && 0 <= cy < h
      ensures placed[cx][cy] == filled[cx][cy]
    {
      OverlayCell(g, f, 0, 0, cx, cy);
      WrapIdentity(cx, w);
      WrapIdentity(cy, h);
    }
    GridExt(placed, filled, w, h);
  }

  /** The clicked cell is always marked. */
  lemma ReachedStart(g: Grid, s: (int, int), sphere: SphereType)
    requires WfGrid(g) && 0 <= s.0 < Width(g) && 0 <= s.1 < Height(g)
    ensures Reached(g, s, sphere)[s.0][s.1] == Some(sphere)
  {
    ReachSelf(g, g[s.0][s.1], s);
  }

  /** The cropped patch, done at its corner, fills the reached cells. */
  lemma CropFills(g: Grid, s: (int, int), sphere: SphereType, fillgrid: array2<Option<SphereType>>, p: Patch, px: int, py: int)
    requires WfGrid(g) && 0 <= s.0 < Width(g) && 0 <= s.1 < Height(g)
    requires Holds(fillgrid, Reached(g, s, sphere)) && WfPatch(p)
    requires 0 <= px && px + Width(p) <= fillgrid.Length0 && 0 <= py && py + Height(p) <= fillgrid.Length1
    requires forall x, y :: 0 <= x < Width(p) && 0 <= y < Height(p) ==> p[x][y] == fillgrid[px + x, py + y]
    requires forall x, y :: 0 <= x < fillgrid.Length0 && 0 <= y < fillgrid.Length1 && fillgrid[x, y].Some? ==>
      px <= x < px + Width(p) && py <= y < py + Height(p)
    ensures AreaApply(g, p, px, py).0 == Filled(g, s, sphere)
  {
    var f := Reached(g, s, sphere);
    assert fillgrid.Length0 == |f| == Width(g) && fillgrid.Length1 == |f[0]| == Height(g);
    CropOverlay(g, f, p, px, py);
    AreaApplyIsOverlay(g, p, px, py);
    ReachedOverlay(g, s, sphere);
  }

  /** The fill tool on a mouse press: no action when the clicked cell already holds the
      sphere; otherwise the flood fill's cropped `FillAction`, which, done, puts `sphere` at
      every cell reached from the clicked one and leaves every other cell alone. */
  method FillTool(layout: LayoutData, x: int, y: int, sphere: SphereType) returns (d: Option<ActionData>)
    requires layout.Valid() && 0 <= x < layout.Width && 0 <= y < layout.Height
    ensures d.None? <==> layout.Layout[x, y] == sphere
    ensures d.Some? ==> d.value.AreaData? && ValidAction(d.value, layout.Width as int, layout.Height as int)
    ensures d.Some? ==> Apply(layout.Value(), d.value).0.grid == Filled(layout.Value().grid, (x, y), sphere)
  {
    if layout.Layout[x, y] == sphere {
      return None;
    }
    ghost var g := layout.Value().grid;
    ReachedStart(g, (x, y), sphere);
    var fillgrid := FloodFill(layout, x, y, sphere);
    assert fillgrid[x, y].Some?;
    var p, px, py := CropToMarked(fillgrid);
    CropFills(g, (x, y), sphere, fillgrid, p, px, py);
    d := Some(AreaData(p, px, py));
  }
}
