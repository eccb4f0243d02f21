/**
 What `AreaAction.Do` and `AreaFillAction.Do` do to a grid, as values.
 A patch is indexed `[x][y]` like the C# `SphereType?[,]` (sparse) and
 `SphereType[,]` (dense) arrays; entry `(x, y)` lands on the wrapped cell
 `(WrapH(x + px), WrapV(y + py))`. Entries are written row by row (`y`
 outer, `x` inner), so when a patch is larger than the grid the last entry
 to land on a cell wins.
 */
module Patches {
  import opened Wrappers
  import opened SphereTypes
  import opened Grids

  /** `SphereType?[,]`: only entries with a value are written. */
  type Patch = seq<seq<Option<SphereType>>>

  /** `SphereType[,]`: every entry is written. */
  type DensePatch = seq<seq<SphereType>>

  predicate WfPatch<T>(p: seq<seq<T>>)
  {
    IsGrid(p, Width(p), Height(p))
  }

  /** Two sparse patches of one shape with values at the same entries. */
  predicate SameMask(p: Patch, q: Patch)
  {
    WfPatch(p) && IsGrid(q, Width(p), Height(p)) &&
    forall x, y :: 0 <= x < Width(p) && 0 <= y < Height(p) ==> (p[x][y].Some? <==> q[x][y].Some?)
  }

  /** The dense patch seen as a sparse one with a value everywhere. */
  function Lift(p: DensePatch): (r: Patch)
    requires WfPatch(p)
    ensures WfPatch(r) && Width(r) == Width(p) && Height(r) == Height(p)
    ensures forall x, y :: 0 <= x < Width(p) && 0 <= y < Height(p) ==> r[x][y] == Some(p[x][y])
  {
    seq(Width(p), x requires 0 <= x < Width(p) =>
      seq(Height(p), y requires 0 <= y < Height(p) => Some(p[x][y])))
  }

  /** Every value of `p` is the value that `h` holds under it. */
  ghost predicate Consistent(p: Patch, px: int, py: int, h: Grid)
    requires WfPatch(p) && WfGrid(h)
  {
    forall x, y :: 0 <= x < Width(p) && 0 <= y < Height(p) && p[x][y].Some? ==>
      p[x][y].value == h[Wrap(x + px, Width(h))][Wrap(y + py, Height(h))]
  }

  /** The grid after writing entries `0 .. n-1` of row `y`. */
  function WriteRow(g: Grid, p: Patch, px: int, py: int, y: int, n: nat): (r: Grid)
    requires WfGrid(g) && WfPatch(p) && 0 <= y < Height(p) && n <= Width(p)
    ensures WfGrid(r) && IsGrid(r, Width(g), Height(g))
    decreases n
  {
    if n == 0 then g
    else
      var r := WriteRow(g, p, px, py, y, n - 1);
      match p[n - 1][y]
      case None => r
      case Some(v) => Set(r, Wrap(n - 1 + px, Width(g)), Wrap(y + py, Height(g)), v)
  }

  /** The grid after writing rows `0 .. m-1`. */
  function WriteRows(g: Grid, p: Patch, px: int, py: int, m: nat): (r: Grid)
    requires WfGrid(g) && WfPatch(p) && m <= Height(p)
    ensures WfGrid(r) && IsGrid(r, Width(g), Height(g))
    decreases m
  {
    if m == 0 then g else WriteRow(WriteRows(g, p, px, py, m - 1), p, px, py, m - 1, Width(p))
  }

  /** Some entry `0 .. n-1` of row `y` that has a value lands on `(cx, cy)`. */
  predicate RowCovers(p: Patch, px: int, py: int, w: int, h: int, y: int, n: nat, cx: int, cy: int)
    requires WfPatch(p) && w > 0 && h > 0 && 0 <= y < Height(p) && n <= Width(p)
    decreases n
  {
    n > 0 &&
    (RowCovers(p, px, py, w, h, y, n - 1, cx, cy) ||
     (p[n - 1][y].Some? && Wrap(n - 1 + px, w) == cx && Wrap(y + py, h) == cy))
  }

  /** Some entry of rows `0 .. m-1` that has a value lands on `(cx, cy)`. */
  predicate RowsCover(p: Patch, px: int, py: int, w: int, h: int, m: nat, cx: int, cy: int)
    requires WfPatch(p) && w > 0 && h > 0 && m <= Height(p)
    decreases m
  {
    m > 0 &&
    (RowsCover(p, px, py, w, h, m - 1, cx, cy) || RowCovers(p, px, py, w, h, m - 1, Width(p), cx, cy))
  }

  /** The footprint of the whole patch on a `w` by `h` grid. */
  predicate Covers(p: Patch, px: int, py: int, w: int, h: int, cx: int, cy: int)
    requires WfPatch(p) && w > 0 && h > 0
  {
    RowsCover(p, px, py, w, h, Height(p), cx, cy)
  }

  /** Writing one row leaves the cells it does not cover alone, and a row consistent
      with `h` leaves `h`'s values on the cells it covers. */
  lemma {:induction false} WriteRowAt(g: Grid, p: Patch, px: int, py: int, y: int, n: nat, h: Grid)
    requires WfGrid(g) && WfPatch(p) && 0 <= y < Height(p) && n <= Width(p)
    requires IsGrid(h, Width(g), Height(g))
    ensures forall cx, cy :: 0 <= cx < Width(g) && 0 <= cy < Height(g) ==>
      var r := WriteRow(g, p, px, py, y, n);
      (!RowCovers(p, px, py, Width(g), Height(g), y, n, cx, cy) ==> r[cx][cy] == g[cx][cy]) &&
      (Consistent(p, px, py, h) && RowCovers(p, px, py, Width(g), Height(g), y, n, cx, cy) ==> r[cx][cy] == h[cx][cy])
    decreases n
  {
    if n > 0 {
      WriteRowAt(g, p, px, py, y, n - 1, h);
    }
  }

  /** The same for rows `0 .. m-1`. */
  lemma {:induction false} WriteRowsAt(g: Grid, p: Patch, px: int, py: int, m: nat, h: Grid)
    requires WfGrid(g) && WfPatch(p) && m <= Height(p)
    requires IsGrid(h, Width(g), Height(g))
    ensures forall cx, cy :: 0 <= cx < Width(g) && 0 <= cy < Height(g) ==>
      var r := WriteRows(g, p, px, py, m);
      (!RowsCover(p, px, py, Width(g), Height(g), m, cx, cy) ==> r[cx][cy] == g[cx][cy]) &&
      (Consistent(p, px, py, h) && RowsCover(p, px, py, Width(g), Height(g), m, cx, cy) ==> r[cx][cy] == h[cx][cy])
    decreases m
  {
    if m > 0 {
      WriteRowsAt(g, p, px, py, m - 1, h);
      WriteRowAt(WriteRows(g, p, px, py, m - 1), p, px, py, m - 1, Width(p), h);
    }
  }

  /** The footprint depends only on which entries have a value. */
  lemma {:induction false} RowCoversMask(p: Patch, q: Patch, px: int, py: int, w: int, h: int, y: int, n: nat, cx: int, cy: int)
    requires SameMask(p, q) && w > 0 && h > 0 && 0 <= y < Height(p) && n <= Width(p)
    ensures RowCovers(p, px, py, w, h, y, n, cx, cy) == RowCovers(q, px, py, w, h, y, n, cx, cy)
    decreases n
  {
    if n > 0 {
      RowCoversMask(p, q, px, py, w, h, y, n - 1, cx, cy);
    }
  }

  lemma {:induction false} RowsCoverMask(p: Patch, q: Patch, px: int, py: int, w: int, h: int, m: nat, cx: int, cy: int)
    requires SameMask(p, q) && w > 0 && h > 0 && m <= Height(p)
    ensures RowsCover(p, px, py, w, h, m, cx, cy) == RowsCover(q, px, py, w, h, m, cx, cy)
    decreases m
  {
    if m > 0 {
      RowsCoverMask(p, q, px, py, w, h, m - 1, cx, cy);
      RowCoversMask(p, q, px, py, w, h, m - 1, Width(p), cx, cy);
    }
  }

  /** An entry with a value is in the footprint at its wrapped target. */
  lemma {:induction false} RowCoversEntry(p: Patch, px: int, py: int, w: int, h: int, y: int, n: nat, x: int)
    requires WfPatch(p) && w > 0 && h > 0 && 0 <= y < Height(p) && 0 <= x < n <= Width(p)
    requires p[x][y].Some?
    ensures RowCovers(p, px, py, w, h, y, n, Wrap(x + px, w), Wrap(y + py, h))
    decreases n
  {
    if x < n - 1 {
      RowCoversEntry(p, px, py, w, h, y, n - 1, x);
    }
  }

  lemma {:induction false} RowsCoverEntry(p: Patch, px: int, py: int, w: int, h: int, m: nat, x: int, y: int)
    requires WfPatch(p) && w > 0 && h > 0 && 0 <= x < Width(p) && 0 <= y < m <= Height(p)
    requires p[x][y].Some?
    ensures RowsCover(p, px, py, w, h, m, Wrap(x + px, w), Wrap(y + py, h))
    decreases m
  {
    if y < m - 1 {
      RowsCoverEntry(p, px, py, w, h, m - 1, x, y);
    } else {
      RowCoversEntry(p, px, py, w, h, y, Width(p), x);
    }
  }

  /** What the first loop of `AreaAction.Do` collects: the grid values under the entries that have one. */
  function ReadPatch(g: Grid, p: Patch, px: int, py: int): (r: Patch)
    requires WfGrid(g) && WfPatch(p)
    ensures SameMask(p, r) && SameMask(r, p) && Width(r) == Width(p) && Height(r) == Height(p)
    ensures Consistent(r, px, py, g)
  {
    seq(Width(p), x requires 0 <= x < Width(p) =>
      seq(Height(p), y requires 0 <= y < Height(p) =>
        if p[x][y].Some? then Some(g[Wrap(x + px, Width(g))][Wrap(y + py, Height(g))]) else None))
  }

  /** What the first loop of `AreaFillAction.Do` collects: the grid values under every entry. */
  function ReadDense(g: Grid, pw: nat, ph: nat, px: int, py: int): (r: DensePatch)
    requires WfGrid(g)
    ensures IsGrid(r, pw, ph) && (pw > 0 ==> Width(r) == pw && Height(r) == ph)
  {
    seq(pw, x requires 0 <= x < pw =>
      seq(ph, y requires 0 <= y < ph => g[Wrap(x + px, Width(g))][Wrap(y + py, Height(g))]))
  }

  /** One `AreaAction.Do`: the new grid and the patch the action keeps. */
  function AreaApply(g: Grid, p: Patch, px: int, py: int): (r: (Grid, Patch))
    requires WfGrid(g) && WfPatch(p)
  {
    (WriteRows(g, p, px, py, Height(p)), ReadPatch(g, p, px, py))
  }

  /** One `AreaFillAction.Do`. */
  function AreaFillApply(g: Grid, p: DensePatch, px: int, py: int): (r: (Grid, DensePatch))
    requires WfGrid(g) && WfPatch(p)
  {
    (WriteRows(g, Lift(p), px, py, Height(p)), ReadDense(g, Width(p), Height(p), px, py))
  }

  /** The second `Do` of a sparse patch puts back every cell of the grid, even when
      entries of the patch land on the same cell. */
  lemma AreaApplyTwice(g: Grid, p: Patch, px: int, py: int)
    requires WfGrid(g) && WfPatch(p)
    ensures AreaApply(AreaApply(g, p, px, py).0, AreaApply(g, p, px, py).1, px, py).0 == g
  {
    var (g1, t) := AreaApply(g, p, px, py);
    var (g2, _) := AreaApply(g1, t, px, py);
    var w, h := Width(g), Height(g);
    WriteRowsAt(g, p, px, py, Height(p), g);
    WriteRowsAt(g1, t, px, py, Height(t), g);
    forall cx, cy | 0 <= cx < w && 0 <= cy < h
      ensures g2[cx][cy] == g[cx][cy]
    {
      RowsCoverMask(p, t, px, py, w, h, Height(p), cx, cy);
    }
    GridExt(g2, g, w, h);
  }

  /** The intended effect of a patch that fits the grid, cell by cell: a cell whose
      source entry `(Wrap(cx - px), Wrap(cy - py))` lies in the patch and has a value
      gets that value; every other cell keeps its own. */
  function Overlay(g: Grid, p: Patch, px: int, py: int): (r: Grid)
    requires WfGrid(g) && WfPatch(p)
    ensures WfGrid(r) && IsGrid(r, Width(g), Height(g))
  {
    var w, h := Width(g), Height(g);
    seq(w, cx requires 0 <= cx < w =>
      seq(h, cy requires 0 <= cy < h =>
        var x0, y0 := Wrap(cx - px, w), Wrap(cy - py, h);
        if x0 < Width(p) && y0 < Height(p) && p[x0][y0].Some? then p[x0][y0].value else g[cx][cy]))
  }

  /** One cell of `Overlay`. */
  lemma OverlayCell(g: Grid, p: Patch, px: int, py: int, cx: int, cy: int)
    requires WfGrid(g) && WfPatch(p) && 0 <= cx < Width(g) && 0 <= cy < Height(g)
    ensures var x0, y0 := Wrap(cx - px, Width(g)), Wrap(cy - py, Height(g));
      Overlay(g, p, px, py)[cx][cy] == if x0 < Width(p) && y0 < Height(p) && p[x0][y0].Some? then p[x0][y0].value else g[cx][cy]
  {
  }

  /** Each entry with a value lands, unwrapped back, on itself. */
  lemma OverlayConsistent(g: Grid, p: Patch, px: int, py: int)
    requires WfGrid(g) && WfPatch(p)
    requires Width(p) <= Width(g) && Height(p) <= Height(g)
    ensures Consistent(p, px, py, Overlay(g, p, px, py))
  {
    var w, h := Width(g), Height(g);
    forall x, y | 0 <= x < Width(p) && 0 <= y < Height(p) && p[x][y].Some?
      ensures p[x][y].value == Overlay(g, p, px, py)[Wrap(x + px, w)][Wrap(y + py, h)]
    {
      WrapAdd(x + px, -px, w);
      WrapAdd(y + py, -py, h);
      WrapIdentity(x, w);
      WrapIdentity(y, h);
    }
  }

  /** A cell whose source entry has a value is written by the rows of the patch. */
  lemma OverlayCovered(p: Patch, px: int, py: int, w: int, h: int, cx: int, cy: int)
    requires WfPatch(p) && 0 <= cx < w && 0 <= cy < h
    requires var x0, y0 := Wrap(cx - px, w), Wrap(cy - py, h);
      x0 < Width(p) && y0 < Height(p) && p[x0][y0].Some?
    ensures RowsCover(p, px, py, w, h, Height(p), cx, cy)
  {
    var x0, y0 := Wrap(cx - px, w), Wrap(cy - py, h);
    RowsCoverEntry(p, px, py, w, h, Height(p), x0, y0);
    WrapAdd(cx - px, px, w);
    WrapAdd(cy - py, py, h);
    WrapIdentity(cx, w);
    WrapIdentity(cy, h);
  }

  /** For a patch no larger than the grid, the row-by-row writes of `AreaAction.Do`
      are exactly the overlay: no entry overwrites another. */
  lemma AreaApplyIsOverlay(g: Grid, p: Patch, px: int, py: int)
    requires WfGrid(g) && WfPatch(p)
    requires Width(p) <= Width(g) && Height(p) <= Height(g)
    ensures AreaApply(g, p, px, py).0 == Overlay(g, p, px, py)
  {
    var w, h := Width(g), Height(g);
    var hg := Overlay(g, p, px, py);
    var r := AreaApply(g, p, px, py).0;
    OverlayConsistent(g, p, px, py);
    WriteRowsAt(g, p, px, py, Height(p), hg);
    forall cx, cy | 0 <= cx < w && 0 <= cy < h
      ensures r[cx][cy] == hg[cx][cy]
    {
      var x0, y0 := Wrap(cx - px, w), Wrap(cy - py, h);
      OverlayCell(g, p, px, py, cx, cy);
      if x0 < Width(p) && y0 < Height(p) && p[x0][y0].Some? {
        OverlayCovered(p, px, py, w, h, cx, cy);
      }
    }
    GridExt(r, hg, w, h);
  }

  /** A patch no larger than the grid is itself restored by the second `Do`:
      the kept patch holds exactly the values that were written. */
  lemma AreaApplyTwicePatch(g: Grid, p: Patch, px: int, py: int)
    requires WfGrid(g) && WfPatch(p)
    requires Width(p) <= Width(g) && Height(p) <= Height(g)
    ensures AreaApply(AreaApply(g, p, px, py).0, AreaApply(g, p, px, py).1, px, py).1 == p
  {
    var (g1, t) := AreaApply(g, p, px, py);
    var t2 := AreaApply(g1, t, px, py).1;
    var w, h := Width(g), Height(g);
    var hg := Overlay(g, p, px, py);
    OverlayConsistent(g, p, px, py);
    WriteRowsAt(g, p, px, py, Height(p), hg);
    forall x, y | 0 <= x < Width(p) && 0 <= y < Height(p)
      ensures t2[x][y] == p[x][y]
    {
      if p[x][y].Some? {
        RowsCoverEntry(p, px, py, w, h, Height(p), x, y);
      }
    }
    GridExt(t2, p, Width(p), Height(p));
  }

  /** Reading under a lifted patch is lifting the dense read. */
  lemma ReadLift(g: Grid, p: DensePatch, px: int, py: int)
    requires WfGrid(g) && WfPatch(p)
    ensures Width(p) > 0 ==> WfPatch(ReadDense(g, Width(p), Height(p), px, py))
    ensures Width(p) > 0 ==> Lift(ReadDense(g, Width(p), Height(p), px, py)) == ReadPatch(g, Lift(p), px, py)
  {
    if Width(p) > 0 {
      var d := ReadDense(g, Width(p), Height(p), px, py);
      GridExt(Lift(d), ReadPatch(g, Lift(p), px, py), Width(p), Height(p));
    }
  }

  /** The second `AreaFillAction.Do` puts back every cell of the grid. */
  lemma AreaFillApplyTwice(g: Grid, p: DensePatch, px: int, py: int)
    requires WfGrid(g) && WfPatch(p)
    ensures
      var (g1, t) := AreaFillApply(g, p, px, py);
      WfPatch(t) && AreaFillApply(g1, t, px, py).0 == g
  {
    var (g1, t) := AreaFillApply(g, p, px, py);
    if Width(p) == 0 {
      assert g1 == g;
    } else {
      ReadLift(g, p, px, py);
      AreaApplyTwice(g, Lift(p), px, py);
    }
  }

  /** A dense patch no larger than the grid is restored by the second `Do`. */
  lemma AreaFillApplyTwicePatch(g: Grid, p: DensePatch, px: int, py: int)
    requires WfGrid(g) && WfPatch(p) && Width(p) > 0
    requires Width(p) <= Width(g) && Height(p) <= Height(g)
    ensures
      var (g1, t) := AreaFillApply(g, p, px, py);
      WfPatch(t) && AreaFillApply(g1, t, px, py).1 == p
  {
    var (g1, t) := AreaFillApply(g, p, px, py);
    ReadLift(g, p, px, py);
    AreaApplyTwicePatch(g, Lift(p), px, py);
    var t2 := AreaFillApply(g1, t, px, py).1;
    ReadLift(g1, t, px, py);
    assert Lift(t2) == Lift(p);
    forall x, y | 0 <= x < Width(p) && 0 <= y < Height(p) ensures t2[x][y] == p[x][y] {
      assert Lift(t2)[x][y] == Lift(p)[x][y];
    }
    GridExt(t2, p, Width(p), Height(p));
  }
}
