/**
 The selection transforms: `FlipHorizontallyAction`, `FlipVerticallyAction`
 and `RotateAction`. Each `Do` clones the grid and rewrites the cells of a
 rectangle from the clone, without wrap-around. The value functions say which
 old cell every new cell comes from; the methods are the C# loops.
 */
module Transforms {
  import opened SphereTypes
  import opened Grids

  /** `System.Drawing.Rectangle` as used for selections: a corner and a size. */
  datatype Rect = Rect(x: int, y: int, w: nat, h: nat)

  predicate Inside(r: Rect, cx: int, cy: int)
  {
    r.x <= cx < r.x + r.w && r.y <= cy < r.y + r.h
  }

  /** The rectangle lies on a `w` by `h` grid, so indexing it needs no wrap. */
  predicate FitsIn(r: Rect, w: int, h: int)
  {
    0 <= r.x && r.x + r.w <= w && 0 <= r.y && r.y + r.h <= h
  }

  /** The cells a rotation of `r` writes: `r` turned on its corner, `h` wide and `w` high. */
  function Turned(r: Rect): Rect
  {
    Rect(r.x, r.y, r.h, r.w)
  }

  /** Mirror column `cx` of `r` (`area.Right - x - 1` for `cx = area.X + x`). */
  function MirrorX(r: Rect, cx: int): int
  {
    2 * r.x + r.w - 1 - cx
  }

  /** Mirror row `cy` of `r` (`area.Bottom - y - 1` for `cy = area.Y + y`). */
  function MirrorY(r: Rect, cy: int): int
  {
    2 * r.y + r.h - 1 - cy
  }

  /** The grid after `FlipHorizontallyAction.Do`. */
  function FlipH(g: Grid, r: Rect): (f: Grid)
    requires WfGrid(g) && FitsIn(r, Width(g), Height(g))
    ensures WfGrid(f) && IsGrid(f, Width(g), Height(g))
    ensures forall cx, cy :: 0 <= cx < Width(g) && 0 <= cy < Height(g) && Inside(r, cx, cy) ==>
      Inside(r, MirrorX(r, cx), cy) && f[cx][cy] == g[MirrorX(r, cx)][cy]
    ensures forall cx, cy :: 0 <= cx < Width(g) && 0 <= cy < Height(g) && !Inside(r, cx, cy) ==>
      f[cx][cy] == g[cx][cy]
  {
    seq(Width(g), cx requires 0 <= cx < Width(g) =>
      seq(Height(g), cy requires 0 <= cy < Height(g) =>
        if Inside(r, cx, cy) then g[MirrorX(r, cx)][cy] else g[cx][cy]))
  }

  /** The grid after `FlipVerticallyAction.Do`. */
  function FlipV(g: Grid, r: Rect): (f: Grid)
    requires WfGrid(g) && FitsIn(r, Width(g), Height(g))
    ensures WfGrid(f) && IsGrid(f, Width(g), Height(g))
    ensures forall cx, cy :: 0 <= cx < Width(g) && 0 <= cy < Height(g) && Inside(r, cx, cy) ==>
      Inside(r, cx, MirrorY(r, cy)) && f[cx][cy] == g[cx][MirrorY(r, cy)]
    ensures forall cx, cy :: 0 <= cx < Width(g) && 0 <= cy < Height(g) && !Inside(r, cx, cy) ==>
      f[cx][cy] == g[cx][cy]
  {
    seq(Width(g), cx requires 0 <= cx < Width(g) =>
      seq(Height(g), cy requires 0 <= cy < Height(g) =>
        if Inside(r, cx, cy) then g[cx][MirrorY(r, cy)] else g[cx][cy]))
  }

  /** A rotation reads `r` and writes `Turned(r)`; both must lie on the grid. */
  predicate RotateFits(r: Rect, w: int, h: int)
  {
    FitsIn(r, w, h) && FitsIn(Turned(r), w, h)
  }

  /** The old cell that a clockwise rotation moves to `(cx, cy)`. */
  function RightSource(r: Rect, cx: int, cy: int): (int, int)
  {
    (r.x + (cy - r.y), r.y + (r.x + r.h - 1 - cx))
  }

  /** The old cell that a counter-clockwise rotation moves to `(cx, cy)`. */
  function LeftSource(r: Rect, cx: int, cy: int): (int, int)
  {
    (r.x + (r.y + r.w - 1 - cy), r.y + (cx - r.x))
  }

  /** The grid after a clockwise `RotateAction.Do`: old cell `(X + x, Y + y)` moves to
      `(X + h - y - 1, Y + x)`. Cells of `r` outside `Turned(r)` keep their value. */
  function RotateRight(g: Grid, r: Rect): (f: Grid)
    requires WfGrid(g) && RotateFits(r, Width(g), Height(g))
    ensures WfGrid(f) && IsGrid(f, Width(g), Height(g))
    ensures forall cx, cy :: 0 <= cx < Width(g) && 0 <= cy < Height(g) && Inside(Turned(r), cx, cy) ==>
      Inside(r, RightSource(r, cx, cy).0, RightSource(r, cx, cy).1) &&
      f[cx][cy] == g[RightSource(r, cx, cy).0][RightSource(r, cx, cy).1]
    ensures forall cx, cy :: 0 <= cx < Width(g) && 0 <= cy < Height(g) && !Inside(Turned(r), cx, cy) ==>
      f[cx][cy] == g[cx][cy]
  {
    seq(Width(g), cx requires 0 <= cx < Width(g) =>
      seq(Height(g), cy requires 0 <= cy < Height(g) =>
        if Inside(Turned(r), cx, cy) then g[RightSource(r, cx, cy).0][RightSource(r, cx, cy).1] else g[cx][cy]))
  }

  /** The grid after a counter-clockwise `RotateAction.Do`: old cell `(X + x, Y + y)`
      moves to `(X + y, Y + w - x - 1)`. */
  function RotateLeft(g: Grid, r: Rect): (f: Grid)
    requires WfGrid(g) && RotateFits(r, Width(g), Height(g))
    ensures WfGrid(f) && IsGrid(f, Width(g), Height(g))
    ensures forall cx, cy :: 0 <= cx < Width(g) && 0 <= cy < Height(g) && Inside(Turned(r), cx, cy) ==>
      Inside(r, LeftSource(r, cx, cy).0, LeftSource(r, cx, cy).1) &&
      f[cx][cy] == g[LeftSource(r, cx, cy).0][LeftSource(r, cx, cy).1]
    ensures forall cx, cy :: 0 <= cx < Width(g) && 0 <= cy < Height(g) && !Inside(Turned(r), cx, cy) ==>
      f[cx][cy] == g[cx][cy]
  {
    seq(Width(g), cx requires 0 <= cx < Width(g) =>
      seq(Height(g), cy requires 0 <= cy < Height(g) =>
        if Inside(Turned(r), cx, cy) then g[LeftSource(r, cx, cy).0][LeftSource(r, cx, cy).1] else g[cx][cy]))
  }

  /** Flipping the same area twice gives back the grid. */
  lemma FlipHTwice(g: Grid, r: Rect)
    requires WfGrid(g) && FitsIn(r, Width(g), Height(g))
    ensures FlipH(FlipH(g, r), r) == g
  {
    var f := FlipH(g, r);
    var f2 := FlipH(f, r);
    forall cx, cy | 0 <= cx < Width(g) && 0 <= cy < Height(g)
      ensures f2[cx][cy] == g[cx][cy]
    {
      if Inside(r, cx, cy) {
        var mx := MirrorX(r, cx);
        assert MirrorX(r, mx) == cx;
        assert f2[cx][cy] == f[mx][cy] == g[cx][cy];
      }
    }
    GridExt(f2, g, Width(g), Height(g));
  }

  lemma FlipVTwice(g: Grid, r: Rect)
    requires WfGrid(g) && FitsIn(r, Width(g), Height(g))
    ensures FlipV(FlipV(g, r), r) == g
  {
    var f := FlipV(g, r);
    var f2 := FlipV(f, r);
    forall cx, cy | 0 <= cx < Width(g) && 0 <= cy < Height(g)
      ensures f2[cx][cy] == g[cx][cy]
    {
      if Inside(r, cx, cy) {
        var my := MirrorY(r, cy);
        assert MirrorY(r, my) == cy;
        assert f2[cx][cy] == f[cx][my] == g[cx][cy];
      }
    }
    GridExt(f2, g, Width(g), Height(g));
  }

  /** On a square area (the only kind the rotate commands accept), rotating right and
      then left gives back the grid. */
  lemma RotateRightLeft(g: Grid, r: Rect)
    requires WfGrid(g) && FitsIn(r, Width(g), Height(g)) && r.w == r.h
    ensures RotateLeft(RotateRight(g, r), r) == g
  {
    var f2 := RotateLeft(RotateRight(g, r), r);
    forall cx, cy | 0 <= cx < Width(g) && 0 <= cy < Height(g)
      ensures f2[cx][cy] == g[cx][cy]
    {
      RotateRightLeftAt(g, r, cx, cy);
    }
    GridExt(f2, g, Width(g), Height(g));
  }

  lemma RotateRightLeftAt(g: Grid, r: Rect, cx: int, cy: int)
    requires WfGrid(g) && FitsIn(r, Width(g), Height(g)) && r.w == r.h
    requires 0 <= cx < Width(g) && 0 <= cy < Height(g)
    ensures RotateLeft(RotateRight(g, r), r)[cx][cy] == g[cx][cy]
  {
    if Inside(r, cx, cy) {
      var s := LeftSource(r, cx, cy);
      assert RightSource(r, s.0, s.1) == (cx, cy);
    }
  }

  /** And rotating left and then right gives back the grid. */
  lemma RotateLeftRight(g: Grid, r: Rect)
    requires WfGrid(g) && FitsIn(r, Width(g), Height(g)) && r.w == r.h
    ensures RotateRight(RotateLeft(g, r), r) == g
  {
    var f2 := RotateRight(RotateLeft(g, r), r);
    forall cx, cy | 0 <= cx < Width(g) && 0 <= cy < Height(g)
      ensures f2[cx][cy] == g[cx][cy]
    {
      RotateLeftRightAt(g, r, cx, cy);
    }
    GridExt(f2, g, Width(g), Height(g));
  }

  lemma RotateLeftRightAt(g: Grid, r: Rect, cx: int, cy: int)
    requires WfGrid(g) && FitsIn(r, Width(g), Height(g)) && r.w == r.h
    requires 0 <= cx < Width(g) && 0 <= cy < Height(g)
    ensures RotateRight(RotateLeft(g, r), r)[cx][cy] == g[cx][cy]
  {
    if Inside(r, cx, cy) {
      var s := RightSource(r, cx, cy);
      assert LeftSource(r, s.0, s.1) == (cx, cy);
    }
  }

  /** The cell `(cx, cy)` has been rewritten once the loops are past iteration `(ix, iy)`. */
  predicate Done(iy: int, ix: int, y: int, x: int)
  {
    iy < y || (iy == y && ix < x)
  }

  /** `FlipHorizontallyAction.Do` on the layout array. */
  method FlipHorizontally(a: array2<SphereType>, r: Rect)
    requires a.Length0 > 0 && a.Length1 > 0 && FitsIn(r, a.Length0, a.Length1)
    modifies a
    ensures Holds(a, FlipH(old(Snapshot(a)), r))
  {
    ghost var g := Snapshot(a);
    var copy := CloneArray(a);
    var y := 0;
    while y < r.h
      invariant 0 <= y <= r.h
      invariant Holds(copy, g)
      invariant forall cx, cy :: 0 <= cx < a.Length0 && 0 <= cy < a.Length1 ==>
        a[cx, cy] == if Inside(r, cx, cy) && cy - r.y < y then g[MirrorX(r, cx)][cy] else g[cx][cy]
    {
      MirrorRow(a, copy, g, r, y);
      y := y + 1;
    }
    assert Holds(a, FlipH(g, r));
  }

  /** One pass of the inner loop of `FlipHorizontallyAction.Do`: row `r.y + y` of the area
      mirrored from the copy. */
  method MirrorRow(a: array2<SphereType>, copy: array2<SphereType>, ghost g: Grid, r: Rect, y: int)
    requires a != copy && Holds(copy, g) && copy.Length0 == a.Length0 && copy.Length1 == a.Length1
    requires FitsIn(r, a.Length0, a.Length1) && 0 <= y < r.h
    modifies a
    ensures forall cx, cy :: 0 <= cx < a.Length0 && 0 <= cy < a.Length1 ==>
      a[cx, cy] == if cy == r.y + y && r.x <= cx < r.x + r.w then g[MirrorX(r, cx)][cy] else old(a[cx, cy])
  {
    var x := 0;
    while x < r.w
      invariant 0 <= x <= r.w
      invariant forall cx, cy :: 0 <= cx < a.Length0 && 0 <= cy < a.Length1 ==>
        a[cx, cy] == if cy == r.y + y && r.x <= cx < r.x + x then g[MirrorX(r, cx)][cy] else old(a[cx, cy])
    {
      a[r.x + x, r.y + y] := copy[r.x + r.w - x - 1, r.y + y];
      x := x + 1;
    }
  }

  /** `FlipVerticallyAction.Do` on the layout array. */
  method FlipVertically(a: array2<SphereType>, r: Rect)
    requires a.Length0 > 0 && a.Length1 > 0 && FitsIn(r, a.Length0, a.Length1)
    modifies a
    ensures Holds(a, FlipV(old(Snapshot(a)), r))
  {
    ghost var g := Snapshot(a);
    var copy := CloneArray(a);
    var y := 0;
    while y < r.h
      invariant 0 <= y <= r.h
      invariant Holds(copy, g)
      invariant forall cx, cy :: 0 <= cx < a.Length0 && 0 <= cy < a.Length1 ==>
        a[cx, cy] == if Inside(r, cx, cy) && cy - r.y < y then g[cx][MirrorY(r, cy)] else g[cx][cy]
    {
      MirrorColumnRow(a, copy, g, r, y);
      y := y + 1;
    }
    assert Holds(a, FlipV(g, r));
  }

  /** One pass of the inner loop of `FlipVerticallyAction.Do`: row `r.y + y` of the area
      taken from the mirrored row of the copy. */
  method MirrorColumnRow(a: array2<SphereType>, copy: array2<SphereType>, ghost g: Grid, r: Rect, y: int)
    requires a != copy && Holds(copy, g) && copy.Length0 == a.Length0 && copy.Length1 == a.Length1
    requires FitsIn(r, a.Length0, a.Length1) && 0 <= y < r.h
    modifies a
    ensures forall cx, cy :: 0 <= cx < a.Length0 && 0 <= cy < a.Length1 ==>
      a[cx, cy] == if cy == r.y + y && r.x <= cx < r.x + r.w then g[cx][MirrorY(r, cy)] else old(a[cx, cy])
  {
    var x := 0;
    while x < r.w
      invariant 0 <= x <= r.w
      invariant forall cx, cy :: 0 <= cx < a.Length0 && 0 <= cy < a.Length1 ==>
        a[cx, cy] == if cy == r.y + y && r.x <= cx < r.x + x then g[cx][MirrorY(r, cy)] else old(a[cx, cy])
    {
      a[r.x + x, r.y + y] := copy[r.x + x, r.y + r.h - y - 1];
      x := x + 1;
    }
  }

  /** `RotateAction.Do` on the layout array, in the direction `right`. */
  method Rotate(a: array2<SphereType>, r: Rect, right: bool)
    requires a.Length0 > 0 && a.Length1 > 0 && RotateFits(r, a.Length0, a.Length1)
    modifies a
    ensures Holds(a, if right then RotateRight(old(Snapshot(a)), r) else RotateLeft(old(Snapshot(a)), r))
  {
    if right {
      RotateClockwise(a, r);
    } else {
      RotateCounterClockwise(a, r);
    }
  }

  /** The `right` branch of `RotateAction.Do`. */
  method RotateClockwise(a: array2<SphereType>, r: Rect)
    requires a.Length0 > 0 && a.Length1 > 0 && RotateFits(r, a.Length0, a.Length1)
    modifies a
    ensures Holds(a, RotateRight(old(Snapshot(a)), r))
  {
    ghost var g := Snapshot(a);
    var copy := CloneArray(a);
    var y := 0;
    while y < r.h
      invariant 0 <= y <= r.h
      invariant Holds(copy, g)
      invariant forall cx, cy :: 0 <= cx < a.Length0 && 0 <= cy < a.Length1 ==>
        a[cx, cy] == if Inside(Turned(r), cx, cy) && r.x + r.h - 1 - cx < y
          then g[RightSource(r, cx, cy).0][RightSource(r, cx, cy).1] else g[cx][cy]
    {
      RightColumn(a, copy, g, r, y);
      y := y + 1;
    }
    assert Holds(a, RotateRight(g, r));
  }

  /** One pass of the inner loop of the clockwise rotation: row `r.y + y` of the area
      becomes column `r.x + r.h - 1 - y`, top to bottom. */
  method RightColumn(a: array2<SphereType>, copy: array2<SphereType>, ghost g: Grid, r: Rect, y: int)
    requires a != copy && Holds(copy, g) && copy.Length0 == a.Length0 && copy.Length1 == a.Length1
    requires RotateFits(r, a.Length0, a.Length1) && 0 <= y < r.h
    modifies a
    ensures forall cx, cy :: 0 <= cx < a.Length0 && 0 <= cy < a.Length1 ==>
      a[cx, cy] == if cx == r.x + r.h - 1 - y && r.y <= cy < r.y + r.w
        then g[RightSource(r, cx, cy).0][RightSource(r, cx, cy).1] else old(a[cx, cy])
  {
    var x := 0;
    while x < r.w
      invariant 0 <= x <= r.w
      invariant forall cx, cy :: 0 <= cx < a.Length0 && 0 <= cy < a.Length1 ==>
        a[cx, cy] == if cx == r.x + r.h - 1 - y && r.y <= cy < r.y + x
          then g[RightSource(r, cx, cy).0][RightSource(r, cx, cy).1] else old(a[cx, cy])
    {
      a[r.x + r.h - y - 1, r.y + x] := copy[r.x + x, r.y + y];
      x := x + 1;
    }
  }

  /** The other branch of `RotateAction.Do`. */
  method RotateCounterClockwise(a: array2<SphereType>, r: Rect)
    requires a.Length0 > 0 && a.Length1 > 0 && RotateFits(r, a.Length0, a.Length1)
    modifies a
    ensures Holds(a, RotateLeft(old(Snapshot(a)), r))
  {
    ghost var g := Snapshot(a);
    var copy := CloneArray(a);
    var y := 0;
    while y < r.h
      invariant 0 <= y <= r.h
      invariant Holds(copy, g)
      invariant forall cx, cy :: 0 <= cx < a.Length0 && 0 <= cy < a.Length1 ==>
        a[cx, cy] == if Inside(Turned(r), cx, cy) && cx - r.x < y
          then g[LeftSource(r, cx, cy).0][LeftSource(r, cx, cy).1] else g[cx][cy]
    {
      LeftColumn(a, copy, g, r, y);
      y := y + 1;
    }
    assert Holds(a, RotateLeft(g, r));
  }

  /** One pass of the inner loop of the counter-clockwise rotation: row `r.y + y` of the
      area becomes column `r.x + y`, bottom to top. */
  method LeftColumn(a: array2<SphereType>, copy: array2<SphereType>, ghost g: Grid, r: Rect, y: int)
    requires a != copy && Holds(copy, g) && copy.Length0 == a.Length0 && copy.Length1 == a.Length1
    requires RotateFits(r, a.Length0, a.Length1) && 0 <= y < r.h
    modifies a
    ensures forall cx, cy :: 0 <= cx < a.Length0 && 0 <= cy < a.Length1 ==>
      a[cx, cy] == if cx == r.x + y && r.y <= cy < r.y + r.w
        then g[LeftSource(r, cx, cy).0][LeftSource(r, cx, cy).1] else old(a[cx, cy])
  {
    var x := 0;
    while x < r.w
      invariant 0 <= x <= r.w
      invariant forall cx, cy :: 0 <= cx < a.Length0 && 0 <= cy < a.Length1 ==>
        a[cx, cy] == if cx == r.x + y && r.y + r.w - x <= cy < r.y + r.w
          then g[LeftSource(r, cx, cy).0][LeftSource(r, cx, cy).1] else old(a[cx, cy])
    {
      a[r.x + y, r.y + r.w - x - 1] := copy[r.x + x, r.y + y];
      x := x + 1;
    }
  }
}
