/**
 The undoable editing commands (`Action` and its subclasses). Every action is
 its own inverse: `Do` changes the layout and keeps, in place of its payload,
 what it overwrote, so the next `Do` of the same object undoes it and the one
 after that redoes it. The subclasses differ only in how their payload is
 built and in their display name; `ActionData` has one variant per kind of
 `Do`.
 */
module Actions {
  import opened Wrappers
  import opened SphereTypes
  import opened Grids
  import opened Patches
  import opened SphereLists
  import opened Transforms
  import opened LayoutModel

  datatype ActionData =
    | SphereListData(spheres: seq<SphereLoc>)                // Pencil, Line, RectangleEdge, DiamondEdge
    | AreaFillData(dense: DensePatch, px: int, py: int)      // RectangleFill, Cut, PasteOnce, PasteRepeating
    | AreaData(sparse: Patch, ax: int, ay: int)              // Fill, DiamondFill, Oval, Text, Replace*, Swap, MarkRings
    | RotateData(area: Rect, right: bool)                    // RotateLeft, RotateRight
    | FlipHData(harea: Rect)
    | FlipVData(varea: Rect)
    | StartPositionData(x: int, y: int)
    | StartAngleData(angle: Byte)
    | PaletteIDData(id: UInt32)
    | SkyAlphaData(skyAlpha: Byte)
    | GlobeAlphaData(globeAlpha: Byte)
    | PlayfieldAData(playfieldA: Color)
    | PlayfieldBData(playfieldB: Color)
    | BGColor1Data(bgColor1: Color)
    | BGColor2Data(bgColor2: Color)
    | BGColor3Data(bgColor3: Color)

  /** The payloads whose `Do` rewrites cells of the layout array; the others set one field. */
  predicate ChangesGrid(d: ActionData)
  {
    d.SphereListData? || d.AreaFillData? || d.AreaData? || d.RotateData? || d.FlipHData? || d.FlipVData?
  }

  /** The payload can be applied to a `w` by `h` layout without an index out of range:
      sphere lists and rectangles are used without wrap-around, patches with it. */
  predicate ValidAction(d: ActionData, w: int, h: int)
  {
    match d
    case SphereListData(s) => AllInGrid(s, w, h)
    case AreaFillData(p, _, _) => WfPatch(p)
    case AreaData(p, _, _) => WfPatch(p)
    case RotateData(r, _) => RotateFits(r, w, h)
    case FlipHData(r) => FitsIn(r, w, h)
    case FlipVData(r) => FitsIn(r, w, h)
    case _ => true
  }

  /** A rotation is undone by the opposite rotation of the same area only when the area is square. */
  predicate Reversible(d: ActionData)
  {
    d.RotateData? ==> d.area.w == d.area.h
  }

  /** One `Do` on a layout value: the new layout and the payload the action keeps. */
  function Apply(st: Stage, d: ActionData): (r: (Stage, ActionData))
    requires WfGrid(st.grid) && ValidAction(d, Width(st.grid), Height(st.grid))
    ensures WfGrid(r.0.grid) && Width(r.0.grid) == Width(st.grid) && Height(r.0.grid) == Height(st.grid)
    ensures ValidAction(r.1, Width(st.grid), Height(st.grid))
    ensures Reversible(d) ==> Reversible(r.1)
    ensures r.0.hasPal == st.hasPal
  {
    var g := st.grid;
    match d
    case SphereListData(s) =>
      var (g1, s1) := SphereListApply(g, s);
      (st.(grid := g1), SphereListData(s1))
    case AreaFillData(p, px, py) =>
      var (g1, t) := AreaFillApply(g, p, px, py);
      (st.(grid := g1), AreaFillData(t, px, py))
    case AreaData(p, px, py) =>
      var (g1, t) := AreaApply(g, p, px, py);
      (st.(grid := g1), AreaData(t, px, py))
    case RotateData(a, right) =>
      (st.(grid := if right then RotateRight(g, a) else RotateLeft(g, a)), RotateData(a, !right))
    case FlipHData(a) => (st.(grid := FlipH(g, a)), d)
    case FlipVData(a) => (st.(grid := FlipV(g, a)), d)
    case _ => ApplySetting(st, d)
  }

  /** One `Do` of an action that sets a field: the field takes the payload's value and the
      payload takes the field's old value. The cells are not touched. */
  function ApplySetting(st: Stage, d: ActionData): (r: (Stage, ActionData))
    requires !ChangesGrid(d)
    ensures r.0.grid == st.grid && r.0.hasPal == st.hasPal && !ChangesGrid(r.1)
  {
    match d
    case StartPositionData(x, y) =>
      (st.(startX := x % 0x1_0000, startY := y % 0x1_0000), StartPositionData(st.startX, st.startY))
    case StartAngleData(a) => (st.(angle := a), StartAngleData(st.angle))
    case PaletteIDData(v) => (st.(palette := st.palette.(paletteID := v)), PaletteIDData(st.palette.paletteID))
    case SkyAlphaData(v) => (st.(palette := st.palette.(skyAlpha := v)), SkyAlphaData(st.palette.skyAlpha))
    case GlobeAlphaData(v) => (st.(palette := st.palette.(globeAlpha := v)), GlobeAlphaData(st.palette.globeAlpha))
    case PlayfieldAData(v) => (st.(palette := st.palette.(playfieldA := v)), PlayfieldAData(st.palette.playfieldA))
    case PlayfieldBData(v) => (st.(palette := st.palette.(playfieldB := v)), PlayfieldBData(st.palette.playfieldB))
    case BGColor1Data(v) => (st.(palette := st.palette.(bgColor1 := v)), BGColor1Data(st.palette.bgColor1))
    case BGColor2Data(v) => (st.(palette := st.palette.(bgColor2 := v)), BGColor2Data(st.palette.bgColor2))
    case BGColor3Data(v) => (st.(palette := st.palette.(bgColor3 := v)), BGColor3Data(st.palette.bgColor3))
  }

  /** The second `Do` of an action restores the layout it started from: this is what
      makes undo correct. */
  lemma ApplyTwice(st: Stage, d: ActionData)
    requires WfGrid(st.grid) && ValidAction(d, Width(st.grid), Height(st.grid)) && Reversible(d)
    ensures Apply(Apply(st, d).0, Apply(st, d).1).0 == st
  {
    var g := st.grid;
    match d {
      case SphereListData(s) => SphereListApplyTwice(g, s);
      case AreaFillData(p, px, py) => AreaFillApplyTwice(g, p, px, py);
      case AreaData(p, px, py) => AreaApplyTwice(g, p, px, py);
      case RotateData(a, right) =>
        if right { RotateRightLeft(g, a); } else { RotateLeftRight(g, a); }
      case FlipHData(a) => FlipHTwice(g, a);
      case FlipVData(a) => FlipVTwice(g, a);
      case _ =>
    }
  }

  /** The payload is given back by the second `Do` (so the third `Do`, a redo, repeats the
      first) when every entry lands on its own cell and the start position is a `ushort`. */
  predicate Restorable(d: ActionData, w: int, h: int)
  {
    match d
    case AreaFillData(p, _, _) => Width(p) <= w && Height(p) <= h
    case AreaData(p, _, _) => Width(p) <= w && Height(p) <= h
    case StartPositionData(x, y) => 0 <= x < 0x1_0000 && 0 <= y < 0x1_0000
    case _ => true
  }

  lemma ApplyTwiceData(st: Stage, d: ActionData)
    requires WfGrid(st.grid) && ValidAction(d, Width(st.grid), Height(st.grid))
    requires Restorable(d, Width(st.grid), Height(st.grid))
    ensures Apply(Apply(st, d).0, Apply(st, d).1).1 == d
  {
    var g := st.grid;
    match d {
      case SphereListData(s) => SphereListApplyTwice(g, s);
      case AreaFillData(p, px, py) =>
        if Width(p) > 0 {
          AreaFillApplyTwicePatch(g, p, px, py);
        } else {
          assert p == [];
        }
      case AreaData(p, px, py) => AreaApplyTwicePatch(g, p, px, py);
      case RotateData(_, _) =>
      case FlipHData(_) =>
      case FlipVData(_) =>
      case _ => ApplySettingTwiceData(st, d);
    }
  }

  /** A setting action's payload comes back after two `Do`s when the start position is a `ushort`. */
  lemma ApplySettingTwiceData(st: Stage, d: ActionData)
    requires !ChangesGrid(d) && (d.StartPositionData? ==> 0 <= d.x < 0x1_0000 && 0 <= d.y < 0x1_0000)
    ensures ApplySetting(ApplySetting(st, d).0, ApplySetting(st, d).1).1 == d
  {
    if d.StartPositionData? {
      DivModUnique(d.x, 0x1_0000, 0, d.x);
      DivModUnique(d.y, 0x1_0000, 0, d.y);
    }
  }

  /** The start position an action sets is always a `ushort`: the cast keeps the low 16 bits. */
  lemma StartPositionTruncates(st: Stage, x: int, y: int)
    requires WfGrid(st.grid)
    ensures var s := Apply(st, StartPositionData(x, y)).0;
      s.startX == x % 0x1_0000 && s.startY == y % 0x1_0000 &&
      (0 <= x < 0x1_0000 ==> s.startX == x) && (0 <= y < 0x1_0000 ==> s.startY == y)
  {
    if 0 <= x < 0x1_0000 { DivModUnique(x, 0x1_0000, 0, x); }
    if 0 <= y < 0x1_0000 { DivModUnique(y, 0x1_0000, 0, y); }
  }

  /** `SphereListAction.Do` on the layout array. */
  method SphereListDo(layout: LayoutData, s: seq<SphereLoc>) returns (t: seq<SphereLoc>)
    requires layout.Valid() && AllInGrid(s, layout.Width, layout.Height)
    modifies layout.Layout
    ensures Holds(layout.Layout, SphereListApply(old(Snapshot(layout.Layout)), s).0)
    ensures t == SphereListApply(old(Snapshot(layout.Layout)), s).1
  {
    ghost var g := Snapshot(layout.Layout);
    var a := layout.Layout;
    var swapped: seq<SphereLoc> := [];
    for i := 0 to |s|
      invariant AllInGrid(s[..i], Width(g), Height(g))
      invariant Holds(a, SwapAll(g, s[..i]).0) && swapped == SwapAll(g, s[..i]).1
    {
      var l := s[i];
      assert s[..i + 1][..i] == s[..i] && s[..i + 1][i] == l;
      var sp := a[l.x, l.y];
      a[l.x, l.y] := l.sphere;
      swapped := swapped + [SphereLoc(sp, l.x, l.y)];
    }
    assert s[..|s|] == s;
    t := Reverse(swapped);
  }

  /** The first loop of `AreaFillAction.Do`: the cells under the patch, read into `tmp`. */
  method ReadUnderDense(layout: LayoutData, pw: nat, ph: nat, px: int, py: int) returns (t: DensePatch)
    requires layout.Valid() && (pw == 0 ==> ph == 0)
    ensures t == ReadDense(Snapshot(layout.Layout), pw, ph, px, py)
  {
    ghost var g := Snapshot(layout.Layout);
    var tmp := new SphereType[pw, ph]((_, _) => Empty);
    for y := 0 to ph
      invariant forall cx, cy :: 0 <= cx < pw && 0 <= cy < y ==>
        tmp[cx, cy] == g[Wrap(cx + px, Width(g))][Wrap(cy + py, Height(g))]
    {
      ReadDenseRow(layout, g, tmp, px, py, y);
    }
    t := Snapshot(tmp);
    GridExt(t, ReadDense(g, pw, ph, px, py), pw, ph);
  }

  /** One pass of the first loop of `AreaFillAction.Do`: row `y` of `tmp` read from the layout. */
  method ReadDenseRow(layout: LayoutData, ghost g: Grid, tmp: array2<SphereType>, px: int, py: int, y: int)
    requires layout.Valid() && WfGrid(g) && Holds(layout.Layout, g) && tmp != layout.Layout
    requires 0 <= y < tmp.Length1
    modifies tmp
    ensures forall cx, cy :: 0 <= cx < tmp.Length0 && 0 <= cy < tmp.Length1 ==>
      tmp[cx, cy] == if cy == y then g[Wrap(cx + px, Width(g))][Wrap(cy + py, Height(g))] else old(tmp[cx, cy])
  {
    for x := 0 to tmp.Length0
      invariant forall cx, cy :: 0 <= cx < tmp.Length0 && 0 <= cy < tmp.Length1 ==>
        tmp[cx, cy] == if cy == y && cx < x then g[Wrap(cx + px, Width(g))][Wrap(cy + py, Height(g))] else old(tmp[cx, cy])
    {
      tmp[x, y] := layout.Layout[layout.WrapH(x + px), layout.WrapV(y + py)];
    }
  }

  /** The second loop of `AreaFillAction.Do`: every entry written to its wrapped cell. */
  method WriteDense(layout: LayoutData, p: DensePatch, px: int, py: int)
    requires layout.Valid() && WfPatch(p)
    modifies layout.Layout
    ensures Holds(layout.Layout, WriteRows(old(Snapshot(layout.Layout)), Lift(p), px, py, Height(p)))
  {
    ghost var g := Snapshot(layout.Layout);
    ghost var q := Lift(p);
    for y := 0 to Height(p)
      invariant Holds(layout.Layout, WriteRows(g, q, px, py, y))
    {
      WriteDenseRow(layout, p, px, py, y, WriteRows(g, q, px, py, y));
    }
  }

  /** One pass of the second loop of `AreaFillAction.Do`: row `y` of the patch written. */
  method WriteDenseRow(layout: LayoutData, p: DensePatch, px: int, py: int, y: int, ghost g: Grid)
    requires layout.Valid() && WfPatch(p) && 0 <= y < Height(p) && WfGrid(g) && Holds(layout.Layout, g)
    modifies layout.Layout
    ensures Holds(layout.Layout, WriteRow(g, Lift(p), px, py, y, Width(p)))
  {
    ghost var q := Lift(p);
    for x := 0 to Width(p)
      invariant Holds(layout.Layout, WriteRow(g, q, px, py, y, x))
    {
      var cx, cy := layout.WrapH(x + px), layout.WrapV(y + py);
      ghost var before := WriteRow(g, q, px, py, y, x);
      assert WriteRow(g, q, px, py, y, x + 1) == Set(before, cx, cy, p[x][y]);
      layout.Layout[cx, cy] := p[x][y];
    }
  }

  /** `AreaFillAction.Do` on the layout array. */
  method AreaFillDo(layout: LayoutData, p: DensePatch, px: int, py: int) returns (t: DensePatch)
    requires layout.Valid() && WfPatch(p)
    modifies layout.Layout
    ensures Holds(layout.Layout, AreaFillApply(old(Snapshot(layout.Layout)), p, px, py).0)
    ensures t == AreaFillApply(old(Snapshot(layout.Layout)), p, px, py).1
  {
    t := ReadUnderDense(layout, Width(p), Height(p), px, py);
    WriteDense(layout, p, px, py);
  }

  /** The first loop of `AreaAction.Do`: the cells under the entries that have a value. */
  method ReadUnderSparse(layout: LayoutData, p: Patch, px: int, py: int) returns (t: Patch)
    requires layout.Valid() && WfPatch(p)
    ensures t == ReadPatch(Snapshot(layout.Layout), p, px, py)
  {
    ghost var g := Snapshot(layout.Layout);
    var pw, ph := Width(p), Height(p);
    var tmp := new Option<SphereType>[pw, ph]((_, _) => None);
    for y := 0 to ph
      invariant forall cx, cy :: 0 <= cx < pw && 0 <= cy < ph ==>
        tmp[cx, cy] == if cy < y && p[cx][cy].Some? then Some(g[Wrap(cx + px, Width(g))][Wrap(cy + py, Height(g))]) else None
    {
      ReadSparseRow(layout, g, p, tmp, px, py, y);
    }
    t := Snapshot(tmp);
    GridExt(t, ReadPatch(g, p, px, py), pw, ph);
  }

  /** One pass of the first loop of `AreaAction.Do`: the cells of row `y` under valued entries. */
  method ReadSparseRow(layout: LayoutData, ghost g: Grid, p: Patch, tmp: array2<Option<SphereType>>, px: int, py: int, y: int)
    requires layout.Valid() && WfGrid(g) && Holds(layout.Layout, g) && WfPatch(p)
    requires tmp.Length0 == Width(p) && tmp.Length1 == Height(p) && 0 <= y < Height(p)
    modifies tmp
    ensures forall cx, cy :: 0 <= cx < tmp.Length0 && 0 <= cy < tmp.Length1 ==>
      tmp[cx, cy] == if cy == y && p[cx][cy].Some? then Some(g[Wrap(cx + px, Width(g))][Wrap(cy + py, Height(g))]) else old(tmp[cx, cy])
  {
    for x := 0 to tmp.Length0
      invariant forall cx, cy :: 0 <= cx < tmp.Length0 && 0 <= cy < tmp.Length1 ==>
        tmp[cx, cy] == if cy == y && cx < x && p[cx][cy].Some? then Some(g[Wrap(cx + px, Width(g))][Wrap(cy + py, Height(g))]) else old(tmp[cx, cy])
    {
      if p[x][y].Some? {
        tmp[x, y] := Some(layout.Layout[layout.WrapH(x + px), layout.WrapV(y + py)]);
      }
    }
  }

  /** The second loop of `AreaAction.Do`: the entries that have a value written to their cells. */
  method WriteSparse(layout: LayoutData, p: Patch, px: int, py: int)
    requires layout.Valid() && WfPatch(p)
    modifies layout.Layout
    ensures Holds(layout.Layout, WriteRows(old(Snapshot(layout.Layout)), p, px, py, Height(p)))
  {
    ghost var g := Snapshot(layout.Layout);
    for y := 0 to Height(p)
      invariant Holds(layout.Layout, WriteRows(g, p, px, py, y))
    {
      WriteSparseRow(layout, p, px, py, y, WriteRows(g, p, px, py, y));
    }
  }

  /** One pass of the second loop of `AreaAction.Do`: the valued entries of row `y` written. */
  method WriteSparseRow(layout: LayoutData, p: Patch, px: int, py: int, y: int, ghost g: Grid)
    requires layout.Valid() && WfPatch(p) && 0 <= y < Height(p) && WfGrid(g) && Holds(layout.Layout, g)
    modifies layout.Layout
    ensures Holds(layout.Layout, WriteRow(g, p, px, py, y, Width(p)))
  {
    for x := 0 to Width(p)
      invariant Holds(layout.Layout, WriteRow(g, p, px, py, y, x))
    {
      if p[x][y].Some? {
        var cx, cy := layout.WrapH(x + px), layout.WrapV(y + py);
        ghost var before := WriteRow(g, p, px, py, y, x);
        assert WriteRow(g, p, px, py, y, x + 1) == Set(before, cx, cy, p[x][y].value);
        layout.Layout[cx, cy] := p[x][y].value;
      }
    }
  }

  /** `AreaAction.Do` on the layout array. */
  method AreaDo(layout: LayoutData, p: Patch, px: int, py: int) returns (t: Patch)
    requires layout.Valid() && WfPatch(p)
    modifies layout.Layout
    ensures Holds(layout.Layout, AreaApply(old(Snapshot(layout.Layout)), p, px, py).0)
    ensures t == AreaApply(old(Snapshot(layout.Layout)), p, px, py).1
  {
    t := ReadUnderSparse(layout, p, px, py);
    WriteSparse(layout, p, px, py);
  }

  /** An action object: a payload that every `Do` swaps with what it overwrites. */
  class Action {
    var data: ActionData

    constructor (d: ActionData)
      ensures data == d
    {
      data := d;
    }

    /** `Do`: the layout becomes `Apply`'s new stage and the action keeps `Apply`'s payload. */
    method Do(layout: LayoutData)
      requires layout.Valid() && ValidAction(data, layout.Width, layout.Height)
      modifies this, layout, layout.Layout
      ensures layout.Valid()
      ensures (layout.Value(), data) == Apply(old(layout.Value()), old(data))
    {
      if ChangesGrid(data) {
        DoOnGrid(layout);
      } else {
        DoOnSetting(layout);
      }
    }

    /** The `Do` of the actions that rewrite cells. */
    method DoOnGrid(layout: LayoutData)
      requires layout.Valid() && ValidAction(data, layout.Width, layout.Height) && ChangesGrid(data)
      modifies this, layout.Layout
      ensures (layout.Value(), data) == Apply(old(layout.Value()), old(data))
    {
      ghost var st := layout.Value();
      match data {
        case SphereListData(s) =>
          var t := SphereListDo(layout, s);
          HoldsUnique(layout.Layout, SphereListApply(st.grid, s).0);
          data := SphereListData(t);
        case AreaFillData(p, px, py) =>
          var t := AreaFillDo(layout, p, px, py);
          HoldsUnique(layout.Layout, AreaFillApply(st.grid, p, px, py).0);
          data := AreaFillData(t, px, py);
        case AreaData(p, px, py) =>
          var t := AreaDo(layout, p, px, py);
          HoldsUnique(layout.Layout, AreaApply(st.grid, p, px, py).0);
          data := AreaData(t, px, py);
        case RotateData(a, right) =>
          Rotate(layout.Layout, a, right);
          HoldsUnique(layout.Layout, if right then RotateRight(st.grid, a) else RotateLeft(st.grid, a));
          data := RotateData(a, !right);
        case FlipHData(a) =>
          FlipHorizontally(layout.Layout, a);
          HoldsUnique(layout.Layout, FlipH(st.grid, a));
        case FlipVData(a) =>
          FlipVertically(layout.Layout, a);
          HoldsUnique(layout.Layout, FlipV(st.grid, a));
        case _ => assert false;
      }
    }

    /** The `Do` of the actions that set one of the layout's fields. */
    method DoOnSetting(layout: LayoutData)
      requires layout.Valid() && !ChangesGrid(data)
      modifies this, layout
      ensures layout.Valid()
      ensures (layout.Value(), data) == ApplySetting(old(layout.Value()), old(data))
    {
      match data {
        case StartPositionData(x, y) =>
          var tx, ty := layout.StartX, layout.StartY;
          layout.StartX, layout.StartY := x % 0x1_0000, y % 0x1_0000;
          data := StartPositionData(tx, ty);
        case StartAngleData(v) =>
          var tmp := layout.Angle;
          layout.Angle := v;
          data := StartAngleData(tmp);
        case PaletteIDData(v) =>
          var tmp := layout.PaletteID;
          layout.PaletteID := v;
          data := PaletteIDData(tmp);
        case SkyAlphaData(v) =>
          var tmp := layout.SkyAlpha;
          layout.SkyAlpha := v;
          data := SkyAlphaData(tmp);
        case GlobeAlphaData(v) =>
          var tmp := layout.GlobeAlpha;
          layout.GlobeAlpha := v;
          data := GlobeAlphaData(tmp);
        case PlayfieldAData(v) =>
          var tmp := layout.PlayfieldA;
          layout.PlayfieldA := v;
          data := PlayfieldAData(tmp);
        case PlayfieldBData(v) =>
          var tmp := layout.PlayfieldB;
          layout.PlayfieldB := v;
          data := PlayfieldBData(tmp);
        case BGColor1Data(v) =>
          var tmp := layout.BGColor1;
          layout.BGColor1 := v;
          data := BGColor1Data(tmp);
        case BGColor2Data(v) =>
          var tmp := layout.BGColor2;
          layout.BGColor2 := v;
          data := BGColor2Data(tmp);
        case BGColor3Data(v) =>
          var tmp := layout.BGColor3;
          layout.BGColor3 := v;
          data := BGColor3Data(tmp);
        case _ => assert false;
      }
    }
  }
}
