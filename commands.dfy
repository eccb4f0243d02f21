/**
 The selection menu commands of the main form. Each works on the selection,
 or on the whole layout when nothing is selected, reads the cells of that
 area and submits an action built from them: a sparse patch for the
 recolouring commands (none at all when no cell matched), an all-Empty dense
 patch for Cut, a tiled copy of the clipboard for Paste Repeating. The
 clipboard itself is a parameter or a result here.
 */
module Commands {
  import opened Wrappers
  import opened SphereTypes
  import opened Grids
  import opened Patches
  import opened Transforms
  import opened LayoutModel
  import opened Actions
  import opened ShapeFills

  /** `Rectangle.IsEmpty`: both coordinates and both sizes are zero. */
  predicate IsEmptyRect(r: Rect)
  {
    r.x == 0 && r.y == 0 && r.w == 0 && r.h == 0
  }

  /** `if (area.IsEmpty) area = new Rectangle(0, 0, layout.Width, layout.Height)`. The
      commands submit their actions at `selection.Location`, which is the area's corner in
      both cases. */
  function AreaOf(sel: Rect, w: nat, h: nat): (r: Rect)
    ensures FitsIn(sel, w, h) ==> FitsIn(r, w, h)
    ensures r.x == sel.x && r.y == sel.y
    ensures IsEmptyRect(sel) ==> forall cx, cy :: 0 <= cx < w && 0 <= cy < h ==> Inside(r, cx, cy)
  {
    if IsEmptyRect(sel) then Rect(0, 0, w, h) else sel
  }

  // ---------------------------------------------------------------------------------
  // Replace FG to BG, Replace BG to FG, Swap FG and BG, Mark Blue/Red Spheres as Rings

  datatype Recolouring = ReplaceFGToBG | ReplaceBGToFG | SwapFGAndBG | MarkRings

  /** What each command writes into the patch entry of a cell holding `s`, if anything. */
  function RuleOf(cmd: Recolouring, fg: SphereType, bg: SphereType): SphereType -> Option<SphereType>
  {
    match cmd
    case ReplaceFGToBG => s => if s == fg then Some(bg) else None
    case ReplaceBGToFG => s => if s == bg then Some(fg) else None
    case SwapFGAndBG => s => if s == fg then Some(bg) else if s == bg then Some(fg) else None
    case MarkRings => s => if s == Blue || s == Red then Some(SetRing(s)) else None
  }

  /** Some cell of area `a` gets a patch entry (the `found` flag). */
  ghost predicate Matches(g: Grid, a: Rect, m: SphereType -> Option<SphereType>)
    requires WfGrid(g) && FitsIn(a, Width(g), Height(g))
  {
    exists cx, cy :: Inside(a, cx, cy) && m(g[cx][cy]).Some?
  }

  /** The patch a recolouring command builds: one entry per cell of `a`. */
  function RulePatch(g: Grid, a: Rect, m: SphereType -> Option<SphereType>): (p: Patch)
    requires WfGrid(g) && FitsIn(a, Width(g), Height(g))
    ensures IsGrid(p, a.w, a.h) && WfPatch(p)
  {
    seq(a.w, x requires 0 <= x < a.w => seq(a.h, y requires 0 <= y < a.h => m(g[a.x + x][a.y + y])))
  }

  /** The layout after the command's action: every cell of `a` with an entry gets it. */
  function Recoloured(g: Grid, a: Rect, m: SphereType -> Option<SphereType>): (r: Grid)
    requires WfGrid(g) && FitsIn(a, Width(g), Height(g))
    ensures WfGrid(r) && IsGrid(r, Width(g), Height(g))
  {
    seq(Width(g), cx requires 0 <= cx < Width(g) =>
      seq(Height(g), cy requires 0 <= cy < Height(g) =>
        if Inside(a, cx, cy) && m(g[cx][cy]).Some? then m(g[cx][cy]).value else g[cx][cy]))
  }

  /** The patch placed at the area's corner changes exactly the matching cells. */
  lemma RecolourEffect(g: Grid, a: Rect, m: SphereType -> Option<SphereType>)
    requires WfGrid(g) && FitsIn(a, Width(g), Height(g))
    ensures AreaApply(g, RulePatch(g, a, m), a.x, a.y).0 == Recoloured(g, a, m)
  {
    var w, h := Width(g), Height(g);
    var p := RulePatch(g, a, m);
    AreaApplyIsOverlay(g, p, a.x, a.y);
    var placed, recoloured := Overlay(g, p, a.x, a.y), Recoloured(g, a, m);
    forall cx, cy | 0 <= cx < w && 0 <= cy < h
      ensures placed[cx][cy] == recoloured[cx][cy]
    {
      RecolourCell(g, a, m, cx, cy);
    }
    GridExt(placed, recoloured, w, h);
  }

  lemma RecolourCell(g: Grid, a: Rect, m: SphereType -> Option<SphereType>, cx: int, cy: int)
    requires WfGrid(g) && FitsIn(a, Width(g), Height(g)) && 0 <= cx < Width(g) && 0 <= cy < Height(g)
    ensures Overlay(g, RulePatch(g, a, m), a.x, a.y)[cx][cy] == Recoloured(g, a, m)[cx][cy]
  {
    var p := RulePatch(g, a, m);
    OverlayCell(g, p, a.x, a.y, cx, cy);
    WrapWindow(cx, a.x, a.w, Width(g));
    WrapWindow(cy, a.y, a.h, Height(g));
    if Inside(a, cx, cy) {
      assert p[cx - a.x][cy - a.y] == m(g[cx][cy]);
    }
  }

  /** The `sect` loops of a recolouring command: the patch entry of every cell of the area,
      and whether any entry was written. */
  method BuildSect(layout: LayoutData, ghost g: Grid, a: Rect, m: SphereType -> Option<SphereType>)
    returns (sect: array2<Option<SphereType>>, found: bool)
    requires WfGrid(g) && Holds(layout.Layout, g) && FitsIn(a, Width(g), Height(g))
    ensures fresh(sect) && Holds(sect, RulePatch(g, a, m))
    ensures found <==> HasEntry(RulePatch(g, a, m))
  {
    ghost var p := RulePatch(g, a, m);
    sect := new Option<SphereType>[a.w, a.h]((_, _) => None);
    found := false;
    ghost var wx, wy := 0, 0;
    var y := 0;
    while y < a.h
      invariant 0 <= y <= a.h
      invariant forall i, j :: 0 <= i < a.w && 0 <= j < a.h ==> sect[i, j] == if j < y then p[i][j] else None
      invariant found ==> 0 <= wx < a.w && 0 <= wy < a.h && p[wx][wy].Some?
      invariant !found ==> forall i, j :: 0 <= i < a.w && 0 <= j < y ==> p[i][j].None?
    {
      ghost var row := seq(a.w, i requires 0 <= i < a.w => p[i][y]);
      forall i | 0 <= i < a.w ensures row[i] == m(layout.Layout[a.x + i, a.y + y]) {
        assert layout.Layout[a.x + i, a.y + y] == g[a.x + i][a.y + y];
      }
      var any, wi := SectRow(layout, a, m, sect, y, row);
      if any {
        found := true;
        wx, wy := wi, y;
      }
      y := y + 1;
    }
    if found {
      assert p[wx][wy].Some?;
    }
  }

  /** The inner loop of `BuildSect`: the entries `row` of row `y`, into a row of `sect`
      that was still all `null`. */
  method SectRow(layout: LayoutData, a: Rect, m: SphereType -> Option<SphereType>,
                 sect: array2<Option<SphereType>>, y: int, ghost row: seq<Option<SphereType>>)
    returns (any: bool, ghost wi: int)
    requires 0 <= a.x && a.x + a.w <= layout.Layout.Length0 && 0 <= a.y + y < layout.Layout.Length1
    requires sect.Length0 == a.w && sect.Length1 == a.h && 0 <= y < a.h
    requires |row| == a.w && forall i :: 0 <= i < a.w ==> row[i] == m(layout.Layout[a.x + i, a.y + y])
    requires forall i :: 0 <= i < a.w ==> sect[i, y].None?
    modifies sect
    ensures forall i :: 0 <= i < a.w ==> sect[i, y] == row[i]
    ensures forall i, j :: 0 <= i < a.w && 0 <= j < a.h && j != y ==> sect[i, j] == old(sect[i, j])
    ensures any ==> 0 <= wi < a.w && row[wi].Some?
    ensures !any ==> forall i :: 0 <= i < a.w ==> row[i].None?
  {
    any, wi := false, 0;
    var x := 0;
    while x < a.w
      invariant 0 <= x <= a.w
      invariant forall i :: 0 <= i < x ==> sect[i, y] == row[i]
      invariant forall i :: x <= i < a.w ==> sect[i, y].None?
      invariant forall i, j :: 0 <= i < a.w && 0 <= j < a.h && j != y ==> sect[i, j] == old(sect[i, j])
      invariant any ==> 0 <= wi < a.w && row[wi].Some?
      invariant !any ==> forall i :: 0 <= i < x ==> row[i].None?
    {
      var r := m(layout.Layout[a.x + x, a.y + y]);
      if r.Some? {
        sect[x, y] := r;
        any, wi := true, x;
      }
      x := x + 1;
    }
  }

  /** The patch has an entry with a value. */
  ghost predicate HasEntry(p: Patch)
  {
    exists i, j :: 0 <= i < |p| && 0 <= j < |p[i]| && p[i][j].Some?
  }

  /** The `found` flag: the built patch has an entry exactly when some cell matched. */
  lemma FoundIsMatches(g: Grid, a: Rect, m: SphereType -> Option<SphereType>)
    requires WfGrid(g) && FitsIn(a, Width(g), Height(g))
    ensures HasEntry(RulePatch(g, a, m)) <==> Matches(g, a, m)
  {
    var p := RulePatch(g, a, m);
    if HasEntry(p) {
      var i, j :| 0 <= i < |p| && 0 <= j < |p[i]| && p[i][j].Some?;
      assert Inside(a, a.x + i, a.y + j) && m(g[a.x + i][a.y + j]).Some?;
    }
    if Matches(g, a, m) {
      var cx, cy :| Inside(a, cx, cy) && m(g[cx][cy]).Some?;
      assert p[cx - a.x][cy - a.y].Some?;
    }
  }

  /** One recolouring menu command: the `sect` loops over the area, the `found` flag, and
      the action submitted only when something was found. */
  method Recolour(layout: LayoutData, sel: Rect, cmd: Recolouring, fg: SphereType, bg: SphereType)
    returns (d: Option<ActionData>)
    requires layout.Valid() && FitsIn(sel, layout.Width as int, layout.Height as int)
    ensures var g, a := layout.Value().grid, AreaOf(sel, layout.Width as int, layout.Height as int);
      d.None? <==> !Matches(g, a, RuleOf(cmd, fg, bg))
    ensures var g, a := layout.Value().grid, AreaOf(sel, layout.Width as int, layout.Height as int);
      d.Some? ==> d.value == AreaData(RulePatch(g, a, RuleOf(cmd, fg, bg)), sel.x, sel.y)
    ensures var g, a := layout.Value().grid, AreaOf(sel, layout.Width as int, layout.Height as int);
      d.Some? ==> ValidAction(d.value, layout.Width as int, layout.Height as int)
    ensures var g, a := layout.Value().grid, AreaOf(sel, layout.Width as int, layout.Height as int);
      d.Some? ==> Apply(layout.Value(), d.value).0.grid == Recoloured(g, a, RuleOf(cmd, fg, bg))
  {
    ghost var g := layout.Value().grid;
    var m := RuleOf(cmd, fg, bg);
    var a := AreaOf(sel, layout.Width as int, layout.Height as int);
    var sect, found := BuildSect(layout, g, a, m);
    FoundIsMatches(g, a, m);
    if !found {
      return None;
    }
    var p := Snapshot(sect);
    GridExt(p, RulePatch(g, a, m), a.w, a.h);
    RecolourEffect(g, a, m);
    d := Some(AreaData(p, sel.x, sel.y));
  }

  /** Replacing writes the target only at cells holding the source value, and a second
      replace of the same kind then finds nothing. */
  lemma ReplaceOnlyMatches(g: Grid, a: Rect, fg: SphereType, bg: SphereType, cmd: Recolouring)
    requires WfGrid(g) && FitsIn(a, Width(g), Height(g))
    requires cmd == ReplaceFGToBG || cmd == ReplaceBGToFG
    ensures var (from, to) := if cmd == ReplaceFGToBG then (fg, bg) else (bg, fg);
      forall cx, cy :: 0 <= cx < Width(g) && 0 <= cy < Height(g) ==>
        Recoloured(g, a, RuleOf(cmd, fg, bg))[cx][cy] == if Inside(a, cx, cy) && g[cx][cy] == from then to else g[cx][cy]
    ensures fg != bg ==> !Matches(Recoloured(g, a, RuleOf(cmd, fg, bg)), a, RuleOf(cmd, fg, bg))
  {
  }

  /** Swapping exchanges the two values inside the area, so a second swap restores the
      layout. */
  lemma SwapTwice(g: Grid, a: Rect, fg: SphereType, bg: SphereType)
    requires WfGrid(g) && FitsIn(a, Width(g), Height(g))
    ensures forall cx, cy :: 0 <= cx < Width(g) && 0 <= cy < Height(g) ==>
      Recoloured(g, a, RuleOf(SwapFGAndBG, fg, bg))[cx][cy] ==
        if Inside(a, cx, cy) && g[cx][cy] == fg then bg
        else if Inside(a, cx, cy) && g[cx][cy] == bg then fg
        else g[cx][cy]
    ensures var m := RuleOf(SwapFGAndBG, fg, bg); Recoloured(Recoloured(g, a, m), a, m) == g
  {
    var m := RuleOf(SwapFGAndBG, fg, bg);
    var g1 := Recoloured(g, a, m);
    var g2 := Recoloured(g1, a, m);
    forall cx, cy | 0 <= cx < Width(g) && 0 <= cy < Height(g)
      ensures g2[cx][cy] == g[cx][cy]
    {
    }
    GridExt(g2, g, Width(g), Height(g));
  }

  /** Marking rings sets the ring flag on exactly the cells of the area that are plain Blue
      or Red, keeping their other bits, and a second mark finds nothing. */
  lemma MarkRingsOnlyBlueRed(g: Grid, a: Rect, fg: SphereType, bg: SphereType)
    requires WfGrid(g) && FitsIn(a, Width(g), Height(g))
    ensures forall cx, cy :: 0 <= cx < Width(g) && 0 <= cy < Height(g) ==>
      var r := Recoloured(g, a, RuleOf(MarkRings, fg, bg))[cx][cy];
      (r != g[cx][cy] <==> Inside(a, cx, cy) && (g[cx][cy] == Blue || g[cx][cy] == Red)) &&
      (r != g[cx][cy] ==> HasRing(r) && SameOtherBits(r, g[cx][cy]))
    ensures !Matches(Recoloured(g, a, RuleOf(MarkRings, fg, bg)), a, RuleOf(MarkRings, fg, bg))
  {
  }

  // ---------------------------------------------------------------------------------
  // Copy, Cut, Paste Once, Paste Repeating

  /** Copy: the area's cells, column by column, as the clipboard receives them. */
  method Copy(layout: LayoutData, sel: Rect) returns (sect: DensePatch)
    requires layout.Valid() && FitsIn(sel, layout.Width as int, layout.Height as int)
    ensures var a := AreaOf(sel, layout.Width as int, layout.Height as int);
      sect == ReadDense(layout.Value().grid, a.w, a.h, a.x, a.y)
  {
    ghost var g := layout.Value().grid;
    var a := AreaOf(sel, layout.Width as int, layout.Height as int);
    var buf := new SphereType[a.w, a.h]((_, _) => Empty);
    var y := 0;
    while y < a.h
      invariant 0 <= y <= a.h
      invariant forall i, j :: 0 <= i < a.w && 0 <= j < y ==> buf[i, j] == g[a.x + i][a.y + j]
    {
      var x := 0;
      while x < a.w
        invariant 0 <= x <= a.w
        invariant forall i, j :: 0 <= i < a.w && 0 <= j < a.h && (j < y || (j == y && i < x)) ==>
          buf[i, j] == g[a.x + i][a.y + j]
      {
        buf[x, y] := layout.Layout[a.x + x, a.y + y];
        x := x + 1;
      }
      y := y + 1;
    }
    sect := Snapshot(buf);
    ReadDenseFits(g, a);
    GridExt(sect, ReadDense(g, a.w, a.h, a.x, a.y), a.w, a.h);
  }

  /** Reading an area that fits the grid needs no wrap-around. */
  lemma ReadDenseFits(g: Grid, a: Rect)
    requires WfGrid(g) && FitsIn(a, Width(g), Height(g))
    ensures IsGrid(ReadDense(g, a.w, a.h, a.x, a.y), a.w, a.h)
    ensures forall i, j :: 0 <= i < a.w && 0 <= j < a.h ==> ReadDense(g, a.w, a.h, a.x, a.y)[i][j] == g[a.x + i][a.y + j]
  {
    forall i, j | 0 <= i < a.w && 0 <= j < a.h ensures ReadDense(g, a.w, a.h, a.x, a.y)[i][j] == g[a.x + i][a.y + j] {
      WrapIdentity(a.x + i, Width(g));
      WrapIdentity(a.y + j, Height(g));
    }
  }

  /** Cut: the area goes to the clipboard and an all-Empty patch of its size is submitted
      at its corner. */
  method Cut(layout: LayoutData, sel: Rect) returns (clip: DensePatch, d: ActionData)
    requires layout.Valid() && FitsIn(sel, layout.Width as int, layout.Height as int)
    ensures var a := AreaOf(sel, layout.Width as int, layout.Height as int);
      clip == ReadDense(layout.Value().grid, a.w, a.h, a.x, a.y) &&
      d == AreaFillData(Solid(a.w, a.h, Empty), a.x, a.y)
  {
    clip := Copy(layout, sel);
    var a := AreaOf(sel, layout.Width as int, layout.Height as int);
    d := AreaFillData(Solid(a.w, a.h, Empty), a.x, a.y);
  }

  /** Paste Once: the clipboard patch at the selection's corner, and the selection resized
      to the patch. */
  function PasteOnce(data: DensePatch, sel: Rect): (r: (ActionData, Rect))
  {
    (AreaFillData(data, sel.x, sel.y), Rect(sel.x, sel.y, Width(data), Height(data)))
  }

  /** Cutting empties exactly the cells of the area. */
  lemma CutEmpties(st: Stage, sel: Rect)
    requires WfGrid(st.grid) && FitsIn(sel, Width(st.grid), Height(st.grid))
    ensures var a := AreaOf(sel, Width(st.grid), Height(st.grid));
      var cut := AreaFillData(Solid(a.w, a.h, Empty), a.x, a.y);
      ValidAction(cut, Width(st.grid), Height(st.grid)) &&
      forall cx, cy :: 0 <= cx < Width(st.grid) && 0 <= cy < Height(st.grid) ==>
        Apply(st, cut).0.grid[cx][cy] == if Inside(a, cx, cy) then Empty else st.grid[cx][cy]
  {
    var g, w, h := st.grid, Width(st.grid), Height(st.grid);
    var a := AreaOf(sel, w, h);
    var lifted := Lift(Solid(a.w, a.h, Empty));
    AreaApplyIsOverlay(g, lifted, a.x, a.y);
    forall cx, cy | 0 <= cx < w && 0 <= cy < h
      ensures Overlay(g, lifted, a.x, a.y)[cx][cy] == if Inside(a, cx, cy) then Empty else g[cx][cy]
    {
      EmptiedCell(g, a, cx, cy);
    }
  }

  lemma EmptiedCell(g: Grid, a: Rect, cx: int, cy: int)
    requires WfGrid(g) && FitsIn(a, Width(g), Height(g)) && 0 <= cx < Width(g) && 0 <= cy < Height(g)
    ensures Overlay(g, Lift(Solid(a.w, a.h, Empty)), a.x, a.y)[cx][cy] == if Inside(a, cx, cy) then Empty else g[cx][cy]
  {
    var lifted := Lift(Solid(a.w, a.h, Empty));
    OverlayCell(g, lifted, a.x, a.y, cx, cy);
    WrapWindow(cx, a.x, a.w, Width(g));
    WrapWindow(cy, a.y, a.h, Height(g));
  }

  /** The cut action keeps what the clipboard got, so pasting the clipboard once at the
      same place puts the whole layout back. */
  lemma CutThenPasteRestores(st: Stage, sel: Rect)
    requires WfGrid(st.grid) && FitsIn(sel, Width(st.grid), Height(st.grid))
    ensures var a := AreaOf(sel, Width(st.grid), Height(st.grid));
      var clip := ReadDense(st.grid, a.w, a.h, a.x, a.y);
      var cut := AreaFillData(Solid(a.w, a.h, Empty), a.x, a.y);
      Apply(Apply(st, cut).0, PasteOnce(clip, sel).0).0 == st
  {
    var g, w, h := st.grid, Width(st.grid), Height(st.grid);
    var a := AreaOf(sel, w, h);
    var cut := AreaFillData(Solid(a.w, a.h, Empty), a.x, a.y);
    assert Apply(st, cut).1 == AreaFillData(ReadDense(g, a.w, a.h, a.x, a.y), a.x, a.y);
    ApplyTwice(st, cut);
  }

  /** Paste Repeating's `sect`: the clipboard `c` tiled over a `w` by `h` area
      (`copy[x % copywidth, y % copyheight]`). */
  function Tiled(c: DensePatch, w: nat, h: nat): (t: DensePatch)
    requires WfPatch(c) && Width(c) > 0 && Height(c) > 0
    ensures IsGrid(t, w, h) && WfPatch(t)
  {
    seq(w, x requires 0 <= x < w => seq(h, y requires 0 <= y < h => c[x % Width(c)][y % Height(c)]))
  }

  /** The tiling starts with the clipboard, and cells whose coordinates agree modulo the
      clipboard's size hold the same value; an area of the clipboard's own size gets the
      clipboard itself. */
  lemma TiledRepeats(c: DensePatch, w: nat, h: nat)
    requires WfPatch(c) && Width(c) > 0 && Height(c) > 0
    ensures forall x, y :: 0 <= x < w && x < Width(c) && 0 <= y < h && y < Height(c) ==> Tiled(c, w, h)[x][y] == c[x][y]
    ensures forall x, y, x', y' ::
      0 <= x < w && 0 <= y < h && 0 <= x' < w && 0 <= y' < h && x % Width(c) == x' % Width(c) && y % Height(c) == y' % Height(c)
      ==> Tiled(c, w, h)[x][y] == Tiled(c, w, h)[x'][y']
    ensures w == Width(c) && h == Height(c) ==> Tiled(c, w, h) == c
  {
    var cw, ch := Width(c), Height(c);
    var t := Tiled(c, w, h);
    forall x, y | 0 <= x < w && x < cw && 0 <= y < h && y < ch ensures t[x][y] == c[x][y] {
      WrapIdentity(x, cw);
      WrapIdentity(y, ch);
    }
    if w == cw && h == ch {
      GridExt(t, c, w, h);
    }
  }

  /** Paste Repeating: the tiling loop over the area, submitted at the selection's corner.
      An empty clipboard array would divide by zero. */
  method PasteRepeating(layout: LayoutData, sel: Rect, copy: array2<SphereType>) returns (d: ActionData)
    requires layout.Valid() && copy.Length0 > 0 && copy.Length1 > 0
    ensures var a := AreaOf(sel, layout.Width as int, layout.Height as int);
      d == AreaFillData(Tiled(Snapshot(copy), a.w, a.h), sel.x, sel.y)
  {
    var a := AreaOf(sel, layout.Width as int, layout.Height as int);
    var cw, ch := copy.Length0, copy.Length1;
    ghost var c := Snapshot(copy);
    var sect := new SphereType[a.w, a.h]((_, _) => Empty);
    var y := 0;
    while y < a.h
      invariant 0 <= y <= a.h
      invariant forall i, j :: 0 <= i < a.w && 0 <= j < y ==> sect[i, j] == copy[i % cw, j % ch]
    {
      var x := 0;
      while x < a.w
        invariant 0 <= x <= a.w
        invariant forall i, j :: 0 <= i < a.w && 0 <= j < a.h && (j < y || (j == y && i < x)) ==>
          sect[i, j] == copy[i % cw, j % ch]
      {
        sect[x, y] := copy[x % cw, y % ch];
        x := x + 1;
      }
      y := y + 1;
    }
    var t := Snapshot(sect);
    GridExt(t, Tiled(c, a.w, a.h), a.w, a.h);
    d := AreaFillData(t, sel.x, sel.y);
  }

  // ---------------------------------------------------------------------------------
  // Flip and rotate commands

  /** The flip commands, and the rotate commands when the area they rotate is square,
      submit actions that fit the layout and that a second `Do` undoes. */
  lemma SelectionTransformsFit(sel: Rect, w: nat, h: nat, right: bool)
    requires FitsIn(sel, w, h)
    ensures ValidAction(FlipHData(AreaOf(sel, w, h)), w, h)
    ensures ValidAction(FlipVData(AreaOf(sel, w, h)), w, h)
    ensures RotateEnabled(sel, w, h) ==>
      ValidAction(RotateData(AreaOf(sel, w, h), right), w, h) && Reversible(RotateData(AreaOf(sel, w, h), right))
  {
  }

  /** As written: the rotate items are enabled when the selection is square, judged before
      an empty selection is widened to the whole layout. */
  predicate RotateEnabledAsWritten(sel: Rect)
  {
    sel.w == sel.h
  }

  /** Corrected: judged on the area the command will rotate. */
  predicate RotateEnabled(sel: Rect, w: nat, h: nat)
  {
    AreaOf(sel, w, h).w == AreaOf(sel, w, h).h
  }

  /** With nothing selected on a 2 by 1 layout the rotate items are enabled, but the area
      they rotate does not fit the layout once turned, so `Do` would write outside it. */
  lemma RotateGuardAdmitsNonSquare()
    ensures var sel := Rect(0, 0, 0, 0);
      RotateEnabledAsWritten(sel) && !RotateEnabled(sel, 2, 1) &&
      !ValidAction(RotateData(AreaOf(sel, 2, 1), true), 2, 1)
  {
  }

  /** The two guards agree whenever something is selected. */
  lemma RotateGuardsAgree(sel: Rect, w: nat, h: nat)
    requires !IsEmptyRect(sel)
    ensures RotateEnabled(sel, w, h) <==> RotateEnabledAsWritten(sel)
  {
  }

  // ---------------------------------------------------------------------------------
  // The start tool

  /** The start tool on release: clicking the start cell turns the player a quarter turn
      (`(Angle + 1) & 3`); clicking anywhere else moves the start there. */
  function StartTool(st: Stage, x: int, y: int): (d: ActionData)
    requires WfGrid(st.grid)
    ensures x == st.startX && y == st.startY ==>
      d.StartAngleData? && Apply(st, d).0 == st.(angle := (st.angle as int + 1) % 4)
    ensures !(x == st.startX && y == st.startY) && 0 <= x < 0x1_0000 && 0 <= y < 0x1_0000 ==>
      d.StartPositionData? && Apply(st, d).0 == st.(startX := x, startY := y)
  {
    if x == st.startX && y == st.startY then StartAngleData(((st.angle as int + 1) % 4) as Byte)
    else StartPositionData(x, y)
  }
}
