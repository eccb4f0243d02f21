/**
 `LayoutData`: the sphere grid of one special stage, its start marker and the
 palette settings, and the conversion between the grid and the two tile
 layers of the scene file ("Playfield" and "Ring Count"). A tile layer is a
 2-D array of 16-bit tiles indexed `[y, x]`, as `layer.Tiles[y][x]` is.
 */
module LayoutModel {
  import opened Wrappers
  import opened SphereTypes
  import opened Grids

  type Byte = x: int | 0 <= x < 0x100
  type UShort = x: int | 0 <= x < 0x1_0000
  type UInt32 = x: int | 0 <= x < 0x1_0000_0000
  type Tile = UShort

  /** `System.Drawing.Color`, kept opaque: either `Color.Empty` or an RGB value. */
  datatype Color = EmptyColor | Rgb(r: Byte, g: Byte, b: Byte)

  /** The attributes of the `BSS_Palette` entity. */
  datatype Palette = Palette(
    paletteID: UInt32, skyAlpha: Byte, globeAlpha: Byte,
    playfieldA: Color, playfieldB: Color, bgColor1: Color, bgColor2: Color, bgColor3: Color)

  /** The field values of a layout without a palette entity. */
  const NoPalette := Palette(0, 0, 0, EmptyColor, EmptyColor, EmptyColor, EmptyColor, EmptyColor)

  /** Everything an editing command can change, as a value. */
  datatype Stage = Stage(grid: Grid, angle: Byte, startX: UShort, startY: UShort, hasPal: bool, palette: Palette)

  /** The initial values of `StartX`/`StartY` and `Angle` when no start tile is found. */
  const DefaultStart: UShort := 0xF
  const DefaultAngle: Byte := 0

  /** Low ten bits of a tile (`& 0x3FF`): the tile index. */
  function TileIndex(t: Tile): SphereType
  {
    t % 0x400
  }

  function Rows<T>(t: seq<seq<T>>): nat
  {
    |t|
  }

  function Cols<T>(t: seq<seq<T>>): nat
  {
    if |t| == 0 then 0 else |t[0]|
  }

  /** A rectangular tile layer, indexed `[y][x]`. */
  predicate IsLayer(t: seq<seq<Tile>>)
  {
    IsGrid(t, Rows(t), Cols(t))
  }

  // ---------------------------------------------------------------------------------
  // Decoding (`Init`)

  /** The cell a playfield tile leaves in `Layout`: start tiles and the blank tile
      `0x3FF` leave the cell Empty, any other index is stored as it is. */
  function BaseCell(t: Tile): (s: SphereType)
    ensures IsStart(TileIndex(t)) || TileIndex(t) == 0x3FF ==> s == Empty
    ensures !IsStart(TileIndex(t)) && TileIndex(t) != 0x3FF ==> s == TileIndex(t)
  {
    var sp := TileIndex(t);
    if IsStart(sp) || sp == 0x3FF then Empty else sp
  }

  /** Where the start marker is, and which way it faces. */
  datatype Start = Start(angle: Byte, x: UShort, y: UShort)

  const NoStart := Start(DefaultAngle, DefaultStart, DefaultStart)

  /** The start after scanning tiles `0 .. n-1` of row `y`, beginning with `acc`: a start
      tile replaces the current one, so the last start tile wins. */
  function ScanRow(row: seq<Tile>, y: UShort, n: nat, acc: Start): Start
    requires n <= |row| <= 0x1_0000
    decreases n
  {
    if n == 0 then acc
    else
      var a := ScanRow(row, y, n - 1, acc);
      var sp := TileIndex(row[n - 1]);
      if IsStart(sp) then Start(sp - StartN, n - 1, y) else a
  }

  /** The start after scanning rows `0 .. m-1` of `w` tiles each. */
  function ScanRows(t: seq<seq<Tile>>, w: nat, m: nat): Start
    requires m <= |t| <= 0x1_0000 && w <= 0x1_0000
    requires forall y :: 0 <= y < |t| ==> |t[y]| == w
    decreases m
  {
    if m == 0 then NoStart else ScanRow(t[m - 1], m - 1, w, ScanRows(t, w, m - 1))
  }

  /** A tile of the ring layer marks the cell `(x, y)` of a `w` by `h` grid as a ring: only
      the part of the ring layer that overlaps the grid is read. */
  predicate RingAt(rings: seq<seq<Tile>>, w: int, h: int, x: int, y: int)
    requires IsLayer(rings)
  {
    0 <= y < Rows(rings) && y < h && 0 <= x < Cols(rings) && x < w && TileIndex(rings[y][x]) == Ring
  }

  /** The grid `Init` builds from the two layers. */
  function DecodeGrid(layer: seq<seq<Tile>>, rings: seq<seq<Tile>>): (g: Grid)
    requires IsLayer(layer) && IsLayer(rings)
    ensures IsGrid(g, Cols(layer), Rows(layer))
  {
    var w, h := Cols(layer), Rows(layer);
    seq(w, x requires 0 <= x < w =>
      seq(h, y requires 0 <= y < h =>
        if RingAt(rings, w, h, x, y) then SetRing(BaseCell(layer[y][x])) else BaseCell(layer[y][x])))
  }

  /** The whole state `Init` produces; `pal` is the palette entity's attributes, if there is one. */
  function Decode(layer: seq<seq<Tile>>, rings: seq<seq<Tile>>, pal: Option<Palette>): Stage
    requires IsLayer(layer) && IsLayer(rings) && Rows(layer) <= 0x1_0000 && Cols(layer) <= 0x1_0000
  {
    var s := ScanRows(layer, Cols(layer), Rows(layer));
    Stage(DecodeGrid(layer, rings), s.angle, s.x, s.y, pal.Some?, if pal.Some? then pal.value else NoPalette)
  }

  /** A row without start tiles leaves the start alone. */
  lemma {:induction false} ScanRowNone(row: seq<Tile>, y: UShort, n: nat, acc: Start)
    requires n <= |row| <= 0x1_0000
    requires forall x :: 0 <= x < n ==> !IsStart(TileIndex(row[x]))
    ensures ScanRow(row, y, n, acc) == acc
    decreases n
  {
    if n > 0 {
      ScanRowNone(row, y, n - 1, acc);
    }
  }

  /** After a start tile at `x0`, the result is a start tile at `x0` or later in the row. */
  lemma {:induction false} ScanRowLast(row: seq<Tile>, y: UShort, n: nat, acc: Start, x0: int)
    requires 0 <= x0 < n <= |row| <= 0x1_0000
    requires IsStart(TileIndex(row[x0]))
    ensures var r := ScanRow(row, y, n, acc);
      x0 <= r.x < n && r.y == y && IsStart(TileIndex(row[r.x])) && r.angle == TileIndex(row[r.x]) - StartN
    decreases n
  {
    if x0 < n - 1 && !IsStart(TileIndex(row[n - 1])) {
      ScanRowLast(row, y, n - 1, acc, x0);
    }
  }

  /** The start found through row `m - 1` either is the default, when no start tile was
      seen, or is the last start tile in row-major order. */
  lemma {:induction false} ScanRowsLast(t: seq<seq<Tile>>, w: nat, m: nat, x0: int, y0: int)
    requires m <= |t| <= 0x1_0000 && w <= 0x1_0000
    requires forall y :: 0 <= y < |t| ==> |t[y]| == w
    requires 0 <= x0 < w && 0 <= y0 < m && IsStart(TileIndex(t[y0][x0]))
    ensures var r := ScanRows(t, w, m);
      0 <= r.y < m && 0 <= r.x < w && IsStart(TileIndex(t[r.y][r.x])) && r.angle == TileIndex(t[r.y][r.x]) - StartN &&
      (y0 < r.y || (y0 == r.y && x0 <= r.x))
    decreases m
  {
    var prev := ScanRows(t, w, m - 1);
    var row := t[m - 1];
    if exists x :: 0 <= x < w && IsStart(TileIndex(row[x])) {
      var x :| 0 <= x < w && IsStart(TileIndex(row[x]));
      if y0 == m - 1 {
        ScanRowLast(t[m - 1], m - 1, w, prev, x0);
      } else {
        ScanRowLast(t[m - 1], m - 1, w, prev, x);
      }
    } else {
      ScanRowNone(t[m - 1], m - 1, w, prev);
      ScanRowsLast(t, w, m - 1, x0, y0);
    }
  }

  /** With no start tile in rows `0 .. m-1`, the default start is kept. */
  lemma {:induction false} ScanRowsNone(t: seq<seq<Tile>>, w: nat, m: nat)
    requires m <= |t| <= 0x1_0000 && w <= 0x1_0000
    requires forall y :: 0 <= y < |t| ==> |t[y]| == w
    requires forall x, y :: 0 <= x < w && 0 <= y < m ==> !IsStart(TileIndex(t[y][x]))
    ensures ScanRows(t, w, m) == NoStart
    decreases m
  {
    if m > 0 {
      ScanRowsNone(t, w, m - 1);
      ScanRowNone(t[m - 1], m - 1, w, NoStart);
    }
  }

  // ---------------------------------------------------------------------------------
  // Encoding (`Save`)

  /** The playfield layer `Save` writes: every cell with its ring marker cleared, then the
      start cell overwritten with the start tile of the current angle. */
  function EncodePlayfield(st: Stage): (t: seq<seq<Tile>>)
    requires WfGrid(st.grid)
    ensures IsLayer(t) && Rows(t) == Height(st.grid) && Cols(t) == Width(st.grid)
  {
    var w, h := Width(st.grid), Height(st.grid);
    seq(h, y requires 0 <= y < h =>
      seq(w, x requires 0 <= x < w =>
        if x == st.startX && y == st.startY then StartN + st.angle else ClearRing(st.grid[x][y])))
  }

  /** The ring layer `Save` writes over `old`: on the part that overlaps the grid, a Ring tile
      where the cell carries the ring marker and tile 0 elsewhere; the rest is kept. */
  function EncodeRings(before: seq<seq<Tile>>, g: Grid): (t: seq<seq<Tile>>)
    requires IsLayer(before) && WfGrid(g)
    ensures IsLayer(t) && Rows(t) == Rows(before) && Cols(t) == Cols(before)
  {
    seq(Rows(before), y requires 0 <= y < Rows(before) =>
      seq(Cols(before), x requires 0 <= x < Cols(before) =>
        if y < Height(g) && x < Width(g) then (if HasRing(g[x][y]) then Ring as Tile else 0) else before[y][x]))
  }

  /** The start cell reads back Empty, keeping its ring marker. */
  function ClearStartCell(g: Grid, x: int, y: int): Grid
    requires WfGrid(g) && 0 <= x < Width(g) && 0 <= y < Height(g)
  {
    Set(g, x, y, if HasRing(g[x][y]) then RingFlag else Empty)
  }

  /** A cell whose base value is a start value would be read back as the start marker. */
  predicate NoStartCells(g: Grid)
  {
    forall x, y :: 0 <= x < |g| && 0 <= y < |g[x]| ==> !IsStart(ClearRing(g[x][y]))
  }

  /** A tile below `0x400` is its own index. */
  lemma TileIndexSmall(t: Tile)
    requires t < 0x400
    ensures TileIndex(t) == t
  {
    DivModUnique(t, 0x400, 0, t);
  }

  /** A base value never has bit 7 set, so it is never the blank tile `0x3FF`. */
  lemma ClearedIsNotBlank(s: SphereType)
    ensures ClearRing(s) != 0x3FF && TileIndex(ClearRing(s)) == ClearRing(s)
  {
    assert !HasRing(ClearRing(s));
    assert HasRing(0x3FF);
  }

  /** Reading back what `Save` wrote gives the same grid, start position and angle, except
      that the start cell comes back Empty (with its ring marker). The ring layer must
      cover the grid; `Angle` must name one of the four start tiles; no cell may hold a
      start value. The palette is whatever the palette entity holds. */
  lemma SaveInitRoundTrip(st: Stage, before: seq<seq<Tile>>, pal: Option<Palette>)
    requires WfGrid(st.grid) && Width(st.grid) <= 0x1_0000 && Height(st.grid) <= 0x1_0000
    requires st.startX < Width(st.grid) && st.startY < Height(st.grid) && st.angle < 4
    requires NoStartCells(st.grid)
    requires IsLayer(before) && Rows(before) >= Height(st.grid) && Cols(before) >= Width(st.grid)
    ensures var d := Decode(EncodePlayfield(st), EncodeRings(before, st.grid), pal);
      d.grid == ClearStartCell(st.grid, st.startX, st.startY) &&
      d.angle == st.angle && d.startX == st.startX && d.startY == st.startY
  {
    EncodedStart(st);
    EncodedGrid(st, before);
  }

  /** The grid part of the round trip, cell by cell. */
  lemma EncodedGrid(st: Stage, before: seq<seq<Tile>>)
    requires WfGrid(st.grid) && st.startX < Width(st.grid) && st.startY < Height(st.grid) && st.angle < 4
    requires NoStartCells(st.grid)
    requires IsLayer(before) && Rows(before) >= Height(st.grid) && Cols(before) >= Width(st.grid)
    ensures DecodeGrid(EncodePlayfield(st), EncodeRings(before, st.grid)) == ClearStartCell(st.grid, st.startX, st.startY)
  {
    var w, h := Width(st.grid), Height(st.grid);
    var d := DecodeGrid(EncodePlayfield(st), EncodeRings(before, st.grid));
    var e := ClearStartCell(st.grid, st.startX, st.startY);
    forall x, y | 0 <= x < w && 0 <= y < h
      ensures d[x][y] == e[x][y]
    {
      assert !IsStart(ClearRing(st.grid[x][y]));
      EncodedCell(st, before, x, y);
    }
    GridExt(d, e, w, h);
  }

  /** The only start tile `Save` writes is the start cell's, so `Init` finds it. */
  lemma EncodedStart(st: Stage)
    requires WfGrid(st.grid) && Width(st.grid) <= 0x1_0000 && Height(st.grid) <= 0x1_0000
    requires st.startX < Width(st.grid) && st.startY < Height(st.grid) && st.angle < 4
    requires NoStartCells(st.grid)
    ensures var layer := EncodePlayfield(st);
      ScanRows(layer, Cols(layer), Rows(layer)) == Start(st.angle, st.startX, st.startY)
  {
    var layer := EncodePlayfield(st);
    var w, h := Width(st.grid), Height(st.grid);
    assert layer[st.startY][st.startX] == StartN + st.angle;
    TileIndexSmall(layer[st.startY][st.startX]);
    forall x, y | 0 <= x < w && 0 <= y < h && (x, y) != (st.startX as int, st.startY as int)
      ensures !IsStart(TileIndex(layer[y][x]))
    {
      assert layer[y][x] == ClearRing(st.grid[x][y]);
      ClearedIsNotBlank(st.grid[x][y]);
    }
    OnlyStartTile(layer, w, h, st.startX, st.startY, st.angle);
  }

  /** A layer whose one start tile is at `(sx, sy)` yields that start. */
  lemma OnlyStartTile(t: seq<seq<Tile>>, w: nat, h: nat, sx: UShort, sy: UShort, a: Byte)
    requires |t| == h <= 0x1_0000 && w <= 0x1_0000 && forall y :: 0 <= y < h ==> |t[y]| == w
    requires sx < w && sy < h && a < 4 && TileIndex(t[sy][sx]) == StartN + a
    requires forall x, y :: 0 <= x < w && 0 <= y < h && (x, y) != (sx as int, sy as int) ==> !IsStart(TileIndex(t[y][x]))
    ensures ScanRows(t, w, h) == Start(a, sx, sy)
  {
    ScanRowsLast(t, w, h, sx, sy);
  }

  /** Cell by cell: the base value comes back from the playfield tile (Empty at the start
      cell), and the ring marker from the ring tile. */
  lemma EncodedCell(st: Stage, before: seq<seq<Tile>>, x: int, y: int)
    requires WfGrid(st.grid) && st.startX < Width(st.grid) && st.startY < Height(st.grid) && st.angle < 4
    requires IsLayer(before) && Rows(before) >= Height(st.grid) && Cols(before) >= Width(st.grid)
    requires 0 <= x < Width(st.grid) && 0 <= y < Height(st.grid)
    requires !IsStart(ClearRing(st.grid[x][y]))
    ensures DecodeGrid(EncodePlayfield(st), EncodeRings(before, st.grid))[x][y] ==
      ClearStartCell(st.grid, st.startX, st.startY)[x][y]
  {
    var layer, rings := EncodePlayfield(st), EncodeRings(before, st.grid);
    EncodedBase(st, x, y);
    EncodedRing(st.grid, before, x, y);
    DecodedCell(layer, rings, x, y, st.grid[x][y], x == st.startX && y == st.startY);
    ClearStartCellAt(st.grid, st.startX, st.startY, x, y);
  }

  /** A cell decodes back to its sphere once its base tile and ring marker are known. */
  lemma DecodedCell(layer: seq<seq<Tile>>, rings: seq<seq<Tile>>, x: int, y: int, c: SphereType, atStart: bool)
    requires IsLayer(layer) && IsLayer(rings) && 0 <= x < Cols(layer) && 0 <= y < Rows(layer)
    requires BaseCell(layer[y][x]) == if atStart then Empty else ClearRing(c)
    requires RingAt(rings, Cols(layer), Rows(layer), x, y) <==> HasRing(c)
    ensures DecodeGrid(layer, rings)[x][y] == if atStart then (if HasRing(c) then RingFlag else Empty) else c
  {
    DecodeAt(layer, rings, x, y);
    CellRoundTrip(c, atStart);
  }

  lemma DecodeAt(layer: seq<seq<Tile>>, rings: seq<seq<Tile>>, x: int, y: int)
    requires IsLayer(layer) && IsLayer(rings) && 0 <= x < Cols(layer) && 0 <= y < Rows(layer)
    ensures var b := BaseCell(layer[y][x]);
      DecodeGrid(layer, rings)[x][y] == if RingAt(rings, Cols(layer), Rows(layer), x, y) then SetRing(b) else b
  {
  }

  /** One cell of `ClearStartCell`. */
  lemma ClearStartCellAt(g: Grid, sx: int, sy: int, x: int, y: int)
    requires WfGrid(g) && 0 <= sx < Width(g) && 0 <= sy < Height(g) && 0 <= x < Width(g) && 0 <= y < Height(g)
    ensures ClearStartCell(g, sx, sy)[x][y] ==
      if x == sx && y == sy then (if HasRing(g[x][y]) then RingFlag else Empty) else g[x][y]
  {
  }

  /** One cell, as arithmetic on its value: the base value written (Empty at the start
      cell) with the marker put back when the cell had one. */
  lemma CellRoundTrip(c: SphereType, atStart: bool)
    ensures var b := if atStart then Empty else ClearRing(c);
      (if HasRing(c) then SetRing(b) else b) == (if atStart then (if HasRing(c) then RingFlag else Empty) else c)
  {
    RingFlagRoundTrip(c);
    RingOfEmpty();
  }

  lemma EncodedBase(st: Stage, x: int, y: int)
    requires WfGrid(st.grid) && st.startX < Width(st.grid) && st.startY < Height(st.grid) && st.angle < 4
    requires 0 <= x < Width(st.grid) && 0 <= y < Height(st.grid)
    requires !IsStart(ClearRing(st.grid[x][y]))
    ensures BaseCell(EncodePlayfield(st)[y][x]) ==
      if x == st.startX && y == st.startY then Empty else ClearRing(st.grid[x][y])
  {
    var t := EncodePlayfield(st)[y][x];
    if x == st.startX && y == st.startY {
      assert t == StartN + st.angle;
      TileIndexSmall(t);
    } else {
      var c := st.grid[x][y];
      assert t == ClearRing(c);
      ClearedIsNotBlank(c);
    }
  }

  lemma EncodedRing(g: Grid, before: seq<seq<Tile>>, x: int, y: int)
    requires WfGrid(g) && IsLayer(before) && Rows(before) >= Height(g) && Cols(before) >= Width(g)
    requires 0 <= x < Width(g) && 0 <= y < Height(g)
    ensures RingAt(EncodeRings(before, g), Width(g), Height(g), x, y) <==> HasRing(g[x][y])
  {
  }

  // ---------------------------------------------------------------------------------
  // The ring count (`Perfect`)

  /** The cells of `g` that carry the ring marker. */
  function RingCells(g: Grid): set<(int, int)>
  {
    set x, y | 0 <= x < |g| && 0 <= y < |g[x]| && HasRing(g[x][y]) :: (x, y)
  }

  function ColumnRingCells(col: seq<SphereType>, x: int): set<(int, int)>
  {
    set y | 0 <= y < |col| && HasRing(col[y]) :: (x, y)
  }

  function CountColumn(col: seq<SphereType>): nat
  {
    if col == [] then 0 else CountColumn(col[..|col| - 1]) + (if HasRing(col[|col| - 1]) then 1 else 0)
  }

  function CountRings(g: Grid): nat
  {
    if g == [] then 0 else CountRings(g[..|g| - 1]) + CountColumn(g[|g| - 1])
  }

  lemma {:induction false} CountColumnIsCard(col: seq<SphereType>, x: int)
    ensures CountColumn(col) == |ColumnRingCells(col, x)|
    decreases |col|
  {
    if col != [] {
      var n := |col| - 1;
      CountColumnIsCard(col[..n], x);
      var prev := ColumnRingCells(col[..n], x);
      if HasRing(col[n]) {
        assert ColumnRingCells(col, x) == prev + {(x, n)};
        assert (x, n) !in prev;
      } else {
        assert ColumnRingCells(col, x) == prev;
      }
    }
  }

  /** The recursive count is the number of ring cells. */
  lemma {:induction false} CountRingsIsCard(g: Grid)
    ensures CountRings(g) == |RingCells(g)|
    decreases |g|
  {
    if g != [] {
      var n := |g| - 1;
      CountRingsIsCard(g[..n]);
      CountColumnIsCard(g[n], n);
      RingCellsSplit(g);
      assert RingCells(g[..n]) !! ColumnRingCells(g[n], n);
    }
  }

  /** The ring cells of a grid are those of its leading columns and those of its last column. */
  lemma RingCellsSplit(g: Grid)
    requires g != []
    ensures RingCells(g) == RingCells(g[..|g| - 1]) + ColumnRingCells(g[|g| - 1], |g| - 1)
  {
    var n := |g| - 1;
    var prev, col := RingCells(g[..n]), ColumnRingCells(g[n], n);
    forall p | p in RingCells(g)
      ensures p in prev + col
    {
      var (x, y) := p;
      if x < n {
        assert g[..n][x] == g[x];
      }
    }
    forall p | p in prev + col
      ensures p in RingCells(g)
    {
      var (x, y) := p;
      if p in prev {
        assert g[..n][x] == g[x];
      }
    }
  }

  // ---------------------------------------------------------------------------------
  // The layout object

  class LayoutData {
    const Layout: array2<SphereType>
    const Width: UShort
    const Height: UShort
    const HasPal: bool
    var Angle: Byte
    var StartX: UShort
    var StartY: UShort
    var PaletteID: UInt32
    var SkyAlpha: Byte
    var GlobeAlpha: Byte
    var PlayfieldA: Color
    var PlayfieldB: Color
    var BGColor1: Color
    var BGColor2: Color
    var BGColor3: Color

    /** `Width` and `Height` are the array's dimensions; a layout has at least one cell. */
    ghost predicate Valid()
      reads this
    {
      Layout.Length0 == Width && Layout.Length1 == Height && Width > 0 && Height > 0
    }

    /** The current state as a value. */
    function Value(): (st: Stage)
      reads this, Layout
      requires Valid()
      ensures WfGrid(st.grid) && Holds(Layout, st.grid)
      ensures Grids.Width(st.grid) == Width && Grids.Height(st.grid) == Height
    {
      Stage(Snapshot(Layout), Angle, StartX, StartY, HasPal,
        Palette(PaletteID, SkyAlpha, GlobeAlpha, PlayfieldA, PlayfieldB, BGColor1, BGColor2, BGColor3))
    }

    /** `WrapH`: the column `x` lands on, counting around the grid in either direction. */
    function WrapH(x: int): (r: int)
      reads this
      requires Width > 0
      ensures 0 <= r < Width
      ensures (x - r) % Width == 0
    {
      WrapDecomposes(x, Width);
      Wrap(x, Width)
    }

    /** `WrapV`: the row `y` lands on. */
    function WrapV(y: int): (r: int)
      reads this
      requires Height > 0
      ensures 0 <= r < Height
      ensures (y - r) % Height == 0
    {
      WrapDecomposes(y, Height);
      Wrap(y, Height)
    }

    /** `Perfect`: the number of cells that carry the ring marker. */
    function Perfect(): (n: nat)
      reads this, Layout
      requires Valid()
      ensures n == |RingCells(Value().grid)|
    {
      CountRingsIsCard(Snapshot(Layout));
      CountRings(Snapshot(Layout))
    }

    /** `Init`: build the layout from the playfield layer (which fixes the size), the ring
        layer and the palette entity's attributes, if there is one. */
    constructor Init(layer: array2<Tile>, rings: array2<Tile>, pal: Option<Palette>)
      requires 0 < layer.Length0 <= 0xFFFF && 0 < layer.Length1 <= 0xFFFF
      ensures Valid() && fresh(Layout)
      ensures Value() == Decode(Snapshot(layer), Snapshot(rings), pal)
    {
      ghost var lt, rt := Snapshot(layer), Snapshot(rings);
      var lay, start := ReadPlayfield(layer);
      ReadRings(lay, rings, lt);
      Layout, Width, Height := lay, layer.Length1, layer.Length0;
      Angle, StartX, StartY := start.angle, start.x, start.y;
      HasPal := pal.Some?;
      var p := if pal.Some? then pal.value else NoPalette;
      PaletteID, SkyAlpha, GlobeAlpha := p.paletteID, p.skyAlpha, p.globeAlpha;
      PlayfieldA, PlayfieldB, BGColor1, BGColor2, BGColor3 := p.playfieldA, p.playfieldB, p.bgColor1, p.bgColor2, p.bgColor3;
      new;
      HoldsUnique(Layout, DecodeGrid(lt, rt));
    }

    /** `MemberwiseClone` with a copied `Layout` array. */
    constructor Copy(src: LayoutData)
      requires src.Valid()
      ensures Valid() && fresh(Layout) && Value() == src.Value()
    {
      var c := CloneArray(src.Layout);
      Layout, Width, Height, HasPal := c, src.Width, src.Height, src.HasPal;
      Angle, StartX, StartY := src.Angle, src.StartX, src.StartY;
      PaletteID, SkyAlpha, GlobeAlpha := src.PaletteID, src.SkyAlpha, src.GlobeAlpha;
      PlayfieldA, PlayfieldB, BGColor1, BGColor2, BGColor3 := src.PlayfieldA, src.PlayfieldB, src.BGColor1, src.BGColor2, src.BGColor3;
      new;
      HoldsUnique(Layout, src.Value().grid);
    }

    /** `Clone`: an equal layout whose grid array is its own, so writing to one does not
        change the other. */
    method Clone() returns (c: LayoutData)
      requires Valid()
      ensures fresh(c) && fresh(c.Layout) && c.Valid() && c.Value() == Value()
    {
      c := new LayoutData.Copy(this);
    }

    /** The tile-writing part of `Save`: the playfield layer (of the layout's size) and the
        ring layer are overwritten as `EncodePlayfield` and `EncodeRings` say. */
    method Save(layer: array2<Tile>, rings: array2<Tile>)
      requires Valid() && layer != rings
      requires layer.Length0 == Height && layer.Length1 == Width
      requires StartX < Width && StartY < Height
      modifies layer, rings
      ensures unchanged(this, Layout) && Value() == old(Value())
      ensures Snapshot(layer) == EncodePlayfield(Value())
      ensures Snapshot(rings) == EncodeRings(old(Snapshot(rings)), Value().grid)
    {
      ghost var st := Value();
      WriteLayer(layer, Layout, st, StartX, StartY, Angle);
      ghost var e := Snapshot(layer);
      WriteRings(rings, Layout);
      assert Snapshot(layer) == e;
      assert Value() == st;
    }
  }

  /** The playfield part of `Save`: the first loop, then the start tile of the current angle. */
  method WriteLayer(layer: array2<Tile>, lay: array2<SphereType>, ghost st: Stage, x: UShort, y: UShort, angle: Byte)
    requires WfGrid(st.grid) && Holds(lay, st.grid)
    requires layer.Length0 == lay.Length1 && layer.Length1 == lay.Length0
    requires x == st.startX < lay.Length0 && y == st.startY < lay.Length1 && angle == st.angle
    modifies layer
    ensures Snapshot(layer) == EncodePlayfield(st)
  {
    WritePlayfield(layer, lay);
    layer[y, x] := StartN + angle;
    PlayfieldEncoded(layer, st);
  }

  /** The playfield layer holds what `EncodePlayfield` says once the start tile is written. */
  lemma PlayfieldEncoded(layer: array2<Tile>, st: Stage)
    requires WfGrid(st.grid) && layer.Length0 == Height(st.grid) && layer.Length1 == Width(st.grid)
    requires st.startX < Width(st.grid) && st.startY < Height(st.grid)
    requires forall cy, cx {:trigger layer[cy, cx]} :: 0 <= cy < layer.Length0 && 0 <= cx < layer.Length1 ==>
      layer[cy, cx] == if cx == st.startX && cy == st.startY then StartN + st.angle else ClearRing(st.grid[cx][cy])
    ensures Snapshot(layer) == EncodePlayfield(st)
  {
    var e := EncodePlayfield(st);
    assert IsGrid(e, layer.Length0, layer.Length1);
    forall cy, cx | 0 <= cy < layer.Length0 && 0 <= cx < layer.Length1
      ensures layer[cy, cx] == e[cy][cx]
    {
    }
    HoldsUnique(layer, e);
  }

  /** The first loop of `Init`: the base value of every cell, and the last start tile. */
  method ReadPlayfield(layer: array2<Tile>) returns (lay: array2<SphereType>, start: Start)
    requires 0 < layer.Length0 <= 0xFFFF && 0 < layer.Length1 <= 0xFFFF
    ensures fresh(lay) && lay.Length0 == layer.Length1 && lay.Length1 == layer.Length0
    ensures forall cx, cy :: 0 <= cx < lay.Length0 && 0 <= cy < lay.Length1 ==> lay[cx, cy] == BaseCell(layer[cy, cx])
    ensures start == ScanRows(Snapshot(layer), layer.Length1, layer.Length0)
  {
    var w, h := layer.Length1, layer.Length0;
    ghost var lt := Snapshot(layer);
    lay := new SphereType[w, h]((_, _) => Empty);
    start := NoStart;
    var y := 0;
    while y < h
      invariant 0 <= y <= h
      invariant start == ScanRows(lt, w, y)
      invariant forall cx, cy {:trigger lay[cx, cy]} :: 0 <= cx < w && 0 <= cy < h ==>
        lay[cx, cy] == if cy < y then BaseCell(lt[cy][cx]) else Empty
    {
      start := ReadRow(layer, lt, lay, y, start);
      y := y + 1;
    }
  }

  lemma ScanRowsStep(t: seq<seq<Tile>>, w: nat, y: nat)
    requires y < |t| <= 0x1_0000 && w <= 0x1_0000
    requires forall r :: 0 <= r < |t| ==> |t[r]| == w
    ensures ScanRows(t, w, y + 1) == ScanRow(t[y], y, w, ScanRows(t, w, y))
  {
  }

  /** One row of the first loop of `Init`. */
  method ReadRow(layer: array2<Tile>, ghost lt: seq<seq<Tile>>, lay: array2<SphereType>, y: int, acc: Start)
    returns (start: Start)
    requires layer.Length1 <= 0xFFFF && 0 <= y < layer.Length0 <= 0xFFFF && lt == Snapshot(layer)
    requires lay.Length0 == layer.Length1 && lay.Length1 == layer.Length0
    requires forall cx :: 0 <= cx < lay.Length0 ==> lay[cx, y] == Empty
    requires acc == ScanRows(lt, layer.Length1, y)
    modifies lay
    ensures start == ScanRows(lt, layer.Length1, y + 1)
    ensures forall cx, cy {:trigger lay[cx, cy]} :: 0 <= cx < lay.Length0 && 0 <= cy < lay.Length1 ==>
      lay[cx, cy] == if cy == y then BaseCell(lt[cy][cx]) else old(lay[cx, cy])
  {
    ghost var row := lt[y];
    start := acc;
    var x := 0;
    while x < layer.Length1
      invariant 0 <= x <= layer.Length1
      invariant start == ScanRow(row, y, x, acc)
      invariant forall cx, cy {:trigger lay[cx, cy]} :: 0 <= cx < lay.Length0 && 0 <= cy < lay.Length1 ==>
        lay[cx, cy] == if cy == y && cx < x then BaseCell(lt[cy][cx]) else old(lay[cx, cy])
    {
      var sp := TileIndex(layer[y, x]);
      if IsStart(sp) {
        start := Start(sp - StartN, x, y);
      } else if sp == 0x3FF {
      } else {
        lay[x, y] := sp;
      }
      x := x + 1;
    }
    ScanRowsStep(lt, layer.Length1, y);
  }

  /** The second loop of `Init`: the ring marker on every cell whose ring tile is a Ring. */
  method ReadRings(lay: array2<SphereType>, rings: array2<Tile>, ghost lt: seq<seq<Tile>>)
    requires IsGrid(lt, lay.Length1, lay.Length0) && lay.Length0 > 0 && lay.Length1 > 0
    requires forall cx, cy {:trigger lay[cx, cy]} :: 0 <= cx < lay.Length0 && 0 <= cy < lay.Length1 ==> lay[cx, cy] == BaseCell(lt[cy][cx])
    modifies lay
    ensures Holds(lay, DecodeGrid(lt, Snapshot(rings)))
  {
    var w, h := lay.Length0, lay.Length1;
    ghost var rt := Snapshot(rings);
    var rh, rw := if rings.Length0 < h then rings.Length0 else h, if rings.Length1 < w then rings.Length1 else w;
    var y := 0;
    while y < rh
      invariant 0 <= y <= rh
      invariant forall cx, cy {:trigger lay[cx, cy]} :: 0 <= cx < w && 0 <= cy < h ==>
        lay[cx, cy] == if cy < y && RingAt(rt, w, h, cx, cy) then SetRing(BaseCell(lt[cy][cx])) else BaseCell(lt[cy][cx])
    {
      var x := 0;
      while x < rw
        invariant 0 <= x <= rw
        invariant forall cx, cy {:trigger lay[cx, cy]} :: 0 <= cx < w && 0 <= cy < h ==>
          lay[cx, cy] == if (cy < y || (cy == y && cx < x)) && RingAt(rt, w, h, cx, cy)
            then SetRing(BaseCell(lt[cy][cx])) else BaseCell(lt[cy][cx])
      {
        if TileIndex(rings[y, x]) == Ring {
          lay[x, y] := SetRing(lay[x, y]);
        }
        x := x + 1;
      }
      y := y + 1;
    }
    assert Cols(lt) == w && Rows(lt) == h;
  }

  /** The first loop of `Save`: every cell with its ring marker cleared. */
  method WritePlayfield(layer: array2<Tile>, lay: array2<SphereType>)
    requires layer.Length0 == lay.Length1 && layer.Length1 == lay.Length0
    modifies layer
    ensures forall cy, cx {:trigger layer[cy, cx]} :: 0 <= cy < layer.Length0 && 0 <= cx < layer.Length1 ==> layer[cy, cx] == ClearRing(lay[cx, cy])
  {
    var y := 0;
    while y < lay.Length1
      invariant 0 <= y <= lay.Length1
      invariant forall cy, cx :: 0 <= cy < y && 0 <= cx < lay.Length0 ==> layer[cy, cx] == ClearRing(lay[cx, cy])
    {
      var x := 0;
      while x < lay.Length0
        invariant 0 <= x <= lay.Length0
        invariant forall cy, cx :: 0 <= cx < lay.Length0 && (0 <= cy < y || (cy == y && cx < x)) ==>
          layer[cy, cx] == ClearRing(lay[cx, cy])
      {
        layer[y, x] := ClearRing(lay[x, y]);
        x := x + 1;
      }
      y := y + 1;
    }
  }

  /** The second loop of `Save`: on the part of the ring layer that overlaps the grid, a Ring
      tile for each cell with the ring marker and 0 for the others. */
  method WriteRings(rings: array2<Tile>, lay: array2<SphereType>)
    requires lay.Length0 > 0 && lay.Length1 > 0
    modifies rings
    ensures Snapshot(rings) == EncodeRings(old(Snapshot(rings)), Snapshot(lay))
  {
    ghost var rt := Snapshot(rings);
    ghost var g := Snapshot(lay);
    var rh, rw := if rings.Length0 < lay.Length1 then rings.Length0 else lay.Length1, if rings.Length1 < lay.Length0 then rings.Length1 else lay.Length0;
    var y := 0;
    while y < rh
      invariant 0 <= y <= rh
      invariant forall cy, cx {:trigger rings[cy, cx]} :: 0 <= cy < rings.Length0 && 0 <= cx < rings.Length1 ==>
        rings[cy, cx] == if cy < y && cx < rw then (if HasRing(g[cx][cy]) then Ring as Tile else 0) else rt[cy][cx]
    {
      WriteRingRow(rings, lay, g, y, rw);
      y := y + 1;
    }
    ghost var er := EncodeRings(rt, g);
    forall cy, cx | 0 <= cy < rings.Length0 && 0 <= cx < rings.Length1
      ensures rings[cy, cx] == er[cy][cx]
    {
      assert Cols(rt) == rings.Length1;
    }
    HoldsUnique(rings, er);
  }

  /** One row of the second loop of `Save`. */
  method WriteRingRow(rings: array2<Tile>, lay: array2<SphereType>, ghost g: Grid, y: int, rw: int)
    requires Holds(lay, g) && 0 <= y < rings.Length0 && y < lay.Length1
    requires 0 <= rw <= rings.Length1 && rw <= lay.Length0
    modifies rings
    ensures forall cy, cx {:trigger rings[cy, cx]} :: 0 <= cy < rings.Length0 && 0 <= cx < rings.Length1 ==>
      rings[cy, cx] == if cy == y && cx < rw then (if HasRing(g[cx][cy]) then Ring as Tile else 0) else old(rings[cy, cx])
  {
    var x := 0;
    while x < rw
      invariant 0 <= x <= rw
      invariant forall cy, cx {:trigger rings[cy, cx]} :: 0 <= cy < rings.Length0 && 0 <= cx < rings.Length1 ==>
        rings[cy, cx] == if cy == y && cx < x then (if HasRing(g[cx][cy]) then Ring as Tile else 0) else old(rings[cy, cx])
    {
      rings[y, x] := if HasRing(lay[x, y]) then Ring else 0;
      x := x + 1;
    }
  }

  /** Every integer is a whole number of periods away from its wrapped value. */
  lemma WrapDecomposes(x: int, n: int)
    requires n > 0
    ensures (x - Wrap(x, n)) % n == 0
  {
    assert x == (x / n) * n + Wrap(x, n);
    DivModUnique(x - Wrap(x, n), n, x / n, 0);
  }
}
