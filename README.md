# ManiaBSEdit editing engine, modelled in Dafny

ManiaBSEdit edits Blue Sphere stages for Sonic Mania. A stage is a wrapping grid of
spheres. Each cell holds a sphere kind (empty, blue, red, bumper, yellow, green, pink,
ring, one of four start tiles) and may carry a ring flag in bit 7. The stage also has a
start position and start angle, and optionally a palette.

This project models the editing engine behind the window:

- `LayoutData` with its wrap helpers, its ring count, and its decoding from and encoding
  to the two tile layers of a scene file;
- every reversible `Action` subclass as one tagged variant whose `Do` swaps the stage with
  its payload;
- the undo and redo stacks with the dirty flag;
- the flood fill;
- the integer line algorithm;
- the rectangle and diamond shapes with their scan-line fill;
- the cut, copy, paste, recolour, flip and rotate menu commands;
- the recent-files list.

Modules:

- `Seqs`: `Min`, `Max` and `NoDup` (no entry twice), shared by the other modules.
- `SphereTypes`: cell values and the ring flag.
- `Grids`: grids as `seq<seq<_>>` indexed `[x][y]`; C#'s truncating `%` and the wrap
  helpers; how an `array2` holds a grid value.
- `LayoutModel`: the `LayoutData` class (its `Layout` array updated in place), `Init`, `Save`
  and `Clone`.
- `SphereLists`, `Patches`, `Actions`: what each action's `Do` does, as a function on values
  (`Apply`) and as methods on the layout's array. The central property is that `Do` undoes
  itself.
- `Transforms`: flips and rotations of a selection.
- `UndoLog`: the `Editor` class with its undo and redo stacks and the count recorded at the
  last save.
- `FloodFills`: the fill tool's queue-driven flood fill and the crop that builds its action.
- `Lines`, `Shapes`, `ShapeFills`: the line, rectangle and diamond tools.
- `Commands`: the Edit-menu commands and the start tool.
- `RecentFiles`: the recent-files list.

The C# `double` error accumulator of the line algorithm becomes exact scaled integers. A
lemma relates it to the real-valued comparison (`Lines.ScaledError`). The model therefore
decides every exact tie upward, where the source's `double` may decide it downward (see
"## Left out").

## Model

| member | source | states |
|---|---|---|
| SphereTypes.SetRing | ManiaBSEdit/LayoutData.cs:145 | the result has the ring flag (bit 7) set and every other bit of the input unchanged |
| SphereTypes.ClearRing | ManiaBSEdit/LayoutData.cs:145 | the result has bit 7 clear and every other bit unchanged |
| SphereTypes.RingOfEmpty | ManiaBSEdit/LayoutData.cs:145 | `Empty` has no ring; setting its ring gives `RingFlag`, and clearing that gives back `Empty` |
| SphereTypes.RingFlagRoundTrip | ManiaBSEdit/LayoutData.cs:145 | set and clear undo each other on the other bits; every cell is its ring-free part plus, if flagged, the flag |
| Grids.TruncRem | ManiaBSEdit/LayoutData.cs:130 | C#'s `%`: the remainder lies strictly between -n and n and has the sign of the dividend |
| Grids.Wrap | ManiaBSEdit/LayoutData.cs:128-142 | the wrapped coordinate lies in `[0, n)` |
| Grids.WrapIsFloorMod | ManiaBSEdit/LayoutData.cs:128-134 | C# remainder plus `n` when negative equals the floor modulus `Wrap` for every x |
| Grids.WrapPeriodic | ManiaBSEdit/LayoutData.cs:128-134 | shifting by any multiple of n does not change the wrapped coordinate |
| Grids.WrapIdentity | ManiaBSEdit/LayoutData.cs:128-134 | a coordinate already inside the grid is returned unchanged |
| Grids.WrapAdd | ManiaBSEdit/LayoutData.cs:128-134 | wrapping before an offset is added gives the same cell as wrapping after |
| Grids.WrapWindow | ManiaBSEdit/MainForm.cs:1899-1911 | a cell lies in a wrapped window of width m iff its wrapped offset from the window's origin is below m |
| Grids.CloneArray | ManiaBSEdit/LayoutData.cs:124 | `Clone()` of the layout array: a fresh array of the same size holding the same grid |
| LayoutModel.BaseCell | ManiaBSEdit/LayoutData.cs:52-68 | a start tile or the blank tile 0x3FF reads as `Empty`; any other tile reads as its 10-bit index |
| LayoutModel.ScanRowsLast | ManiaBSEdit/LayoutData.cs:49-62 | with start tiles present, the start position is the last one in row-major order, with its angle |
| LayoutModel.ScanRowsNone | ManiaBSEdit/LayoutData.cs:49-62 | with no start tile, the start position stays at its default |
| LayoutModel.DecodeAt | ManiaBSEdit/LayoutData.cs:49-74 | each decoded cell is its base sphere, with the ring flag iff the ring layer holds a ring tile there |
| LayoutModel.EncodedBase | ManiaBSEdit/LayoutData.cs:98-102 | the saved playfield holds each cell's sphere without its ring flag, and the start tile at the start cell |
| LayoutModel.EncodedRing | ManiaBSEdit/LayoutData.cs:103-105 | the saved ring layer holds a ring tile at a cell iff the cell has the ring flag |
| LayoutModel.EncodedStart | ManiaBSEdit/LayoutData.cs:98-102 | re-reading a saved playfield finds exactly the saved start position and angle |
| LayoutModel.SaveInitRoundTrip | ManiaBSEdit/LayoutData.cs:95-105 | loading what `Save` wrote gives back the start position, the angle and every cell, except that a sphere under the start tile reads back as empty (its ring is kept) |
| LayoutModel.CountRingsIsCard | ManiaBSEdit/LayoutData.cs:17 | the counting loop's result is the number of cells that carry the ring flag |
| LayoutModel.LayoutData.WrapH | ManiaBSEdit/LayoutData.cs:128-134 | result in `[0, Width)` and congruent to x modulo Width |
| LayoutModel.LayoutData.WrapV | ManiaBSEdit/LayoutData.cs:136-142 | result in `[0, Height)` and congruent to y modulo Height |
| LayoutModel.LayoutData.Perfect | ManiaBSEdit/LayoutData.cs:17 | the perfect count equals the number of ring-flagged cells of the grid |
| LayoutModel.LayoutData.Init | ManiaBSEdit/LayoutData.cs:43-74 | the new layout's value is the decoding of the two tile layers: base cells, ring flags and the last start tile |
| LayoutModel.LayoutData.Copy | ManiaBSEdit/LayoutData.cs:121-126 | a new layout with its own array and the same stage value |
| LayoutModel.LayoutData.Clone | ManiaBSEdit/LayoutData.cs:121-126 | the clone and its array are fresh; its value equals the original's |
| LayoutModel.LayoutData.Save | ManiaBSEdit/LayoutData.cs:95-105 | the playfield layer becomes the encoding of the stage; the ring layer is rewritten from the ring flags; the layout itself is left as it was |
| LayoutModel.ReadPlayfield | ManiaBSEdit/LayoutData.cs:49-64 | the loop reads every base cell, transposed, and finds the same start as the row-major scan |
| LayoutModel.ReadRings | ManiaBSEdit/LayoutData.cs:70-74 | after the ring loop the array holds the decoded grid |
| LayoutModel.WritePlayfield | ManiaBSEdit/LayoutData.cs:98-100 | every playfield tile is its cell with the ring flag cleared |
| LayoutModel.WriteRings | ManiaBSEdit/LayoutData.cs:103-105 | the ring layer equals its ring-layer encoding from the old layer and the grid |
| SphereLists.Equals | ManiaBSEdit/MainForm.cs:1777-1780 | true exactly when sphere, X and Y all agree |
| SphereLists.Reverse | ManiaBSEdit/MainForm.cs:1823 | element i of the result is element `n-1-i` of the input |
| SphereLists.StepTwice | ManiaBSEdit/MainForm.cs:1817-1822 | swapping one cell with its entry twice restores both the grid and the entry |
| SphereLists.SwapAllReversed | ManiaBSEdit/MainForm.cs:1815-1824 | replaying the swapped list in reverse order restores the grid and gives the reversed original list |
| SphereLists.SphereListApplyTwice | ManiaBSEdit/MainForm.cs:1815-1824 | a sphere-list action done twice restores the grid and its list, even with repeated cells |
| Patches.ReadPatch | ManiaBSEdit/MainForm.cs:1901-1905 | the read-back patch has exactly the input's mask and holds what the grid has under it |
| Patches.AreaApplyIsOverlay | ManiaBSEdit/MainForm.cs:1899-1911 | the grid after an area action is the patch laid over the grid, wrapping at the edges |
| Patches.AreaApplyTwice | ManiaBSEdit/MainForm.cs:1899-1911 | an area action done twice restores the grid |
| Patches.AreaApplyTwicePatch | ManiaBSEdit/MainForm.cs:1899-1911 | when the patch fits in the grid, doing it twice also restores the patch |
| Patches.AreaFillApplyTwice | ManiaBSEdit/MainForm.cs:1843-1853 | a fill action done twice restores the grid |
| Patches.AreaFillApplyTwicePatch | ManiaBSEdit/MainForm.cs:1843-1853 | when it fits in the grid, a fill action done twice also restores its patch |
| Patches.ReadLift | ManiaBSEdit/MainForm.cs:1845-1848 | the dense read-back of a fill action is the sparse read-back with every cell present |
| Actions.Apply | ManiaBSEdit/MainForm.cs:1802 | `Do` keeps the grid size and the palette flag, and leaves a payload that is valid for the grid |
| Actions.ApplySetting | ManiaBSEdit/MainForm.cs:2204-2351 | a settings action leaves the grid untouched |
| Actions.ApplyTwice | ManiaBSEdit/MainForm.cs:1799-1943 | for every valid action (a rotation on a square area), doing it and then doing its swapped-out payload restores the stage: undo is `Do` again |
| Actions.ApplyTwiceData | ManiaBSEdit/MainForm.cs:1806-1912 | for a payload that fits in the grid, the second `Do` gives back the original payload, so redo replays the same action |
| Actions.StartPositionTruncates | ManiaBSEdit/MainForm.cs:2025-2031 | the start position is stored through a `ushort` cast, modulo 65536 |
| Actions.SphereListDo | ManiaBSEdit/MainForm.cs:1815-1824 | the loop leaves the array and the list as `SphereListApply` gives |
| Actions.ReadUnderDense | ManiaBSEdit/MainForm.cs:1845-1848 | the loop reads the wrapped window under the patch |
| Actions.WriteDense | ManiaBSEdit/MainForm.cs:1849-1851 | the loop writes the patch into the wrapped window |
| Actions.AreaFillDo | ManiaBSEdit/MainForm.cs:1843-1853 | the array and the new payload are those of `AreaFillApply` |
| Actions.ReadUnderSparse | ManiaBSEdit/MainForm.cs:1901-1905 | the loop reads the grid under the patch's present cells |
| Actions.WriteSparse | ManiaBSEdit/MainForm.cs:1906-1909 | the loop writes the patch's present cells and leaves the rest |
| Actions.AreaDo | ManiaBSEdit/MainForm.cs:1899-1911 | the array and the new payload are those of `AreaApply` |
| Actions.Action.Do | ManiaBSEdit/MainForm.cs:1802 | the layout's new value and the new payload are `Apply` of the old ones |
| Actions.Action.DoOnSetting | ManiaBSEdit/MainForm.cs:2025-2051 | start position, angle and palette actions swap their value with the layout's |
| Transforms.FlipH | ManiaBSEdit/MainForm.cs:2146-2155 | inside the area each cell comes from its horizontal mirror; outside, nothing changes |
| Transforms.FlipV | ManiaBSEdit/MainForm.cs:2167-2176 | the same, mirroring vertically |
| Transforms.FlipHTwice | ManiaBSEdit/MainForm.cs:2146-2155 | flipping horizontally twice restores the grid |
| Transforms.FlipVTwice | ManiaBSEdit/MainForm.cs:2167-2176 | flipping vertically twice restores the grid |
| Transforms.RotateRight | ManiaBSEdit/MainForm.cs:1929-1934 | the turned area takes each cell from its clockwise source; outside it nothing changes |
| Transforms.RotateLeft | ManiaBSEdit/MainForm.cs:1935-1940 | the same, counter-clockwise |
| Transforms.RotateRightLeft | ManiaBSEdit/MainForm.cs:1926-1942 | rotating a square area right, then left, restores the grid |
| Transforms.RotateLeftRight | ManiaBSEdit/MainForm.cs:1926-1942 | rotating a square area left, then right, restores the grid |
| Transforms.FlipHorizontally | ManiaBSEdit/MainForm.cs:2146-2155 | the array afterwards holds `FlipH` of the grid before |
| Transforms.FlipVertically | ManiaBSEdit/MainForm.cs:2167-2176 | the array afterwards holds `FlipV` of the grid before |
| Transforms.Rotate | ManiaBSEdit/MainForm.cs:1926-1942 | the array afterwards holds `RotateRight` or `RotateLeft` of the grid before |
| Commands.AreaOf | ManiaBSEdit/MainForm.cs:1373-1375 | an empty selection stands for the whole layout; a non-empty one is kept |
| Commands.FoundIsMatches | ManiaBSEdit/MainForm.cs:1442-1450 | the `found` flag is set iff some cell of the area matches the command's rule |
| Commands.RecolourEffect | ManiaBSEdit/MainForm.cs:1436-1455 | the action built from the area recolours exactly the matching cells and leaves the others |
| Commands.Recolour | ManiaBSEdit/MainForm.cs:1436-1526 | no action iff nothing in the area matches; otherwise a valid area action whose `Do` gives the recoloured grid |
| Commands.ReplaceOnlyMatches | ManiaBSEdit/MainForm.cs:1436-1476 | replace changes only cells holding the replaced sphere, and with distinct colours it leaves none behind |
| Commands.SwapTwice | ManiaBSEdit/MainForm.cs:1478-1502 | swap exchanges foreground and background cells, and swapping twice restores the grid |
| Commands.MarkRingsOnlyBlueRed | ManiaBSEdit/MainForm.cs:1504-1526 | mark rings changes only blue and red cells without a ring, and a second run finds nothing to do |
| Commands.Copy | ManiaBSEdit/MainForm.cs:1385-1395 | the clipboard holds the selected area of the grid |
| Commands.Cut | ManiaBSEdit/MainForm.cs:1371-1383 | the clipboard holds the selected area, and the action empties that area |
| Commands.CutEmpties | ManiaBSEdit/MainForm.cs:1371-1383 | after the cut every cell of the area is empty and every other cell is unchanged |
| Commands.CutThenPasteRestores | ManiaBSEdit/MainForm.cs:1371-1403 | pasting the cut clipboard at the same place restores the stage |
| Commands.Tiled | ManiaBSEdit/MainForm.cs:1414-1416 | the tiled patch has the area's size |
| Commands.TiledRepeats | ManiaBSEdit/MainForm.cs:1414-1416 | the clipboard repeats with its own period, and an area of its size gets it unchanged |
| Commands.PasteRepeating | ManiaBSEdit/MainForm.cs:1405-1419 | the action fills the area with the clipboard tiled to the area's size |
| Commands.SelectionTransformsFit | ManiaBSEdit/MainForm.cs:1528-1560 | flips of any area are valid actions, and rotates are valid whenever the corrected guard enables them |
| Commands.RotateGuardsAgree | ManiaBSEdit/MainForm.cs:1317 | on every non-empty selection the corrected guard agrees with the written one |
| Commands.RotateGuardAdmitsNonSquare | ManiaBSEdit/MainForm.cs:1317 | the written guard enables rotate for an empty selection on a 2×1 layout, where the area is not square |
| Commands.StartTool | ManiaBSEdit/MainForm.cs:1361-1366 | a click on the start cell turns the angle by a quarter; a click elsewhere moves the start there |
| UndoLog.LeadsBack | ManiaBSEdit/MainForm.cs:708-724 | the payload left by `Do` leads from the new stage back to the old one |
| UndoLog.LogPush | ManiaBSEdit/MainForm.cs:708-724 | pushing a done action keeps the log invariant: each undo entry leads back one stage |
| UndoLog.LogTruncate | ManiaBSEdit/MainForm.cs:710-717 | dropping the redo stack keeps the invariant on the shortened history |
| UndoLog.LogUndo | ManiaBSEdit/MainForm.cs:327-344 | moving the top undo entry, after its `Do`, onto the redo stack keeps the invariant |
| UndoLog.LogRedo | ManiaBSEdit/MainForm.cs:346-363 | moving the top redo entry, after its `Do`, onto the undo stack keeps the invariant |
| UndoLog.DistinctPopUndo | ManiaBSEdit/MainForm.cs:327-344 | an undone action object sits on the stacks only once |
| UndoLog.DistinctPopRedo | ManiaBSEdit/MainForm.cs:346-363 | a redone action object sits on the stacks only once |
| UndoLog.Editor.LoadStage | ManiaBSEdit/MainForm.cs:222-224 | a freshly loaded stage has empty stacks and is not dirty |
| UndoLog.Editor.IsDirty | ManiaBSEdit/MainForm.cs:151 | not dirty means the layout equals the last saved stage |
| UndoLog.Editor.SaveLayout | ManiaBSEdit/MainForm.cs:264-277 | the files hold the encoded stage and the editor is no longer dirty; the stacks are kept (the scene's tile layers are not objects of the editor) |
| UndoLog.Editor.DoAction | ManiaBSEdit/MainForm.cs:708-724 | the action is done and pushed, the redo stack is cleared, and a save point that was dropped becomes unreachable |
| UndoLog.Editor.DoUndo | ManiaBSEdit/MainForm.cs:327-344 | undoing count steps brings the layout back to the stage count steps earlier; nothing happens while drawing |
| UndoLog.Editor.DoRedo | ManiaBSEdit/MainForm.cs:346-363 | redoing count steps brings the layout forward to the stage count steps later; nothing happens while drawing |
| UndoLog.Editor.UndoSteps | ManiaBSEdit/MainForm.cs:330-338 | each pass moves one action from the undo stack to the redo stack and runs it, keeping the log valid; after count passes the layout is the stage count steps earlier |
| UndoLog.Editor.RedoSteps | ManiaBSEdit/MainForm.cs:349-357 | each pass moves one action from the redo stack to the undo stack and runs it, keeping the log valid; after count passes the layout is the stage count steps later |
| UndoLog.Editor.KeyDown | ManiaBSEdit/MainForm.cs:377-398 | Ctrl+Z and Ctrl+Y undo or redo one step when possible; other keys change nothing |
| FloodFills.Neighbours | ManiaBSEdit/MainForm.cs:772-795 | the four neighbours of a cell, each wrapped into the grid |
| FloodFills.FloodFill | ManiaBSEdit/MainForm.cs:763-796 | the fill grid marks exactly the cells reachable from the click through cells of the clicked sphere |
| FloodFills.FillComplete | ManiaBSEdit/MainForm.cs:769-796 | once the queue is empty, every reachable cell is marked |
| FloodFills.PathMarked | ManiaBSEdit/MainForm.cs:769-796 | the end of every same-sphere path from a marked cell is marked |
| FloodFills.ReachedHolds | ManiaBSEdit/MainForm.cs:769-796 | every reached cell lies in the grid and holds the clicked sphere |
| FloodFills.FilledRegion | ManiaBSEdit/MainForm.cs:760-798 | the fill sets the clicked cell, changes only cells of its sphere, and leaves no matching neighbour of a filled cell unfilled |
| FloodFills.MarkedBounds | ManiaBSEdit/MainForm.cs:1861-1873 | the tightest box around the marked cells, or the sentinel values when none is marked |
| FloodFills.CropToMarked | ManiaBSEdit/MainForm.cs:1859-1884 | the crop holds every marked cell, and each of its four edges has one |
| FloodFills.CropFills | ManiaBSEdit/MainForm.cs:1859-1884 | the cropped area action gives the same grid as the uncropped fill |
| FloodFills.FillTool | ManiaBSEdit/MainForm.cs:760-798 | no action iff the clicked cell already holds the sphere; otherwise a valid area action whose `Do` performs the flood fill |
| Lines.Normalize | ManiaBSEdit/MainForm.cs:869-887 | ordering along the major axis keeps the line's extent on both axes |
| Lines.LinePoints | ManiaBSEdit/MainForm.cs:835-920 | a line has one point per step along its major axis, plus one |
| Lines.LineEnds | ManiaBSEdit/MainForm.cs:835-920 | the first and last points are the two end points |
| Lines.LineMajor | ManiaBSEdit/MainForm.cs:888-917 | the major coordinate advances by exactly one per point |
| Lines.LineSteps | ManiaBSEdit/MainForm.cs:888-917 | consecutive points are distinct and differ by at most one on each axis |
| Lines.LineBounds | ManiaBSEdit/MainForm.cs:835-920 | every point lies in the end points' bounding box |
| Lines.MinorRange | ManiaBSEdit/MainForm.cs:888-917 | the minor offset stays between 0 and the minor extent |
| Lines.ScaledError | ManiaBSEdit/MainForm.cs:890-917 | the scaled-integer test `e2 >= dA` is the same decision as `error >= 0.5` on reals |
| Lines.ErrorStep | ManiaBSEdit/MainForm.cs:912-917 | one error update keeps the accumulator tied to the closed-form minor offset |
| Lines.Advance | ManiaBSEdit/MainForm.cs:912-917 | one loop step moves the minor coordinate by zero or one, keeping the error invariant |
| Lines.Contains | ManiaBSEdit/MainForm.cs:848 | true exactly when the location is in the list |
| Lines.AddAllSpec | ManiaBSEdit/MainForm.cs:847-849 | adding locations keeps the old list as a prefix, the result holds exactly the old and new locations, and no duplicate appears |
| Lines.DrawLineList | ManiaBSEdit/MainForm.cs:835-920 | the draw list gains the line's wrapped cells, each once |
| Lines.PaintCells | ManiaBSEdit/MainForm.cs:922-991 | a painted cell holds the sphere iff it is on the line; the others are unchanged |
| Lines.DrawLineRect | ManiaBSEdit/MainForm.cs:922-991 | the rectangle afterwards is the old one painted along the line |
| Shapes.ShapeSize | ManiaBSEdit/MainForm.cs:1144-1147 | the dragged box spans both corners, and with Ctrl it is square and reaches the larger side |
| Shapes.RectEdgeIsBorder | ManiaBSEdit/MainForm.cs:1150-1159 | the four edge lines cover exactly the border cells of the box |
| Shapes.RectangleEdgeList | ManiaBSEdit/MainForm.cs:1150-1159 | the draw list is the box's border, wrapped into the grid, each cell once |
| Shapes.RectangleEdge | ManiaBSEdit/MainForm.cs:1150-1159 | the draw list built by the tool is the listed border |
| Shapes.DiamondInBox | ManiaBSEdit/MainForm.cs:1199-1208 | the diamond stays in its box and touches the middle of each side |
| Shapes.DiamondEdgeList | ManiaBSEdit/MainForm.cs:1199-1208 | the draw list holds only wrapped cells of the diamond's box, each once, and includes the four tips |
| Shapes.DiamondEdge | ManiaBSEdit/MainForm.cs:1199-1208 | the draw list built by the tool is the listed diamond |
| ShapeFills.RectangleFillEdge | ManiaBSEdit/MainForm.cs:1161-1180 | the block is the background with the rectangle's outline in the sphere |
| ShapeFills.FramedIsOutlineOverBackground | ManiaBSEdit/MainForm.cs:1161-1180 | a framed block is the outline lines painted over a background block |
| ShapeFills.FramedThinIsSolid | ManiaBSEdit/MainForm.cs:1161-1180 | a block one or two cells thick is all outline |
| ShapeFills.RectangleFill | ManiaBSEdit/MainForm.cs:1181-1187 | the block is the sphere everywhere |
| ShapeFills.DrawDiamondRect | ManiaBSEdit/MainForm.cs:1211-1215 | the grid holds the diamond's outline and nothing else |
| ShapeFills.DiamondGridCells | ManiaBSEdit/MainForm.cs:1211-1215 | a cell of the outline grid is set iff the diamond passes through it |
| ShapeFills.ScanMin | ManiaBSEdit/MainForm.cs:1218-1225 | the first drawn cell of the row, or `int.MaxValue` when the row is empty |
| ShapeFills.ScanMax | ManiaBSEdit/MainForm.cs:1218-1225 | the last drawn cell of the row, or `int.MinValue` when the row is empty |
| ShapeFills.ScanMinMax | ManiaBSEdit/MainForm.cs:1218-1225 | the row scan returns those two bounds |
| ShapeFills.FillBetween | ManiaBSEdit/MainForm.cs:1226-1228 | cells strictly between the bounds get the sphere (not overwriting drawn ones in edge mode); an empty row, whose upper bound wraps, is untouched |
| ShapeFills.FillRows | ManiaBSEdit/MainForm.cs:1216-1229 | the array afterwards holds the row-filled grid |
| ShapeFills.RowFilledCells | ManiaBSEdit/MainForm.cs:1216-1248 | a cell is filled iff it lies between drawn cells of its row; drawn cells are kept |
| ShapeFills.FillKeepsEnclosed | ManiaBSEdit/MainForm.cs:1216-1248 | the fill does not change which cells are enclosed |
| ShapeFills.FilledRowsHaveNoGaps | ManiaBSEdit/MainForm.cs:1216-1248 | after the fill, every enclosed cell is set |
| ShapeFills.RowFillIdempotent | ManiaBSEdit/MainForm.cs:1216-1248 | filling a filled shape again changes nothing |
| ShapeFills.FillModesAgree | ManiaBSEdit/MainForm.cs:1216-1248 | with the outline's own sphere, the edge and full fill modes give the same cells |
| ShapeFills.DiamondFillEdge | ManiaBSEdit/MainForm.cs:1210-1230 | the block is the diamond outline with its inside in the background sphere |
| ShapeFills.DiamondFill | ManiaBSEdit/MainForm.cs:1231-1250 | the block is the diamond outline with its inside in the sphere |
| ShapeFills.DiamondFillIsFillEdgeWithOwnSphere | ManiaBSEdit/MainForm.cs:1210-1250 | a full diamond equals an edge-filled one whose background is the outline's sphere |
| RecentFiles.RemoveFirst | ManiaBSEdit/MainForm.cs:196-200 | a listed name loses one entry and an unlisted name changes nothing; no new name appears |
| RecentFiles.RemoveFirstNoDup | ManiaBSEdit/MainForm.cs:196-200 | on a list without duplicates the name is gone afterwards and no duplicate appears |
| RecentFiles.AddedFront | ManiaBSEdit/MainForm.cs:194-209 | the opened name heads a list of 1 to 10 names that holds nothing new besides it |
| RecentFiles.AddedNoDup | ManiaBSEdit/MainForm.cs:194-209 | the list never holds a name twice |
| RecentFiles.AddedKeepsRecent | ManiaBSEdit/MainForm.cs:194-209 | every other name among the first nine stays on the list |
| RecentFiles.AddedIdempotent | ManiaBSEdit/MainForm.cs:194-209 | opening the same file twice in a row gives the same list as opening it once |
| RecentFiles.RecentList.AddRecentFile | ManiaBSEdit/MainForm.cs:194-209 | the remove, insert and trim loop leaves exactly `Added` of the old list |

## Left out

- `LayoutDrawer.cs` (painting the grid on screen), the preview drawing, the WinForms menus,
  message boxes, status text and tool-strip state. LayoutDrawer.cs is not part of this model.
- File I/O: reading and writing scene and `.undo` files, the undo-history serialisation
  (MainForm.cs:229-237, 267-274) and the settings INI. `LayoutData.Init` and `Save` work on
  the two tile layers as arrays. The scene object and the palette-attribute plumbing
  (LayoutData.cs:75-92, 106-118) are reduced to an optional palette value carried through
  unchanged.
- The system clipboard: the copied block is a parameter and a return value.
- The oval tool (MainForm.cs:1254-1302): its outline is sampled with `Math.Cos`/`Math.Sin`
  on doubles, so it is floating point.
- The pencil tool's pixel clipping and mouse tracking (MainForm.cs:1027-1135) and the select
  tool's rectangle tracking; they are mouse handling, not grid logic.
- The text-insertion dialog (MainForm.cs:1426-1434), section files (`.sls`), the property
  grid proxy and each action's display `Name`.
- The recent-files menu items: their order mirrors `settings.RecentFiles`; only the list is
  modelled.
- Lines.ScaledError: the line algorithm's `double` accumulator (MainForm.cs:888-917) is
  modelled as exact scaled integers, so an exact tie, where the minor offset `k * dB / dA` is
  a whole number plus one half, always steps the minor coordinate (`Lines.Minor` rounds it
  upward). The source's accumulated `double` can land just below 0.5 at such a tie and miss the
  step, on lines of any length. For example, on the line (0,0)→(10,3) the accumulator before
  the test at x = 4 is 0.49999999999999994, so the source draws (5,1) where the model draws
  (5,2); the two agree again from x = 6. The cells of Lines.LinePoints, Lines.DrawLineList,
  Lines.DrawLineRect, Shapes.DiamondEdge, ShapeFills.DrawDiamondRect,
  ShapeFills.DiamondFillEdge and ShapeFills.DiamondFill can differ from the source's at such
  ties. For instance, the side (10,0)→(20,3) of a 21×7 diamond has (15,1) in the source and
  (15,2) in the model.
- LayoutModel.LayoutData.Save: requires the start position to lie inside the layout, where
  the source would throw an index exception.
- LayoutModel.LayoutData.Init: requires layer dimensions of at most 0xFFFF, which the
  `ushort` width and height fields can hold, and of at least 1. The source loads a playfield
  layer of width or height 0 without error (LayoutData.cs:46-48); the first `WrapH` or
  `WrapV` on that layout then divides by zero (LayoutData.cs:128, 136). The model does not
  cover such an empty layout.
- FloodFills.CropToMarked: requires at least one marked cell. The fill always marks the
  clicked cell; with none marked the source would allocate a negative-size array.
- Commands.PasteRepeating: requires a non-empty clipboard, where the source would divide by
  zero.
- Transforms.RotateRightLeft: requires a square area. Rotating a non-square area moves cells
  outside it, so the round trip only holds for squares (Transforms.RotateLeftRight likewise).
- Actions.ApplyTwice: requires a rotation's area to be square; the rotate command's own guard
  only ensures this for a non-empty selection (see Findings).
- UndoLog.Editor.DoAction: requires an action object that is not already on either stack.
  The source always passes a freshly created action. It also requires the action to fit the
  layout and, for a rotation, a square area (`ValidAction`, `Reversible`). The source pushes
  such an action (MainForm.cs:718) and only then throws in its `Do` (721); the
  Actions.ApplyTwice and Commands.SelectionTransformsFit lines and the Findings row cover
  those cases.
- Commands.Recolour: requires the selection to lie inside the layout. The source does not
  clamp it: the select drag builds it from mouse positions divided by the cell size
  (MainForm.cs:1002, 1021-1025), which can lie past the grid or below zero, and on such a
  selection the recolour loops throw `IndexOutOfRangeException`.
- Commands.Copy: requires the selection to lie inside the layout; on a selection past the grid
  or below zero the source's copy loop (MainForm.cs:1392) throws `IndexOutOfRangeException`.
- Commands.Cut: requires the selection to lie inside the layout; on a selection past the grid
  or below zero the source's cut loop (MainForm.cs:1378) throws `IndexOutOfRangeException`.
- Commands.SelectionTransformsFit: requires the selection to lie inside the layout; on a
  selection past the grid or below zero the flip and rotate actions the source submits throw
  `IndexOutOfRangeException` in their `Do`.
- UndoLog.Editor.DoUndo: requires at most as many steps as there are entries (DoRedo
  likewise), where the source would index out of range.

## Findings

| source | as written | input that shows it | evidently intended | confidence | as-written member | corrected member |
|---|---|---|---|---|---|---|
| ManiaBSEdit/MainForm.cs:1317 | rotate is enabled when the selection's width equals its height, so an empty selection (0×0) enables it | an empty selection on a 2×1 layout: the rotate command widens the area to the whole 2×1 layout (MainForm.cs:1546-1560). `RotateAction.Do` then writes outside the layout array: the clockwise write index `[area.X + area.Height - y - 1, area.Y + x]` (MainForm.cs:1933) reaches column index 1 of a layout 1 high, and the counter-clockwise `[area.X + y, area.Y + area.Width - x - 1]` (MainForm.cs:1939) likewise; its reads of the copy stay inside. The exception comes after `DoAction` has cleared the redo stack and pushed the action (MainForm.cs:710-718, `Do` at 721), so the broken action is already on the undo stack | enable rotate only when the area it will act on is square | not executed | Commands.RotateGuardAdmitsNonSquare | Commands.RotateGuardsAgree |
