# testudo3d tile engine in Dafny

A verified model of the discrete core of the Blender tile add-on testudo3d, of
its earlier version tilemap3d, and of the older modular building tool. Beneath
the panels, draw callbacks and key tables, these editors keep a cursor on an
integer grid cell with a heading in degrees. They paint, delete, grab, copy and
paste tiles at the cursor, and they fill or clear a box selection cell by cell.
The auto-tiler picks each tile from the occupancy of its six neighbours through
a bitmask rule table. A turtle draws lines and circles with these strokes, and
a room generator writes the 24-line rule table for a wall, floor and ceiling
tileset.

The host scene is an abstract store of objects, each with an identity, group,
cell, heading and tileset (`Scene.World`). The KD-tree range search becomes an
exact-cell lookup (`Scene.TilesAt`), and headings are whole quarter turns
(`Geometry.RotateZ`). `random.choice` becomes "some tile of the rule".
Exceptions the source raises are values (`Wrappers.PyError`). Objects whose
fields the source updates in place are classes:
- `TilemapEngine.Tilemap3D`, `AutoTiling.AutoTiler3D`, `Turtle.Turtle3D`, `Turtle.AutoTurtle3D`, `Operator.Session`, `Events.Registry` and `Tilesets.Properties` for testudo3d;
- `TilemapLegacy.Tilemap3D` and `TurtleLegacy.Turtle3D` for tilemap3d.

Their methods are proved against specification functions. `ModularBuilding`
(the painters) and `BuildingEditor` (the tool's edit operations) model
modular_building_tool.py as functions from one editor value to the next. Its
pieces carry a mesh and a module group instead of a tileset, so it has its own
small store (`ModularBuilding.At`, `Without`, `Find`) beside `Scene`.

Modules, one per source file plus shared ones:
- `Wrappers`, `Geometry`, `Scene`, `Text`, `Bitmasks`: shared pieces.
- `Rules`, `RulesProperties`, `AutoTiling`: testudo3d/autotiler3d.py.
- `Tilemap`, `TilemapEngine`: testudo3d/tilemap3d.py.
- `TilemapLegacy`: tilemap3d/tilemap3d.py.
- `Turtle`: testudo3d/turtle3d.py.
- `TurtleLegacy`: tilemap3d/turtle3d.py.
- `Tilesets`, `RoomGen`, `Setup`: testudo3d/__init__.py.
- `Operator`: testudo3d/operator.py.
- `Events`: testudo3d/events.py.
- `LSystem`: test/test_script.py.
- `ModularBuilding`, `BuildingEditor`: modular_building_tool.py.

## Model

| member | source | states |
|---|---|---|
| Geometry.Quarters | testudo3d/tilemap3d.py:119-120 | a quarter-turn heading reduces to 0..3 counter-clockwise quarter turns |
| Geometry.RotateZ | testudo3d/tilemap3d.py:119-120 | `Matrix.Rotation(radians(deg), 4, 'Z')` on a quarter turn keeps z and the horizontal grid distance from the origin |
| Geometry.TurnTimesFull | testudo3d/tilemap3d.py:119-120 | four quarter turns are the identity |
| Geometry.RotateZCompose | testudo3d/tilemap3d.py:296-311 | rotations compose by adding their angles |
| Geometry.RotateZInverse | testudo3d/tilemap3d.py:296-311 | rotating by -deg undoes rotating by deg |
| Geometry.RotateZWholeTurn | testudo3d/tilemap3d.py:119-120 | a rotation by a whole number of turns leaves every vector in place |
| Geometry.RotateZLinear | testudo3d/tilemap3d.py:300-304 | rotation distributes over vector addition and subtraction |
| Geometry.Forward | testudo3d/tilemap3d.py:318-319 | the forward displacement of dist cells is horizontal and dist cells long |
| Geometry.ForwardOpposite | testudo3d/turtle3d.py:24-25 | going forward by -i goes by the negated forward vector of i |
| Geometry.NormalizedXYToZrot | testudo3d/tilemap3d.py:58-61 | on the four axis directions the heading is a quarter turn in [-180, 90]: +Y 0, +X -90, -X 90, -Y -180 |
| Geometry.HeadingForward | testudo3d/tilemap3d.py:329-335 | going forward round(\|(x, y)\|) cells with the heading of (x, y) arrives exactly at (x, y) |
| Geometry.RoundHalfEvenNearest | testudo3d/tilemap3d.py:33 | Python `round` gives a nearest integer, the even one on a tie |
| Geometry.RoundBaseQuarter | testudo3d/tilemap3d.py:32-33 | `roundbase(x, 90)` is always a multiple of 90 |
| Geometry.RoundBaseClose | testudo3d/tilemap3d.py:32-33 | `roundbase(x, base)` is within half a step of x |
| Geometry.RoundBaseTies | testudo3d/tilemap3d.py:32-33 | halfway values go to the even multiple: 45 gives 0, 135 and 225 give 180, -45 gives 0 |
| Geometry.RotConv | modular_building_tool.py:128-133 | `rot_conv` lies in [0, 360) and is congruent to the rounded degrees modulo 360 |
| Geometry.Mid | modular_building_tool.py:96-97 | `mid` returns one of its arguments, with at least two arguments on each side of it: the median |
| Geometry.MidClamps | testudo3d/tilemap3d.py:35-36 | mid(lo, i, hi) with lo <= hi lies in [lo, hi], keeps i inside the range, and gives lo or hi outside it |
| Geometry.SelectCubeBounds | testudo3d/tilemap3d.py:440-445 | min <= max on every axis, both corners lie in the box, and each bound is one of the corners' coordinates |
| Geometry.SelectCubeBoundsSymmetric | testudo3d/tilemap3d.py:440-445 | the bounds do not depend on which corner the selection started from |
| Geometry.RegionCellsExact | testudo3d/tilemap3d.py:426-435 | the visit order of a normalised box lists every cell of the box and nothing else, each exactly once |
| Geometry.RegionCellsStartsAtMin | testudo3d/tilemap3d.py:430-433 | the visit starts at the lowest corner |
| Scene.TilesAt | testudo3d/tilemap3d.py:157-168 | the objects found at a cell are exactly the store's objects at that cell |
| Scene.Without | testudo3d/tilemap3d.py:286-287 | removing an object keeps exactly the other objects |
| Scene.Moved | testudo3d/tilemap3d.py:301-305 | only the object with that identity gets the new cell and heading; every other object is unchanged |
| Scene.Find | testudo3d/tilemap3d.py:301-302 | finds the object with the identity when the store still holds it, and reports none otherwise |
| Scene.Place | testudo3d/tilemap3d.py:265-276 | a new object is appended with the next fresh identity |
| Scene.TilesAtWithout | testudo3d/tilemap3d.py:286-287 | removing an object removes it from its cell and keeps the cell's order |
| Scene.PlaceOtherCell | testudo3d/tilemap3d.py:265-276 | creating an object changes only the contents of its own cell |
| Scene.WithoutCount | testudo3d/tilemap3d.py:286-287 | with distinct identities, removing an object lowers the count by exactly one when it is present, and by none otherwise |
| Scene.OperationsKeepValid | testudo3d/tilemap3d.py:265-305 | create, remove and move keep identities distinct and below the counter |
| Tilemap.RestoreCursor | testudo3d/tilemap3d.py:233-236 | a restored cursor keeps its cell and heading, forgets a tile that is not a group, and keeps one that is |
| Tilemap.SerializeRoundTrip | testudo3d/tilemap3d.py:127-143 | deserialize(serialize(c)) succeeds and, after init_root_obj's group check, gives c back when the tile name holds no comma and "None" is not a group |
| Tilemap.FieldsCommaFree | testudo3d/tilemap3d.py:127-134 | no serialised field holds a comma when the tile name holds none |
| Tilemap.FirstAt | testudo3d/tilemap3d.py:254-257 | `get_tile3d` gives an object at the cursor's cell, and none exactly when the cell is empty |
| Tilemap.DeleteSpecEffect | testudo3d/tilemap3d.py:278-284 | `delete(ignore)` removes exactly one object when some object other than `ignore` is at the cell, and none otherwise; it never removes `ignore` or an object of another cell |
| Tilemap.PaintSpecEffect | testudo3d/tilemap3d.py:259-276 | paint with a tile leaves the new object at the cursor with the cursor's heading; the count grows only when the cell was empty; other cells are unchanged |
| Tilemap.PaintTwiceSameCount | testudo3d/tilemap3d.py:259-263 | painting the same cell again leaves the object count unchanged |
| Tilemap.CdrawSpecEffect | testudo3d/tilemap3d.py:290-294 | `_cdraw` changes only the cursor's cell |
| Tilemap.MoveObj | testudo3d/tilemap3d.py:299-305 | a grab move never changes an object's identity, group or tileset |
| Tilemap.MoveItemsAt | testudo3d/tilemap3d.py:301-305 | the loop over grabbed items moves each grabbed object exactly once, from where it was, and no other object |
| Tilemap.RotateUndo | testudo3d/tilemap3d.py:299-305 | during a grab, rotating by deg and then by -deg about the same cursor puts every object back |
| Tilemap.MoveAllPoseMoved | testudo3d/tilemap3d.py:299-323 | any sequence of grab rotations and translations changes only the cells and headings of grabbed objects |
| Tilemap.GrabThenCancel | testudo3d/tilemap3d.py:343-364 | after any rotations and translations, `end_grab(cancel=True)` restores every grabbed object's cell and heading, giving back the scene as it was at grab time |
| Tilemap.RestoredObj | testudo3d/tilemap3d.py:361-364 | cancelling puts one object back as it was when grabbed, however it was moved |
| Tilemap.CommitKeepsGrabbed | testudo3d/tilemap3d.py:365-370 | committing a grab removes only objects that were there before and never a grabbed object, provided the grabbed objects sit in different cells |
| Tilemap.ClipAll | testudo3d/tilemap3d.py:151-155 | each clipboard item keeps the object's group and heading, with pos_offset = tile.pos - cursor.pos |
| Tilemap.GrabAll | testudo3d/tilemap3d.py:145-149 | each grab record holds the object's identity, cell and heading at grab time |
| Tilemap.PasteCursors | testudo3d/tilemap3d.py:392-395 | each item is painted through a temporary cursor at cursor.pos + pos_offset, with the item's group and heading |
| Tilemap.PaintAllEffect | testudo3d/tilemap3d.py:390-403 | painting through a list of cursors changes only their cells; when the cells differ, every cursor with a tile leaves that tile turned as the cursor was |
| Tilemap.PaintLaysTile | testudo3d/tilemap3d.py:259-263 | paint with a tile leaves that tile at the cursor, turned as the cursor is |
| Tilemap.PaintKeepsTile | testudo3d/tilemap3d.py:259-263 | paint keeps a tile that lies at another cell |
| Tilemap.CopyPasteInPlace | testudo3d/tilemap3d.py:373-403 | copying tiles from distinct cells and pasting them at the same cursor lays every copied tile where it was, turned as it was |
| Tilemap.CdrawCellsOutside | testudo3d/tilemap3d.py:410-435 | drawing over a region leaves every cell outside it unchanged |
| Tilemap.CdrawCellsPaint | testudo3d/tilemap3d.py:426-435 | drawing over a region with paint on is painting through one cursor per cell |
| Tilemap.FillRegion | testudo3d/tilemap3d.py:410-414 | `end_select` while painting leaves the cursor's tile, turned as the cursor is, in every cell of the box |
| Tilemap.ClearCells | testudo3d/tilemap3d.py:410-414 | `end_select` while deleting empties every cell of the box that held at most one object |
| Tilemap.ClearLast | testudo3d/tilemap3d.py:278-284 | deleting at a cell that holds at most one object empties it |
| Tilemap.FirstTilesDistinct | testudo3d/tilemap3d.py:416-424 | the selected tiles come from the scene and the box, one per cell, so each is grabbed once |
| TilemapEngine.SelectedGrabDistinct | testudo3d/tilemap3d.py:343-348 | grabbing a selection grabs each object once |
| TilemapEngine.Tilemap3D.constructor | testudo3d/tilemap3d.py:196-207 | a fresh editor has an empty scene, an origin cursor with no tile, all modes off and no selection, grab or clipboard |
| TilemapEngine.Tilemap3D.Tile3D | testudo3d/tilemap3d.py:254-257 | the first tile at the cursor; none exactly when the cell is empty |
| TilemapEngine.Tilemap3D.CreateTile | testudo3d/tilemap3d.py:265-276 | a new instance of the group (a plain empty for 'empty') at the cursor's cell and heading |
| TilemapEngine.Tilemap3D.Delete | testudo3d/tilemap3d.py:278-284 | the scene becomes DeleteSpec of the old scene (see DeleteSpecEffect) |
| TilemapEngine.Tilemap3D.Paint | testudo3d/tilemap3d.py:259-263 | the scene becomes PaintSpec of the old scene (see PaintSpecEffect, PaintTwiceSameCount); no tile on the cursor, no change |
| TilemapEngine.Tilemap3D.Cdraw | testudo3d/tilemap3d.py:290-294 | paint when painting, else delete when deleting, else nothing |
| TilemapEngine.Tilemap3D.MoveGrabbed | testudo3d/tilemap3d.py:301-305 | the loop over the grabbed items gives the scene and error of GrabMove: a grabbed tile gone from the scene raises ReferenceError there, after the tiles before it have moved (see GrabMoveFault); identities stay distinct |
| TilemapEngine.Tilemap3D.Rotate | testudo3d/tilemap3d.py:296-312 | the heading grows by deg; while grabbing, each grabbed tile goes to cursor + R(deg)(pos - cursor) and its heading grows by deg, a selection start turns the same way, and the cursor cell is drawn. A grabbed tile gone from the scene raises ReferenceError (GrabFault) before the cursor turns, with only the tiles before it turned; the whole outcome is Turned |
| TilemapEngine.Tilemap3D.Translate | testudo3d/tilemap3d.py:314-327 | the cursor moves by R(heading)(x, y, z); while grabbing, every grabbed tile and the selection start move by the same vector; then the cursor cell is drawn. A grabbed tile gone from the scene raises ReferenceError (GrabFault), the cursor already moved and only the tiles before it shifted; the whole outcome is TranslateStep |
| TilemapEngine.Tilemap3D.SmartMove | testudo3d/tilemap3d.py:329-341 | the outcome is SmartMoved: facing (x, y) already, repeat translates of exactly (x, y, 0); otherwise a turn to that heading, then translates only when repeat > 1. The first ReferenceError ends the move; without one the cursor faces (x, y) and has advanced by the steps taken, its tile unchanged |
| TilemapEngine.Tilemap3D.SmartWalk | testudo3d/tilemap3d.py:334-335 | the outcome is WalkOutcome of repeat translates by (x, y, 0), each carrying grabbed tiles and drawing at the cell reached; the first ReferenceError ends the loop; without one the cursor has advanced repeat cells, its heading and tile unchanged |
| TilemapEngine.Tilemap3D.DoRegion | testudo3d/tilemap3d.py:426-435 | func runs once per cell of the box, in the z, y, x order of RegionCells, and the cursor is restored afterwards |
| TilemapEngine.Tilemap3D.GetSelectedTiles | testudo3d/tilemap3d.py:416-424 | the first tile of each cell of the box, in visit order; the scene and cursor are unchanged |
| TilemapEngine.Tilemap3D.StartSelect | testudo3d/tilemap3d.py:405-408 | select is on and the selection starts at the cursor's cell |
| TilemapEngine.Tilemap3D.EndSelect | testudo3d/tilemap3d.py:410-414 | the box is drawn over cell by cell (see FillRegion, ClearCells), select ends off, and the cursor is unchanged |
| TilemapEngine.Tilemap3D.StartGrab | testudo3d/tilemap3d.py:343-354 | grabs the selected tiles or the tile at the cursor, with their cells and headings; with nothing to grab, grab and grabbed stay as they were |
| TilemapEngine.Tilemap3D.EndGrab | testudo3d/tilemap3d.py:356-371 | grab and select end off and the cursor keeps its heading and tile; the scene, cursor cell and error are GrabEnded: cancel and commit raise ReferenceError at the first grabbed tile gone from the scene, grabbed then staying set; otherwise grabbed is None (see GrabEndedClean, GrabThenCancel, CommitKeepsGrabbed) |
| TilemapEngine.Tilemap3D.CommitGrabbed | testudo3d/tilemap3d.py:365-370 | the commit loop is CommitRun: at each grabbed tile's cell the first other tile is deleted; the first grabbed tile gone from the scene raises ReferenceError with the cursor left on the cell of the tile before it; without an error the cursor is put back |
| TilemapEngine.Tilemap3D.Copy | testudo3d/tilemap3d.py:373-388 | when selecting: the selected tiles' clipboard items, or None when none was found, and the selection is drawn over and ended; otherwise the tile at the cursor's item, or None |
| TilemapEngine.Tilemap3D.Paste | testudo3d/tilemap3d.py:390-403 | each clipboard item is painted at cursor.pos + pos_offset (see CopyPasteInPlace) and the cursor is restored; no clipboard, no change |
| TilemapEngine.Tilemap3D.OnQuit | testudo3d/tilemap3d.py:239-240 | the root object keeps the serialised cursor |
| TilemapEngine.Tilemap3D.InitRootObj | testudo3d/tilemap3d.py:224-237 | a saved cursor is deserialised and then forgets a tile that is not a group; a malformed one (ValueError) leaves the cursor as it was |
| Wrappers.PyIndex | modular_building_tool.py:451-453 | Python indexing of a sequence of length n succeeds exactly for -n <= i < n, and a negative index counts from the end |
| Geometry.AdvanceScale | testudo3d/tilemap3d.py:329-341 | n forward steps of v move the cursor by n times v |
| Geometry.QuartersAdd | testudo3d/tilemap3d.py:296-311 | adding two quarter-turn headings adds their quarter counts modulo 4 |
| Geometry.RowCellsExact | testudo3d/tilemap3d.py:432-435 | the innermost loop of do_region lists each cell of its row once and nothing else |
| Geometry.PlaneCellsExact | testudo3d/tilemap3d.py:431-435 | the middle loop lists each cell of its rectangle once and nothing else |
| Geometry.BoxCellsExact | testudo3d/tilemap3d.py:430-435 | the outer loop lists each cell of the block once and nothing else |
| Scene.TilesAtAppend | testudo3d/tilemap3d.py:157-168 | an object created last joins the end of its own cell's list and no other |
| Scene.PlaceKeepsValid | testudo3d/tilemap3d.py:265-276 | creating an object keeps identities distinct and below the counter |
| Scene.MovedKeepsValid | testudo3d/tilemap3d.py:301-305 | moving an object keeps identities distinct and below the counter |
| Tilemap.RemoveEffect | testudo3d/tilemap3d.py:278-288 | removing an object of the store removes exactly that one, keeps the rest and changes no other cell |
| Tilemap.MoveItemsKeepsValid | testudo3d/tilemap3d.py:301-305 | moving the grabbed items keeps identities distinct |
| Tilemap.MoveObjUndo | testudo3d/tilemap3d.py:296-311 | rotating a grabbed object about the cursor by deg and then by -deg gives it back |
| Tilemap.PaintAllValid | testudo3d/tilemap3d.py:390-403 | painting through a list of cursors keeps identities distinct |
| Tilemap.PaintAllOutside | testudo3d/tilemap3d.py:390-403 | painting through a list of cursors leaves every cell no cursor is on as it was |
| Tilemap.PaintAllLays | testudo3d/tilemap3d.py:390-403 | painting through cursors on distinct cells leaves each cursor's tile there, turned as that cursor was |
| TilemapEngine.Tilemap3D.VisitCell | testudo3d/tilemap3d.py:433-435 | one call of func with the cursor on the cell extends the visit by that cell |
| TilemapEngine.Tilemap3D.DoRow | testudo3d/tilemap3d.py:432-435 | the innermost loop visits the row's cells, x ascending |
| TilemapEngine.Tilemap3D.DoPlane | testudo3d/tilemap3d.py:431-435 | the middle loop visits the rows of a plane, y ascending |
| TilemapEngine.Tilemap3D.DoBox | testudo3d/tilemap3d.py:426-438 | the outer loop visits the planes of the box, z ascending, so func runs on every cell of the box in that order |
| TilemapEngine.Tilemap3D.SmartTurn | testudo3d/tilemap3d.py:329-341 | smart_move not facing (x, y): the outcome is the walk (WalkOutcome) that follows the turn (Turned), with steps only when repeat > 1; a turn that raised takes no step; without an error the cursor faces (x, y) and has advanced by the steps taken |
| TilemapLegacy.Tilemap3D.VisitCell | tilemap3d/tilemap3d.py:354-363 | one call of func with the cursor on the cell extends the visit by that cell |
| TilemapLegacy.Tilemap3D.VisitRow | tilemap3d/tilemap3d.py:354-363 | the innermost loop of select_bounds_func visits the row's cells, x ascending |
| TilemapLegacy.Tilemap3D.VisitPlane | tilemap3d/tilemap3d.py:354-363 | the middle loop of select_bounds_func visits the rows of a plane, y ascending |
| Tilesets.Start | testudo3d/__init__.py:184-210 | the regrouping begins with every tileset's tiles cleared and the name index built |
| Tilesets.File | testudo3d/__init__.py:184-210 | filing one group keeps the name index consistent |
| Tilesets.FileAll | testudo3d/__init__.py:184-210 | filing the groups in order keeps the name index consistent |
| Tilesets.DropEmpty | testudo3d/__init__.py:184-210 | dropping empty tilesets never adds one |
| Tilesets.RefreshedTileset | testudo3d/__init__.py:184-210 | each tileset left by refresh_tilesets holds exactly the groups filed under its name, and keeps its rules and last tile when it existed before |
| Tilesets.RefreshedCovers | testudo3d/__init__.py:184-210 | every group filed under a name lands in the tileset of that name |
| Bitmasks.TurnPattern | testudo3d/autotiler3d.py:37-42 | turning a neighbour pattern keeps its six entries |
| AutoTiling.AutoTiler3D.constructor | testudo3d/autotiler3d.py:84-89 | a fresh auto-tiler is in auto-tiling mode with nothing touched, no rulesets and an empty scene |
| Operator.Session.constructor | testudo3d/operator.py:187-192 | a fresh session wraps the editor with mouse painting off |
| Turtle.Turtle3D.constructor | testudo3d/turtle3d.py:11-12 | a fresh turtle drives its editor with no pending select-cube redraw |
| TurtleLegacy.Turtle3D.VerticalLine | tilemap3d/turtle3d.py:119-122 | a vertical line plots every cell from start to end and leaves the cursor on the end |
| TurtleLegacy.Turtle3D.HorizontalLine | tilemap3d/turtle3d.py:123-126 | a horizontal line plots every cell from start to end and leaves the cursor on the end |
| TurtleLegacy.Turtle3D.SteepLine | tilemap3d/turtle3d.py:149-157 | the steep branch plots the Bresenham points of the line and ends on the end cell |
| TurtleLegacy.Turtle3D.ShallowLine | tilemap3d/turtle3d.py:140-148 | the shallow branch, run as evidently intended, plots the Bresenham points and ends on the end cell |
| TurtleLegacy.Turtle3D.PlotTraced | tilemap3d/turtle3d.py:81-83 | plot moves the cursor to the point and paints there, one step of the trace |
| TurtleLegacy.Octants | tilemap3d/turtle3d.py:93-100 | each pass of circle plots the eight reflections of the point |
| Text.Split | testudo3d/tilemap3d.py:138 | str.split(',') yields at least one piece and no piece holds the separator |
| Text.JoinSplit | testudo3d/tilemap3d.py:138 | splitting loses nothing: joining the pieces with the separator gives the text back |
| Text.SplitJoin | testudo3d/tilemap3d.py:128-138 | joining separator-free fields and splitting again gives the fields back |
| Text.NatText | testudo3d/tilemap3d.py:128-134 | str of a natural number is a non-empty string of decimal digits |
| Text.NatTextRoundTrip | testudo3d/tilemap3d.py:128-134 | reading back the decimal text of n gives n |
| Text.IntText | testudo3d/tilemap3d.py:128-134 | str of an integer is digits with at most a minus sign, never a comma |
| Text.FloatText | testudo3d/tilemap3d.py:128-134 | str of a whole float holds no comma, so the serialised fields stay apart |
| Text.IntTextRoundTrip | testudo3d/tilemap3d.py:128-134 | int(str(i)) == i |
| Text.WholeFloatRoundTrip | testudo3d/tilemap3d.py:128-142 | float(str(float(i))) == i and float(str(i)) == i for whole numbers |
| Rules.Get | testudo3d/autotiler3d.py:21-26 | the rule stored for the mask when there is one; otherwise the default when there is one; otherwise none |
| Rules.NonEmpty | testudo3d/autotiler3d.py:47 | keeps exactly the non-empty pieces |
| Rules.Tokens | testudo3d/autotiler3d.py:46-47 | every word of a line is non-empty and holds no space |
| Rules.BinaryValue | testudo3d/autotiler3d.py:53 | the value of a k-character binary literal is below 2^k |
| Rules.ParseBinary | testudo3d/autotiler3d.py:53 | `int(a, 2)` succeeds exactly on a binary literal |
| Rules.RotateTargets | testudo3d/autotiler3d.py:37-61 | a horizontal pattern listed in ROTATE has three target masks, one per quarter turn |
| Rules.ParseSpecErrSticks | testudo3d/autotiler3d.py:66-70 | once a line raises, the whole parse fails with that line's error |
| Rules.ParseRules | testudo3d/autotiler3d.py:36-72 | the loop over the lines succeeds exactly when the line-by-line specification does, returning its rules and default, and otherwise fails with its error |
| RulesProperties.SkippedLines | testudo3d/autotiler3d.py:46-51 | comment lines, blank lines and a mask with no tile after it leave the table unchanged |
| RulesProperties.BadFirstToken | testudo3d/autotiler3d.py:64-70 | a first word that is neither binary nor `default` raises with the 1-based line number and the line |
| RulesProperties.AuthorAt | testudo3d/autotiler3d.py:54-62 | after a mask line, each key holds the last of the writes rules[n], rules[d\|t0], rules[d\|t1], rules[d\|t2] that hit it, with rotations 0, -90, -180, -270; other keys keep their rules |
| RulesProperties.StepAuthored | testudo3d/autotiler3d.py:52-62 | a line of a binary mask and some tiles authors that mask with those tiles |
| RulesProperties.BinaryAppend | testudo3d/autotiler3d.py:53 | appending a binary digit doubles the value and adds the digit |
| RulesProperties.SingleNeighbourExpansion | testudo3d/autotiler3d.py:38-62 | `000001 a` alone gives rules for 1, 2, 4 and 8 at rotations 0, -90, -180 and -270 |
| RulesProperties.OppositePairOverride | testudo3d/autotiler3d.py:40-62 | `000101 w` alone: ROTATE[5] = [10, 5, 10] overwrites the authored rule, leaving 5 at -180 and 10 at -270 |
| RulesProperties.LaterLinesWin | testudo3d/autotiler3d.py:55-56 | line order matters: a later mask line overrides the turned copy of an earlier one, but not the other way round |
| RulesProperties.DefaultFallback | testudo3d/autotiler3d.py:66-67 | `default x` sets the fallback rule, which `get` then returns for a mask with no rule |
| Bitmasks.Neighbours | testudo3d/tilemap3d.py:13-20 | the six cells around p, one per adjacency vector, in mask-bit order |
| Bitmasks.NeighboursDistinct | testudo3d/tilemap3d.py:13-20 | the six neighbours are six different cells, none of them p |
| Bitmasks.MaskValueBits | testudo3d/autotiler3d.py:152-156 | bit i of a pattern's mask is entry i of the pattern |
| Bitmasks.MaskValueBound | testudo3d/autotiler3d.py:152-156 | a pattern of k entries has a mask below 2^k |
| Bitmasks.MaskValueSnoc | testudo3d/autotiler3d.py:154-155 | OR-ing in the next bit is adding it: the bits never overlap |
| Bitmasks.MaskTextValue | testudo3d/autotiler3d.py:53 | `int(literal, 2)` of a pattern's rule literal (entry 0 rightmost) is the pattern's mask |
| Bitmasks.Adjacent | testudo3d/autotiler3d.py:141-144 | get_occupied's adjacent list has one entry per neighbour |
| Bitmasks.OccupancyOf | testudo3d/autotiler3d.py:155 | entry i is `bool(tiles)` of neighbour list i |
| Bitmasks.GetBitmask | testudo3d/autotiler3d.py:152-156 | the loop's result is the mask of the occupancy pattern, below 2^k |
| Bitmasks.MaskNeighbours | testudo3d/autotiler3d.py:141-156 | a cell's mask is below 64, and bit i is set exactly when neighbour i holds a tile |
| Bitmasks.MaskFrame | testudo3d/autotiler3d.py:141-156 | a change that leaves the six neighbour cells alone leaves the mask alone |
| Bitmasks.MaskOutside | testudo3d/autotiler3d.py:141-156 | a cell's mask does not depend on the cell's own contents |
| Bitmasks.AdjacencyTurn | testudo3d/tilemap3d.py:13-20 | a clockwise quarter turn carries neighbour k to neighbour k + 1 (mod 4) and keeps up and down |
| Bitmasks.RotateTableTurns | testudo3d/autotiler3d.py:37-62 | ROTATE[n][i] is the horizontal mask of pattern n turned i + 1 clockwise quarter turns, so each copy is the authored rule seen from a tile turned that far |
| Bitmasks.ParsedRulesHaveTiles | testudo3d/autotiler3d.py:50-51 | every rule parse_rules writes names at least one tile |
| Bitmasks.GetHasTiles | testudo3d/autotiler3d.py:21-26 | a rule found in a ruleset whose rules all name tiles has a tile to choose from |
| AutoTiling.TaggedDelete | testudo3d/autotiler3d.py:114-118 | deleting keeps every remaining object tagged with its group's tileset |
| AutoTiling.TaggedPaint | testudo3d/tilemap3d.py:259-276 | painting creates objects tagged with their group's tileset and keeps the others' tags |
| AutoTiling.TaggedMoveItems | testudo3d/tilemap3d.py:301-305 | moving grabbed objects keeps every object's tileset tag |
| AutoTiling.TaggedCommitGrab | testudo3d/tilemap3d.py:365-370 | committing a grab keeps every object's tileset tag |
| AutoTiling.RetiledEffect | testudo3d/autotiler3d.py:232-265 | retiling changes only its own cell: the first tile there goes, and with a rule a new object of one of the rule's tiles, turned to the rule's rot, is added last; the scene stays valid and tagged |
| AutoTiling.RuleTileValid | testudo3d/autotiler3d.py:168-170 | placing a rule's tile keeps the scene valid and every object tagged |
| AutoTiling.AutoTiledEffect | testudo3d/autotiler3d.py:248-265 | auto_tiling changes no cell but the cursor's and keeps the scene valid and tagged |
| AutoTiling.DeleteAtEffect | testudo3d/autotiler3d.py:181-212 | the plain delete at each point changes only those points and keeps the scene valid and tagged |
| AutoTiling.FakeOccupancy | testudo3d/autotiler3d.py:184-194 | in the fake scene a cell is occupied exactly when it really is or is one of the points |
| AutoTiling.SimulatedMask | testudo3d/autotiler3d.py:184-202 | bit i of a point's simulated mask is set exactly when neighbour i is occupied or is itself one of the points |
| AutoTiling.RuleTileKeeps | testudo3d/autotiler3d.py:167-170 | placing a rule's tile adds one object of a rule tile at the rule's rot, keeps every object and changes no other cell |
| AutoTiling.TurnNewest | testudo3d/autotiler3d.py:169-170 | `create_tile` followed by `tile3d.rot = rule.rot` is the same as creating the tile turned to rule.rot |
| AutoTiling.KeptSpec | testudo3d/autotiler3d.py:218-230 | the cells a touched-list run retiles are the run's cells not touched before, each once |
| AutoTiling.KeptAppend | testudo3d/autotiler3d.py:218-230 | two runs one after the other: the second starts from what the first touched |
| AutoTiling.MaskAfterDelete | testudo3d/autotiler3d.py:121-123 | the plain delete at a cell leaves that cell's mask as it was, so new_auto_tile after it reads the mask of the scene before |
| AutoTiling.RulesetsOf | testudo3d/autotiler3d.py:95-108 | every readable tileset scene gets a ruleset, and every ruleset's rules name tiles |
| AutoTiling.AutoTiler3D.InitRules | testudo3d/autotiler3d.py:95-108 | succeeds exactly when every scene has readable rules, building one ruleset per scene; otherwise it stops at the first bad scene, keeping the rulesets read before it |
| AutoTiling.AutoTiler3D.PlaceRule | testudo3d/autotiler3d.py:168-170 | `choice(rule.tiles)` is one of the rule's tiles, created at the cursor and turned to the rule's rot |
| AutoTiling.AutoTiler3D.Retile | testudo3d/autotiler3d.py:241-265 | the first tile at the cursor is deleted and the rule's tile, if any, is created |
| AutoTiling.AutoTiler3D.NewAutoTile | testudo3d/autotiler3d.py:232-246 | the active tileset's rule for the cursor's mask replaces the first tile at the cursor |
| AutoTiling.AutoTiler3D.AutoTiling | testudo3d/autotiler3d.py:248-265 | an empty cell or a tile with no tileset is left alone; otherwise the rule of the tile's tileset for the cell's mask replaces it |
| AutoTiling.AutoTiler3D.OptimizedAutoTiling | testudo3d/autotiler3d.py:224-230 | during a batch, a cell already touched is skipped; otherwise it is marked touched and auto-tiled |
| AutoTiling.AutoTiler3D.AutoTileAt | testudo3d/tilemap3d.py:399-403 | auto-tiling through a temporary cursor at c puts the cursor back; the scene after is the retiling run over c when c was not yet touched, that is auto_tiling at c (RetiledRunOne), and is unchanged otherwise; only that cell may change |
| AutoTiling.AutoTiler3D.AutoTileAll | testudo3d/autotiler3d.py:146-150 | the cells in order, each skipped when touched, the cursor put back after each; the scene is the retiling run (RetiledRun) over the cells not touched before, each once, and only they change |
| AutoTiling.AutoTiler3D.RepaintAdjacent | testudo3d/autotiler3d.py:146-150 | optimized_auto_tiling runs at the six neighbours of the cursor, in order; the scene is the retiling run over the neighbours not touched before, and only they change |
| AutoTiling.AutoTiler3D.ClearPoints | testudo3d/autotiler3d.py:181-212 | the plain delete at each point, the cursor put back |
| AutoTiling.AutoTiler3D.OptimizedRepaintAdjacent | testudo3d/autotiler3d.py:218-222 | the scene is the retiling run over the points' neighbours that are not points, each once and in order; nothing else changes, and touched ends None |
| AutoTiling.AutoTiler3D.SimulateBitmasks | testudo3d/autotiler3d.py:184-202 | the fake scene is the real one with a stand-in at every point, and each point's recorded mask is read from it |
| AutoTiling.AutoTiler3D.OptimizedNewAutoTile | testudo3d/autotiler3d.py:158-170 | the rule for the recorded mask of the cursor's cell adds one of its tiles there; no rule, no change |
| AutoTiling.AutoTiler3D.PlaceAllRules | testudo3d/autotiler3d.py:205 | every point with a rule ends holding a new tile from that rule, and nothing outside the points changes |
| AutoTiling.AutoTiler3D.OptimizedPaint | testudo3d/autotiler3d.py:179-208 | the scene is OptimizedPainted: the points cleared, each given a tile of the rule for its mask in the all-points-filled scene, then the retiling run over the points' other neighbours, each once; nothing else changes (see FillMatchesPerCell) |
| AutoTiling.AutoTiler3D.OptimizedDelete | testudo3d/autotiler3d.py:210-216 | the points cleared, then the retiling run over the points' other neighbours, each once; nothing else changes |
| AutoTiling.AutoTiler3D.BatchCdraw | testudo3d/autotiler3d.py:172-177 | paint: OptimizedPainted; delete: the points cleared and the retiling run over the perimeter; neither: no change |
| AutoTiling.AutoTiler3D.Delete | testudo3d/autotiler3d.py:114-118 | the plain delete; in auto mode it is followed by the retiling run over the neighbours not touched before, and nothing else changes |
| AutoTiling.AutoTiler3D.AutoPaint | testudo3d/autotiler3d.py:120-124 | the scene is AutoPainted: the plain delete, new_auto_tile with the mask of the scene before, then the retiling run over the neighbours not touched before |
| AutoTiling.AutoTiler3D.Paint | testudo3d/autotiler3d.py:120-127 | auto mode: AutoPainted (delete, new_auto_tile, then the retiling run over the untouched neighbours); otherwise the plain paint |
| AutoTiling.AutoTiler3D.Paste | testudo3d/autotiler3d.py:129-133 | with auto-tiling off for the call, the plain paste; the mode is back on afterwards |
| AutoTiling.AutoTiler3D.EndGrab | testudo3d/autotiler3d.py:135-139 | with auto-tiling off for the call, the plain end_grab, raising where it raises; the mode is back on exactly when it raised nothing (no try/finally restores it after a ReferenceError), and every tile stays tagged |
| AutoTiling.AutoTiler3D.Cdraw | testudo3d/tilemap3d.py:290-294 | _cdraw on the auto-tiling editor: in auto mode a paint is AutoPainted at the cursor and a delete is the plain delete followed by the retiling run over the untouched neighbours, the touched list growing by the neighbours; with neither flag nothing changes; with auto-tiling off the plain cdraw |
| AutoTiling.AutoTiler3D.EndSelect | testudo3d/tilemap3d.py:410-435 | end_select in auto mode: the box's cells are drawn in region order, each retiling its neighbours before the next, so the scene is PaintedEach (painting) or ClearedEach (deleting) over RegionOf(selection start, cursor) and the touched list is TouchedAfter those cells; with auto-tiling off the plain CdrawCells; the cursor is unchanged and select ends off |
| AutoTiling.AutoTiler3D.DrawAt | testudo3d/tilemap3d.py:433-434 | one turn of do_region on the auto-tiling editor takes the draw over the first k cells to the draw over the first k + 1 |
| Tilesets.GetTileset | testudo3d/__init__.py:235-237 | None exactly for an empty list; IndexError exactly when tileset_idx designates no tileset of a non-empty list; otherwise a tileset of the list |
| Tilesets.Position | testudo3d/__init__.py:229 | the number an enum assignment by name stores is the first position of the name among the items |
| Tilesets.PreviewName | testudo3d/__init__.py:169-174 | the name of the item tile_previews designates, or "" when there is none |
| Tilesets.ItemsRefreshed | testudo3d/__init__.py:216-229 | the items become the current tileset's tiles (none for an empty list); IndexError exactly when the index designates no tileset, leaving no items; nothing else changes |
| Tilesets.LastTileSaved | testudo3d/__init__.py:255-257 | in manual mode the current tileset remembers the tile preview shown, and nothing else changes |
| Tilesets.TileRestored | testudo3d/__init__.py:262-271 | the new tileset's last tile is shown again when it is one of the items; otherwise the first item; IndexError when there is none |
| Tilesets.IndexSet | testudo3d/__init__.py:248-271 | auto mode: an index designating no tileset raises IndexError, and one whose tileset has no rules is refused, changing nothing; manual mode with no tileset raises AttributeError; on success the index is the value and only manual mode touches the tilesets |
| Tilesets.IndexByName | testudo3d/__init__.py:185 | the dictionary maps each name to the last tileset carrying it |
| Tilesets.Cleared | testudo3d/__init__.py:186-187 | every tileset keeps everything but its tiles, which are emptied |
| Tilesets.FiledUnder | testudo3d/__init__.py:188-203 | the tiles filed under a name are the groups holding a same-named object with that non-empty tileset name |
| Tilesets.DropEmptyMembers | testudo3d/__init__.py:205-207 | the corrected removal keeps exactly the tilesets with tiles |
| Tilesets.Settled | testudo3d/__init__.py:208-209 | setting the clamped index is never refused, and outside manual mode keeps the tilesets |
| Tilesets.Refresh | testudo3d/__init__.py:184-210 | outside manual mode the tilesets become the regrouped list; the clamped index is never refused |
| Tilesets.Invoked | testudo3d/__init__.py:332-350 | Refresh refreshes; Up and Down move one place only when the index is valid and a neighbour exists, and otherwise change nothing |
| Tilesets.FileAllFiled | testudo3d/__init__.py:186-203 | filing the groups in order keeps every tile filed under its name, the old tilesets' rules and last tiles, and new tilesets fresh |
| Tilesets.DropEmptyDistinct | testudo3d/__init__.py:185-207 | dropping the empty tilesets leaves distinct names when no two non-empty tilesets share one |
| Tilesets.RefreshedSpec | testudo3d/__init__.py:184-207 | with the removal corrected, every tileset left has tiles, exactly the groups filed under its name in scene order; no two share a name; every filed group is in the tileset of its name; a known tileset keeps its rules and last tile, a new one has none |
| Tilesets.RemoveEmptyAsWritten | testudo3d/__init__.py:205-207 | the removal loop as written keeps every tileset with tiles and adds none |
| Tilesets.RemovalSkipsAsWritten | testudo3d/__init__.py:205-207 | two tilesets left without tiles: the loop as written removes the first and skips the second, which the corrected removal drops |
| Tilesets.StoppedSettles | testudo3d/__init__.py:208-209 | outside the modal operator a refresh always ends well: the index is clamped into the list (0 for an empty list) and the items are that tileset's tiles |
| Tilesets.AutoSettleEmptyRaises | testudo3d/__init__.py:208-250 | in auto mode a refresh that leaves no tileset raises IndexError |
| Tilesets.AutoSettleKeepsIndex | testudo3d/__init__.py:208-253 | in auto mode, a clamped index designating a tileset without rules leaves the index where it was, and the items are refreshed against it |
| Tilesets.ManualSwitchBack | testudo3d/__init__.py:248-271 | in manual mode, switching to another tileset with tiles and back shows the tile that was shown before |
| Tilesets.DownThenUp | testudo3d/__init__.py:332-350 | outside the modal operator, Down then Up returns to the same tileset when there is one below |
| Tilesets.Properties.constructor | testudo3d/__init__.py:165 | no tileset, index 0, no item, tile preview -1 |
| Tilesets.Properties.RefreshEnumItems | testudo3d/__init__.py:216-229 | the new state and outcome are those of ItemsRefreshed |
| Tilesets.Properties.SetTilesetIdx | testudo3d/__init__.py:248-271 | the new state and outcome are those of IndexSet |
| Tilesets.Properties.RefreshTilesets | testudo3d/__init__.py:184-210 | the new state and outcome are those of Refresh |
| Tilesets.Properties.FileGroups | testudo3d/__init__.py:185-203 | the tiles are cleared, then the groups are filed in order |
| Tilesets.Properties.ClearTiles | testudo3d/__init__.py:186-187 | every tileset's tiles are emptied |
| Tilesets.Properties.FileGroup | testudo3d/__init__.py:189-203 | one group filed: a new tileset for a name not seen yet, then the group's name among its tiles |
| Tilesets.Properties.RemoveEmpty | testudo3d/__init__.py:205-207 | the tilesets become DropEmpty of the old ones: the corrected removal (see Findings) |
| Tilesets.Properties.Invoke | testudo3d/__init__.py:332-350 | the new state and outcome are those of Invoked |
| Tilesets.Properties.Navigate | testudo3d/__init__.py:336-347 | the Up and Down branch: the new state and outcome are those of Navigated |
| RoomGen.Lower | testudo3d/__init__.py:668 | name.lower() leaves no capital letter and changes only capitals, keeping the length |
| RoomGen.TwoDigits | testudo3d/__init__.py:696-697 | format(index, '02d') is two decimal digits that read back as the index |
| RoomGen.BinaryText | testudo3d/__init__.py:702-703 | format(rule, '06b') is six binary digits that read back as the rule mask |
| RoomGen.RuleMask | testudo3d/__init__.py:672-702 | the mask of room k is (j << 4) \| m: j = k div 6 in the vertical bits and masks[k mod 6] in the horizontal ones, below 64 |
| RoomGen.MakeTileset | testudo3d/__init__.py:652-719 | make_tileset warns exactly when one of the three groups is missing, and otherwise makes the 24 rooms and the 24 rule lines naming them |
| RoomGen.MakeRoom | testudo3d/__init__.py:676-704 | one turn of the inner loop builds room index and its rule line |
| RoomGen.WallsAt | testudo3d/__init__.py:678-683 | a wall turned i * -90 degrees is placed exactly when bit i of the mask is clear |
| RoomGen.RoomMatchesMask | testudo3d/__init__.py:672-702 | every generated room mirrors its rule mask: a wall on side i exactly when bit i is clear, a ceiling exactly when +Z is clear, a floor exactly when -Z is clear, nothing else |
| RoomGen.RoomWallsMatch | testudo3d/__init__.py:678-702 | the walls of room k stand exactly on the sides whose mask bit is clear |
| RoomGen.RoomCapsMatch | testudo3d/__init__.py:673-702 | room k has a ceiling exactly when mask bit 4 is clear and a floor exactly when bit 5 is clear |
| RoomGen.ConcatTerminated | testudo3d/__init__.py:703-716 | writing each line with its newline gives the bodies joined by newlines, ending in an empty line |
| RoomGen.ParseBodies | testudo3d/__init__.py:702-703 | parse_rules reads the generated lines without error and authors every line's mask |
| RoomGen.AuthorValues | testudo3d/autotiler3d.py:54-66 | reading one generated line keeps the other rules and writes only rules naming its room, for masks with the same vertical bits |
| RoomGen.AuthorAllValues | testudo3d/autotiler3d.py:46-66 | every rule read from the generated lines names one room made for the same vertical neighbours |
| RoomGen.CoveringLineReaches | testudo3d/autotiler3d.py:37-66 | every one of the 64 masks is a generated line's mask or one of its ROTATE copies |
| RoomGen.ParseText | testudo3d/autotiler3d.py:36-75 | parse_rules on the written text gives the table of all 24 lines, the trailing empty line changing nothing |
| RoomGen.GeneratedRulesParse | testudo3d/__init__.py:652-719 | for a name without spaces the text parses without error, every one of the 64 masks gets a rule, and each rule names a generated room made for the same neighbours above and below |
| RoomGen.SpacedNameSplits | testudo3d/__init__.py:696-703 | as written, the name "a b" yields the line `000000 a b00`, whose rule names the tiles "a" and "b00", while rename_objects calls the room "a_b00" |
| RoomGen.TilePrefix | testudo3d/__init__.py:614-618 | the name the rooms carry after setup_tiles: lowered, no space, same length |
| RoomGen.CorrectedRulesParse | testudo3d/__init__.py:652-719 | writing the renamed prefix makes the text valid for every name without a newline, each rule naming a room by the name rename_objects leaves it |
| RoomGen.RenamedRoom | testudo3d/__init__.py:614-618 | rename_objects turns room k's name into the renamed prefix followed by its index |
| Setup.Underscored | testudo3d/__init__.py:616-618 | name.replace(' ', '_') keeps the length, turns every space into an underscore and leaves no space |
| Setup.UnderscoredKeeps | testudo3d/__init__.py:616-618 | a name without spaces is not renamed, so renaming twice is renaming once |
| Setup.RenameObjects | testudo3d/__init__.py:614-621 | rename_objects gives every object the underscored name and changes nothing else |
| Setup.CeilSqrt | testudo3d/__init__.py:598 | ceil(sqrt(n)) is the side of the smallest square with room for n objects |
| Setup.LayoutInGrid | testudo3d/__init__.py:597-612 | layout_in_grid puts object k on its grid spot, rows of ceil(sqrt(n)) border apart, and changes only x and y |
| Setup.GridSpotsDistinct | testudo3d/__init__.py:597-612 | with a non-zero border no two objects share a spot |
| Setup.GridSpotCentred | testudo3d/__init__.py:602-606 | every spot lies within the offset of the origin, so the grid is centred |
| Setup.GetChildren | testudo3d/__init__.py:80-87 | get_children extends the accumulator with every object below obj, children before grandchildren |
| Setup.BelowIsDescendants | testudo3d/__init__.py:80-87 | get_children lists exactly the descendants of obj |
| Setup.AlignedOnGrid | testudo3d/__init__.py:554-562 | an aligned tile sits on a whole cell at most half a cell away, is turned a whole number of quarter turns at most 45 degrees away, and aligning again changes nothing |
| Setup.AlignTiles | testudo3d/__init__.py:554-563 | AlignTiles snaps every child of the root in place |
| Operator.Clamp | testudo3d/operator.py:75-76 | the result lies in [b, c] when b <= c, equals a when a is already in range, and is b or c on each side |
| Operator.Session.HandleQuit | testudo3d/operator.py:309-317 | a grab is cancelled (GrabEnded with cancel); otherwise a selection is dropped without drawing; otherwise quit (QuitError) is signalled, exactly when neither grab nor select was on |
| Operator.Session.HandlePaint | testudo3d/operator.py:319-328 | a grab is committed; else the whole selection is painted and paint is left off; else, if not yet painting, paint is turned on and the cursor cell is drawn once |
| Operator.Session.BrushDraw | testudo3d/operator.py:328 | one contextual draw at the cursor |
| Operator.Session.HandlePaintEnd | testudo3d/operator.py:330-332 | the paint stroke is over |
| Operator.Session.HandleDeleteEnd | testudo3d/operator.py:343-345 | the delete stroke is over |
| Operator.Session.HandleDelete | testudo3d/operator.py:334-341 | while selecting, deletes over the region and leaves delete off; while grabbing or already deleting, nothing changes; otherwise starts deleting once at the cursor |
| Operator.Session.HandleGrab | testudo3d/operator.py:347-352 | starts a grab (grab on exactly when something was grabbed) or commits the one under way |
| Operator.Session.HandleSelect | testudo3d/operator.py:370-377 | ignored during a grab; the first press starts a selection at the cursor; the second draws over the region and ends the selection |
| Operator.Session.HandleMousepaint | testudo3d/operator.py:408-410 | passes through, changing nothing, exactly when mouse painting is off; otherwise a paint press |
| Operator.Session.HandleToggleMousepaint | testudo3d/operator.py:403-406 | the flag flips; the stroke ends if mouse painting was on |
| Operator.Session.HandleIncLayer | testudo3d/operator.py:422-424 | the user layer stays within 0..19 and goes up by one when below 19 |
| Operator.Session.HandleDecLayer | testudo3d/operator.py:426-428 | the user layer stays within 0..19 and goes down by one when above 0 |
| Operator.FirstInvalid | testudo3d/operator.py:555-570 | the first tileset whose ruleset names a tile it lacks; none exactly when every tileset is complete |
| Operator.CollectMissing | testudo3d/operator.py:559-566 | appends each candidate the tileset lacks that is not yet listed: no duplicates, the earlier list is a prefix |
| Operator.MissingTiles | testudo3d/operator.py:558-566 | lists, each once, exactly the names used by the rules or the default that the tileset lacks |
| Operator.ValidateRules | testudo3d/operator.py:555-570 | fails exactly when some tileset has a missing name; then it reports each missing name of the first such tileset once, and nothing else |
| Operator.Reports | testudo3d/operator.py:567-568 | one warning per missing name, with no duplicates |
| Operator.FirstInvalidAt | testudo3d/operator.py:555-570 | a tileset with missing names after only complete ones is the one validation stops at |
| Events.Calls | testudo3d/events.py:16-19 | an unknown event has no listeners; when no event keeps an empty list, an event has listeners exactly when it is registered |
| Events.Subscribed | testudo3d/events.py:6-9 | the event becomes a key, its list gains func at the end, every other event keeps its list, and no list is left empty |
| Events.RemoveFirst | testudo3d/events.py:12 | `list.remove` drops exactly the first occurrence: the part before it and the part after it are kept |
| Events.RemoveFirstCount | testudo3d/events.py:12 | `list.remove` takes exactly one occurrence of func out of the list's multiset |
| Events.Unsubscribed | testudo3d/events.py:11-14 | KeyError for an unknown event, ValueError for a function not subscribed to it; a success leaves no empty list |
| Events.UnsubscribedEffect | testudo3d/events.py:11-14 | a successful unsubscribe touches only that event, removes one occurrence of func, and deletes the key exactly when func was its only listener |
| Events.SubscribeUnsubscribe | testudo3d/events.py:6-14 | subscribe then unsubscribe of a function not yet on the event restores the registry exactly |
| Events.UnsubscribeOneOccurrence | testudo3d/events.py:11-14 | a function subscribed twice or more stays subscribed with one occurrence fewer |
| Events.Registry.constructor | testudo3d/events.py:4 | the registry starts empty |
| Events.Registry.Subscribe | testudo3d/events.py:6-9 | the new registry is Subscribed of the old one |
| Events.Registry.Unsubscribe | testudo3d/events.py:11-14 | the new registry is Unsubscribed of the old one; on KeyError or ValueError the registry is unchanged and the error is returned |
| Events.Registry.SendEvent | testudo3d/events.py:16-19 | each listener of the event is called once, in subscription order; an unknown event calls nothing |
| LSystem.Image | test/test_script.py:196 | a symbol without a rule stands for itself |
| LSystem.PassAppend | test/test_script.py:194-197 | one pass distributes over concatenation |
| LSystem.PassSymbol | test/test_script.py:194-197 | one pass puts each symbol's image `rules.get(c, c)` after the images of the symbols before it |
| LSystem.PassLength | test/test_script.py:194-197 | after one pass the length is the sum of the images' lengths |
| LSystem.PassNoRules | test/test_script.py:194-197 | with no rules, one pass is the identity |
| LSystem.PassesNoRules | test/test_script.py:192-198 | with no rules, `replace` is the identity for every n |
| LSystem.PassesAdd | test/test_script.py:192-198 | n passes after m passes are m + n passes |
| LSystem.Replace | test/test_script.py:192-198 | the nested loop returns n passes of the string; n = 0 returns it unchanged |
| LSystem.ArgsAfterDashes | test/test_script.py:217-221 | no "--" gives no arguments; otherwise the result is exactly what follows the first "--" |
| LSystem.ArgsAfterFirstDashes | test/test_script.py:217-221 | whatever precedes the first "--" is ignored |
| LSystem.TestOption | test/test_script.py:222-225 | no arguments is a usage error (the option is required); when the result is a name, the last `-t`/`--test` value wins |
| LSystem.ParseArgs | test/test_script.py:214-236 | a test is selected only if it is a non-empty name in `tests` and a "--" is present; no "--" is a usage error |
| LSystem.ParseArgsSelects | test/test_script.py:214-236 | `-- -t name` selects the test exactly when the name is a test, and otherwise selects none |
| Turtle.Turtle3D.Goto | testudo3d/turtle3d.py:14-16 | the cursor lands where the host's `_goto` puts it, nothing else about the cursor changes, and the selection cube is flagged for redrawing |
| Turtle.Turtle3D.Forward | testudo3d/turtle3d.py:18-22 | the cursor goes to the (x, y) of cursor.pos + R(rot)(0, i, 0) |
| Turtle.Turtle3D.Backward | testudo3d/turtle3d.py:24-25 | `backward(i)` is `forward(-i)`: it aims at cursor.pos minus the forward vector of i |
| Turtle.Turtle3D.Left | testudo3d/turtle3d.py:27-28 | `left(r)` is the editor's rotate by -r: heading minus r, grabbed tiles turned about the cursor by -r |
| Turtle.Turtle3D.Right | testudo3d/turtle3d.py:30-31 | `right(r)` is the editor's rotate by r |
| Turtle.Turtle3D.SetHeading | testudo3d/turtle3d.py:33-34 | only the heading changes; nothing is drawn |
| Turtle.Turtle3D.SetX | testudo3d/turtle3d.py:36-38 | only the cursor's x changes, and the selection cube is flagged for redrawing |
| Turtle.Turtle3D.SetY | testudo3d/turtle3d.py:40-42 | only the cursor's y changes, and the selection cube is flagged for redrawing |
| Turtle.Turtle3D.Dot | testudo3d/turtle3d.py:50-51 | the editor's paint at the cursor |
| Turtle.Turtle3D.Down | testudo3d/turtle3d.py:53-54 | the pen (paint flag) is down |
| Turtle.Turtle3D.Up | testudo3d/turtle3d.py:56-57 | the pen is up |
| Turtle.Turtle3D.Home | testudo3d/turtle3d.py:65-67 | goto(0, 0), then heading 0 |
| Turtle.Turtle3D.Fill | testudo3d/turtle3d.py:88-92 | with a started selection the whole box is drawn with paint on, the paint and delete flags end as they were and select ends off; with none ever started end_select raises AttributeError before drawing, the scene, cursor and select flag unchanged and paint left on |
| Turtle.Turtle3D.Clear | testudo3d/turtle3d.py:94-98 | with a started selection the whole box is drawn with delete on, the delete and paint flags end as they were and select ends off; with none ever started AttributeError, nothing drawn and delete left on |
| Turtle.AutoTurtle3D.constructor | testudo3d/turtle3d.py:108-111 | the turtle drives the given auto-tiling editor |
| Turtle.AutoTurtle3D.Fill | testudo3d/turtle3d.py:88-92 | under AutoTurtle3D: with a started selection and auto mode on, the box is PaintedEach cell by cell (each paint retiling its neighbours), the touched list is TouchedAfter the box, the paint flag ends as it was and select off; with auto-tiling off the plain fill; with no selection ever started AttributeError, nothing drawn and the pen left down |
| Turtle.AutoTurtle3D.Clear | testudo3d/turtle3d.py:94-98 | under AutoTurtle3D: with a started selection and auto mode on, the box is ClearedEach cell by cell when the pen is up and PaintedEach when it is down (_cdraw tests paint first), the delete flag ends as it was and select off; with auto-tiling off the plain clear; with no selection ever started AttributeError, nothing drawn and delete left on |
| TilemapLegacy.DeleteAtEffect | tilemap3d/tilemap3d.py:235-240 | delete(ignore) removes exactly the first tile at the cursor unless it is the ignored one, and nothing otherwise; no other cell changes and the ignored tile is never removed |
| TilemapLegacy.IgnoredFirstBlocks | tilemap3d/tilemap3d.py:235-240 | with two tiles in a cell, the first ignored, this delete removes nothing where the later editor removes the second |
| TilemapLegacy.PaintTileEffect | tilemap3d/tilemap3d.py:218-233 | paint_tile leaves the new tile last in the store at the cursor with the cursor's heading, replaces the cell's first tile (the count grows only on an empty cell) and changes no other cell |
| TilemapLegacy.DrawEffect | tilemap3d/tilemap3d.py:246-252 | cdraw keeps identities distinct and changes only the cursor's cell |
| TilemapLegacy.DrawCellsOutside | tilemap3d/tilemap3d.py:338-363 | drawing over a list of cells leaves every other cell as it was |
| TilemapLegacy.FillCells | tilemap3d/tilemap3d.py:338-342 | painting over distinct cells leaves the active tile, turned to the cursor's heading, in each |
| TilemapLegacy.ClearCells | tilemap3d/tilemap3d.py:338-342 | deleting over distinct cells empties each cell that held at most one tile |
| TilemapLegacy.DeleteAtEmpties | tilemap3d/tilemap3d.py:235-240 | deleting at a cell that holds at most one tile empties it and changes no other cell |
| TilemapLegacy.PasteCells | tilemap3d/tilemap3d.py:320-326 | each item is pasted at the cursor plus its offset turned by the cursor's heading |
| TilemapLegacy.ClipTiles | tilemap3d/tilemap3d.py:140-144 | one clipboard item per tile, keeping its group, offset from the cursor and heading relative to the cursor's |
| TilemapLegacy.CopyPasteInPlace | tilemap3d/tilemap3d.py:303-330 | pasting right after copying the tile under the cursor, whatever the heading, replaces it with a tile of the same group and heading, keeping the count |
| TilemapLegacy.PasteAllEffect | tilemap3d/tilemap3d.py:320-330 | pasting changes no cell but those the turned offsets reach, and creates one tile per item |
| TilemapLegacy.GrabTurnCancel | tilemap3d/tilemap3d.py:254-271 | grab, any turns and translations, then cancel: every tile is back where it was |
| TilemapLegacy.Tilemap3D.constructor | tilemap3d/tilemap3d.py:124-181 | an empty scene, a cursor at the origin heading 0, no active tile, all modes off |
| TilemapLegacy.Tilemap3D.Tile3D | tilemap3d/tilemap3d.py:208-211 | a tile of the scene at the cursor's cell; none exactly when the cell is empty |
| TilemapLegacy.Tilemap3D.Delete | tilemap3d/tilemap3d.py:235-240 | the scene becomes DeleteAt of the old one (see DeleteAtEffect) |
| TilemapLegacy.Tilemap3D.PaintTileHere | tilemap3d/tilemap3d.py:218-222 | the scene becomes PaintTile of the old one (see PaintTileEffect) |
| TilemapLegacy.Tilemap3D.Paint | tilemap3d/tilemap3d.py:213-216 | paint_tile with the active tile; no active tile, no change |
| TilemapLegacy.Tilemap3D.Cdraw | tilemap3d/tilemap3d.py:246-252 | paint when painting, else delete when deleting, else nothing |
| TilemapLegacy.Tilemap3D.Rotate | tilemap3d/tilemap3d.py:254-260 | the heading grows by deg; then a grabbed tile gone from the scene raises ReferenceError (GrabFault) with the scene unchanged; otherwise the grabbed tile turns where it stands and the cursor cell is drawn |
| TilemapLegacy.Tilemap3D.Translate | tilemap3d/tilemap3d.py:262-271 | the scene, cursor cell and error are one TranslateRun step: the cursor moves by (x, y, z) turned to its heading, a grabbed tile with it, then the cursor cell is drawn; a grabbed tile gone from the scene raises ReferenceError after the cursor has moved |
| TilemapLegacy.Tilemap3D.SmartMove | tilemap3d/tilemap3d.py:273-281 | the heading ends facing (x, y). Facing it already: WalkRun of repeat steps of exactly (x, y, 0), each carrying the grabbed tile and drawing, ended by the first ReferenceError, the cursor advanced repeat cells when none is raised; otherwise a turn only, the cursor staying put, raising as rotate does |
| TilemapLegacy.Tilemap3D.Walk | tilemap3d/tilemap3d.py:277-279 | repeat forward steps (WalkRun), the first ReferenceError ending the loop; without one the cursor has advanced exactly repeat cells of (x, y, 0) |
| TilemapLegacy.Tilemap3D.StartGrab | tilemap3d/tilemap3d.py:283-291 | grabs the tile at the cursor with its cell and heading; on an empty cell nothing changes |
| TilemapLegacy.Tilemap3D.EndGrab | tilemap3d/tilemap3d.py:293-301 | grab ends off. Cancel puts the grabbed tile back as it was, or raises ReferenceError with the scene unchanged when the tile has left the scene; commit deletes the first tile at the cursor unless it is the grabbed one |
| TilemapLegacy.Tilemap3D.SelectBoundsFunc | tilemap3d/tilemap3d.py:354-363 | func runs at each cell of the box, z then y then x ascending, and the cursor is put back |
| TilemapLegacy.Tilemap3D.GetSelectedTiles | tilemap3d/tilemap3d.py:344-352 | the first tile of each cell of the box, in visit order; the scene and cursor are unchanged |
| TilemapLegacy.Tilemap3D.StartSelect | tilemap3d/tilemap3d.py:332-336 | select is on and the selection starts at the cursor's cell |
| TilemapLegacy.Tilemap3D.EndSelect | tilemap3d/tilemap3d.py:338-342 | the box is drawn over (fill when painting, clear when deleting), select ends off, the cursor is unchanged |
| TilemapLegacy.Tilemap3D.Copy | tilemap3d/tilemap3d.py:303-318 | selecting: the box's tiles as clipboard items (None when there are none), then end_select; otherwise the tile at the cursor, or None |
| TilemapLegacy.Tilemap3D.CopySelected | tilemap3d/tilemap3d.py:304-309 | the box's tiles as clipboard items, or None, and the box drawn over |
| TilemapLegacy.Tilemap3D.CopyAtCursor | tilemap3d/tilemap3d.py:310-315 | the tile at the cursor as the only clipboard item, or None |
| TilemapLegacy.Tilemap3D.Paste | tilemap3d/tilemap3d.py:320-330 | each item painted at the turned offset with its heading added to the cursor's, the cursor put back; no clipboard, no change |
| TilemapLegacy.Tilemap3D.PasteItems | tilemap3d/tilemap3d.py:323-328 | the loop over the items leaves the scene PasteAll of the old one |
| TurtleLegacy.Ground | tilemap3d/turtle3d.py:35-36 | each plotted point becomes its cell on the ground layer (z = 0) |
| TurtleLegacy.Run | tilemap3d/turtle3d.py:120-126 | `range(a, b + step, step)` lists every value from a to b inclusive, one step apart |
| TurtleLegacy.StepsMajor | tilemap3d/turtle3d.py:150-157 | each pass of the loop moves the major coordinate by exactly one step |
| TurtleLegacy.StepsMinor | tilemap3d/turtle3d.py:150-157 | each pass moves the minor coordinate by 0 or one step |
| TurtleLegacy.LineVertical | tilemap3d/turtle3d.py:119-122 | a vertical line plots every y from y1 to y2 inclusive at x1; a zero-length line plots its one cell |
| TurtleLegacy.LineHorizontal | tilemap3d/turtle3d.py:123-126 | a horizontal line plots every x from x1 to x2 inclusive at y1 |
| TurtleLegacy.StepsLast | tilemap3d/turtle3d.py:150-157 | the last point's minor coordinate has moved once per non-negative error term |
| TurtleLegacy.MinorMovesAccount | tilemap3d/turtle3d.py:150-157 | every minor move takes the major delta from the error term, and every pass adds the minor delta |
| TurtleLegacy.FinalFracBounds | tilemap3d/turtle3d.py:150-157 | with 0 < minor delta <= major delta, the error term stays in [minor - major, minor) |
| TurtleLegacy.StepsMinorTotal | tilemap3d/turtle3d.py:150-157 | a run of major-delta passes from the initial error term moves the minor coordinate exactly minor-delta times |
| TurtleLegacy.LineSteep | tilemap3d/turtle3d.py:127-157 | a steep line (0 < \|dx\| <= \|dy\|) plots exactly \|dy\| cells, the start excluded: y steps toward y2 each time, x at most one step, and the last cell is (x2, y2) |
| TurtleLegacy.LineShallow | tilemap3d/turtle3d.py:140-148 | the shallow line as evidently intended (\|dx\| > \|dy\| > 0) plots exactly \|dx\| cells: x steps toward x2 each time, y at most one step, ending on (x2, y2) |
| TurtleLegacy.StepsLine | tilemap3d/turtle3d.py:150-157 | a whole run of the loop ends on the far end of both coordinates |
| TurtleLegacy.ShallowLineLost | tilemap3d/turtle3d.py:140-148 | as written (`while x1 != x1`), a shallow line plots nothing, while the intended one plots \|dx\| cells |
| TurtleLegacy.ShallowLineExample | tilemap3d/turtle3d.py:140-148 | line(0, 0, 3, 1) as written plots nothing; intended are (1, 1), (2, 1), (3, 1) |
| TurtleLegacy.UnitStepsReach | tilemap3d/turtle3d.py:151 | a unit step reaches a target d steps away after exactly d passes, so `while y1 != y2` stops there |
| TurtleLegacy.CircleNext | tilemap3d/turtle3d.py:102-107 | one pass: y steps up by one, and x stays or steps down by one |
| TurtleLegacy.CircleArcsShape | tilemap3d/turtle3d.py:92-107 | the k-th pass plots around (x', y + k) with y + k <= x' <= x: the loop runs at most x - y + 1 times |
| TurtleLegacy.CircleBounds | tilemap3d/turtle3d.py:85-107 | circle(radius) makes at most radius + 1 passes, each for a pair 0 <= y <= x <= radius, the first being (radius, 0) |
| TurtleLegacy.OctantsSymmetric | tilemap3d/turtle3d.py:93-100 | the eight plots of a pass are symmetric about both axes through the centre and about its diagonal, all at the same Chebyshev distance |
| TurtleLegacy.CirclePointsNear | tilemap3d/turtle3d.py:85-107 | every point a circle plots lies within radius of the centre on each axis |
| TurtleLegacy.LineDistinct | tilemap3d/turtle3d.py:110-157 | a line plots no cell twice |
| TurtleLegacy.LinePaintsAll | tilemap3d/turtle3d.py:110-157 | with an active tile, drawing a line leaves that tile, at the cursor's heading, on every cell it plots |
| TurtleLegacy.FillBox | tilemap3d/turtle3d.py:159-163 | fill leaves the active tile, at the cursor's heading, in every cell of the box |
| TurtleLegacy.ClearBox | tilemap3d/turtle3d.py:165-168 | clear empties every cell of the box that held at most one tile |
| TurtleLegacy.SteepLineEnds | tilemap3d/turtle3d.py:149-157 | the steep branch plots the steep loop's points, ending on (x2, y2) |
| TurtleLegacy.ShallowLineEnds | tilemap3d/turtle3d.py:140-148 | the intended shallow branch plots the loop's points with x and y exchanged, ending on (x2, y2) |
| TurtleLegacy.Turtle3D.constructor | tilemap3d/turtle3d.py:9-11 | an empty scene, cursor at the origin with heading 0, pen up |
| TurtleLegacy.Turtle3D.Goto | tilemap3d/turtle3d.py:35-36 | the cursor moves to (x, y) on the ground layer, whatever its height was |
| TurtleLegacy.Turtle3D.SetX | tilemap3d/turtle3d.py:38-39 | the cursor's x becomes x, its y and z stay; the selection start it may share with the cursor is not moved here (see Left out) |
| TurtleLegacy.Turtle3D.SetY | tilemap3d/turtle3d.py:41-42 | the cursor's y becomes y, its x and z stay; the shared selection start is not moved here (see Left out) |
| TurtleLegacy.Turtle3D.SetHeading | tilemap3d/turtle3d.py:32-33 | the heading is set without drawing |
| TurtleLegacy.Turtle3D.Down | tilemap3d/turtle3d.py:53-54 | the pen (paint flag) is down |
| TurtleLegacy.Turtle3D.Up | tilemap3d/turtle3d.py:56-57 | the pen is up |
| TurtleLegacy.Turtle3D.Home | tilemap3d/turtle3d.py:65-67 | back to (0, 0, 0) facing heading 0 |
| TurtleLegacy.Turtle3D.Forward | tilemap3d/turtle3d.py:13-21 | the target is i cells ahead along the heading; with the pen down the line to it is drawn; the turtle ends at the target on the ground layer |
| TurtleLegacy.Turtle3D.Backward | tilemap3d/turtle3d.py:23-24 | forward(-i): lands i cells behind the cursor, drawing the line with the pen down |
| TurtleLegacy.Turtle3D.Left | tilemap3d/turtle3d.py:26-27 | rotate by -r: heading minus r, a grabbed tile turned, the cursor cell drawn |
| TurtleLegacy.Turtle3D.Right | tilemap3d/turtle3d.py:29-30 | rotate by r |
| TurtleLegacy.Turtle3D.Dot | tilemap3d/turtle3d.py:50-51 | the active tile is painted at the cursor |
| TurtleLegacy.Turtle3D.Plot | tilemap3d/turtle3d.py:81-83 | go to (x, y) on the ground layer and paint there |
| TurtleLegacy.Turtle3D.Line | tilemap3d/turtle3d.py:110-157 | the points of the line are painted in order and the turtle ends on (x2, y2); the shallow branch is the evidently intended one (see Findings) |
| TurtleLegacy.Turtle3D.VerticalLoop | tilemap3d/turtle3d.py:119-122 | the range loop paints every y from y1 to y2 at x |
| TurtleLegacy.Turtle3D.HorizontalLoop | tilemap3d/turtle3d.py:123-126 | the range loop paints every x from x1 to x2 at y |
| TurtleLegacy.Turtle3D.SteepLoop | tilemap3d/turtle3d.py:150-157 | the steep loop paints its \|dy\| points and ends on (x2, y2) |
| TurtleLegacy.Turtle3D.ShallowLoop | tilemap3d/turtle3d.py:140-148 | the intended shallow loop paints its \|dx\| points and ends on (x2, y2) |
| TurtleLegacy.Turtle3D.PlotOctants | tilemap3d/turtle3d.py:93-100 | the eight plots of one pass, in the source's order |
| TurtleLegacy.Turtle3D.Circle | tilemap3d/turtle3d.py:85-108 | the midpoint circle around the cursor's (x, y), eight reflections per pass, then back to the centre on the ground layer |
| TurtleLegacy.Turtle3D.Fill | tilemap3d/turtle3d.py:159-163 | with a started selection the box is drawn with the pen down and the pen put back as it was; with none ever started select_cube_bounds raises AttributeError before drawing, the scene, cursor and select flag unchanged and the pen left down |
| TurtleLegacy.Turtle3D.Clear | tilemap3d/turtle3d.py:165-168 | with a started selection the box is drawn in delete mode, which is then left off; with none ever started AttributeError, nothing drawn and delete mode left on |
| ModularBuilding.At | modular_building_tool.py:501-502 | get_modules_at: exactly the pieces standing in the cell, in scene order, never more than the scene holds |
| ModularBuilding.Without | modular_building_tool.py:189-197 | deleting an object removes exactly the pieces with its identity and keeps all others |
| ModularBuilding.Outside | modular_building_tool.py:692-693 | clear leaves exactly the pieces that are not in the cursor's cell |
| ModularBuilding.Find | modular_building_tool.py:501-502 | the piece with a given identity is found when the scene holds one, and reported absent only when none has it |
| ModularBuilding.Reset | modular_building_tool.py:785-787 | resetting a grabbed piece moves and turns that piece alone, position by position |
| ModularBuilding.Place | modular_building_tool.py:178-187 | create_cube followed by the data swap appends one new piece with a fresh identity and keeps identities distinct |
| ModularBuilding.Remove | modular_building_tool.py:189-192 | delete_object removes exactly the pieces with that identity and keeps identities distinct |
| ModularBuilding.Cleared | modular_building_tool.py:692-693 | clear empties the cell and keeps every piece elsewhere |
| ModularBuilding.WithoutCount | modular_building_tool.py:189-197 | with distinct identities, deleting one object removes one piece when present and nothing when absent |
| ModularBuilding.Lookup | modular_building_tool.py:657-658 | module_groups[name] finds the group with that name, and fails only when no group has it |
| ModularBuilding.ActiveModule | modular_building_tool.py:271-273 | active_module raises IndexError exactly when active is past the end, never for a well-formed group, and returns a module of the group |
| ModularBuilding.Added | modular_building_tool.py:275-277 | add_module appends the module, resets active to 0 and changes nothing else |
| ModularBuilding.AddedActivatesFirst | modular_building_tool.py:275-277 | after add_module the active module is the group's first, the new one when the group was empty |
| ModularBuilding.Cycled | modular_building_tool.py:1013-1022 | handle_cycle_module does nothing when the group has at most i modules, raises only on an empty group cycled backwards, and otherwise keeps active a valid index |
| ModularBuilding.CycleForwardBack | modular_building_tool.py:1013-1022 | Tab then Ctrl+Tab returns to the module that was active |
| ModularBuilding.CycleBackOnEmptyRaises | modular_building_tool.py:1013-1022 | cycling backwards on a group without modules moves active from -1 to -2 and raises ZeroDivisionError |
| ModularBuilding.Dither | modular_building_tool.py:462-467 | dither picks the group's module at (x + y + z) modulo the module count, and nothing on an empty group |
| ModularBuilding.DitherSteps | modular_building_tool.py:462-467 | one step along x moves the dither choice to the next module, wrapping at the end |
| ModularBuilding.RoomModule | modular_building_tool.py:451-467 | room_get_module raises IndexError for an active index outside the three modes, returns nothing in weighted mode, and otherwise a module of the group asked for |
| ModularBuilding.FreshRoomDithers | modular_building_tool.py:406-408 | a freshly initialised room group (active -1) uses the last mode, dither |
| ModularBuilding.FirstReplaced | modular_building_tool.py:753-764 | the piece on_paint_at deletes is the first in the cell it replaces, and none is chosen only when none qualifies |
| ModularBuilding.OnPaintAt | modular_building_tool.py:747-766 | on_paint_at deletes only pieces m replaces in its cell, at most one, and changes nothing when none qualifies |
| ModularBuilding.RemoveOnly | modular_building_tool.py:189-192 | with distinct identities, deleting an object removes no other piece |
| ModularBuilding.Created | modular_building_tool.py:794-805 | create_obj leaves the new piece in the scene with a fresh identity and keeps identities distinct |
| ModularBuilding.CreatedAsWritten | modular_building_tool.py:744-766 | create_obj as written, comparing the raw cursor heading, also leaves the new piece in the scene |
| ModularBuilding.CreatedKeepsNoStacking | modular_building_tool.py:747-766 | with headings normalised, painting never leaves two pieces of one group (of one heading for thin groups) in a cell |
| ModularBuilding.StackedWallAsWritten | modular_building_tool.py:744-761 | painting a wall at -90 over one stored at 270 stacks a second wall as written, and replaces it once both headings are normalised |
| ModularBuilding.StackHeadings | modular_building_tool.py:128-133 | rot_conv maps -90 to 270, so the thin-group test fails on the raw heading and holds on the normalised one |
| ModularBuilding.RoundWhole | modular_building_tool.py:128-133 | rot_conv of a whole number of degrees is that number modulo 360 |
| ModularBuilding.OnPaintAtLocal | modular_building_tool.py:747-766 | on_paint_at changes no cell but its own |
| ModularBuilding.CreatedLocal | modular_building_tool.py:794-805 | create_obj changes no cell but the cursor's |
| ModularBuilding.CreatedAppends | modular_building_tool.py:794-805 | when nothing in the cell is replaced, the new piece joins the end of the cell's list |
| ModularBuilding.FirstDeleted | modular_building_tool.py:371-382 | the piece Painter.delete takes is the first match of its group (and heading, for thin groups), none only when none matches |
| ModularBuilding.DeletedAt | modular_building_tool.py:371-382 | Painter.delete removes only pieces of the cell, and nothing when no piece matches |
| ModularBuilding.DeletedRemovesFirstMatch | modular_building_tool.py:371-382 | when a piece matches, Painter.delete removes exactly the first match and every other piece stays |
| ModularBuilding.PaintThenDelete | modular_building_tool.py:366-382 | painting a module into a cell without its group, then deleting with the same group and heading, gives the scene back |
| ModularBuilding.WallHeading | modular_building_tool.py:119-122 | the wall headings room_paint uses are quarter turns |
| ModularBuilding.WallFacesNeighbour | modular_building_tool.py:81-88 | each wall faces its neighbour: one step along its heading reaches the neighbour's cell |
| ModularBuilding.WallHeadingsApart | modular_building_tool.py:128-133 | the four wall headings are four different directions after rot_conv, so walls of one room never replace each other |
| ModularBuilding.Occupancy | modular_building_tool.py:695-697 | adjacent_occupied answers for the six neighbours |
| ModularBuilding.WallsPainted | modular_building_tool.py:423-430 | the wall loop keeps identities distinct and leaves a quarter-turn heading |
| ModularBuilding.Layer | modular_building_tool.py:431-440 | the floor and ceiling steps keep the heading and distinct identities |
| ModularBuilding.RoomPainted | modular_building_tool.py:418-440 | room_paint puts the cursor heading back unless it raised, and keeps identities distinct |
| ModularBuilding.Repainted | modular_building_tool.py:442-449 | the repaint loop puts the heading back unless it raised, and keeps identities distinct |
| ModularBuilding.RepaintedAdjacent | modular_building_tool.py:442-449 | repaint_adjacent puts the heading back unless it raised, and keeps identities distinct |
| ModularBuilding.RoomPaint | modular_building_tool.py:410-412 | RoomPainter.paint puts the heading back unless it raised, and keeps identities distinct |
| ModularBuilding.RoomDelete | modular_building_tool.py:414-416 | RoomPainter.delete puts the heading back unless it raised, and keeps identities distinct |
| ModularBuilding.WallPlanFaces | modular_building_tool.py:423-430 | room_paint plans a wall with heading h exactly when h faces a free horizontal neighbour |
| ModularBuilding.ChosenBelongs | modular_building_tool.py:451-467 | a module room_get_module hands out belongs to the group asked for |
| ModularBuilding.WallAdded | modular_building_tool.py:423-430 | a new wall with a heading not yet in the cell is appended and replaces nothing |
| ModularBuilding.LayerCreates | modular_building_tool.py:431-440 | a floor or ceiling of a group not yet in the cell is appended there and no other cell changes |
| ModularBuilding.ClearedCell | modular_building_tool.py:418-420 | clearing the cell empties it without changing what its neighbours hold or any other cell |
| ModularBuilding.RoomCellContents | modular_building_tool.py:418-440 | when every lookup succeeds, room_paint leaves the cell holding exactly the planned walls, floor and ceiling, restores the heading and changes no other cell |
| ModularBuilding.RoomLayers | modular_building_tool.py:423-440 | on a cleared cell the wall, floor and ceiling steps build exactly the room plan and touch no other cell |
| ModularBuilding.PlainPaint | modular_building_tool.py:366-369 | Painter.paint keeps the heading and distinct identities, and raises only for an ill-formed group |
| BuildingEditor.Initial | modular_building_tool.py:514-579 | a freshly constructed tool has an empty scene, the room group first, and no modules except the room group's placeholders |
| BuildingEditor.InitialLookups | modular_building_tool.py:573-579 | init_module_groups puts room first and the thin wall group second, all well formed |
| BuildingEditor.AddLibraryMesh | modular_building_tool.py:582-597 | one turn of init_modules adds the mesh to the group named by its type, creating a new plain group at the end only for an unknown type |
| BuildingEditor.AddLibraryMeshKeepsValid | modular_building_tool.py:582-597 | init_modules keeps the tool consistent: every mesh lands in the group of its own type |
| BuildingEditor.LookupAppend | modular_building_tool.py:657-658 | a group added at the end of the ordered dictionary is found by its name only when no earlier group has it |
| BuildingEditor.ActiveGroup | modular_building_tool.py:670-673 | get_active_group is None exactly when there are no groups, and the group at active_group when that index is in range |
| BuildingEditor.SetActiveGroup | modular_building_tool.py:667-668 | set_active_group clamps i into the groups' index range and changes nothing else |
| BuildingEditor.SetActiveGroupName | modular_building_tool.py:646-649 | set_active_group_name activates the first group with that name and ignores an unknown name |
| BuildingEditor.CycleModuleGroup | modular_building_tool.py:1006-1011 | Tab-cycling groups moves to the next group and wraps round, and does nothing with at most one group |
| BuildingEditor.CycleModuleGroupSteps | modular_building_tool.py:1006-1011 | k cycles move the active group k places modulo the number of groups |
| BuildingEditor.CycleModuleGroupReturns | modular_building_tool.py:1006-1011 | cycling as many times as there are groups returns to the starting group |
| BuildingEditor.GetActiveModule | modular_building_tool.py:675-678 | get_active_module is None without groups and otherwise a module of some group |
| BuildingEditor.GetActiveModuleAgrees | modular_building_tool.py:271-273 | get_active_module agrees with the group's active_module once a module is active, but with active -1 it takes the last module where active_module has none |
| BuildingEditor.NameScan | modular_building_tool.py:651-655 | the loop of set_active_module_name activates each module called name in turn and raises on a placeholder |
| BuildingEditor.SetActiveModuleName | modular_building_tool.py:651-655 | set_active_module_name changes only the active group's active index and keeps the tool consistent |
| BuildingEditor.SetActiveModuleNameSelects | modular_building_tool.py:651-655 | after set_active_module_name without an exception the active module is called name, when one is |
| BuildingEditor.CycleModule | modular_building_tool.py:1013-1022 | handle_cycle_module changes only the active group's active index, as Cycled says, and keeps the tool consistent |
| BuildingEditor.Stroke | modular_building_tool.py:699-707 | the painter's stroke keeps a quarter-turn heading and distinct identities, puts the heading back unless it raised, and does nothing with no flag set |
| BuildingEditor.Cdraw | modular_building_tool.py:699-707 | cdraw changes only the scene and the heading, keeps the tool consistent, and does nothing with no flag set |
| BuildingEditor.Paint | modular_building_tool.py:686-690 | paint is cdraw with the paint flag set, and leaves the flag clear when nothing raised |
| BuildingEditor.Delete | modular_building_tool.py:680-684 | delete is cdraw with the delete flag set, and leaves the flag clear when nothing raised |
| BuildingEditor.Clear | modular_building_tool.py:692-693 | clear removes exactly the modules at the cursor, whatever their group |
| BuildingEditor.PaintPlacesActiveModule | modular_building_tool.py:686-690 | painting a plain group's active module where nothing collides appends exactly that module, with a fresh identity, to the cursor's cell |
| BuildingEditor.PaintedPlain | modular_building_tool.py:686-690 | paint on a plain group with an active module is create_obj of that module at the cursor |
| BuildingEditor.PaintThenDeleteRestores | modular_building_tool.py:680-690 | deleting right after painting a plain group's module on a free spot gives back the scene |
| BuildingEditor.DeletedPlain | modular_building_tool.py:680-684 | delete on a plain group is Painter.delete at the cursor with the cursor heading |
| BuildingEditor.Moved | modular_building_tool.py:713-726 | the grabbed loop of rotate and translate moves and turns exactly the grabbed modules, and raises only for one no longer in the scene |
| BuildingEditor.Rotated | modular_building_tool.py:709-715 | rotate turns the cursor heading by d and leaves the cursor position, groups and grab alone |
| BuildingEditor.Translated | modular_building_tool.py:717-731 | translate moves the cursor by v turned to the cursor heading and keeps the tool consistent |
| BuildingEditor.TranslatedMoves | modular_building_tool.py:717-727 | with no stroke under way translate only moves the cursor and the grabbed modules |
| BuildingEditor.Walked | modular_building_tool.py:738-740 | the repeat loop of smart_move moves the cursor n steps of d along its heading when nothing raised |
| BuildingEditor.SmartMoved | modular_building_tool.py:734-742 | smart_move keeps the tool consistent |
| BuildingEditor.SmartMoveArrives | modular_building_tool.py:734-742 | smart_move either only turns to face (x, y), or, already facing it, moves repeat times by (x, y) |
| BuildingEditor.StartGrab | modular_building_tool.py:768-774 | start_grab grabs exactly the modules at the cursor, remembers the cursor and appends one heading per grabbed module |
| BuildingEditor.Restored | modular_building_tool.py:780-787 | the cancel loop puts each grabbed module back at the remembered position with its own heading, and raises when headings run out or a module is gone |
| BuildingEditor.Committed | modular_building_tool.py:788-791 | the commit loop only deletes modules and keeps identities distinct |
| BuildingEditor.EndGrab | modular_building_tool.py:776-792 | end_grab drops the grab flag, empties grabbed and original_rots, and on commit only deletes modules |
| BuildingEditor.MoveThenRestore | modular_building_tool.py:717-792 | moving the modules grabbed at a cell and cancelling gives back the scene |
| BuildingEditor.CancelGivesBack | modular_building_tool.py:776-792 | end_grab(cancel) leaves the scene its cancel loop gives back |
| BuildingEditor.GrabMoveCancelRestores | modular_building_tool.py:717-792 | grabbing, moving and cancelling leaves the scene exactly as it was |
| BuildingEditor.Copy | modular_building_tool.py:807-813 | copy puts the meshes and headings of the modules at the cursor, in scene order, into the clipboard and changes nothing else |
| BuildingEditor.PastedAsWritten | modular_building_tool.py:794-820 | paste as written raises exactly when headings run out and otherwise adds one identity per clipboard entry |
| BuildingEditor.Pasted | modular_building_tool.py:815-820 | paste with copied headings raises exactly when headings run out and otherwise adds one identity per clipboard entry |
| BuildingEditor.Paste | modular_building_tool.py:815-820 | paste changes only the scene, never raises on a consistent tool, and adds one identity per clipboard entry |
| BuildingEditor.PastedReplacesNothing | modular_building_tool.py:815-820 | pasting entries that collide with nothing appends them after the scene, in clipboard order, each with its copied heading |
| BuildingEditor.CopyPasteReproduces | modular_building_tool.py:807-820 | copying a cell and pasting on an empty one reproduces the same meshes with the same headings in the same order there |
| BuildingEditor.CopyPasteAppends | modular_building_tool.py:807-820 | copying a cell and pasting on an empty one appends the copied modules to the scene |
| BuildingEditor.PasteLosesWallAsWritten | modular_building_tool.py:794-820 | as written, pasting two walls facing 0 and 90 keeps only the second; with copied headings both stay |
| BuildingEditor.StartSelect | modular_building_tool.py:822-826 | start_select sets the select flag and starts the selection at the cursor |
| BuildingEditor.DrawCells | modular_building_tool.py:832-836 | the cell loop of end_select changes only the scene, heading and cursor, and keeps the tool consistent |
| BuildingEditor.EndSelect | modular_building_tool.py:828-857 | end_select raises without a started selection and otherwise changes only the scene and clears the select flag |
| BuildingEditor.Fill | modular_building_tool.py:859-863 | fill is end_select with the paint flag, cleared afterwards |
| BuildingEditor.SelectOneCell | modular_building_tool.py:822-840 | a selection started and ended on the cursor's cell is one cdraw there |
| BuildingEditor.EndSelectClears | modular_building_tool.py:828-857 | end_select with the clear flag removes exactly the modules in the box and keeps the rest |
| BuildingEditor.DrawClears | modular_building_tool.py:832-836 | the end_select loop with the clear flag removes exactly the modules on the visited cells |
| BuildingEditor.CdrawClears | modular_building_tool.py:692-707 | cdraw with only the clear flag clears the cursor's cell |
| BuildingEditor.CdrawPaints | modular_building_tool.py:699-707 | cdraw with the paint flag on a plain group places its active module at the cursor when nothing there is of its group |
| BuildingEditor.DrawPaints | modular_building_tool.py:832-836 | the paint loop over distinct free cells appends the active module facing the cursor on each cell, in order |
| BuildingEditor.FillPaintsRegion | modular_building_tool.py:828-863 | fill over a box free of the group adds the active module on every cell of the box in z, y, x order, after the modules already there, and clears the flags |
| BuildingEditor.FillAppends | modular_building_tool.py:828-863 | fill over such a box appends the strewn modules to the scene |
| Tilemap.FirstMissing | testudo3d/tilemap3d.py:301-305 | the first grabbed item whose object has left the scene, the one where the loop's read of tile3d.pos raises; every item before it is still there |
| Tilemap.FirstMissingAt | testudo3d/tilemap3d.py:301-305 | the loop stops at item k exactly when k's object is gone and every earlier one is there |
| Tilemap.GrabFaultMeans | testudo3d/tilemap3d.py:301-305 | a grab loop raises, and then ReferenceError, exactly when some grabbed object has left the scene |
| Tilemap.GrabMoveFault | testudo3d/tilemap3d.py:301-305 | the grab loop raises exactly when GrabFault says; without an error it moves every grabbed object; either way the store keeps every identity, in place, and the id counter |
| Tilemap.GrabMoveStopped | testudo3d/tilemap3d.py:301-305 | a loop that reaches a gone object at item k leaves the items before k moved and raises ReferenceError |
| Tilemap.GrabMoveNext | testudo3d/tilemap3d.py:301-305 | past a present item k the loop has moved item k's object as MoveObj says |
| Tilemap.GrabMoveDone | testudo3d/tilemap3d.py:301-305 | with no grabbed object gone the loop moves them all and raises nothing |
| Tilemap.FindMoveItems | testudo3d/tilemap3d.py:301-305 | moving grabbed objects never adds or removes an identity |
| Tilemap.MoveItemsIds | testudo3d/tilemap3d.py:301-305 | moving grabbed objects keeps the store's length and each index's identity |
| Tilemap.CommitGrabPrefix | testudo3d/tilemap3d.py:365-370 | the commit loop after any number of items keeps identities distinct, removes only objects that were there, and keeps every grabbed object |
| Tilemap.CommitRunNext | testudo3d/tilemap3d.py:365-370 | the commit loop at item k: a gone object raises ReferenceError with the scene and cursor as they were; a present one moves the cursor to its cell and deletes the first other tile there |
| Tilemap.CommitRunStops | testudo3d/tilemap3d.py:365-370 | once an item raises, the later items change nothing |
| Tilemap.CommitRunClean | testudo3d/tilemap3d.py:365-370 | the commit loop keeps identities distinct, and one that raises nothing leaves the scene CommitGrab says |
| Tilemap.CommitRunNoFault | testudo3d/tilemap3d.py:365-370 | with every grabbed object present and no two in one cell, the commit loop never raises |
| TilemapEngine.GrabEndedClean | testudo3d/tilemap3d.py:356-371 | with every grabbed tile present and no two in one cell, end_grab raises nothing and puts the cursor back; cancel restores the grabbed tiles and commit keeps every grabbed tile |
| TilemapEngine.WalkedNext | testudo3d/tilemap3d.py:334-335 | one more step of the walk shifts the grabbed tiles by (x, y, 0) and then draws at the next cell |
| TilemapEngine.TranslateStep | testudo3d/tilemap3d.py:314-327 | translate always moves the cursor by v, whether or not the grab loop raises, and a carried selection start stays set |
| TilemapEngine.WalkOutcome | testudo3d/tilemap3d.py:334-335 | the loop of translates never changes the cursor's heading or tile, and keeps a carried selection start |
| TilemapEngine.WalkOutcomeNext | testudo3d/tilemap3d.py:334-335 | one more iteration of a loop that has not raised is one more translate |
| TilemapEngine.WalkStep | testudo3d/tilemap3d.py:334-335 | one translate of the loop extends the walk by one step, and when it raises it is where the whole walk ends |
| TilemapEngine.WalkOutcomeStops | testudo3d/tilemap3d.py:334-335 | once a translate raises the exception leaves the loop: later iterations change nothing |
| TilemapEngine.WalkOutcomeHalted | testudo3d/tilemap3d.py:334-335 | a walk whose first n - 1 steps raised takes no n-th step |
| TilemapEngine.WalkOutcomeClean | testudo3d/tilemap3d.py:334-335 | a walk that raises nothing is Walked: n steps shifting the grabbed tiles and drawing at each cell, the cursor n cells further; without grabbed tiles no walk raises |
| TilemapEngine.Turned | testudo3d/tilemap3d.py:296-312 | rotate's outcome: the cursor turned by deg when nothing raised, the cursor unchanged when the grab loop raised; a carried selection start stays set |
| TilemapEngine.Tilemap3D.MoveGrab | testudo3d/tilemap3d.py:299-309 | the grab branch of rotate and translate: raises exactly when GrabFault says; without an error the grabbed tiles move and a carried selection start goes to its new cell; with one only the tiles before the gone one move |
| TilemapEngine.Tilemap3D.TurnTo | testudo3d/tilemap3d.py:336-337 | smart_move's rotate(rot - cursor.rot): the outcome is Turned, and the cursor faces (x, y) exactly when nothing raised |
| TilemapEngine.Tilemap3D.StepForward | testudo3d/tilemap3d.py:334-335 | one translate(0, round(mag), 0) of the loop moves the cursor by exactly (x, y, 0) and extends the walk by one step, ending it when it raises |
| TilemapLegacy.WalkRunClean | tilemap3d/tilemap3d.py:277-279 | a walk that raises nothing is Stepped, the cursor n cells further; without a grabbed tile no walk raises |
| TilemapLegacy.WalkRunStops | tilemap3d/tilemap3d.py:277-279 | once a translate raises, later iterations change nothing |
| TilemapLegacy.Tilemap3D.Repeat | tilemap3d/tilemap3d.py:278-279 | the for loop of translate(0, round(mag), 0) leaves the scene, cursor cell and error of WalkRun |
| AutoTiling.TaggedMoved | testudo3d/tilemap3d.py:301-305 | moving one object keeps every object's tileset tag |
| AutoTiling.TaggedCommitRun | testudo3d/tilemap3d.py:365-370 | the commit loop, raising or not, keeps every object's tileset tag |
| AutoTiling.TaggedGrabEnded | testudo3d/autotiler3d.py:135-139 | end_grab, raising or not, keeps every object tagged with its group's tileset |
| AutoTiling.TaggedPaintAll | testudo3d/tilemap3d.py:390-403 | pasting keeps every object tagged |
| AutoTiling.TaggedCdrawCells | testudo3d/tilemap3d.py:410-414 | drawing over a box keeps every object tagged |
| AutoTiling.RetiledRunOne | testudo3d/autotiler3d.py:224-230 | a retiling run over one cell is exactly auto_tiling at that cell |
| AutoTiling.RetiledRunAppend | testudo3d/autotiler3d.py:146-150 | two retiling runs one after the other are one run over both lists of cells |
| AutoTiling.AutoTileLoopStep | testudo3d/autotiler3d.py:146-150 | one more cell of do_points extends the run, the touched list and the retiled log by that cell's own run |
| AutoTiling.AutoTiler3D.AutoTileNext | testudo3d/autotiler3d.py:146-150 | one turn of do_points takes the run over the first k cells to the run over the first k + 1 |
| AutoTiling.RetiledRunEffect | testudo3d/autotiler3d.py:248-265 | a retiling run keeps the scene valid and tagged and changes no cell outside its list |
| AutoTiling.RetiledRunEmpty | testudo3d/autotiler3d.py:248-252 | on an empty scene a retiling run changes nothing |
| AutoTiling.SameOutsideRun | testudo3d/autotiler3d.py:224-230 | the cells a touched-list run retiles lie among the cells it ran over |
| AutoTiling.CompleteGet | testudo3d/autotiler3d.py:21-26 | a ruleset with a default, or with a rule for all 64 masks, has a rule for every cell's mask |
| AutoTiling.AutoTiledOccupancy | testudo3d/autotiler3d.py:248-265 | with complete rulesets auto_tiling never empties or fills a cell |
| AutoTiling.RetiledRunOccupancy | testudo3d/autotiler3d.py:146-150 | with complete rulesets a whole retiling run leaves every cell's occupancy as it was |
| AutoTiling.RetiledOccupancy | testudo3d/autotiler3d.py:241-246 | retiling with a rule leaves its cell filled and every other cell's occupancy as it was |
| AutoTiling.AutoPaintedOccupancy | testudo3d/autotiler3d.py:120-124 | with complete rulesets paint in auto mode fills its cell and changes no other cell's occupancy |
| AutoTiling.PaintedEachOccupancy | testudo3d/tilemap3d.py:410-414 | with complete rulesets painting each cell of a region in turn fills exactly those cells in addition to what was occupied |
| AutoTiling.OccupiedSnoc | testudo3d/tilemap3d.py:410-414 | cells filled by a run over a list and then one more cell are the cells of the whole list |
| AutoTiling.PaintedEachLast | testudo3d/tilemap3d.py:430-434 | a per-cell fill of a non-empty list passes through a scene that is the fill of all but the last cell and from which the last cell is AutoPainted |
| AutoTiling.PaintedLastOccupancy | testudo3d/tilemap3d.py:430-434 | with complete rulesets, painting the last cell after the others have been filled leaves exactly the whole list filled in addition to what was occupied |
| AutoTiling.PaintedEachSnoc | testudo3d/tilemap3d.py:430-434 | per-cell auto painting of a list followed by one more AutoPainted cell is per-cell painting of the longer list |
| AutoTiling.ClearedEachSnoc | testudo3d/tilemap3d.py:430-434 | per-cell auto deletion of a list followed by one more delete and retiling run is per-cell deletion of the longer list |
| AutoTiling.TouchedAfterSnoc | testudo3d/tilemap3d.py:430-434 | one more cell adds its neighbours to the touched list |
| AutoTiling.DrawnStep | testudo3d/tilemap3d.py:430-434 | the state after do_region(_cdraw) over the first k cells, followed by one auto-tiling draw at the next cell, is the state after k + 1 cells: CdrawCells with auto-tiling off, PaintedEach or ClearedEach with the touched list TouchedAfter in auto mode, the scene untouched with neither flag |
| AutoTiling.OptimizedOccupancy | testudo3d/autotiler3d.py:179-208 | with complete rulesets optimized_paint fills exactly the points in addition to what was occupied |
| AutoTiling.FillMatchesPerCell | testudo3d/autotiler3d.py:172-208 | with complete rulesets the batch fill and per-cell painting of the same region leave the same cells occupied, so every cell reads the same mask |
| AutoTiling.IncompleteFillDiffers | testudo3d/autotiler3d.py:158-170 | without a complete ruleset the two fills differ: on an empty scene, the batch over two adjacent cells tiles the first where per-cell painting leaves it empty |
| AutoTiling.PairRulesetIncomplete | testudo3d/autotiler3d.py:21-26 | the ruleset of that example has no default and no rule for the empty neighbourhood |
| AutoTiling.PairEachEmpty | testudo3d/autotiler3d.py:120-124 | per-cell painting of the example pair on the empty scene leaves the scene empty |
| AutoTiling.PairBatchFilled | testudo3d/autotiler3d.py:197-205 | the batch fill of the example pair tiles both cells |
| AutoTiling.RulePlacedAtEffect | testudo3d/autotiler3d.py:158-170 | one optimized_new_auto_tile keeps the scene valid and tagged, changes only its point, fills it when there is a rule and empties nothing |
| AutoTiling.RulesPlacedEffect | testudo3d/autotiler3d.py:205 | the rule pass keeps the scene valid and tagged, changes only the points, every point has a recorded mask, and every point whose mask has a rule is filled |
| AutoTiling.RulesPlacedTiles | testudo3d/autotiler3d.py:205 | every point of the rule pass whose recorded mask has a rule holds a tile from that rule, created during the pass |
| AutoTiling.RuleTilesKept | testudo3d/autotiler3d.py:205-208 | the rule tiles at the points survive the perimeter retiling, which leaves the points alone |
| AutoTiling.MaskMapOf | testudo3d/autotiler3d.py:197-202 | get_bitmasks records exactly each point's mask |
| AutoTiling.AutoTiler3D.FilledRulePass | testudo3d/autotiler3d.py:186-205 | the masks recorded are those of the cleared scene with every point filled, one per point, and the rule pass gives each point its rule |
| AutoTiling.OptimizedPaintSteps | testudo3d/autotiler3d.py:179-208 | the three passes (clearing, the rule pass on the filled scene's masks, the perimeter retiling) make OptimizedPainted, leave each point with its rule's tile and change only the points and their neighbours |
| AutoTiling.OptimizedPaintFrame | testudo3d/autotiler3d.py:179-208 | optimized_paint changes only the points and their neighbours |
| TurtleLegacy.CirclePoints | tilemap3d/turtle3d.py:92-100 | a run of passes of circle plots eight points per pass |
| RoomGen.ParseTrailingEmpty | testudo3d/autotiler3d.py:47-50 | a trailing empty line (the text's final newline) changes nothing in the parse |

## Left out

- Blender UI and drawing (panels, lists, GL text, select-cube edges, keymaps, register/unregister): host glue with no state the engine reads back.
- Key and mouse dispatch tables and the mouse raycast onto the cursor plane: input plumbing over floating-point geometry.
- Host scene calls (object, group and instance creation, library linking, MakeTilesReal, create_groups, XML export, selection tracking): behind the abstract store `Scene.World`.
- The ModularBuildingMode key handlers other than the two cycle handlers, and the quaternion SmartMove operator of modular_building_tool.py: key dispatch and floating-point rotation.
- Metadata JSON loading, init_weights, init_custom_rooms and init_custom_groups of modular_building_tool.py, and readlines of autotiler3d.py: file I/O. Custom room modes (add_custom_room, custom_room) are therefore never installed, and the room group keeps its three built-in modes.
- ModularBuilding.RoomModule: weighted_random returns None, because without metadata there are no weights. weighted_choice's random.uniform over float weights is not modelled.
- The stale KD-tree finder (finder.invalidate and reset) is modelled as an always-current exact-cell lookup. The fake objects of optimized_paint are a store with stand-ins (`AutoTiling.WithFakes`).
- Scene.TilesAt: the layer filter of Tile3DFinder (testudo3d/tilemap3d.py:159) is not modelled; every object in the store counts, whatever its layer.
- Scene.TilesAt: objects at a cell come in store (creation) order, not the order of the KD-tree's range search.
- Rules.ParseBinary: int(a, 2) is modelled for plain non-empty strings of 0 and 1. Signs, underscores, surrounding whitespace and a "0b" prefix, which Python also accepts, read as errors here.
- Tilemap.Deserialize: float() of a field is modelled for whole numbers only; a fractional coordinate or heading is rejected rather than read.
- Positions are whole cells and headings are whole degrees in quarter turns. Blender stores rotations in radians, and radians/degrees round trips are not modelled. After smart_move the source's heading is a float (normalized_XY_to_Zrot returns degrees(), testudo3d/tilemap3d.py:58-61), so on_quit saves it as "-90.0" where `Tilemap.Serialize` writes "-90"; the round trip reads both back the same.
- Turtle.Turtle3D.Forward: distances are integers and turns are quarter turns; the float rounding of the rotated vector is not modelled.
- TurtleLegacy.Turtle3D.Forward: the same integer distances and quarter turns as Turtle.Turtle3D.Forward.
- TurtleLegacy.Turtle3D.Line: takes integer end points, so the floor() calls at tilemap3d/turtle3d.py:111-114 are the identity.
- Turtle.Turtle3D.SetX: select_start_pos is a separate value here. In the source, start_select stores the cursor's own Vector (testudo3d/tilemap3d.py:408), so setx and sety (testudo3d/turtle3d.py:37,41) also move the selection start. That aliasing is not modelled.
- Turtle.Turtle3D.SetY: the same aliasing as Turtle.Turtle3D.SetX.
- TurtleLegacy.Turtle3D.SetX: select_start_pos is a separate value here. In the source, start_select stores the cursor's own Vector (tilemap3d/tilemap3d.py:335) and every later move assigns a new Vector, so until the first goto, translate or line after start_select, setx (tilemap3d/turtle3d.py:38-39) also moves the selection start. Modelling that would take an aliasing flag through every method that moves the cursor, so it is not modelled.
- TurtleLegacy.Turtle3D.SetY: the same aliasing as TurtleLegacy.Turtle3D.SetX, through sety (tilemap3d/turtle3d.py:41-42).
- Operator.Session.BrushDraw: brush_draw is not part of this model and is taken as one cdraw at the cursor; brush_size is ignored.
- RoomGen.MakeTileset: Blender's renaming of a clashing object name with a ".001" suffix and its 63-character name limit are not modelled.
- RoomGen.Lower: str.lower is modelled on ASCII letters only.
- LSystem.ParseArgs: argparse is modelled for the forms `-t name` and `--test name`. The forms `--test=name` and `-tname` read as a missing test name.
- ModularBuilding and BuildingEditor are modelled on values: each operation maps one editor value to the next. Update in place and aliasing of Blender objects (a grabbed object that is also in the clipboard) are not captured.
- Loops that call the host (do_points, end_select, paste) are modelled as recursive functions over the cells or items, in the source's order.
- AutoTiling.AutoTiler3D.InitRules: `bpy.data.texts[scene.rules]` raising KeyError for a rules text name that no text has is not modelled; a scene names its rules text or has none.
- ModularBuilding.RoomModule: a module group name missing from module_groups, where the source raises KeyError, returns no module here. The built-in groups are always present, so the case cannot arise.
- TilemapLegacy.PasteAll: a clipboard item whose group is None (a copied object that belongs to no group) still places an object here, where the source's paint_tile fails in group_instance_add(group=None). That host failure is not modelled.
- TilemapLegacy.Tilemap3D.EndGrab: the commit passes the grabbed object to delete only as the object to ignore, without reading its fields, so it is modelled as raising nothing.
- The send_event('set_tile3d') and send_event('refresh_tilesets') notifications (testudo3d/__init__.py:175, 209) are not modelled: they only notify listeners registered outside this model.
- Region clear: optimized_delete is not proved to leave the same scene as delete at each cell in turn. Only the region fill has that lemma (`AutoTiling.FillMatchesPerCell`); the clear's run of deletions followed by one ring of retiles was not carried through the same occupancy argument. Each of `AutoTiling.AutoTiler3D.OptimizedDelete`'s steps is still stated (`RetiledRun` over the ring).
- Operator.Session: the handlers are modelled over the manual editor (`TilemapEngine.Tilemap3D`, ManualModeOperator) only. Under AutoModeOperator (testudo3d/operator.py:532) the same handlers draw through the auto-tiling editor. Its end_select is `AutoTiling.AutoTiler3D.EndSelect` (PaintedEach or ClearedEach over the region). Its rotate, translate, smart_move and brush_draw each draw one cell through `AutoTiling.AutoTiler3D.Cdraw`. No session over `AutoTiler3D` composes the handlers with those two methods.
- Turtle.Turtle3D: the moves are modelled over the manual editor only. Under AutoTurtle3D (testudo3d/turtle3d.py:108), fill and clear are `Turtle.AutoTurtle3D.Fill` and `Clear`. Its left and right end in rotate's _cdraw (testudo3d/tilemap3d.py:312), which there is `AutoTiling.AutoTiler3D.Cdraw`. No auto-tiling turtle composes them with it. goto draws only through the host's _goto, which is not part of this model.
- AutoTiling.AutoTiler3D: rotate, translate and smart_move are inherited from Tilemap3D and are modelled only on `TilemapEngine.Tilemap3D`. Each ends in _cdraw (testudo3d/tilemap3d.py:312, 326), which on the auto-tiling editor is `AutoTiling.AutoTiler3D.Cdraw`. Splitting the engine's Rotate and Translate at that call would be needed to compose them, and that is not done.
- Concurrency, the test runner that spawns Blender, and the one-shot scripts under scripts/: outside the engine.

## Findings

| source | as written | input that shows it | evidently intended | confidence | as-written member | corrected member |
|---|---|---|---|---|---|---|
| tilemap3d/turtle3d.py:140-148 | the shallow branch loops `while x1 != x1`, which is never true, and line 144 sets `y1 = y2 + stepy` | line(0, 0, 3, 1) paints no cell | `while x1 != x2`, with y1 stepping by stepy: cells (1, 1), (2, 1), (3, 1) | high, not executed | TurtleLegacy.ShallowLineLost | TurtleLegacy.LineShallow |
| modular_building_tool.py:744-745 | on_paint passes the raw cursor_rot to on_paint_at, which compares it with rot_conv of the stored heading (line 761) | a thin wall stored at 270, then a wall painted with cursor_rot -90 | both headings normalised, so the new wall replaces the old one | high, not executed | ModularBuilding.StackedWallAsWritten | ModularBuilding.CreatedKeepsNoStacking |
| modular_building_tool.py:815-820 | paste creates each module facing the cursor, lets on_paint settle the cell, and only then turns it to its copied heading | copying two thin walls facing 0 and 90 and pasting them on an empty cell with the cursor at 0 | each module is created with its copied heading, so both walls stay | medium, not executed | BuildingEditor.PasteLosesWallAsWritten | BuildingEditor.Pasted |
| testudo3d/__init__.py:205-207 | refresh_tilesets removes empty tilesets from the list it is enumerating, so the entry after a removed one is skipped | two tilesets, both left without tiles | every tileset without tiles is dropped | high, not executed | Tilesets.RemovalSkipsAsWritten | Tilesets.RefreshedSpec |
| testudo3d/__init__.py:696-703 | make_tileset writes each rule line with the room's name before setup_tiles renames it (lines 614-618 turn spaces into underscores) | the tileset name "a b": the first line reads `000000 a b00`, naming tiles "a" and "b00", while the room becomes "a_b00" | the line names the room as renamed, "a_b00" | high, not executed | RoomGen.SpacedNameSplits | RoomGen.CorrectedRulesParse |

The rest of the model runs the corrected programs:
- `TurtleLegacy.Turtle3D.Line` runs the intended shallow loop (`TurtleLegacy.Turtle3D.ShallowLine`).
- `ModularBuilding.Created`, and through it `ModularBuilding.PlainPaint` and the room painter, normalise both headings.
- `BuildingEditor.Paste` is `BuildingEditor.Pasted`.
- `Tilesets.Properties.RemoveEmpty` drops every empty tileset.
- `RoomGen.MakeTileset` keeps the text as written; `RoomGen.CorrectedRulesParse` states the text the renamed prefix gives.
