// The turtle of testudo3d/turtle3d.py: turtle-graphics commands driving the
// testudo3d editor, whose cursor is the turtle. Moving only moves the cursor
// (the host's _goto) and asks for the selection cube to be redrawn; turning is
// the editor's rotate; fill and clear run end_select with one flag forced on
// and put that flag back afterwards.

module Turtle {
  import opened Wrappers
  import opened Geometry
  import opened Scene
  import opened Tilemap
  import opened TilemapEngine
  import opened AutoTiling

  /** Turtle3D: turtle graphics over a testudo3d editor (Turtle3D extends Tilemap3D). */
  class Turtle3D {
    /** The editor the turtle is. */
    const base: Tilemap3D
    /**
     * The host's _goto: the cell the cursor lands on when sent to (x, y) from a
     * cell. Its body is not part of this model.
     */
    const moveTo: (Cell, int, int) -> Cell
    /** select_cube_redraw: the selection cube must be rebuilt on the next update. */
    var selectCubeRedraw: bool

    constructor(base: Tilemap3D, moveTo: (Cell, int, int) -> Cell)
      ensures this.base == base && this.moveTo == moveTo && !selectCubeRedraw
    {
      this.base := base;
      this.moveTo := moveTo;
      selectCubeRedraw := false;
    }

    /** goto(x, y): the host moves the cursor; the selection cube is flagged for redrawing. */
    method Goto(x: int, y: int)
      modifies base`cursor, this`selectCubeRedraw
      ensures base.cursor == old(base.cursor).(pos := moveTo(old(base.cursor.pos), x, y))
      ensures selectCubeRedraw
    {
      base.cursor := base.cursor.(pos := moveTo(base.cursor.pos, x, y));
      selectCubeRedraw := true;
    }

    /** forward(i): goto the (x, y) of the cell i ahead along the heading. */
    method Forward(i: int)
      requires IsQuarter(base.cursor.rot)
      modifies base`cursor, this`selectCubeRedraw
      ensures var t := Add(old(base.cursor.pos), Geometry.Forward(old(base.cursor.rot), i));
        base.cursor == old(base.cursor).(pos := moveTo(old(base.cursor.pos), t.x, t.y))
      ensures selectCubeRedraw
    {
      var vec := Add(base.cursor.pos, RotateZ(base.cursor.rot, Cell(0, i, 0)));
      Goto(vec.x, vec.y);
    }

    /** backward(i): forward(-i), which aims i cells behind the cursor. */
    method Backward(i: int)
      requires IsQuarter(base.cursor.rot)
      modifies base`cursor, this`selectCubeRedraw
      ensures var t := Sub(old(base.cursor.pos), Geometry.Forward(old(base.cursor.rot), i));
        base.cursor == old(base.cursor).(pos := moveTo(old(base.cursor.pos), t.x, t.y))
      ensures selectCubeRedraw
    {
      ForwardOpposite(base.cursor.rot, i);
      Forward(-i);
    }

    /** left(r): the editor's rotate by -r, raising where rotate raises. */
    method Left(r: int) returns (err: Option<PyError>)
      requires base.Valid() && IsQuarter(r)
      modifies base`world, base`cursor, base`selectStart
      ensures base.Valid() && err == GrabFault(old(base.world), base.grabbed)
      ensures err.None? ==>
        base.cursor == old(base.cursor).(rot := old(base.cursor.rot) - r) &&
        base.world == CdrawSpec(GrabMoved(old(base.world), base.grabbed, RotateAbout(base.cursor.pos, -r)),
                                base.cursor, base.paint, base.delete, base.tilesets)
      ensures err.Some? ==>
        base.cursor == old(base.cursor) &&
        base.world == GrabMove(old(base.world), base.grabbed.value, RotateAbout(base.cursor.pos, -r)).0
    {
      var deg := -r;
      err := base.Rotate(deg);
      assert RotateAbout(base.cursor.pos, deg) == RotateAbout(base.cursor.pos, -r);
    }

    /** right(r): the editor's rotate by r, raising where rotate raises. */
    method Right(r: int) returns (err: Option<PyError>)
      requires base.Valid() && IsQuarter(r)
      modifies base`world, base`cursor, base`selectStart
      ensures base.Valid() && err == GrabFault(old(base.world), base.grabbed)
      ensures err.None? ==>
        base.cursor == old(base.cursor).(rot := old(base.cursor.rot) + r) &&
        base.world == CdrawSpec(GrabMoved(old(base.world), base.grabbed, RotateAbout(base.cursor.pos, r)),
                                base.cursor, base.paint, base.delete, base.tilesets)
      ensures err.Some? ==>
        base.cursor == old(base.cursor) &&
        base.world == GrabMove(old(base.world), base.grabbed.value, RotateAbout(base.cursor.pos, r)).0
    {
      err := base.Rotate(r);
    }

    /** setheading(r): only the heading changes. */
    method SetHeading(r: int)
      modifies base`cursor
      ensures base.cursor == old(base.cursor).(rot := r)
    {
      base.cursor := base.cursor.(rot := r);
    }

    /** setx(x): only the cursor's x changes; the selection cube is flagged for redrawing. */
    method SetX(x: int)
      modifies base`cursor, this`selectCubeRedraw
      ensures base.cursor == old(base.cursor).(pos := old(base.cursor.pos).(x := x))
      ensures selectCubeRedraw
    {
      base.cursor := base.cursor.(pos := base.cursor.pos.(x := x));
      selectCubeRedraw := true;
    }

    /** sety(y): only the cursor's y changes; the selection cube is flagged for redrawing. */
    method SetY(y: int)
      modifies base`cursor, this`selectCubeRedraw
      ensures base.cursor == old(base.cursor).(pos := old(base.cursor.pos).(y := y))
      ensures selectCubeRedraw
    {
      base.cursor := base.cursor.(pos := base.cursor.pos.(y := y));
      selectCubeRedraw := true;
    }

    /** dot: the editor's paint at the cursor. */
    method Dot()
      modifies base`world
      ensures base.world == PaintSpec(old(base.world), base.cursor, base.tilesets)
    {
      base.Paint();
    }

    /** down: the pen (the paint flag) goes down. */
    method Down()
      modifies base`paint
      ensures base.paint
    {
      base.paint := true;
    }

    /** up: the pen goes up. */
    method Up()
      modifies base`paint
      ensures !base.paint
    {
      base.paint := false;
    }

    /** home: goto(0, 0), then heading 0. */
    method Home()
      modifies base`cursor, this`selectCubeRedraw
      ensures base.cursor == old(base.cursor).(pos := moveTo(old(base.cursor.pos), 0, 0), rot := 0)
      ensures selectCubeRedraw
    {
      Goto(0, 0);
      SetHeading(0);
    }

    /**
     * fill: end_select with the pen down, then the pen as it was. The whole box is
     * painted with the cursor's tile (see Tilemap.FillRegion). With no selection ever
     * started, select_cube_bounds reads .x of None and raises AttributeError before a cell
     * is drawn, and the pen stays down.
     */
    method Fill() returns (err: Option<PyError>)
      requires WorldValid(base.world)
      modifies base`world, base`cursor, base`select, base`paint
      ensures err == (if old(base.selectStart).None? then Some(AttributeError) else None)
      ensures base.delete == old(base.delete) && base.cursor == old(base.cursor) && WorldValid(base.world)
      ensures err.Some? ==> base.paint && base.select == old(base.select) && base.world == old(base.world)
      ensures err.None? ==>
        base.paint == old(base.paint) && !base.select &&
        base.world == CdrawCells(old(base.world), base.cursor, RegionOf(base.selectStart.value, base.cursor.pos),
                                 true, base.delete, base.tilesets)
    {
      var state := base.paint;
      base.paint := true;
      if base.selectStart.None? {
        return Some(AttributeError);
      }
      base.EndSelect();
      base.paint := state;
      err := None;
    }

    /**
     * clear: end_select in delete mode, then the delete flag as it was (the earlier
     * turtle always leaves it off). Without a started selection it raises AttributeError
     * as fill does, leaving delete mode on.
     */
    method Clear() returns (err: Option<PyError>)
      requires WorldValid(base.world)
      modifies base`world, base`cursor, base`select, base`delete
      ensures err == (if old(base.selectStart).None? then Some(AttributeError) else None)
      ensures base.paint == old(base.paint) && base.cursor == old(base.cursor) && WorldValid(base.world)
      ensures err.Some? ==> base.delete && base.select == old(base.select) && base.world == old(base.world)
      ensures err.None? ==>
        base.delete == old(base.delete) && !base.select &&
        base.world == CdrawCells(old(base.world), base.cursor, RegionOf(base.selectStart.value, base.cursor.pos),
                                 base.paint, true, base.tilesets)
    {
      var state := base.delete;
      base.delete := true;
      if base.selectStart.None? {
        return Some(AttributeError);
      }
      base.EndSelect();
      base.delete := state;
      err := None;
    }
  }

  /**
   * AutoTurtle3D: the turtle over the auto-tiling editor (AutoTiler3D first in its
   * bases). fill and clear are the turtle's, but the end_select they run draws each cell
   * of the box through the auto-tiling paint or delete (AutoTiler3D.EndSelect).
   */
  class AutoTurtle3D {
    /** The auto-tiling editor the turtle is. */
    const auto: AutoTiler3D

    constructor(auto: AutoTiler3D)
      ensures this.auto == auto
    {
      this.auto := auto;
    }

    /**
     * fill: end_select with the pen down, then the pen as it was. In auto mode each cell
     * of the box is painted and retiles its neighbours in turn; with auto-tiling off it is
     * the plain fill. Without a started selection it raises AttributeError, the pen down.
     */
    method Fill() returns (err: Option<PyError>)
      requires auto.Valid() && (auto.alt ==> auto.tileset in auto.rulesets)
      modifies auto.base`world, auto.base`cursor, auto.base`select, auto.base`paint, auto`touched, auto`retiled
      ensures err == (if old(auto.base.selectStart).None? then Some(AttributeError) else None)
      ensures auto.Valid() && auto.base.delete == old(auto.base.delete) && auto.base.cursor == old(auto.base.cursor)
      ensures err.Some? ==>
        auto.base.paint && auto.base.select == old(auto.base.select) &&
        auto.base.world == old(auto.base.world) && auto.touched == old(auto.touched)
      ensures err.None? ==> auto.base.paint == old(auto.base.paint) && !auto.base.select
      ensures err.None? && !auto.alt ==>
        auto.base.world == CdrawCells(old(auto.base.world), auto.base.cursor,
                                      RegionOf(auto.base.selectStart.value, auto.base.cursor.pos),
                                      true, auto.base.delete, auto.base.tilesets) &&
        auto.touched == old(auto.touched)
      ensures err.None? && auto.alt ==>
        var cells := RegionOf(auto.base.selectStart.value, auto.base.cursor.pos);
        auto.touched == TouchedAfter(old(auto.touched), cells) &&
        PaintedEach(auto.rulesets, auto.rulesets[auto.tileset], auto.base.tilesets, old(auto.touched),
                    old(auto.base.world), auto.base.world, cells)
    {
      var state := auto.base.paint;
      auto.base.paint := true;
      if auto.base.selectStart.None? {
        return Some(AttributeError);
      }
      auto.EndSelect();
      auto.base.paint := state;
      err := None;
    }

    /**
     * clear: end_select in delete mode, then the delete flag as it was. With the pen up,
     * each cell of the box is deleted and, in auto mode, retiles its neighbours in turn;
     * with the pen down _cdraw paints instead, as it does for the plain turtle. Without
     * a started selection it raises AttributeError, delete mode on.
     */
    method Clear() returns (err: Option<PyError>)
      requires auto.Valid() && (auto.alt && auto.base.paint ==> auto.tileset in auto.rulesets)
      modifies auto.base`world, auto.base`cursor, auto.base`select, auto.base`delete, auto`touched, auto`retiled
      ensures err == (if old(auto.base.selectStart).None? then Some(AttributeError) else None)
      ensures auto.Valid() && auto.base.paint == old(auto.base.paint) && auto.base.cursor == old(auto.base.cursor)
      ensures err.Some? ==>
        auto.base.delete && auto.base.select == old(auto.base.select) &&
        auto.base.world == old(auto.base.world) && auto.touched == old(auto.touched)
      ensures err.None? ==> auto.base.delete == old(auto.base.delete) && !auto.base.select
      ensures err.None? && !auto.alt ==>
        auto.base.world == CdrawCells(old(auto.base.world), auto.base.cursor,
                                      RegionOf(auto.base.selectStart.value, auto.base.cursor.pos),
                                      auto.base.paint, true, auto.base.tilesets) &&
        auto.touched == old(auto.touched)
      ensures err.None? && auto.alt ==>
        auto.touched == TouchedAfter(old(auto.touched), RegionOf(auto.base.selectStart.value, auto.base.cursor.pos))
      ensures err.None? && auto.alt && auto.base.paint ==>
        PaintedEach(auto.rulesets, auto.rulesets[auto.tileset], auto.base.tilesets, old(auto.touched),
                    old(auto.base.world), auto.base.world, RegionOf(auto.base.selectStart.value, auto.base.cursor.pos))
      ensures err.None? && auto.alt && !auto.base.paint ==>
        ClearedEach(auto.rulesets, auto.base.tilesets, old(auto.touched), old(auto.base.world), auto.base.world,
                    RegionOf(auto.base.selectStart.value, auto.base.cursor.pos))
    {
      var state := auto.base.delete;
      auto.base.delete := true;
      if auto.base.selectStart.None? {
        return Some(AttributeError);
      }
      auto.EndSelect();
      auto.base.delete := state;
      err := None;
    }
  }
}
