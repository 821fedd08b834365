// The Tilemap3D editor object of testudo3d/tilemap3d.py. Its fields are the
// scene it edits, the cursor, the four mode flags (paint, delete, grab,
// select), the selection start, the grabbed tiles, the clipboard and the
// cursor saved on the root object. Each method changes those fields in place
// and is proved to leave them as the functions of module Tilemap describe.

module TilemapEngine {
  import opened Wrappers
  import opened Geometry
  import opened Scene
  import opened Tilemap

  /** The function do_region runs at each cell: _cdraw, or get_selected_tiles' collector. */
  datatype RegionFunc = DrawCell | CollectTile

  /** end_grab first ends a pending selection, drawing over its box. */
  function GrabDrawn(w: World, c: Cursor, selection: Option<Cell>, paint: bool, delete: bool,
                     tilesets: map<string, string>): World
  {
    if selection.Some? then CdrawCells(w, c, RegionOf(selection.value, c.pos), paint, delete, tilesets) else w
  }

  /**
   * What end_grab leaves: the scene, the cursor's cell and the error raised. A pending
   * selection (its start cell) is drawn over first; then cancel puts the grabbed tiles
   * back and commit deletes what lies under each, the cursor visiting each tile's cell.
   * Either loop raises ReferenceError at the first grabbed tile that has left the scene,
   * the commit leaving the cursor on the cell of the tile before it.
   */
  function GrabEnded(w: World, c: Cursor, selection: Option<Cell>, paint: bool, delete: bool,
                     grabbed: seq<GrabData>, cancel: bool, tilesets: map<string, string>): (World, Cell, Option<PyError>)
  {
    var drawn := GrabDrawn(w, c, selection, paint, delete, tilesets);
    if cancel then
      var r := GrabMove(drawn, grabbed, Restore);
      (r.0, c.pos, r.1)
    else
      var r := CommitRun(drawn, grabbed, c.pos);
      if r.2.None? then (r.0, c.pos, None) else r
  }

  /**
   * With every grabbed tile still in the scene and no two in one cell, end_grab raises
   * nothing and leaves the cursor where it was; cancel then puts back exactly the
   * grabbed tiles and commit keeps every grabbed tile.
   */
  lemma GrabEndedClean(w: World, c: Cursor, selection: Option<Cell>, paint: bool, delete: bool,
                       grabbed: seq<GrabData>, cancel: bool, tilesets: map<string, string>)
    requires var d := GrabDrawn(w, c, selection, paint, delete, tilesets);
      WorldValid(d) && GrabbedApart(d.objs, grabbed) &&
      forall j :: 0 <= j < |grabbed| ==> Find(d.objs, grabbed[j].id).Some?
    ensures var d := GrabDrawn(w, c, selection, paint, delete, tilesets);
      var r := GrabEnded(w, c, selection, paint, delete, grabbed, cancel, tilesets);
      r.2.None? && r.1 == c.pos &&
      (cancel ==> r.0 == GrabMoved(d, Some(grabbed), Restore)) &&
      (!cancel ==> r.0 == CommitGrab(d, grabbed) && forall o :: o in d.objs && ItemFor(grabbed, o.id).Some? ==> o in r.0.objs)
  {
    var d := GrabDrawn(w, c, selection, paint, delete, tilesets);
    if cancel {
      FirstMissingNone(d.objs, grabbed);
    } else {
      CommitRunNoFault(d, grabbed, |grabbed|, c.pos);
      assert grabbed[..|grabbed|] == grabbed;
      CommitRunClean(d, grabbed, c.pos);
      CommitKeepsGrabbed(d, grabbed);
    }
  }

  /** Drawing over one more cell draws over the cells before it, then at that cell. */
  lemma CdrawCellsSnoc(w: World, c: Cursor, visited: seq<Cell>, cell: Cell, paint: bool, delete: bool,
                       tilesets: map<string, string>)
    ensures CdrawCells(w, c, visited + [cell], paint, delete, tilesets) ==
            CdrawSpec(CdrawCells(w, c, visited, paint, delete, tilesets), c.(pos := cell), paint, delete, tilesets)
  {
    assert (visited + [cell])[..|visited|] == visited;
  }

  /** Collecting over one more cell collects over the cells before it, then the first tile at that cell. */
  lemma FirstTilesSnoc(objs: Store, visited: seq<Cell>, cell: Cell)
    ensures FirstTiles(objs, visited + [cell]) ==
            FirstTiles(objs, visited) + match FirstAt(objs, cell) case None => [] case Some(o) => [o]
  {
    assert (visited + [cell])[..|visited|] == visited;
  }

  /**
   * The scene after n steps of smart_move's forward loop from cursor c: each
   * step shifts the grabbed tiles by (x, y, 0) and draws at the cell reached.
   */
  function Walked(w: World, grabbed: Option<seq<GrabData>>, c: Cursor, x: int, y: int, n: nat,
                  paint: bool, delete: bool, tilesets: map<string, string>): World
  {
    if n == 0 then w
    else CdrawSpec(GrabMoved(Walked(w, grabbed, c, x, y, n - 1, paint, delete, tilesets), grabbed, Shift(Cell(x, y, 0))),
                   c.(pos := Advance(c.pos, Cell(x, y, 0), n)), paint, delete, tilesets)
  }

  /** One more step of the walk: shift the grabbed tiles by (x, y, 0), then draw at the next cell. */
  lemma WalkedNext(w: World, grabbed: Option<seq<GrabData>>, c: Cursor, x: int, y: int, n: nat,
                   paint: bool, delete: bool, tilesets: map<string, string>)
    ensures Walked(w, grabbed, c, x, y, n + 1, paint, delete, tilesets) ==
      CdrawSpec(GrabMoved(Walked(w, grabbed, c, x, y, n, paint, delete, tilesets), grabbed, Shift(Cell(x, y, 0))),
                c.(pos := Advance(c.pos, Cell(x, y, 0), n + 1)), paint, delete, tilesets)
  {
  }

  /** The editor fields a cursor movement changes, and the error it raises. */
  datatype Outcome = Outcome(world: World, cursor: Cursor, selectStart: Option<Cell>, err: Option<PyError>)

  /**
   * translate by v from the state o: the cursor moves, then the grabbed tiles and (when
   * carried) the selection start move with it, then the cursor draws. A grabbed tile gone
   * from the scene raises, the cursor already moved and the tiles before it shifted.
   */
  function TranslateStep(o: Outcome, grabbed: Option<seq<GrabData>>, carry: bool, v: Cell,
                         paint: bool, delete: bool, tilesets: map<string, string>): (r: Outcome)
    requires carry ==> o.selectStart.Some?
    ensures carry ==> r.selectStart.Some?
    ensures r.cursor == o.cursor.(pos := Add(o.cursor.pos, v))
  {
    var c1 := o.cursor.(pos := Add(o.cursor.pos, v));
    match GrabFault(o.world, grabbed)
    case Some(e) => Outcome(GrabMove(o.world, grabbed.value, Shift(v)).0, c1, o.selectStart, Some(e))
    case None =>
      Outcome(CdrawSpec(GrabMoved(o.world, grabbed, Shift(v)), c1, paint, delete, tilesets), c1,
              if carry then Some(Add(o.selectStart.value, v)) else o.selectStart, None)
  }

  /**
   * smart_move's forward loop of n translates by (x, y, 0) from the state o; the first
   * translate that raises ends it.
   */
  function WalkOutcome(o: Outcome, grabbed: Option<seq<GrabData>>, carry: bool, x: int, y: int, n: nat,
                       paint: bool, delete: bool, tilesets: map<string, string>): (r: Outcome)
    requires carry ==> o.selectStart.Some?
    ensures carry ==> r.selectStart.Some?
    ensures r.cursor.tile3d == o.cursor.tile3d && r.cursor.rot == o.cursor.rot
  {
    if n == 0 then o
    else
      var r := WalkOutcome(o, grabbed, carry, x, y, n - 1, paint, delete, tilesets);
      if r.err.Some? then r else TranslateStep(r, grabbed, carry, Cell(x, y, 0), paint, delete, tilesets)
  }

  /** One more step of a walk that has not raised is one more translate. */
  lemma WalkOutcomeNext(o: Outcome, grabbed: Option<seq<GrabData>>, carry: bool, x: int, y: int, n: nat,
                        paint: bool, delete: bool, tilesets: map<string, string>, prev: Outcome)
    requires carry ==> o.selectStart.Some?
    requires prev == WalkOutcome(o, grabbed, carry, x, y, n, paint, delete, tilesets) && prev.err.None?
    ensures WalkOutcome(o, grabbed, carry, x, y, n + 1, paint, delete, tilesets) ==
            TranslateStep(prev, grabbed, carry, Cell(x, y, 0), paint, delete, tilesets)
  {
  }

  /** One translate of a walk of n steps that has not raised yet: either it raises and the walk is over, or the walk goes on. */
  lemma WalkStep(o: Outcome, grabbed: Option<seq<GrabData>>, carry: bool, x: int, y: int, i: nat, n: nat,
                 paint: bool, delete: bool, tilesets: map<string, string>, prev: Outcome, next: Outcome)
    requires carry ==> o.selectStart.Some?
    requires i < n && prev == WalkOutcome(o, grabbed, carry, x, y, i, paint, delete, tilesets) && prev.err.None?
    requires next == TranslateStep(prev, grabbed, carry, Cell(x, y, 0), paint, delete, tilesets)
    ensures next == WalkOutcome(o, grabbed, carry, x, y, i + 1, paint, delete, tilesets)
    ensures next.err.Some? ==> next == WalkOutcome(o, grabbed, carry, x, y, n, paint, delete, tilesets)
  {
    WalkOutcomeNext(o, grabbed, carry, x, y, i, paint, delete, tilesets, prev);
    if next.err.Some? {
      WalkOutcomeStops(o, grabbed, carry, x, y, i + 1, n, paint, delete, tilesets);
    }
  }

  /** Once a step raises, the walk is over: later steps change nothing. */
  lemma {:induction false} WalkOutcomeStops(o: Outcome, grabbed: Option<seq<GrabData>>, carry: bool, x: int, y: int,
                                            m: nat, n: nat, paint: bool, delete: bool, tilesets: map<string, string>)
    requires carry ==> o.selectStart.Some?
    requires m <= n && WalkOutcome(o, grabbed, carry, x, y, m, paint, delete, tilesets).err.Some?
    ensures WalkOutcome(o, grabbed, carry, x, y, n, paint, delete, tilesets) ==
            WalkOutcome(o, grabbed, carry, x, y, m, paint, delete, tilesets)
  {
    if m < n {
      WalkOutcomeStops(o, grabbed, carry, x, y, m, n - 1, paint, delete, tilesets);
      var r := WalkOutcome(o, grabbed, carry, x, y, n - 1, paint, delete, tilesets);
      assert r.err.Some?;
      WalkOutcomeHalted(o, grabbed, carry, x, y, n, paint, delete, tilesets);
    }
  }

  /** A walk whose first n - 1 steps raised takes no n-th step. */
  lemma WalkOutcomeHalted(o: Outcome, grabbed: Option<seq<GrabData>>, carry: bool, x: int, y: int, n: nat,
                          paint: bool, delete: bool, tilesets: map<string, string>)
    requires carry ==> o.selectStart.Some?
    requires n > 0 && WalkOutcome(o, grabbed, carry, x, y, n - 1, paint, delete, tilesets).err.Some?
    ensures WalkOutcome(o, grabbed, carry, x, y, n, paint, delete, tilesets) ==
            WalkOutcome(o, grabbed, carry, x, y, n - 1, paint, delete, tilesets)
  {
  }

  /**
   * A walk that raises nothing has stepped n cells, shifting the grabbed tiles and drawing
   * at each cell as Walked says; without grabbed tiles no walk raises.
   */
  lemma {:induction false} WalkOutcomeClean(w: World, grabbed: Option<seq<GrabData>>, c: Cursor, s: Option<Cell>,
                                            carry: bool, x: int, y: int, n: nat,
                                            paint: bool, delete: bool, tilesets: map<string, string>)
    requires carry ==> s.Some?
    ensures var r := WalkOutcome(Outcome(w, c, s, None), grabbed, carry, x, y, n, paint, delete, tilesets);
      (grabbed.None? ==> r.err.None?) &&
      (r.err.None? ==>
        r.world == Walked(w, grabbed, c, x, y, n, paint, delete, tilesets) &&
        r.cursor == c.(pos := Advance(c.pos, Cell(x, y, 0), n)) &&
        r.selectStart == if carry then Some(Advance(s.value, Cell(x, y, 0), n)) else s)
  {
    if n > 0 {
      WalkOutcomeClean(w, grabbed, c, s, carry, x, y, n - 1, paint, delete, tilesets);
    }
  }

  /**
   * smart_move(x, y, repeat): facing (x, y) already, walk repeat cells; otherwise turn
   * to face it, then walk repeat cells only when repeat > 1 (a turn that raised takes no
   * step: WalkOutcome from an outcome that has raised stays there).
   */
  function SmartMoved(w: World, grabbed: Option<seq<GrabData>>, c: Cursor, s: Option<Cell>, carry: bool,
                      x: int, y: int, repeat: int, paint: bool, delete: bool, tilesets: map<string, string>): Outcome
    requires AxisAligned(x, y) && IsQuarter(c.rot) && (carry ==> s.Some?)
  {
    if c.rot == NormalizedXYToZrot(x, y)
    then WalkOutcome(Outcome(w, c, s, None), grabbed, carry, x, y, Max(repeat, 0), paint, delete, tilesets)
    else
      WalkOutcome(Turned(w, grabbed, c, s, carry, NormalizedXYToZrot(x, y) - c.rot, paint, delete, tilesets),
                  grabbed, carry, x, y, if repeat > 1 then repeat else 0, paint, delete, tilesets)
  }

  /**
   * rotate by deg: the grabbed tiles and the selection start turn about the cursor, the
   * cursor turns, and the new cursor draws. When a grabbed tile is gone the grab loop
   * raises before the cursor turns.
   */
  function Turned(w: World, grabbed: Option<seq<GrabData>>, c: Cursor, s: Option<Cell>, carry: bool, deg: int,
                  paint: bool, delete: bool, tilesets: map<string, string>): (r: Outcome)
    requires IsQuarter(deg) && (carry ==> s.Some?)
    ensures carry ==> r.selectStart.Some?
    ensures r.cursor == if r.err.None? then c.(rot := c.rot + deg) else c
  {
    match GrabFault(w, grabbed)
    case Some(e) => Outcome(GrabMove(w, grabbed.value, RotateAbout(c.pos, deg)).0, c, s, Some(e))
    case None =>
      var c1 := c.(rot := c.rot + deg);
      Outcome(CdrawSpec(GrabMoved(w, grabbed, RotateAbout(c.pos, deg)), c1, paint, delete, tilesets), c1,
              if carry then Some(Add(RotateZ(deg, Sub(s.value, c.pos)), c.pos)) else s, None)
  }

  /** The tiles of a selection box belong to distinct objects, so grabbing them grabs each once. */
  lemma SelectedGrabDistinct(objs: Store, start: Cell, pos: Cell)
    requires DistinctIds(objs)
    ensures DistinctItems(GrabAll(FirstTiles(objs, RegionOf(start, pos))))
  {
    var b := SelectCubeBounds(start, pos);
    RegionCellsExact(b.0, b.1, pos);
    FirstTilesDistinct(objs, RegionOf(start, pos));
  }

  class Tilemap3D {
    var world: World
    var cursor: Cursor
    var paint: bool
    var delete: bool
    var grab: bool
    var select: bool
    var selectStart: Option<Cell>
    var grabbed: Option<seq<GrabData>>
    var clipboard: Option<seq<ClipItem>>
    /** The root object's t3d_last_cursor property. */
    var lastCursor: Option<string>
    /** The tileset each group belongs to. */
    const tilesets: map<string, string>

    /**
     * Identities in the scene are distinct, grabbing holds exactly when there are
     * grabbed tiles and those are distinct, and a selection has a start cell.
     */
    predicate Valid()
      reads this
    {
      WorldValid(world) &&
      (grab <==> grabbed.Some?) &&
      (grabbed.Some? ==> DistinctItems(grabbed.value)) &&
      (select ==> selectStart.Some?)
    }

    constructor(tilesets: map<string, string>)
      ensures Valid()
      ensures world == World([], 0) && cursor == Cursor(None, Cell(0, 0, 0), 0)
      ensures !paint && !delete && !grab && !select
      ensures selectStart.None? && grabbed.None? && clipboard.None? && lastCursor.None?
      ensures this.tilesets == tilesets
    {
      world := World([], 0);
      cursor := Cursor(None, Cell(0, 0, 0), 0);
      paint, delete, grab, select := false, false, false, false;
      selectStart, grabbed, clipboard, lastCursor := None, None, None, None;
      this.tilesets := tilesets;
    }

    /** get_tile3d: the first tile at the cursor. */
    function Tile3D(): (r: Option<Obj>)
      reads this
      ensures r.Some? ==> r.value in world.objs && r.value.pos == cursor.pos
      ensures r.None? <==> !Occupied(world.objs, cursor.pos)
    {
      FirstAt(world.objs, cursor.pos)
    }

    method CreateTile(group: string)
      modifies this`world
      ensures var g := InstanceGroup(group);
        world == Place(old(world), g, cursor.pos, cursor.rot, TilesetOf(tilesets, g))
    {
      var g := InstanceGroup(group);
      world := Place(world, g, cursor.pos, cursor.rot, TilesetOf(tilesets, g));
    }

    method Delete(ignore: Option<nat>)
      modifies this`world
      ensures world == DeleteSpec(old(world), cursor.pos, ignore)
    {
      var tiles := TilesAt(world.objs, cursor.pos);
      if ignore.Some? {
        tiles := Without(tiles, ignore.value);
      }
      if |tiles| > 0 {
        world := Remove(world, tiles[0].id);
      }
    }

    method Paint()
      modifies this`world
      ensures world == PaintSpec(old(world), cursor, tilesets)
    {
      if cursor.tile3d.Some? {
        var group := cursor.tile3d.value;
        Delete(None);
        CreateTile(group);
      }
    }

    method Cdraw()
      modifies this`world
      ensures world == CdrawSpec(old(world), cursor, paint, delete, tilesets)
    {
      if paint {
        Paint();
      } else if delete {
        Delete(None);
      }
    }

    /**
     * The loop over grabbed items: move each one in turn; reading a tile that has left
     * the scene raises ReferenceError, the tiles before it already moved.
     */
    method MoveGrabbed(items: seq<GrabData>, m: Move) returns (err: Option<PyError>)
      requires MoveOk(m) && WorldValid(world) && DistinctItems(items)
      modifies this`world
      ensures (world, err) == GrabMove(old(world), items, m)
      ensures WorldValid(world)
    {
      ghost var w0 := world;
      var k := 0;
      while k < |items|
        invariant 0 <= k <= |items|
        invariant world == World(MoveItems(w0.objs, items[..k], m), w0.next)
        invariant FirstMissing(w0.objs, items[..k]).None?
      {
        var g := items[k];
        FindMoveItems(w0.objs, items[..k], m, g.id);
        match Find(world.objs, g.id) {
          case None =>
            GrabMoveStopped(w0, items, k, m);
            return Some(ReferenceError);
          case Some(o) =>
            GrabMoveNext(w0, items, k, m, o);
            var n := MoveObj(o, m, g);
            world := World(Moved(world.objs, g.id, n.pos, n.rot), world.next);
        }
        k := k + 1;
      }
      assert items[..k] == items;
      GrabMoveDone(w0, items, m);
      return None;
    }

    /**
     * The grab branch of rotate and translate: each grabbed tile moves, then the
     * selection start, when selecting, goes to start; a grabbed tile gone from the
     * scene raises and leaves the selection start where it was.
     */
    method MoveGrab(m: Move, start: Option<Cell>) returns (err: Option<PyError>)
      requires Valid() && MoveOk(m) && (grab && select ==> start.Some?)
      modifies this`world, this`selectStart
      ensures Valid()
      ensures err == GrabFault(old(world), grabbed)
      ensures err.None? ==>
        world == GrabMoved(old(world), grabbed, m) && selectStart == (if grab && select then start else old(selectStart))
      ensures err.Some? ==> world == GrabMove(old(world), grabbed.value, m).0 && selectStart == old(selectStart)
    {
      err := None;
      if grab {
        GrabMoveFault(world, grabbed.value, m);
        err := MoveGrabbed(grabbed.value, m);
        if err.None? && select {
          selectStart := start;
        }
      }
    }

    /**
     * rotate: turn the grabbed tiles and the selection start about the cursor, turn the
     * cursor, then draw; a grabbed tile gone from the scene raises before the cursor turns.
     */
    method Rotate(deg: int) returns (err: Option<PyError>)
      requires Valid() && IsQuarter(deg)
      modifies this`world, this`cursor, this`selectStart
      ensures Valid()
      ensures err == GrabFault(old(world), grabbed)
      ensures err.None? ==>
        cursor == old(cursor).(rot := old(cursor.rot) + deg) &&
        selectStart == (if grab && select then Some(Add(RotateZ(deg, Sub(old(selectStart).value, cursor.pos)), cursor.pos))
                        else old(selectStart)) &&
        world == CdrawSpec(GrabMoved(old(world), grabbed, RotateAbout(cursor.pos, deg)), cursor, paint, delete, tilesets)
      ensures err.Some? ==>
        cursor == old(cursor) && selectStart == old(selectStart) &&
        world == GrabMove(old(world), grabbed.value, RotateAbout(cursor.pos, deg)).0
      ensures Outcome(world, cursor, selectStart, err) ==
        Turned(old(world), grabbed, old(cursor), old(selectStart), grab && select, deg, paint, delete, tilesets)
    {
      var start := if grab && select then Some(Add(RotateZ(deg, Sub(selectStart.value, cursor.pos)), cursor.pos)) else None;
      err := MoveGrab(RotateAbout(cursor.pos, deg), start);
      if err.Some? {
        return;
      }
      cursor := cursor.(rot := cursor.rot + deg);
      CdrawSpecEffect(world, cursor, paint, delete, tilesets);
      Cdraw();
    }

    /**
     * translate: move the cursor by (x, y, z) turned to its heading, then the grabbed
     * tiles and the selection start with it, then draw; a grabbed tile gone from the
     * scene raises after the cursor has moved.
     */
    method Translate(x: int, y: int, z: int) returns (err: Option<PyError>)
      requires Valid() && IsQuarter(cursor.rot)
      modifies this`world, this`cursor, this`selectStart
      ensures Valid()
      ensures cursor == old(cursor).(pos := Add(old(cursor.pos), RotateZ(old(cursor.rot), Cell(x, y, z))))
      ensures err == GrabFault(old(world), grabbed)
      ensures err.None? ==>
        selectStart == (if grab && select then Some(Add(old(selectStart).value, RotateZ(old(cursor.rot), Cell(x, y, z))))
                        else old(selectStart)) &&
        world == CdrawSpec(GrabMoved(old(world), grabbed, Shift(RotateZ(old(cursor.rot), Cell(x, y, z)))),
                           cursor, paint, delete, tilesets)
      ensures err.Some? ==>
        selectStart == old(selectStart) &&
        world == GrabMove(old(world), grabbed.value, Shift(RotateZ(old(cursor.rot), Cell(x, y, z)))).0
      ensures Outcome(world, cursor, selectStart, err) ==
        TranslateStep(Outcome(old(world), old(cursor), old(selectStart), None), grabbed, grab && select,
                      RotateZ(old(cursor.rot), Cell(x, y, z)), paint, delete, tilesets)
    {
      var vec := RotateZ(cursor.rot, Cell(x, y, z));
      cursor := cursor.(pos := Add(cursor.pos, vec));
      var start := if grab && select then Some(Add(selectStart.value, vec)) else None;
      err := MoveGrab(Shift(vec), start);
      if err.Some? {
        return;
      }
      CdrawSpecEffect(world, cursor, paint, delete, tilesets);
      Cdraw();
    }

    /**
     * smart_move(x, y, repeat) along an axis: when the cursor already faces (x, y) it
     * steps forward repeat times; otherwise it turns to face (x, y), and steps only
     * when repeat > 1. Each step moves the cursor by exactly (x, y, 0).
     */
    method SmartMove(x: int, y: int, repeat: int) returns (err: Option<PyError>)
      requires Valid() && AxisAligned(x, y) && IsQuarter(cursor.rot)
      modifies this`world, this`cursor, this`selectStart
      ensures Valid()
      ensures Outcome(world, cursor, selectStart, err) ==
        SmartMoved(old(world), grabbed, old(cursor), old(selectStart), grab && select, x, y, repeat, paint, delete, tilesets)
      ensures cursor.tile3d == old(cursor.tile3d)
      ensures err.None? ==>
        cursor.rot == NormalizedXYToZrot(x, y) &&
        cursor.pos == Advance(old(cursor.pos), Cell(x, y, 0),
                              if old(cursor.rot) == NormalizedXYToZrot(x, y) then Max(repeat, 0)
                              else if repeat > 1 then repeat else 0)
    {
      if cursor.rot == NormalizedXYToZrot(x, y) {
        err := SmartWalk(x, y, repeat);
      } else {
        err := SmartTurn(x, y, repeat);
      }
    }

    /** smart_move when the cursor does not face (x, y): turn towards it, then step only when repeat > 1. */
    method SmartTurn(x: int, y: int, repeat: int) returns (err: Option<PyError>)
      requires Valid() && AxisAligned(x, y) && IsQuarter(cursor.rot) && cursor.rot != NormalizedXYToZrot(x, y)
      modifies this`world, this`cursor, this`selectStart
      ensures Valid()
      ensures Outcome(world, cursor, selectStart, err) ==
        WalkOutcome(Turned(old(world), grabbed, old(cursor), old(selectStart), grab && select,
                           NormalizedXYToZrot(x, y) - old(cursor.rot), paint, delete, tilesets),
                    grabbed, grab && select, x, y, if repeat > 1 then repeat else 0, paint, delete, tilesets)
      ensures cursor.tile3d == old(cursor.tile3d)
      ensures err.None? ==>
        cursor.rot == NormalizedXYToZrot(x, y) &&
        cursor.pos == Advance(old(cursor.pos), Cell(x, y, 0), if repeat > 1 then repeat else 0)
    {
      err := TurnTo(x, y);
      if err.Some? {
        WalkOutcomeStops(Outcome(world, cursor, selectStart, err), grabbed, grab && select, x, y, 0,
                         if repeat > 1 then repeat else 0, paint, delete, tilesets);
        return;
      }
      var steps := if repeat > 1 then repeat else 0;
      err := SmartWalk(x, y, steps);
    }

    /** smart_move's turn: rotate by the difference between the heading of (x, y) and the cursor's. */
    method TurnTo(x: int, y: int) returns (err: Option<PyError>)
      requires Valid() && AxisAligned(x, y) && IsQuarter(cursor.rot)
      modifies this`world, this`cursor, this`selectStart
      ensures Valid()
      ensures Outcome(world, cursor, selectStart, err) ==
        Turned(old(world), grabbed, old(cursor), old(selectStart), grab && select,
               NormalizedXYToZrot(x, y) - old(cursor.rot), paint, delete, tilesets)
      ensures cursor == if err.None? then old(cursor).(rot := NormalizedXYToZrot(x, y)) else old(cursor)
    {
      var rot := NormalizedXYToZrot(x, y);
      QuarterDiff(rot, cursor.rot);
      err := Rotate(rot - cursor.rot);
    }

    /**
     * smart_move's loop: repeat translates one cell forward, the cursor facing (x, y);
     * the first translate that raises ends the loop.
     */
    method SmartWalk(x: int, y: int, repeat: int) returns (err: Option<PyError>)
      requires Valid() && AxisAligned(x, y) && cursor.rot == NormalizedXYToZrot(x, y)
      modifies this`world, this`cursor, this`selectStart
      ensures Valid()
      ensures Outcome(world, cursor, selectStart, err) ==
        WalkOutcome(Outcome(old(world), old(cursor), old(selectStart), None), grabbed, grab && select,
                    x, y, Max(repeat, 0), paint, delete, tilesets)
      ensures cursor.tile3d == old(cursor.tile3d) && cursor.rot == old(cursor.rot)
      ensures err.None? ==> cursor.pos == Advance(old(cursor.pos), Cell(x, y, 0), Max(repeat, 0))
    {
      // round(magnitude(x, y)) of an axis vector
      var mag := Abs(x) + Abs(y);
      HeadingForward(x, y);
      assert RotateZ(cursor.rot, Cell(0, mag, 0)) == Cell(x, y, 0);
      var n := Max(repeat, 0);
      ghost var o0 := Outcome(world, cursor, selectStart, None);
      var i := 0;
      err := None;
      // for i in range(repeat)
      while i < n
        invariant Valid() && 0 <= i <= n && err.None? && cursor.rot == o0.cursor.rot
        invariant Outcome(world, cursor, selectStart, err) ==
          WalkOutcome(o0, grabbed, grab && select, x, y, i, paint, delete, tilesets)
        invariant cursor == o0.cursor.(pos := Advance(o0.cursor.pos, Cell(x, y, 0), i))
      {
        err := StepForward(x, y, mag, o0, i, n);
        i := i + 1;
        if err.Some? {
          return;
        }
      }
    }

    /** One pass of smart_move's loop: translate one cell forward, as the i-th of n steps of a walk from o0. */
    method StepForward(x: int, y: int, mag: int, ghost o0: Outcome, ghost i: nat, ghost n: nat) returns (err: Option<PyError>)
      requires Valid() && IsQuarter(cursor.rot) && RotateZ(cursor.rot, Cell(0, mag, 0)) == Cell(x, y, 0)
      requires (grab && select ==> o0.selectStart.Some?) && i < n
      requires Outcome(world, cursor, selectStart, None) ==
        WalkOutcome(o0, grabbed, grab && select, x, y, i, paint, delete, tilesets)
      modifies this`world, this`cursor, this`selectStart
      ensures Valid() && cursor == old(cursor).(pos := Add(old(cursor.pos), Cell(x, y, 0)))
      ensures Outcome(world, cursor, selectStart, err) ==
        WalkOutcome(o0, grabbed, grab && select, x, y, i + 1, paint, delete, tilesets)
      ensures err.Some? ==>
                Outcome(world, cursor, selectStart, err) ==
                WalkOutcome(o0, grabbed, grab && select, x, y, n, paint, delete, tilesets)
    {
      ghost var prev := Outcome(world, cursor, selectStart, None);
      err := Translate(0, mag, 0);
      WalkStep(o0, grabbed, grab && select, x, y, i, n, paint, delete, tilesets, prev,
               Outcome(world, cursor, selectStart, err));
    }

    /** What do_region has done after visiting the given cells, starting from scene w0 and cursor c0. */
    ghost predicate Visited(func: RegionFunc, w0: World, c0: Cursor, visited: seq<Cell>, found: seq<Obj>)
      reads this
    {
      cursor.tile3d == c0.tile3d && cursor.rot == c0.rot &&
      (func.DrawCell? ==> world == CdrawCells(w0, c0, visited, paint, delete, tilesets) && found == []) &&
      (func.CollectTile? ==> world == w0 && found == FirstTiles(w0.objs, visited))
    }

    /** One call of func with the cursor at cell. */
    method VisitCell(func: RegionFunc, cell: Cell, ghost w0: World, ghost c0: Cursor, ghost visited: seq<Cell>,
                     found: seq<Obj>) returns (found': seq<Obj>)
      requires Visited(func, w0, c0, visited, found)
      modifies this`world, this`cursor
      ensures Visited(func, w0, c0, visited + [cell], found')
      ensures cursor.pos == cell
    {
      cursor := cursor.(pos := cell);
      assert cursor == c0.(pos := cell);
      found' := found;
      match func {
        case DrawCell =>
          CdrawCellsSnoc(w0, c0, visited, cell, paint, delete, tilesets);
          Cdraw();
        case CollectTile =>
          FirstTilesSnoc(w0.objs, visited, cell);
          var t := Tile3D();
          if t.Some? {
            found' := found + [t.value];
          }
      }
    }

    /** The innermost loop of do_region: the cells of one row, x ascending. */
    method DoRow(func: RegionFunc, lo: Cell, y: int, z: int, nx: nat, ghost w0: World, ghost c0: Cursor,
                 ghost before: seq<Cell>, found: seq<Obj>) returns (found': seq<Obj>)
      requires Visited(func, w0, c0, before, found)
      modifies this`world, this`cursor
      ensures Visited(func, w0, c0, before + RowCells(lo, y, z, nx), found')
    {
      found' := found;
      RowCellsStep(before, lo, y, z, 0);
      var x := 0;
      while x < nx
        invariant 0 <= x <= nx
        invariant Visited(func, w0, c0, before + RowCells(lo, y, z, x), found')
      {
        var cell := Cell(lo.x + x, lo.y + y, lo.z + z);
        found' := VisitCell(func, cell, w0, c0, before + RowCells(lo, y, z, x), found');
        RowCellsStep(before, lo, y, z, x);
        x := x + 1;
      }
    }

    /** The middle loop of do_region: the rows of one plane, y ascending. */
    method DoPlane(func: RegionFunc, lo: Cell, z: int, nx: nat, ny: nat, ghost w0: World, ghost c0: Cursor,
                   ghost before: seq<Cell>, found: seq<Obj>) returns (found': seq<Obj>)
      requires Visited(func, w0, c0, before, found)
      modifies this`world, this`cursor
      ensures Visited(func, w0, c0, before + PlaneCells(lo, nx, z, ny), found')
    {
      found' := found;
      PlaneCellsStep(before, lo, nx, z, 0);
      var y := 0;
      while y < ny
        invariant 0 <= y <= ny
        invariant Visited(func, w0, c0, before + PlaneCells(lo, nx, z, y), found')
      {
        found' := DoRow(func, lo, y, z, nx, w0, c0, before + PlaneCells(lo, nx, z, y), found');
        PlaneCellsStep(before, lo, nx, z, y);
        y := y + 1;
      }
    }

    /** The outer loop of do_region: the planes of the box, z ascending. */
    method DoBox(func: RegionFunc, lo: Cell, nx: nat, ny: nat, nz: nat, ghost w0: World, ghost c0: Cursor)
      returns (found: seq<Obj>)
      requires world == w0 && cursor == c0
      modifies this`world, this`cursor
      ensures Visited(func, w0, c0, BoxCells(lo, nx, ny, nz), found)
    {
      found := [];
      var z := 0;
      while z < nz
        invariant 0 <= z <= nz
        invariant Visited(func, w0, c0, BoxCells(lo, nx, ny, z), found)
      {
        found := DoPlane(func, lo, z, nx, ny, w0, c0, BoxCells(lo, nx, ny, z), found);
        z := z + 1;
      }
    }

    /** do_region: run func with the cursor at each cell of the selection box, then put it back. */
    method DoRegion(func: RegionFunc) returns (found: seq<Obj>)
      requires selectStart.Some?
      modifies this`world, this`cursor
      ensures cursor == old(cursor)
      ensures Visited(func, old(world), old(cursor), RegionOf(selectStart.value, old(cursor.pos)), found)
    {
      var orig := cursor.pos;
      var bounds := SelectCubeBounds(selectStart.value, cursor.pos);
      var lo, hi := bounds.0, bounds.1;
      var nx, ny, nz := Extent(lo.x, hi.x), Extent(lo.y, hi.y), Extent(lo.z, hi.z);
      found := DoBox(func, lo, nx, ny, nz, world, cursor);
      assert BoxCells(lo, nx, ny, nz) == RegionOf(selectStart.value, orig);
      cursor := cursor.(pos := orig);
    }

    method GetSelectedTiles() returns (tiles: seq<Obj>)
      requires selectStart.Some?
      modifies this`world, this`cursor
      ensures cursor == old(cursor) && world == old(world)
      ensures tiles == FirstTiles(world.objs, RegionOf(selectStart.value, cursor.pos))
    {
      tiles := DoRegion(CollectTile);
    }

    method StartSelect()
      modifies this`select, this`selectStart
      ensures select && selectStart == Some(cursor.pos)
    {
      select := true;
      selectStart := Some(cursor.pos);
    }

    /** end_select: draw over the whole box (fill when painting, clear when deleting), then stop selecting. */
    method EndSelect()
      requires WorldValid(world) && selectStart.Some?
      modifies this`world, this`cursor, this`select
      ensures WorldValid(world) && !select && cursor == old(cursor)
      ensures world == CdrawCells(old(world), cursor, RegionOf(selectStart.value, cursor.pos), paint, delete, tilesets)
    {
      var _ := DoRegion(DrawCell);
      CdrawCellsOutside(old(world), cursor, RegionOf(selectStart.value, cursor.pos), paint, delete, tilesets);
      select := false;
    }

    /** start_grab: grab the selected tiles, or the tile at the cursor; nothing to grab, nothing changes. */
    method StartGrab()
      requires Valid()
      modifies this`world, this`cursor, this`grab, this`grabbed
      ensures Valid() && world == old(world) && cursor == old(cursor)
      ensures var tiles := if select then FirstTiles(world.objs, RegionOf(selectStart.value, cursor.pos))
                           else match FirstAt(world.objs, cursor.pos) case None => [] case Some(o) => [o];
        if tiles == [] then grab == old(grab) && grabbed == old(grabbed)
        else grab && grabbed == Some(GrabAll(tiles))
    {
      if select {
        var tiles := GetSelectedTiles();
        if tiles == [] {
          return;
        }
        SelectedGrabDistinct(world.objs, selectStart.value, cursor.pos);
        grabbed := Some(GrabAll(tiles));
      } else {
        var t := Tile3D();
        if t.None? {
          return;
        }
        grabbed := Some([GrabData(t.value.id, t.value.pos, t.value.rot)]);
        assert GrabAll([t.value]) == grabbed.value;
      }
      grab := true;
    }

    /**
     * end_grab: stop grabbing (drawing over a pending selection first); cancel puts
     * every grabbed tile back, commit deletes what lies under each grabbed tile. When
     * a grabbed tile has left the scene the loop raises and the grabbed tiles stay recorded.
     */
    method EndGrab(cancel: bool) returns (err: Option<PyError>)
      requires Valid() && grab
      modifies this`world, this`cursor, this`grab, this`grabbed, this`select
      ensures !grab && !select && cursor == old(cursor).(pos := cursor.pos)
      ensures (world, cursor.pos, err) ==
        GrabEnded(old(world), old(cursor), if old(select) then selectStart else None, paint, delete,
                  old(grabbed).value, cancel, tilesets)
      ensures err.None? ==> Valid() && grabbed.None?
      ensures err.Some? ==> WorldValid(world) && grabbed == old(grabbed)
    {
      grab := false;
      if select {
        EndSelect();
      }
      var items := grabbed.value;
      if cancel {
        err := MoveGrabbed(items, Restore);
      } else {
        err := CommitGrabbed(items);
      }
      if err.Some? {
        return;
      }
      grabbed := None;
    }

    /**
     * The commit loop of end_grab: at each grabbed tile's cell, delete the first other
     * tile, then put the cursor back. Reading a grabbed tile that has left the scene
     * raises, the cursor still on the cell of the tile before it.
     */
    method CommitGrabbed(items: seq<GrabData>) returns (err: Option<PyError>)
      requires WorldValid(world)
      modifies this`world, this`cursor
      ensures WorldValid(world) && cursor == old(cursor).(pos := cursor.pos)
      ensures (world, cursor.pos, err) ==
        var r := CommitRun(old(world), items, old(cursor.pos));
        if r.2.None? then (r.0, old(cursor.pos), None) else r
    {
      var origPos := cursor.pos;
      var k := 0;
      while k < |items|
        invariant 0 <= k <= |items|
        invariant cursor == old(cursor).(pos := cursor.pos)
        invariant (world, cursor.pos, None) == CommitRun(old(world), items[..k], origPos)
        invariant WorldValid(world)
      {
        var g := items[k];
        CommitRunNext(old(world), items, k, origPos, world, cursor.pos);
        var found := Find(world.objs, g.id);
        if found.None? {
          return Some(ReferenceError);
        }
        cursor := cursor.(pos := found.value.pos);
        DeleteSpecEffect(world, cursor.pos, Some(g.id));
        Delete(Some(g.id));
        k := k + 1;
      }
      assert items[..k] == items;
      cursor := cursor.(pos := origPos);
      return None;
    }

    /** copy: the selected tiles (ending the selection), or the tile at the cursor, with offsets from the cursor. */
    method Copy()
      requires Valid()
      modifies this`world, this`cursor, this`select, this`clipboard
      ensures Valid() && cursor == old(cursor)
      ensures old(select) ==>
        var cells := RegionOf(selectStart.value, cursor.pos);
        var tiles := FirstTiles(old(world).objs, cells);
        clipboard == (if tiles == [] then None else Some(ClipAll(tiles, cursor.pos))) &&
        world == CdrawCells(old(world), cursor, cells, paint, delete, tilesets) && !select
      ensures !old(select) ==>
        clipboard == (match FirstAt(world.objs, cursor.pos) case None => None case Some(o) => Some([ClipOf(o, cursor.pos)])) &&
        world == old(world) && select == old(select)
    {
      if select {
        ghost var g, gd := grab, grabbed;
        ghost var cells := RegionOf(selectStart.value, cursor.pos);
        var tiles := GetSelectedTiles();
        assert grab == g && grabbed == gd && tiles == FirstTiles(old(world).objs, cells);
        if tiles != [] {
          clipboard := Some(ClipAll(tiles, cursor.pos));
        } else {
          clipboard := None;
        }
        ghost var clip := clipboard;
        EndSelect();
        assert grab == g && grabbed == gd && clipboard == clip;
        assert cells == RegionOf(selectStart.value, cursor.pos);
      } else {
        var t := Tile3D();
        if t.Some? {
          clipboard := Some([ClipOf(t.value, cursor.pos)]);
        } else {
          clipboard := None;
        }
      }
    }

    /** paste: paint each clipboard item through a temporary cursor at its offset, then restore the cursor. */
    method Paste()
      requires Valid()
      modifies this`world, this`cursor
      ensures Valid() && cursor == old(cursor)
      ensures world == if clipboard.Some? then PasteSpec(old(world), cursor.pos, clipboard.value, tilesets) else old(world)
    {
      if clipboard.Some? {
        var items := clipboard.value;
        var k := 0;
        while k < |items|
          invariant 0 <= k <= |items| && cursor == old(cursor)
          invariant world == PaintAll(old(world), PasteCursors(cursor.pos, items[..k]), tilesets)
          invariant WorldValid(world)
        {
          var item := items[k];
          // do_with_cursor(Cursor(item.group, pos, rot), self.paint)
          var orig := cursor;
          cursor := PasteCursor(orig.pos, item);
          PaintAllEffect(world, [cursor], tilesets);
          assert PaintAll(world, [cursor], tilesets) == PaintSpec(world, cursor, tilesets);
          Paint();
          cursor := orig;
          assert PasteCursors(cursor.pos, items[..k + 1])[..k] == PasteCursors(cursor.pos, items[..k]);
          k := k + 1;
        }
        assert items[..k] == items;
      }
    }

    /** on_quit: the cursor is saved on the root object as text. */
    method OnQuit()
      modifies this`lastCursor
      ensures lastCursor == Some(Serialize(cursor))
    {
      lastCursor := Some(Serialize(cursor));
    }

    /**
     * init_root_obj: restore a saved cursor, forgetting a tile that is no longer a
     * group. ok is false where deserialize raises ValueError; the cursor is then kept.
     */
    method InitRootObj(groups: set<string>) returns (ok: bool)
      modifies this`cursor
      ensures lastCursor.None? ==> ok && cursor == old(cursor)
      ensures lastCursor.Some? ==>
        match Deserialize(lastCursor.value)
        case None => !ok && cursor == old(cursor)
        case Some(c) => ok && cursor == RestoreCursor(groups, c)
    {
      ok := true;
      if lastCursor.Some? {
        match Deserialize(lastCursor.value) {
          case None => ok := false;
          case Some(c) =>
            cursor := c;
            if cursor.tile3d.Some? && cursor.tile3d.value !in groups {
              cursor := cursor.(tile3d := None);
            }
        }
      }
    }
  }

  lemma AppendAssoc<T>(a: seq<T>, b: seq<T>, x: T)
    ensures a + (b + [x]) == (a + b) + [x]
  {
  }

  /** One more cell of a row extends the visit order by exactly that cell. */
  lemma RowCellsStep(before: seq<Cell>, lo: Cell, y: int, z: int, x: nat)
    ensures before + RowCells(lo, y, z, 0) == before
    ensures before + RowCells(lo, y, z, x + 1) == (before + RowCells(lo, y, z, x)) + [Cell(lo.x + x, lo.y + y, lo.z + z)]
  {
    var prev, cell := RowCells(lo, y, z, x), Cell(lo.x + x, lo.y + y, lo.z + z);
    assert RowCells(lo, y, z, x + 1) == prev + [cell];
    AppendAssoc(before, prev, cell);
    assert before + [] == before;
  }

  /** One more row of a plane extends the visit order by exactly that row. */
  lemma PlaneCellsStep(before: seq<Cell>, lo: Cell, nx: nat, z: int, y: nat)
    ensures before + PlaneCells(lo, nx, z, 0) == before
    ensures before + PlaneCells(lo, nx, z, y + 1) == (before + PlaneCells(lo, nx, z, y)) + RowCells(lo, y, z, nx)
  {
    var prev, row := PlaneCells(lo, nx, z, y), RowCells(lo, y, z, nx);
    assert PlaneCells(lo, nx, z, y + 1) == prev + row;
    assert before + (prev + row) == (before + prev) + row;
    assert before + [] == before;
  }
}
