// The earlier tile-map editor of tilemap3d/tilemap3d.py, the one the turtle drives. It keeps
// the active tile beside a cursor of cell and heading, grabs a single tile and
// turns it where it stands, stores a clipboard item's heading relative to the
// cursor's and turns its offset by the cursor's heading when pasting, and its
// delete(ignore) gives up when the first tile at the cursor is the ignored one.
// Objects of this editor carry no tileset (the empty name).

module TilemapLegacy {
  import opened Wrappers
  import opened Geometry
  import opened Scene
  import opened Tilemap
  import TilemapEngine

  /** Clipboard(tile3d): the group, the offset from the cursor and the heading relative to the cursor's. */
  datatype LegacyClip = LegacyClip(group: Option<string>, posOffset: Cell, rotOffset: int)

  // ---------------------------------------------------------------------
  // The effect of the edit operations on the scene
  // ---------------------------------------------------------------------

  /** Whether delete(ignore) removes something: there is a first tile and it is not the ignored one. */
  predicate Deletes(w: World, pos: Cell, ignore: Option<nat>)
  {
    var first := FirstAt(w.objs, pos);
    first.Some? && ignore != Some(first.value.id)
  }

  /** delete(ignore): the first tile at pos is removed, unless it is the ignored one. */
  function DeleteAt(w: World, pos: Cell, ignore: Option<nat>): World
  {
    match FirstAt(w.objs, pos)
    case None => w
    case Some(t) => if ignore == Some(t.id) then w else Remove(w, t.id)
  }

  /**
   * delete(ignore) removes exactly the first tile at pos when it is not the ignored
   * one and nothing otherwise (even when other tiles share the cell); no other
   * cell changes and the ignored tile is never removed.
   */
  lemma DeleteAtEffect(w: World, pos: Cell, ignore: Option<nat>)
    requires WorldValid(w)
    ensures var r := DeleteAt(w, pos, ignore);
      WorldValid(r) && r.next == w.next &&
      (!Deletes(w, pos, ignore) ==> r == w) &&
      |r.objs| == |w.objs| - (if Deletes(w, pos, ignore) then 1 else 0) &&
      (Deletes(w, pos, ignore) ==> FirstAt(w.objs, pos).value !in r.objs) &&
      (forall o :: o in r.objs ==> o in w.objs) &&
      (forall q :: q != pos ==> TilesAt(r.objs, q) == TilesAt(w.objs, q)) &&
      (ignore.Some? ==> forall o :: o in w.objs && o.id == ignore.value ==> o in r.objs)
  {
    match FirstAt(w.objs, pos) {
      case None =>
      case Some(t) =>
        if ignore != Some(t.id) {
          RemoveEffect(w, t);
        }
    }
  }

  /**
   * Where the later editor deletes the next tile behind an ignored one, this one
   * deletes nothing: two tiles in one cell, the first of them ignored.
   */
  lemma IgnoredFirstBlocks(p: Cell)
    ensures var a, b := Obj(0, Some("a"), p, 0, ""), Obj(1, Some("b"), p, 0, "");
      var w := World([a, b], 2);
      DeleteAt(w, p, Some(0)) == w && DeleteSpec(w, p, Some(0)) == World([a], 2)
  {
    IgnoredFirstKept(p);
    IgnoredNextDeleted(p);
  }

  /** The ignored tile is first in its cell, so delete(ignore) leaves the store alone. */
  lemma IgnoredFirstKept(p: Cell)
    ensures var a, b := Obj(0, Some("a"), p, 0, ""), Obj(1, Some("b"), p, 0, "");
      DeleteAt(World([a, b], 2), p, Some(0)) == World([a, b], 2)
  {
    var a, b := Obj(0, Some("a"), p, 0, ""), Obj(1, Some("b"), p, 0, "");
    assert [a, b][..1] == [a];
    assert FirstAt([a, b], p) == Some(a);
  }

  /** The later editor skips the ignored tile and removes the next one in the cell. */
  lemma IgnoredNextDeleted(p: Cell)
    ensures var a, b := Obj(0, Some("a"), p, 0, ""), Obj(1, Some("b"), p, 0, "");
      DeleteSpec(World([a, b], 2), p, Some(0)) == World([a], 2)
  {
    var a, b := Obj(0, Some("a"), p, 0, ""), Obj(1, Some("b"), p, 0, "");
    assert [a, b][..1] == [a];
    assert TilesAt([a], p) == [a];
    assert TilesAt([a, b], p) == [a, b];
    assert Without([a, b], 0) == [b] by {
      assert Without([a], 0) == [];
    }
    assert Without([a, b], 1) == [a] by {
      assert Without([a], 1) == [a];
    }
  }

  /** paint_tile(group): delete at pos, then create the group's instance there with the given heading. */
  function PaintTile(w: World, group: Option<string>, pos: Cell, rot: int): World
  {
    Place(DeleteAt(w, pos, None), group, pos, rot, "")
  }

  /**
   * paint_tile leaves the new tile last in the store at pos, replaces the cell's first
   * tile (the count grows only when the cell was empty) and no other cell changes.
   */
  lemma PaintTileEffect(w: World, group: Option<string>, pos: Cell, rot: int)
    requires WorldValid(w)
    ensures var r := PaintTile(w, group, pos, rot);
      WorldValid(r) && r.next == w.next + 1 &&
      r.objs[|r.objs| - 1] == Obj(w.next, group, pos, rot, "") &&
      |r.objs| == |w.objs| + (if Occupied(w.objs, pos) then 0 else 1) &&
      HasTile(r.objs, pos, group, rot) &&
      (forall q :: q != pos ==> TilesAt(r.objs, q) == TilesAt(w.objs, q))
  {
    var d := DeleteAt(w, pos, None);
    DeleteAtEffect(w, pos, None);
    OperationsKeepValid(d, 0, group, pos, rot, "");
    forall q | q != pos ensures TilesAt(PaintTile(w, group, pos, rot).objs, q) == TilesAt(w.objs, q) {
      PlaceOtherCell(d, group, pos, rot, "", q);
    }
    var r := PaintTile(w, group, pos, rot).objs;
    assert r[|r| - 1] in r;
  }

  /** cdraw: paint the active tile when painting (if there is one), else delete when deleting. */
  function Draw(w: World, active: Option<string>, pos: Cell, rot: int, paint: bool, delete: bool): World
  {
    if paint then (if active.Some? then PaintTile(w, active, pos, rot) else w)
    else if delete then DeleteAt(w, pos, None)
    else w
  }

  /** The scene after n forward steps of v from p, each carrying the grabbed tile and drawing at the cell reached. */
  function Stepped(w: World, grabbed: Option<seq<GrabData>>, p: Cell, v: Cell, n: nat,
                   active: Option<string>, rot: int, paint: bool, delete: bool): World
  {
    if n == 0 then w
    else Draw(GrabMoved(Stepped(w, grabbed, p, v, n - 1, active, rot, paint, delete), grabbed, Shift(v)),
              active, Advance(p, v, n), rot, paint, delete)
  }

  /**
   * translate by v from the scene and cursor cell in r: the cursor moves, then the grabbed
   * tile, then the cursor draws; reading a grabbed tile that has left the scene raises
   * ReferenceError, the cursor already moved.
   */
  function TranslateRun(r: (World, Cell, Option<PyError>), grabbed: Option<seq<GrabData>>, v: Cell,
                        active: Option<string>, rot: int, paint: bool, delete: bool): (World, Cell, Option<PyError>)
  {
    var p1 := Add(r.1, v);
    if GrabFault(r.0, grabbed).Some? then (r.0, p1, Some(ReferenceError))
    else (Draw(GrabMoved(r.0, grabbed, Shift(v)), active, p1, rot, paint, delete), p1, None)
  }

  /**
   * smart_move's forward loop of n translates by v from cell p: the scene, the cursor's
   * cell and the error raised; the first translate that raises ends it.
   */
  function WalkRun(w: World, grabbed: Option<seq<GrabData>>, p: Cell, v: Cell, n: nat,
                   active: Option<string>, rot: int, paint: bool, delete: bool): (World, Cell, Option<PyError>)
  {
    if n == 0 then (w, p, None)
    else
      var r := WalkRun(w, grabbed, p, v, n - 1, active, rot, paint, delete);
      if r.2.Some? then r else TranslateRun(r, grabbed, v, active, rot, paint, delete)
  }

  /**
   * A walk that raises nothing has stepped n cells, carrying the grabbed tile and drawing
   * at each cell as Stepped says; without a grabbed tile no walk raises.
   */
  lemma {:induction false} WalkRunClean(w: World, grabbed: Option<seq<GrabData>>, p: Cell, v: Cell, n: nat,
                                        active: Option<string>, rot: int, paint: bool, delete: bool)
    ensures var r := WalkRun(w, grabbed, p, v, n, active, rot, paint, delete);
      (grabbed.None? ==> r.2.None?) &&
      (r.2.None? ==> r.0 == Stepped(w, grabbed, p, v, n, active, rot, paint, delete) && r.1 == Advance(p, v, n))
  {
    if n > 0 {
      WalkRunClean(w, grabbed, p, v, n - 1, active, rot, paint, delete);
    }
  }

  /** Once a step raises, the walk is over: later steps change nothing. */
  lemma {:induction false} WalkRunStops(w: World, grabbed: Option<seq<GrabData>>, p: Cell, v: Cell, m: nat, n: nat,
                                        active: Option<string>, rot: int, paint: bool, delete: bool)
    requires m <= n && (m == n || WalkRun(w, grabbed, p, v, m, active, rot, paint, delete).2.Some?)
    ensures WalkRun(w, grabbed, p, v, n, active, rot, paint, delete) == WalkRun(w, grabbed, p, v, m, active, rot, paint, delete)
  {
    if m < n {
      WalkRunStops(w, grabbed, p, v, m, n - 1, active, rot, paint, delete);
    }
  }

  lemma DrawEffect(w: World, active: Option<string>, pos: Cell, rot: int, paint: bool, delete: bool)
    requires WorldValid(w)
    ensures WorldValid(Draw(w, active, pos, rot, paint, delete))
    ensures forall q :: q != pos ==> TilesAt(Draw(w, active, pos, rot, paint, delete).objs, q) == TilesAt(w.objs, q)
  {
    if paint {
      if active.Some? { PaintTileEffect(w, active, pos, rot); }
    } else if delete {
      DeleteAtEffect(w, pos, None);
    }
  }

  /** select_bounds_func(cdraw): the cursor visits each cell in turn and draws there. */
  function DrawCells(w: World, active: Option<string>, rot: int, cells: seq<Cell>, paint: bool, delete: bool): World
  {
    if cells == [] then w
    else Draw(DrawCells(w, active, rot, cells[..|cells| - 1], paint, delete), active, cells[|cells| - 1], rot, paint, delete)
  }

  /** Drawing over a list of cells leaves every other cell as it was. */
  lemma {:induction false} DrawCellsOutside(w: World, active: Option<string>, rot: int, cells: seq<Cell>,
                                            paint: bool, delete: bool)
    requires WorldValid(w)
    ensures WorldValid(DrawCells(w, active, rot, cells, paint, delete))
    ensures forall q :: q !in cells ==> TilesAt(DrawCells(w, active, rot, cells, paint, delete).objs, q) == TilesAt(w.objs, q)
  {
    if cells != [] {
      var init := cells[..|cells| - 1];
      DrawCellsOutside(w, active, rot, init, paint, delete);
      DrawEffect(DrawCells(w, active, rot, init, paint, delete), active, cells[|cells| - 1], rot, paint, delete);
      assert forall x :: x in init ==> x in cells;
    }
  }

  /** Painting over distinct cells leaves the active tile, turned to the cursor's heading, in each of them. */
  lemma {:induction false} FillCells(w: World, active: string, rot: int, cells: seq<Cell>, delete: bool)
    requires WorldValid(w) && NoDuplicates(cells)
    ensures forall k :: 0 <= k < |cells| ==>
      HasTile(DrawCells(w, Some(active), rot, cells, true, delete).objs, cells[k], Some(active), rot)
  {
    if cells != [] {
      var init, last := cells[..|cells| - 1], cells[|cells| - 1];
      assert NoDuplicates(init);
      FillCells(w, active, rot, init, delete);
      var prev := DrawCells(w, Some(active), rot, init, true, delete);
      DrawCellsOutside(w, Some(active), rot, init, true, delete);
      var r := PaintTile(prev, Some(active), last, rot);
      assert r == DrawCells(w, Some(active), rot, cells, true, delete);
      PaintTileEffect(prev, Some(active), last, rot);
      forall k | 0 <= k < |cells| ensures HasTile(r.objs, cells[k], Some(active), rot) {
        if k < |init| {
          assert cells[k] == init[k] && cells[k] != last;
          HasTileKept(prev.objs, r.objs, cells[k], Some(active), rot);
        }
      }
    }
  }

  /** A cell whose tiles are unchanged still has the tiles it had. */
  lemma HasTileKept(s: Store, t: Store, p: Cell, group: Option<string>, rot: int)
    requires TilesAt(t, p) == TilesAt(s, p) && HasTile(s, p, group, rot)
    ensures HasTile(t, p, group, rot)
  {
    var o :| o in s && o.pos == p && o.group == group && o.rot == rot;
    assert o in TilesAt(s, p);
  }

  /** Deleting over distinct cells empties each cell that held at most one tile. */
  lemma {:induction false} ClearCells(w: World, active: Option<string>, rot: int, cells: seq<Cell>)
    requires WorldValid(w) && NoDuplicates(cells)
    requires forall k :: 0 <= k < |cells| ==> |TilesAt(w.objs, cells[k])| <= 1
    ensures forall k :: 0 <= k < |cells| ==> !Occupied(DrawCells(w, active, rot, cells, false, true).objs, cells[k])
  {
    if cells != [] {
      var init, last := cells[..|cells| - 1], cells[|cells| - 1];
      assert NoDuplicates(init);
      ClearCells(w, active, rot, init);
      var prev := DrawCells(w, active, rot, init, false, true);
      DrawCellsOutside(w, active, rot, init, false, true);
      assert last !in init;
      var r := DeleteAt(prev, last, None);
      assert DrawCells(w, active, rot, cells, false, true) == r;
      DeleteAtEmpties(prev, last);
      forall k | 0 <= k < |cells| ensures !Occupied(r.objs, cells[k]) {
        if k < |init| {
          assert cells[k] == init[k] && cells[k] != last;
          assert TilesAt(r.objs, cells[k]) == TilesAt(prev.objs, cells[k]);
        }
      }
    }
  }

  /** Deleting at a cell that holds at most one tile empties it; no other cell changes. */
  lemma DeleteAtEmpties(w: World, p: Cell)
    requires WorldValid(w) && |TilesAt(w.objs, p)| <= 1
    ensures !Occupied(DeleteAt(w, p, None).objs, p)
    ensures forall q :: q != p ==> TilesAt(DeleteAt(w, p, None).objs, q) == TilesAt(w.objs, q)
  {
    DeleteAtEffect(w, p, None);
    if Occupied(w.objs, p) {
      var x := FirstAt(w.objs, p).value;
      assert TilesAt(w.objs, p) == [x];
      assert DeleteAt(w, p, None) == Remove(w, x.id);
      TilesAtWithout(w.objs, x.id, p);
      assert Without([x], x.id) == [];
    }
  }

  /** The tile painted by paste for one clipboard item, the cursor at `at` with heading rot. */
  function PasteItem(w: World, at: Cell, rot: int, item: LegacyClip): World
    requires IsQuarter(rot)
  {
    PaintTile(w, item.group, Add(at, RotateZ(rot, item.posOffset)), rot + item.rotOffset)
  }

  /** The cells paste paints: each item's offset turned by the heading, from `at`. */
  function PasteCells(at: Cell, rot: int, items: seq<LegacyClip>): (r: seq<Cell>)
    requires IsQuarter(rot)
    ensures |r| == |items|
    ensures forall k :: 0 <= k < |items| ==> r[k] == Add(at, RotateZ(rot, items[k].posOffset))
  {
    if items == [] then [] else PasteCells(at, rot, items[..|items| - 1]) + [Add(at, RotateZ(rot, items[|items| - 1].posOffset))]
  }

  /** paste: each clipboard item painted in turn. */
  function PasteAll(w: World, at: Cell, rot: int, items: seq<LegacyClip>): World
    requires IsQuarter(rot)
  {
    if items == [] then w else PasteItem(PasteAll(w, at, rot, items[..|items| - 1]), at, rot, items[|items| - 1])
  }

  /** Clipboard(tile3d) for the cursor at pos with heading rot. */
  function ClipOfTile(t: Obj, pos: Cell, rot: int): LegacyClip
  {
    LegacyClip(t.group, Sub(t.pos, pos), t.rot - rot)
  }

  function ClipTiles(tiles: seq<Obj>, pos: Cell, rot: int): (r: seq<LegacyClip>)
    ensures |r| == |tiles|
    ensures forall k :: 0 <= k < |tiles| ==> r[k] == ClipOfTile(tiles[k], pos, rot)
  {
    if tiles == [] then [] else ClipTiles(tiles[..|tiles| - 1], pos, rot) + [ClipOfTile(tiles[|tiles| - 1], pos, rot)]
  }

  /**
   * Pasting straight after copying the tile under the cursor, whatever the heading,
   * replaces it with a tile of the same group and heading: the count is kept.
   */
  lemma CopyPasteInPlace(w: World, pos: Cell, rot: int)
    requires WorldValid(w) && IsQuarter(rot) && FirstAt(w.objs, pos).Some?
    ensures var t := FirstAt(w.objs, pos).value;
      var r := PasteAll(w, pos, rot, [ClipOfTile(t, pos, rot)]);
      |r.objs| == |w.objs| && HasTile(r.objs, pos, t.group, t.rot)
  {
    var t := FirstAt(w.objs, pos).value;
    var item := ClipOfTile(t, pos, rot);
    assert [item][..0] == [];
    assert item.posOffset == Cell(0, 0, 0);
    assert RotateZ(rot, Cell(0, 0, 0)) == Cell(0, 0, 0) by {
      RotateZLinear(rot, Cell(0, 0, 0), Cell(0, 0, 0));
    }
    assert Add(pos, Cell(0, 0, 0)) == pos;
    PaintTileEffect(w, t.group, pos, t.rot);
  }

  /** Pasting a clipboard changes no cell but those its items' turned offsets reach. */
  lemma {:induction false} PasteAllEffect(w: World, at: Cell, rot: int, items: seq<LegacyClip>)
    requires WorldValid(w) && IsQuarter(rot)
    ensures WorldValid(PasteAll(w, at, rot, items))
    ensures PasteAll(w, at, rot, items).next == w.next + |items|
    ensures forall q :: q !in PasteCells(at, rot, items) ==>
      TilesAt(PasteAll(w, at, rot, items).objs, q) == TilesAt(w.objs, q)
  {
    if items != [] {
      var init := items[..|items| - 1];
      PasteAllEffect(w, at, rot, init);
      var item := items[|items| - 1];
      var prev := PasteAll(w, at, rot, init);
      var cell := Add(at, RotateZ(rot, item.posOffset));
      var r := PaintTile(prev, item.group, cell, rot + item.rotOffset);
      assert PasteAll(w, at, rot, items) == r;
      PaintTileEffect(prev, item.group, cell, rot + item.rotOffset);
      var cells := PasteCells(at, rot, items);
      assert cells == PasteCells(at, rot, init) + [cell];
      forall q | q !in cells ensures TilesAt(r.objs, q) == TilesAt(w.objs, q) {
        assert q != cell && q !in PasteCells(at, rot, init);
      }
    }
  }

  // ---------------------------------------------------------------------
  // The editor
  // ---------------------------------------------------------------------

  class Tilemap3D {
    var world: World
    /** active_tile3d: the group painting creates. */
    var active: Option<string>
    /** cursor.pos and cursor.rot (degrees). */
    var pos: Cell
    var rot: int
    var paint: bool
    var delete: bool
    var grab: bool
    var select: bool
    var selectStart: Option<Cell>
    var grabbed: Option<GrabData>
    var clipboard: Option<seq<LegacyClip>>

    /** Identities are distinct, grabbing holds exactly when a tile is grabbed, a selection has a start cell. */
    predicate Valid()
      reads this
    {
      WorldValid(world) && (grab <==> grabbed.Some?) && (select ==> selectStart.Some?)
    }

    constructor()
      ensures Valid() && world == World([], 0) && active.None? && pos == Cell(0, 0, 0) && rot == 0
      ensures !paint && !delete && !grab && !select
      ensures selectStart.None? && grabbed.None? && clipboard.None?
    {
      world := World([], 0);
      active := None;
      pos, rot := Cell(0, 0, 0), 0;
      paint, delete, grab, select := false, false, false, false;
      selectStart, grabbed, clipboard := None, None, None;
    }

    /** get_tile3d: the first tile at the cursor. */
    function Tile3D(): (r: Option<Obj>)
      reads this
      ensures r.Some? ==> r.value in world.objs && r.value.pos == pos
      ensures r.None? <==> !Occupied(world.objs, pos)
    {
      FirstAt(world.objs, pos)
    }

    method Delete(ignore: Option<nat>)
      modifies this`world
      ensures world == DeleteAt(old(world), pos, ignore)
    {
      var t := Tile3D();
      if t.Some? {
        if ignore.Some? && t.value.id == ignore.value {
          return;
        }
        world := Remove(world, t.value.id);
      }
    }

    /** paint_tile(group): delete at the cursor, then create the tile there with the cursor's heading. */
    method PaintTileHere(group: Option<string>, heading: int)
      modifies this`world
      ensures world == PaintTile(old(world), group, pos, heading)
    {
      Delete(None);
      world := Place(world, group, pos, heading, "");
    }

    method Paint()
      modifies this`world
      ensures world == if active.Some? then PaintTile(old(world), active, pos, rot) else old(world)
    {
      if active.Some? {
        PaintTileHere(active, rot);
      }
    }

    method Cdraw()
      modifies this`world
      ensures world == Draw(old(world), active, pos, rot, paint, delete)
    {
      if paint {
        Paint();
      } else if delete {
        Delete(None);
      }
    }

    /**
     * rotate: turn the cursor, then the grabbed tile where it stands, then draw; a grabbed
     * tile gone from the scene raises after the cursor has turned.
     */
    method Rotate(deg: int) returns (err: Option<PyError>)
      requires Valid()
      modifies this`world, this`rot
      ensures Valid() && rot == old(rot) + deg
      ensures err == GrabFault(old(world), if grab then Some([grabbed.value]) else None)
      ensures err.None? ==>
        world == Draw(GrabMoved(old(world), if grab then Some([grabbed.value]) else None, Turn(deg)),
                      active, pos, rot, paint, delete)
      ensures err.Some? ==> world == old(world)
    {
      rot := rot + deg;
      if grab {
        if Find(world.objs, grabbed.value.id).None? {
          return Some(ReferenceError);
        }
        MoveItemsKeepsValid(world, [grabbed.value], Turn(deg));
        world := GrabMoved(world, Some([grabbed.value]), Turn(deg));
      }
      DrawEffect(world, active, pos, rot, paint, delete);
      Cdraw();
      return None;
    }

    /**
     * translate: move the cursor by (x, y, z) turned to its heading, then the grabbed tile,
     * then draw; a grabbed tile gone from the scene raises after the cursor has moved.
     */
    method Translate(x: int, y: int, z: int) returns (err: Option<PyError>)
      requires Valid() && IsQuarter(rot)
      modifies this`world, this`pos
      ensures Valid()
      ensures (world, pos, err) == TranslateRun((old(world), old(pos), None), if grab then Some([grabbed.value]) else None,
                                                RotateZ(rot, Cell(x, y, z)), active, rot, paint, delete)
    {
      var vec := RotateZ(rot, Cell(x, y, z));
      pos := Add(pos, vec);
      if grab {
        if Find(world.objs, grabbed.value.id).None? {
          return Some(ReferenceError);
        }
        MoveItemsKeepsValid(world, [grabbed.value], Shift(vec));
        world := GrabMoved(world, Some([grabbed.value]), Shift(vec));
      }
      DrawEffect(world, active, pos, rot, paint, delete);
      Cdraw();
      return None;
    }

    /**
     * smart_move(x, y, repeat) along an axis: facing (x, y) already, step forward repeat
     * times, each step moving the cursor by exactly (x, y, 0); otherwise only turn to face it.
     */
    method SmartMove(x: int, y: int, repeat: int) returns (err: Option<PyError>)
      requires Valid() && AxisAligned(x, y) && IsQuarter(rot)
      modifies this`world, this`pos, this`rot
      ensures Valid() && rot == NormalizedXYToZrot(x, y)
      ensures old(rot) == NormalizedXYToZrot(x, y) ==>
        (world, pos, err) == WalkRun(old(world), if grab then Some([grabbed.value]) else None, old(pos), Cell(x, y, 0),
                                     Max(repeat, 0), active, rot, paint, delete)
      ensures old(rot) == NormalizedXYToZrot(x, y) && err.None? ==> pos == Advance(old(pos), Cell(x, y, 0), Max(repeat, 0))
      ensures old(rot) != NormalizedXYToZrot(x, y) ==>
        pos == old(pos) && err == GrabFault(old(world), if grab then Some([grabbed.value]) else None) &&
        world == if err.Some? then old(world)
                 else Draw(GrabMoved(old(world), if grab then Some([grabbed.value]) else None,
                                     Turn(NormalizedXYToZrot(x, y) - old(rot))), active, pos, rot, paint, delete)
    {
      var heading := NormalizedXYToZrot(x, y);
      if rot == heading {
        err := Walk(x, y, repeat);
      } else {
        err := Rotate(heading - rot);
      }
    }

    /**
     * The loop of smart_move when already facing (x, y): repeat steps of exactly (x, y, 0);
     * the first step that raises ends it.
     */
    method Walk(x: int, y: int, repeat: int) returns (err: Option<PyError>)
      requires Valid() && AxisAligned(x, y) && rot == NormalizedXYToZrot(x, y)
      modifies this`world, this`pos
      ensures Valid()
      ensures (world, pos, err) == WalkRun(old(world), if grab then Some([grabbed.value]) else None, old(pos),
                                           Cell(x, y, 0), Max(repeat, 0), active, rot, paint, delete)
      ensures err.None? ==> pos == Advance(old(pos), Cell(x, y, 0), Max(repeat, 0))
    {
      WalkRunClean(world, if grab then Some([grabbed.value]) else None, pos, Cell(x, y, 0), Max(repeat, 0),
                   active, rot, paint, delete);
      // round(magnitude(x, y)) of an axis vector
      var mag := Abs(x) + Abs(y);
      HeadingStep(x, y);
      err := Repeat(mag, Cell(x, y, 0), repeat);
    }

    /** for i in range(repeat): translate(0, mag, 0), which the heading turns into the step v. */
    method Repeat(mag: int, v: Cell, repeat: int) returns (err: Option<PyError>)
      requires Valid() && IsQuarter(rot) && RotateZ(rot, Cell(0, mag, 0)) == v
      modifies this`world, this`pos
      ensures Valid()
      ensures (world, pos, err) == WalkRun(old(world), if grab then Some([grabbed.value]) else None, old(pos),
                                           v, Max(repeat, 0), active, rot, paint, delete)
    {
      var p0 := pos;
      ghost var w0, g := world, if grab then Some([grabbed.value]) else None;
      var i := 0;
      err := None;
      while i < repeat && err.None?
        invariant Valid() && 0 <= i <= Max(repeat, 0)
        invariant (world, pos, err) == WalkRun(w0, g, p0, v, i, active, rot, paint, delete)
      {
        err := Translate(0, mag, 0);
        i := i + 1;
      }
      WalkRunStops(w0, g, p0, v, i, Max(repeat, 0), active, rot, paint, delete);
    }

    /** start_grab: grab the tile at the cursor; on an empty cell nothing changes. */
    method StartGrab()
      requires Valid()
      modifies this`grab, this`grabbed
      ensures Valid()
      ensures match Tile3D()
        case None => grab == old(grab) && grabbed == old(grabbed)
        case Some(t) => grab && grabbed == Some(GrabData(t.id, t.pos, t.rot))
    {
      var t := Tile3D();
      if t.None? {
        return;
      }
      grab := true;
      grabbed := Some(GrabData(t.value.id, t.value.pos, t.value.rot));
    }

    /**
     * end_grab: cancel puts the tile back as it was; commit deletes the first other tile at
     * the cursor. Cancelling a grabbed tile that has left the scene raises, the tile still recorded.
     */
    method EndGrab(cancel: bool) returns (err: Option<PyError>)
      requires Valid() && grab
      modifies this`world, this`grab, this`grabbed
      ensures !grab && WorldValid(world)
      ensures err == if cancel then GrabFault(old(world), Some([old(grabbed).value])) else None
      ensures err.None? ==> Valid() && grabbed.None?
      ensures err.None? && cancel ==> world == GrabMoved(old(world), Some([old(grabbed).value]), Restore)
      ensures !cancel ==> world == DeleteAt(old(world), pos, Some(old(grabbed).value.id))
      ensures err.Some? ==> world == old(world) && grabbed == old(grabbed)
    {
      grab := false;
      var g := grabbed.value;
      if cancel {
        if Find(world.objs, g.id).None? {
          return Some(ReferenceError);
        }
        MoveItemsKeepsValid(world, [g], Restore);
        world := GrabMoved(world, Some([g]), Restore);
      } else {
        DeleteAtEffect(world, pos, Some(g.id));
        Delete(Some(g.id));
      }
      grabbed := None;
      return None;
    }

    /** What select_bounds_func has done after visiting the given cells, from scene w0. */
    ghost predicate Visited(func: TilemapEngine.RegionFunc, w0: World, visited: seq<Cell>, found: seq<Obj>)
      reads this
    {
      (func.DrawCell? ==> world == DrawCells(w0, active, rot, visited, paint, delete) && found == []) &&
      (func.CollectTile? ==> world == w0 && found == FirstTiles(w0.objs, visited))
    }

    /** One call of func with the cursor at cell. */
    method VisitCell(func: TilemapEngine.RegionFunc, cell: Cell, ghost w0: World, ghost visited: seq<Cell>,
                     found: seq<Obj>) returns (found': seq<Obj>)
      requires Visited(func, w0, visited, found)
      modifies this`world, this`pos
      ensures Visited(func, w0, visited + [cell], found')
    {
      pos := cell;
      assert (visited + [cell])[..|visited|] == visited;
      found' := found;
      match func {
        case DrawCell => Cdraw();
        case CollectTile =>
          var t := Tile3D();
          if t.Some? {
            found' := found + [t.value];
          }
      }
    }

    /** The innermost loop: the cells of one row, x ascending. */
    method VisitRow(func: TilemapEngine.RegionFunc, lo: Cell, y: int, z: int, nx: nat, ghost w0: World,
                    ghost before: seq<Cell>, found: seq<Obj>) returns (found': seq<Obj>)
      requires Visited(func, w0, before, found)
      modifies this`world, this`pos
      ensures Visited(func, w0, before + RowCells(lo, y, z, nx), found')
    {
      found' := found;
      TilemapEngine.RowCellsStep(before, lo, y, z, 0);
      var x := 0;
      while x < nx
        invariant 0 <= x <= nx
        invariant Visited(func, w0, before + RowCells(lo, y, z, x), found')
      {
        var cell := Cell(lo.x + x, lo.y + y, lo.z + z);
        found' := VisitCell(func, cell, w0, before + RowCells(lo, y, z, x), found');
        TilemapEngine.RowCellsStep(before, lo, y, z, x);
        x := x + 1;
      }
    }

    /** The middle loop: the rows of one plane, y ascending. */
    method VisitPlane(func: TilemapEngine.RegionFunc, lo: Cell, z: int, nx: nat, ny: nat, ghost w0: World,
                      ghost before: seq<Cell>, found: seq<Obj>) returns (found': seq<Obj>)
      requires Visited(func, w0, before, found)
      modifies this`world, this`pos
      ensures Visited(func, w0, before + PlaneCells(lo, nx, z, ny), found')
    {
      found' := found;
      TilemapEngine.PlaneCellsStep(before, lo, nx, z, 0);
      var y := 0;
      while y < ny
        invariant 0 <= y <= ny
        invariant Visited(func, w0, before + PlaneCells(lo, nx, z, y), found')
      {
        found' := VisitRow(func, lo, y, z, nx, w0, before + PlaneCells(lo, nx, z, y), found');
        TilemapEngine.PlaneCellsStep(before, lo, nx, z, y);
        y := y + 1;
      }
    }

    /**
     * select_bounds_func: run func with the cursor at each cell of the selection box
     * (z, then y, then x ascending), then put the cursor back.
     */
    method SelectBoundsFunc(func: TilemapEngine.RegionFunc) returns (found: seq<Obj>)
      requires selectStart.Some?
      modifies this`world, this`pos
      ensures pos == old(pos)
      ensures Visited(func, old(world), RegionOf(selectStart.value, old(pos)), found)
    {
      var orig := pos;
      var bounds := SelectCubeBounds(selectStart.value, pos);
      var lo, hi := bounds.0, bounds.1;
      var nx, ny, nz := Extent(lo.x, hi.x), Extent(lo.y, hi.y), Extent(lo.z, hi.z);
      ghost var w0 := world;
      found := [];
      var z := 0;
      while z < nz
        invariant 0 <= z <= nz
        invariant Visited(func, w0, BoxCells(lo, nx, ny, z), found)
      {
        found := VisitPlane(func, lo, z, nx, ny, w0, BoxCells(lo, nx, ny, z), found);
        z := z + 1;
      }
      assert BoxCells(lo, nx, ny, nz) == RegionOf(selectStart.value, orig);
      pos := orig;
    }

    method GetSelectedTiles() returns (tiles: seq<Obj>)
      requires selectStart.Some?
      modifies this`world, this`pos
      ensures pos == old(pos) && world == old(world)
      ensures tiles == FirstTiles(world.objs, RegionOf(selectStart.value, pos))
    {
      tiles := SelectBoundsFunc(TilemapEngine.CollectTile);
    }

    method StartSelect()
      modifies this`select, this`selectStart
      ensures select && selectStart == Some(pos)
    {
      select := true;
      selectStart := Some(pos);
    }

    /** end_select: draw over the whole box (fill when painting, clear when deleting), then stop selecting. */
    method EndSelect()
      requires WorldValid(world) && selectStart.Some?
      modifies this`world, this`pos, this`select
      ensures WorldValid(world) && !select && pos == old(pos) && grab == old(grab) && grabbed == old(grabbed)
      ensures world == DrawCells(old(world), active, rot, RegionOf(selectStart.value, pos), paint, delete)
    {
      var _ := SelectBoundsFunc(TilemapEngine.DrawCell);
      DrawCellsOutside(old(world), active, rot, RegionOf(selectStart.value, pos), paint, delete);
      select := false;
    }

    /** copy: the selected tiles (ending the selection), or the tile at the cursor; None when there are none. */
    method Copy()
      requires Valid()
      modifies this`world, this`pos, this`select, this`clipboard
      ensures Valid() && pos == old(pos)
      ensures old(select) ==>
        var cells := RegionOf(selectStart.value, pos);
        var tiles := FirstTiles(old(world).objs, cells);
        clipboard == (if tiles == [] then None else Some(ClipTiles(tiles, pos, rot))) &&
        world == DrawCells(old(world), active, rot, cells, paint, delete) && !select
      ensures !old(select) ==>
        clipboard == (match FirstAt(world.objs, pos) case None => None case Some(t) => Some([ClipOfTile(t, pos, rot)])) &&
        world == old(world) && select == old(select)
    {
      if select {
        CopySelected();
      } else {
        CopyAtCursor();
      }
    }

    /** copy while selecting: the tiles of the box, then end_select. */
    method CopySelected()
      requires Valid() && select
      modifies this`world, this`pos, this`select, this`clipboard
      ensures Valid()
      ensures pos == old(pos) && !select
      ensures var tiles := FirstTiles(old(world).objs, RegionOf(selectStart.value, pos));
        clipboard == if tiles == [] then None else Some(ClipTiles(tiles, pos, rot))
      ensures world == DrawCells(old(world), active, rot, RegionOf(selectStart.value, pos), paint, delete)
    {
      var tiles := GetSelectedTiles();
      if tiles != [] {
        clipboard := Some(ClipTiles(tiles, pos, rot));
      } else {
        clipboard := None;
      }
      EndSelect();
    }

    /** copy without a selection: the tile at the cursor, if any. */
    method CopyAtCursor()
      modifies this`clipboard
      ensures clipboard == (match FirstAt(world.objs, pos) case None => None case Some(t) => Some([ClipOfTile(t, pos, rot)]))
    {
      var t := Tile3D();
      if t.Some? {
        clipboard := Some([ClipOfTile(t.value, pos, rot)]);
      } else {
        clipboard := None;
      }
    }

    /**
     * paste: move the cursor to each item's offset turned by the heading, paint the
     * item's group there with the item's heading added to the cursor's, then restore the cursor.
     */
    method Paste()
      requires Valid() && IsQuarter(rot)
      modifies this`world, this`pos
      ensures Valid() && pos == old(pos)
      ensures world == if clipboard.Some? then PasteAll(old(world), pos, rot, clipboard.value) else old(world)
    {
      if clipboard.Some? {
        var orig := pos;
        PasteItems(orig, clipboard.value);
        PasteAllEffect(old(world), orig, rot, clipboard.value);
        pos := orig;
      }
    }

    /** The loop of paste over the clipboard items, the cursor's original cell being orig. */
    method PasteItems(orig: Cell, items: seq<LegacyClip>)
      requires IsQuarter(rot)
      modifies this`world, this`pos
      ensures world == PasteAll(old(world), orig, rot, items)
    {
      ghost var w0 := world;
      var k := 0;
      while k < |items|
        invariant 0 <= k <= |items|
        invariant world == PasteAll(w0, orig, rot, items[..k])
      {
        var item := items[k];
        pos := Add(orig, RotateZ(rot, item.posOffset));
        // paint_tile(item.group), then new.rot = cursor heading + rot_offset
        PaintTileHere(item.group, rot + item.rotOffset);
        assert items[..k + 1][..k] == items[..k] && items[..k + 1][k] == item;
        k := k + 1;
      }
      assert items[..k] == items;
    }
  }

  /**
   * start_grab, any turns and translations, then end_grab(cancel=True) with painting
   * and deleting off: the scene is as it was before the grab.
   */
  lemma GrabTurnCancel(w: World, t: Obj, moves: seq<Move>)
    requires WorldValid(w) && t in w.objs
    requires forall k :: 0 <= k < |moves| ==> moves[k].Turn? || moves[k].Shift?
    ensures var g := [GrabData(t.id, t.pos, t.rot)];
      MoveItems(MoveAll(w.objs, g, moves), g, Restore) == w.objs
  {
    assert GrabAll([t]) == [GrabData(t.id, t.pos, t.rot)];
    GrabThenCancel(w.objs, [t], moves);
  }
}
