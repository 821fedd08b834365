// The older modular building tool (modular_building_tool.py): library meshes
// are sorted into module groups by their MBT_type property, and each group
// has a painter that resolves what a stroke at a grid cell does to the
// modules already there (thin and thick overwrites, room walls chosen from
// the neighbours, dithering, cycling through a group's modules). This module
// holds those painters as functions on values; module BuildingEditor builds
// the tool's edit operations on top of them.

module ModularBuilding {
  import opened Wrappers
  import opened Geometry

  // ---------------------------------------------------------------------
  // Meshes, placed modules and the scene
  // ---------------------------------------------------------------------

  /** A library mesh: its name and its MBT_type, the name of the group it belongs to. */
  datatype Mesh = Mesh(name: string, group: string)

  /** A placed module: an object using mesh, at a grid cell, turned rot degrees about Z. */
  datatype Piece = Piece(id: nat, mesh: Mesh, pos: Cell, rot: int)

  /** The children of the root object together with the next identity to hand out. */
  datatype World = World(pieces: seq<Piece>, next: nat)

  /** Identities are distinct and all below the next one to be handed out. */
  predicate WorldValid(w: World)
  {
    (forall i, j :: 0 <= i < j < |w.pieces| ==> w.pieces[i].id != w.pieces[j].id) &&
    (forall x :: x in w.pieces ==> x.id < w.next)
  }

  /** ModuleFinder.get_modules_at on whole cells: the pieces at pos, in scene order. */
  function At(ps: seq<Piece>, pos: Cell): (r: seq<Piece>)
    ensures forall x :: x in r <==> x in ps && x.pos == pos
    ensures |r| <= |ps|
  {
    if ps == [] then []
    else if ps[|ps| - 1].pos == pos then At(ps[..|ps| - 1], pos) + [ps[|ps| - 1]]
    else At(ps[..|ps| - 1], pos)
  }

  /** The pieces without the one whose identity is id (bpy.data.objects.remove). */
  function Without(ps: seq<Piece>, id: nat): (r: seq<Piece>)
    ensures forall x :: x in r <==> x in ps && x.id != id
    ensures |r| <= |ps|
  {
    if ps == [] then []
    else if ps[|ps| - 1].id == id then Without(ps[..|ps| - 1], id)
    else Without(ps[..|ps| - 1], id) + [ps[|ps| - 1]]
  }

  /** The pieces that are not at pos: what clear (delete_objects of get_modules) leaves. */
  function Outside(ps: seq<Piece>, pos: Cell): (r: seq<Piece>)
    ensures forall x :: x in r <==> x in ps && x.pos != pos
    ensures |r| <= |ps|
  {
    if ps == [] then []
    else if ps[|ps| - 1].pos == pos then Outside(ps[..|ps| - 1], pos)
    else Outside(ps[..|ps| - 1], pos) + [ps[|ps| - 1]]
  }

  /** The piece whose identity is id, if the scene still holds it. */
  function Find(ps: seq<Piece>, id: nat): (r: Option<Piece>)
    ensures r.Some? ==> r.value in ps && r.value.id == id
    ensures r.None? ==> forall x :: x in ps ==> x.id != id
  {
    if ps == [] then None
    else if ps[|ps| - 1].id == id then Some(ps[|ps| - 1])
    else Find(ps[..|ps| - 1], id)
  }

  /** The pieces with piece id put at pos and turned to rot; nothing else changes. */
  function Reset(ps: seq<Piece>, id: nat, pos: Cell, rot: int): (r: seq<Piece>)
    ensures |r| == |ps|
    ensures forall i :: 0 <= i < |ps| ==>
      r[i] == if ps[i].id == id then ps[i].(pos := pos, rot := rot) else ps[i]
  {
    if ps == [] then []
    else
      var last := ps[|ps| - 1];
      Reset(ps[..|ps| - 1], id, pos, rot) + [if last.id == id then last.(pos := pos, rot := rot) else last]
  }

  /** create_cube at pos turned rot, with its data replaced by mesh: a new piece at the end. */
  function Place(w: World, mesh: Mesh, pos: Cell, rot: int): (r: World)
    ensures r.pieces == w.pieces + [Piece(w.next, mesh, pos, rot)]
    ensures r.next == w.next + 1
    ensures WorldValid(w) ==> WorldValid(r)
  {
    World(w.pieces + [Piece(w.next, mesh, pos, rot)], w.next + 1)
  }

  function Remove(w: World, id: nat): (r: World)
    ensures forall x :: x in r.pieces <==> x in w.pieces && x.id != id
    ensures r.next == w.next
    ensures WorldValid(w) ==> WorldValid(r)
  {
    if WorldValid(w) then (WithoutKeepsDistinct(w.pieces, id); World(Without(w.pieces, id), w.next))
    else World(Without(w.pieces, id), w.next)
  }

  function Cleared(w: World, pos: Cell): (r: World)
    ensures forall x :: x in r.pieces <==> x in w.pieces && x.pos != pos
    ensures r.next == w.next
    ensures WorldValid(w) ==> WorldValid(r)
  {
    if WorldValid(w) then (OutsideKeepsDistinct(w.pieces, pos); World(Outside(w.pieces, pos), w.next))
    else World(Outside(w.pieces, pos), w.next)
  }

  lemma {:induction false} WithoutKeepsDistinct(ps: seq<Piece>, id: nat)
    requires forall i, j :: 0 <= i < j < |ps| ==> ps[i].id != ps[j].id
    ensures forall i, j :: 0 <= i < j < |Without(ps, id)| ==> Without(ps, id)[i].id != Without(ps, id)[j].id
    decreases |ps|
  {
    if ps != [] {
      var init := ps[..|ps| - 1];
      WithoutKeepsDistinct(init, id);
      var r := Without(ps, id);
      if ps[|ps| - 1].id != id {
        var r0 := Without(init, id);
        assert r == r0 + [ps[|ps| - 1]];
        forall i, j | 0 <= i < j < |r| ensures r[i].id != r[j].id {
          if j == |r| - 1 && i < j {
            assert r[i] in r0;
            var k :| 0 <= k < |init| && init[k] == r[i];
            assert ps[k] == r[i];
          }
        }
      }
    }
  }

  lemma {:induction false} OutsideKeepsDistinct(ps: seq<Piece>, pos: Cell)
    requires forall i, j :: 0 <= i < j < |ps| ==> ps[i].id != ps[j].id
    ensures forall i, j :: 0 <= i < j < |Outside(ps, pos)| ==> Outside(ps, pos)[i].id != Outside(ps, pos)[j].id
    decreases |ps|
  {
    if ps != [] {
      var init := ps[..|ps| - 1];
      OutsideKeepsDistinct(init, pos);
      var r := Outside(ps, pos);
      if ps[|ps| - 1].pos != pos {
        var r0 := Outside(init, pos);
        assert r == r0 + [ps[|ps| - 1]];
        forall i, j | 0 <= i < j < |r| ensures r[i].id != r[j].id {
          if j == |r| - 1 && i < j {
            assert r[i] in r0;
            var k :| 0 <= k < |init| && init[k] == r[i];
            assert ps[k] == r[i];
          }
        }
      }
    }
  }

  /** With distinct identities, removing one identity removes at most one piece. */
  lemma {:induction false} WithoutCount(ps: seq<Piece>, id: nat)
    requires forall i, j :: 0 <= i < j < |ps| ==> ps[i].id != ps[j].id
    ensures |Without(ps, id)| >= |ps| - 1
    ensures (exists x :: x in ps && x.id == id) ==> |Without(ps, id)| == |ps| - 1
    ensures (forall x :: x in ps ==> x.id != id) ==> Without(ps, id) == ps
  {
    if ps != [] {
      var init, last := ps[..|ps| - 1], ps[|ps| - 1];
      assert ps == init + [last];
      WithoutCount(init, id);
      if last.id == id {
        assert Without(ps, id) == Without(init, id);
        forall x | x in init ensures x.id != id {
          var i :| 0 <= i < |init| && init[i] == x;
          assert ps[i] == x;
        }
        assert Without(init, id) == init;
      } else {
        assert Without(ps, id) == Without(init, id) + [last];
        if exists x :: x in ps && x.id == id {
          var x :| x in ps && x.id == id;
          assert x in init;
        }
      }
    }
  }

  lemma AtAppend(ps: seq<Piece>, x: Piece, pos: Cell)
    ensures At(ps + [x], pos) == At(ps, pos) + (if x.pos == pos then [x] else [])
  {
    assert (ps + [x])[..|ps + [x]| - 1] == ps;
  }

  // ---------------------------------------------------------------------
  // Module groups
  // ---------------------------------------------------------------------

  /**
   * A ModuleGroup as the painters see it: its name, its modules (the room
   * group holds three None placeholders), the active index, whether it is
   * thin (several may share a cell, one per heading) and whether its painter
   * is the RoomPainter.
   */
  datatype GroupInfo = GroupInfo(name: string, modules: seq<Option<Mesh>>, active: int, thin: bool, room: bool)

  /** The index of the group called name: module_groups[name]. */
  function Lookup(gs: seq<GroupInfo>, name: string): (r: Option<nat>)
    ensures r.Some? ==> r.value < |gs| && gs[r.value].name == name
    ensures r.None? ==> forall i :: 0 <= i < |gs| ==> gs[i].name != name
  {
    if gs == [] then None
    else if gs[0].name == name then Some(0)
    else match Lookup(gs[1..], name)
      case None => None
      case Some(k) => Some(k + 1)
  }

  /** Whether the group called name is thin. */
  predicate Thin(gs: seq<GroupInfo>, name: string)
  {
    Lookup(gs, name).Some? && gs[Lookup(gs, name).value].thin
  }

  /** The active index never passes the end, and only the room group keeps -1 with modules present. */
  predicate GroupValid(g: GroupInfo)
  {
    g.active < |g.modules| && (g.modules != [] ==> -1 <= g.active)
  }

  /**
   * Every mesh of a group has that group as its type (init_modules sorts them
   * so) and the wall group is thin (init_module_groups makes it so).
   */
  predicate GroupsFormed(gs: seq<GroupInfo>)
  {
    (forall i, j :: 0 <= i < |gs| && 0 <= j < |gs[i].modules| && gs[i].modules[j].Some? ==>
      gs[i].modules[j].value.group == gs[i].name) &&
    Thin(gs, "wall")
  }

  /** ModuleGroup.active_module: the module at active, None while active is negative. */
  function ActiveModule(g: GroupInfo): (r: Result<Option<Mesh>, PyError>)
    ensures r.Err? <==> g.active >= |g.modules|
    ensures GroupValid(g) ==> r.Ok?
    ensures r.Ok? && r.value.Some? ==> r.value in g.modules
  {
    if g.active < 0 then Ok(None)
    else if g.active < |g.modules| then Ok(g.modules[g.active])
    else Err(IndexError)
  }

  /** ModuleGroup.add_module: the mesh is appended and the first module becomes active. */
  function Added(g: GroupInfo, m: Mesh): (r: GroupInfo)
    ensures r.modules == g.modules + [Some(m)] && r.active == 0
    ensures r.name == g.name && r.thin == g.thin && r.room == g.room
    ensures GroupValid(r)
  {
    g.(modules := g.modules + [Some(m)], active := 0)
  }

  /** After add_module the active module is the group's first one. */
  lemma AddedActivatesFirst(g: GroupInfo, m: Mesh)
    ensures ActiveModule(Added(g, m)) == Ok(Added(g, m).modules[0])
    ensures g.modules == [] ==> ActiveModule(Added(g, m)) == Ok(Some(m))
  {
  }

  /**
   * handle_cycle_module(i) on the active group: nothing when the group has at
   * most i modules, otherwise active moves by i modulo the module count. On an
   * empty group with i < 0 the addition happens and the modulo raises.
   */
  function Cycled(g: GroupInfo, i: int): (r: (GroupInfo, Option<PyError>))
    ensures r.0.modules == g.modules && r.0.name == g.name && r.0.thin == g.thin && r.0.room == g.room
    ensures |g.modules| <= i ==> r == (g, None)
    ensures r.1.Some? <==> |g.modules| == 0 && i < 0
    ensures |g.modules| > 0 && |g.modules| > i ==> 0 <= r.0.active < |g.modules|
    ensures GroupValid(g) && (i < 0 || |g.modules| > 0) ==> GroupValid(r.0)
  {
    if |g.modules| <= i then (g, None)
    else if |g.modules| == 0 then (g.(active := g.active + i), Some(ZeroDivisionError))
    else (g.(active := (g.active + i) % |g.modules|), None)
  }

  /** Cycling forward and then back returns to the module that was active. */
  lemma CycleForwardBack(g: GroupInfo)
    requires 1 < |g.modules| && 0 <= g.active < |g.modules|
    ensures Cycled(Cycled(g, 1).0, -1) == (g, None)
  {
    var n := |g.modules|;
    var g1 := g.(active := (g.active + 1) % n);
    assert Cycled(g, 1) == (g1, None);
    StepBackMod(g.active, n);
    assert Cycled(g1, -1) == (g, None);
  }

  lemma StepBackMod(a: int, n: int)
    requires 0 <= a < n
    ensures ((a + 1) % n - 1) % n == a
  {
    if a + 1 < n {
      assert (a + 1) / n == 0;
      assert a / n == 0;
    } else {
      assert (a + 1) / n == 1;
      assert (-1) / n == -1;
    }
  }

  /** Cycling backwards on a group without modules raises ZeroDivisionError and leaves active at -2 from -1. */
  lemma CycleBackOnEmptyRaises(name: string, thin: bool)
    ensures Cycled(GroupInfo(name, [], -1, thin, false), -1) == (GroupInfo(name, [], -2, thin, false), Some(ZeroDivisionError))
  {
  }

  /**
   * RoomPainter.dither: the module at (x + y + z) modulo the number of modules,
   * None for a group without modules.
   */
  function Dither(g: GroupInfo, pos: Cell): (r: Option<Mesh>)
    ensures r.Some? ==> r in g.modules
    ensures g.modules != [] ==> r == g.modules[(pos.x + pos.y + pos.z) % |g.modules|]
  {
    if |g.modules| > 0 then g.modules[(pos.x + pos.y + pos.z) % |g.modules|] else None
  }

  /** Along a row the dither pattern steps to the next module, wrapping at the end. */
  lemma DitherSteps(g: GroupInfo, pos: Cell, k: nat)
    requires g.modules != [] && k < |g.modules|
    requires (pos.x + pos.y + pos.z) % |g.modules| == k
    ensures Dither(g, Add(pos, Cell(1, 0, 0))) == g.modules[(k + 1) % |g.modules|]
  {
    NextRemainder(pos.x + pos.y + pos.z, |g.modules|, k);
    assert Add(pos, Cell(1, 0, 0)).x + pos.y + pos.z == pos.x + pos.y + pos.z + 1;
  }

  lemma NextRemainder(s: int, n: int, k: int)
    requires n > 0 && s % n == k
    ensures (s + 1) % n == (k + 1) % n
  {
    var q := s / n;
    assert s == n * q + k;
    if k + 1 < n {
      ModUnique(s + 1, n, q, k + 1);
      ModUnique(k + 1, n, 0, k + 1);
    } else {
      assert n * (q + 1) == n * q + n;
      ModUnique(s + 1, n, q + 1, 0);
      ModUnique(k + 1, n, 1, 0);
    }
  }

  /** The remainder is the one r in [0, n) with a = n q + r. */
  lemma ModUnique(a: int, n: int, q: int, r: int)
    requires n > 0 && 0 <= r < n && a == n * q + r
    ensures a % n == r
  {
    var q' := a / n;
    var r' := a % n;
    var d := q - q';
    assert n * q == n * q' + n * d;
    assert n * d == r' - r;
    if d > 0 {
      MulAtLeast(n, d);
    } else if d < 0 {
      MulAtLeast(n, -d);
    }
  }

  lemma {:induction false} MulAtLeast(n: int, d: int)
    requires n > 0 && d > 0
    ensures n * d >= n
  {
    if d > 1 {
      MulAtLeast(n, d - 1);
      assert n * d == n * (d - 1) + n;
    }
  }

  /**
   * RoomPainter.room_get_module(kind): room_modes[active] of the room group,
   * with Python's negative indexing. Mode 0 takes the active module of the
   * group called kind, mode 1 (weighted_random) has no weights without
   * metadata, mode 2 dithers.
   */
  function RoomModule(gs: seq<GroupInfo>, room: GroupInfo, kind: string, pos: Cell): (r: Result<Option<Mesh>, PyError>)
    ensures PyIndex(3, room.active).None? ==> r == Err(IndexError)
    ensures PyIndex(3, room.active) == Some(1) ==> r == Ok(None)
    ensures r.Ok? && r.value.Some? ==> Lookup(gs, kind).Some? && r.value in gs[Lookup(gs, kind).value].modules
  {
    match PyIndex(3, room.active)
    case None => Err(IndexError)
    case Some(mode) =>
      if mode == 1 || Lookup(gs, kind).None? then Ok(None)
      else
        var g := gs[Lookup(gs, kind).value];
        if mode == 0 then ActiveModule(g) else Ok(Dither(g, pos))
  }

  /** A fresh room group uses the last mode, dither, until it is cycled. */
  lemma FreshRoomDithers(gs: seq<GroupInfo>, kind: string, pos: Cell, k: nat)
    requires Lookup(gs, kind) == Some(k)
    ensures RoomModule(gs, GroupInfo("room", [None, None, None], -1, false, true), kind, pos) == Ok(Dither(gs[k], pos))
  {
  }

  // ---------------------------------------------------------------------
  // on_paint_at: a new or moved module replaces at most one module
  // ---------------------------------------------------------------------

  /**
   * Whether on_paint_at(pos, rot, m) deletes x: same group, another object,
   * and for a thin group the same heading in rot_conv's terms.
   */
  predicate Replaces(x: Piece, m: Piece, rot: int, thin: bool)
  {
    x.mesh.group == m.mesh.group && x.id != m.id && (!thin || RotConv(x.rot as real) == rot)
  }

  /** The index of the first piece of dest that m replaces. */
  function FirstReplaced(dest: seq<Piece>, m: Piece, rot: int, thin: bool): (r: Option<nat>)
    ensures r.Some? ==> r.value < |dest| && Replaces(dest[r.value], m, rot, thin)
    ensures r.Some? ==> forall j :: 0 <= j < r.value ==> !Replaces(dest[j], m, rot, thin)
    ensures r.None? ==> forall j :: 0 <= j < |dest| ==> !Replaces(dest[j], m, rot, thin)
  {
    if dest == [] then None
    else if Replaces(dest[0], m, rot, thin) then Some(0)
    else match FirstReplaced(dest[1..], m, rot, thin)
      case None => None
      case Some(k) => Some(k + 1)
  }

  /** on_paint_at(pos, rot, m): delete the first module at pos that m replaces, if any. */
  function OnPaintAt(w: World, pos: Cell, rot: int, m: Piece, gs: seq<GroupInfo>): (r: World)
    ensures r.next == w.next
    ensures forall x :: x in r.pieces ==> x in w.pieces
    ensures WorldValid(w) ==> WorldValid(r) && |r.pieces| >= |w.pieces| - 1
    ensures WorldValid(w) ==>
      forall x :: x in w.pieces && !(x.pos == pos && Replaces(x, m, rot, Thin(gs, m.mesh.group))) ==> x in r.pieces
    ensures (forall x :: x in w.pieces && x.pos == pos ==> !Replaces(x, m, rot, Thin(gs, m.mesh.group))) ==> r == w
  {
    var dest := At(w.pieces, pos);
    match FirstReplaced(dest, m, rot, Thin(gs, m.mesh.group))
    case None =>
      assert forall x :: x in w.pieces && x.pos == pos ==> !Replaces(x, m, rot, Thin(gs, m.mesh.group)) by {
        forall x | x in w.pieces && x.pos == pos ensures !Replaces(x, m, rot, Thin(gs, m.mesh.group)) {
          assert x in dest;
          var j :| 0 <= j < |dest| && dest[j] == x;
        }
      }
      w
    case Some(k) =>
      assert dest[k] in w.pieces;
      if WorldValid(w) then (WithoutCount(w.pieces, dest[k].id); RemoveOnly(w, dest[k]); Remove(w, dest[k].id))
      else Remove(w, dest[k].id)
  }

  /** With distinct identities, removing a piece's identity removes that piece alone. */
  lemma RemoveOnly(w: World, y: Piece)
    requires WorldValid(w) && y in w.pieces
    ensures forall x :: x in w.pieces && x != y ==> x in Remove(w, y.id).pieces
  {
    forall x | x in w.pieces && x != y ensures x in Remove(w, y.id).pieces {
      if x.id == y.id { SameIdSamePiece(w, x, y); }
    }
  }

  /** A piece whose identity is not in use: two pieces with that identity are the same piece. */
  lemma SameIdSamePiece(w: World, x: Piece, y: Piece)
    requires WorldValid(w) && x in w.pieces && y in w.pieces && x.id == y.id
    ensures x == y
  {
    var i :| 0 <= i < |w.pieces| && w.pieces[i] == x;
    var j :| 0 <= j < |w.pieces| && w.pieces[j] == y;
    if i < j { } else if j < i { }
  }

  /**
   * create_obj(mesh) at the cursor, then on_paint: the new piece, checked
   * against the modules at the cursor with its own heading normalised by
   * rot_conv (on_paint at lines 744-745 passes the raw cursor_rot instead).
   */
  function Created(w: World, mesh: Mesh, pos: Cell, rot: int, gs: seq<GroupInfo>): (r: World)
    ensures Piece(w.next, mesh, pos, rot) in r.pieces
    ensures r.next == w.next + 1
    ensures WorldValid(w) ==> WorldValid(r)
  {
    var m := Piece(w.next, mesh, pos, rot);
    OnPaintAt(Place(w, mesh, pos, rot), pos, RotConv(rot as real), m, gs)
  }

  /** create_obj as written: on_paint hands on_paint_at the unnormalised cursor_rot. */
  function CreatedAsWritten(w: World, mesh: Mesh, pos: Cell, rot: int, gs: seq<GroupInfo>): (r: World)
    ensures Piece(w.next, mesh, pos, rot) in r.pieces
    ensures r.next == w.next + 1
  {
    var m := Piece(w.next, mesh, pos, rot);
    OnPaintAt(Place(w, mesh, pos, rot), pos, rot, m, gs)
  }

  /**
   * Two pieces that on_paint_at means never to share a cell: same cell, same
   * group, and for a thin group the same heading modulo 360.
   */
  predicate Clash(a: Piece, b: Piece, gs: seq<GroupInfo>)
  {
    a.pos == b.pos && a.mesh.group == b.mesh.group &&
    (!Thin(gs, a.mesh.group) || RotConv(a.rot as real) == RotConv(b.rot as real))
  }

  /** No two pieces clash: a thick cell holds one module per group, a thin one one per heading. */
  predicate NoStacking(w: World, gs: seq<GroupInfo>)
  {
    forall a, b :: a in w.pieces && b in w.pieces && a.id != b.id ==> !Clash(a, b, gs)
  }

  /** Painting a module keeps every cell free of stacked duplicates. */
  lemma CreatedKeepsNoStacking(w: World, mesh: Mesh, pos: Cell, rot: int, gs: seq<GroupInfo>)
    requires WorldValid(w) && NoStacking(w, gs)
    ensures NoStacking(Created(w, mesh, pos, rot, gs), gs)
  {
    var n := Piece(w.next, mesh, pos, rot);
    var p := Place(w, mesh, pos, rot);
    var r := Created(w, mesh, pos, rot, gs);
    var thin := Thin(gs, mesh.group);
    forall a, b | a in r.pieces && b in r.pieces && a.id != b.id
      ensures !Clash(a, b, gs)
    {
      assert a in p.pieces && b in p.pieces;
      if a == n || b == n {
        var o := if a == n then b else a;
        assert o in w.pieces;
        if Clash(a, b, gs) {
          assert Replaces(o, n, RotConv(rot as real), thin);
          var dest := At(p.pieces, pos);
          var k := FirstReplaced(dest, n, RotConv(rot as real), thin);
          if k.Some? {
            var x := dest[k.value];
            assert x in p.pieces && x != o;
            assert x in w.pieces by { assert x.id != n.id; }
            assert Clash(x, o, gs);
          }
        }
      }
    }
  }

  // A wall painted at -90 degrees over a wall already facing -90 degrees.
  const StackWall := Mesh("w", "wall")
  const StackGroups := [GroupInfo("wall", [Some(StackWall)], 0, true, false)]
  const OldWall := Piece(0, StackWall, Cell(0, 0, 0), -90)
  const NewWall := Piece(1, StackWall, Cell(0, 0, 0), -90)

  /**
   * As written the second wall stacks on the first (on_paint compares the raw -90
   * with the stored 270); normalising both headings, it replaces the first.
   */
  lemma StackedWallAsWritten()
    ensures WorldValid(World([OldWall], 1)) && NoStacking(World([OldWall], 1), StackGroups)
    ensures CreatedAsWritten(World([OldWall], 1), StackWall, Cell(0, 0, 0), -90, StackGroups).pieces == [OldWall, NewWall]
    ensures !NoStacking(CreatedAsWritten(World([OldWall], 1), StackWall, Cell(0, 0, 0), -90, StackGroups), StackGroups)
    ensures Created(World([OldWall], 1), StackWall, Cell(0, 0, 0), -90, StackGroups).pieces == [NewWall]
  {
    StackedWallStacks();
    StackedWallReplaced();
  }

  /** The headings involved: -90 normalises to 270, and walls are thin. */
  lemma StackHeadings()
    ensures RotConv(-90 as real) == 270 && Thin(StackGroups, "wall")
    ensures !Replaces(OldWall, NewWall, -90, true) && Replaces(OldWall, NewWall, 270, true)
    ensures Place(World([OldWall], 1), StackWall, Cell(0, 0, 0), -90).pieces == [OldWall, NewWall]
  {
    RoundWhole(-90);
  }

  lemma StackedWallStacks()
    ensures CreatedAsWritten(World([OldWall], 1), StackWall, Cell(0, 0, 0), -90, StackGroups).pieces == [OldWall, NewWall]
    ensures !NoStacking(CreatedAsWritten(World([OldWall], 1), StackWall, Cell(0, 0, 0), -90, StackGroups), StackGroups)
  {
    StackHeadings();
    var p := Place(World([OldWall], 1), StackWall, Cell(0, 0, 0), -90);
    forall x | x in p.pieces && x.pos == Cell(0, 0, 0) ensures !Replaces(x, NewWall, -90, Thin(StackGroups, "wall")) {
      assert x == OldWall || x == NewWall;
    }
    assert CreatedAsWritten(World([OldWall], 1), StackWall, Cell(0, 0, 0), -90, StackGroups) == p;
    assert Clash(OldWall, NewWall, StackGroups);
  }

  lemma StackedWallReplaced()
    ensures Created(World([OldWall], 1), StackWall, Cell(0, 0, 0), -90, StackGroups).pieces == [NewWall]
  {
    StackHeadings();
    var p := Place(World([OldWall], 1), StackWall, Cell(0, 0, 0), -90);
    assert At(p.pieces, Cell(0, 0, 0)) == [OldWall, NewWall] by {
      assert p.pieces[..1] == [OldWall];
      assert [OldWall][..0] == [];
    }
    assert FirstReplaced([OldWall, NewWall], NewWall, 270, true) == Some(0);
    assert Created(World([OldWall], 1), StackWall, Cell(0, 0, 0), -90, StackGroups) == Remove(p, 0);
    assert Without([OldWall, NewWall], 0) == [NewWall] by {
      assert [OldWall, NewWall][..1] == [OldWall];
      assert [OldWall][..0] == [];
    }
  }

  /** Python's round of a whole number of degrees is that number. */
  lemma RoundWhole(k: int)
    ensures RoundHalfEven(k as real) == k
    ensures RotConv(k as real) == k % 360
  {
    assert (k as real).Floor == k;
  }

  /** Pieces elsewhere than the removed identity's cell keep their order at every other cell. */
  lemma {:induction false} AtWithout(ps: seq<Piece>, id: nat, q: Cell)
    requires forall y :: y in ps && y.id == id ==> y.pos != q
    ensures At(Without(ps, id), q) == At(ps, q)
  {
    if ps != [] {
      var init := ps[..|ps| - 1];
      assert forall y :: y in init ==> y in ps;
      AtWithout(init, id, q);
      if ps[|ps| - 1].id != id {
        AtAppend(Without(init, id), ps[|ps| - 1], q);
      }
    }
  }

  lemma {:induction false} AtOutside(ps: seq<Piece>, pos: Cell, q: Cell)
    requires q != pos
    ensures At(Outside(ps, pos), q) == At(ps, q)
  {
    if ps != [] {
      var init := ps[..|ps| - 1];
      AtOutside(init, pos, q);
      if ps[|ps| - 1].pos != pos {
        AtAppend(Outside(init, pos), ps[|ps| - 1], q);
      }
    }
  }

  /** on_paint_at only ever deletes at its own cell. */
  lemma OnPaintAtLocal(w: World, pos: Cell, rot: int, m: Piece, gs: seq<GroupInfo>, q: Cell)
    requires WorldValid(w) && q != pos
    ensures At(OnPaintAt(w, pos, rot, m, gs).pieces, q) == At(w.pieces, q)
  {
    var dest := At(w.pieces, pos);
    var k := FirstReplaced(dest, m, rot, Thin(gs, m.mesh.group));
    if k.Some? {
      var x := dest[k.value];
      assert x in w.pieces;
      forall y | y in w.pieces && y.id == x.id ensures y.pos != q {
        SameIdSamePiece(w, x, y);
      }
      AtWithout(w.pieces, x.id, q);
    }
  }

  /** Creating a module at pos leaves every other cell as it was. */
  lemma CreatedLocal(w: World, mesh: Mesh, pos: Cell, rot: int, gs: seq<GroupInfo>, q: Cell)
    requires WorldValid(w) && q != pos
    ensures At(Created(w, mesh, pos, rot, gs).pieces, q) == At(w.pieces, q)
  {
    var p := Place(w, mesh, pos, rot);
    AtAppend(w.pieces, Piece(w.next, mesh, pos, rot), q);
    OnPaintAtLocal(p, pos, RotConv(rot as real), Piece(w.next, mesh, pos, rot), gs, q);
  }

  /** When nothing at pos is replaced, the new module joins the end of the cell's list. */
  lemma CreatedAppends(w: World, mesh: Mesh, pos: Cell, rot: int, gs: seq<GroupInfo>)
    requires forall x :: x in w.pieces && x.pos == pos ==>
      !Replaces(x, Piece(w.next, mesh, pos, rot), RotConv(rot as real), Thin(gs, mesh.group))
    ensures Created(w, mesh, pos, rot, gs) == Place(w, mesh, pos, rot)
    ensures At(Created(w, mesh, pos, rot, gs).pieces, pos) == At(w.pieces, pos) + [Piece(w.next, mesh, pos, rot)]
  {
    AtAppend(w.pieces, Piece(w.next, mesh, pos, rot), pos);
  }

  // ---------------------------------------------------------------------
  // Painter.delete
  // ---------------------------------------------------------------------

  /**
   * Whether Painter.delete of group g takes x: same group, and for a thin
   * group round(degrees(rotation)) equal to the cursor heading.
   */
  predicate Deletes(x: Piece, g: GroupInfo, rot: int)
  {
    x.mesh.group == g.name && (!g.thin || RoundHalfEven(x.rot as real) == rot)
  }

  function FirstDeleted(dest: seq<Piece>, g: GroupInfo, rot: int): (r: Option<nat>)
    ensures r.Some? ==> r.value < |dest| && Deletes(dest[r.value], g, rot)
    ensures r.Some? ==> forall j :: 0 <= j < r.value ==> !Deletes(dest[j], g, rot)
    ensures r.None? ==> forall j :: 0 <= j < |dest| ==> !Deletes(dest[j], g, rot)
  {
    if dest == [] then None
    else if Deletes(dest[0], g, rot) then Some(0)
    else match FirstDeleted(dest[1..], g, rot)
      case None => None
      case Some(k) => Some(k + 1)
  }

  /** Painter.delete at pos with cursor heading rot: the first module at pos it takes, if any. */
  function DeletedAt(w: World, pos: Cell, rot: int, g: GroupInfo): (r: World)
    ensures r.next == w.next
    ensures forall x :: x in r.pieces ==> x in w.pieces
    ensures (forall x :: x in w.pieces && x.pos == pos ==> !Deletes(x, g, rot)) ==> r == w
    ensures WorldValid(w) ==> WorldValid(r)
  {
    var dest := At(w.pieces, pos);
    match FirstDeleted(dest, g, rot)
    case None =>
      assert forall x :: x in w.pieces && x.pos == pos ==> !Deletes(x, g, rot) by {
        forall x | x in w.pieces && x.pos == pos ensures !Deletes(x, g, rot) {
          assert x in dest;
          var j :| 0 <= j < |dest| && dest[j] == x;
        }
      }
      w
    case Some(k) =>
      assert dest[k] in w.pieces;
      Remove(w, dest[k].id)
  }

  /**
   * When some module at pos matches, Painter.delete removes exactly one piece:
   * the first match in the cell's list.
   */
  lemma DeletedRemovesFirstMatch(w: World, pos: Cell, rot: int, g: GroupInfo, k: nat)
    requires WorldValid(w) && FirstDeleted(At(w.pieces, pos), g, rot) == Some(k)
    ensures var x := At(w.pieces, pos)[k];
      x in w.pieces && Deletes(x, g, rot) &&
      (forall j :: 0 <= j < k ==> !Deletes(At(w.pieces, pos)[j], g, rot)) &&
      (forall y :: y in DeletedAt(w, pos, rot, g).pieces <==> y in w.pieces && y != x) &&
      |DeletedAt(w, pos, rot, g).pieces| == |w.pieces| - 1
  {
    var x := At(w.pieces, pos)[k];
    assert x in w.pieces;
    WithoutCount(w.pieces, x.id);
    RemoveOnly(w, x);
  }

  /**
   * Painting a module into a cell without modules of its group and then
   * deleting with the same group and heading gives the scene back.
   */
  lemma PaintThenDelete(w: World, m: Mesh, pos: Cell, rot: int, gs: seq<GroupInfo>, g: GroupInfo)
    requires WorldValid(w) && g.name == m.group
    requires forall x :: x in w.pieces && x.pos == pos ==> x.mesh.group != m.group
    ensures DeletedAt(Created(w, m, pos, rot, gs), pos, rot, g).pieces == w.pieces
  {
    var n := Piece(w.next, m, pos, rot);
    CreatedAppends(w, m, pos, rot, gs);
    var c := Created(w, m, pos, rot, gs);
    var before := At(w.pieces, pos);
    assert At(c.pieces, pos) == before + [n];
    RoundWhole(rot);
    forall j | 0 <= j < |before| ensures !Deletes(before[j], g, rot) {
      assert before[j] in before;
    }
    FirstDeletedLast(before, n, g, rot);
    assert c.pieces == w.pieces + [n];
    WithoutLast(w.pieces, n);
  }

  lemma {:induction false} FirstDeletedLast(a: seq<Piece>, n: Piece, g: GroupInfo, rot: int)
    requires Deletes(n, g, rot) && forall j :: 0 <= j < |a| ==> !Deletes(a[j], g, rot)
    ensures FirstDeleted(a + [n], g, rot) == Some(|a|)
  {
    if a != [] {
      assert (a + [n])[1..] == a[1..] + [n];
      FirstDeletedLast(a[1..], n, g, rot);
    }
  }

  /** Removing the identity of a piece just appended, when no other piece has it, gives the scene back. */
  lemma WithoutLast(ps: seq<Piece>, n: Piece)
    requires forall x :: x in ps ==> x.id != n.id
    ensures Without(ps + [n], n.id) == ps
  {
    assert (ps + [n])[..|ps|] == ps;
    WithoutNone(ps, n.id);
  }

  lemma {:induction false} WithoutNone(ps: seq<Piece>, id: nat)
    requires forall x :: x in ps ==> x.id != id
    ensures Without(ps, id) == ps
  {
    if ps != [] {
      var init := ps[..|ps| - 1];
      assert forall x :: x in init ==> x in ps;
      WithoutNone(init, id);
      assert ps == init + [ps[|ps| - 1]];
    }
  }

  // ---------------------------------------------------------------------
  // RoomPainter
  // ---------------------------------------------------------------------

  /** ADJACENCY_VECTORS: +X, -X, +Y, -Y, +Z, -Z. */
  const Adjacent: seq<Cell> := [Cell(1, 0, 0), Cell(-1, 0, 0), Cell(0, 1, 0), Cell(0, -1, 0), Cell(0, 0, 1), Cell(0, 0, -1)]

  /** The heading room_paint gives the wall towards horizontal neighbour i: normalized_XY_to_Zrot of its vector. */
  function WallHeading(i: nat): (deg: int)
    requires i < 4
    ensures IsQuarter(deg)
  {
    NormalizedXYToZrot(Adjacent[i].x, Adjacent[i].y)
  }

  /** Each wall heading points at its neighbour: one step forward along it reaches that neighbour. */
  lemma WallFacesNeighbour(i: nat)
    requires i < 4
    ensures Add(Cell(0, 0, 0), Forward(WallHeading(i), 1)) == Adjacent[i]
  {
    HeadingForward(Adjacent[i].x, Adjacent[i].y);
  }

  /** The four wall headings are four different directions once normalised by rot_conv. */
  lemma WallHeadingsApart(i: nat, j: nat)
    requires i < 4 && j < 4 && i != j
    ensures RotConv(WallHeading(i) as real) != RotConv(WallHeading(j) as real)
  {
    RoundWhole(WallHeading(i));
    RoundWhole(WallHeading(j));
    assert [WallHeading(0), WallHeading(1), WallHeading(2), WallHeading(3)] == [-90, 90, 0, -180];
  }

  /** The world, the cursor heading and the exception, if any, after painting. */
  datatype Painted = Painted(world: World, rot: int, raised: Option<PyError>)

  /** adjacent_occupied: whether each neighbour, in ADJACENCY_VECTORS order, holds a module. */
  function Occupancy(ps: seq<Piece>, pos: Cell): (r: seq<bool>)
    ensures |r| == 6
  {
    seq(6, i requires 0 <= i < 6 => At(ps, Add(pos, Adjacent[i])) != [])
  }

  /** The wall loop of room_paint over the first k neighbours (+X, -X, +Y, -Y). */
  function WallsPainted(w: World, pos: Cell, occ: seq<bool>, wall: Result<Option<Mesh>, PyError>,
                        gs: seq<GroupInfo>, rot: int, k: nat): (r: Painted)
    requires |occ| == 6 && k <= 4
    ensures WorldValid(w) ==> WorldValid(r.world)
    ensures IsQuarter(rot) ==> IsQuarter(r.rot)
  {
    if k == 0 then Painted(w, rot, None)
    else
      var p := WallsPainted(w, pos, occ, wall, gs, rot, k - 1);
      if p.raised.Some? || occ[k - 1] then p
      else
        var h := WallHeading(k - 1);
        match wall
        case Err(e) => Painted(p.world, h, Some(e))
        case Ok(None) => Painted(p.world, h, None)
        case Ok(Some(m)) => Painted(Created(p.world, m, pos, h, gs), h, None)
  }

  /** The floor or the ceiling step of room_paint, made at the heading the walls left. */
  function Layer(p: Painted, pos: Cell, occupied: bool, choice: Result<Option<Mesh>, PyError>, gs: seq<GroupInfo>): (r: Painted)
    ensures r.rot == p.rot
    ensures WorldValid(p.world) ==> WorldValid(r.world)
  {
    if p.raised.Some? || occupied then p
    else match choice
      case Err(e) => p.(raised := Some(e))
      case Ok(None) => p
      case Ok(Some(m)) => p.(world := Created(p.world, m, pos, p.rot, gs))
  }

  /**
   * room_paint at pos: clear the cell, a wall towards each free horizontal
   * neighbour, a floor when below is free, a ceiling when above is free, then
   * the cursor heading put back (an exception leaves the heading it had).
   */
  function RoomPainted(w: World, pos: Cell, rot: int, gs: seq<GroupInfo>, room: GroupInfo): (r: Painted)
    ensures r.raised.None? ==> r.rot == rot
    ensures IsQuarter(rot) ==> IsQuarter(r.rot)
    ensures WorldValid(w) ==> WorldValid(r.world)
  {
    var c := Cleared(w, pos);
    var occ := Occupancy(c.pieces, pos);
    var p := WallsPainted(c, pos, occ, RoomModule(gs, room, "wall", pos), gs, rot, 4);
    var f := Layer(p, pos, occ[5], RoomModule(gs, room, "floor", pos), gs);
    var q := Layer(f, pos, occ[4], RoomModule(gs, room, "ceiling", pos), gs);
    if q.raised.Some? then q else q.(rot := rot)
  }

  /** The loop of repaint_adjacent over the first k neighbours: room_paint at each occupied one. */
  function Repainted(w: World, pos: Cell, occ: seq<bool>, rot: int, gs: seq<GroupInfo>, room: GroupInfo, k: nat): (r: Painted)
    requires |occ| == 6 && k <= 6
    ensures r.raised.None? ==> r.rot == rot
    ensures IsQuarter(rot) ==> IsQuarter(r.rot)
    ensures WorldValid(w) ==> WorldValid(r.world)
  {
    if k == 0 then Painted(w, rot, None)
    else
      var p := Repainted(w, pos, occ, rot, gs, room, k - 1);
      if p.raised.Some? || !occ[k - 1] then p
      else RoomPainted(p.world, Add(pos, Adjacent[k - 1]), p.rot, gs, room)
  }

  /** repaint_adjacent: every neighbour occupied at the start is painted as a room again. */
  function RepaintedAdjacent(w: World, pos: Cell, rot: int, gs: seq<GroupInfo>, room: GroupInfo): (r: Painted)
    ensures r.raised.None? ==> r.rot == rot
    ensures IsQuarter(rot) ==> IsQuarter(r.rot)
    ensures WorldValid(w) ==> WorldValid(r.world)
  {
    Repainted(w, pos, Occupancy(w.pieces, pos), rot, gs, room, 6)
  }

  /** RoomPainter.paint: room_paint, then repaint_adjacent. */
  function RoomPaint(w: World, pos: Cell, rot: int, gs: seq<GroupInfo>, room: GroupInfo): (r: Painted)
    ensures r.raised.None? ==> r.rot == rot
    ensures IsQuarter(rot) ==> IsQuarter(r.rot)
    ensures WorldValid(w) ==> WorldValid(r.world)
  {
    var p := RoomPainted(w, pos, rot, gs, room);
    if p.raised.Some? then p else RepaintedAdjacent(p.world, pos, p.rot, gs, room)
  }

  /** RoomPainter.delete: clear, then repaint_adjacent. */
  function RoomDelete(w: World, pos: Cell, rot: int, gs: seq<GroupInfo>, room: GroupInfo): (r: Painted)
    ensures r.raised.None? ==> r.rot == rot
    ensures IsQuarter(rot) ==> IsQuarter(r.rot)
    ensures WorldValid(w) ==> WorldValid(r.world)
  {
    RepaintedAdjacent(Cleared(w, pos), pos, rot, gs, room)
  }

  // ---------------------------------------------------------------------
  // What room_paint leaves in the cell
  // ---------------------------------------------------------------------

  /** The mesh and heading of each piece, in order. */
  function Layout(ps: seq<Piece>): (r: seq<(Mesh, int)>)
    ensures |r| == |ps|
  {
    if ps == [] then [] else Layout(ps[..|ps| - 1]) + [(ps[|ps| - 1].mesh, ps[|ps| - 1].rot)]
  }

  lemma LayoutAppend(ps: seq<Piece>, x: Piece)
    ensures Layout(ps + [x]) == Layout(ps) + [(x.mesh, x.rot)]
  {
    assert (ps + [x])[..|ps|] == ps;
  }

  /** The walls of the first k neighbours: one facing each free neighbour, when there is a wall module. */
  function WallPlan(occ: seq<bool>, wall: Option<Mesh>, k: nat): (r: seq<(Mesh, int)>)
    requires |occ| == 6 && k <= 4
  {
    if k == 0 then []
    else WallPlan(occ, wall, k - 1) + (if !occ[k - 1] && wall.Some? then [(wall.value, WallHeading(k - 1))] else [])
  }

  /** The heading the wall loop leaves on the cursor: that of the last free neighbour, or rot. */
  function LastHeading(occ: seq<bool>, rot: int, k: nat): int
    requires |occ| == 6 && k <= 4
  {
    if k == 0 then rot else if !occ[k - 1] then WallHeading(k - 1) else LastHeading(occ, rot, k - 1)
  }

  /**
   * The cell room_paint builds, as (mesh, heading) pairs in creation order:
   * the walls, then a floor when below is free, then a ceiling when above is
   * free, the last two at the heading of the last wall.
   */
  function RoomPlan(occ: seq<bool>, wall: Option<Mesh>, floor: Option<Mesh>, ceiling: Option<Mesh>, rot: int): seq<(Mesh, int)>
    requires |occ| == 6
  {
    var h := LastHeading(occ, rot, 4);
    WallPlan(occ, wall, 4) +
    (if !occ[5] && floor.Some? then [(floor.value, h)] else []) +
    (if !occ[4] && ceiling.Some? then [(ceiling.value, h)] else [])
  }

  /** The plan holds a wall with heading h exactly when h faces a free horizontal neighbour. */
  lemma {:induction false} WallPlanFaces(occ: seq<bool>, m: Mesh, k: nat, e: (Mesh, int))
    requires |occ| == 6 && k <= 4
    ensures e in WallPlan(occ, Some(m), k) <==> e.0 == m && exists i :: 0 <= i < k && !occ[i] && e.1 == WallHeading(i)
  {
    if k > 0 {
      WallPlanFaces(occ, m, k - 1, e);
      if e.0 == m && e.1 == WallHeading(k - 1) && !occ[k - 1] {
        assert e in WallPlan(occ, Some(m), k);
      }
    }
  }

  /** A module room_get_module hands out belongs to the group it was asked for. */
  lemma ChosenBelongs(gs: seq<GroupInfo>, room: GroupInfo, kind: string, pos: Cell)
    requires GroupsFormed(gs)
    requires RoomModule(gs, room, kind, pos).Ok? && RoomModule(gs, room, kind, pos).value.Some?
    ensures RoomModule(gs, room, kind, pos).value.value.group == kind
  {
    var k := Lookup(gs, kind).value;
    var o := RoomModule(gs, room, kind, pos).value;
    var j :| 0 <= j < |gs[k].modules| && gs[k].modules[j] == o;
  }

  /** The state of the wall loop after k neighbours. */
  ghost predicate WallsShape(p: Painted, c: World, pos: Cell, occ: seq<bool>, wall: Option<Mesh>, rot: int, k: nat)
    requires |occ| == 6 && k <= 4
  {
    p.raised.None? && WorldValid(p.world) &&
    Layout(At(p.world.pieces, pos)) == WallPlan(occ, wall, k) &&
    (forall x :: x in At(p.world.pieces, pos) ==> x.mesh.group == "wall" && WallIndex(x.rot) < k) &&
    p.rot == LastHeading(occ, rot, k) &&
    (forall q :: q != pos ==> At(p.world.pieces, q) == At(c.pieces, q))
  }

  lemma WallsStep(c: World, pos: Cell, occ: seq<bool>, wall: Option<Mesh>, gs: seq<GroupInfo>, rot: int, k: nat)
    requires |occ| == 6 && k < 4 && Thin(gs, "wall")
    requires wall.Some? ==> wall.value.group == "wall"
    requires WallsShape(WallsPainted(c, pos, occ, Ok(wall), gs, rot, k), c, pos, occ, wall, rot, k)
    ensures WallsShape(WallsPainted(c, pos, occ, Ok(wall), gs, rot, k + 1), c, pos, occ, wall, rot, k + 1)
  {
    var p := WallsPainted(c, pos, occ, Ok(wall), gs, rot, k);
    if !occ[k] && wall.Some? {
      var h := WallHeading(k);
      var r := Created(p.world, wall.value, pos, h, gs);
      assert WallsPainted(c, pos, occ, Ok(wall), gs, rot, k + 1) == Painted(r, h, None);
      WallAdded(p.world, wall.value, pos, gs, k);
      WallIndexOf(k);
      WallsGrow(p, Painted(r, h, None), c, pos, occ, wall, rot, k);
    } else if !occ[k] {
      WallsSkip(p, Painted(p.world, WallHeading(k), None), c, pos, occ, wall, rot, k);
    } else {
      WallsSkip(p, p, c, pos, occ, wall, rot, k);
    }
  }

  lemma WallsGrow(p: Painted, r: Painted, c: World, pos: Cell, occ: seq<bool>, wall: Option<Mesh>, rot: int, k: nat)
    requires |occ| == 6 && k < 4 && !occ[k] && wall.Some? && wall.value.group == "wall"
    requires WallsShape(p, c, pos, occ, wall, rot, k)
    requires r.raised.None? && WorldValid(r.world) && r.rot == WallHeading(k) && WallIndex(WallHeading(k)) == k
    requires At(r.world.pieces, pos) == At(p.world.pieces, pos) + [Piece(p.world.next, wall.value, pos, WallHeading(k))]
    requires Layout(At(r.world.pieces, pos)) == Layout(At(p.world.pieces, pos)) + [(wall.value, WallHeading(k))]
    requires forall q :: q != pos ==> At(r.world.pieces, q) == At(p.world.pieces, q)
    ensures WallsShape(r, c, pos, occ, wall, rot, k + 1)
  {
    var n := Piece(p.world.next, wall.value, pos, WallHeading(k));
    assert WallPlan(occ, wall, k + 1) == WallPlan(occ, wall, k) + [(wall.value, WallHeading(k))];
    forall x | x in At(r.world.pieces, pos) ensures x.mesh.group == "wall" && WallIndex(x.rot) < k + 1 {
      if x != n {
        assert x in At(p.world.pieces, pos);
      }
    }
    forall q | q != pos ensures At(r.world.pieces, q) == At(c.pieces, q) {
      assert At(r.world.pieces, q) == At(p.world.pieces, q);
    }
    assert r.rot == LastHeading(occ, rot, k + 1);
  }

  lemma WallsSkip(p: Painted, r: Painted, c: World, pos: Cell, occ: seq<bool>, wall: Option<Mesh>, rot: int, k: nat)
    requires |occ| == 6 && k < 4 && (occ[k] || wall.None?)
    requires WallsShape(p, c, pos, occ, wall, rot, k)
    requires r.world == p.world && r.raised.None? && r.rot == LastHeading(occ, rot, k + 1)
    ensures WallsShape(r, c, pos, occ, wall, rot, k + 1)
  {
  }

  /** Which wall heading rot is: its place in room_paint's loop, 4 for any other heading. */
  function WallIndex(rot: int): nat
  {
    if rot == -90 then 0 else if rot == 90 then 1 else if rot == 0 then 2 else if rot == -180 then 3 else 4
  }

  lemma WallIndexOf(k: nat)
    requires k < 4
    ensures WallIndex(WallHeading(k)) == k
  {
    assert [WallHeading(0), WallHeading(1), WallHeading(2), WallHeading(3)] == [-90, 90, 0, -180];
  }

  lemma WallIndexApart(rot: int, k: nat)
    requires WallIndex(rot) < k < 4
    ensures RotConv(rot as real) != RotConv(WallHeading(k) as real)
  {
    WallIndexOf(WallIndex(rot));
    assert rot == WallHeading(WallIndex(rot));
    WallHeadingsApart(WallIndex(rot), k);
  }

  /** One more wall, with heading WallHeading(k), joins a cell holding walls of the first k headings. */
  lemma WallAdded(pw: World, m: Mesh, pos: Cell, gs: seq<GroupInfo>, k: nat)
    requires k < 4 && Thin(gs, "wall") && m.group == "wall" && WorldValid(pw)
    requires forall x :: x in At(pw.pieces, pos) ==> WallIndex(x.rot) < k
    ensures var r := Created(pw, m, pos, WallHeading(k), gs);
      r == Place(pw, m, pos, WallHeading(k)) &&
      At(r.pieces, pos) == At(pw.pieces, pos) + [Piece(pw.next, m, pos, WallHeading(k))] &&
      Layout(At(r.pieces, pos)) == Layout(At(pw.pieces, pos)) + [(m, WallHeading(k))] &&
      (forall q :: q != pos ==> At(r.pieces, q) == At(pw.pieces, q))
  {
    var h := WallHeading(k);
    var n := Piece(pw.next, m, pos, h);
    RoundWhole(h);
    forall x | x in pw.pieces && x.pos == pos
      ensures !Replaces(x, n, RotConv(h as real), Thin(gs, m.group))
    {
      assert x in At(pw.pieces, pos);
      WallIndexApart(x.rot, k);
    }
    CreatedAppends(pw, m, pos, h, gs);
    LayoutAppend(At(pw.pieces, pos), n);
    forall q | q != pos ensures At(Created(pw, m, pos, h, gs).pieces, q) == At(pw.pieces, q) {
      CreatedLocal(pw, m, pos, h, gs, q);
    }
  }

  lemma {:induction false} WallsAll(c: World, pos: Cell, occ: seq<bool>, wall: Option<Mesh>, gs: seq<GroupInfo>, rot: int, k: nat)
    requires |occ| == 6 && k <= 4 && Thin(gs, "wall") && WorldValid(c) && At(c.pieces, pos) == []
    requires wall.Some? ==> wall.value.group == "wall"
    ensures WallsShape(WallsPainted(c, pos, occ, Ok(wall), gs, rot, k), c, pos, occ, wall, rot, k)
  {
    if k > 0 {
      WallsAll(c, pos, occ, wall, gs, rot, k - 1);
      WallsStep(c, pos, occ, wall, gs, rot, k - 1);
    }
  }

  /** A floor or ceiling step adds its module at the end of the cell and touches no other cell. */
  lemma LayerStep(p: Painted, pos: Cell, occupied: bool, o: Option<Mesh>, gs: seq<GroupInfo>, kind: string)
    requires p.raised.None? && WorldValid(p.world)
    requires forall x :: x in At(p.world.pieces, pos) ==> x.mesh.group != kind
    requires o.Some? ==> o.value.group == kind
    ensures var r := Layer(p, pos, occupied, Ok(o), gs);
      r.raised.None? && WorldValid(r.world) &&
      Layout(At(r.world.pieces, pos)) == Layout(At(p.world.pieces, pos)) + (if !occupied && o.Some? then [(o.value, p.rot)] else []) &&
      (forall x :: x in At(r.world.pieces, pos) ==> x in At(p.world.pieces, pos) || x.mesh.group == kind) &&
      (forall q :: q != pos ==> At(r.world.pieces, q) == At(p.world.pieces, q))
  {
    if !occupied && o.Some? {
      LayerCreates(p.world, pos, p.rot, o.value, gs);
    }
  }

  /** A floor or ceiling module of a kind not yet in the cell is appended there; no other cell changes. */
  lemma LayerCreates(w: World, pos: Cell, rot: int, m: Mesh, gs: seq<GroupInfo>)
    requires WorldValid(w)
    requires forall x :: x in At(w.pieces, pos) ==> x.mesh.group != m.group
    ensures var c := Created(w, m, pos, rot, gs);
      Layout(At(c.pieces, pos)) == Layout(At(w.pieces, pos)) + [(m, rot)] &&
      (forall x :: x in At(c.pieces, pos) ==> x in At(w.pieces, pos) || x.mesh.group == m.group) &&
      (forall q :: q != pos ==> At(c.pieces, q) == At(w.pieces, q))
  {
    var n := Piece(w.next, m, pos, rot);
    forall x | x in w.pieces && x.pos == pos
      ensures !Replaces(x, n, RotConv(rot as real), Thin(gs, m.group))
    {
      assert x in At(w.pieces, pos);
    }
    CreatedAppends(w, m, pos, rot, gs);
    LayoutAppend(At(w.pieces, pos), n);
    forall q | q != pos ensures At(Created(w, m, pos, rot, gs).pieces, q) == At(w.pieces, q) {
      CreatedLocal(w, m, pos, rot, gs, q);
    }
  }

  lemma ClearedCell(w: World, pos: Cell)
    ensures At(Cleared(w, pos).pieces, pos) == []
    ensures Occupancy(Cleared(w, pos).pieces, pos) == Occupancy(w.pieces, pos)
    ensures forall q :: q != pos ==> At(Cleared(w, pos).pieces, q) == At(w.pieces, q)
  {
    var c := Cleared(w, pos);
    if At(c.pieces, pos) != [] {
      assert At(c.pieces, pos)[0] in At(c.pieces, pos);
    }
    forall q | q != pos ensures At(c.pieces, q) == At(w.pieces, q) {
      AtOutside(w.pieces, pos, q);
    }
    forall i | 0 <= i < 6 ensures Occupancy(c.pieces, pos)[i] == Occupancy(w.pieces, pos)[i] {
      assert Add(pos, Adjacent[i]) != pos;
    }
  }

  /**
   * room_paint, when every module lookup succeeds, leaves the cell holding
   * exactly the planned walls, floor and ceiling, restores the cursor heading
   * and leaves every other cell as it was.
   */
  lemma RoomCellContents(w: World, pos: Cell, rot: int, gs: seq<GroupInfo>, room: GroupInfo)
    requires WorldValid(w) && GroupsFormed(gs)
    requires RoomModule(gs, room, "wall", pos).Ok?
    requires RoomModule(gs, room, "floor", pos).Ok?
    requires RoomModule(gs, room, "ceiling", pos).Ok?
    ensures var r := RoomPainted(w, pos, rot, gs, room);
      r.raised.None? && r.rot == rot && WorldValid(r.world) &&
      Layout(At(r.world.pieces, pos)) == RoomPlan(Occupancy(w.pieces, pos),
        RoomModule(gs, room, "wall", pos).value, RoomModule(gs, room, "floor", pos).value,
        RoomModule(gs, room, "ceiling", pos).value, rot) &&
      (forall q :: q != pos ==> At(r.world.pieces, q) == At(w.pieces, q))
  {
    var wall := RoomModule(gs, room, "wall", pos).value;
    var floor := RoomModule(gs, room, "floor", pos).value;
    var ceiling := RoomModule(gs, room, "ceiling", pos).value;
    if wall.Some? { ChosenBelongs(gs, room, "wall", pos); }
    if floor.Some? { ChosenBelongs(gs, room, "floor", pos); }
    if ceiling.Some? { ChosenBelongs(gs, room, "ceiling", pos); }
    var c := Cleared(w, pos);
    ClearedCell(w, pos);
    var occ := Occupancy(c.pieces, pos);
    RoomLayers(c, pos, occ, wall, floor, ceiling, gs, rot);
    var e := Layer(Layer(WallsPainted(c, pos, occ, Ok(wall), gs, rot, 4), pos, occ[5], Ok(floor), gs), pos, occ[4], Ok(ceiling), gs);
    assert RoomPainted(w, pos, rot, gs, room) == e.(rot := rot);
  }

  /** The walls, floor and ceiling steps of room_paint on a cleared cell. */
  lemma RoomLayers(c: World, pos: Cell, occ: seq<bool>, wall: Option<Mesh>, floor: Option<Mesh>, ceiling: Option<Mesh>,
                   gs: seq<GroupInfo>, rot: int)
    requires |occ| == 6 && Thin(gs, "wall") && WorldValid(c) && At(c.pieces, pos) == []
    requires wall.Some? ==> wall.value.group == "wall"
    requires floor.Some? ==> floor.value.group == "floor"
    requires ceiling.Some? ==> ceiling.value.group == "ceiling"
    ensures var e := Layer(Layer(WallsPainted(c, pos, occ, Ok(wall), gs, rot, 4), pos, occ[5], Ok(floor), gs), pos, occ[4], Ok(ceiling), gs);
      e.raised.None? && WorldValid(e.world) &&
      Layout(At(e.world.pieces, pos)) == RoomPlan(occ, wall, floor, ceiling, rot) &&
      (forall q :: q != pos ==> At(e.world.pieces, q) == At(c.pieces, q))
  {
    WallsAll(c, pos, occ, wall, gs, rot, 4);
    var p := WallsPainted(c, pos, occ, Ok(wall), gs, rot, 4);
    LayerStep(p, pos, occ[5], floor, gs, "floor");
    var f := Layer(p, pos, occ[5], Ok(floor), gs);
    LayerStep(f, pos, occ[4], ceiling, gs, "ceiling");
    var e := Layer(f, pos, occ[4], Ok(ceiling), gs);
    forall q | q != pos ensures At(e.world.pieces, q) == At(c.pieces, q) {
      assert At(e.world.pieces, q) == At(f.world.pieces, q);
      assert At(f.world.pieces, q) == At(p.world.pieces, q);
    }
  }

  /** Painter.paint: create the group's active module at the cursor, if it has one. */
  function PlainPaint(w: World, pos: Cell, rot: int, gs: seq<GroupInfo>, g: GroupInfo): (r: Painted)
    ensures r.rot == rot
    ensures WorldValid(w) ==> WorldValid(r.world)
    ensures GroupValid(g) ==> r.raised.None?
  {
    match ActiveModule(g)
    case Err(e) => Painted(w, rot, Some(e))
    case Ok(None) => Painted(w, rot, None)
    case Ok(Some(m)) => Painted(Created(w, m, pos, rot, gs), rot, None)
  }
}
