// The editing operations of ModularBuildingTool (modular_building_tool.py)
// as functions on the whole editor state: the human paint, delete and clear
// strokes, cursor moves that carry grabbed modules along, grabbing, copy and
// paste, start_select / end_select over a box, fill, and the choice of active
// group and module. Each function returns the new state together with the
// Python exception the operation raises, if any; the state is then the one
// the exception leaves.

module BuildingEditor {
  import opened Wrappers
  import opened Geometry
  import opened ModularBuilding

  /** ModularBuildingModeState: the strokes and modes under way. */
  datatype Flags = Flags(paint: bool, delete: bool, clear: bool, grab: bool, select: bool)

  /**
   * A ModularBuildingTool: the modules under the root object, the module
   * groups in insertion order, the index of the active group, the cursor, the
   * mode flags, the first corner of a box selection, the grabbed modules (by
   * identity) with the cursor position and the headings they had when
   * grabbed, and the clipboard of meshes and headings.
   */
  datatype Editor = Editor(
    world: World,
    groups: seq<GroupInfo>,
    activeGroup: int,
    cursorPos: Cell,
    cursorRot: int,
    state: Flags,
    selectStart: Option<Cell>,
    grabbed: seq<nat>,
    originalPos: Cell,
    originalRots: seq<int>,
    clipboard: seq<Mesh>,
    clipboardRots: seq<int>)

  /** The editor after an operation and the exception the operation raised, if any. */
  datatype Step = Step(ed: Editor, raised: Option<PyError>)

  /**
   * What every operation keeps: a consistent scene, groups as init_modules
   * forms them, an active group that exists, a quarter-turn cursor heading, a
   * clipboard with one heading per mesh and a heading for every grabbed module.
   */
  predicate EditorValid(e: Editor)
  {
    WorldValid(e.world) && GroupsFormed(e.groups) &&
    (forall i :: 0 <= i < |e.groups| ==> GroupValid(e.groups[i])) &&
    0 <= e.activeGroup < |e.groups| && IsQuarter(e.cursorRot) &&
    |e.clipboard| == |e.clipboardRots| && |e.grabbed| <= |e.originalRots|
  }

  // ---------------------------------------------------------------------
  // Start-up: init_module_groups and init_modules
  // ---------------------------------------------------------------------

  /** init_module_groups: room (three placeholder modes), thin wall, floor and ceiling. */
  const InitialGroups: seq<GroupInfo> := [
    GroupInfo("room", [None, None, None], -1, false, true),
    GroupInfo("wall", [], -1, true, false),
    GroupInfo("floor", [], -1, false, false),
    GroupInfo("ceiling", [], -1, false, false)]

  /** A tool just constructed and given its module groups, over an empty root object. */
  function Initial(): (e: Editor)
    ensures EditorValid(e)
    ensures e.world.pieces == [] && Lookup(e.groups, "room") == Some(0) && e.groups[0].room
    ensures forall i :: 0 <= i < |e.groups| ==> e.groups[i].modules == [] || e.groups[i].room
  {
    InitialLookups();
    Editor(World([], 0), InitialGroups, 0, Cell(0, 0, 0), 0, Flags(false, false, false, false, false),
           None, [], Cell(0, 0, 0), [], [], [])
  }

  /** The room group comes first and the thin wall group second. */
  lemma InitialLookups()
    ensures Lookup(InitialGroups, "room") == Some(0) && Lookup(InitialGroups, "wall") == Some(1)
    ensures GroupsFormed(InitialGroups) && forall i :: 0 <= i < |InitialGroups| ==> GroupValid(InitialGroups[i])
    ensures forall i :: 0 <= i < |InitialGroups| ==> InitialGroups[i].modules == [] || InitialGroups[i].room
  {
    var rest := InitialGroups[1..];
    assert rest[0].name == "wall";
    assert InitialGroups[0].name != "wall" by {
      assert InitialGroups[0].name[0] != "wall"[0];
    }
    assert Lookup(rest, "wall") == Some(0);
  }

  /**
   * One iteration of init_modules: the mesh joins the group named by its
   * type, and a type without a group gets a new plain group at the end.
   */
  function AddLibraryMesh(e: Editor, m: Mesh): (r: Editor)
    ensures r == e.(groups := r.groups)
    ensures |r.groups| == |e.groups| + (if Lookup(e.groups, m.group).None? then 1 else 0)
    ensures Lookup(r.groups, m.group).Some? && Some(m) in r.groups[Lookup(r.groups, m.group).value].modules
  {
    match Lookup(e.groups, m.group)
    case Some(k) =>
      var gs := e.groups[k := Added(e.groups[k], m)];
      LookupSameNames(e.groups, gs, m.group);
      e.(groups := gs)
    case None =>
      var gs := e.groups + [Added(GroupInfo(m.group, [], -1, false, false), m)];
      LookupAppend(e.groups, gs[|e.groups|], m.group);
      e.(groups := gs)
  }

  /** Adding a library mesh keeps the editor consistent: the mesh lands in the group of its own type. */
  lemma AddLibraryMeshKeepsValid(e: Editor, m: Mesh)
    requires EditorValid(e)
    ensures EditorValid(AddLibraryMesh(e, m))
  {
    var r := AddLibraryMesh(e, m);
    var k := if Lookup(e.groups, m.group).Some? then Lookup(e.groups, m.group).value else |e.groups|;
    if Lookup(e.groups, m.group).Some? {
      LookupSameNames(e.groups, r.groups, "wall");
    } else {
      LookupAppend(e.groups, r.groups[k], "wall");
      assert r.groups[..k] == e.groups;
    }
    forall i, j | 0 <= i < |r.groups| && 0 <= j < |r.groups[i].modules| && r.groups[i].modules[j].Some?
      ensures r.groups[i].modules[j].value.group == r.groups[i].name
    {
      if i != k {
        assert r.groups[i] == e.groups[i];
      } else if j == |r.groups[i].modules| - 1 {
        assert r.groups[i].modules[j] == Some(m);
      } else {
        assert r.groups[i].modules[j] == e.groups[i].modules[j];
      }
    }
  }

  /** Lookup depends only on the names. */
  lemma {:induction false} LookupSameNames(a: seq<GroupInfo>, b: seq<GroupInfo>, name: string)
    requires |a| == |b| && forall i :: 0 <= i < |a| ==> a[i].name == b[i].name
    ensures Lookup(a, name) == Lookup(b, name)
  {
    if a != [] {
      LookupSameNames(a[1..], b[1..], name);
    }
  }

  /** A group appended at the end is found only when no earlier group has its name. */
  lemma {:induction false} LookupAppend(a: seq<GroupInfo>, g: GroupInfo, name: string)
    ensures Lookup(a + [g], name) ==
      if Lookup(a, name).Some? then Lookup(a, name) else if g.name == name then Some(|a|) else None
  {
    if a != [] {
      assert (a + [g])[1..] == a[1..] + [g];
      LookupAppend(a[1..], g, name);
    } else {
      assert (a + [g])[1..] == [];
    }
  }

  // ---------------------------------------------------------------------
  // The active group and module
  // ---------------------------------------------------------------------

  /**
   * get_active_group: None when there are no groups, otherwise the group at
   * active_group with Python's indexing (IndexError when out of range).
   */
  function ActiveGroup(e: Editor): (r: Result<Option<nat>, PyError>)
    ensures r.Ok? && r.value.Some? ==> r.value.value < |e.groups|
    ensures r == Ok(None) <==> e.groups == []
    ensures 0 <= e.activeGroup < |e.groups| ==> r == Ok(Some(e.activeGroup))
  {
    if e.groups == [] then Ok(None)
    else match PyIndex(|e.groups|, e.activeGroup)
      case None => Err(IndexError)
      case Some(j) => Ok(Some(j))
  }

  /** set_active_group(i): active_group := mid(0, i, #groups - 1). */
  function SetActiveGroup(e: Editor, i: int): (r: Editor)
    ensures r == e.(activeGroup := r.activeGroup)
    ensures e.groups != [] ==> 0 <= r.activeGroup < |e.groups|
    ensures 0 <= i < |e.groups| ==> r.activeGroup == i
    ensures e.groups != [] && i < 0 ==> r.activeGroup == 0
    ensures e.groups != [] && i >= |e.groups| ==> r.activeGroup == |e.groups| - 1
  {
    if e.groups != [] then (MidClamps(0, i, |e.groups| - 1); e.(activeGroup := Mid(0, i, |e.groups| - 1)))
    else e.(activeGroup := Mid(0, i, |e.groups| - 1))
  }

  /** set_active_group_name(name): the group of that name becomes active; an unknown name changes nothing. */
  function SetActiveGroupName(e: Editor, name: string): (r: Editor)
    ensures r == e.(activeGroup := r.activeGroup)
    ensures Lookup(e.groups, name).None? ==> r == e
    ensures Lookup(e.groups, name).Some? ==> 0 <= r.activeGroup < |e.groups| && e.groups[r.activeGroup].name == name
    ensures Lookup(e.groups, name).Some? ==> forall i :: 0 <= i < r.activeGroup ==> e.groups[i].name != name
  {
    match Lookup(e.groups, name)
    case None => e
    case Some(k) => LookupFirst(e.groups, name); e.(activeGroup := k)
  }

  /** Lookup finds the first group with the name, as keys.index(name) does. */
  lemma {:induction false} LookupFirst(gs: seq<GroupInfo>, name: string)
    ensures Lookup(gs, name).Some? ==> forall i :: 0 <= i < Lookup(gs, name).value ==> gs[i].name != name
  {
    if gs != [] && gs[0].name != name {
      LookupFirst(gs[1..], name);
      if Lookup(gs, name).Some? {
        forall i | 0 <= i < Lookup(gs, name).value ensures gs[i].name != name {
          if i > 0 { assert gs[i] == gs[1..][i - 1]; }
        }
      }
    }
  }

  /** handle_cycle_module_group: the next group, wrapping round; with at most one group nothing changes. */
  function CycleModuleGroup(e: Editor): (r: Editor)
    ensures r == e.(activeGroup := r.activeGroup)
    ensures |e.groups| <= 1 ==> r == e
    ensures |e.groups| > 1 ==> 0 <= r.activeGroup < |e.groups|
    ensures |e.groups| > 1 && 0 <= e.activeGroup < |e.groups| - 1 ==> r.activeGroup == e.activeGroup + 1
    ensures |e.groups| > 1 && e.activeGroup == |e.groups| - 1 ==> r.activeGroup == 0
  {
    if |e.groups| <= 1 then e else e.(activeGroup := (e.activeGroup + 1) % |e.groups|)
  }

  /** After k cycles the active group has moved on k places, modulo the number of groups. */
  lemma {:induction false} CycleModuleGroupSteps(e: Editor, k: nat)
    requires |e.groups| > 1 && 0 <= e.activeGroup < |e.groups|
    ensures CycledGroups(e, k).activeGroup == (e.activeGroup + k) % |e.groups|
  {
    if k > 0 {
      CycleModuleGroupSteps(e, k - 1);
      NextRemainder(e.activeGroup + k - 1, |e.groups|, (e.activeGroup + k - 1) % |e.groups|);
    }
  }

  /** Cycling through the groups #groups times comes back to the group it started from. */
  lemma CycleModuleGroupReturns(e: Editor)
    requires |e.groups| > 1 && 0 <= e.activeGroup < |e.groups|
    ensures CycledGroups(e, |e.groups|) == e
  {
    CycleModuleGroupSteps(e, |e.groups|);
    ModUnique(e.activeGroup + |e.groups|, |e.groups|, 1, e.activeGroup);
  }

  /** handle_cycle_module_group applied k times. */
  function CycledGroups(e: Editor, k: nat): (r: Editor)
    ensures r == e.(activeGroup := r.activeGroup)
  {
    if k == 0 then e else CycleModuleGroup(CycledGroups(e, k - 1))
  }

  /**
   * get_active_module: the active group's module at its active index, with
   * Python's indexing, so an active index of -1 takes the last module; None
   * without groups.
   */
  function GetActiveModule(e: Editor): (r: Result<Option<Mesh>, PyError>)
    ensures e.groups == [] ==> r == Ok(None)
    ensures r.Ok? && r.value.Some? ==> exists j :: 0 <= j < |e.groups| && r.value in e.groups[j].modules
  {
    match ActiveGroup(e)
    case Err(x) => Err(x)
    case Ok(None) => Ok(None)
    case Ok(Some(j)) =>
      var g := e.groups[j];
      match PyIndex(|g.modules|, g.active)
      case None => Err(IndexError)
      case Some(k) => Ok(g.modules[k])
  }

  /**
   * get_active_module agrees with the group's own active_module once a module
   * is active; with active -1 it takes the last module where active_module
   * has none.
   */
  lemma GetActiveModuleAgrees(e: Editor)
    requires 0 <= e.activeGroup < |e.groups| && GroupValid(e.groups[e.activeGroup])
    ensures var g := e.groups[e.activeGroup];
      (g.active >= 0 ==> GetActiveModule(e) == ActiveModule(g)) &&
      (g.active == -1 && g.modules != [] ==> GetActiveModule(e) == Ok(g.modules[|g.modules| - 1]) && ActiveModule(g) == Ok(None))
  {
  }

  /** Whether a module slot holds a mesh called name. */
  predicate Named(o: Option<Mesh>, name: string)
  {
    o.Some? && o.value.name == name
  }

  /**
   * The loop of set_active_module_name over the first k modules: each module
   * called name becomes active in turn; a placeholder None raises
   * AttributeError when its name is read.
   */
  function NameScan(mods: seq<Option<Mesh>>, name: string, active: int, k: nat): (r: (int, Option<PyError>))
    requires k <= |mods|
    ensures r.0 == active || 0 <= r.0 < k
    ensures r.1.None? <==> forall j :: 0 <= j < k ==> mods[j].Some?
    ensures r.1.None? && (exists j :: 0 <= j < k && Named(mods[j], name)) ==>
      0 <= r.0 < k && Named(mods[r.0], name) && forall j :: r.0 < j < k ==> !Named(mods[j], name)
    ensures r.1.None? && (forall j :: 0 <= j < k ==> !Named(mods[j], name)) ==> r.0 == active
  {
    if k == 0 then (active, None)
    else
      var p := NameScan(mods, name, active, k - 1);
      if p.1.Some? then p
      else match mods[k - 1]
        case None => (p.0, Some(AttributeError))
        case Some(m) => if m.name == name then (k - 1, None) else p
  }

  /**
   * set_active_module_name(name): in the active group the last module called
   * name becomes active (AttributeError without groups, or on the room
   * group's placeholders).
   */
  function SetActiveModuleName(e: Editor, name: string): (r: Step)
    ensures r.ed == e.(groups := r.ed.groups)
    ensures |r.ed.groups| == |e.groups|
    ensures 0 <= e.activeGroup < |e.groups| ==>
      r.ed.groups == e.groups[e.activeGroup := e.groups[e.activeGroup].(active := r.ed.groups[e.activeGroup].active)]
    ensures EditorValid(e) ==> EditorValid(r.ed)
  {
    match ActiveGroup(e)
    case Err(x) => Step(e, Some(x))
    case Ok(None) => Step(e, Some(AttributeError))
    case Ok(Some(j)) =>
      var g := e.groups[j];
      var s := NameScan(g.modules, name, g.active, |g.modules|);
      var gs := e.groups[j := g.(active := s.0)];
      LookupSameNames(e.groups, gs, "wall");
      Step(e.(groups := gs), s.1)
  }

  /** After set_active_module_name without an exception the active module is called name, when one is. */
  lemma SetActiveModuleNameSelects(e: Editor, name: string)
    requires EditorValid(e)
    requires exists j :: 0 <= j < |e.groups[e.activeGroup].modules| && Named(e.groups[e.activeGroup].modules[j], name)
    ensures var r := SetActiveModuleName(e, name);
      r.raised.None? ==> GetActiveModule(r.ed).Ok? && Named(GetActiveModule(r.ed).value, name)
  {
  }

  /**
   * handle_cycle_module(i) on the active group (nothing without groups);
   * the group arithmetic is that of Cycled.
   */
  function CycleModule(e: Editor, i: int): (r: Step)
    ensures r.ed == e.(groups := r.ed.groups)
    ensures |r.ed.groups| == |e.groups|
    ensures 0 <= e.activeGroup < |e.groups| ==>
      r.ed.groups == e.groups[e.activeGroup := Cycled(e.groups[e.activeGroup], i).0] &&
      r.raised == Cycled(e.groups[e.activeGroup], i).1
    ensures EditorValid(e) ==> EditorValid(r.ed)
  {
    match ActiveGroup(e)
    case Err(x) => Step(e, Some(x))
    case Ok(None) => Step(e, None)
    case Ok(Some(j)) =>
      var c := Cycled(e.groups[j], i);
      var gs := e.groups[j := c.0];
      LookupSameNames(e.groups, gs, "wall");
      Step(e.(groups := gs), c.1)
  }

  // ---------------------------------------------------------------------
  // cdraw and the human strokes
  // ---------------------------------------------------------------------

  /**
   * The active group's painter at work, as the flags say: paint first, then
   * delete, then clear. The room painter paints and deletes whole rooms; the
   * clear of either painter is the tool's clear.
   */
  function Stroke(e: Editor, g: GroupInfo): (r: Painted)
    ensures r.raised.None? ==> r.rot == e.cursorRot
    ensures IsQuarter(e.cursorRot) ==> IsQuarter(r.rot)
    ensures WorldValid(e.world) ==> WorldValid(r.world)
    ensures !e.state.paint && !e.state.delete && !e.state.clear ==> r == Painted(e.world, e.cursorRot, None)
  {
    if e.state.paint then
      (if g.room then RoomPaint(e.world, e.cursorPos, e.cursorRot, e.groups, g)
       else PlainPaint(e.world, e.cursorPos, e.cursorRot, e.groups, g))
    else if e.state.delete then
      (if g.room then RoomDelete(e.world, e.cursorPos, e.cursorRot, e.groups, g)
       else Painted(DeletedAt(e.world, e.cursorPos, e.cursorRot, g), e.cursorRot, None))
    else if e.state.clear then Painted(Cleared(e.world, e.cursorPos), e.cursorRot, None)
    else Painted(e.world, e.cursorRot, None)
  }

  /**
   * cdraw: the active group's painter strokes at the cursor. Without groups
   * the painter of None raises AttributeError, but only when a stroke needs it.
   */
  function Cdraw(e: Editor): (r: Step)
    ensures r.ed == e.(world := r.ed.world, cursorRot := r.ed.cursorRot)
    ensures r.raised.None? ==> r.ed.cursorRot == e.cursorRot
    ensures IsQuarter(e.cursorRot) ==> IsQuarter(r.ed.cursorRot)
    ensures WorldValid(e.world) ==> WorldValid(r.ed.world)
    ensures EditorValid(e) ==> EditorValid(r.ed)
    ensures ActiveGroup(e).Ok? && !e.state.paint && !e.state.delete && !e.state.clear ==> r == Step(e, None)
  {
    match ActiveGroup(e)
    case Err(x) => Step(e, Some(x))
    case Ok(None) => if e.state.paint || e.state.delete || e.state.clear then Step(e, Some(AttributeError)) else Step(e, None)
    case Ok(Some(j)) =>
      var p := Stroke(e, e.groups[j]);
      Step(e.(world := p.world, cursorRot := p.rot), p.raised)
  }

  /** The human paint(): set the paint flag, cdraw, clear the flag (an exception leaves it set). */
  function Paint(e: Editor): (r: Step)
    ensures r.raised.None? ==> !r.ed.state.paint
    ensures r.raised.None? ==> r.ed == Cdraw(e.(state := e.state.(paint := true))).ed.(state := e.state.(paint := false))
    ensures EditorValid(e) ==> EditorValid(r.ed)
  {
    var s := Cdraw(e.(state := e.state.(paint := true)));
    if s.raised.Some? then s else Step(s.ed.(state := s.ed.state.(paint := false)), None)
  }

  /** The human delete(): the same with the delete flag. */
  function Delete(e: Editor): (r: Step)
    ensures r.raised.None? ==> !r.ed.state.delete
    ensures r.raised.None? ==> r.ed == Cdraw(e.(state := e.state.(delete := true))).ed.(state := e.state.(delete := false))
    ensures EditorValid(e) ==> EditorValid(r.ed)
  {
    var s := Cdraw(e.(state := e.state.(delete := true)));
    if s.raised.Some? then s else Step(s.ed.(state := s.ed.state.(delete := false)), None)
  }

  /** The tool's clear(): every module at the cursor is deleted, whatever its group. */
  function Clear(e: Editor): (r: Editor)
    ensures r == e.(world := r.world)
    ensures forall x :: x in r.world.pieces <==> x in e.world.pieces && x.pos != e.cursorPos
    ensures EditorValid(e) ==> EditorValid(r)
  {
    e.(world := Cleared(e.world, e.cursorPos))
  }

  /**
   * Painting a plain group's active module where no module of its group
   * stands (or, for a thin group, none with its heading) adds exactly that
   * module at the end of the cell's list and leaves the flag clear.
   */
  lemma PaintPlacesActiveModule(e: Editor, m: Mesh)
    requires EditorValid(e) && !e.groups[e.activeGroup].room
    requires ActiveModule(e.groups[e.activeGroup]) == Ok(Some(m))
    requires forall x :: x in e.world.pieces && x.pos == e.cursorPos ==>
      !Replaces(x, Piece(e.world.next, m, e.cursorPos, e.cursorRot), RotConv(e.cursorRot as real), Thin(e.groups, m.group))
    ensures var r := Paint(e);
      r.raised.None? && !r.ed.state.paint &&
      At(r.ed.world.pieces, e.cursorPos) == At(e.world.pieces, e.cursorPos) + [Piece(e.world.next, m, e.cursorPos, e.cursorRot)] &&
      r.ed.world.next == e.world.next + 1
  {
    CreatedAppends(e.world, m, e.cursorPos, e.cursorRot, e.groups);
    PaintedPlain(e, m);
  }

  /** The human paint on a plain group with an active module is create_obj of that module. */
  lemma PaintedPlain(e: Editor, m: Mesh)
    requires 0 <= e.activeGroup < |e.groups| && !e.groups[e.activeGroup].room
    requires ActiveModule(e.groups[e.activeGroup]) == Ok(Some(m))
    ensures Paint(e) == Step(e.(world := Created(e.world, m, e.cursorPos, e.cursorRot, e.groups), state := e.state.(paint := false)), None)
  {
    var g := e.groups[e.activeGroup];
    var e1 := e.(state := e.state.(paint := true));
    var c := Created(e.world, m, e.cursorPos, e.cursorRot, e.groups);
    assert ActiveGroup(e1) == Ok(Some(e.activeGroup));
    assert PlainPaint(e.world, e.cursorPos, e.cursorRot, e.groups, g) == Painted(c, e.cursorRot, None);
    assert Stroke(e1, g) == Painted(c, e.cursorRot, None);
    assert Cdraw(e1) == Step(e1.(world := c), None);
  }

  /**
   * Deleting on a plain group right after painting its active module on a
   * free spot takes that module away again.
   */
  lemma PaintThenDeleteRestores(e: Editor, m: Mesh)
    requires WorldValid(e.world) && GroupsFormed(e.groups)
    requires 0 <= e.activeGroup < |e.groups| && !e.groups[e.activeGroup].room
    requires !e.state.paint && !e.state.delete
    requires ActiveModule(e.groups[e.activeGroup]) == Ok(Some(m))
    requires forall x :: x in e.world.pieces && x.pos == e.cursorPos ==> x.mesh.group != m.group
    ensures Paint(e).raised.None?
    ensures Delete(Paint(e).ed) == Step(e.(world := World(e.world.pieces, e.world.next + 1)), None)
  {
    var g := e.groups[e.activeGroup];
    assert m.group == g.name by {
      var j :| 0 <= j < |g.modules| && g.modules[j] == Some(m);
    }
    PaintThenDelete(e.world, m, e.cursorPos, e.cursorRot, e.groups, g);
    PaintedPlain(e, m);
    var c := Created(e.world, m, e.cursorPos, e.cursorRot, e.groups);
    var e2 := Paint(e).ed;
    assert e2 == e.(world := c) by {
      assert e.state.(paint := false) == e.state;
    }
    DeletedPlain(e2);
    var d := DeletedAt(c, e.cursorPos, e.cursorRot, g);
    assert d == World(e.world.pieces, e.world.next + 1);
    assert e2.(world := d, state := e2.state.(delete := false)) == e.(world := d) by {
      assert e.state.(delete := false) == e.state;
    }
  }

  /** The human delete on a plain group, with no paint stroke under way, is Painter.delete at the cursor. */
  lemma DeletedPlain(e: Editor)
    requires 0 <= e.activeGroup < |e.groups| && !e.groups[e.activeGroup].room && !e.state.paint
    ensures Delete(e) ==
      Step(e.(world := DeletedAt(e.world, e.cursorPos, e.cursorRot, e.groups[e.activeGroup]), state := e.state.(delete := false)), None)
  {
    var g := e.groups[e.activeGroup];
    var e1 := e.(state := e.state.(delete := true));
    var d := DeletedAt(e.world, e.cursorPos, e.cursorRot, g);
    assert ActiveGroup(e1) == Ok(Some(e.activeGroup));
    assert Stroke(e1, g) == Painted(d, e.cursorRot, None);
    assert Cdraw(e1) == Step(e1.(world := d), None);
  }

  // ---------------------------------------------------------------------
  // Moving the cursor, and the grabbed modules with it
  // ---------------------------------------------------------------------

  /** The scene with the module whose identity is id put at pos and turned to rot. */
  function Retouched(w: World, id: nat, pos: Cell, rot: int): (r: World)
    ensures r.next == w.next && |r.pieces| == |w.pieces|
    ensures WorldValid(w) ==> WorldValid(r)
  {
    var r := World(Reset(w.pieces, id, pos, rot), w.next);
    if WorldValid(w) then (SameIdsValid(w, r); r) else r
  }

  /** A scene whose modules keep their identities, place by place, stays consistent. */
  lemma SameIdsValid(w: World, r: World)
    requires WorldValid(w) && r.next == w.next && |r.pieces| == |w.pieces|
    requires forall i :: 0 <= i < |w.pieces| ==> r.pieces[i].id == w.pieces[i].id
    ensures WorldValid(r)
  {
    forall x | x in r.pieces ensures x.id < r.next {
      var i :| 0 <= i < |r.pieces| && r.pieces[i] == x;
      assert w.pieces[i] in w.pieces;
    }
  }

  /** x moved by t and turned by d degrees. */
  function Shifted(x: Piece, t: Cell, d: int): Piece
  {
    x.(pos := Add(x.pos, t), rot := x.rot + d)
  }

  /** Every one of the first k grabbed identities is in the scene. */
  predicate AllFound(w: World, ids: seq<nat>, k: nat)
    requires k <= |ids|
  {
    forall j :: 0 <= j < k ==> Find(w.pieces, ids[j]).Some?
  }

  /** One turn of the loop in rotate and translate: the module id is moved by t and turned by d. */
  function MoveOne(w: World, id: nat, t: Cell, d: int): (r: (World, Option<PyError>))
    ensures r.0.next == w.next && |r.0.pieces| == |w.pieces|
    ensures WorldValid(w) ==> WorldValid(r.0)
  {
    match Find(w.pieces, id)
    case None => (w, Some(ReferenceError))
    case Some(x) => (Retouched(w, x.id, Add(x.pos, t), x.rot + d), None)
  }

  /**
   * The loop over grabbed in rotate and translate, over the first k grabbed
   * modules: each is moved by t and turned by d; one no longer in the scene
   * raises ReferenceError. When the identities are distinct and all in the
   * scene, nothing is raised and exactly the grabbed modules move.
   */
  function Moved(w: World, ids: seq<nat>, t: Cell, d: int, k: nat): (r: (World, Option<PyError>))
    requires k <= |ids|
    ensures r.0.next == w.next && |r.0.pieces| == |w.pieces|
    ensures WorldValid(w) ==> WorldValid(r.0)
    ensures WorldValid(w) && NoDuplicates(ids) && AllFound(w, ids, k) ==>
      r.1.None? &&
      forall i :: 0 <= i < |w.pieces| ==>
        r.0.pieces[i] == if InPrefix(ids, k, w.pieces[i].id) then Shifted(w.pieces[i], t, d) else w.pieces[i]
  {
    if k == 0 then (w, None)
    else
      var p := Moved(w, ids, t, d, k - 1);
      if p.1.Some? then p
      else if WorldValid(w) && NoDuplicates(ids) && AllFound(w, ids, k) then
        (MovedFound(w, p.0, ids, t, d, k); MoveOne(p.0, ids[k - 1], t, d))
      else MoveOne(p.0, ids[k - 1], t, d)
  }

  /** With distinct identities, Find returns the one module carrying the identity. */
  lemma FindUnique(w: World, i: nat)
    requires WorldValid(w) && i < |w.pieces|
    ensures Find(w.pieces, w.pieces[i].id) == Some(w.pieces[i])
  {
    var f := Find(w.pieces, w.pieces[i].id);
    assert w.pieces[i] in w.pieces;
    SameIdSamePiece(w, f.value, w.pieces[i]);
  }

  /** id is one of the first k grabbed identities. */
  predicate InPrefix(ids: seq<nat>, k: nat, id: nat)
    requires k <= |ids|
  {
    k > 0 && (ids[k - 1] == id || InPrefix(ids, k - 1, id))
  }

  lemma {:induction false} InPrefixIndex(ids: seq<nat>, k: nat, id: nat)
    requires k <= |ids|
    ensures InPrefix(ids, k, id) <==> exists j :: 0 <= j < k && ids[j] == id
  {
    if k > 0 {
      InPrefixIndex(ids, k - 1, id);
    }
  }

  /** With distinct identities, the k-th is not among those before it. */
  lemma PrefixFresh(ids: seq<nat>, k: nat)
    requires NoDuplicates(ids) && k < |ids|
    ensures !InPrefix(ids, k, ids[k])
  {
    InPrefixIndex(ids, k, ids[k]);
  }

  /** The place in the scene of a module found by its identity. */
  lemma IndexOf(w: World, id: nat) returns (i: nat)
    requires Find(w.pieces, id).Some?
    ensures i < |w.pieces| && w.pieces[i] == Find(w.pieces, id).value && w.pieces[i].id == id
  {
    i :| 0 <= i < |w.pieces| && w.pieces[i] == Find(w.pieces, id).value;
  }

  /** In a consistent scene only one place holds a given identity. */
  lemma OnlyPlace(w: World, i: nat)
    requires WorldValid(w) && i < |w.pieces|
    ensures forall j :: 0 <= j < |w.pieces| && w.pieces[j].id == w.pieces[i].id ==> j == i
  {
  }

  /** The k-th turn of the loop of Moved on the scene p the earlier turns left, when the k-th module is in w. */
  lemma MovedFound(w: World, p: World, ids: seq<nat>, t: Cell, d: int, k: nat)
    requires WorldValid(w) && 0 < k <= |ids| && NoDuplicates(ids)
    requires Find(w.pieces, ids[k - 1]).Some?
    requires |p.pieces| == |w.pieces|
    requires forall j :: 0 <= j < |w.pieces| ==>
      p.pieces[j] == if InPrefix(ids, k - 1, w.pieces[j].id) then Shifted(w.pieces[j], t, d) else w.pieces[j]
    ensures MoveOne(p, ids[k - 1], t, d).1.None?
    ensures forall j :: 0 <= j < |w.pieces| ==>
      MoveOne(p, ids[k - 1], t, d).0.pieces[j] == if InPrefix(ids, k, w.pieces[j].id) then Shifted(w.pieces[j], t, d) else w.pieces[j]
  {
    PrefixFresh(ids, k - 1);
    var i := IndexOf(w, ids[k - 1]);
    MovedStep(w, p, ids, t, d, k, i);
  }

  /**
   * One turn of the loop of Moved, on the scene p the earlier turns left:
   * the module at place i of w carries the next grabbed identity.
   */
  lemma MovedStep(w: World, p: World, ids: seq<nat>, t: Cell, d: int, k: nat, i: nat)
    requires WorldValid(w) && 0 < k <= |ids| && !InPrefix(ids, k - 1, ids[k - 1])
    requires i < |w.pieces| && w.pieces[i].id == ids[k - 1]
    requires |p.pieces| == |w.pieces|
    requires forall j :: 0 <= j < |w.pieces| ==>
      p.pieces[j] == if InPrefix(ids, k - 1, w.pieces[j].id) then Shifted(w.pieces[j], t, d) else w.pieces[j]
    ensures Find(p.pieces, ids[k - 1]) == Some(w.pieces[i])
    ensures var x := w.pieces[i];
      forall j :: 0 <= j < |w.pieces| ==>
        Reset(p.pieces, x.id, Add(x.pos, t), x.rot + d)[j] == if InPrefix(ids, k, w.pieces[j].id) then Shifted(w.pieces[j], t, d) else w.pieces[j]
  {
    var id := ids[k - 1];
    var x := w.pieces[i];
    OnlyPlace(w, i);
    assert p.pieces[i] == x;
    var y := Find(p.pieces, id).value;
    var l :| 0 <= l < |p.pieces| && p.pieces[l] == y;
    assert p.pieces[l].id == w.pieces[l].id;
    var r := Reset(p.pieces, id, Add(x.pos, t), x.rot + d);
    forall j | 0 <= j < |w.pieces|
      ensures r[j] == if InPrefix(ids, k, w.pieces[j].id) then Shifted(w.pieces[j], t, d) else w.pieces[j]
    {
      assert p.pieces[j].id == w.pieces[j].id;
    }
  }

  /** Turning by whole quarter turns keeps a quarter-turn heading. */
  lemma QuarterSum(a: int, b: int)
    requires IsQuarter(a) && IsQuarter(b)
    ensures IsQuarter(a + b) && IsQuarter(a - b)
  {
    ModUnique(a + b, 90, a / 90 + b / 90, 0);
    ModUnique(a - b, 90, a / 90 - b / 90, 0);
  }

  /** rotate(d): the cursor heading and every grabbed module turn by d degrees, then cdraw. */
  function Rotated(e: Editor, d: int): (r: Step)
    ensures r.ed.cursorPos == e.cursorPos && r.ed.groups == e.groups && r.ed.grabbed == e.grabbed
    ensures r.raised.None? ==> r.ed.cursorRot == e.cursorRot + d
  {
    var m := Moved(e.world, e.grabbed, Cell(0, 0, 0), d, |e.grabbed|);
    var e1 := e.(cursorRot := e.cursorRot + d, world := m.0);
    if m.1.Some? then Step(e1, m.1) else Cdraw(e1)
  }

  /** Turning to another quarter-turn heading keeps the editor consistent. */
  lemma RotatedKeepsValid(e: Editor, d: int)
    requires EditorValid(e) && IsQuarter(e.cursorRot + d)
    ensures EditorValid(Rotated(e, d).ed)
  {
    var m := Moved(e.world, e.grabbed, Cell(0, 0, 0), d, |e.grabbed|);
    var e1 := e.(cursorRot := e.cursorRot + d, world := m.0);
    Revalidated(e, m.0, e.cursorRot + d);
    RotatedUnfolds(e, d);
    if m.1.None? {
      assert EditorValid(Cdraw(e1).ed);
    }
  }

  lemma RotatedUnfolds(e: Editor, d: int)
    ensures var m := Moved(e.world, e.grabbed, Cell(0, 0, 0), d, |e.grabbed|);
      var e1 := e.(cursorRot := e.cursorRot + d, world := m.0);
      Rotated(e, d) == if m.1.Some? then Step(e1, m.1) else Cdraw(e1)
  {
  }

  /** Replacing the scene by a consistent one and the heading by a quarter turn keeps the editor consistent. */
  lemma Revalidated(e: Editor, w: World, rot: int)
    requires EditorValid(e) && WorldValid(w) && IsQuarter(rot)
    ensures EditorValid(e.(world := w, cursorRot := rot))
  {
  }

  /**
   * translate(v): the cursor and every grabbed module move by v turned to the
   * cursor heading, then cdraw. Positions stay on whole cells, so
   * round_vector changes nothing.
   */
  function Translated(e: Editor, v: Cell): (r: Step)
    requires IsQuarter(e.cursorRot)
    ensures r.ed.cursorPos == Add(e.cursorPos, RotateZ(e.cursorRot, v))
    ensures r.ed.groups == e.groups && r.ed.grabbed == e.grabbed
    ensures r.raised.None? ==> r.ed.cursorRot == e.cursorRot
    ensures IsQuarter(r.ed.cursorRot)
    ensures EditorValid(e) ==> EditorValid(r.ed)
  {
    var t := RotateZ(e.cursorRot, v);
    var m := Moved(e.world, e.grabbed, t, 0, |e.grabbed|);
    var e1 := e.(cursorPos := Add(e.cursorPos, t), world := m.0);
    if m.1.Some? then Step(e1, m.1) else Cdraw(e1)
  }

  /**
   * The repeat loop of smart_move: translate(0, d, 0) n times, stopping at an
   * exception; when none is raised the cursor has gone n times d cells ahead.
   */
  function Walked(e: Editor, d: int, n: nat): (r: Step)
    requires IsQuarter(e.cursorRot)
    ensures IsQuarter(r.ed.cursorRot)
    ensures r.raised.None? ==> r.ed.cursorRot == e.cursorRot
    ensures r.raised.None? ==> r.ed.cursorPos == Advance(e.cursorPos, Forward(e.cursorRot, d), n)
    ensures EditorValid(e) ==> EditorValid(r.ed)
  {
    if n == 0 then Step(e, None)
    else
      var s := Walked(e, d, n - 1);
      if s.raised.Some? then s else Translated(s.ed, Cell(0, d, 0))
  }

  /**
   * smart_move(x, y, repeat) along an axis: when the cursor already faces
   * (x, y), translate |(x, y)| forward repeat times; otherwise only turn to
   * face it.
   */
  function SmartMoved(e: Editor, x: int, y: int, repeat: int): (r: Step)
    requires AxisAligned(x, y) && IsQuarter(e.cursorRot)
    ensures EditorValid(e) ==> EditorValid(r.ed)
  {
    var h := NormalizedXYToZrot(x, y);
    if e.cursorRot == h then Walked(e, Abs(x) + Abs(y), if repeat < 0 then 0 else repeat)
    else if EditorValid(e) then (RotatedKeepsValid(e, h - e.cursorRot); Rotated(e, h - e.cursorRot))
    else Rotated(e, h - e.cursorRot)
  }

  /**
   * smart_move either turns the cursor to face (x, y) and stays on its cell,
   * or, already facing it, ends repeat times (x, y) further on.
   */
  lemma SmartMoveArrives(e: Editor, x: int, y: int, repeat: int)
    requires AxisAligned(x, y) && IsQuarter(e.cursorRot)
    ensures var r := SmartMoved(e, x, y, repeat);
      var n := if repeat < 0 then 0 else repeat;
      r.raised.None? ==>
        r.ed.cursorRot == NormalizedXYToZrot(x, y) &&
        r.ed.cursorPos == if e.cursorRot == NormalizedXYToZrot(x, y) then Add(e.cursorPos, Cell(x * n, y * n, 0)) else e.cursorPos
  {
    if e.cursorRot == NormalizedXYToZrot(x, y) {
      SmartWalkArrives(e, x, y, repeat);
    } else {
      SmartTurnStays(e, x, y, repeat);
    }
  }

  lemma SmartWalkArrives(e: Editor, x: int, y: int, repeat: int)
    requires AxisAligned(x, y) && e.cursorRot == NormalizedXYToZrot(x, y) && IsQuarter(e.cursorRot)
    ensures var r := SmartMoved(e, x, y, repeat);
      var n := if repeat < 0 then 0 else repeat;
      r.raised.None? ==> r.ed.cursorRot == e.cursorRot && r.ed.cursorPos == Add(e.cursorPos, Cell(x * n, y * n, 0))
  {
    var n := if repeat < 0 then 0 else repeat;
    assert SmartMoved(e, x, y, repeat) == Walked(e, Abs(x) + Abs(y), n);
    WalkedArrives(e, x, y, n);
    AdvanceScale(e.cursorPos, Cell(x, y, 0), n);
  }

  lemma SmartTurnStays(e: Editor, x: int, y: int, repeat: int)
    requires AxisAligned(x, y) && e.cursorRot != NormalizedXYToZrot(x, y) && IsQuarter(e.cursorRot)
    ensures var r := SmartMoved(e, x, y, repeat);
      r.raised.None? ==> r.ed.cursorRot == NormalizedXYToZrot(x, y) && r.ed.cursorPos == e.cursorPos
  {
    assert SmartMoved(e, x, y, repeat) == Rotated(e, NormalizedXYToZrot(x, y) - e.cursorRot);
  }

  /** Walking n times along the heading of (x, y), |(x, y)| cells a time, moves the cursor n times by (x, y). */
  lemma WalkedArrives(e: Editor, x: int, y: int, n: nat)
    requires AxisAligned(x, y) && e.cursorRot == NormalizedXYToZrot(x, y)
    ensures var r := Walked(e, Abs(x) + Abs(y), n);
      r.raised.None? ==> r.ed.cursorPos == Advance(e.cursorPos, Cell(x, y, 0), n)
  {
    HeadingForward(x, y);
  }

  // ---------------------------------------------------------------------
  // Grabbing
  // ---------------------------------------------------------------------

  /** The identities of the modules, in order. */
  function Ids(ps: seq<Piece>): (r: seq<nat>)
    ensures |r| == |ps| && forall i :: 0 <= i < |ps| ==> r[i] == ps[i].id
  {
    seq(|ps|, i requires 0 <= i < |ps| => ps[i].id)
  }

  /** The headings of the modules, in order. */
  function Rots(ps: seq<Piece>): (r: seq<int>)
    ensures |r| == |ps| && forall i :: 0 <= i < |ps| ==> r[i] == ps[i].rot
  {
    seq(|ps|, i requires 0 <= i < |ps| => ps[i].rot)
  }

  /** The meshes of the modules, in order. */
  function Meshes(ps: seq<Piece>): (r: seq<Mesh>)
    ensures |r| == |ps| && forall i :: 0 <= i < |ps| ==> r[i] == ps[i].mesh
  {
    seq(|ps|, i requires 0 <= i < |ps| => ps[i].mesh)
  }

  /** The modules at a cell carry distinct identities when the scene does. */
  lemma {:induction false} AtKeepsDistinct(ps: seq<Piece>, pos: Cell)
    requires forall i, j :: 0 <= i < j < |ps| ==> ps[i].id != ps[j].id
    ensures NoDuplicates(Ids(At(ps, pos)))
    decreases |ps|
  {
    if ps != [] {
      var init := ps[..|ps| - 1];
      AtKeepsDistinct(init, pos);
      if ps[|ps| - 1].pos == pos {
        var r0 := At(init, pos);
        var r := At(ps, pos);
        assert r == r0 + [ps[|ps| - 1]];
        forall i, j | 0 <= i < j < |r| ensures r[i].id != r[j].id {
          if j == |r| - 1 {
            assert r[i] in r0;
            var k :| 0 <= k < |init| && init[k] == r[i];
            assert ps[k] == r[i];
          } else {
            assert Ids(r0)[i] == r[i].id && Ids(r0)[j] == r[j].id;
          }
        }
      }
    }
  }

  /**
   * start_grab: the modules at the cursor are grabbed, the cursor position is
   * remembered and their headings are appended to original_rots.
   */
  function StartGrab(e: Editor): (r: Editor)
    ensures r.state.grab && r.originalPos == e.cursorPos
    ensures forall id :: id in r.grabbed <==> exists x :: x in e.world.pieces && x.pos == e.cursorPos && x.id == id
    ensures |r.originalRots| == |e.originalRots| + |r.grabbed|
    ensures EditorValid(e) ==> EditorValid(r)
  {
    var dest := At(e.world.pieces, e.cursorPos);
    var r := e.(state := e.state.(grab := true), grabbed := Ids(dest), originalPos := e.cursorPos,
               originalRots := e.originalRots + Rots(dest));
    assert forall id :: id in r.grabbed <==> exists x :: x in dest && x.id == id by {
      forall id ensures id in r.grabbed <==> exists x :: x in dest && x.id == id {
        if id in r.grabbed {
          var i :| 0 <= i < |dest| && r.grabbed[i] == id;
          assert dest[i] in dest;
        }
      }
    }
    r
  }

  /** One turn of the cancel loop of end_grab: the module id is put back at pos with heading rot. */
  function RestoreOne(w: World, id: nat, pos: Cell, rot: int): (r: (World, Option<PyError>))
    ensures r.0.next == w.next && |r.0.pieces| == |w.pieces|
    ensures WorldValid(w) ==> WorldValid(r.0)
  {
    match Find(w.pieces, id)
    case None => (w, Some(ReferenceError))
    case Some(x) => (Retouched(w, x.id, pos, rot), None)
  }

  /** The heading remembered for identity id: the one at its last place among the first k grabbed. */
  function RotOf(ids: seq<nat>, rots: seq<int>, k: nat, id: nat): int
    requires k <= |ids| && k <= |rots|
  {
    if k == 0 then 0
    else if ids[k - 1] == id then rots[k - 1]
    else RotOf(ids, rots, k - 1, id)
  }

  /** With distinct identities, the heading remembered for the j-th is the j-th heading. */
  lemma {:induction false} RotOfIndex(ids: seq<nat>, rots: seq<int>, k: nat, j: nat)
    requires k <= |ids| && k <= |rots| && NoDuplicates(ids) && j < k
    ensures RotOf(ids, rots, k, ids[j]) == rots[j]
  {
    if j < k - 1 {
      RotOfIndex(ids, rots, k - 1, j);
    }
  }

  /**
   * The cancel loop of end_grab over the first k grabbed modules: each is put
   * back at pos with its own remembered heading; running out of headings
   * raises IndexError, a module no longer in the scene ReferenceError. When
   * the identities are distinct, all in the scene and all have a heading,
   * nothing is raised and exactly the grabbed modules are put back.
   */
  function Restored(w: World, ids: seq<nat>, pos: Cell, rots: seq<int>, k: nat): (r: (World, Option<PyError>))
    requires k <= |ids|
    ensures r.0.next == w.next && |r.0.pieces| == |w.pieces|
    ensures WorldValid(w) ==> WorldValid(r.0)
    ensures k > |rots| ==> r.1.Some?
    ensures WorldValid(w) && NoDuplicates(ids) && k <= |rots| && AllFound(w, ids, k) ==>
      r.1.None? &&
      forall i :: 0 <= i < |w.pieces| ==>
        r.0.pieces[i] == if InPrefix(ids, k, w.pieces[i].id) then w.pieces[i].(pos := pos, rot := RotOf(ids, rots, k, w.pieces[i].id)) else w.pieces[i]
  {
    if k == 0 then (w, None)
    else
      var p := Restored(w, ids, pos, rots, k - 1);
      if p.1.Some? then p
      else if k - 1 >= |rots| then (p.0, Some(IndexError))
      else if WorldValid(w) && NoDuplicates(ids) && AllFound(w, ids, k) then
        (RestoredFound(w, p.0, ids, pos, rots, k); RestoreOne(p.0, ids[k - 1], pos, rots[k - 1]))
      else RestoreOne(p.0, ids[k - 1], pos, rots[k - 1])
  }

  /** The k-th turn of the cancel loop on the scene p the earlier turns left, when the k-th module is in w. */
  lemma RestoredFound(w: World, p: World, ids: seq<nat>, pos: Cell, rots: seq<int>, k: nat)
    requires WorldValid(w) && 0 < k <= |ids| && k <= |rots| && NoDuplicates(ids)
    requires Find(w.pieces, ids[k - 1]).Some?
    requires |p.pieces| == |w.pieces|
    requires forall j :: 0 <= j < |w.pieces| ==>
      p.pieces[j] == if InPrefix(ids, k - 1, w.pieces[j].id) then w.pieces[j].(pos := pos, rot := RotOf(ids, rots, k - 1, w.pieces[j].id)) else w.pieces[j]
    ensures RestoreOne(p, ids[k - 1], pos, rots[k - 1]).1.None?
    ensures forall j :: 0 <= j < |w.pieces| ==>
      RestoreOne(p, ids[k - 1], pos, rots[k - 1]).0.pieces[j] ==
        if InPrefix(ids, k, w.pieces[j].id) then w.pieces[j].(pos := pos, rot := RotOf(ids, rots, k, w.pieces[j].id)) else w.pieces[j]
  {
    PrefixFresh(ids, k - 1);
    var i := IndexOf(w, ids[k - 1]);
    RestoredStep(w, p, ids, pos, rots, k, i);
  }

  /**
   * One turn of the cancel loop on the scene p the earlier turns left: the
   * module at place i of w carries the next grabbed identity.
   */
  lemma RestoredStep(w: World, p: World, ids: seq<nat>, pos: Cell, rots: seq<int>, k: nat, i: nat)
    requires WorldValid(w) && 0 < k <= |ids| && k <= |rots| && !InPrefix(ids, k - 1, ids[k - 1])
    requires i < |w.pieces| && w.pieces[i].id == ids[k - 1]
    requires |p.pieces| == |w.pieces|
    requires forall j :: 0 <= j < |w.pieces| ==>
      p.pieces[j] == if InPrefix(ids, k - 1, w.pieces[j].id) then w.pieces[j].(pos := pos, rot := RotOf(ids, rots, k - 1, w.pieces[j].id)) else w.pieces[j]
    ensures Find(p.pieces, ids[k - 1]) == Some(w.pieces[i])
    ensures forall j :: 0 <= j < |w.pieces| ==>
      Reset(p.pieces, ids[k - 1], pos, rots[k - 1])[j] ==
        if InPrefix(ids, k, w.pieces[j].id) then w.pieces[j].(pos := pos, rot := RotOf(ids, rots, k, w.pieces[j].id)) else w.pieces[j]
  {
    var id := ids[k - 1];
    OnlyPlace(w, i);
    assert p.pieces[i] == w.pieces[i];
    var y := Find(p.pieces, id).value;
    var l :| 0 <= l < |p.pieces| && p.pieces[l] == y;
    assert p.pieces[l].id == w.pieces[l].id;
    var r := Reset(p.pieces, id, pos, rots[k - 1]);
    forall j | 0 <= j < |w.pieces|
      ensures r[j] == if InPrefix(ids, k, w.pieces[j].id) then w.pieces[j].(pos := pos, rot := RotOf(ids, rots, k, w.pieces[j].id)) else w.pieces[j]
    {
      assert p.pieces[j].id == w.pieces[j].id;
    }
  }

  /**
   * The commit loop of end_grab over the first k grabbed modules: each is
   * combined with the modules at pos by on_paint_at at its own heading
   * (ReferenceError for a module no longer there).
   */
  function Committed(w: World, ids: seq<nat>, pos: Cell, gs: seq<GroupInfo>, k: nat): (r: (World, Option<PyError>))
    requires k <= |ids|
    ensures r.0.next == w.next
    ensures forall x :: x in r.0.pieces ==> x in w.pieces
    ensures WorldValid(w) ==> WorldValid(r.0)
  {
    if k == 0 then (w, None)
    else
      var p := Committed(w, ids, pos, gs, k - 1);
      if p.1.Some? then p
      else match Find(p.0.pieces, ids[k - 1])
        case None => (p.0, Some(ReferenceError))
        case Some(g) => (OnPaintAt(p.0, pos, RotConv(g.rot as real), g, gs), None)
  }

  /**
   * end_grab(cancel): the grab flag drops; cancelling puts the grabbed
   * modules back, committing combines them with the modules at the cursor;
   * then grabbed and original_rots are emptied.
   */
  function EndGrab(e: Editor, cancel: bool): (r: Step)
    ensures !r.ed.state.grab && r.ed.cursorPos == e.cursorPos && r.ed.cursorRot == e.cursorRot
    ensures r.raised.None? ==> r.ed.grabbed == [] && r.ed.originalRots == []
    ensures r.raised.None? && !cancel ==> forall x :: x in r.ed.world.pieces ==> x in e.world.pieces
    ensures EditorValid(e) ==> EditorValid(r.ed)
  {
    var m := if cancel then Restored(e.world, e.grabbed, e.originalPos, e.originalRots, |e.grabbed|)
             else Committed(e.world, e.grabbed, e.cursorPos, e.groups, |e.grabbed|);
    var e1 := e.(state := e.state.(grab := false), world := m.0);
    if m.1.Some? then Step(e1, m.1) else Step(e1.(grabbed := [], originalRots := []), None)
  }

  /** Every module at pos has its identity among the grabbed ones, all found in the scene. */
  lemma AtAllFound(w: World, pos: Cell)
    ensures AllFound(w, Ids(At(w.pieces, pos)), |At(w.pieces, pos)|)
  {
    var dest := At(w.pieces, pos);
    forall j | 0 <= j < |dest| ensures Find(w.pieces, Ids(dest)[j]).Some? {
      assert dest[j] in dest;
    }
  }

  /** Moving modules keeps their identities, so all the grabbed ones are still found. */
  lemma ShiftedAllFound(w: World, m: World, ids: seq<nat>, t: Cell, d: int)
    requires |m.pieces| == |w.pieces| && AllFound(w, ids, |ids|)
    requires forall i :: 0 <= i < |w.pieces| ==>
      m.pieces[i] == if InPrefix(ids, |ids|, w.pieces[i].id) then Shifted(w.pieces[i], t, d) else w.pieces[i]
    ensures AllFound(m, ids, |ids|)
  {
    forall j | 0 <= j < |ids| ensures Find(m.pieces, ids[j]).Some? {
      ShiftedFound(w, m, ids, t, d, ids[j]);
    }
  }

  lemma ShiftedFound(w: World, m: World, ids: seq<nat>, t: Cell, d: int, id: nat)
    requires |m.pieces| == |w.pieces| && Find(w.pieces, id).Some?
    requires forall i :: 0 <= i < |w.pieces| ==>
      m.pieces[i] == if InPrefix(ids, |ids|, w.pieces[i].id) then Shifted(w.pieces[i], t, d) else w.pieces[i]
    ensures Find(m.pieces, id).Some?
  {
    var i := IndexOf(w, id);
    assert m.pieces[i].id == id;
    assert m.pieces[i] in m.pieces;
  }

  /**
   * The loops of translate and of end_grab(cancel) together: moving the
   * modules grabbed at pos and then putting each back at pos with its
   * remembered heading gives back the scene it started from.
   */
  lemma MoveThenRestore(w: World, pos: Cell, t: Cell)
    requires WorldValid(w)
    ensures var dest := At(w.pieces, pos);
      var m := Moved(w, Ids(dest), t, 0, |dest|);
      m.1.None? && Restored(m.0, Ids(dest), pos, Rots(dest), |dest|) == (w, None)
  {
    var dest := At(w.pieces, pos);
    var ids := Ids(dest);
    var n := |ids|;
    AtKeepsDistinct(w.pieces, pos);
    AtAllFound(w, pos);
    var m := Moved(w, ids, t, 0, n).0;
    ShiftedAllFound(w, m, ids, t, 0);
    var r := Restored(m, ids, pos, Rots(dest), n).0;
    forall i | 0 <= i < |w.pieces| ensures r.pieces[i] == w.pieces[i] {
      PieceRestored(w, pos, t, i);
    }
    assert r.pieces == w.pieces;
  }

  /** One module of the scene, moved if it was grabbed at pos and then put back if it was grabbed, is unchanged. */
  lemma PieceRestored(w: World, pos: Cell, t: Cell, i: nat)
    requires WorldValid(w) && i < |w.pieces|
    requires NoDuplicates(Ids(At(w.pieces, pos)))
    ensures var dest := At(w.pieces, pos);
      var ids := Ids(dest);
      var x := w.pieces[i];
      var y := if InPrefix(ids, |ids|, x.id) then Shifted(x, t, 0) else x;
      (if InPrefix(ids, |ids|, y.id) then y.(pos := pos, rot := RotOf(ids, Rots(dest), |ids|, y.id)) else y) == x
  {
    var dest := At(w.pieces, pos);
    var ids := Ids(dest);
    var n := |ids|;
    var x := w.pieces[i];
    if InPrefix(ids, n, x.id) {
      InPrefixIndex(ids, n, x.id);
      var j :| 0 <= j < n && ids[j] == x.id;
      assert dest[j] in dest;
      SameIdSamePiece(w, dest[j], x);
      RotOfIndex(ids, Rots(dest), n, j);
    }
  }

  /** With no stroke under way, translate only moves the cursor and the grabbed modules. */
  lemma TranslatedMoves(e: Editor, v: Cell)
    requires EditorValid(e) && !e.state.paint && !e.state.delete && !e.state.clear
    ensures var t := RotateZ(e.cursorRot, v);
      var m := Moved(e.world, e.grabbed, t, 0, |e.grabbed|);
      Translated(e, v) == Step(e.(cursorPos := Add(e.cursorPos, t), world := m.0), m.1)
  {
  }

  /** end_grab(cancel) raises nothing and leaves w when its cancel loop gives back w. */
  lemma CancelGivesBack(s: Editor, w: World)
    requires Restored(s.world, s.grabbed, s.originalPos, s.originalRots, |s.grabbed|) == (w, None)
    ensures EndGrab(s, true).raised.None? && EndGrab(s, true).ed.world == w
  {
  }

  /**
   * Grabbing the modules at the cursor, moving them and cancelling leaves the
   * scene exactly as it was (with no stroke under way and no stale headings).
   */
  lemma GrabMoveCancelRestores(e: Editor, v: Cell)
    requires EditorValid(e) && e.originalRots == []
    requires !e.state.paint && !e.state.delete && !e.state.clear
    ensures var s := Translated(StartGrab(e), v);
      s.raised.None? && EndGrab(s.ed, true).raised.None? && EndGrab(s.ed, true).ed.world == e.world
  {
    var g := StartGrab(e);
    var dest := At(e.world.pieces, e.cursorPos);
    assert g.grabbed == Ids(dest) && g.originalRots == Rots(dest) && g.originalPos == e.cursorPos;
    var t := RotateZ(e.cursorRot, v);
    TranslatedMoves(g, v);
    MoveThenRestore(e.world, e.cursorPos, t);
    var s := Translated(g, v).ed;
    assert s.world == Moved(e.world, Ids(dest), t, 0, |dest|).0;
    CancelGivesBack(s, e.world);
  }

  // ---------------------------------------------------------------------
  // Copy and paste
  // ---------------------------------------------------------------------

  /** copy: the meshes and headings of the modules at the cursor, in scene order, become the clipboard. */
  function Copy(e: Editor): (r: Editor)
    ensures r == e.(clipboard := r.clipboard, clipboardRots := r.clipboardRots)
    ensures |r.clipboard| == |r.clipboardRots| == |At(e.world.pieces, e.cursorPos)|
    ensures forall i :: 0 <= i < |r.clipboard| ==>
      r.clipboard[i] == At(e.world.pieces, e.cursorPos)[i].mesh && r.clipboardRots[i] == At(e.world.pieces, e.cursorPos)[i].rot
    ensures forall i :: 0 <= i < |r.clipboard| ==>
      exists x :: x in e.world.pieces && x.pos == e.cursorPos && x.mesh == r.clipboard[i] && x.rot == r.clipboardRots[i]
    ensures EditorValid(e) ==> EditorValid(r)
  {
    var dest := At(e.world.pieces, e.cursorPos);
    assert forall i :: 0 <= i < |dest| ==> dest[i] in dest;
    e.(clipboard := Meshes(dest), clipboardRots := Rots(dest))
  }

  /**
   * The loop of paste as written, over the clipboard entries in order: each
   * create_obj puts the mesh at the cursor with the cursor heading rot,
   * on_paint settles what it replaces by that heading, and only then is the
   * new module turned to its copied heading. A clipboard longer than its
   * headings raises IndexError once the module is created. Each module is created
   * through the corrected Created, which normalises both headings, so this follows
   * the source exactly only at normalised cursor headings; the raw-heading defect
   * of on_paint is the separate finding of StackedWallAsWritten.
   */
  function PastedAsWritten(w: World, clip: seq<Mesh>, rots: seq<int>, pos: Cell, rot: int, gs: seq<GroupInfo>)
    : (r: (World, Option<PyError>))
    ensures r.1.None? <==> |clip| <= |rots|
    ensures r.1.None? ==> r.0.next == w.next + |clip|
    ensures WorldValid(w) ==> WorldValid(r.0)
    decreases |clip|
  {
    if clip == [] then (w, None)
    else
      var c := Created(w, clip[0], pos, rot, gs);
      if rots == [] then (c, Some(IndexError))
      else PastedAsWritten(Retouched(c, w.next, pos, rots[0]), clip[1..], rots[1..], pos, rot, gs)
  }

  /**
   * The loop of paste as evidently intended: each module is created at the
   * cursor with its copied heading, so on_paint judges it by the heading it
   * keeps. Running out of headings raises IndexError before creating.
   */
  function Pasted(w: World, clip: seq<Mesh>, rots: seq<int>, pos: Cell, gs: seq<GroupInfo>): (r: (World, Option<PyError>))
    ensures r.1.None? <==> |clip| <= |rots|
    ensures r.1.None? ==> r.0.next == w.next + |clip|
    ensures WorldValid(w) ==> WorldValid(r.0)
    decreases |clip|
  {
    if clip == [] then (w, None)
    else if rots == [] then (w, Some(IndexError))
    else Pasted(Created(w, clip[0], pos, rots[0], gs), clip[1..], rots[1..], pos, gs)
  }

  /** paste: every clipboard entry is created at the cursor with its copied heading, in clipboard order. */
  function Paste(e: Editor): (r: Step)
    ensures r.ed == e.(world := r.ed.world)
    ensures r.raised.None? <==> |e.clipboard| <= |e.clipboardRots|
    ensures r.raised.None? ==> r.ed.world.next == e.world.next + |e.clipboard|
    ensures EditorValid(e) ==> EditorValid(r.ed) && r.raised.None?
  {
    var p := Pasted(e.world, e.clipboard, e.clipboardRots, e.cursorPos, e.groups);
    Step(e.(world := p.0), p.1)
  }

  /** Two clipboard entries that on_paint would not let share a cell: same group and, for a thin group, the same heading. */
  predicate Collide(a: Mesh, ra: int, b: Mesh, rb: int, gs: seq<GroupInfo>)
  {
    a.group == b.group && (!Thin(gs, a.group) || RotConv(ra as real) == RotConv(rb as real))
  }

  /** No two clipboard entries collide. */
  predicate NoneCollide(clip: seq<Mesh>, rots: seq<int>, gs: seq<GroupInfo>)
    requires |clip| <= |rots|
  {
    forall i, j :: 0 <= i < j < |clip| ==> !Collide(clip[i], rots[i], clip[j], rots[j], gs)
  }

  /** No module already in the cell collides with a clipboard entry. */
  predicate NoneMatched(w: World, clip: seq<Mesh>, rots: seq<int>, pos: Cell, gs: seq<GroupInfo>)
    requires |clip| <= |rots|
  {
    forall x, i :: x in w.pieces && x.pos == pos && 0 <= i < |clip| ==> !Collide(x.mesh, x.rot, clip[i], rots[i], gs)
  }

  /** The modules a paste that replaces nothing adds: one per entry, with the next identities, at the cursor. */
  function Fresh(next: nat, clip: seq<Mesh>, rots: seq<int>, pos: Cell): (r: seq<Piece>)
    requires |clip| <= |rots|
    ensures |r| == |clip|
    ensures forall i :: 0 <= i < |clip| ==> r[i] == Piece(next + i, clip[i], pos, rots[i])
    decreases |clip|
  {
    if clip == [] then [] else [Piece(next, clip[0], pos, rots[0])] + Fresh(next + 1, clip[1..], rots[1..], pos)
  }

  /**
   * Pasting entries no two of which collide, into a cell none of whose
   * modules collides with an entry, replaces nothing: the entries follow the
   * modules already in the scene, in clipboard order, each with its copied
   * heading.
   */
  lemma {:induction false} PastedReplacesNothing(w: World, clip: seq<Mesh>, rots: seq<int>, pos: Cell, gs: seq<GroupInfo>)
    requires |clip| <= |rots|
    requires NoneMatched(w, clip, rots, pos, gs) && NoneCollide(clip, rots, gs)
    ensures Pasted(w, clip, rots, pos, gs).1.None?
    ensures Pasted(w, clip, rots, pos, gs).0.pieces == w.pieces + Fresh(w.next, clip, rots, pos)
    decreases |clip|
  {
    if clip != [] {
      FirstNotReplaced(w, clip, rots, pos, gs);
      CreatedAppends(w, clip[0], pos, rots[0], gs);
      var w1 := Place(w, clip[0], pos, rots[0]);
      RestUnmatched(w, clip, rots, pos, gs);
      PastedReplacesNothing(w1, clip[1..], rots[1..], pos, gs);
      FreshAfter(w, clip, rots, pos);
    }
  }

  /** The first entry replaces nothing in the cell. */
  lemma FirstNotReplaced(w: World, clip: seq<Mesh>, rots: seq<int>, pos: Cell, gs: seq<GroupInfo>)
    requires 0 < |clip| <= |rots| && NoneMatched(w, clip, rots, pos, gs)
    ensures forall x :: x in w.pieces && x.pos == pos ==>
      !Replaces(x, Piece(w.next, clip[0], pos, rots[0]), RotConv(rots[0] as real), Thin(gs, clip[0].group))
  {
    forall x | x in w.pieces && x.pos == pos
      ensures !Replaces(x, Piece(w.next, clip[0], pos, rots[0]), RotConv(rots[0] as real), Thin(gs, clip[0].group))
    {
      assert !Collide(x.mesh, x.rot, clip[0], rots[0], gs);
    }
  }

  /** Once the first entry is placed, the rest still meet neither a colliding module nor each other. */
  lemma RestUnmatched(w: World, clip: seq<Mesh>, rots: seq<int>, pos: Cell, gs: seq<GroupInfo>)
    requires 0 < |clip| <= |rots|
    requires NoneMatched(w, clip, rots, pos, gs) && NoneCollide(clip, rots, gs)
    ensures NoneMatched(Place(w, clip[0], pos, rots[0]), clip[1..], rots[1..], pos, gs)
    ensures NoneCollide(clip[1..], rots[1..], gs)
  {
    var w1 := Place(w, clip[0], pos, rots[0]);
    var m := Piece(w.next, clip[0], pos, rots[0]);
    forall x, i | x in w1.pieces && x.pos == pos && 0 <= i < |clip| - 1
      ensures !Collide(x.mesh, x.rot, clip[1..][i], rots[1..][i], gs)
    {
      assert clip[1..][i] == clip[i + 1] && rots[1..][i] == rots[i + 1];
      if x == m {
        assert !Collide(clip[0], rots[0], clip[i + 1], rots[i + 1], gs);
      } else {
        assert x in w.pieces;
        assert !Collide(x.mesh, x.rot, clip[i + 1], rots[i + 1], gs);
      }
    }
    forall i, j | 0 <= i < j < |clip| - 1
      ensures !Collide(clip[1..][i], rots[1..][i], clip[1..][j], rots[1..][j], gs)
    {
      assert !Collide(clip[i + 1], rots[i + 1], clip[j + 1], rots[j + 1], gs);
    }
  }

  /** The scene after placing the first entry, followed by the rest, is the scene followed by all entries. */
  lemma FreshAfter(w: World, clip: seq<Mesh>, rots: seq<int>, pos: Cell)
    requires 0 < |clip| <= |rots|
    ensures var w1 := Place(w, clip[0], pos, rots[0]);
      w1.pieces + Fresh(w1.next, clip[1..], rots[1..], pos) == w.pieces + Fresh(w.next, clip, rots, pos)
  {
    var m := Piece(w.next, clip[0], pos, rots[0]);
    var rest := Fresh(w.next + 1, clip[1..], rots[1..], pos);
    assert Fresh(w.next, clip, rots, pos) == [m] + rest;
    assert (w.pieces + [m]) + rest == w.pieces + ([m] + rest);
  }

  /**
   * Copying the modules at the cursor and pasting them on an empty cell
   * replaces nothing: after the modules already there come new ones at the
   * target, the same meshes with the same headings in the same order, when
   * the copied cell held no two modules that clash.
   */
  lemma CopyPasteReproduces(e: Editor, target: Cell)
    requires EditorValid(e) && NoStacking(e.world, e.groups)
    requires forall x :: x in e.world.pieces ==> x.pos != target
    ensures var s := Paste(Copy(e).(cursorPos := target));
      var dest := At(e.world.pieces, e.cursorPos);
      var n := |e.world.pieces|;
      s.raised.None? && |s.ed.world.pieces| == n + |dest| && s.ed.world.pieces[..n] == e.world.pieces &&
      forall i :: 0 <= i < |dest| ==> s.ed.world.pieces[n + i] == Piece(e.world.next + i, dest[i].mesh, target, dest[i].rot)
  {
    var c := Copy(e);
    CopyPasteAppends(e, target);
    FreshListed(e.world.pieces, e.world.next, c.clipboard, c.clipboardRots, target);
  }

  /** A scene followed by the fresh modules of a paste: the scene first, then one module per entry. */
  lemma FreshListed(ps: seq<Piece>, next: nat, clip: seq<Mesh>, rots: seq<int>, pos: Cell)
    requires |clip| <= |rots|
    ensures var r := ps + Fresh(next, clip, rots, pos);
      |r| == |ps| + |clip| && r[..|ps|] == ps &&
      forall i :: 0 <= i < |clip| ==> r[|ps| + i] == Piece(next + i, clip[i], pos, rots[i])
  {
    var f := Fresh(next, clip, rots, pos);
    assert (ps + f)[..|ps|] == ps;
    forall i | 0 <= i < |clip| ensures (ps + f)[|ps| + i] == Piece(next + i, clip[i], pos, rots[i]) {
      AppendedAt(ps, f, i);
    }
  }

  /** Pasting a copied cell onto an empty one appends the fresh modules to the scene. */
  lemma CopyPasteAppends(e: Editor, target: Cell)
    requires EditorValid(e) && NoStacking(e.world, e.groups)
    requires forall x :: x in e.world.pieces ==> x.pos != target
    ensures var c := Copy(e);
      var s := Paste(c.(cursorPos := target));
      s.raised.None? && s.ed.world.pieces == e.world.pieces + Fresh(e.world.next, c.clipboard, c.clipboardRots, target)
  {
    var c := Copy(e);
    var p := Pasted(e.world, c.clipboard, c.clipboardRots, target, e.groups);
    assert Paste(c.(cursorPos := target)) == Step(c.(cursorPos := target, world := p.0), p.1);
    CopiedNoCollide(e);
    assert NoneMatched(e.world, c.clipboard, c.clipboardRots, target, e.groups);
    PastedReplacesNothing(e.world, c.clipboard, c.clipboardRots, target, e.groups);
  }

  /** The i-th element of b sits |a| places further on in a + b. */
  lemma AppendedAt<T>(a: seq<T>, b: seq<T>, i: nat)
    requires i < |b|
    ensures (a + b)[|a| + i] == b[i]
  {
  }

  /** The modules of one cell of a scene without stacking make a clipboard no two entries of which collide. */
  lemma CopiedNoCollide(e: Editor)
    requires EditorValid(e) && NoStacking(e.world, e.groups)
    ensures var c := Copy(e); NoneCollide(c.clipboard, c.clipboardRots, e.groups)
  {
    var dest := At(e.world.pieces, e.cursorPos);
    var c := Copy(e);
    AtKeepsDistinct(e.world.pieces, e.cursorPos);
    forall i, j | 0 <= i < j < |dest| ensures !Collide(c.clipboard[i], c.clipboardRots[i], c.clipboard[j], c.clipboardRots[j], e.groups) {
      assert dest[i] in dest && dest[j] in dest;
      assert Ids(dest)[i] != Ids(dest)[j];
      assert !Clash(dest[i], dest[j], e.groups);
    }
  }

  // Two walls of a thin group, headings 0 and 90, pasted with the cursor facing 0.
  const PastePos := Cell(0, 0, 0)
  const NoPieces := World([], 0)
  const PasteClip := [StackWall, StackWall]
  const PasteRots := [0, 90]
  const Wall0 := Piece(0, StackWall, PastePos, 0)
  const Wall1At0 := Piece(1, StackWall, PastePos, 0)
  const Wall1 := Piece(1, StackWall, PastePos, 90)

  /**
   * As written, pasting the two walls keeps only the second: it is created
   * facing 0, so on_paint replaces the first wall (facing 0), and only then is
   * it turned to 90. Created with its copied heading, both walls stay.
   */
  lemma PasteLosesWallAsWritten()
    ensures !Collide(StackWall, 0, StackWall, 90, StackGroups)
    ensures PastedAsWritten(NoPieces, PasteClip, PasteRots, PastePos, 0, StackGroups) == (World([Wall1], 2), None)
    ensures Pasted(NoPieces, PasteClip, PasteRots, PastePos, StackGroups) == (World([Wall0, Wall1], 2), None)
  {
    RoundWhole(0);
    RoundWhole(90);
    StackHeadings();
    assert NoPieces == World([], 0);
    assert PasteClip == [StackWall, StackWall];
    assert PasteRots == [0, 90];
    assert Thin(StackGroups, StackWall.group);
    assert RotConv(0 as real) == 0;
    assert RotConv(90 as real) == 90;
    PastedWallsAsWritten(NoPieces, StackWall, PasteClip, PasteRots, PastePos, StackGroups);
    PastedWalls(NoPieces, StackWall, PasteClip, PasteRots, PastePos, StackGroups);
  }

  /** Creating into a cell with nothing in it only adds the new module. */
  lemma CreatedIntoEmpty(w: World, m: Mesh, pos: Cell, rot: int, gs: seq<GroupInfo>)
    requires forall x :: x in w.pieces ==> x.pos != pos
    ensures Created(w, m, pos, rot, gs) == Place(w, m, pos, rot)
  {
    CreatedAppends(w, m, pos, rot, gs);
  }

  /** In a thin group, a module created facing 0 replaces the lone module facing 0 in its cell. */
  lemma CreatedOverFacing(a: Piece, m: Mesh, pos: Cell, gs: seq<GroupInfo>)
    requires a == Piece(0, m, pos, 0) && Thin(gs, m.group) && RotConv(0 as real) == 0
    ensures Created(World([a], 1), m, pos, 0, gs) == World([Piece(1, m, pos, 0)], 2)
  {
    var b := Piece(1, m, pos, 0);
    var placed := Place(World([a], 1), m, pos, 0);
    assert placed.pieces == [a, b];
    assert At([a, b], pos) == [a, b] by {
      assert [a, b][..1] == [a];
      assert [a][..0] == [];
    }
    assert Replaces(a, b, 0, true);
    assert FirstReplaced([a, b], b, 0, true) == Some(0);
    assert Without([a, b], 0) == [b] by {
      assert [a, b][..1] == [a];
      assert [a][..0] == [];
    }
  }

  lemma PastedWallsAsWritten(w: World, m: Mesh, clip: seq<Mesh>, rots: seq<int>, pos: Cell, gs: seq<GroupInfo>)
    requires w == World([], 0) && clip == [m, m] && rots == [0, 90] && Thin(gs, m.group) && RotConv(0 as real) == 0
    ensures PastedAsWritten(w, clip, rots, pos, 0, gs) == (World([Piece(1, m, pos, 90)], 2), None)
  {
    var a := Piece(0, m, pos, 0);
    FirstWallAsWritten(w, m, clip, rots, pos, gs);
    SecondWallAsWritten(a, m, pos, gs);
  }

  /** The first wall goes into the empty cell facing 0 and is turned to 0. */
  lemma FirstWallAsWritten(w: World, m: Mesh, clip: seq<Mesh>, rots: seq<int>, pos: Cell, gs: seq<GroupInfo>)
    requires w == World([], 0) && clip == [m, m] && rots == [0, 90]
    ensures PastedAsWritten(w, clip, rots, pos, 0, gs) == PastedAsWritten(World([Piece(0, m, pos, 0)], 1), [m], [90], pos, 0, gs)
  {
    var a := Piece(0, m, pos, 0);
    CreatedIntoEmpty(w, m, pos, 0, gs);
    assert Created(w, m, pos, 0, gs) == World([a], 1);
    assert Reset([a], 0, pos, 0) == [a];
    assert Retouched(World([a], 1), 0, pos, 0) == World([a], 1);
    assert clip[1..] == [m] && rots[1..] == [90];
  }

  /** The second wall is created facing 0, replaces the first, and only then turns to 90. */
  lemma SecondWallAsWritten(a: Piece, m: Mesh, pos: Cell, gs: seq<GroupInfo>)
    requires a == Piece(0, m, pos, 0) && Thin(gs, m.group) && RotConv(0 as real) == 0
    ensures PastedAsWritten(World([a], 1), [m], [90], pos, 0, gs) == (World([Piece(1, m, pos, 90)], 2), None)
  {
    var b := Piece(1, m, pos, 0);
    LastAsWritten(World([a], 1), m, 90, pos, 0, gs);
    CreatedOverFacing(a, m, pos, gs);
    TurnedLone(b, pos, 90);
  }

  /** The as-written loop over a single entry: create facing rot, then turn. */
  lemma LastAsWritten(w: World, m: Mesh, r: int, pos: Cell, rot: int, gs: seq<GroupInfo>)
    ensures PastedAsWritten(w, [m], [r], pos, rot, gs) == (Retouched(Created(w, m, pos, rot, gs), w.next, pos, r), None)
  {
    assert [m][1..] == [] && [r][1..] == [];
  }

  /** Turning the lone module of a scene. */
  lemma TurnedLone(b: Piece, pos: Cell, r: int)
    requires b.pos == pos
    ensures Retouched(World([b], b.id + 1), b.id, pos, r) == World([b.(rot := r)], b.id + 1)
  {
    assert Reset([b], b.id, pos, r) == [b.(rot := r)];
  }

  lemma PastedWalls(w: World, m: Mesh, clip: seq<Mesh>, rots: seq<int>, pos: Cell, gs: seq<GroupInfo>)
    requires w == World([], 0) && clip == [m, m] && rots == [0, 90] && Thin(gs, m.group)
    requires RotConv(0 as real) == 0 && RotConv(90 as real) == 90
    ensures Pasted(w, clip, rots, pos, gs) == (World([Piece(0, m, pos, 0), Piece(1, m, pos, 90)], 2), None)
  {
    assert !Collide(clip[0], rots[0], clip[1], rots[1], gs);
    PastedReplacesNothing(w, clip, rots, pos, gs);
    var f := Fresh(0, clip, rots, pos);
    assert f == [Piece(0, m, pos, 0), Piece(1, m, pos, 90)];
    assert w.pieces + f == f;
  }

  // ---------------------------------------------------------------------
  // Box selection and fill
  // ---------------------------------------------------------------------

  /** start_select: the selection starts at the cursor. */
  function StartSelect(e: Editor): (r: Editor)
    ensures r.state.select && r.selectStart == Some(e.cursorPos)
    ensures r == e.(state := r.state, selectStart := r.selectStart) && r.state == e.state.(select := true)
    ensures EditorValid(e) ==> EditorValid(r)
  {
    e.(state := e.state.(select := true), selectStart := Some(e.cursorPos))
  }

  /**
   * The loop of end_select over cells: the cursor is put on each cell in turn
   * and cdraw runs there. An exception stops the loop with the cursor on the
   * cell where it arose.
   */
  function DrawCells(e: Editor, cells: seq<Cell>): (r: Step)
    ensures r.ed == e.(world := r.ed.world, cursorRot := r.ed.cursorRot, cursorPos := r.ed.cursorPos)
    ensures r.raised.None? ==> r.ed.cursorRot == e.cursorRot
    ensures EditorValid(e) ==> EditorValid(r.ed)
    decreases |cells|
  {
    if cells == [] then Step(e, None)
    else
      var p := Cdraw(e.(cursorPos := cells[0]));
      if p.raised.Some? then p else DrawCells(p.ed, cells[1..])
  }

  /**
   * end_select: cdraw on every cell of the box between the start of the
   * selection and the cursor, layer by layer (z, then y, then x); then the
   * cursor comes back and the selection ends. With no selection started the
   * bounds read None and raise AttributeError.
   */
  function EndSelect(e: Editor): (r: Step)
    ensures e.selectStart.None? ==> r == Step(e, Some(AttributeError))
    ensures r.raised.None? ==> r.ed == e.(world := r.ed.world, state := e.state.(select := false))
    ensures EditorValid(e) ==> EditorValid(r.ed)
  {
    match e.selectStart
    case None => Step(e, Some(AttributeError))
    case Some(start) =>
      var b := SelectCubeBounds(start, e.cursorPos);
      var cells := RegionCells(b.0, b.1);
      var d := DrawCells(e, cells);
      if d.raised.Some? then d
      else Step(d.ed.(cursorPos := e.cursorPos, state := d.ed.state.(select := false)), None)
  }

  /** fill: end_select with the paint flag set; the flag is cleared afterwards unless an exception intervenes. */
  function Fill(e: Editor): (r: Step)
    ensures r.raised.None? ==> r.ed == EndSelect(e.(state := e.state.(paint := true))).ed.(state := e.state.(paint := false, select := false))
    ensures EditorValid(e) ==> EditorValid(r.ed)
  {
    var s := EndSelect(e.(state := e.state.(paint := true)));
    if s.raised.Some? then s else Step(s.ed.(state := s.ed.state.(paint := false)), None)
  }

  /** A selection that starts and ends on the cursor's cell is one cdraw there. */
  lemma SelectOneCell(e: Editor)
    ensures var s := Cdraw(StartSelect(e));
      EndSelect(StartSelect(e)) == if s.raised.Some? then s else Step(s.ed.(state := s.ed.state.(select := false)), None)
  {
    var b := SelectCubeBounds(e.cursorPos, e.cursorPos);
    assert b == (e.cursorPos, e.cursorPos);
    SingleRegion(e.cursorPos);
    var s := StartSelect(e);
    assert s.(cursorPos := e.cursorPos) == s;
    DrawOneCell(s, e.cursorPos);
  }

  /** The loop over a single cell is one cdraw there. */
  lemma DrawOneCell(e: Editor, c: Cell)
    ensures var p := Cdraw(e.(cursorPos := c));
      DrawCells(e, [c]) == if p.raised.Some? then p else Step(p.ed, None)
  {
    assert [c][1..] == [];
  }

  /** The box with equal corners holds just that cell. */
  lemma SingleRegion(c: Cell)
    ensures RegionCells(c, c) == [c]
  {
    assert Extent(c.x, c.x) == 1 && Extent(c.y, c.y) == 1 && Extent(c.z, c.z) == 1;
    assert RowCells(c, 0, 0, 1) == [] + [c];
    assert PlaneCells(c, 1, 0, 1) == [] + [c];
    assert BoxCells(c, 1, 1, 1) == [] + [c];
  }

  /**
   * end_select with the clear flag (and neither paint nor delete) takes away
   * exactly the modules inside the box, whatever their group, and keeps the rest.
   */
  lemma EndSelectClears(e: Editor)
    requires 0 <= e.activeGroup < |e.groups| && e.selectStart.Some?
    requires e.state.clear && !e.state.paint && !e.state.delete
    ensures var r := EndSelect(e);
      var b := SelectCubeBounds(e.selectStart.value, e.cursorPos);
      r.raised.None? && forall x :: x in r.ed.world.pieces <==> x in e.world.pieces && !InBox(x.pos, b.0, b.1)
  {
    var b := SelectCubeBounds(e.selectStart.value, e.cursorPos);
    var cells := RegionCells(b.0, b.1);
    DrawClears(e, cells);
    forall c: Cell ensures c in cells <==> InBox(c, b.0, b.1) {
      RegionCellsExact(b.0, b.1, c);
    }
  }

  /** The end_select loop with the clear flag clears every cell it visits and nothing else. */
  lemma {:induction false} DrawClears(e: Editor, cells: seq<Cell>)
    requires 0 <= e.activeGroup < |e.groups|
    requires e.state.clear && !e.state.paint && !e.state.delete
    ensures var r := DrawCells(e, cells);
      r.raised.None? && forall x :: x in r.ed.world.pieces <==> x in e.world.pieces && x.pos !in cells
    decreases |cells|
  {
    if cells != [] {
      var q := e.(cursorPos := cells[0]);
      CdrawClears(q);
      var e1 := q.(world := Cleared(e.world, cells[0]));
      DrawClears(e1, cells[1..]);
      ClearedCons(e.world, e1.world, DrawCells(e1, cells[1..]).ed.world, cells);
    }
  }

  /** Clearing the first cell and then the rest clears them all. */
  lemma ClearedCons(w: World, w1: World, r: World, cells: seq<Cell>)
    requires cells != []
    requires forall x :: x in w1.pieces <==> x in w.pieces && x.pos != cells[0]
    requires forall x :: x in r.pieces <==> x in w1.pieces && x.pos !in cells[1..]
    ensures forall x :: x in r.pieces <==> x in w.pieces && x.pos !in cells
  {
    assert cells == [cells[0]] + cells[1..];
  }

  /** cdraw with only the clear flag set clears the cursor's cell. */
  lemma CdrawClears(e: Editor)
    requires 0 <= e.activeGroup < |e.groups|
    requires e.state.clear && !e.state.paint && !e.state.delete
    ensures Cdraw(e) == Step(e.(world := Cleared(e.world, e.cursorPos)), None)
  {
    var g := e.groups[e.activeGroup];
    assert ActiveGroup(e) == Ok(Some(e.activeGroup));
    assert Stroke(e, g) == Painted(Cleared(e.world, e.cursorPos), e.cursorRot, None);
  }

  /** cdraw with the paint flag on a plain group places its active module at the cursor when nothing there is of its group. */
  lemma CdrawPaints(e: Editor, m: Mesh)
    requires 0 <= e.activeGroup < |e.groups| && !e.groups[e.activeGroup].room && e.state.paint
    requires ActiveModule(e.groups[e.activeGroup]) == Ok(Some(m))
    requires forall x :: x in e.world.pieces && x.pos == e.cursorPos ==> x.mesh.group != m.group
    ensures Cdraw(e) == Step(e.(world := Place(e.world, m, e.cursorPos, e.cursorRot)), None)
  {
    var g := e.groups[e.activeGroup];
    var placed := Place(e.world, m, e.cursorPos, e.cursorRot);
    CreatedAppends(e.world, m, e.cursorPos, e.cursorRot, e.groups);
    assert ActiveGroup(e) == Ok(Some(e.activeGroup));
    assert PlainPaint(e.world, e.cursorPos, e.cursorRot, e.groups, g) == Painted(placed, e.cursorRot, None);
    assert Stroke(e, g) == Painted(placed, e.cursorRot, None);
  }

  /** The modules a paint loop over cells adds: one module m facing rot per cell, with the next identities. */
  function Strewn(next: nat, m: Mesh, cells: seq<Cell>, rot: int): (r: seq<Piece>)
    ensures |r| == |cells|
    ensures forall i :: 0 <= i < |cells| ==> r[i] == Piece(next + i, m, cells[i], rot)
    decreases |cells|
  {
    if cells == [] then [] else [Piece(next, m, cells[0], rot)] + Strewn(next + 1, m, cells[1..], rot)
  }

  /**
   * The end_select loop with the paint flag on a plain group whose active
   * module is m, over distinct cells holding no module of m's group, adds one
   * module m facing the cursor on each cell, in order.
   */
  lemma {:induction false} DrawPaints(e: Editor, m: Mesh, cells: seq<Cell>)
    requires NoDuplicates(cells)
    requires 0 <= e.activeGroup < |e.groups| && !e.groups[e.activeGroup].room && e.state.paint
    requires ActiveModule(e.groups[e.activeGroup]) == Ok(Some(m))
    requires forall x :: x in e.world.pieces && x.pos in cells ==> x.mesh.group != m.group
    ensures var r := DrawCells(e, cells);
      r.raised.None? && r.ed.world.pieces == e.world.pieces + Strewn(e.world.next, m, cells, e.cursorRot) &&
      r.ed.world.next == e.world.next + |cells|
    decreases |cells|
  {
    if cells != [] {
      PaintedRestFree(e.world, m, cells, e.cursorRot);
      DrawPaints(e.(cursorPos := cells[0], world := Place(e.world, m, cells[0], e.cursorRot)), m, cells[1..]);
      DrawPaintStep(e, m, cells);
    }
  }

  /** The paint loop places m on the first cell, then goes on from there over the rest. */
  lemma DrawPaintStep(e: Editor, m: Mesh, cells: seq<Cell>)
    requires cells != []
    requires 0 <= e.activeGroup < |e.groups| && !e.groups[e.activeGroup].room && e.state.paint
    requires ActiveModule(e.groups[e.activeGroup]) == Ok(Some(m))
    requires forall x :: x in e.world.pieces && x.pos in cells ==> x.mesh.group != m.group
    requires var e1 := e.(cursorPos := cells[0], world := Place(e.world, m, cells[0], e.cursorRot));
      var r := DrawCells(e1, cells[1..]);
      r.raised.None? && r.ed.world.pieces == e1.world.pieces + Strewn(e1.world.next, m, cells[1..], e1.cursorRot) &&
      r.ed.world.next == e1.world.next + |cells[1..]|
    ensures DrawCells(e, cells).raised.None?
    ensures DrawCells(e, cells).ed.world.pieces == e.world.pieces + Strewn(e.world.next, m, cells, e.cursorRot)
    ensures DrawCells(e, cells).ed.world.next == e.world.next + |cells|
  {
    var e1 := e.(cursorPos := cells[0], world := Place(e.world, m, cells[0], e.cursorRot));
    DrawFirstPaints(e, m, cells, e1);
    PaintedPieces(DrawCells(e1, cells[1..]).ed.world.pieces, e.world, e1.world, m, cells, e.cursorRot);
  }

  /**
   * Modules listed as those of w1 (w with the first module strewn on cells
   * added), then those strewn on the other cells, are w's modules then those
   * strewn on all cells.
   */
  lemma PaintedPieces(x: seq<Piece>, w: World, w1: World, m: Mesh, cells: seq<Cell>, rot: int)
    requires cells != []
    requires w1.pieces == w.pieces + [Piece(w.next, m, cells[0], rot)] && w1.next == w.next + 1
    requires x == w1.pieces + Strewn(w1.next, m, cells[1..], rot)
    ensures x == w.pieces + Strewn(w.next, m, cells, rot)
  {
    StrewnAfter(w.pieces, w.next, m, cells, rot);
  }

  /** The first pass of the paint loop places m on the first cell and moves the cursor there. */
  lemma DrawFirstPaints(e: Editor, m: Mesh, cells: seq<Cell>, e1: Editor)
    requires cells != []
    requires 0 <= e.activeGroup < |e.groups| && !e.groups[e.activeGroup].room && e.state.paint
    requires ActiveModule(e.groups[e.activeGroup]) == Ok(Some(m))
    requires forall x :: x in e.world.pieces && x.pos in cells ==> x.mesh.group != m.group
    requires e1 == e.(cursorPos := cells[0], world := Place(e.world, m, cells[0], e.cursorRot))
    ensures DrawCells(e, cells) == DrawCells(e1, cells[1..])
  {
    var q := e.(cursorPos := cells[0]);
    assert cells[0] in cells;
    CdrawPaints(q, m);
  }

  /** Once m is placed on the first cell, the other cells still hold no module of m's group, and stay distinct. */
  lemma PaintedRestFree(w: World, m: Mesh, cells: seq<Cell>, rot: int)
    requires cells != [] && NoDuplicates(cells)
    requires forall x :: x in w.pieces && x.pos in cells ==> x.mesh.group != m.group
    ensures NoDuplicates(cells[1..])
    ensures forall x :: x in Place(w, m, cells[0], rot).pieces && x.pos in cells[1..] ==> x.mesh.group != m.group
  {
    forall i, j | 0 <= i < j < |cells| - 1 ensures cells[1..][i] != cells[1..][j] {
      assert cells[i + 1] != cells[j + 1];
    }
    forall x | x in Place(w, m, cells[0], rot).pieces && x.pos in cells[1..] ensures x.mesh.group != m.group {
      var k :| 0 <= k < |cells| - 1 && cells[1..][k] == x.pos;
      assert cells[k + 1] == x.pos && cells[0] != cells[k + 1];
    }
  }

  /** The first strewn module, then those on the other cells, are the modules strewn on all. */
  lemma StrewnAfter(ps: seq<Piece>, next: nat, m: Mesh, cells: seq<Cell>, rot: int)
    requires cells != []
    ensures (ps + [Piece(next, m, cells[0], rot)]) + Strewn(next + 1, m, cells[1..], rot) == ps + Strewn(next, m, cells, rot)
  {
    var p := Piece(next, m, cells[0], rot);
    var rest := Strewn(next + 1, m, cells[1..], rot);
    assert Strewn(next, m, cells, rot) == [p] + rest;
    assert (ps + [p]) + rest == ps + ([p] + rest);
  }

  /**
   * fill on a plain group whose active module is m, over a box holding no
   * module of m's group: one module m facing the cursor is added on each cell
   * of the box, in the box's order, after the modules already there; the
   * cursor stays where it was and the paint and select flags end clear.
   */
  lemma FillPaintsRegion(e: Editor, m: Mesh)
    requires 0 <= e.activeGroup < |e.groups| && !e.groups[e.activeGroup].room && e.selectStart.Some?
    requires ActiveModule(e.groups[e.activeGroup]) == Ok(Some(m))
    requires var b := SelectCubeBounds(e.selectStart.value, e.cursorPos);
      forall x :: x in e.world.pieces && InBox(x.pos, b.0, b.1) ==> x.mesh.group != m.group
    ensures var r := Fill(e);
      var b := SelectCubeBounds(e.selectStart.value, e.cursorPos);
      var cells := RegionCells(b.0, b.1);
      var n := |e.world.pieces|;
      r.raised.None? && r.ed == e.(world := r.ed.world, state := e.state.(paint := false, select := false)) &&
      r.ed.world.next == e.world.next + |cells| &&
      |r.ed.world.pieces| == n + |cells| && r.ed.world.pieces[..n] == e.world.pieces &&
      forall i :: 0 <= i < |cells| ==> r.ed.world.pieces[n + i] == Piece(e.world.next + i, m, cells[i], e.cursorRot)
  {
    var b := SelectCubeBounds(e.selectStart.value, e.cursorPos);
    var cells := RegionCells(b.0, b.1);
    FillAppends(e, m);
    StrewnListed(e.world.pieces, e.world.next, m, cells, e.cursorRot);
  }

  /** fill over such a box appends the strewn modules to the scene. */
  lemma FillAppends(e: Editor, m: Mesh)
    requires 0 <= e.activeGroup < |e.groups| && !e.groups[e.activeGroup].room && e.selectStart.Some?
    requires ActiveModule(e.groups[e.activeGroup]) == Ok(Some(m))
    requires var b := SelectCubeBounds(e.selectStart.value, e.cursorPos);
      forall x :: x in e.world.pieces && InBox(x.pos, b.0, b.1) ==> x.mesh.group != m.group
    ensures var r := Fill(e);
      var b := SelectCubeBounds(e.selectStart.value, e.cursorPos);
      var cells := RegionCells(b.0, b.1);
      r.raised.None? && r.ed == e.(world := r.ed.world, state := e.state.(paint := false, select := false)) &&
      r.ed.world.pieces == e.world.pieces + Strewn(e.world.next, m, cells, e.cursorRot) &&
      r.ed.world.next == e.world.next + |cells|
  {
    var b := SelectCubeBounds(e.selectStart.value, e.cursorPos);
    var cells := RegionCells(b.0, b.1);
    var e1 := e.(state := e.state.(paint := true));
    RegionCellsExact(b.0, b.1, e.cursorPos);
    forall x | x in e.world.pieces && x.pos in cells ensures x.mesh.group != m.group {
      RegionCellsExact(b.0, b.1, x.pos);
    }
    DrawPaints(e1, m, cells);
  }

  /** A scene followed by strewn modules: the scene first, then one module per cell. */
  lemma StrewnListed(ps: seq<Piece>, next: nat, m: Mesh, cells: seq<Cell>, rot: int)
    ensures var r := ps + Strewn(next, m, cells, rot);
      |r| == |ps| + |cells| && r[..|ps|] == ps &&
      forall i :: 0 <= i < |cells| ==> r[|ps| + i] == Piece(next + i, m, cells[i], rot)
  {
    var f := Strewn(next, m, cells, rot);
    assert (ps + f)[..|ps|] == ps;
    forall i | 0 <= i < |cells| ensures (ps + f)[|ps| + i] == Piece(next + i, m, cells[i], rot) {
      AppendedAt(ps, f, i);
    }
  }
}
