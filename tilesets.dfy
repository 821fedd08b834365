// The tileset bookkeeping of testudo3d/__init__.py: T3DProperties keeps a
// list of tilesets (TilesetPropertyGroup), the index of the current one, the
// enum items listing the current tileset's tiles and the chosen tile preview.
// refresh_tilesets regroups the scene's tile groups by their tileset name,
// set_tileset_idx guards and switches the current tileset, and the Up, Down
// and Refresh actions of TilesetActionsOperator.invoke drive both.
//
// The scene's groups are a parameter. The modal operator is represented by a
// Mode: whether it runs, and whether in manual or automatic mode. The tile
// preview is an enum property: it stores the number of an item and is read
// and written through the item's name.

module Tilesets {
  import opened Wrappers
  import Operator

  /** A TilesetPropertyGroup: its name, its tiles' names, its rules text and the tile last chosen in it. */
  datatype Tileset = Tileset(name: string, tiles: seq<string>, rules: string, lastTile: string)

  /**
   * A group of the scene as refresh_tilesets sees it: its name and, when the group
   * holds an object of that same name, the object's tileset property.
   */
  datatype Group = Group(name: string, member: Option<string>)

  /** Not running modal, or running in automatic or manual mode. */
  datatype Mode = Stopped | Auto | Manual

  /** How a property update ended: done, refused by the auto-mode guard, or with an exception. */
  datatype Outcome = Done | Refused | Raised(error: PyError)

  /** The properties the operations read and write. */
  datatype State = State(tilesets: seq<Tileset>, idx: int, items: seq<string>, preview: int)

  /** A new state and how the update ended. */
  datatype Step = Step(state: State, outcome: Outcome)

  /** The actions of TilesetActionsOperator. */
  datatype Action = Up | Down | RefreshAction

  /** get_tileset: None for an empty list, otherwise tilesets[tileset_idx], which may raise IndexError. */
  function GetTileset(tilesets: seq<Tileset>, idx: int): (r: Result<Option<Tileset>, PyError>)
    ensures r.Ok? && r.value.None? <==> tilesets == []
    ensures r.Err? <==> tilesets != [] && PyIndex(|tilesets|, idx).None?
    ensures r.Err? ==> r.error == IndexError
    ensures r.Ok? && r.value.Some? ==> r.value.value in tilesets
  {
    if tilesets == [] then Ok(None)
    else
      match PyIndex(|tilesets|, idx)
      case None => Err(IndexError)
      case Some(k) => Ok(Some(tilesets[k]))
  }

  /** The first position of x among the enum items: the number an enum assignment by name stores. */
  function Position(items: seq<string>, x: string): (i: nat)
    requires x in items
    ensures i < |items| && items[i] == x && x !in items[..i]
  {
    if items[0] == x then 0
    else
      var i := Position(items[1..], x);
      assert items[..i + 1] == [items[0]] + items[1..][..i];
      i + 1
  }

  /** Reading tile_previews: the name of the item its number designates, or "" when there is none. */
  function PreviewName(s: State): (r: string)
    ensures 0 <= s.preview < |s.items| ==> r == s.items[s.preview]
    ensures r != "" ==> r in s.items
  {
    if 0 <= s.preview < |s.items| then s.items[s.preview] else ""
  }

  /**
   * refresh_enum_items: the items are emptied, then become the current tileset's
   * tiles; IndexError when tileset_idx designates no tileset of a non-empty list.
   */
  function ItemsRefreshed(s: State): (r: Step)
    ensures r.state == s.(items := r.state.items)
    ensures r.outcome == Done || r.outcome == Raised(IndexError)
    ensures r.outcome == Done <==> GetTileset(s.tilesets, s.idx).Ok?
    ensures s.tilesets == [] ==> r.state.items == []
    ensures (forall k :: PyIndex(|s.tilesets|, s.idx) == Some(k) ==> r.state.items == s.tilesets[k].tiles)
    ensures r.outcome.Raised? ==> r.state.items == []
  {
    match GetTileset(s.tilesets, s.idx)
    case Err(e) => Step(s.(items := []), Raised(e))
    case Ok(None) => Step(s.(items := []), Done)
    case Ok(Some(t)) => Step(s.(items := t.tiles), Done)
  }

  /** The manual-mode save: the current tileset remembers the tile preview shown. */
  function LastTileSaved(s: State): (r: State)
    requires PyIndex(|s.tilesets|, s.idx).Some?
    ensures r.idx == s.idx && r.items == s.items && r.preview == s.preview
    ensures |r.tilesets| == |s.tilesets|
    ensures forall k :: PyIndex(|s.tilesets|, s.idx) == Some(k) ==> r.tilesets == s.tilesets[k := s.tilesets[k].(lastTile := PreviewName(s))]
  {
    var k := PyIndex(|s.tilesets|, s.idx).value;
    s.(tilesets := s.tilesets[k := s.tilesets[k].(lastTile := PreviewName(s))])
  }

  /**
   * The manual-mode restore: the tile last chosen in the new tileset when it is one
   * of the items, the first item otherwise, and IndexError when there is no item.
   */
  function TileRestored(s: State): (r: Step)
    requires PyIndex(|s.tilesets|, s.idx).Some?
    ensures r.state == s.(preview := r.state.preview)
    ensures r.outcome == Done || r.outcome == Raised(IndexError)
    ensures forall k :: PyIndex(|s.tilesets|, s.idx) == Some(k) ==> (
      var last := s.tilesets[k].lastTile;
      if last != "" && last in s.items then r.outcome == Done && PreviewName(r.state) == last
      else if s.items == [] then r.outcome == Raised(IndexError)
      else r.outcome == Done && r.state.preview == 0)
  {
    var last := s.tilesets[PyIndex(|s.tilesets|, s.idx).value].lastTile;
    if last != "" && last in s.items then Step(s.(preview := Position(s.items, last)), Done)
    else if s.items == [] then Step(s, Raised(IndexError))
    else Step(s.(preview := Position(s.items, s.items[0])), Done)
  }

  /**
   * set_tileset_idx. In automatic mode an index that designates no tileset raises
   * IndexError and one whose tileset has no rules is refused; in manual mode the
   * current tileset first remembers the tile shown, and after the switch the new
   * tileset's remembered tile is shown again.
   */
  function IndexSet(s: State, value: int, mode: Mode): (r: Step)
    ensures mode == Auto && PyIndex(|s.tilesets|, value).None? ==> r == Step(s, Raised(IndexError))
    ensures r.outcome == Refused <==> (mode == Auto && exists k :: PyIndex(|s.tilesets|, value) == Some(k) && s.tilesets[k].rules == "")
    ensures r.outcome == Refused ==> r.state == s
    ensures mode == Manual && s.tilesets == [] ==> r == Step(s, Raised(AttributeError))
    ensures r.outcome == Done ==> r.state.idx == value && |r.state.tilesets| == |s.tilesets|
    ensures mode != Manual ==> r.state.tilesets == s.tilesets
  {
    if mode == Auto && PyIndex(|s.tilesets|, value).None? then Step(s, Raised(IndexError))
    else if mode == Auto && s.tilesets[PyIndex(|s.tilesets|, value).value].rules == "" then Step(s, Refused)
    else if mode == Manual && s.tilesets == [] then Step(s, Raised(AttributeError))
    else if mode == Manual && PyIndex(|s.tilesets|, s.idx).None? then Step(s, Raised(IndexError))
    else
      var saved := if mode == Manual then LastTileSaved(s) else s;
      var moved := ItemsRefreshed(saved.(idx := value));
      if moved.outcome.Raised? || mode != Manual then moved
      else TileRestored(moved.state)
  }

  // ---------------------------------------------------------------------------
  // refresh_tilesets

  /**
   * {tileset.tileset: tileset for tileset in tilesets}: each name maps to the LAST
   * tileset carrying it.
   */
  function IndexByName(tilesets: seq<Tileset>): (r: map<string, nat>)
    ensures forall n :: n in r ==> r[n] < |tilesets| && tilesets[r[n]].name == n
    ensures forall i :: 0 <= i < |tilesets| ==> tilesets[i].name in r && i <= r[tilesets[i].name]
  {
    if tilesets == [] then map[]
    else
      var last := |tilesets| - 1;
      IndexByName(tilesets[..last])[tilesets[last].name := last]
  }

  /** Every tileset with its tiles cleared. */
  function Cleared(tilesets: seq<Tileset>): (r: seq<Tileset>)
    ensures |r| == |tilesets|
    ensures forall i :: 0 <= i < |r| ==> r[i] == tilesets[i].(tiles := [])
  {
    seq(|tilesets|, i requires 0 <= i < |tilesets| => tilesets[i].(tiles := []))
  }

  /** The tilesets being regrouped and the name-to-position dictionary beside them. */
  datatype Filing = Filing(tilesets: seq<Tileset>, index: map<string, nat>)

  /** The dictionary names positions holding tilesets of that name. */
  predicate IndexValid(f: Filing)
  {
    forall n :: n in f.index ==> f.index[n] < |f.tilesets| && f.tilesets[f.index[n]].name == n
  }

  /** The regrouping before any group is filed: tiles cleared, the dictionary built. */
  function Start(tilesets: seq<Tileset>): (r: Filing)
    ensures IndexValid(r)
  {
    Filing(Cleared(tilesets), IndexByName(tilesets))
  }

  /** File one group: skip it unless it holds a same-named object with a tileset name; add the tileset on first sight. */
  function File(f: Filing, g: Group): (r: Filing)
    requires IndexValid(f)
    ensures IndexValid(r)
  {
    match g.member
    case None => f
    case Some(n) =>
      if n == "" then f
      else
        var added := if n in f.index then f
          else Filing(f.tilesets + [Tileset(n, [], "", "")], f.index[n := |f.tilesets|]);
        var k := added.index[n];
        Filing(added.tilesets[k := added.tilesets[k].(tiles := added.tilesets[k].tiles + [g.name])], added.index)
  }

  /** The groups filed in order. */
  function FileAll(f: Filing, groups: seq<Group>): (r: Filing)
    requires IndexValid(f)
    ensures IndexValid(r)
  {
    if groups == [] then f
    else File(FileAll(f, groups[..|groups| - 1]), groups[|groups| - 1])
  }

  /** The names of the groups filed under tileset name n, in group order. */
  function FiledUnder(groups: seq<Group>, n: string): (r: seq<string>)
    ensures n == "" ==> r == []
    ensures forall x :: x in r <==> exists g :: g in groups && g.name == x && g.member == Some(n) && n != ""
  {
    if groups == [] then []
    else
      var last := groups[|groups| - 1];
      var before := groups[..|groups| - 1];
      assert groups == before + [last];
      FiledUnder(before, n) + (if n != "" && last.member == Some(n) then [last.name] else [])
  }

  /** A tileset with tiles keeps them; one without is dropped. */
  function DropEmpty(tilesets: seq<Tileset>): (r: seq<Tileset>)
    ensures |r| <= |tilesets|
  {
    if tilesets == [] then []
    else (if tilesets[0].tiles == [] then [] else [tilesets[0]]) + DropEmpty(tilesets[1..])
  }

  /** Dropping keeps exactly the tilesets with tiles. */
  lemma {:induction false} DropEmptyMembers(tilesets: seq<Tileset>)
    ensures forall t :: t in DropEmpty(tilesets) <==> t in tilesets && t.tiles != []
  {
    if tilesets != [] {
      DropEmptyMembers(tilesets[1..]);
      assert tilesets == [tilesets[0]] + tilesets[1..];
    }
  }

  /** The tilesets refresh_tilesets leaves: regrouped, then the empty ones removed. */
  function Refreshed(tilesets: seq<Tileset>, groups: seq<Group>): seq<Tileset>
  {
    DropEmpty(FileAll(Start(tilesets), groups).tilesets)
  }

  /** The end of refresh_tilesets: set tileset_idx to its clamped value, then refresh the enum items. */
  function Settled(s: State, mode: Mode): (r: Step)
    ensures r.outcome != Refused
    ensures mode != Manual ==> r.state.tilesets == s.tilesets
  {
    var moved := IndexSet(s, Operator.Clamp(s.idx, 0, |s.tilesets| - 1), mode);
    if moved.outcome.Raised? then moved
    else ItemsRefreshed(moved.state)
  }

  /** refresh_tilesets: regroup, then settle the index and the enum items. */
  function Refresh(s: State, groups: seq<Group>, mode: Mode): (r: Step)
    ensures r.outcome != Refused
    ensures mode != Manual ==> r.state.tilesets == Refreshed(s.tilesets, groups)
  {
    Settled(s.(tilesets := Refreshed(s.tilesets, groups)), mode)
  }

  /** TilesetActionsOperator.invoke: Up and Down move one place when the index is valid and a neighbour exists. */
  function Invoked(s: State, action: Action, groups: seq<Group>, mode: Mode): (r: Step)
    ensures action == RefreshAction ==> r == Refresh(s, groups, mode)
    ensures action != RefreshAction && PyIndex(|s.tilesets|, s.idx).None? ==> r == Step(s, Done)
    ensures action == Down && !(s.idx < |s.tilesets| - 1) ==> r == Step(s, Done)
    ensures action == Up && !(s.idx >= 1) ==> r == Step(s, Done)
  {
    var moved := Navigated(s, action, mode);
    if action == RefreshAction then Refresh(moved.state, groups, mode) else moved
  }

  /** The Up/Down part of invoke: a step to a neighbour through the tileset_idx setter, or nothing. */
  function Navigated(s: State, action: Action, mode: Mode): Step
  {
    if PyIndex(|s.tilesets|, s.idx).None? then Step(s, Done)
    else if action == Down && s.idx < |s.tilesets| - 1 then IndexSet(s, s.idx + 1, mode)
    else if action == Up && s.idx >= 1 then IndexSet(s, s.idx - 1, mode)
    else Step(s, Done)
  }

  // ---------------------------------------------------------------------------
  // What refresh_tilesets promises

  /** No two tilesets share a name. */
  predicate NamesDistinct(tilesets: seq<Tileset>)
  {
    forall i, j :: 0 <= i < j < |tilesets| ==> tilesets[i].name != tilesets[j].name
  }

  /** The old tilesets keep their place, name, rules and last tile. */
  predicate OldKept(ts0: seq<Tileset>, f: Filing)
  {
    |ts0| <= |f.tilesets| &&
    forall i :: 0 <= i < |ts0| ==>
      f.tilesets[i].name == ts0[i].name && f.tilesets[i].rules == ts0[i].rules && f.tilesets[i].lastTile == ts0[i].lastTile
  }

  /** The tilesets after the old ones carry new names and neither rules nor a last tile. */
  predicate NewFresh(ts0: seq<Tileset>, f: Filing)
  {
    forall i :: |ts0| <= i < |f.tilesets| ==>
      f.tilesets[i].name !in IndexByName(ts0) && f.tilesets[i].rules == "" && f.tilesets[i].lastTile == ""
  }

  /** The dictionary still sends every old name where it did. */
  predicate IndexKept(ts0: seq<Tileset>, f: Filing)
  {
    forall n :: n in IndexByName(ts0) ==> n in f.index && f.index[n] == IndexByName(ts0)[n]
  }

  /** A tileset holds the groups filed under its name when the dictionary sends its name to it, and nothing otherwise. */
  predicate TilesFiled(gs: seq<Group>, f: Filing)
  {
    forall i :: 0 <= i < |f.tilesets| ==> (f.tilesets[i].name in f.index &&
      f.tilesets[i].tiles == (if f.index[f.tilesets[i].name] == i then FiledUnder(gs, f.tilesets[i].name) else []))
  }

  /** Every name some group is filed under is in the dictionary. */
  ghost predicate NamesIndexed(gs: seq<Group>, f: Filing)
  {
    forall n :: FiledUnder(gs, n) != [] ==> n in f.index
  }

  /** What filing the groups gs keeps true, starting from tilesets ts0. */
  ghost predicate FiledFrom(ts0: seq<Tileset>, gs: seq<Group>, f: Filing)
  {
    IndexValid(f) && OldKept(ts0, f) && NewFresh(ts0, f) && IndexKept(ts0, f) && TilesFiled(gs, f) && NamesIndexed(gs, f)
  }

  /** Before any group is filed, FiledFrom holds of the cleared tilesets. */
  lemma FiledStart(ts0: seq<Tileset>)
    ensures FiledFrom(ts0, [], Start(ts0))
  {
    forall n ensures FiledUnder([], n) == [] { }
  }

  /** Filing after one more group: only the names of that group change. */
  lemma FiledUnderSnoc(gs: seq<Group>, g: Group)
    ensures forall m :: !(g.member == Some(m) && m != "") ==> FiledUnder(gs + [g], m) == FiledUnder(gs, m)
    ensures g.member.Some? && g.member.value != "" ==> FiledUnder(gs + [g], g.member.value) == FiledUnder(gs, g.member.value) + [g.name]
  {
    assert (gs + [g])[..|gs|] == gs;
  }

  /** A group without a same-named object or without a tileset name changes nothing. */
  lemma FileSkip(ts0: seq<Tileset>, gs: seq<Group>, g: Group, f: Filing)
    requires FiledFrom(ts0, gs, f)
    requires g.member.None? || g.member.value == ""
    ensures FiledFrom(ts0, gs + [g], File(f, g))
  {
    FiledUnderSnoc(gs, g);
  }

  /** Appending a tile to the tileset the dictionary names for a known name keeps the tiles filed. */
  lemma KnownTilesFiled(gs: seq<Group>, g: Group, f: Filing, r: Filing)
    requires IndexValid(f) && TilesFiled(gs, f)
    requires g.member.Some? && g.member.value != "" && g.member.value in f.index
    requires var k := f.index[g.member.value];
      r.tilesets == f.tilesets[k := f.tilesets[k].(tiles := f.tilesets[k].tiles + [g.name])]
    requires r.index == f.index
    requires NamesIndexed(gs, f)
    ensures TilesFiled(gs + [g], r) && NamesIndexed(gs + [g], r)
  {
    FiledUnderSnoc(gs, g);
  }

  /** A group filed under a known name joins the tileset the dictionary names. */
  lemma FileKnown(ts0: seq<Tileset>, gs: seq<Group>, g: Group, f: Filing)
    requires FiledFrom(ts0, gs, f)
    requires g.member.Some? && g.member.value != "" && g.member.value in f.index
    ensures FiledFrom(ts0, gs + [g], File(f, g))
  {
    var n := g.member.value;
    var k := f.index[n];
    var r := File(f, g);
    assert r.tilesets == f.tilesets[k := f.tilesets[k].(tiles := f.tilesets[k].tiles + [g.name])];
    assert r.index == f.index;
    KnownTilesFiled(gs, g, f, r);
    KnownKept(ts0, g, f, r);
  }

  /** Appending a tile to a known tileset keeps the old tilesets and the new ones as they were. */
  lemma KnownKept(ts0: seq<Tileset>, g: Group, f: Filing, r: Filing)
    requires OldKept(ts0, f) && NewFresh(ts0, f) && IndexKept(ts0, f)
    requires g.member.Some? && g.member.value in f.index && f.index[g.member.value] < |f.tilesets|
    requires var k := f.index[g.member.value];
      r.tilesets == f.tilesets[k := f.tilesets[k].(tiles := f.tilesets[k].tiles + [g.name])]
    requires r.index == f.index
    ensures OldKept(ts0, r) && NewFresh(ts0, r) && IndexKept(ts0, r)
  {
  }

  /** The new tileset appended for a name never seen keeps the tiles filed. */
  lemma NewTilesFiled(gs: seq<Group>, g: Group, f: Filing, r: Filing)
    requires IndexValid(f) && TilesFiled(gs, f) && NamesIndexed(gs, f)
    requires g.member.Some? && g.member.value != "" && g.member.value !in f.index
    requires r.tilesets == f.tilesets + [Tileset(g.member.value, [g.name], "", "")]
    requires r.index == f.index[g.member.value := |f.tilesets|]
    ensures TilesFiled(gs + [g], r) && NamesIndexed(gs + [g], r)
  {
    FiledUnderSnoc(gs, g);
    var n := g.member.value;
    assert FiledUnder(gs, n) == [];
    forall i | 0 <= i < |f.tilesets| ensures f.tilesets[i].name != n {
      assert f.tilesets[i].name in f.index;
    }
  }

  /** The new tileset appended for a name never seen is fresh, and the old ones are kept. */
  lemma NewKept(ts0: seq<Tileset>, g: Group, f: Filing, r: Filing)
    requires OldKept(ts0, f) && NewFresh(ts0, f) && IndexKept(ts0, f)
    requires g.member.Some? && g.member.value != "" && g.member.value !in f.index
    requires r.tilesets == f.tilesets + [Tileset(g.member.value, [g.name], "", "")]
    requires r.index == f.index[g.member.value := |f.tilesets|]
    ensures OldKept(ts0, r) && NewFresh(ts0, r) && IndexKept(ts0, r)
  {
  }

  /** A group filed under a new name starts a new tileset at the end. */
  lemma FileNew(ts0: seq<Tileset>, gs: seq<Group>, g: Group, f: Filing)
    requires FiledFrom(ts0, gs, f)
    requires g.member.Some? && g.member.value != "" && g.member.value !in f.index
    ensures FiledFrom(ts0, gs + [g], File(f, g))
  {
    var n := g.member.value;
    var L := |f.tilesets|;
    var added := Filing(f.tilesets + [Tileset(n, [], "", "")], f.index[n := L]);
    assert added.index[n] == L;
    var r := File(f, g);
    assert added.tilesets[L].tiles + [g.name] == [g.name];
    assert r == Filing(added.tilesets[L := added.tilesets[L].(tiles := [g.name])], added.index);
    assert r.tilesets == f.tilesets + [Tileset(n, [g.name], "", "")];
    NewTilesFiled(gs, g, f, r);
    NewKept(ts0, g, f, r);
  }

  /** Filing one more group keeps FiledFrom. */
  lemma FileStep(ts0: seq<Tileset>, gs: seq<Group>, g: Group, f: Filing)
    requires FiledFrom(ts0, gs, f)
    ensures FiledFrom(ts0, gs + [g], File(f, g))
  {
    if g.member.None? || g.member.value == "" {
      FileSkip(ts0, gs, g, f);
    } else if g.member.value in f.index {
      FileKnown(ts0, gs, g, f);
    } else {
      FileNew(ts0, gs, g, f);
    }
  }

  /** Filing the groups in order from the cleared tilesets keeps FiledFrom. */
  lemma {:induction false} FileAllFiled(ts0: seq<Tileset>, gs: seq<Group>)
    ensures FiledFrom(ts0, gs, FileAll(Start(ts0), gs))
  {
    if gs == [] {
      FiledStart(ts0);
    } else {
      var before := gs[..|gs| - 1];
      FileAllFiled(ts0, before);
      FileStep(ts0, before, gs[|gs| - 1], FileAll(Start(ts0), before));
      assert before + [gs[|gs| - 1]] == gs;
    }
  }

  /** Dropping the empty tilesets leaves distinct names when no two non-empty ones share a name. */
  lemma {:induction false} DropEmptyDistinct(s: seq<Tileset>)
    requires forall i, j :: 0 <= i < |s| && 0 <= j < |s| && s[i].tiles != [] && s[j].tiles != [] && s[i].name == s[j].name ==> i == j
    ensures NamesDistinct(DropEmpty(s))
  {
    if s != [] {
      var rest := s[1..];
      DropEmptyDistinct(rest);
      DropEmptyMembers(rest);
      var d := DropEmpty(rest);
      if s[0].tiles != [] {
        forall i | 0 <= i < |d| ensures d[i].name != s[0].name {
          assert d[i] in rest;
          var j :| 0 <= j < |rest| && rest[j] == d[i];
          assert s[j + 1] == d[i];
        }
        assert DropEmpty(s) == [s[0]] + d;
      } else {
        assert DropEmpty(s) == d;
      }
    }
  }

  /**
   * refresh_tilesets (with the removal corrected, see RemoveEmptyAsWritten): every
   * tileset left has tiles, which are exactly the groups filed under its name, in
   * the scene's order; no two share a name; every group holding a same-named object
   * with a tileset name lands in the tileset of that name; and a tileset that existed
   * before keeps the rules and last tile of the last tileset that carried its name,
   * while a new one has neither.
   */
  lemma RefreshedSpec(ts0: seq<Tileset>, gs: seq<Group>)
    ensures forall t :: t in Refreshed(ts0, gs) ==> t.tiles != [] && t.tiles == FiledUnder(gs, t.name)
    ensures NamesDistinct(Refreshed(ts0, gs))
    ensures forall g :: g in gs && g.member.Some? && g.member.value != "" ==>
      exists t :: t in Refreshed(ts0, gs) && t.name == g.member.value && g.name in t.tiles
    ensures forall t :: t in Refreshed(ts0, gs) ==>
      if t.name in IndexByName(ts0) then
        t.rules == ts0[IndexByName(ts0)[t.name]].rules && t.lastTile == ts0[IndexByName(ts0)[t.name]].lastTile
      else t.rules == "" && t.lastTile == ""
  {
    FileAllFiled(ts0, gs);
    var f := FileAll(Start(ts0), gs);
    forall t | t in Refreshed(ts0, gs)
      ensures t.tiles != [] && t.tiles == FiledUnder(gs, t.name)
      ensures if t.name in IndexByName(ts0) then
        t.rules == ts0[IndexByName(ts0)[t.name]].rules && t.lastTile == ts0[IndexByName(ts0)[t.name]].lastTile
        else t.rules == "" && t.lastTile == ""
    {
      RefreshedTileset(ts0, gs, f, t);
    }
    DropEmptyDistinct(f.tilesets);
    forall g | g in gs && g.member.Some? && g.member.value != ""
      ensures exists t :: t in Refreshed(ts0, gs) && t.name == g.member.value && g.name in t.tiles
    {
      RefreshedCovers(ts0, gs, f, g);
    }
  }

  /** One tileset refresh_tilesets leaves: its tiles, rules and last tile. */
  lemma RefreshedTileset(ts0: seq<Tileset>, gs: seq<Group>, f: Filing, t: Tileset)
    requires f == FileAll(Start(ts0), gs) && FiledFrom(ts0, gs, f)
    requires t in DropEmpty(f.tilesets)
    ensures t.tiles != [] && t.tiles == FiledUnder(gs, t.name)
    ensures if t.name in IndexByName(ts0) then
      t.rules == ts0[IndexByName(ts0)[t.name]].rules && t.lastTile == ts0[IndexByName(ts0)[t.name]].lastTile
      else t.rules == "" && t.lastTile == ""
  {
    DropEmptyMembers(f.tilesets);
    var i :| 0 <= i < |f.tilesets| && f.tilesets[i] == t;
    assert f.index[t.name] == i;
  }

  /** A group filed under a name lands in the tileset of that name that refresh_tilesets leaves. */
  lemma RefreshedCovers(ts0: seq<Tileset>, gs: seq<Group>, f: Filing, g: Group)
    requires f == FileAll(Start(ts0), gs) && FiledFrom(ts0, gs, f)
    requires g in gs && g.member.Some? && g.member.value != ""
    ensures exists t :: t in DropEmpty(f.tilesets) && t.name == g.member.value && g.name in t.tiles
  {
    var n := g.member.value;
    assert g.name in FiledUnder(gs, n);
    var k := f.index[n];
    assert f.tilesets[k].name == n;
    assert f.tilesets[k].tiles == FiledUnder(gs, n);
    DropEmptyMembers(f.tilesets);
    assert f.tilesets[k] in DropEmpty(f.tilesets);
  }

  /**
   * The removal loop as written: enumerate moves on to the next position after a
   * removal, so the tileset that slid into the removed one's place is never looked
   * at. Every tileset with tiles is kept, and nothing new appears.
   */
  function RemoveEmptyAsWritten(tilesets: seq<Tileset>, i: nat): (r: seq<Tileset>)
    ensures forall t :: t in tilesets && t.tiles != [] ==> t in r
    ensures forall t :: t in r ==> t in tilesets
    decreases |tilesets| - i
  {
    if i >= |tilesets| then tilesets
    else if tilesets[i].tiles == [] then
      var rest := tilesets[..i] + tilesets[i + 1..];
      assert forall t :: t in tilesets && t != tilesets[i] ==> t in rest by {
        assert tilesets == tilesets[..i] + [tilesets[i]] + tilesets[i + 1..];
      }
      RemoveEmptyAsWritten(rest, i + 1)
    else RemoveEmptyAsWritten(tilesets, i + 1)
  }

  /**
   * Two tilesets left without tiles by the regrouping: the loop as written removes
   * the first and skips the second, which stays behind with no tiles, where the
   * corrected removal drops both.
   */
  lemma RemovalSkipsAsWritten()
    ensures var a := Tileset("a", [], "", "");
      var b := Tileset("b", [], "", "");
      var filed := FileAll(Start([a, b]), []).tilesets;
      RemoveEmptyAsWritten(filed, 0) == [b] && b.tiles == [] && DropEmpty(filed) == []
  {
    var a := Tileset("a", [], "", "");
    var b := Tileset("b", [], "", "");
    var filed := FileAll(Start([a, b]), []).tilesets;
    assert filed == [a, b];
    assert filed[..0] + filed[1..] == [b];
    assert RemoveEmptyAsWritten([b], 1) == [b];
    assert DropEmpty([a]) == [];
  }

  // ---------------------------------------------------------------------------
  // What the index guards promise

  /**
   * Outside the modal operator, refresh_tilesets always ends well: the index is
   * clamped into the list, or 0 for an empty list, and the enum items are the tiles
   * of the tileset it designates.
   */
  lemma StoppedSettles(s: State)
    ensures var r := Settled(s, Stopped);
      r.outcome == Done && r.state.tilesets == s.tilesets &&
      (s.tilesets != [] ==> 0 <= r.state.idx < |s.tilesets| && r.state.items == s.tilesets[r.state.idx].tiles) &&
      (s.tilesets == [] ==> r.state.idx == 0 && r.state.items == [])
  {
    var v := Operator.Clamp(s.idx, 0, |s.tilesets| - 1);
    var moved := IndexSet(s, v, Stopped);
    assert moved == ItemsRefreshed(s.(idx := v));
    if s.tilesets != [] {
      assert PyIndex(|s.tilesets|, v) == Some(v);
    }
  }

  /**
   * In automatic mode, a refresh that leaves no tileset raises IndexError: the
   * clamped index 0 is looked up in the empty list.
   */
  lemma AutoSettleEmptyRaises(s: State)
    requires s.tilesets == []
    ensures Settled(s, Auto) == Step(s, Raised(IndexError))
  {
  }

  /**
   * In automatic mode, a refresh whose clamped index designates a tileset without
   * rules leaves tileset_idx where it was, and the enum items are then refreshed
   * against that old index.
   */
  lemma AutoSettleKeepsIndex(s: State)
    requires s.tilesets != [] && s.tilesets[Operator.Clamp(s.idx, 0, |s.tilesets| - 1)].rules == ""
    ensures Settled(s, Auto) == ItemsRefreshed(s)
  {
    var v := Operator.Clamp(s.idx, 0, |s.tilesets| - 1);
    assert PyIndex(|s.tilesets|, v) == Some(v);
    assert IndexSet(s, v, Auto) == Step(s, Refused);
  }

  /** The properties as a running session keeps them: the items list the current tileset's tiles and the preview designates one. */
  predicate Showing(s: State)
  {
    0 <= s.idx < |s.tilesets| && s.items == s.tilesets[s.idx].tiles && 0 <= s.preview < |s.items|
  }

  /**
   * In manual mode, switching to another tileset with tiles and back shows again
   * the tile that was shown before: set_tileset_idx saved it as the first tileset's
   * last tile and restores it on the way back.
   */
  lemma ManualSwitchBack(s: State, other: int)
    requires Showing(s) && PreviewName(s) != ""
    requires 0 <= other < |s.tilesets| && other != s.idx && s.tilesets[other].tiles != []
    ensures var there := IndexSet(s, other, Manual);
      var back := IndexSet(there.state, s.idx, Manual);
      there.outcome == Done && there.state.idx == other &&
      back.outcome == Done && back.state.idx == s.idx && PreviewName(back.state) == PreviewName(s) &&
      back.state.items == s.items
  {
    var p := PreviewName(s);
    var saved := LastTileSaved(s);
    assert saved.tilesets[s.idx].lastTile == p;
    var there := IndexSet(s, other, Manual);
    var moved := ItemsRefreshed(saved.(idx := other));
    assert PyIndex(|saved.tilesets|, other) == Some(other);
    assert moved.state.items == s.tilesets[other].tiles;
    assert there == TileRestored(moved.state);
    var t := there.state;
    assert t.tilesets == saved.tilesets && t.idx == other;
    assert PyIndex(|t.tilesets|, other) == Some(other);
    var saved2 := LastTileSaved(t);
    assert saved2.tilesets[s.idx] == saved.tilesets[s.idx];
    var moved2 := ItemsRefreshed(saved2.(idx := s.idx));
    assert PyIndex(|saved2.tilesets|, s.idx) == Some(s.idx);
    assert moved2.state.items == s.items;
    assert p in s.items;
    assert IndexSet(t, s.idx, Manual) == TileRestored(moved2.state);
  }

  /** Outside the modal operator, Down then Up returns to the same tileset when there is one below. */
  lemma DownThenUp(s: State, groups: seq<Group>)
    requires 0 <= s.idx < |s.tilesets| - 1
    ensures var down := Invoked(s, Down, groups, Stopped);
      var up := Invoked(down.state, Up, groups, Stopped);
      down.outcome == Done && down.state.idx == s.idx + 1 &&
      up.outcome == Done && up.state.idx == s.idx && up.state.tilesets == s.tilesets &&
      up.state.items == s.tilesets[s.idx].tiles
  {
    assert PyIndex(|s.tilesets|, s.idx) == Some(s.idx);
    assert PyIndex(|s.tilesets|, s.idx + 1) == Some(s.idx + 1);
  }

  // ---------------------------------------------------------------------------
  // The properties object

  /** The T3DProperties fields these operations update in place. */
  class Properties {
    var tilesets: seq<Tileset>
    var tilesetIdx: int
    var enumItems: seq<string>
    var tilePreview: int

    /** The defaults: no tileset, index 0, no item, preview number -1. */
    constructor ()
      ensures Snapshot() == State([], 0, [], -1)
    {
      tilesets := [];
      tilesetIdx := 0;
      enumItems := [];
      tilePreview := -1;
    }

    function Snapshot(): State
      reads this
    {
      State(tilesets, tilesetIdx, enumItems, tilePreview)
    }

    /** refresh_enum_items: one item per tile of the current tileset, in order. */
    method RefreshEnumItems() returns (r: Outcome)
      modifies this`enumItems
      ensures Snapshot() == ItemsRefreshed(old(Snapshot())).state
      ensures r == ItemsRefreshed(old(Snapshot())).outcome
    {
      enumItems := [];
      var current := GetTileset(tilesets, tilesetIdx);
      if current.Err? {
        return Raised(current.error);
      }
      if current.value.None? {
        return Done;
      }
      var tiles := current.value.value.tiles;
      for i := 0 to |tiles|
        invariant enumItems == tiles[..i]
      {
        enumItems := enumItems + [tiles[i]];
      }
      assert tiles[..|tiles|] == tiles;
      return Done;
    }

    /** set_tileset_idx, with its automatic-mode guard and its manual-mode save and restore. */
    method SetTilesetIdx(value: int, mode: Mode) returns (r: Outcome)
      modifies this
      ensures Snapshot() == IndexSet(old(Snapshot()), value, mode).state
      ensures r == IndexSet(old(Snapshot()), value, mode).outcome
    {
      if mode == Auto {
        var k := PyIndex(|tilesets|, value);
        if k.None? {
          return Raised(IndexError);
        }
        if tilesets[k.value].rules == "" {
          return Refused;
        }
      }
      if mode == Manual {
        var current := GetTileset(tilesets, tilesetIdx);
        if current.Err? {
          return Raised(current.error);
        }
        if current.value.None? {
          return Raised(AttributeError);
        }
        var k := PyIndex(|tilesets|, tilesetIdx).value;
        tilesets := tilesets[k := tilesets[k].(lastTile := PreviewName(Snapshot()))];
      }
      tilesetIdx := value;
      r := RefreshEnumItems();
      if r.Raised? || mode != Manual {
        return;
      }
      var k := PyIndex(|tilesets|, tilesetIdx).value;
      var last := tilesets[k].lastTile;
      if last != "" && last in enumItems {
        tilePreview := Position(enumItems, last);
      } else if enumItems == [] {
        return Raised(IndexError);
      } else {
        tilePreview := Position(enumItems, enumItems[0]);
      }
    }

    /**
     * refresh_tilesets: clear every tileset's tiles, file each group under its
     * tileset name, remove the tilesets left without tiles, then set the clamped
     * index and refresh the enum items.
     */
    method RefreshTilesets(groups: seq<Group>, mode: Mode) returns (r: Outcome)
      modifies this
      ensures Snapshot() == Refresh(old(Snapshot()), groups, mode).state
      ensures r == Refresh(old(Snapshot()), groups, mode).outcome
    {
      ghost var before := Snapshot();
      FileGroups(groups);
      RemoveEmpty();
      assert Snapshot() == before.(tilesets := Refreshed(before.tilesets, groups));
      r := SetTilesetIdx(Operator.Clamp(tilesetIdx, 0, |tilesets| - 1), mode);
      if r.Raised? {
        return;
      }
      r := RefreshEnumItems();
    }

    /** Clear the tiles, then file the groups in order under the dictionary built beforehand. */
    method FileGroups(groups: seq<Group>)
      modifies this`tilesets
      ensures tilesets == FileAll(Start(old(tilesets)), groups).tilesets
    {
      ghost var ts0 := tilesets;
      var index: map<string, nat> := IndexByName(tilesets);
      ClearTiles();
      for i := 0 to |groups|
        invariant IndexValid(Filing(tilesets, index))
        invariant Filing(tilesets, index) == FileAll(Start(ts0), groups[..i])
      {
        assert groups[..i + 1] == groups[..i] + [groups[i]];
        index := FileGroup(groups[i], index);
      }
      assert groups[..|groups|] == groups;
    }

    /** for tileset in self.tilesets: tileset.tiles.clear() */
    method ClearTiles()
      modifies this`tilesets
      ensures tilesets == Cleared(old(tilesets))
    {
      for i := 0 to |tilesets|
        invariant |tilesets| == |old(tilesets)|
        invariant forall k :: 0 <= k < i ==> tilesets[k] == old(tilesets)[k].(tiles := [])
        invariant forall k :: i <= k < |tilesets| ==> tilesets[k] == old(tilesets)[k]
      {
        tilesets := tilesets[i := tilesets[i].(tiles := [])];
      }
    }

    /** File one group: a new tileset for a name not seen yet, then the group's name among its tiles. */
    method FileGroup(g: Group, index: map<string, nat>) returns (index': map<string, nat>)
      requires IndexValid(Filing(tilesets, index))
      modifies this`tilesets
      ensures Filing(tilesets, index') == File(Filing(old(tilesets), index), g)
    {
      index' := index;
      if g.member.Some? && g.member.value != "" {
        var name := g.member.value;
        if name !in index' {
          tilesets := tilesets + [Tileset(name, [], "", "")];
          index' := index'[name := |tilesets| - 1];
        }
        var k := index'[name];
        tilesets := tilesets[k := tilesets[k].(tiles := tilesets[k].tiles + [g.name])];
      }
    }

    /**
     * Remove the tilesets without tiles, staying at the same position after a
     * removal so that the tileset moving into it is examined too.
     */
    method RemoveEmpty()
      modifies this`tilesets
      ensures tilesets == DropEmpty(old(tilesets))
    {
      ghost var kept: seq<Tileset> := [];
      ghost var rest := tilesets;
      var i := 0;
      while i < |tilesets|
        invariant tilesets == kept + rest
        invariant i == |kept|
        invariant DropEmpty(old(tilesets)) == kept + DropEmpty(rest)
        decreases |tilesets| - i
      {
        assert rest[0] == tilesets[i];
        if tilesets[i].tiles == [] {
          assert tilesets[..i] == kept;
          assert tilesets[i + 1..] == rest[1..];
          tilesets := tilesets[..i] + tilesets[i + 1..];
        } else {
          assert tilesets == (kept + [tilesets[i]]) + rest[1..];
          kept := kept + [tilesets[i]];
          i := i + 1;
        }
        rest := rest[1..];
      }
      assert rest == [];
    }

    /** TilesetActionsOperator.invoke for one action. */
    method Invoke(action: Action, groups: seq<Group>, mode: Mode) returns (r: Outcome)
      modifies this
      ensures Snapshot() == Invoked(old(Snapshot()), action, groups, mode).state
      ensures r == Invoked(old(Snapshot()), action, groups, mode).outcome
    {
      r := Navigate(action, mode);
      if action == RefreshAction {
        r := RefreshTilesets(groups, mode);
      }
    }

    /** The Up/Down branch of invoke. */
    method Navigate(action: Action, mode: Mode) returns (r: Outcome)
      modifies this
      ensures Snapshot() == Navigated(old(Snapshot()), action, mode).state
      ensures r == Navigated(old(Snapshot()), action, mode).outcome
    {
      var idx := tilesetIdx;
      r := Done;
      if PyIndex(|tilesets|, idx).Some? {
        if action == Down && idx < |tilesets| - 1 {
          r := SetTilesetIdx(idx + 1, mode);
        } else if action == Up && idx >= 1 {
          r := SetTilesetIdx(idx - 1, mode);
        }
      }
    }
  }
}
