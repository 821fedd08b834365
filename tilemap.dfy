// The tile-map engine of testudo3d/tilemap3d.py: a cursor (tile, cell,
// heading), paint/delete at the cursor, grab with cancel or commit,
// copy/paste relative to the cursor, box selection and cursor serialisation.
// The pure effect of each edit on the scene is given first as functions; the
// class Tilemap3D below performs the edits in place and is proved to match.

module Tilemap {
  import opened Wrappers
  import opened Geometry
  import opened Scene
  import Text

  /** The cursor: the group it paints (tile3d), its cell and its heading in degrees. */
  datatype Cursor = Cursor(tile3d: Option<string>, pos: Cell, rot: int)

  /** GrabData: a grabbed object and where it was, and how it was turned, at grab time. */
  datatype GrabData = GrabData(id: nat, origPos: Cell, origRot: int)

  /** Clipboard: a copied object's group, its offset from the cursor and its heading. */
  datatype ClipItem = ClipItem(group: Option<string>, posOffset: Cell, rot: int)

  /** The tileset an instance of a group belongs to ("" for a plain object). */
  function TilesetOf(tilesets: map<string, string>, group: Option<string>): string
  {
    if group.Some? && group.value in tilesets then tilesets[group.value] else ""
  }

  /** create_tile: the pseudo-group 'empty' makes a plain empty, any other name an instance. */
  function InstanceGroup(group: string): Option<string>
  {
    if group == "empty" then None else Some(group)
  }

  // ---------------------------------------------------------------------
  // Cursor.serialize / Cursor.deserialize and init_root_obj
  // ---------------------------------------------------------------------

  /** str(tile3d): a group name, or the text None. */
  function TileText(t: Option<string>): string
  {
    match t
    case None => "None"
    case Some(name) => name
  }

  /** The five fields "{tile3d},{x},{y},{z},{rot}" are written, the coordinates as floats. */
  function Fields(c: Cursor): seq<string>
  {
    [TileText(c.tile3d), Text.FloatText(c.pos.x), Text.FloatText(c.pos.y), Text.FloatText(c.pos.z),
     Text.IntText(c.rot)]
  }

  function Serialize(c: Cursor): string
  {
    Text.Join(Fields(c), ',')
  }

  /**
   * Cursor.deserialize: exactly five comma-separated fields, the last four
   * numbers. None stands for the ValueError of a wrong field count or a bad number.
   * The first field is kept as text, so a saved None comes back as "None".
   */
  function Deserialize(s: string): Option<Cursor>
  {
    var parts := Text.Split(s, ',');
    if |parts| != 5 then None
    else
      match (Text.ParseWholeFloat(parts[1]), Text.ParseWholeFloat(parts[2]),
             Text.ParseWholeFloat(parts[3]), Text.ParseWholeFloat(parts[4]))
      case (Some(x), Some(y), Some(z), Some(rot)) => Some(Cursor(Some(parts[0]), Cell(x, y, z), rot))
      case _ => None
  }

  /** init_root_obj: a restored cursor forgets a tile that is not a known group. */
  function RestoreCursor(groups: set<string>, c: Cursor): (r: Cursor)
    ensures r.pos == c.pos && r.rot == c.rot
    ensures r.tile3d.Some? ==> r.tile3d.value in groups
    ensures c.tile3d.Some? && c.tile3d.value in groups ==> r.tile3d == c.tile3d
  {
    if c.tile3d.Some? && c.tile3d.value !in groups then c.(tile3d := None) else c
  }


  /** Saving the cursor on quit and restoring it on the next start gives the same cursor back. */
  lemma SerializeRoundTrip(groups: set<string>, c: Cursor)
    requires c.tile3d.None? ==> "None" !in groups
    requires c.tile3d.Some? ==> c.tile3d.value in groups && ',' !in c.tile3d.value
    ensures Deserialize(Serialize(c)).Some?
    ensures RestoreCursor(groups, Deserialize(Serialize(c)).value) == c
  {
    FieldsCommaFree(c);
    Text.SplitJoin(Fields(c), ',');
    Text.WholeFloatRoundTrip(c.pos.x);
    Text.WholeFloatRoundTrip(c.pos.y);
    Text.WholeFloatRoundTrip(c.pos.z);
    Text.WholeFloatRoundTrip(c.rot);
  }

  /** No written field holds a comma when the group name holds none. */
  lemma FieldsCommaFree(c: Cursor)
    requires c.tile3d.Some? ==> ',' !in c.tile3d.value
    ensures forall k :: 0 <= k < |Fields(c)| ==> ',' !in Fields(c)[k]
  {
    var f := Fields(c);
    forall k | 0 <= k < |f| ensures ',' !in f[k] {
      if k == 4 {
        var r := f[4];
        forall i | 0 <= i < |r| ensures r[i] != ',' { }
      } else if k == 0 && c.tile3d.None? {
        assert f[0] == "None";
      }
    }
  }

  // ---------------------------------------------------------------------
  // The effect of the edit operations on the scene
  // ---------------------------------------------------------------------

  predicate DistinctIds(s: Store)
  {
    forall i, j :: 0 <= i < j < |s| ==> s[i].id != s[j].id
  }

  /** Two different objects of a store with distinct identities carry different identities. */
  lemma DistinctIdsApart(s: Store, a: Obj, b: Obj)
    requires DistinctIds(s) && a in s && b in s && a != b
    ensures a.id != b.id
  {
    if a.id == b.id {
      SameIdSameObj(s, a, b);
    }
  }

  /** With distinct identities an identity names one object. */
  lemma SameIdSameObj(s: Store, a: Obj, b: Obj)
    requires DistinctIds(s) && a in s && b in s && a.id == b.id
    ensures a == b
  {
    var i :| 0 <= i < |s| && s[i] == a;
    var j :| 0 <= j < |s| && s[j] == b;
    assert i == j;
  }

  /** The first object at p, as get_tile3d returns it. */
  function FirstAt(s: Store, p: Cell): (r: Option<Obj>)
    ensures r.Some? ==> r.value in s && r.value.pos == p
    ensures r.None? <==> !Occupied(s, p)
  {
    var here := TilesAt(s, p);
    if here == [] then None else assert here[0] in here; Some(here[0])
  }

  /** The tiles delete(ignore) may remove: those at pos, the ignored one taken out. */
  function DeleteCandidates(w: World, pos: Cell, ignore: Option<nat>): seq<Obj>
  {
    var tiles := TilesAt(w.objs, pos);
    if ignore.Some? then Without(tiles, ignore.value) else tiles
  }

  /** delete(ignore): the first candidate, if any, is removed from the scene. */
  function DeleteSpec(w: World, pos: Cell, ignore: Option<nat>): World
  {
    var candidates := DeleteCandidates(w, pos, ignore);
    if candidates == [] then w else Remove(w, candidates[0].id)
  }

  /** paint: with a tile on the cursor, delete at the cursor, then create the tile there. */
  function PaintSpec(w: World, c: Cursor, tilesets: map<string, string>): World
  {
    match c.tile3d
    case None => w
    case Some(group) =>
      var g := InstanceGroup(group);
      Place(DeleteSpec(w, c.pos, None), g, c.pos, c.rot, TilesetOf(tilesets, g))
  }

  /** _cdraw: paint when painting, else delete when deleting, else nothing. */
  function CdrawSpec(w: World, c: Cursor, paint: bool, delete: bool, tilesets: map<string, string>): World
  {
    if paint then PaintSpec(w, c, tilesets)
    else if delete then DeleteSpec(w, c.pos, None)
    else w
  }

  lemma WithoutAbsent(t: seq<Obj>, id: nat)
    requires forall o :: o in t ==> o.id != id
    ensures Without(t, id) == t
  {
    if t != [] {
      WithoutAbsent(t[..|t| - 1], id);
      assert t[|t| - 1] in t;
      assert t[..|t| - 1] + [t[|t| - 1]] == t;
    }
  }

  /** Removing one object of the store: one fewer, the rest kept, other cells untouched. */
  lemma RemoveEffect(w: World, victim: Obj)
    requires WorldValid(w) && victim in w.objs
    ensures WorldValid(Remove(w, victim.id))
    ensures |Remove(w, victim.id).objs| == |w.objs| - 1
    ensures forall o :: o in w.objs && o.id != victim.id ==> o in Remove(w, victim.id).objs
    ensures forall q :: q != victim.pos ==> TilesAt(Remove(w, victim.id).objs, q) == TilesAt(w.objs, q)
  {
    Scene.OperationsKeepValid(w, victim.id, None, victim.pos, 0, "");
    WithoutCount(w.objs, victim.id);
    forall q | q != victim.pos ensures TilesAt(Without(w.objs, victim.id), q) == TilesAt(w.objs, q) {
      TilesAtWithout(w.objs, victim.id, q);
      forall o | o in TilesAt(w.objs, q) ensures o.id != victim.id {
        if o.id == victim.id { SameIdSameObj(w.objs, o, victim); }
      }
      WithoutAbsent(TilesAt(w.objs, q), victim.id);
    }
  }

  /**
   * delete(ignore) removes exactly one object when there is a candidate and none
   * otherwise, never the ignored one, and no object of another cell.
   */
  lemma DeleteSpecEffect(w: World, pos: Cell, ignore: Option<nat>)
    requires WorldValid(w)
    ensures WorldValid(DeleteSpec(w, pos, ignore)) && DeleteSpec(w, pos, ignore).next == w.next
    ensures DeleteCandidates(w, pos, ignore) == [] ==> DeleteSpec(w, pos, ignore) == w
    ensures |DeleteSpec(w, pos, ignore).objs| ==
      |w.objs| - (if DeleteCandidates(w, pos, ignore) == [] then 0 else 1)
    ensures forall o :: o in DeleteSpec(w, pos, ignore).objs ==> o in w.objs
    ensures forall q :: q != pos ==> TilesAt(DeleteSpec(w, pos, ignore).objs, q) == TilesAt(w.objs, q)
    ensures forall o :: o in w.objs && o.pos != pos ==> o in DeleteSpec(w, pos, ignore).objs
    ensures ignore.Some? ==> forall o :: o in w.objs && o.id == ignore.value ==> o in DeleteSpec(w, pos, ignore).objs
  {
    var cands := DeleteCandidates(w, pos, ignore);
    if cands != [] {
      var victim := cands[0];
      assert victim in cands;
      assert victim in w.objs && victim.pos == pos;
      RemoveEffect(w, victim);
      forall o | o in w.objs && o.pos != pos ensures o.id != victim.id {
        if o.id == victim.id { SameIdSameObj(w.objs, o, victim); }
      }
    }
  }

  /**
   * paint with a tile on the cursor: the cell ends with the new object last in
   * the store, the count grows only when the cell was empty, other cells keep theirs.
   */
  lemma PaintSpecEffect(w: World, c: Cursor, tilesets: map<string, string>)
    requires WorldValid(w) && c.tile3d.Some?
    ensures WorldValid(PaintSpec(w, c, tilesets)) && PaintSpec(w, c, tilesets).next == w.next + 1
    ensures |PaintSpec(w, c, tilesets).objs| == |w.objs| + (if Occupied(w.objs, c.pos) then 0 else 1)
    ensures var r := PaintSpec(w, c, tilesets).objs; var g := InstanceGroup(c.tile3d.value);
      r[|r| - 1] == Obj(w.next, g, c.pos, c.rot, TilesetOf(tilesets, g))
    ensures Occupied(PaintSpec(w, c, tilesets).objs, c.pos)
    ensures forall q :: q != c.pos ==> TilesAt(PaintSpec(w, c, tilesets).objs, q) == TilesAt(w.objs, q)
    ensures forall o :: o in w.objs && o.pos != c.pos ==> o in PaintSpec(w, c, tilesets).objs
  {
    var g := InstanceGroup(c.tile3d.value);
    var d := DeleteSpec(w, c.pos, None);
    DeleteSpecEffect(w, c.pos, None);
    Scene.OperationsKeepValid(d, 0, g, c.pos, c.rot, TilesetOf(tilesets, g));
    forall q | q != c.pos ensures TilesAt(PaintSpec(w, c, tilesets).objs, q) == TilesAt(w.objs, q) {
      PlaceOtherCell(d, g, c.pos, c.rot, TilesetOf(tilesets, g), q);
    }
    var r := PaintSpec(w, c, tilesets).objs;
    assert r[|r| - 1] in TilesAt(r, c.pos);
  }

  /** Painting the same cell twice keeps the object count of the first paint. */
  lemma PaintTwiceSameCount(w: World, c: Cursor, tilesets: map<string, string>)
    requires WorldValid(w) && c.tile3d.Some?
    ensures |PaintSpec(PaintSpec(w, c, tilesets), c, tilesets).objs| == |PaintSpec(w, c, tilesets).objs|
  {
    PaintSpecEffect(w, c, tilesets);
    PaintSpecEffect(PaintSpec(w, c, tilesets), c, tilesets);
  }

  lemma CdrawSpecEffect(w: World, c: Cursor, paint: bool, delete: bool, tilesets: map<string, string>)
    requires WorldValid(w)
    ensures WorldValid(CdrawSpec(w, c, paint, delete, tilesets))
    ensures forall q :: q != c.pos ==> TilesAt(CdrawSpec(w, c, paint, delete, tilesets).objs, q) == TilesAt(w.objs, q)
  {
    if paint {
      if c.tile3d.Some? { PaintSpecEffect(w, c, tilesets); }
    } else if delete {
      DeleteSpecEffect(w, c.pos, None);
    }
  }

  // ---------------------------------------------------------------------
  // Grab: rotate and translate move the grabbed objects; cancel and commit
  // ---------------------------------------------------------------------

  /**
   * How a grab operation moves one grabbed object: turned about the cursor, shifted,
   * put back, or (in the earlier editor of tilemap3d/tilemap3d.py) turned where it stands.
   */
  datatype Move = RotateAbout(center: Cell, deg: int) | Shift(vec: Cell) | Restore | Turn(turn: int)

  predicate MoveOk(m: Move) { m.RotateAbout? ==> IsQuarter(m.deg) }

  /** The grabbed object turned about the cursor, shifted, or put back as it was at grab time. */
  function MoveObj(o: Obj, m: Move, g: GrabData): (r: Obj)
    requires MoveOk(m)
    ensures r.id == o.id && r.group == o.group && r.tileset == o.tileset
  {
    match m
    case RotateAbout(center, deg) => o.(pos := Add(RotateZ(deg, Sub(o.pos, center)), center), rot := o.rot + deg)
    case Shift(vec) => o.(pos := Add(o.pos, vec))
    case Restore => o.(pos := g.origPos, rot := g.origRot)
    case Turn(turn) => o.(rot := o.rot + turn)
  }

  /** The store after the loop over grabbed items has moved each one in turn. */
  function MoveItems(objs: Store, items: seq<GrabData>, m: Move): Store
    requires MoveOk(m)
  {
    if items == [] then objs
    else
      var prev := MoveItems(objs, items[..|items| - 1], m);
      var g := items[|items| - 1];
      match Find(prev, g.id)
      case None => prev
      case Some(o) => var n := MoveObj(o, m, g); Moved(prev, g.id, n.pos, n.rot)
  }

  /** The scene with the grabbed objects moved, when there are grabbed objects. */
  function GrabMoved(w: World, grabbed: Option<seq<GrabData>>, m: Move): World
    requires MoveOk(m)
  {
    match grabbed
    case None => w
    case Some(items) => World(MoveItems(w.objs, items, m), w.next)
  }

  /**
   * The first grabbed item whose object has left the scene. The grab loops read each
   * item's tile3d.pos in turn, and on an object the scene has removed that read raises
   * ReferenceError.
   */
  function FirstMissing(objs: Store, items: seq<GrabData>): (r: Option<nat>)
    ensures r.Some? ==> r.value < |items| && Find(objs, items[r.value].id).None?
    ensures forall j :: 0 <= j < |items| && (r.None? || j < r.value) ==> Find(objs, items[j].id).Some?
  {
    if items == [] then None
    else
      var init := items[..|items| - 1];
      match FirstMissing(objs, init)
      case Some(k) => Some(k)
      case None => if Find(objs, items[|items| - 1].id).None? then Some(|items| - 1) else None
  }

  /** The grab loop stops at item k when its object is the first one gone. */
  lemma FirstMissingAt(objs: Store, items: seq<GrabData>, k: nat)
    requires k < |items| && Find(objs, items[k].id).None?
    requires forall j :: 0 <= j < k ==> Find(objs, items[j].id).Some?
    ensures FirstMissing(objs, items) == Some(k)
  {
  }

  /** The grab loop stopped at item k, whose object is gone: what it has moved so far, and the error. */
  lemma GrabMoveStopped(w: World, items: seq<GrabData>, k: nat, m: Move)
    requires MoveOk(m) && WorldValid(w) && DistinctItems(items)
    requires k < |items| && FirstMissing(w.objs, items[..k]).None? && Find(w.objs, items[k].id).None?
    ensures GrabMove(w, items, m) == (World(MoveItems(w.objs, items[..k], m), w.next), Some(ReferenceError))
    ensures WorldValid(World(MoveItems(w.objs, items[..k], m), w.next))
  {
    FirstMissingStop(w.objs, items, k);
    MoveItemsKeepsValid(w, items[..k], m);
  }

  /** The grab loop past item k, whose object o is there: item k's object moves. */
  lemma GrabMoveNext(w: World, items: seq<GrabData>, k: nat, m: Move, o: Obj)
    requires MoveOk(m) && k < |items| && FirstMissing(w.objs, items[..k]).None?
    requires Find(MoveItems(w.objs, items[..k], m), items[k].id) == Some(o)
    ensures FirstMissing(w.objs, items[..k + 1]).None?
    ensures var n := MoveObj(o, m, items[k]);
      MoveItems(w.objs, items[..k + 1], m) == Moved(MoveItems(w.objs, items[..k], m), items[k].id, n.pos, n.rot)
  {
    FindMoveItems(w.objs, items[..k], m, items[k].id);
    FirstMissingNext(w.objs, items, k);
    assert items[..k + 1][..k] == items[..k];
  }

  /** The grab loop over every item, none of them gone. */
  lemma GrabMoveDone(w: World, items: seq<GrabData>, m: Move)
    requires MoveOk(m) && WorldValid(w) && DistinctItems(items) && FirstMissing(w.objs, items).None?
    ensures GrabMove(w, items, m) == (World(MoveItems(w.objs, items, m), w.next), None)
    ensures WorldValid(World(MoveItems(w.objs, items, m), w.next))
  {
    MoveItemsKeepsValid(w, items, m);
  }

  /** Moving grabbed objects keeps every identity findable exactly as before. */
  lemma FindMoveItems(objs: Store, items: seq<GrabData>, m: Move, id: nat)
    requires MoveOk(m)
    ensures Find(MoveItems(objs, items, m), id).Some? <==> Find(objs, id).Some?
  {
    MoveItemsIds(objs, items, m);
    FindSameIds(objs, MoveItems(objs, items, m), id);
  }

  /** The grab loop past item k: no item so far is missing, and item k is there. */
  lemma FirstMissingNext(objs: Store, items: seq<GrabData>, k: nat)
    requires k < |items| && FirstMissing(objs, items[..k]).None? && Find(objs, items[k].id).Some?
    ensures FirstMissing(objs, items[..k + 1]).None?
  {
    assert items[..k + 1][..k] == items[..k];
  }

  /** The grab loop stops at item k: no item before it is missing, and it is. */
  lemma FirstMissingStop(objs: Store, items: seq<GrabData>, k: nat)
    requires k < |items| && FirstMissing(objs, items[..k]).None? && Find(objs, items[k].id).None?
    ensures FirstMissing(objs, items) == Some(k)
  {
    forall j | 0 <= j < k ensures Find(objs, items[j].id).Some? {
      assert items[..k][j] == items[j];
    }
    FirstMissingAt(objs, items, k);
  }

  lemma FirstMissingNone(objs: Store, items: seq<GrabData>)
    requires forall j :: 0 <= j < |items| ==> Find(objs, items[j].id).Some?
    ensures FirstMissing(objs, items).None?
  {
  }

  /** Moving objects never changes which identities the store holds, nor where. */
  lemma {:induction false} MoveItemsIds(objs: Store, items: seq<GrabData>, m: Move)
    requires MoveOk(m)
    ensures |MoveItems(objs, items, m)| == |objs|
    ensures forall i :: 0 <= i < |objs| ==> MoveItems(objs, items, m)[i].id == objs[i].id
  {
    if items != [] {
      MoveItemsIds(objs, items[..|items| - 1], m);
    }
  }

  /** Two stores with the same identities index by index hold the same identities. */
  lemma FindSameIds(s: Store, t: Store, id: nat)
    requires |s| == |t| && forall i :: 0 <= i < |s| ==> s[i].id == t[i].id
    ensures Find(s, id).Some? <==> Find(t, id).Some?
  {
    if Find(s, id).Some? {
      var i :| 0 <= i < |s| && s[i] == Find(s, id).value;
      assert t[i] in t;
    }
    if Find(t, id).Some? {
      var i :| 0 <= i < |t| && t[i] == Find(t, id).value;
      assert s[i] in s;
    }
  }

  /**
   * A grab loop over the items: the scene it leaves and the ReferenceError it raises.
   * It stops at the first item whose object has left the scene, having moved the items
   * before it.
   */
  function GrabMove(w: World, items: seq<GrabData>, m: Move): (World, Option<PyError>)
    requires MoveOk(m)
  {
    match FirstMissing(w.objs, items)
    case None => (World(MoveItems(w.objs, items, m), w.next), None)
    case Some(k) => (World(MoveItems(w.objs, items[..k], m), w.next), Some(ReferenceError))
  }

  /** Whether a grab loop over the grabbed tiles, if any, raises. */
  function GrabFault(w: World, grabbed: Option<seq<GrabData>>): Option<PyError>
  {
    match grabbed
    case None => None
    case Some(items) => if FirstMissing(w.objs, items).Some? then Some(ReferenceError) else None
  }

  /** A grab loop raises ReferenceError exactly when some grabbed object has left the scene. */
  lemma GrabFaultMeans(w: World, grabbed: Option<seq<GrabData>>)
    ensures GrabFault(w, grabbed).Some? ==> GrabFault(w, grabbed) == Some(ReferenceError)
    ensures GrabFault(w, grabbed).Some? <==>
      grabbed.Some? && exists j :: 0 <= j < |grabbed.value| && Find(w.objs, grabbed.value[j].id).None?
  {
    if grabbed.Some? {
      var r := FirstMissing(w.objs, grabbed.value);
      if r.Some? {
        assert Find(w.objs, grabbed.value[r.value].id).None?;
      }
    }
  }

  /**
   * The grab loop raises exactly when some grabbed object has gone; when none has, it
   * moves every grabbed object, and when one has, the objects before it are moved and
   * the store keeps every identity it had.
   */
  lemma GrabMoveFault(w: World, items: seq<GrabData>, m: Move)
    requires MoveOk(m)
    ensures GrabMove(w, items, m).1 == GrabFault(w, Some(items))
    ensures GrabMove(w, items, m).1.None? ==> GrabMove(w, items, m).0 == GrabMoved(w, Some(items), m)
    ensures GrabMove(w, items, m).0.next == w.next
    ensures |GrabMove(w, items, m).0.objs| == |w.objs|
    ensures forall i :: 0 <= i < |w.objs| ==> GrabMove(w, items, m).0.objs[i].id == w.objs[i].id
  {
    match FirstMissing(w.objs, items)
    case None => MoveItemsIds(w.objs, items, m);
    case Some(k) => MoveItemsIds(w.objs, items[..k], m);
  }

  /** The grab record of an identity, if it was grabbed. */
  function ItemFor(items: seq<GrabData>, id: nat): (r: Option<GrabData>)
    ensures r.Some? ==> r.value in items && r.value.id == id
    ensures r.None? <==> forall g :: g in items ==> g.id != id
  {
    if items == [] then None
    else if items[|items| - 1].id == id then Some(items[|items| - 1])
    else
      assert forall g :: g in items ==> g in items[..|items| - 1] || g == items[|items| - 1];
      ItemFor(items[..|items| - 1], id)
  }

  predicate DistinctItems(items: seq<GrabData>)
  {
    forall i, j :: 0 <= i < j < |items| ==> items[i].id != items[j].id
  }

  /** What the move loop does to the object at one index of the store. */
  function MovedAt(o: Obj, items: seq<GrabData>, m: Move): (r: Obj)
    requires MoveOk(m)
    ensures r.id == o.id && r.group == o.group && r.tileset == o.tileset
  {
    match ItemFor(items, o.id)
    case None => o
    case Some(g) => MoveObj(o, m, g)
  }

  /** Each grabbed object is moved exactly once, from where it was; no other object changes. */
  lemma {:induction false} MoveItemsAt(objs: Store, items: seq<GrabData>, m: Move)
    requires MoveOk(m) && DistinctIds(objs) && DistinctItems(items)
    ensures |MoveItems(objs, items, m)| == |objs|
    ensures forall i :: 0 <= i < |objs| ==> MoveItems(objs, items, m)[i] == MovedAt(objs[i], items, m)
  {
    if items != [] {
      var init := items[..|items| - 1];
      assert DistinctItems(init) by {
        forall a, b | 0 <= a < b < |init| ensures init[a].id != init[b].id {
          assert init[a] == items[a] && init[b] == items[b];
        }
      }
      MoveItemsAt(objs, init, m);
      MovedAtLast(objs, MoveItems(objs, init, m), items, m);
    }
  }

  /** The last grabbed item moves its own object, given each object moved as the items before it say. */
  lemma MovedAtLast(objs: Store, prev: Store, items: seq<GrabData>, m: Move)
    requires items != [] && MoveOk(m) && DistinctIds(objs) && DistinctItems(items)
    requires |prev| == |objs| && forall i :: 0 <= i < |objs| ==> prev[i] == MovedAt(objs[i], items[..|items| - 1], m)
    ensures var g := items[|items| - 1];
      var r := match Find(prev, g.id) case None => prev case Some(o) => var n := MoveObj(o, m, g); Moved(prev, g.id, n.pos, n.rot);
      |r| == |objs| && forall i :: 0 <= i < |objs| ==> r[i] == MovedAt(objs[i], items, m)
  {
    var g := items[|items| - 1];
    LastItemFor(items);
    assert forall i :: 0 <= i < |objs| ==> prev[i].id == objs[i].id;
    match Find(prev, g.id)
    case None =>
    case Some(o) => MovedLastFound(objs, prev, items, m, o);
  }

  /** The last grabbed item is the only one for its identity; every other identity has the item the earlier ones give it. */
  lemma LastItemFor(items: seq<GrabData>)
    requires items != [] && DistinctItems(items)
    ensures ItemFor(items[..|items| - 1], items[|items| - 1].id).None?
    ensures ItemFor(items, items[|items| - 1].id) == Some(items[|items| - 1])
    ensures forall id :: id != items[|items| - 1].id ==> ItemFor(items, id) == ItemFor(items[..|items| - 1], id)
  {
    var init, g := items[..|items| - 1], items[|items| - 1];
    forall h | h in init ensures h.id != g.id {
      var k :| 0 <= k < |init| && init[k] == h;
      assert items[k] == h;
    }
  }

  /** When the last item's object is found, moving it gives each object as all the items say. */
  lemma MovedLastFound(objs: Store, prev: Store, items: seq<GrabData>, m: Move, o: Obj)
    requires items != [] && MoveOk(m) && DistinctIds(objs)
    requires |prev| == |objs| && forall i :: 0 <= i < |objs| ==> prev[i] == MovedAt(objs[i], items[..|items| - 1], m)
    requires ItemFor(items[..|items| - 1], items[|items| - 1].id).None?
    requires ItemFor(items, items[|items| - 1].id) == Some(items[|items| - 1])
    requires forall id :: id != items[|items| - 1].id ==> ItemFor(items, id) == ItemFor(items[..|items| - 1], id)
    requires o in prev && o.id == items[|items| - 1].id
    ensures var g := items[|items| - 1];
      var n := MoveObj(o, m, g);
      forall j :: 0 <= j < |objs| ==> Moved(prev, g.id, n.pos, n.rot)[j] == MovedAt(objs[j], items, m)
  {
    var g := items[|items| - 1];
    var n := MoveObj(o, m, g);
    var r := Moved(prev, g.id, n.pos, n.rot);
    assert DistinctIds(prev) by {
      assert forall i :: 0 <= i < |objs| ==> prev[i].id == objs[i].id;
    }
    forall j | 0 <= j < |objs| ensures r[j] == MovedAt(objs[j], items, m) {
      if objs[j].id == g.id {
        SameIdSameObj(prev, prev[j], o);
        assert prev[j] == objs[j];
      }
    }
  }

  lemma MoveItemsKeepsValid(w: World, items: seq<GrabData>, m: Move)
    requires MoveOk(m) && WorldValid(w) && DistinctItems(items)
    ensures WorldValid(World(MoveItems(w.objs, items, m), w.next))
  {
    MoveItemsAt(w.objs, items, m);
    var r := MoveItems(w.objs, items, m);
    assert forall i :: 0 <= i < |r| ==> r[i].id == w.objs[i].id;
    forall o | o in r ensures o.id < w.next {
      var i :| 0 <= i < |r| && r[i] == o;
      assert w.objs[i] in w.objs;
    }
  }

  /** Rotating the grabbed objects by deg and then by -deg about the same cursor puts them back. */
  lemma RotateUndo(objs: Store, items: seq<GrabData>, center: Cell, deg: int)
    requires IsQuarter(deg) && DistinctIds(objs) && DistinctItems(items)
    ensures IsQuarter(-deg)
    ensures MoveItems(MoveItems(objs, items, RotateAbout(center, deg)), items, RotateAbout(center, -deg)) == objs
  {
    var there := MoveItems(objs, items, RotateAbout(center, deg));
    MoveItemsAt(objs, items, RotateAbout(center, deg));
    assert DistinctIds(there) by {
      assert forall i :: 0 <= i < |objs| ==> there[i].id == objs[i].id;
    }
    MoveItemsAt(there, items, RotateAbout(center, -deg));
    var back := MoveItems(there, items, RotateAbout(center, -deg));
    forall i | 0 <= i < |objs| ensures back[i] == objs[i] {
      match ItemFor(items, objs[i].id)
      case None =>
      case Some(g) => MoveObjUndo(objs[i], g, center, deg);
    }
  }

  lemma MoveObjUndo(o: Obj, g: GrabData, center: Cell, deg: int)
    requires IsQuarter(deg)
    ensures IsQuarter(-deg)
    ensures MoveObj(MoveObj(o, RotateAbout(center, deg), g), RotateAbout(center, -deg), g) == o
  {
    var v := Sub(o.pos, center);
    RotateZInverse(deg, v);
    assert Sub(Add(RotateZ(deg, v), center), center) == RotateZ(deg, v);
    assert Add(v, center) == o.pos;
  }

  /** t is s with only the cell and heading of grabbed objects changed. */
  predicate PoseMoved(s: Store, t: Store, items: seq<GrabData>)
  {
    |t| == |s| &&
    forall i :: 0 <= i < |s| ==>
      t[i].id == s[i].id && t[i].group == s[i].group && t[i].tileset == s[i].tileset &&
      (ItemFor(items, s[i].id).None? ==> t[i] == s[i])
  }

  /** A sequence of grab moves (rotations and translations), applied in order. */
  function MoveAll(objs: Store, items: seq<GrabData>, moves: seq<Move>): Store
    requires forall k :: 0 <= k < |moves| ==> MoveOk(moves[k])
  {
    if moves == [] then objs
    else MoveItems(MoveAll(objs, items, moves[..|moves| - 1]), items, moves[|moves| - 1])
  }

  lemma {:induction false} MoveAllPoseMoved(objs: Store, items: seq<GrabData>, moves: seq<Move>)
    requires forall k :: 0 <= k < |moves| ==> MoveOk(moves[k])
    requires DistinctIds(objs) && DistinctItems(items)
    ensures PoseMoved(objs, MoveAll(objs, items, moves), items)
  {
    if moves != [] {
      var init := moves[..|moves| - 1];
      MoveAllPoseMoved(objs, items, init);
      var prev := MoveAll(objs, items, init);
      assert DistinctIds(prev) by {
        assert forall i :: 0 <= i < |objs| ==> prev[i].id == objs[i].id;
      }
      MoveItemsAt(prev, items, moves[|moves| - 1]);
    }
  }

  /**
   * end_grab(cancel=True): whatever rotations and translations happened during the
   * grab, restoring every grabbed object's original cell and heading gives the scene back.
   */
  lemma GrabThenCancel(objs: Store, grabbedObjs: seq<Obj>, moves: seq<Move>)
    requires forall k :: 0 <= k < |moves| ==> MoveOk(moves[k])
    requires DistinctIds(objs) && DistinctItems(GrabAll(grabbedObjs))
    requires forall o :: o in grabbedObjs ==> o in objs
    ensures MoveItems(MoveAll(objs, GrabAll(grabbedObjs), moves), GrabAll(grabbedObjs), Restore) == objs
  {
    var items := GrabAll(grabbedObjs);
    var t := MoveAll(objs, items, moves);
    MoveAllPoseMoved(objs, items, moves);
    assert DistinctIds(t) by {
      assert forall i :: 0 <= i < |objs| ==> t[i].id == objs[i].id;
    }
    MoveItemsAt(t, items, Restore);
    var r := MoveItems(t, items, Restore);
    forall i | 0 <= i < |objs| ensures r[i] == objs[i] {
      RestoredObj(objs, grabbedObjs, t[i], i);
    }
  }

  /** Cancelling puts an object, however it was moved, back as it was when grabbed. */
  lemma RestoredObj(objs: Store, grabbedObjs: seq<Obj>, moved: Obj, i: nat)
    requires DistinctIds(objs) && i < |objs|
    requires forall o :: o in grabbedObjs ==> o in objs
    requires moved.id == objs[i].id && moved.group == objs[i].group && moved.tileset == objs[i].tileset
    requires ItemFor(GrabAll(grabbedObjs), objs[i].id).None? ==> moved == objs[i]
    ensures MovedAt(moved, GrabAll(grabbedObjs), Restore) == objs[i]
  {
    var items := GrabAll(grabbedObjs);
    match ItemFor(items, objs[i].id)
    case None =>
    case Some(g) =>
      var k :| 0 <= k < |items| && items[k] == g;
      var o := grabbedObjs[k];
      assert o in grabbedObjs;
      SameIdSameObj(objs, o, objs[i]);
  }

  /** end_grab(cancel=False): each grabbed object deletes the first other object at its cell. */
  function CommitGrab(w: World, items: seq<GrabData>): World
  {
    if items == [] then w
    else
      var prev := CommitGrab(w, items[..|items| - 1]);
      var g := items[|items| - 1];
      match Find(prev.objs, g.id)
      case None => prev
      case Some(o) => DeleteSpec(prev, o.pos, Some(g.id))
  }

  /** Grabbed objects sit in pairwise different cells. */
  predicate GrabbedApart(s: Store, items: seq<GrabData>)
  {
    forall a, b :: a in s && b in s && ItemFor(items, a.id).Some? && ItemFor(items, b.id).Some? && a != b ==>
      a.pos != b.pos
  }

  lemma {:induction false} CommitGrabPrefix(w: World, items: seq<GrabData>, k: nat)
    requires WorldValid(w) && GrabbedApart(w.objs, items) && k <= |items|
    ensures WorldValid(CommitGrab(w, items[..k]))
    ensures forall o :: o in CommitGrab(w, items[..k]).objs ==> o in w.objs
    ensures forall o :: o in w.objs && ItemFor(items, o.id).Some? ==> o in CommitGrab(w, items[..k]).objs
  {
    if k > 0 {
      CommitGrabPrefix(w, items, k - 1);
      assert items[..k][..k - 1] == items[..k - 1];
      var prev := CommitGrab(w, items[..k - 1]);
      var g := items[k - 1];
      assert items[..k][k - 1] == g;
      match Find(prev.objs, g.id)
      case None =>
      case Some(o) =>
        assert ItemFor(items, o.id).Some? by { assert g in items; }
        DeleteSpecEffect(prev, o.pos, Some(g.id));
    }
  }

  /**
   * Committing a grab removes what lay under the dropped objects but never a grabbed
   * object itself, as long as the grabbed objects occupy different cells.
   */
  lemma CommitKeepsGrabbed(w: World, items: seq<GrabData>)
    requires WorldValid(w) && GrabbedApart(w.objs, items)
    ensures WorldValid(CommitGrab(w, items))
    ensures forall o :: o in CommitGrab(w, items).objs ==> o in w.objs
    ensures forall o :: o in w.objs && ItemFor(items, o.id).Some? ==> o in CommitGrab(w, items).objs
  {
    CommitGrabPrefix(w, items, |items|);
    assert items[..|items|] == items;
  }

  /**
   * The commit loop over the items: the scene, the cursor's cell and the error raised.
   * Each item moves the cursor onto its object's cell and deletes the first other object
   * there; reading an item whose object has left the scene (before the grab ended, or
   * deleted under an earlier item) raises ReferenceError and ends the loop.
   */
  function CommitRun(w: World, items: seq<GrabData>, at: Cell): (World, Cell, Option<PyError>)
  {
    if items == [] then (w, at, None)
    else
      var r := CommitRun(w, items[..|items| - 1], at);
      var g := items[|items| - 1];
      if r.2.Some? then r
      else
        match Find(r.0.objs, g.id)
        case None => (r.0, r.1, Some(ReferenceError))
        case Some(o) => (DeleteSpec(r.0, o.pos, Some(g.id)), o.pos, None)
  }

  /** The commit loop at item k, no item having raised yet: a missing object ends it, a present one is committed. */
  lemma CommitRunNext(w: World, items: seq<GrabData>, k: nat, at: Cell, cur: World, pos: Cell)
    requires k < |items| && CommitRun(w, items[..k], at) == (cur, pos, None)
    ensures Find(cur.objs, items[k].id).None? ==> CommitRun(w, items, at) == (cur, pos, Some(ReferenceError))
    ensures Find(cur.objs, items[k].id).Some? ==>
      var o := Find(cur.objs, items[k].id).value;
      CommitRun(w, items[..k + 1], at) == (DeleteSpec(cur, o.pos, Some(items[k].id)), o.pos, None)
  {
    assert items[..k + 1][..k] == items[..k];
    if Find(cur.objs, items[k].id).None? {
      CommitRunStops(w, items, k + 1, at);
    }
  }

  /** Once an item raises, the commit loop is over: later items change nothing. */
  lemma {:induction false} CommitRunStops(w: World, items: seq<GrabData>, k: nat, at: Cell)
    requires k <= |items| && CommitRun(w, items[..k], at).2.Some?
    ensures CommitRun(w, items, at) == CommitRun(w, items[..k], at)
  {
    if k < |items| {
      var init := items[..|items| - 1];
      assert init[..k] == items[..k];
      CommitRunStops(w, init, k, at);
    } else {
      assert items[..k] == items;
    }
  }

  /** A commit loop that raises nothing deletes what CommitGrab says, and keeps identities distinct. */
  lemma {:induction false} CommitRunClean(w: World, items: seq<GrabData>, at: Cell)
    requires WorldValid(w)
    ensures WorldValid(CommitRun(w, items, at).0)
    ensures CommitRun(w, items, at).2.None? ==> CommitRun(w, items, at).0 == CommitGrab(w, items)
  {
    if items != [] {
      var init := items[..|items| - 1];
      CommitRunClean(w, init, at);
      var r := CommitRun(w, init, at);
      if r.2.None? {
        match Find(r.0.objs, items[|items| - 1].id)
        case None =>
        case Some(o) => DeleteSpecEffect(r.0, o.pos, Some(items[|items| - 1].id));
      }
    }
  }

  /**
   * With every grabbed object in the scene and no two in one cell, the commit loop never
   * finds a grabbed object gone: it raises nothing.
   */
  lemma {:induction false} CommitRunNoFault(w: World, items: seq<GrabData>, k: nat, at: Cell)
    requires WorldValid(w) && GrabbedApart(w.objs, items) && k <= |items|
    requires forall j :: 0 <= j < |items| ==> Find(w.objs, items[j].id).Some?
    ensures CommitRun(w, items[..k], at).2.None?
  {
    if k > 0 {
      CommitRunNoFault(w, items, k - 1, at);
      assert items[..k][..k - 1] == items[..k - 1];
      CommitRunClean(w, items[..k - 1], at);
      CommitGrabPrefix(w, items, k - 1);
      var o := Find(w.objs, items[k - 1].id).value;
      assert ItemFor(items, o.id).Some? by { assert items[k - 1] in items; }
      assert o in CommitGrab(w, items[..k - 1]).objs;
    }
  }

  // ---------------------------------------------------------------------
  // Copy and paste
  // ---------------------------------------------------------------------

  /** Clipboard(tile3d): group, offset from the cursor and heading. */
  function ClipOf(o: Obj, cursorPos: Cell): ClipItem
  {
    ClipItem(o.group, Sub(o.pos, cursorPos), o.rot)
  }

  function ClipAll(objs: seq<Obj>, cursorPos: Cell): (r: seq<ClipItem>)
    ensures |r| == |objs|
    ensures forall k :: 0 <= k < |objs| ==> r[k] == ClipOf(objs[k], cursorPos)
  {
    if objs == [] then [] else ClipAll(objs[..|objs| - 1], cursorPos) + [ClipOf(objs[|objs| - 1], cursorPos)]
  }

  /** GrabData(tile3d) for each grabbed tile. */
  function GrabAll(objs: seq<Obj>): (r: seq<GrabData>)
    ensures |r| == |objs|
    ensures forall k :: 0 <= k < |objs| ==> r[k] == GrabData(objs[k].id, objs[k].pos, objs[k].rot)
  {
    if objs == [] then [] else GrabAll(objs[..|objs| - 1]) + [GrabData(objs[|objs| - 1].id, objs[|objs| - 1].pos, objs[|objs| - 1].rot)]
  }

  /** paint with each cursor in turn. */
  function PaintAll(w: World, cursors: seq<Cursor>, tilesets: map<string, string>): World
  {
    if cursors == [] then w
    else PaintSpec(PaintAll(w, cursors[..|cursors| - 1], tilesets), cursors[|cursors| - 1], tilesets)
  }

  /** The temporary cursor paste paints each item through. */
  function PasteCursor(at: Cell, item: ClipItem): Cursor
  {
    Cursor(item.group, Add(at, item.posOffset), item.rot)
  }

  function PasteCursors(at: Cell, items: seq<ClipItem>): (r: seq<Cursor>)
    ensures |r| == |items|
    ensures forall k :: 0 <= k < |items| ==> r[k] == PasteCursor(at, items[k])
  {
    if items == [] then [] else PasteCursors(at, items[..|items| - 1]) + [PasteCursor(at, items[|items| - 1])]
  }

  /** paste: each clipboard item painted at the cursor plus its offset. */
  function PasteSpec(w: World, at: Cell, items: seq<ClipItem>, tilesets: map<string, string>): World
  {
    PaintAll(w, PasteCursors(at, items), tilesets)
  }

  /** Some object of this group and heading is at pos. */
  predicate HasTile(s: Store, pos: Cell, group: Option<string>, rot: int)
  {
    exists t :: t in s && t.pos == pos && t.group == group && t.rot == rot
  }

  /**
   * Painting through a list of cursors changes only their cells, and when the cells
   * differ every cursor holding a tile leaves that tile, turned as the cursor was.
   */
  lemma PaintAllEffect(w: World, cursors: seq<Cursor>, tilesets: map<string, string>)
    requires WorldValid(w)
    ensures WorldValid(PaintAll(w, cursors, tilesets))
    ensures forall q :: (forall k :: 0 <= k < |cursors| ==> cursors[k].pos != q) ==>
      TilesAt(PaintAll(w, cursors, tilesets).objs, q) == TilesAt(w.objs, q)
    ensures (forall i, j :: 0 <= i < j < |cursors| ==> cursors[i].pos != cursors[j].pos) ==>
      forall k :: 0 <= k < |cursors| && cursors[k].tile3d.Some? ==>
        HasTile(PaintAll(w, cursors, tilesets).objs, cursors[k].pos, InstanceGroup(cursors[k].tile3d.value), cursors[k].rot)
  {
    PaintAllValid(w, cursors, tilesets);
    forall q | forall k :: 0 <= k < |cursors| ==> cursors[k].pos != q
      ensures TilesAt(PaintAll(w, cursors, tilesets).objs, q) == TilesAt(w.objs, q)
    {
      PaintAllOutside(w, cursors, tilesets, q);
    }
    if forall i, j :: 0 <= i < j < |cursors| ==> cursors[i].pos != cursors[j].pos {
      PaintAllLays(w, cursors, tilesets);
    }
  }

  /** Painting through a list of cursors keeps identities distinct and below the counter. */
  lemma {:induction false} PaintAllValid(w: World, cursors: seq<Cursor>, tilesets: map<string, string>)
    requires WorldValid(w)
    ensures WorldValid(PaintAll(w, cursors, tilesets))
  {
    if cursors != [] {
      var c := cursors[|cursors| - 1];
      PaintAllValid(w, cursors[..|cursors| - 1], tilesets);
      if c.tile3d.Some? {
        PaintSpecEffect(PaintAll(w, cursors[..|cursors| - 1], tilesets), c, tilesets);
      }
    }
  }

  /** Painting through a list of cursors leaves a cell none of them is on as it was. */
  lemma {:induction false} PaintAllOutside(w: World, cursors: seq<Cursor>, tilesets: map<string, string>, q: Cell)
    requires WorldValid(w)
    requires forall k :: 0 <= k < |cursors| ==> cursors[k].pos != q
    ensures TilesAt(PaintAll(w, cursors, tilesets).objs, q) == TilesAt(w.objs, q)
  {
    if cursors != [] {
      var init, c := cursors[..|cursors| - 1], cursors[|cursors| - 1];
      assert forall k :: 0 <= k < |init| ==> init[k].pos != q by {
        forall k | 0 <= k < |init| ensures init[k].pos != q { assert init[k] == cursors[k]; }
      }
      PaintAllOutside(w, init, tilesets, q);
      PaintAllValid(w, init, tilesets);
      if c.tile3d.Some? {
        PaintSpecEffect(PaintAll(w, init, tilesets), c, tilesets);
      }
    }
  }

  /** Painting through cursors on distinct cells leaves each cursor's tile, turned as that cursor was. */
  lemma {:induction false} PaintAllLays(w: World, cursors: seq<Cursor>, tilesets: map<string, string>)
    requires WorldValid(w)
    requires forall i, j :: 0 <= i < j < |cursors| ==> cursors[i].pos != cursors[j].pos
    ensures forall k :: 0 <= k < |cursors| && cursors[k].tile3d.Some? ==>
      HasTile(PaintAll(w, cursors, tilesets).objs, cursors[k].pos, InstanceGroup(cursors[k].tile3d.value), cursors[k].rot)
  {
    if cursors != [] {
      var init, c := cursors[..|cursors| - 1], cursors[|cursors| - 1];
      assert forall i, j :: 0 <= i < j < |init| ==> init[i].pos != init[j].pos by {
        forall i, j | 0 <= i < j < |init| ensures init[i].pos != init[j].pos { assert init[i] == cursors[i] && init[j] == cursors[j]; }
      }
      PaintAllLays(w, init, tilesets);
      PaintAllValid(w, init, tilesets);
      var prev := PaintAll(w, init, tilesets);
      forall k | 0 <= k < |cursors| && cursors[k].tile3d.Some?
        ensures HasTile(PaintAll(w, cursors, tilesets).objs, cursors[k].pos, InstanceGroup(cursors[k].tile3d.value), cursors[k].rot)
      {
        var ck := cursors[k];
        if k == |cursors| - 1 {
          PaintLaysTile(prev, c, tilesets);
        } else {
          assert init[k] == ck;
          PaintKeepsTile(prev, c, tilesets, ck.pos, InstanceGroup(ck.tile3d.value), ck.rot);
        }
      }
    }
  }

  /** paint with a tile leaves that tile at the cursor, turned as the cursor is. */
  lemma PaintLaysTile(w: World, c: Cursor, tilesets: map<string, string>)
    requires WorldValid(w) && c.tile3d.Some?
    ensures HasTile(PaintSpec(w, c, tilesets).objs, c.pos, InstanceGroup(c.tile3d.value), c.rot)
  {
    PaintSpecEffect(w, c, tilesets);
    var objs := PaintSpec(w, c, tilesets).objs;
    assert objs[|objs| - 1] in objs;
  }

  /** paint keeps a tile lying at another cell. */
  lemma PaintKeepsTile(w: World, c: Cursor, tilesets: map<string, string>, pos: Cell, group: Option<string>, rot: int)
    requires WorldValid(w) && HasTile(w.objs, pos, group, rot) && pos != c.pos
    ensures HasTile(PaintSpec(w, c, tilesets).objs, pos, group, rot)
  {
    var t :| t in w.objs && t.pos == pos && t.group == group && t.rot == rot;
    if c.tile3d.Some? {
      PaintSpecEffect(w, c, tilesets);
      assert t in PaintSpec(w, c, tilesets).objs;
    }
  }

  /** Copying tiles and pasting them at the same cursor lays every copied tile where it was. */
  lemma CopyPasteInPlace(w: World, objs: seq<Obj>, at: Cell, tilesets: map<string, string>)
    requires WorldValid(w)
    requires forall i, j :: 0 <= i < j < |objs| ==> objs[i].pos != objs[j].pos
    ensures forall k :: 0 <= k < |objs| && objs[k].group.Some? ==>
      HasTile(PasteSpec(w, at, ClipAll(objs, at), tilesets).objs, objs[k].pos, InstanceGroup(objs[k].group.value), objs[k].rot)
  {
    var cs := PasteCursors(at, ClipAll(objs, at));
    assert forall k :: 0 <= k < |objs| ==> cs[k].pos == objs[k].pos;
    PaintAllEffect(w, cs, tilesets);
  }

  // ---------------------------------------------------------------------
  // Box selection: do_region over the cells of the box
  // ---------------------------------------------------------------------

  /** The cells of the selection box spanned by the start cell and the cursor. */
  function RegionOf(start: Cell, end: Cell): seq<Cell>
  {
    var b := SelectCubeBounds(start, end);
    RegionCells(b.0, b.1)
  }

  /** do_region(_cdraw): the cursor visits each cell in turn and draws there. */
  function CdrawCells(w: World, c: Cursor, cells: seq<Cell>, paint: bool, delete: bool,
                      tilesets: map<string, string>): World
  {
    if cells == [] then w
    else CdrawSpec(CdrawCells(w, c, cells[..|cells| - 1], paint, delete, tilesets),
                   c.(pos := cells[|cells| - 1]), paint, delete, tilesets)
  }

  /** get_selected_tiles: the first object at each visited cell that has one. */
  function FirstTiles(objs: Store, cells: seq<Cell>): seq<Obj>
  {
    if cells == [] then []
    else
      FirstTiles(objs, cells[..|cells| - 1]) +
        match FirstAt(objs, cells[|cells| - 1]) case None => [] case Some(o) => [o]
  }

  /** Drawing over a list of cells leaves every other cell as it was. */
  lemma {:induction false} CdrawCellsOutside(w: World, c: Cursor, cells: seq<Cell>, paint: bool, delete: bool,
                                             tilesets: map<string, string>)
    requires WorldValid(w)
    ensures WorldValid(CdrawCells(w, c, cells, paint, delete, tilesets))
    ensures forall q :: q !in cells ==> TilesAt(CdrawCells(w, c, cells, paint, delete, tilesets).objs, q) == TilesAt(w.objs, q)
  {
    if cells != [] {
      var init := cells[..|cells| - 1];
      CdrawCellsOutside(w, c, init, paint, delete, tilesets);
      CdrawSpecEffect(CdrawCells(w, c, init, paint, delete, tilesets), c.(pos := cells[|cells| - 1]), paint, delete, tilesets);
      forall q | q !in cells ensures q !in init && q != cells[|cells| - 1] {
        assert forall x :: x in init ==> x in cells;
      }
    }
  }

  function CursorsAt(c: Cursor, cells: seq<Cell>): (r: seq<Cursor>)
    ensures |r| == |cells|
    ensures forall k :: 0 <= k < |cells| ==> r[k] == c.(pos := cells[k])
  {
    if cells == [] then [] else CursorsAt(c, cells[..|cells| - 1]) + [c.(pos := cells[|cells| - 1])]
  }

  lemma {:induction false} CdrawCellsPaint(w: World, c: Cursor, cells: seq<Cell>, delete: bool, tilesets: map<string, string>)
    ensures CdrawCells(w, c, cells, true, delete, tilesets) == PaintAll(w, CursorsAt(c, cells), tilesets)
  {
    if cells != [] {
      CdrawCellsPaint(w, c, cells[..|cells| - 1], delete, tilesets);
      assert CursorsAt(c, cells)[..|cells| - 1] == CursorsAt(c, cells[..|cells| - 1]);
    }
  }

  /** Filling a selection (end_select while painting) leaves the cursor's tile in every cell of the box. */
  lemma FillRegion(w: World, c: Cursor, start: Cell, delete: bool, tilesets: map<string, string>)
    requires WorldValid(w) && c.tile3d.Some?
    ensures var r := CdrawCells(w, c, RegionOf(start, c.pos), true, delete, tilesets);
      forall cell :: InBox(cell, SelectCubeBounds(start, c.pos).0, SelectCubeBounds(start, c.pos).1) ==>
        HasTile(r.objs, cell, InstanceGroup(c.tile3d.value), c.rot)
  {
    var b := SelectCubeBounds(start, c.pos);
    var cells := RegionOf(start, c.pos);
    CdrawCellsPaint(w, c, cells, delete, tilesets);
    var cs := CursorsAt(c, cells);
    forall i, j | 0 <= i < j < |cs| ensures cs[i].pos != cs[j].pos {
      RegionCellsExact(b.0, b.1, cells[i]);
    }
    PaintAllEffect(w, cs, tilesets);
    forall cell | InBox(cell, b.0, b.1)
      ensures HasTile(CdrawCells(w, c, cells, true, delete, tilesets).objs, cell, InstanceGroup(c.tile3d.value), c.rot)
    {
      RegionCellsExact(b.0, b.1, cell);
      var k :| 0 <= k < |cells| && cells[k] == cell;
      assert cs[k].pos == cell;
    }
  }

  /**
   * Clearing a selection (end_select while deleting, not painting) empties every
   * cell of the box that held at most one object.
   */
  lemma {:induction false} ClearCells(w: World, c: Cursor, cells: seq<Cell>, tilesets: map<string, string>)
    requires WorldValid(w) && NoDuplicates(cells)
    requires forall k :: 0 <= k < |cells| ==> |TilesAt(w.objs, cells[k])| <= 1
    ensures forall k :: 0 <= k < |cells| ==> !Occupied(CdrawCells(w, c, cells, false, true, tilesets).objs, cells[k])
  {
    if cells != [] {
      var init, last := cells[..|cells| - 1], cells[|cells| - 1];
      assert NoDuplicates(init);
      ClearCells(w, c, init, tilesets);
      var prev := CdrawCells(w, c, init, false, true, tilesets);
      CdrawCellsOutside(w, c, init, false, true, tilesets);
      assert last !in init;
      ClearLast(prev, last, |TilesAt(w.objs, last)|);
      DeleteSpecEffect(prev, last, None);
      forall k | 0 <= k < |init| ensures cells[k] != last && cells[k] == init[k] { }
    }
  }

  /** Deleting at a cell that holds at most one object empties it. */
  lemma ClearLast(w: World, p: Cell, n: nat)
    requires WorldValid(w) && |TilesAt(w.objs, p)| == n <= 1
    ensures !Occupied(DeleteSpec(w, p, None).objs, p)
  {
    var before := TilesAt(w.objs, p);
    if n == 1 {
      var x := before[0];
      assert before == [x];
      TilesAtWithout(w.objs, x.id, p);
      assert Without([x], x.id) == [];
    }
  }

  /** Different cells hold different objects, so the selected tiles have distinct identities. */
  lemma {:induction false} FirstTilesDistinct(objs: Store, cells: seq<Cell>)
    requires DistinctIds(objs) && NoDuplicates(cells)
    ensures forall o :: o in FirstTiles(objs, cells) ==> o in objs && o.pos in cells
    ensures DistinctItems(GrabAll(FirstTiles(objs, cells)))
    ensures forall i, j :: 0 <= i < j < |FirstTiles(objs, cells)| ==>
      FirstTiles(objs, cells)[i].pos != FirstTiles(objs, cells)[j].pos
  {
    if cells != [] {
      var init, last := cells[..|cells| - 1], cells[|cells| - 1];
      FirstTilesDistinct(objs, init);
      assert last !in init;
      var prev := FirstTiles(objs, init);
      assert forall x :: x in init ==> x in cells;
      var r := FirstTiles(objs, cells);
      var gs := GrabAll(r);
      forall i, j | 0 <= i < j < |r| ensures r[i].pos != r[j].pos && gs[i].id != gs[j].id {
        if j == |r| - 1 && j >= |prev| {
          assert r[i] in prev && r[j] in r;
          assert r[i].pos != r[j].pos;
          DistinctIdsApart(objs, r[i], r[j]);
        } else {
          assert r[i] == prev[i] && r[j] == prev[j];
        }
      }
    }
  }
}
