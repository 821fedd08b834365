// The host scene as the tile-map engines see it: a list of placed objects,
// each with an identity, the group (tile) it instances, a grid cell, a
// heading in degrees and the tileset it belongs to. Looking up "the tiles at
// a position" is the exact-cell filter of that list, in list order.

module Scene {
  import opened Geometry
  import opened Wrappers

  /**
   * One placed object: an instance of `group` at `pos`, turned `rot` degrees about Z.
   * A plain empty has no group (its dupli_group is None).
   */
  datatype Obj = Obj(id: nat, group: Option<string>, pos: Cell, rot: int, tileset: string)

  type Store = seq<Obj>

  /** The objects of a store together with the next identity to hand out. */
  datatype World = World(objs: Store, next: nat)

  /** Identities are distinct and all below the next one to be handed out. */
  predicate WorldValid(w: World)
  {
    (forall i, j :: 0 <= i < j < |w.objs| ==> w.objs[i].id != w.objs[j].id) &&
    (forall o :: o in w.objs ==> o.id < w.next)
  }

  /** The objects at a cell, in store order (the exact-cell form of the range search). */
  function TilesAt(s: Store, p: Cell): (r: seq<Obj>)
    ensures forall o :: o in r <==> o in s && o.pos == p
    ensures |r| <= |s|
  {
    if s == [] then []
    else if s[|s| - 1].pos == p then TilesAt(s[..|s| - 1], p) + [s[|s| - 1]]
    else TilesAt(s[..|s| - 1], p)
  }

  predicate Occupied(s: Store, p: Cell) { TilesAt(s, p) != [] }

  /** The store without the object whose identity is id (bpy.data.objects.remove). */
  function Without(s: Store, id: nat): (r: Store)
    ensures forall o :: o in r <==> o in s && o.id != id
    ensures |r| <= |s|
  {
    if s == [] then []
    else if s[|s| - 1].id == id then Without(s[..|s| - 1], id)
    else Without(s[..|s| - 1], id) + [s[|s| - 1]]
  }

  /** The store with the object id moved to pos and turned to rot; nothing else changes. */
  function Moved(s: Store, id: nat, pos: Cell, rot: int): (r: Store)
    ensures |r| == |s|
    ensures forall i :: 0 <= i < |s| ==>
      r[i] == if s[i].id == id then s[i].(pos := pos, rot := rot) else s[i]
  {
    if s == [] then []
    else
      var last := s[|s| - 1];
      Moved(s[..|s| - 1], id, pos, rot) + [if last.id == id then last.(pos := pos, rot := rot) else last]
  }

  /** The object with identity id, if the store still holds it. */
  function Find(s: Store, id: nat): (r: Option<Obj>)
    ensures r.Some? ==> r.value in s && r.value.id == id
    ensures r.None? ==> forall o :: o in s ==> o.id != id
  {
    if s == [] then None
    else if s[|s| - 1].id == id then Some(s[|s| - 1])
    else Find(s[..|s| - 1], id)
  }

  /** A new object appended to the store with a fresh identity. */
  function Place(w: World, group: Option<string>, pos: Cell, rot: int, tileset: string): (r: World)
    ensures r.objs == w.objs + [Obj(w.next, group, pos, rot, tileset)]
    ensures r.next == w.next + 1
  {
    World(w.objs + [Obj(w.next, group, pos, rot, tileset)], w.next + 1)
  }

  function Remove(w: World, id: nat): World { World(Without(w.objs, id), w.next) }

  // ---------------------------------------------------------------------
  // How each store operation changes the contents of one cell
  // ---------------------------------------------------------------------

  lemma TilesAtAppend(s: Store, o: Obj, p: Cell)
    ensures TilesAt(s + [o], p) == TilesAt(s, p) + (if o.pos == p then [o] else [])
  {
    assert (s + [o])[..|s + [o]| - 1] == s;
  }

  /** Removing an object from the store removes it from the cell it was in, in place. */
  lemma {:induction false} TilesAtWithout(s: Store, id: nat, p: Cell)
    ensures TilesAt(Without(s, id), p) == Without(TilesAt(s, p), id)
  {
    if s != [] {
      var init, last := s[..|s| - 1], s[|s| - 1];
      TilesAtWithout(init, id, p);
      if last.id != id {
        TilesAtAppend(Without(init, id), last, p);
      }
    }
  }

  /** Placing an object leaves every other cell as it was. */
  lemma PlaceOtherCell(w: World, group: Option<string>, pos: Cell, rot: int, tileset: string, p: Cell)
    ensures TilesAt(Place(w, group, pos, rot, tileset).objs, p) ==
      TilesAt(w.objs, p) + (if pos == p then [Obj(w.next, group, pos, rot, tileset)] else [])
  {
    TilesAtAppend(w.objs, Obj(w.next, group, pos, rot, tileset), p);
  }

  /** With distinct identities, removing one object lowers the store size by exactly one. */
  lemma {:induction false} WithoutCount(s: Store, id: nat)
    requires forall i, j :: 0 <= i < j < |s| ==> s[i].id != s[j].id
    ensures (exists o :: o in s && o.id == id) ==> |Without(s, id)| == |s| - 1
    ensures (forall o :: o in s ==> o.id != id) ==> |Without(s, id)| == |s|
  {
    if s != [] {
      var init, last := s[..|s| - 1], s[|s| - 1];
      assert s == init + [last];
      WithoutCount(init, id);
      if last.id == id {
        assert Without(s, id) == Without(init, id);
        forall o | o in init ensures o.id != id {
          var k :| 0 <= k < |init| && init[k] == o;
          assert s[k] == o;
        }
      } else {
        assert Without(s, id) == Without(init, id) + [last];
        if exists o :: o in s && o.id == id {
          var o :| o in s && o.id == id;
          assert o in init;
        }
      }
    }
  }

  lemma WithoutKeepsDistinct(s: Store, id: nat)
    requires forall i, j :: 0 <= i < j < |s| ==> s[i].id != s[j].id
    ensures forall i, j :: 0 <= i < j < |Without(s, id)| ==> Without(s, id)[i].id != Without(s, id)[j].id
    decreases |s|
  {
    if s != [] {
      var init := s[..|s| - 1];
      WithoutKeepsDistinct(init, id);
      var r := Without(s, id);
      if s[|s| - 1].id != id {
        forall i, j | 0 <= i < j < |r| ensures r[i].id != r[j].id {
          if j == |r| - 1 && i < j {
            assert r[i] in Without(init, id);
            var k :| 0 <= k < |init| && init[k] == r[i];
            assert s[k] == r[i];
          }
        }
      }
    }
  }

  lemma MovedKeepsDistinct(s: Store, id: nat, pos: Cell, rot: int)
    requires forall i, j :: 0 <= i < j < |s| ==> s[i].id != s[j].id
    ensures forall i, j :: 0 <= i < j < |Moved(s, id, pos, rot)| ==>
      Moved(s, id, pos, rot)[i].id != Moved(s, id, pos, rot)[j].id
  {
  }

  /** Every store operation keeps identities distinct and below the counter. */
  lemma OperationsKeepValid(w: World, id: nat, group: Option<string>, pos: Cell, rot: int, tileset: string)
    requires WorldValid(w)
    ensures WorldValid(Remove(w, id))
    ensures WorldValid(Place(w, group, pos, rot, tileset))
    ensures WorldValid(World(Moved(w.objs, id, pos, rot), w.next))
  {
    WithoutKeepsDistinct(w.objs, id);
    PlaceKeepsValid(w, group, pos, rot, tileset);
    MovedKeepsValid(w, id, pos, rot);
  }

  lemma PlaceKeepsValid(w: World, group: Option<string>, pos: Cell, rot: int, tileset: string)
    requires WorldValid(w)
    ensures WorldValid(Place(w, group, pos, rot, tileset))
  {
    var r := Place(w, group, pos, rot, tileset).objs;
    forall i, j | 0 <= i < j < |r| ensures r[i].id != r[j].id {
      if j < |w.objs| {
        assert r[i] == w.objs[i] && r[j] == w.objs[j];
      } else {
        assert r[i] == w.objs[i] && w.objs[i] in w.objs;
      }
    }
  }

  lemma MovedKeepsValid(w: World, id: nat, pos: Cell, rot: int)
    requires WorldValid(w)
    ensures WorldValid(World(Moved(w.objs, id, pos, rot), w.next))
  {
    MovedKeepsDistinct(w.objs, id, pos, rot);
    var m := Moved(w.objs, id, pos, rot);
    forall o | o in m ensures o.id < w.next {
      var k :| 0 <= k < |m| && m[k] == o;
      assert w.objs[k] in w.objs;
    }
  }
}
