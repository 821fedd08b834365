// The AutoTiler3D editor of testudo3d/autotiler3d.py. It extends Tilemap3D so
// that painting picks the tile from the active tileset's ruleset by the
// painted cell's neighbour mask, and every paint or delete retiles the six
// neighbours. The batch operations clear a list of cells, compute all their
// masks against a simulated scene in which every listed cell is filled, place
// the tiles, and retile the surrounding cells once each (the `touched` list).
//
// The Tilemap3D part is the object `base`; the auto-tiler's own state is the
// alt flag, the touched list, the rulesets and the active tileset.

module AutoTiling {
  import opened Wrappers
  import opened Geometry
  import opened Scene
  import opened Rules
  import opened Tilemap
  import opened TilemapEngine
  import opened Bitmasks

  // ---------------------------------------------------------------------
  // Objects carry the tileset of their group
  // ---------------------------------------------------------------------

  /** Every object's tileset is the one its group belongs to (create_tile sets it so). */
  predicate Tagged(objs: Store, tilesets: map<string, string>)
  {
    forall o :: o in objs ==> o.tileset == TilesetOf(tilesets, o.group)
  }

  lemma TaggedDelete(w: World, p: Cell, ignore: Option<nat>, tilesets: map<string, string>)
    requires Tagged(w.objs, tilesets)
    ensures Tagged(DeleteSpec(w, p, ignore).objs, tilesets)
  {
  }

  lemma TaggedPaint(w: World, c: Cursor, tilesets: map<string, string>)
    requires Tagged(w.objs, tilesets)
    ensures Tagged(PaintSpec(w, c, tilesets).objs, tilesets)
  {
    TaggedDelete(w, c.pos, None, tilesets);
  }

  lemma {:induction false} TaggedPaintAll(w: World, cursors: seq<Cursor>, tilesets: map<string, string>)
    requires Tagged(w.objs, tilesets)
    ensures Tagged(PaintAll(w, cursors, tilesets).objs, tilesets)
  {
    if cursors != [] {
      TaggedPaintAll(w, cursors[..|cursors| - 1], tilesets);
      TaggedPaint(PaintAll(w, cursors[..|cursors| - 1], tilesets), cursors[|cursors| - 1], tilesets);
    }
  }

  lemma {:induction false} TaggedCdrawCells(w: World, c: Cursor, cells: seq<Cell>, paint: bool, delete: bool,
                                            tilesets: map<string, string>)
    requires Tagged(w.objs, tilesets)
    ensures Tagged(CdrawCells(w, c, cells, paint, delete, tilesets).objs, tilesets)
  {
    if cells != [] {
      var prev := CdrawCells(w, c, cells[..|cells| - 1], paint, delete, tilesets);
      var here := c.(pos := cells[|cells| - 1]);
      TaggedCdrawCells(w, c, cells[..|cells| - 1], paint, delete, tilesets);
      TaggedPaint(prev, here, tilesets);
      TaggedDelete(prev, here.pos, None, tilesets);
    }
  }

  lemma TaggedMoved(s: Store, id: nat, pos: Cell, rot: int, tilesets: map<string, string>)
    requires Tagged(s, tilesets)
    ensures Tagged(Moved(s, id, pos, rot), tilesets)
  {
    var r := Moved(s, id, pos, rot);
    forall o | o in r ensures o.tileset == TilesetOf(tilesets, o.group) {
      var i :| 0 <= i < |r| && r[i] == o;
      assert s[i] in s;
    }
  }

  lemma {:induction false} TaggedMoveItems(objs: Store, items: seq<GrabData>, m: Move, tilesets: map<string, string>)
    requires MoveOk(m) && Tagged(objs, tilesets)
    ensures Tagged(MoveItems(objs, items, m), tilesets)
  {
    if items != [] {
      var prev := MoveItems(objs, items[..|items| - 1], m);
      var g := items[|items| - 1];
      TaggedMoveItems(objs, items[..|items| - 1], m, tilesets);
      match Find(prev, g.id)
      case None =>
      case Some(o) =>
        var n := MoveObj(o, m, g);
        TaggedMoved(prev, g.id, n.pos, n.rot, tilesets);
    }
  }

  lemma {:induction false} TaggedCommitGrab(w: World, items: seq<GrabData>, tilesets: map<string, string>)
    requires Tagged(w.objs, tilesets)
    ensures Tagged(CommitGrab(w, items).objs, tilesets)
  {
    if items != [] {
      var prev := CommitGrab(w, items[..|items| - 1]);
      TaggedCommitGrab(w, items[..|items| - 1], tilesets);
      match Find(prev.objs, items[|items| - 1].id)
      case None =>
      case Some(o) => TaggedDelete(prev, o.pos, Some(items[|items| - 1].id), tilesets);
    }
  }

  lemma {:induction false} TaggedCommitRun(w: World, items: seq<GrabData>, at: Cell, tilesets: map<string, string>)
    requires Tagged(w.objs, tilesets)
    ensures Tagged(CommitRun(w, items, at).0.objs, tilesets)
  {
    if items != [] {
      var r := CommitRun(w, items[..|items| - 1], at);
      TaggedCommitRun(w, items[..|items| - 1], at, tilesets);
      if r.2.None? {
        match Find(r.0.objs, items[|items| - 1].id)
        case None =>
        case Some(o) => TaggedDelete(r.0, o.pos, Some(items[|items| - 1].id), tilesets);
      }
    }
  }

  /** end_grab keeps every tile tagged with its group's tileset, whether or not it raises. */
  lemma TaggedGrabEnded(w: World, c: Cursor, selection: Option<Cell>, paint: bool, delete: bool,
                        items: seq<GrabData>, cancel: bool, tilesets: map<string, string>)
    requires Tagged(w.objs, tilesets)
    ensures Tagged(GrabEnded(w, c, selection, paint, delete, items, cancel, tilesets).0.objs, tilesets)
  {
    var d := GrabDrawn(w, c, selection, paint, delete, tilesets);
    if selection.Some? {
      TaggedCdrawCells(w, c, RegionOf(selection.value, c.pos), paint, delete, tilesets);
    }
    if cancel {
      match FirstMissing(d.objs, items)
      case None => TaggedMoveItems(d.objs, items, Restore, tilesets);
      case Some(k) => TaggedMoveItems(d.objs, items[..k], Restore, tilesets);
    } else {
      TaggedCommitRun(d, items, c.pos, tilesets);
    }
  }

  // ---------------------------------------------------------------------
  // What one retiling does
  // ---------------------------------------------------------------------

  /** Only the listed cells may hold other tiles than before. */
  ghost predicate SameOutside(w: World, w': World, cells: seq<Cell>)
  {
    forall q :: q !in cells ==> TilesAt(w'.objs, q) == TilesAt(w.objs, q)
  }

  /** An object a rule put at p: an instance of one of the rule's tiles, turned to the rule's rot. */
  predicate FromRule(o: Obj, p: Cell, r: Rule)
  {
    o.pos == p && o.rot == r.rot && exists g :: g in r.tiles && o.group == InstanceGroup(g)
  }

  /** create_tile(choice(rule.tiles)) at p, then tile3d.rot = rule.rot. */
  predicate RuleTilePlaced(w: World, w': World, p: Cell, r: Rule, tilesets: map<string, string>)
  {
    exists g :: g in r.tiles && w' == Place(w, InstanceGroup(g), p, r.rot, TilesetOf(tilesets, InstanceGroup(g)))
  }

  /** new_auto_tile and auto_tiling once the rule is known: the first tile at p goes, then the rule's tile comes. */
  predicate Retiled(w: World, w': World, p: Cell, rule: Option<Rule>, tilesets: map<string, string>)
  {
    var cleared := DeleteSpec(w, p, None);
    match rule
    case None => w' == cleared
    case Some(r) => RuleTilePlaced(cleared, w', p, r, tilesets)
  }

  /**
   * auto_tiling at p: an empty cell and a plain object (no tileset) are left alone;
   * otherwise the cell is retiled by the ruleset of its first object's tileset.
   */
  predicate AutoTiled(rulesets: map<string, Ruleset>, tilesets: map<string, string>, w: World, w': World, p: Cell)
  {
    match FirstAt(w.objs, p)
    case None => w' == w
    case Some(o) =>
      if o.tileset == "" then w' == w
      else o.tileset in rulesets && Retiled(w, w', p, Get(rulesets[o.tileset], Mask(w.objs, p)), tilesets)
  }

  /**
   * Retiling changes only its own cell: the first tile there goes, and with a rule
   * a new object of one of the rule's tiles, turned to the rule's rot, is added last.
   */
  lemma RetiledEffect(w: World, w': World, p: Cell, rule: Option<Rule>, tilesets: map<string, string>)
    requires WorldValid(w) && Tagged(w.objs, tilesets) && Retiled(w, w', p, rule, tilesets)
    ensures WorldValid(w') && Tagged(w'.objs, tilesets) && w'.next >= w.next
    ensures SameOutside(w, w', [p])
    ensures rule.None? ==> TilesAt(w'.objs, p) == TilesAt(DeleteSpec(w, p, None).objs, p)
    ensures rule.Some? ==>
      exists o: Obj :: o.id == w.next && FromRule(o, p, rule.value) &&
        TilesAt(w'.objs, p) == TilesAt(DeleteSpec(w, p, None).objs, p) + [o]
  {
    var cleared := DeleteSpec(w, p, None);
    DeleteSpecEffect(w, p, None);
    TaggedDelete(w, p, None, tilesets);
    if rule.Some? {
      RuleTileKeeps(cleared, w', p, rule.value, tilesets);
      RuleTileValid(cleared, w', p, rule.value, tilesets);
    }
  }

  /** Placing a rule's tile keeps the scene valid and every object tagged with its tileset. */
  lemma RuleTileValid(w: World, w': World, p: Cell, r: Rule, tilesets: map<string, string>)
    requires WorldValid(w) && Tagged(w.objs, tilesets) && RuleTilePlaced(w, w', p, r, tilesets)
    ensures WorldValid(w') && Tagged(w'.objs, tilesets)
  {
    var g :| g in r.tiles && w' == Place(w, InstanceGroup(g), p, r.rot, TilesetOf(tilesets, InstanceGroup(g)));
    Scene.OperationsKeepValid(w, 0, InstanceGroup(g), p, r.rot, TilesetOf(tilesets, InstanceGroup(g)));
  }

  lemma AutoTiledEffect(rulesets: map<string, Ruleset>, tilesets: map<string, string>, w: World, w': World, p: Cell)
    requires WorldValid(w) && Tagged(w.objs, tilesets) && AutoTiled(rulesets, tilesets, w, w', p)
    ensures WorldValid(w') && Tagged(w'.objs, tilesets) && SameOutside(w, w', [p])
  {
    match FirstAt(w.objs, p)
    case None =>
    case Some(o) =>
      if o.tileset != "" {
        RetiledEffect(w, w', p, Get(rulesets[o.tileset], Mask(w.objs, p)), tilesets);
      }
  }

  // ---------------------------------------------------------------------
  // The batch operations' scenes
  // ---------------------------------------------------------------------

  /** do_points(points, Tilemap3D.delete): the first tile at each point goes, in order. */
  function DeleteAt(w: World, points: seq<Cell>): World
  {
    if points == [] then w else DeleteSpec(DeleteAt(w, points[..|points| - 1]), points[|points| - 1], None)
  }

  lemma {:induction false} DeleteAtEffect(w: World, points: seq<Cell>, tilesets: map<string, string>)
    requires WorldValid(w) && Tagged(w.objs, tilesets)
    ensures WorldValid(DeleteAt(w, points)) && Tagged(DeleteAt(w, points).objs, tilesets)
    ensures DeleteAt(w, points).next == w.next
    ensures SameOutside(w, DeleteAt(w, points), points)
  {
    if points != [] {
      var init, last := points[..|points| - 1], points[|points| - 1];
      var prev := DeleteAt(w, init);
      DeleteAtEffect(w, init, tilesets);
      DeleteSpecEffect(prev, last, None);
      TaggedDelete(prev, last, None, tilesets);
      PrefixIn(points);
    }
  }

  /** Whatever is in the front of a list, or is its last element, is in the list. */
  lemma PrefixIn<T>(s: seq<T>)
    requires s != []
    ensures s[|s| - 1] in s
    ensures forall x :: x in s[..|s| - 1] ==> x in s
  {
    forall x | x in s[..|s| - 1] ensures x in s {
      var i :| 0 <= i < |s| - 1 && s[..|s| - 1][i] == x;
      assert s[i] == x;
    }
  }

  /** The stand-in optimized_paint puts at a point: only its position matters. */
  function FakeObject(p: Cell): Obj { Obj(0, None, p, 0, "") }

  /** The fake scene: the objects there are, then a stand-in at each point. */
  function WithFakes(objs: Store, points: seq<Cell>): Store
  {
    if points == [] then objs else WithFakes(objs, points[..|points| - 1]) + [FakeObject(points[|points| - 1])]
  }

  /** In the fake scene a cell is occupied when it really is or when it is one of the points. */
  lemma {:induction false} FakeOccupancy(objs: Store, points: seq<Cell>, q: Cell)
    ensures Occupied(WithFakes(objs, points), q) <==> Occupied(objs, q) || q in points
  {
    if points != [] {
      var init, last := points[..|points| - 1], points[|points| - 1];
      FakeOccupancy(objs, init, q);
      TilesAtAppend(WithFakes(objs, init), FakeObject(last), q);
      assert points == init + [last];
    }
  }

  /** Bit i of a point's simulated mask: neighbour i is occupied, or is itself one of the points. */
  lemma SimulatedMask(objs: Store, points: seq<Cell>, p: Cell)
    ensures forall i :: 0 <= i < 6 ==>
      (Bit(Mask(WithFakes(objs, points), p), i) <==> Occupied(objs, Add(p, Adjacency[i])) || Add(p, Adjacency[i]) in points)
  {
    MaskNeighbours(WithFakes(objs, points), p);
    forall i | 0 <= i < 6
      ensures Occupied(WithFakes(objs, points), Add(p, Adjacency[i])) <==> Occupied(objs, Add(p, Adjacency[i])) || Add(p, Adjacency[i]) in points
    {
      FakeOccupancy(objs, points, Add(p, Adjacency[i]));
    }
  }

  /** Placing a rule's tile keeps every object and changes no cell but its own. */
  lemma RuleTileKeeps(w: World, w': World, p: Cell, r: Rule, tilesets: map<string, string>)
    requires RuleTilePlaced(w, w', p, r, tilesets)
    ensures w'.next == w.next + 1
    ensures exists o: Obj :: o.id == w.next && FromRule(o, p, r) && TilesAt(w'.objs, p) == TilesAt(w.objs, p) + [o]
    ensures SameOutside(w, w', [p])
    ensures forall q, o :: o in TilesAt(w.objs, q) ==> o in TilesAt(w'.objs, q)
  {
    var g :| g in r.tiles && w' == Place(w, InstanceGroup(g), p, r.rot, TilesetOf(tilesets, InstanceGroup(g)));
    var o := Obj(w.next, InstanceGroup(g), p, r.rot, TilesetOf(tilesets, InstanceGroup(g)));
    assert FromRule(o, p, r);
    PlaceOtherCell(w, InstanceGroup(g), p, r.rot, TilesetOf(tilesets, InstanceGroup(g)), p);
    forall q | q !in [p] ensures TilesAt(w'.objs, q) == TilesAt(w.objs, q) {
      PlaceOtherCell(w, InstanceGroup(g), p, r.rot, TilesetOf(tilesets, InstanceGroup(g)), q);
    }
    forall q, o' | o' in TilesAt(w.objs, q) ensures o' in TilesAt(w'.objs, q) {
      PlaceOtherCell(w, InstanceGroup(g), p, r.rot, TilesetOf(tilesets, InstanceGroup(g)), q);
    }
  }

  /** The front and the last element of a + b, for a non-empty b. */
  lemma AppendSnoc<T>(a: seq<T>, b: seq<T>)
    requires b != []
    ensures (a + b)[..|a + b| - 1] == a + b[..|b| - 1] && (a + b)[|a + b| - 1] == b[|b| - 1]
  {
  }

  /** An element of a non-empty list is in its front or is its last element. */
  lemma InSnoc<T>(s: seq<T>)
    requires s != []
    ensures forall x :: x in s <==> x in s[..|s| - 1] || x == s[|s| - 1]
  {
    assert s == s[..|s| - 1] + [s[|s| - 1]];
  }

  /** Membership in a list one element longer. */
  lemma SnocIn<T>(s: seq<T>, k: nat)
    requires k < |s|
    ensures forall x :: x in s[..k + 1] <==> x in s[..k] || x == s[k]
  {
    assert s[..k + 1] == s[..k] + [s[k]];
  }

  /**
   * One more point of the rule pass: the point's rule (if any) adds a tile there, every
   * tile placed so far stays, and only the points so far may have changed.
   */
  lemma PlaceRulesStep(w0: World, wk: World, w: World, points: seq<Cell>, k: nat, rs: Ruleset,
                       bitmasks: map<Cell, nat>, tilesets: map<string, string>)
    requires k < |points| && forall p :: p in points ==> p in bitmasks
    requires wk.next >= w0.next && SameOutside(w0, wk, points[..k])
    requires forall j :: 0 <= j < k && Get(rs, bitmasks[points[j]]).Some? ==>
      exists o :: o in TilesAt(wk.objs, points[j]) && o.id >= w0.next && FromRule(o, points[j], Get(rs, bitmasks[points[j]]).value)
    requires match Get(rs, bitmasks[points[k]])
      case None => w == wk
      case Some(r) => RuleTilePlaced(wk, w, points[k], r, tilesets)
    ensures w.next >= w0.next && SameOutside(w0, w, points[..k + 1])
    ensures forall j :: 0 <= j < k + 1 && Get(rs, bitmasks[points[j]]).Some? ==>
      exists o :: o in TilesAt(w.objs, points[j]) && o.id >= w0.next && FromRule(o, points[j], Get(rs, bitmasks[points[j]]).value)
  {
    SnocIn(points, k);
    var rule := Get(rs, bitmasks[points[k]]);
    if rule.Some? {
      RuleTileKeeps(wk, w, points[k], rule.value, tilesets);
      forall j | 0 <= j < k + 1 && Get(rs, bitmasks[points[j]]).Some?
        ensures exists o :: o in TilesAt(w.objs, points[j]) && o.id >= w0.next && FromRule(o, points[j], Get(rs, bitmasks[points[j]]).value)
      {
        if j < k {
          var o: Obj :| o in TilesAt(wk.objs, points[j]) && o.id >= w0.next && FromRule(o, points[j], Get(rs, bitmasks[points[j]]).value);
          assert o in TilesAt(w.objs, points[j]);
        } else {
          var o: Obj :| o.id == wk.next && FromRule(o, points[k], rule.value) && TilesAt(w.objs, points[k]) == TilesAt(wk.objs, points[k]) + [o];
          assert o in TilesAt(w.objs, points[k]);
        }
      }
    }
  }

  /** create_tile then tile3d.rot = r: the same as creating the tile turned to r. */
  lemma TurnNewest(w: World, group: Option<string>, p: Cell, rot: int, tileset: string, r: int)
    requires WorldValid(w)
    ensures World(Moved(Place(w, group, p, rot, tileset).objs, w.next, p, r), w.next + 1) == Place(w, group, p, r, tileset)
  {
    var s := Place(w, group, p, rot, tileset).objs;
    var m := Moved(s, w.next, p, r);
    forall i | 0 <= i < |w.objs| ensures m[i] == w.objs[i] {
      assert w.objs[i] in w.objs;
    }
    assert m == w.objs + [Obj(w.next, group, p, r, tileset)];
  }

  lemma SameOutsideTrans(w0: World, w1: World, w2: World, a: seq<Cell>, b: seq<Cell>)
    requires SameOutside(w0, w1, a) && SameOutside(w1, w2, b)
    ensures SameOutside(w0, w2, a + b)
  {
  }

  lemma SameOutsideWithin(w: World, w': World, a: seq<Cell>, b: seq<Cell>)
    requires SameOutside(w, w', a) && forall c :: c in a ==> c in b
    ensures SameOutside(w, w', b)
  {
  }

  /**
   * The cells a run of optimized_auto_tiling over `cells` retiles when `touched`
   * holds t: each cell that is not yet touched, once, in order.
   */
  function Kept(t: seq<Cell>, cells: seq<Cell>): seq<Cell>
  {
    if cells == [] then []
    else
      var prev := Kept(t, cells[..|cells| - 1]);
      var c := cells[|cells| - 1];
      if c in t + prev then prev else prev + [c]
  }

  /** Kept holds every cell of the run that was not touched before, and each once. */
  lemma {:induction false} KeptSpec(t: seq<Cell>, cells: seq<Cell>)
    ensures NoDuplicates(Kept(t, cells))
    ensures forall c :: c in Kept(t, cells) <==> c in cells && c !in t
  {
    if cells != [] {
      var init, c := cells[..|cells| - 1], cells[|cells| - 1];
      KeptSpec(t, init);
      assert cells == init + [c];
      var prev := Kept(t, init);
      if c !in t + prev {
        ConcatNoDuplicates(prev, [c]);
      }
    }
  }

  /** Two runs one after the other: the second starts from what the first touched. */
  lemma {:induction false} KeptAppend(t: seq<Cell>, a: seq<Cell>, b: seq<Cell>)
    ensures Kept(t, a + b) == Kept(t, a) + Kept(t + Kept(t, a), b)
  {
    if b == [] {
      assert a + b == a;
    } else {
      var init, c := b[..|b| - 1], b[|b| - 1];
      KeptAppend(t, a, init);
      assert (a + b)[..|a + b| - 1] == a + init;
      var ka := Kept(t, a);
      var kb := Kept(t + ka, init);
      assert t + (ka + kb) == (t + ka) + kb;
    }
  }

  /** The cells a run of optimized_auto_tiling over `cells` retiles: all of them outside a batch. */
  function Added(touched: Option<seq<Cell>>, cells: seq<Cell>): seq<Cell>
  {
    if touched.None? then cells else Kept(touched.value, cells)
  }

  /** The touched list after such a run. */
  function After(touched: Option<seq<Cell>>, cells: seq<Cell>): Option<seq<Cell>>
  {
    if touched.None? then None else Some(touched.value + Kept(touched.value, cells))
  }

  lemma KeptOne(t: seq<Cell>, c: Cell)
    ensures Kept(t, [c]) == if c in t then [] else [c]
  {
    assert [c][..0] == [];
    assert t + [] == t;
  }

  /** A run extended by one cell: that cell is retiled unless the run so far touched it. */
  lemma AddedSnoc(touched: Option<seq<Cell>>, cells: seq<Cell>, c: Cell)
    ensures Added(touched, cells + [c]) == Added(touched, cells) + Added(After(touched, cells), [c])
    ensures After(touched, cells + [c]) == After(After(touched, cells), [c])
  {
    if touched.Some? {
      var t := touched.value;
      KeptAppend(t, cells, [c]);
      KeptOne(t + Kept(t, cells), c);
      assert t + Kept(t, cells + [c]) == (t + Kept(t, cells)) + Kept(t + Kept(t, cells), [c]);
    }
  }

  /** One more point of optimized_repaint_adjacent: its neighbours' run continues the touched list. */
  lemma RepaintStep(points: seq<Cell>, k: nat, around: seq<Cell>)
    requires k < |points| && around == Neighbours(points[k])
    ensures Kept(points, AllNeighbours(points[..k + 1])) ==
      Kept(points, AllNeighbours(points[..k])) + Kept(points + Kept(points, AllNeighbours(points[..k])), around)
  {
    var a := AllNeighbours(points[..k]);
    var prefix := points[..k + 1];
    assert prefix[..|prefix| - 1] == points[..k] && prefix[|prefix| - 1] == points[k];
    assert AllNeighbours(prefix) == a + around;
    KeptAppend(points, a, around);
  }

  /** The loop of optimized_repaint_adjacent keeps its invariant from one point to the next. */
  lemma RepaintLoopStep(points: seq<Cell>, around: seq<Cell>, before: seq<Cell>, after: seq<Cell>, r0: seq<Cell>,
                        touched: Option<seq<Cell>>, retiled: seq<Cell>, w0: World, wk: World, w: World)
    requires after == before + Kept(points + before, around)
    requires touched == After(Some(points + before), around)
    requires retiled == (r0 + before) + Added(Some(points + before), around)
    requires SameOutside(w0, wk, before) && SameOutside(wk, w, Added(Some(points + before), around))
    ensures touched == Some(points + after) && retiled == r0 + after && SameOutside(w0, w, after)
  {
    var more := Kept(points + before, around);
    SameOutsideTrans(w0, wk, w, before, more);
    assert points + (before + more) == (points + before) + more;
    assert r0 + (before + more) == (r0 + before) + more;
  }

  /** What a run retiles lies among the cells it ran over. */
  lemma SameOutsideRun(w: World, w': World, touched: Option<seq<Cell>>, cells: seq<Cell>)
    requires SameOutside(w, w', Added(touched, cells))
    ensures SameOutside(w, w', cells)
  {
    if touched.Some? {
      KeptSpec(touched.value, cells);
      SameOutsideWithin(w, w', Kept(touched.value, cells), cells);
    }
  }

  /** The neighbours of every point, point by point (the cells repaint_adjacent visits). */
  function AllNeighbours(points: seq<Cell>): seq<Cell>
  {
    if points == [] then [] else AllNeighbours(points[..|points| - 1]) + Neighbours(points[|points| - 1])
  }

  lemma {:induction false} AllNeighboursSpec(points: seq<Cell>)
    ensures forall c :: c in AllNeighbours(points) <==> exists k :: 0 <= k < |points| && c in Neighbours(points[k])
  {
    if points != [] {
      var init := points[..|points| - 1];
      AllNeighboursSpec(init);
      assert forall k :: 0 <= k < |init| ==> points[k] == init[k];
    }
  }

  /** Deleting at a cell leaves that cell's mask as it was. */
  lemma MaskAfterDelete(w: World, p: Cell)
    requires WorldValid(w)
    ensures Mask(DeleteSpec(w, p, None).objs, p) == Mask(w.objs, p)
  {
    DeleteSpecEffect(w, p, None);
    MaskOutside(DeleteSpec(w, p, None).objs, w.objs, p);
  }

  // ---------------------------------------------------------------------
  // Runs of retiling, and the scenes the auto-mode operations end in
  // ---------------------------------------------------------------------

  /**
   * The scene after auto_tiling ran at each of the cells in turn, each on the scene
   * the one before left. random.choice makes each step a relation, so the run is too.
   */
  ghost predicate RetiledRun(rulesets: map<string, Ruleset>, tilesets: map<string, string>, w: World, w': World,
                             cells: seq<Cell>)
    decreases |cells|
  {
    if cells == [] then w' == w
    else
      var init, c := cells[..|cells| - 1], cells[|cells| - 1];
      exists wm :: RetiledRun(rulesets, tilesets, w, wm, init) && AutoTiled(rulesets, tilesets, wm, w', c)
  }

  /** do_points one cell further: the run over the first k cells, then cell k's own run. */
  lemma AutoTileLoopStep(rulesets: map<string, Ruleset>, tilesets: map<string, string>, w0: World, wk: World, w: World,
                         t0: Option<seq<Cell>>, cells: seq<Cell>, k: nat, r0: seq<Cell>)
    requires k < |cells|
    requires RetiledRun(rulesets, tilesets, w0, wk, Added(t0, cells[..k]))
    requires RetiledRun(rulesets, tilesets, wk, w, Added(After(t0, cells[..k]), [cells[k]]))
    ensures RetiledRun(rulesets, tilesets, w0, w, Added(t0, cells[..k + 1]))
    ensures Added(t0, cells[..k + 1]) == Added(t0, cells[..k]) + Added(After(t0, cells[..k]), [cells[k]])
    ensures After(t0, cells[..k + 1]) == After(After(t0, cells[..k]), [cells[k]])
    ensures r0 + Added(t0, cells[..k + 1]) == (r0 + Added(t0, cells[..k])) + Added(After(t0, cells[..k]), [cells[k]])
  {
    AddedStep(t0, cells, k, r0);
    RetiledRunAppend(rulesets, tilesets, w0, wk, w, Added(t0, cells[..k]), Added(After(t0, cells[..k]), [cells[k]]));
  }

  /** The cells and the touched list of do_points one cell further. */
  lemma AddedStep(t0: Option<seq<Cell>>, cells: seq<Cell>, k: nat, r0: seq<Cell>)
    requires k < |cells|
    ensures Added(t0, cells[..k + 1]) == Added(t0, cells[..k]) + Added(After(t0, cells[..k]), [cells[k]])
    ensures After(t0, cells[..k + 1]) == After(After(t0, cells[..k]), [cells[k]])
    ensures r0 + Added(t0, cells[..k + 1]) == (r0 + Added(t0, cells[..k])) + Added(After(t0, cells[..k]), [cells[k]])
  {
    assert cells[..k + 1] == cells[..k] + [cells[k]];
    AddedSnoc(t0, cells[..k], cells[k]);
  }

  /** A run over one cell is auto_tiling at that cell. */
  lemma RetiledRunOne(rulesets: map<string, Ruleset>, tilesets: map<string, string>, w: World, w': World, c: Cell)
    ensures RetiledRun(rulesets, tilesets, w, w', [c]) <==> AutoTiled(rulesets, tilesets, w, w', c)
  {
    assert [c][..0] == [];
    assert RetiledRun(rulesets, tilesets, w, w, []);
  }

  /** Two runs one after the other are one run over both lists of cells. */
  lemma {:induction false} RetiledRunAppend(rulesets: map<string, Ruleset>, tilesets: map<string, string>,
                                            w0: World, w1: World, w2: World, a: seq<Cell>, b: seq<Cell>)
    requires RetiledRun(rulesets, tilesets, w0, w1, a) && RetiledRun(rulesets, tilesets, w1, w2, b)
    ensures RetiledRun(rulesets, tilesets, w0, w2, a + b)
    decreases |b|
  {
    if b == [] {
      assert a + b == a;
    } else {
      var init, c := b[..|b| - 1], b[|b| - 1];
      var wm :| RetiledRun(rulesets, tilesets, w1, wm, init) && AutoTiled(rulesets, tilesets, wm, w2, c);
      RetiledRunAppend(rulesets, tilesets, w0, w1, wm, a, init);
      AppendSnoc(a, b);
    }
  }

  /** A run keeps the scene valid and tagged and changes no cell outside its list. */
  lemma {:induction false} RetiledRunEffect(rulesets: map<string, Ruleset>, tilesets: map<string, string>,
                                            w: World, w': World, cells: seq<Cell>)
    requires WorldValid(w) && Tagged(w.objs, tilesets) && RetiledRun(rulesets, tilesets, w, w', cells)
    ensures WorldValid(w') && Tagged(w'.objs, tilesets) && SameOutside(w, w', cells)
    decreases |cells|
  {
    if cells != [] {
      var init, c := cells[..|cells| - 1], cells[|cells| - 1];
      var wm :| RetiledRun(rulesets, tilesets, w, wm, init) && AutoTiled(rulesets, tilesets, wm, w', c);
      RetiledRunEffect(rulesets, tilesets, w, wm, init);
      AutoTiledEffect(rulesets, tilesets, wm, w', c);
      SameOutsideTrans(w, wm, w', init, [c]);
      assert init + [c] == cells;
    }
  }

  /** On an empty scene auto_tiling finds nothing to retile. */
  lemma {:induction false} RetiledRunEmpty(rulesets: map<string, Ruleset>, tilesets: map<string, string>,
                                           w: World, w': World, cells: seq<Cell>)
    requires w.objs == [] && RetiledRun(rulesets, tilesets, w, w', cells)
    ensures w' == w
    decreases |cells|
  {
    if cells != [] {
      var init, c := cells[..|cells| - 1], cells[|cells| - 1];
      var wm :| RetiledRun(rulesets, tilesets, w, wm, init) && AutoTiled(rulesets, tilesets, wm, w', c);
      RetiledRunEmpty(rulesets, tilesets, w, wm, init);
    }
  }

  /** A ruleset with a rule for every mask: a default, or a rule for each of the 64 masks. */
  predicate Complete(rs: Ruleset)
  {
    rs.default.Some? || forall m :: 0 <= m < 64 ==> m in rs.rules
  }

  predicate AllComplete(rulesets: map<string, Ruleset>)
  {
    forall name :: name in rulesets ==> Complete(rulesets[name])
  }

  /** A complete ruleset has a rule for the mask of every cell of every scene. */
  lemma CompleteGet(rs: Ruleset, objs: Store, p: Cell)
    requires Complete(rs)
    ensures Get(rs, Mask(objs, p)).Some?
  {
    MaskNeighbours(objs, p);
  }

  /** With complete rulesets a retiled cell still holds a tile: no cell's occupancy changes. */
  lemma AutoTiledOccupancy(rulesets: map<string, Ruleset>, tilesets: map<string, string>, w: World, w': World, p: Cell)
    requires WorldValid(w) && Tagged(w.objs, tilesets) && AllComplete(rulesets)
    requires AutoTiled(rulesets, tilesets, w, w', p)
    ensures forall q :: Occupied(w'.objs, q) <==> Occupied(w.objs, q)
  {
    match FirstAt(w.objs, p)
    case None =>
    case Some(o) =>
      if o.tileset != "" {
        CompleteGet(rulesets[o.tileset], w.objs, p);
        RetiledEffect(w, w', p, Get(rulesets[o.tileset], Mask(w.objs, p)), tilesets);
        forall q ensures Occupied(w'.objs, q) <==> Occupied(w.objs, q) {
          if q != p {
            assert q !in [p];
          }
        }
      }
  }

  lemma {:induction false} RetiledRunOccupancy(rulesets: map<string, Ruleset>, tilesets: map<string, string>,
                                               w: World, w': World, cells: seq<Cell>)
    requires WorldValid(w) && Tagged(w.objs, tilesets) && AllComplete(rulesets)
    requires RetiledRun(rulesets, tilesets, w, w', cells)
    ensures forall q :: Occupied(w'.objs, q) <==> Occupied(w.objs, q)
    decreases |cells|
  {
    if cells != [] {
      var init, c := cells[..|cells| - 1], cells[|cells| - 1];
      var wm :| RetiledRun(rulesets, tilesets, w, wm, init) && AutoTiled(rulesets, tilesets, wm, w', c);
      RetiledRunOccupancy(rulesets, tilesets, w, wm, init);
      RetiledRunEffect(rulesets, tilesets, w, wm, init);
      AutoTiledOccupancy(rulesets, tilesets, wm, w', c);
    }
  }

  /** optimized_new_auto_tile at p once the rule is known: the rule's tile, or no change. */
  ghost predicate RulePlacedAt(w: World, w': World, p: Cell, rule: Option<Rule>, tilesets: map<string, string>)
  {
    match rule
    case None => w' == w
    case Some(r) => RuleTilePlaced(w, w', p, r, tilesets)
  }

  /** do_points(points, optimized_new_auto_tile, bitmasks): each point's rule for its recorded mask, in order. */
  ghost predicate RulesPlaced(rs: Ruleset, tilesets: map<string, string>, w: World, w': World, points: seq<Cell>,
                              bitmasks: map<Cell, nat>)
    decreases |points|
  {
    if points == [] then w' == w
    else
      var p := points[|points| - 1];
      p in bitmasks &&
      exists wm :: RulesPlaced(rs, tilesets, w, wm, points[..|points| - 1], bitmasks) &&
                   RulePlacedAt(wm, w', p, Get(rs, bitmasks[p]), tilesets)
  }

  lemma RulesPlacedSnoc(rs: Ruleset, tilesets: map<string, string>, w: World, wm: World, w': World,
                        points: seq<Cell>, p: Cell, bitmasks: map<Cell, nat>)
    requires p in bitmasks && RulesPlaced(rs, tilesets, w, wm, points, bitmasks)
    requires RulePlacedAt(wm, w', p, Get(rs, bitmasks[p]), tilesets)
    ensures RulesPlaced(rs, tilesets, w, w', points + [p], bitmasks)
  {
    assert (points + [p])[..|points|] == points;
  }

  /** The rule tiles placed at the points survive a later step that leaves the points alone. */
  lemma RuleTilesKept(w0: World, placed: World, w: World, points: seq<Cell>, rs: Ruleset, bitmasks: map<Cell, nat>)
    requires forall p :: p in bitmasks <==> p in points
    requires forall p :: p in bitmasks ==> bitmasks[p] == Mask(WithFakes(DeleteAt(w0, points).objs, points), p)
    requires RuleTilesIn(rs, placed.objs, points, bitmasks, w0.next)
    requires SameOutside(placed, w, Kept(points, AllNeighbours(points)))
    ensures var fake := WithFakes(DeleteAt(w0, points).objs, points);
      forall k :: 0 <= k < |points| && Get(rs, Mask(fake, points[k])).Some? ==>
        exists o :: o in TilesAt(w.objs, points[k]) && o.id >= w0.next && FromRule(o, points[k], Get(rs, Mask(fake, points[k])).value)
  {
    var fake := WithFakes(DeleteAt(w0, points).objs, points);
    RuleTilesInAll(rs, placed.objs, points, bitmasks, w0.next);
    KeptSpec(points, AllNeighbours(points));
    forall k | 0 <= k < |points| && Get(rs, Mask(fake, points[k])).Some?
      ensures exists o :: o in TilesAt(w.objs, points[k]) && o.id >= w0.next && FromRule(o, points[k], Get(rs, Mask(fake, points[k])).value)
    {
      assert points[k] in points;
      assert TilesAt(w.objs, points[k]) == TilesAt(placed.objs, points[k]);
    }
  }

  /** Each of the points with a rule for its recorded mask holds a tile from that rule, newer than next0. */
  ghost predicate RuleTilesIn(rs: Ruleset, objs: Store, points: seq<Cell>, bitmasks: map<Cell, nat>, next0: int)
    decreases |points|
  {
    points == [] ||
    (var p := points[|points| - 1];
     RuleTilesIn(rs, objs, points[..|points| - 1], bitmasks, next0) &&
     (p in bitmasks && Get(rs, bitmasks[p]).Some? ==>
        exists o :: o in TilesAt(objs, p) && o.id >= next0 && FromRule(o, p, Get(rs, bitmasks[p]).value)))
  }

  /** The rule tiles stay where every tile stays. */
  lemma {:induction false} RuleTilesInGrow(rs: Ruleset, objs: Store, objs': Store, points: seq<Cell>,
                                           bitmasks: map<Cell, nat>, next0: int)
    requires RuleTilesIn(rs, objs, points, bitmasks, next0)
    requires forall q, o :: o in TilesAt(objs, q) ==> o in TilesAt(objs', q)
    ensures RuleTilesIn(rs, objs', points, bitmasks, next0)
    decreases |points|
  {
    if points != [] {
      RuleTilesInGrow(rs, objs, objs', points[..|points| - 1], bitmasks, next0);
    }
  }

  /** The rule tiles, one point at a time. */
  lemma {:induction false} RuleTilesInAll(rs: Ruleset, objs: Store, points: seq<Cell>, bitmasks: map<Cell, nat>, next0: int)
    requires forall p :: p in points ==> p in bitmasks
    requires RuleTilesIn(rs, objs, points, bitmasks, next0)
    ensures forall k :: 0 <= k < |points| && Get(rs, bitmasks[points[k]]).Some? ==>
      exists o :: o in TilesAt(objs, points[k]) && o.id >= next0 && FromRule(o, points[k], Get(rs, bitmasks[points[k]]).value)
    decreases |points|
  {
    if points != [] {
      var init := points[..|points| - 1];
      RuleTilesInAll(rs, objs, init, bitmasks, next0);
      forall k | 0 <= k < |points| && Get(rs, bitmasks[points[k]]).Some?
        ensures exists o :: o in TilesAt(objs, points[k]) && o.id >= next0 && FromRule(o, points[k], Get(rs, bitmasks[points[k]]).value)
      {
        if k < |init| {
          assert init[k] == points[k];
        }
      }
    }
  }

  /** Every point of the rule pass that has a rule holds a tile from it, created during the pass. */
  lemma {:induction false} RulesPlacedTiles(rs: Ruleset, tilesets: map<string, string>, w0: World, w: World,
                                            points: seq<Cell>, bitmasks: map<Cell, nat>, next0: int)
    requires w0.next >= next0 && RulesPlaced(rs, tilesets, w0, w, points, bitmasks)
    ensures (forall q :: q in points ==> q in bitmasks) && w.next >= w0.next
    ensures RuleTilesIn(rs, w.objs, points, bitmasks, next0)
    decreases |points|
  {
    if points != [] {
      var init, p := points[..|points| - 1], points[|points| - 1];
      assert points == init + [p];
      var wm :| RulesPlaced(rs, tilesets, w0, wm, init, bitmasks) && RulePlacedAt(wm, w, p, Get(rs, bitmasks[p]), tilesets);
      RulesPlacedTiles(rs, tilesets, w0, wm, init, bitmasks, next0);
      RuleTilesSnoc(rs, tilesets, next0, wm, w, init, p, bitmasks);
    }
  }

  /** The rule tiles of a pass one point longer: the new point's tile comes, the earlier ones stay. */
  lemma RuleTilesSnoc(rs: Ruleset, tilesets: map<string, string>, next0: int, wm: World, w: World,
                      init: seq<Cell>, p: Cell, bitmasks: map<Cell, nat>)
    requires (forall q :: q in init ==> q in bitmasks) && p in bitmasks && wm.next >= next0
    requires RuleTilesIn(rs, wm.objs, init, bitmasks, next0)
    requires RulePlacedAt(wm, w, p, Get(rs, bitmasks[p]), tilesets)
    ensures (forall q :: q in init + [p] ==> q in bitmasks) && w.next >= wm.next
    ensures RuleTilesIn(rs, w.objs, init + [p], bitmasks, next0)
  {
    assert (init + [p])[..|init|] == init;
    var rule := Get(rs, bitmasks[p]);
    if rule.Some? {
      RuleTileKeeps(wm, w, p, rule.value, tilesets);
      RuleTilesInGrow(rs, wm.objs, w.objs, init, bitmasks, next0);
      var o: Obj :| o.id == wm.next && FromRule(o, p, rule.value) && TilesAt(w.objs, p) == TilesAt(wm.objs, p) + [o];
      assert o in TilesAt(w.objs, p);
    }
  }

  /** The rule pass one point further, in the loop's own terms. */
  lemma RulesPlacedStep(rs: Ruleset, tilesets: map<string, string>, w0: World, wk: World, w: World,
                        points: seq<Cell>, k: nat, bitmasks: map<Cell, nat>)
    requires k < |points| && points[k] in bitmasks
    requires RulesPlaced(rs, tilesets, w0, wk, points[..k], bitmasks)
    requires match Get(rs, bitmasks[points[k]])
      case None => w == wk
      case Some(r) => RuleTilePlaced(wk, w, points[k], r, tilesets)
    ensures RulesPlaced(rs, tilesets, w0, w, points[..k + 1], bitmasks)
  {
    assert points[..k + 1] == points[..k] + [points[k]];
    assert RulePlacedAt(wk, w, points[k], Get(rs, bitmasks[points[k]]), tilesets);
    RulesPlacedSnoc(rs, tilesets, w0, wk, w, points[..k], points[k], bitmasks);
  }

  /** One step of the rule pass: only p may change, p is filled when there is a rule, and nothing is emptied. */
  lemma RulePlacedAtEffect(w: World, w': World, p: Cell, rule: Option<Rule>, tilesets: map<string, string>)
    requires WorldValid(w) && Tagged(w.objs, tilesets) && RulePlacedAt(w, w', p, rule, tilesets)
    ensures WorldValid(w') && Tagged(w'.objs, tilesets) && SameOutside(w, w', [p])
    ensures rule.Some? ==> Occupied(w'.objs, p)
    ensures forall q :: Occupied(w.objs, q) ==> Occupied(w'.objs, q)
  {
    if rule.Some? {
      RuleTileKeeps(w, w', p, rule.value, tilesets);
      RuleTileValid(w, w', p, rule.value, tilesets);
      forall q | Occupied(w.objs, q) ensures Occupied(w'.objs, q) {
        assert TilesAt(w.objs, q)[0] in TilesAt(w.objs, q);
      }
    }
  }

  /**
   * The rule pass keeps the scene valid and tagged, changes only the points, and leaves
   * a tile at each point whose recorded mask has a rule; every point had a mask.
   */
  lemma {:induction false} RulesPlacedEffect(rs: Ruleset, tilesets: map<string, string>, w: World, w': World,
                                             points: seq<Cell>, bitmasks: map<Cell, nat>)
    requires WorldValid(w) && Tagged(w.objs, tilesets) && RulesPlaced(rs, tilesets, w, w', points, bitmasks)
    ensures WorldValid(w') && Tagged(w'.objs, tilesets) && SameOutside(w, w', points)
    ensures forall q :: q in points ==> q in bitmasks
    ensures forall q :: q in points && Get(rs, bitmasks[q]).Some? ==> Occupied(w'.objs, q)
    decreases |points|
  {
    if points != [] {
      var init, p := points[..|points| - 1], points[|points| - 1];
      assert points == init + [p];
      var wm :| RulesPlaced(rs, tilesets, w, wm, init, bitmasks) && RulePlacedAt(wm, w', p, Get(rs, bitmasks[p]), tilesets);
      RulesPlacedEffect(rs, tilesets, w, wm, init, bitmasks);
      RulePlacedAtEffect(wm, w', p, Get(rs, bitmasks[p]), tilesets);
      SameOutsideTrans(w, wm, w', init, [p]);
      forall q | q in points ensures q in bitmasks && (Get(rs, bitmasks[q]).Some? ==> Occupied(w'.objs, q)) {
        if q != p {
          assert q in init;
        }
      }
    }
  }

  /** The recorded masks of optimized_paint: each point's mask in a scene. */
  function MaskMap(objs: Store, points: seq<Cell>): map<Cell, nat>
  {
    map p | p in points :: Mask(objs, p)
  }

  /** get_bitmasks records exactly the points' masks. */
  lemma MaskMapOf(bitmasks: map<Cell, nat>, objs: Store, points: seq<Cell>)
    requires forall p :: p in bitmasks <==> p in points
    requires forall p :: p in bitmasks ==> bitmasks[p] == Mask(objs, p)
    ensures bitmasks == MaskMap(objs, points)
  {
  }

  /**
   * optimized_paint: the points cleared, each given the rule of the active ruleset for
   * its mask in the cleared scene with every point filled, then the points' other
   * neighbours retiled once each.
   */
  ghost predicate OptimizedPainted(rulesets: map<string, Ruleset>, active: Ruleset, tilesets: map<string, string>,
                                   w: World, w': World, points: seq<Cell>)
  {
    var cleared := DeleteAt(w, points);
    exists placed :: RulesPlaced(active, tilesets, cleared, placed, points, MaskMap(WithFakes(cleared.objs, points), points)) &&
      RetiledRun(rulesets, tilesets, placed, w', Kept(points, AllNeighbours(points)))
  }

  /**
   * The three passes of optimized_paint put together: clearing, the rule pass with the
   * masks read from the filled scene, and the retiling run around the points.
   */
  lemma OptimizedPaintSteps(rulesets: map<string, Ruleset>, active: Ruleset, tilesets: map<string, string>,
                            w: World, placed: World, w': World, points: seq<Cell>, bitmasks: map<Cell, nat>)
    requires WorldValid(w) && Tagged(w.objs, tilesets)
    requires forall p :: p in bitmasks <==> p in points
    requires forall p :: p in bitmasks ==> bitmasks[p] == Mask(WithFakes(DeleteAt(w, points).objs, points), p)
    requires RulesPlaced(active, tilesets, DeleteAt(w, points), placed, points, bitmasks)
    requires SameOutside(placed, w', Kept(points, AllNeighbours(points)))
    requires RetiledRun(rulesets, tilesets, placed, w', Kept(points, AllNeighbours(points)))
    ensures SameOutside(w, w', points + Kept(points, AllNeighbours(points)))
    ensures var fake := WithFakes(DeleteAt(w, points).objs, points);
      forall k :: 0 <= k < |points| && Get(active, Mask(fake, points[k])).Some? ==>
        exists o :: o in TilesAt(w'.objs, points[k]) && o.id >= w.next && FromRule(o, points[k], Get(active, Mask(fake, points[k])).value)
    ensures OptimizedPainted(rulesets, active, tilesets, w, w', points)
  {
    OptimizedPaintFrame(rulesets, active, tilesets, w, placed, w', points, bitmasks);
    DeleteAtEffect(w, points, tilesets);
    RulesPlacedTiles(active, tilesets, DeleteAt(w, points), placed, points, bitmasks, w.next);
    RuleTilesKept(w, placed, w', points, active, bitmasks);
    MaskMapOf(bitmasks, WithFakes(DeleteAt(w, points).objs, points), points);
  }

  /** Only the points and their neighbours change in optimized_paint. */
  lemma OptimizedPaintFrame(rulesets: map<string, Ruleset>, active: Ruleset, tilesets: map<string, string>,
                            w: World, placed: World, w': World, points: seq<Cell>, bitmasks: map<Cell, nat>)
    requires WorldValid(w) && Tagged(w.objs, tilesets)
    requires RulesPlaced(active, tilesets, DeleteAt(w, points), placed, points, bitmasks)
    requires SameOutside(placed, w', Kept(points, AllNeighbours(points)))
    ensures SameOutside(w, w', points + Kept(points, AllNeighbours(points)))
  {
    var cleared := DeleteAt(w, points);
    var around := Kept(points, AllNeighbours(points));
    DeleteAtEffect(w, points, tilesets);
    RulesPlacedEffect(active, tilesets, cleared, placed, points, bitmasks);
    SameOutsideTrans(w, cleared, placed, points, points);
    SameOutsideWithin(w, placed, points + points, points);
    SameOutsideTrans(w, placed, w', points, around);
  }

  /**
   * paint in auto mode at p: the plain delete, new_auto_tile with the active ruleset's
   * rule for p's mask, then repaint_adjacent with the touched list t.
   */
  ghost predicate AutoPainted(rulesets: map<string, Ruleset>, active: Ruleset, tilesets: map<string, string>,
                              t: Option<seq<Cell>>, w: World, w': World, p: Cell)
  {
    exists w1 :: Retiled(DeleteSpec(w, p, None), w1, p, Get(active, Mask(w.objs, p)), tilesets) &&
      RetiledRun(rulesets, tilesets, w1, w', Added(t, Neighbours(p)))
  }

  /** The touched list after paint or delete in auto mode ran at each of the cells in turn. */
  function TouchedAfter(t: Option<seq<Cell>>, cells: seq<Cell>): Option<seq<Cell>>
  {
    if cells == [] then t else After(TouchedAfter(t, cells[..|cells| - 1]), Neighbours(cells[|cells| - 1]))
  }

  /** paint in auto mode at each of the cells in turn: the per-cell fill end_select does. */
  ghost predicate PaintedEach(rulesets: map<string, Ruleset>, active: Ruleset, tilesets: map<string, string>,
                              t: Option<seq<Cell>>, w: World, w': World, cells: seq<Cell>)
    decreases |cells|
  {
    if cells == [] then w' == w
    else
      var init := cells[..|cells| - 1];
      exists wm :: PaintedEach(rulesets, active, tilesets, t, w, wm, init) &&
                   AutoPainted(rulesets, active, tilesets, TouchedAfter(t, init), wm, w', cells[|cells| - 1])
  }

  /** delete in auto mode at each of the cells in turn: the per-cell clear end_select does. */
  ghost predicate ClearedEach(rulesets: map<string, Ruleset>, tilesets: map<string, string>,
                              t: Option<seq<Cell>>, w: World, w': World, cells: seq<Cell>)
    decreases |cells|
  {
    if cells == [] then w' == w
    else
      var init, c := cells[..|cells| - 1], cells[|cells| - 1];
      exists wm :: ClearedEach(rulesets, tilesets, t, w, wm, init) &&
                   RetiledRun(rulesets, tilesets, DeleteSpec(wm, c, None), w', Added(TouchedAfter(t, init), Neighbours(c)))
  }

  /** One more auto-tiling paint extends a per-cell fill by that cell. */
  lemma PaintedEachSnoc(rulesets: map<string, Ruleset>, active: Ruleset, tilesets: map<string, string>,
                        t: Option<seq<Cell>>, w: World, wm: World, w': World, cells: seq<Cell>, k: nat)
    requires k < |cells| && PaintedEach(rulesets, active, tilesets, t, w, wm, cells[..k])
    requires AutoPainted(rulesets, active, tilesets, TouchedAfter(t, cells[..k]), wm, w', cells[k])
    ensures PaintedEach(rulesets, active, tilesets, t, w, w', cells[..k + 1])
  {
    var longer := cells[..k + 1];
    assert longer[..|longer| - 1] == cells[..k] && longer[|longer| - 1] == cells[k];
    var init := longer[..|longer| - 1];
    assert PaintedEach(rulesets, active, tilesets, t, w, wm, init) &&
           AutoPainted(rulesets, active, tilesets, TouchedAfter(t, init), wm, w', longer[|longer| - 1]);
  }

  /** One more auto-tiling delete extends a per-cell clear by that cell. */
  lemma ClearedEachSnoc(rulesets: map<string, Ruleset>, tilesets: map<string, string>,
                        t: Option<seq<Cell>>, w: World, wm: World, w': World, cells: seq<Cell>, k: nat)
    requires k < |cells| && ClearedEach(rulesets, tilesets, t, w, wm, cells[..k])
    requires RetiledRun(rulesets, tilesets, DeleteSpec(wm, cells[k], None), w', Added(TouchedAfter(t, cells[..k]), Neighbours(cells[k])))
    ensures ClearedEach(rulesets, tilesets, t, w, w', cells[..k + 1])
  {
    var longer := cells[..k + 1];
    assert longer[..|longer| - 1] == cells[..k] && longer[|longer| - 1] == cells[k];
    var init, c := longer[..|longer| - 1], longer[|longer| - 1];
    assert ClearedEach(rulesets, tilesets, t, w, wm, init) &&
           RetiledRun(rulesets, tilesets, DeleteSpec(wm, c, None), w', Added(TouchedAfter(t, init), Neighbours(c)));
  }

  /** The touched list after one more cell. */
  lemma TouchedAfterSnoc(t: Option<seq<Cell>>, cells: seq<Cell>, k: nat)
    requires k < |cells|
    ensures TouchedAfter(t, cells[..k + 1]) == After(TouchedAfter(t, cells[..k]), Neighbours(cells[k]))
  {
    assert cells[..k + 1][..k] == cells[..k];
  }

  /**
   * One cell more of do_region(_cdraw) on the auto-tiling editor: the state after the
   * first k cells, followed by the draw at the k-th cell, is the state after k + 1 cells.
   */
  lemma DrawnStep(alt: bool, paint: bool, delete: bool, rulesets: map<string, Ruleset>, tileset: string,
                  tilesets: map<string, string>, orig: Cursor, cells: seq<Cell>, k: nat,
                  w0: World, t0: Option<seq<Cell>>, wm: World, tm: Option<seq<Cell>>, w': World, t': Option<seq<Cell>>)
    requires k < |cells| && (alt && paint ==> tileset in rulesets)
    requires !alt ==> wm == CdrawCells(w0, orig, cells[..k], paint, delete, tilesets) && tm == t0
    requires alt && !paint && !delete ==> wm == w0 && tm == t0
    requires alt && (paint || delete) ==> tm == TouchedAfter(t0, cells[..k])
    requires alt && paint ==> PaintedEach(rulesets, rulesets[tileset], tilesets, t0, w0, wm, cells[..k])
    requires alt && !paint && delete ==> ClearedEach(rulesets, tilesets, t0, w0, wm, cells[..k])
    requires !alt ==> w' == CdrawSpec(wm, orig.(pos := cells[k]), paint, delete, tilesets) && t' == tm
    requires alt && !paint && !delete ==> w' == wm && t' == tm
    requires alt && (paint || delete) ==> t' == After(tm, Neighbours(cells[k]))
    requires alt && paint ==> AutoPainted(rulesets, rulesets[tileset], tilesets, tm, wm, w', cells[k])
    requires alt && !paint && delete ==>
      RetiledRun(rulesets, tilesets, DeleteSpec(wm, cells[k], None), w', Added(tm, Neighbours(cells[k])))
    ensures !alt ==> w' == CdrawCells(w0, orig, cells[..k + 1], paint, delete, tilesets) && t' == t0
    ensures alt && !paint && !delete ==> w' == w0 && t' == t0
    ensures alt && (paint || delete) ==> t' == TouchedAfter(t0, cells[..k + 1])
    ensures alt && paint ==> PaintedEach(rulesets, rulesets[tileset], tilesets, t0, w0, w', cells[..k + 1])
    ensures alt && !paint && delete ==> ClearedEach(rulesets, tilesets, t0, w0, w', cells[..k + 1])
  {
    if !alt {
      CdrawCellsSnoc(w0, orig, cells[..k], cells[k], paint, delete, tilesets);
      assert cells[..k + 1] == cells[..k] + [cells[k]];
    } else if paint {
      PaintedEachSnoc(rulesets, rulesets[tileset], tilesets, t0, w0, wm, w', cells, k);
    } else if delete {
      ClearedEachSnoc(rulesets, tilesets, t0, w0, wm, w', cells, k);
    }
    if alt && (paint || delete) {
      TouchedAfterSnoc(t0, cells, k);
    }
  }

  /** Retiling with a rule fills its cell and leaves every other cell's occupancy alone. */
  lemma RetiledOccupancy(w: World, w': World, p: Cell, rule: Option<Rule>, tilesets: map<string, string>)
    requires WorldValid(w) && Tagged(w.objs, tilesets) && rule.Some? && Retiled(w, w', p, rule, tilesets)
    ensures WorldValid(w') && Tagged(w'.objs, tilesets)
    ensures forall q :: Occupied(w'.objs, q) <==> Occupied(w.objs, q) || q == p
  {
    RetiledEffect(w, w', p, rule, tilesets);
    forall q | q != p ensures Occupied(w'.objs, q) <==> Occupied(w.objs, q) {
      assert q !in [p];
    }
  }

  /** With complete rulesets, paint in auto mode fills its cell and leaves every other cell's occupancy alone. */
  lemma AutoPaintedOccupancy(rulesets: map<string, Ruleset>, active: Ruleset, tilesets: map<string, string>,
                             t: Option<seq<Cell>>, w: World, w': World, p: Cell)
    requires WorldValid(w) && Tagged(w.objs, tilesets) && AllComplete(rulesets) && Complete(active)
    requires AutoPainted(rulesets, active, tilesets, t, w, w', p)
    ensures WorldValid(w') && Tagged(w'.objs, tilesets)
    ensures forall q :: Occupied(w'.objs, q) <==> Occupied(w.objs, q) || q == p
  {
    var d := DeleteSpec(w, p, None);
    var rule := Get(active, Mask(w.objs, p));
    var around := Added(t, Neighbours(p));
    var w1 :| Retiled(d, w1, p, rule, tilesets) && RetiledRun(rulesets, tilesets, w1, w', around);
    DeleteSpecEffect(w, p, None);
    TaggedDelete(w, p, None, tilesets);
    CompleteGet(active, w.objs, p);
    RetiledOccupancy(d, w1, p, rule, tilesets);
    RetiledRunEffect(rulesets, tilesets, w1, w', around);
    RetiledRunOccupancy(rulesets, tilesets, w1, w', around);
  }

  /** With complete rulesets the per-cell fill fills exactly the cells, adding to what was occupied. */
  lemma {:induction false} PaintedEachOccupancy(rulesets: map<string, Ruleset>, active: Ruleset,
                                                tilesets: map<string, string>, t: Option<seq<Cell>>,
                                                w: World, w': World, cells: seq<Cell>)
    requires WorldValid(w) && Tagged(w.objs, tilesets) && AllComplete(rulesets) && Complete(active)
    requires PaintedEach(rulesets, active, tilesets, t, w, w', cells)
    ensures WorldValid(w') && Tagged(w'.objs, tilesets)
    ensures forall q :: Occupied(w'.objs, q) <==> Occupied(w.objs, q) || q in cells
    decreases |cells|
  {
    if cells != [] {
      var init := cells[..|cells| - 1];
      var wm := PaintedEachLast(rulesets, active, tilesets, t, w, w', cells);
      PaintedEachOccupancy(rulesets, active, tilesets, t, w, wm, init);
      PaintedLastOccupancy(rulesets, active, tilesets, TouchedAfter(t, init), w, wm, w', cells);
    }
  }

  /** The scene a per-cell fill reaches before its last cell. */
  lemma PaintedEachLast(rulesets: map<string, Ruleset>, active: Ruleset, tilesets: map<string, string>,
                        t: Option<seq<Cell>>, w: World, w': World, cells: seq<Cell>) returns (wm: World)
    requires cells != [] && PaintedEach(rulesets, active, tilesets, t, w, w', cells)
    ensures PaintedEach(rulesets, active, tilesets, t, w, wm, cells[..|cells| - 1])
    ensures AutoPainted(rulesets, active, tilesets, TouchedAfter(t, cells[..|cells| - 1]), wm, w', cells[|cells| - 1])
  {
    var init := cells[..|cells| - 1];
    wm :| PaintedEach(rulesets, active, tilesets, t, w, wm, init) &&
          AutoPainted(rulesets, active, tilesets, TouchedAfter(t, init), wm, w', cells[|cells| - 1]);
  }

  /** Painting the last cell of a list after the others fills the whole list. */
  lemma PaintedLastOccupancy(rulesets: map<string, Ruleset>, active: Ruleset, tilesets: map<string, string>,
                             t: Option<seq<Cell>>, w: World, wm: World, w': World, cells: seq<Cell>)
    requires cells != [] && AllComplete(rulesets) && Complete(active)
    requires WorldValid(wm) && Tagged(wm.objs, tilesets)
    requires forall q :: Occupied(wm.objs, q) <==> Occupied(w.objs, q) || q in cells[..|cells| - 1]
    requires AutoPainted(rulesets, active, tilesets, t, wm, w', cells[|cells| - 1])
    ensures WorldValid(w') && Tagged(w'.objs, tilesets)
    ensures forall q :: Occupied(w'.objs, q) <==> Occupied(w.objs, q) || q in cells
  {
    AutoPaintedOccupancy(rulesets, active, tilesets, t, wm, w', cells[|cells| - 1]);
    OccupiedSnoc(w.objs, wm.objs, w'.objs, cells);
  }

  /** Cells filled one list and then one more cell are the cells of the whole list. */
  lemma OccupiedSnoc(s0: Store, s1: Store, s2: Store, cells: seq<Cell>)
    requires cells != []
    requires forall q :: Occupied(s1, q) <==> Occupied(s0, q) || q in cells[..|cells| - 1]
    requires forall q :: Occupied(s2, q) <==> Occupied(s1, q) || q == cells[|cells| - 1]
    ensures forall q :: Occupied(s2, q) <==> Occupied(s0, q) || q in cells
  {
    InSnoc(cells);
  }

  /** With complete rulesets optimized_paint fills exactly the points, adding to what was occupied. */
  lemma OptimizedOccupancy(rulesets: map<string, Ruleset>, active: Ruleset, tilesets: map<string, string>,
                           w: World, w': World, points: seq<Cell>)
    requires WorldValid(w) && Tagged(w.objs, tilesets) && AllComplete(rulesets) && Complete(active)
    requires OptimizedPainted(rulesets, active, tilesets, w, w', points)
    ensures WorldValid(w') && Tagged(w'.objs, tilesets)
    ensures forall q :: Occupied(w'.objs, q) <==> Occupied(w.objs, q) || q in points
  {
    var cleared := DeleteAt(w, points);
    var masks := MaskMap(WithFakes(cleared.objs, points), points);
    var around := Kept(points, AllNeighbours(points));
    var placed :| RulesPlaced(active, tilesets, cleared, placed, points, masks) &&
                  RetiledRun(rulesets, tilesets, placed, w', around);
    DeleteAtEffect(w, points, tilesets);
    RulesPlacedEffect(active, tilesets, cleared, placed, points, masks);
    forall q | q in points ensures Get(active, masks[q]).Some? {
      CompleteGet(active, WithFakes(cleared.objs, points), q);
    }
    RetiledRunEffect(rulesets, tilesets, placed, w', around);
    RetiledRunOccupancy(rulesets, tilesets, placed, w', around);
  }

  /**
   * Region fill: with complete rulesets, optimized_paint over the points and paint at
   * each point in turn leave the same cells occupied, so every cell reads the same mask.
   */
  lemma FillMatchesPerCell(rulesets: map<string, Ruleset>, active: Ruleset, tilesets: map<string, string>,
                           t: Option<seq<Cell>>, w: World, batch: World, each: World, points: seq<Cell>)
    requires WorldValid(w) && Tagged(w.objs, tilesets) && AllComplete(rulesets) && Complete(active)
    requires OptimizedPainted(rulesets, active, tilesets, w, batch, points)
    requires PaintedEach(rulesets, active, tilesets, t, w, each, points)
    ensures forall q :: Occupied(batch.objs, q) <==> Occupied(each.objs, q)
    ensures forall q :: Mask(batch.objs, q) == Mask(each.objs, q)
  {
    OptimizedOccupancy(rulesets, active, tilesets, w, batch, points);
    PaintedEachOccupancy(rulesets, active, tilesets, t, w, each, points);
    forall q ensures Mask(batch.objs, q) == Mask(each.objs, q) {
      MaskOccupancy(batch.objs, each.objs, q);
    }
  }

  /** A cell and the cell after it along x: the region of the fill counterexample. */
  function Pair(p: Cell): seq<Cell> { [p, Add(p, Adjacency[1])] }

  /** A ruleset with rules only for the masks the two cells have once both are filled. */
  function PairRuleset(p: Cell): Ruleset
  {
    var filled := WithFakes([], Pair(p));
    Ruleset(map[Mask(filled, Pair(p)[0]) := Rule(["t"], 0), Mask(filled, Pair(p)[1]) := Rule(["t"], 0)], None)
  }

  /** In the empty scene no neighbour of any cell is occupied. */
  lemma EmptyMaskBits(c: Cell)
    ensures forall i :: 0 <= i < 6 ==> !Bit(Mask([], c), i)
  {
    MaskNeighbours([], c);
  }

  /** With both cells filled, each sees the other: bit 1 of the first mask, bit 3 of the second. */
  lemma PairMaskBits(p: Cell)
    ensures Bit(Mask(WithFakes([], Pair(p)), Pair(p)[0]), 1) && Bit(Mask(WithFakes([], Pair(p)), Pair(p)[1]), 3)
  {
    var pair, filled := Pair(p), WithFakes([], Pair(p));
    MaskNeighbours(filled, pair[0]);
    MaskNeighbours(filled, pair[1]);
    assert Add(pair[0], Adjacency[1]) == pair[1] && Add(pair[1], Adjacency[3]) == pair[0];
    FakeOccupancy([], pair, pair[1]);
    FakeOccupancy([], pair, pair[0]);
  }

  /** On the empty scene no cell's mask has a rule of PairRuleset. */
  lemma PairRulesetMissesEmpty(p: Cell, c: Cell)
    ensures Get(PairRuleset(p), Mask([], c)).None?
  {
    var filled := WithFakes([], Pair(p));
    EmptyMaskBits(c);
    PairMaskBits(p);
    assert Mask([], c) != Mask(filled, Pair(p)[0]);
    assert Mask([], c) != Mask(filled, Pair(p)[1]);
  }

  /** Paint at a cell of the empty scene whose mask has no rule leaves the scene empty. */
  lemma AutoPaintedEmpty(rulesets: map<string, Ruleset>, active: Ruleset, tilesets: map<string, string>,
                         t: Option<seq<Cell>>, w: World, w': World, p: Cell)
    requires w.objs == [] && Get(active, Mask([], p)).None?
    requires AutoPainted(rulesets, active, tilesets, t, w, w', p)
    ensures w' == w
  {
    var w1 :| Retiled(DeleteSpec(w, p, None), w1, p, Get(active, Mask(w.objs, p)), tilesets) &&
              RetiledRun(rulesets, tilesets, w1, w', Added(t, Neighbours(p)));
    assert DeleteSpec(w, p, None) == w;
    RetiledRunEmpty(rulesets, tilesets, w1, w', Added(t, Neighbours(p)));
  }

  /** The per-cell fill of the pair on the empty scene: neither cell finds a rule. */
  lemma PairEachEmpty(p: Cell, t: Option<seq<Cell>>, each: World)
    requires PaintedEach(map[], PairRuleset(p), map[], t, World([], 0), each, Pair(p))
    ensures each == World([], 0)
  {
    var w, pair := World([], 0), Pair(p);
    var init := pair[..1];
    var wm :| PaintedEach(map[], PairRuleset(p), map[], t, w, wm, init) &&
              AutoPainted(map[], PairRuleset(p), map[], TouchedAfter(t, init), wm, each, pair[1]);
    assert init[..0] == [];
    var w0 :| PaintedEach(map[], PairRuleset(p), map[], t, w, w0, []) &&
              AutoPainted(map[], PairRuleset(p), map[], TouchedAfter(t, []), w0, wm, pair[0]);
    PairRulesetMissesEmpty(p, pair[0]);
    PairRulesetMissesEmpty(p, pair[1]);
    AutoPaintedEmpty(map[], PairRuleset(p), map[], TouchedAfter(t, []), w0, wm, pair[0]);
    AutoPaintedEmpty(map[], PairRuleset(p), map[], TouchedAfter(t, init), wm, each, pair[1]);
  }

  /** Deleting on an empty scene changes nothing. */
  lemma {:induction false} DeleteAtEmpty(w: World, points: seq<Cell>)
    requires w.objs == []
    ensures DeleteAt(w, points) == w
  {
    if points != [] {
      DeleteAtEmpty(w, points[..|points| - 1]);
    }
  }

  /** The rule pass of the pair's batch on the empty scene tiles both cells. */
  lemma PairPlacedFilled(p: Cell, placed: World)
    requires RulesPlaced(PairRuleset(p), map[], World([], 0), placed, Pair(p), MaskMap(WithFakes([], Pair(p)), Pair(p)))
    ensures WorldValid(placed) && Tagged(placed.objs, map[])
    ensures Occupied(placed.objs, Pair(p)[0]) && Occupied(placed.objs, Pair(p)[1])
  {
    var pair := Pair(p);
    var masks := MaskMap(WithFakes([], pair), pair);
    PairMasksHaveRules(p);
    RulesPlacedEffect(PairRuleset(p), map[], World([], 0), placed, pair, masks);
    assert pair[0] in pair && pair[1] in pair;
  }

  /** Both recorded masks of the pair's batch have a rule of PairRuleset. */
  lemma PairMasksHaveRules(p: Cell)
    ensures var masks := MaskMap(WithFakes([], Pair(p)), Pair(p));
      Pair(p)[0] in masks && Pair(p)[1] in masks &&
      Get(PairRuleset(p), masks[Pair(p)[0]]).Some? && Get(PairRuleset(p), masks[Pair(p)[1]]).Some?
  {
    var pair := Pair(p);
    var masks := MaskMap(WithFakes([], pair), pair);
    assert pair[0] in pair && pair[1] in pair;
    assert masks[pair[0]] == Mask(WithFakes([], pair), pair[0]);
    assert masks[pair[1]] == Mask(WithFakes([], pair), pair[1]);
  }

  /** The batch fill of the pair on the empty scene: both masks have a rule, so both cells get a tile. */
  lemma PairBatchFilled(p: Cell, batch: World)
    requires OptimizedPainted(map[], PairRuleset(p), map[], World([], 0), batch, Pair(p))
    ensures Occupied(batch.objs, Pair(p)[0]) && Occupied(batch.objs, Pair(p)[1])
  {
    var w, pair := World([], 0), Pair(p);
    DeleteAtEmpty(w, pair);
    var masks := MaskMap(WithFakes([], pair), pair);
    var around := Kept(pair, AllNeighbours(pair));
    var placed :| RulesPlaced(PairRuleset(p), map[], w, placed, pair, masks) && RetiledRun(map[], map[], placed, batch, around);
    PairPlacedFilled(p, placed);
    RetiledRunEffect(map[], map[], placed, batch, around);
    KeptSpec(pair, AllNeighbours(pair));
    assert pair[0] in pair && pair[1] in pair;
    assert TilesAt(batch.objs, pair[0]) == TilesAt(placed.objs, pair[0]);
    assert TilesAt(batch.objs, pair[1]) == TilesAt(placed.objs, pair[1]);
  }

  /**
   * Without a complete ruleset the two fills differ. On the empty scene, per cell, the
   * first cell has no neighbour yet, finds no rule and stays empty, and so then does
   * the second; the batch reads both masks with both cells filled and tiles both.
   */
  lemma IncompleteFillDiffers(p: Cell, t: Option<seq<Cell>>, batch: World, each: World)
    requires OptimizedPainted(map[], PairRuleset(p), map[], World([], 0), batch, Pair(p))
    requires PaintedEach(map[], PairRuleset(p), map[], t, World([], 0), each, Pair(p))
    ensures !Complete(PairRuleset(p))
    ensures Occupied(batch.objs, Pair(p)[0]) && !Occupied(each.objs, Pair(p)[0])
  {
    PairBatchFilled(p, batch);
    PairEachEmpty(p, t, each);
    PairRulesetIncomplete(p);
  }

  /** PairRuleset has no default and no rule for the empty neighbourhood. */
  lemma PairRulesetIncomplete(p: Cell)
    ensures !Complete(PairRuleset(p))
  {
    PairRulesetMissesEmpty(p, p);
    MaskNeighbours([], p);
  }

  /** A tileset scene as init_rules reads it: its name and the lines of its rules text, if it names one. */
  datatype TilesetScene = TilesetScene(name: string, rules: Option<seq<string>>)

  /** A scene whose rules text exists and parses. */
  predicate Readable(s: TilesetScene)
  {
    s.rules.Some? && ParseSpec(s.rules.value).Ok?
  }

  /** The rulesets init_rules builds from readable scenes, one per scene name. */
  function RulesetsOf(scenes: seq<TilesetScene>): (r: map<string, Ruleset>)
    requires forall k :: 0 <= k < |scenes| ==> Readable(scenes[k])
    ensures forall k :: 0 <= k < |scenes| ==> scenes[k].name in r
    ensures forall name :: name in r ==> RulesetOk(r[name])
  {
    if scenes == [] then map[]
    else
      var last := scenes[|scenes| - 1];
      assert Readable(last);
      var t := ParseSpec(last.rules.value).value;
      ParsedRulesHaveTiles(last.rules.value);
      RulesetsOf(scenes[..|scenes| - 1])[last.name := Ruleset(t.rules, t.default)]
  }

  class AutoTiler3D {
    const base: Tilemap3D
    /** Auto-tiling mode: off while paste and end_grab draw. */
    var alt: bool
    /** The cells already retiled in the current batch, when a batch is running. */
    var touched: Option<seq<Cell>>
    /** The parsed ruleset of each tileset, by tileset name. */
    var rulesets: map<string, Ruleset>
    /** The active tileset, whose rules new_auto_tile uses. */
    var tileset: string
    /** The cells auto_tiling has run on, in order: a record for stating what the batches do. */
    ghost var retiled: seq<Cell>

    /**
     * The editor is valid, every object carries its group's tileset, every tileset
     * a group belongs to has a ruleset, and every ruleset's rules name tiles.
     */
    predicate Valid()
      reads this, base
    {
      base.Valid() &&
      Tagged(base.world.objs, base.tilesets) &&
      (forall g :: g in base.tilesets && base.tilesets[g] != "" ==> base.tilesets[g] in rulesets) &&
      (forall name :: name in rulesets ==> RulesetOk(rulesets[name]))
    }

    constructor(tilesets: map<string, string>, tileset: string)
      ensures fresh(base) && base.Valid() && base.world == World([], 0) && base.tilesets == tilesets
      ensures alt && touched.None? && rulesets == map[] && this.tileset == tileset && retiled == []
    {
      base := new Tilemap3D(tilesets);
      alt := true;
      touched := None;
      rulesets := map[];
      this.tileset := tileset;
      retiled := [];
    }

    /** Every tileset named by some scene has a ruleset once all scenes are read. */
    static lemma RulesetsCover(scenes: seq<TilesetScene>, tilesets: map<string, string>)
      requires forall k :: 0 <= k < |scenes| ==> Readable(scenes[k])
      ensures (forall g :: g in tilesets && tilesets[g] != "" ==>
                 exists k :: 0 <= k < |scenes| && scenes[k].name == tilesets[g]) ==>
              forall g :: g in tilesets && tilesets[g] != "" ==> tilesets[g] in RulesetsOf(scenes)
    {
    }

    /**
     * init_rules: parse each tileset scene's rules in turn. A scene without rules or
     * with a bad line stops the loop: the error is reported, on_quit saves the cursor
     * and init_rules returns, keeping the rulesets read before it.
     */
    method InitRules(scenes: seq<TilesetScene>) returns (ok: bool)
      modifies this`rulesets, base`lastCursor
      ensures ok <==> forall k :: 0 <= k < |scenes| ==> Readable(scenes[k])
      ensures ok ==> rulesets == RulesetsOf(scenes)
      ensures !ok ==>
        exists k :: 0 <= k < |scenes| && !Readable(scenes[k]) &&
          (forall j :: 0 <= j < k ==> Readable(scenes[j])) && rulesets == RulesetsOf(scenes[..k])
      ensures (ok && base.Valid() && Tagged(base.world.objs, base.tilesets) &&
               forall g :: g in base.tilesets && base.tilesets[g] != "" ==>
                 exists k :: 0 <= k < |scenes| && scenes[k].name == base.tilesets[g]) ==> Valid()
    {
      rulesets := map[];
      var k := 0;
      while k < |scenes|
        invariant 0 <= k <= |scenes|
        invariant forall j :: 0 <= j < k ==> Readable(scenes[j])
        invariant rulesets == RulesetsOf(scenes[..k])
      {
        var scene := scenes[k];
        assert scenes[..k + 1][..k] == scenes[..k];
        if scene.rules.None? {
          // 'Tileset "<name>" has no ruleset'
          base.OnQuit();
          return false;
        }
        var parsed := ParseRules(scene.rules.value);
        if parsed.Err? {
          // '"<rules>": Invalid bitmask, line <n>: "<line>"'
          base.OnQuit();
          return false;
        }
        rulesets := rulesets[scene.name := parsed.value];
        k := k + 1;
      }
      assert scenes[..k] == scenes;
      RulesetsCover(scenes, base.tilesets);
      ok := true;
    }

    /** choice(rule.tiles) made into a tile at the cursor, turned to the rule's rot. */
    method PlaceRule(rule: Rule) returns (group: string)
      requires WorldValid(base.world) && rule.tiles != []
      modifies base`world
      ensures group in rule.tiles
      ensures base.world == Place(old(base.world), InstanceGroup(group), base.cursor.pos, rule.rot,
                                  TilesetOf(base.tilesets, InstanceGroup(group)))
    {
      assert rule.tiles[0] in rule.tiles;
      group :| group in rule.tiles;
      ghost var w0 := base.world;
      base.CreateTile(group);
      // tile3d.rot = radians(rule.rot): the new tile holds the newest identity
      var id := base.world.next - 1;
      TurnNewest(w0, InstanceGroup(group), base.cursor.pos, base.cursor.rot, TilesetOf(base.tilesets, InstanceGroup(group)), rule.rot);
      base.world := World(Moved(base.world.objs, id, base.cursor.pos, rule.rot), base.world.next);
    }

    /** The end of new_auto_tile and auto_tiling: delete_tile(center[0]), then the rule's tile, if any. */
    method Retile(rule: Option<Rule>)
      requires Valid() && (rule.Some? ==> rule.value.tiles != [])
      modifies base`world
      ensures Valid()
      ensures Retiled(old(base.world), base.world, base.cursor.pos, rule, base.tilesets)
    {
      var p := base.cursor.pos;
      var center := TilesAt(base.world.objs, p);
      if center != [] {
        base.world := Remove(base.world, center[0].id);
      }
      assert base.world == DeleteSpec(old(base.world), p, None);
      if rule.Some? {
        DeleteSpecEffect(old(base.world), p, None);
        var g := PlaceRule(rule.value);
      }
      RetiledEffect(old(base.world), base.world, p, rule, base.tilesets);
    }

    /** new_auto_tile: the active tileset's rule for the cursor's mask replaces the first tile there. */
    method NewAutoTile()
      requires Valid() && tileset in rulesets
      modifies base`world
      ensures Valid()
      ensures Retiled(old(base.world), base.world, base.cursor.pos,
                      Get(rulesets[tileset], Mask(old(base.world).objs, base.cursor.pos)), base.tilesets)
    {
      var adjacent := Adjacent(base.world.objs, base.cursor.pos);
      var bitmask := GetBitmask(adjacent);
      var rule := Get(rulesets[tileset], bitmask);
      GetHasTiles(rulesets[tileset], bitmask);
      Retile(rule);
    }

    /** auto_tiling: retile the cursor's cell by the ruleset of the tileset of its first object. */
    method AutoTiling()
      requires Valid()
      modifies base`world
      ensures Valid()
      ensures AutoTiled(rulesets, base.tilesets, old(base.world), base.world, base.cursor.pos)
    {
      var center := TilesAt(base.world.objs, base.cursor.pos);
      if center == [] {
        return;
      }
      var ts := center[0].tileset;
      if ts == "" {
        return;
      }
      assert center[0] in base.world.objs;
      var adjacent := Adjacent(base.world.objs, base.cursor.pos);
      var bitmask := GetBitmask(adjacent);
      var rule := Get(rulesets[ts], bitmask);
      GetHasTiles(rulesets[ts], bitmask);
      Retile(rule);
    }

    /** optimized_auto_tiling: during a batch, skip a cell already touched and mark the others. */
    method OptimizedAutoTiling()
      requires Valid()
      modifies base`world, this`touched, this`retiled
      ensures Valid()
      ensures var p := base.cursor.pos;
        if old(touched).Some? && p in old(touched).value then
          base.world == old(base.world) && touched == old(touched) && retiled == old(retiled)
        else
          AutoTiled(rulesets, base.tilesets, old(base.world), base.world, p) && retiled == old(retiled) + [p] &&
          touched == (if old(touched).Some? then Some(old(touched).value + [p]) else None)
    {
      // round_vector: the cursor is on a whole cell already
      var p := base.cursor.pos;
      if touched.Some? {
        if p in touched.value {
          return;
        }
        touched := Some(touched.value + [p]);
      }
      retiled := retiled + [p];
      AutoTiling();
    }

    /** do_with_cursor at c of optimized_auto_tiling: the cursor is put back afterwards. */
    method AutoTileAt(c: Cell)
      requires Valid()
      modifies base`world, base`cursor, this`touched, this`retiled
      ensures Valid() && base.cursor == old(base.cursor)
      ensures touched == After(old(touched), [c]) && retiled == old(retiled) + Added(old(touched), [c])
      ensures SameOutside(old(base.world), base.world, Added(old(touched), [c]))
      ensures RetiledRun(rulesets, base.tilesets, old(base.world), base.world, Added(old(touched), [c]))
    {
      if touched.Some? {
        KeptOne(touched.value, c);
        assert touched.value + [] == touched.value;
      }
      var orig := base.cursor;
      base.cursor := base.cursor.(pos := c);
      OptimizedAutoTiling();
      base.cursor := orig;
      if touched != old(touched) || old(touched).None? {
        AutoTiledEffect(rulesets, base.tilesets, old(base.world), base.world, c);
        RetiledRunOne(rulesets, base.tilesets, old(base.world), base.world, c);
      }
    }

    /** do_points(cells, optimized_auto_tiling): the cells in order, the cursor put back after each. */
    method AutoTileAll(cells: seq<Cell>)
      requires Valid()
      modifies base`world, base`cursor, this`touched, this`retiled
      ensures Valid() && base.cursor == old(base.cursor)
      ensures touched == After(old(touched), cells) && retiled == old(retiled) + Added(old(touched), cells)
      ensures SameOutside(old(base.world), base.world, Added(old(touched), cells))
      ensures RetiledRun(rulesets, base.tilesets, old(base.world), base.world, Added(old(touched), cells))
    {
      ghost var r0 := retiled;
      ghost var t0 := touched;
      ghost var w0 := base.world;
      var k := 0;
      assert cells[..0] == [];
      assert t0.Some? ==> t0.value + [] == t0.value;
      while k < |cells|
        invariant 0 <= k <= |cells|
        invariant Valid() && base.cursor == old(base.cursor)
        invariant touched == After(t0, cells[..k]) && retiled == r0 + Added(t0, cells[..k])
        invariant RetiledRun(rulesets, base.tilesets, w0, base.world, Added(t0, cells[..k]))
      {
        AutoTileNext(cells, k, w0, t0, r0);
        k := k + 1;
      }
      assert cells[..k] == cells;
      RetiledRunEffect(rulesets, base.tilesets, w0, base.world, Added(t0, cells));
    }

    /** One turn of do_points: the k-th cell, taking the run over the first k cells to the first k + 1. */
    method AutoTileNext(cells: seq<Cell>, k: nat, ghost w0: World, ghost t0: Option<seq<Cell>>, ghost r0: seq<Cell>)
      requires Valid() && k < |cells|
      requires touched == After(t0, cells[..k]) && retiled == r0 + Added(t0, cells[..k])
      requires RetiledRun(rulesets, base.tilesets, w0, base.world, Added(t0, cells[..k]))
      modifies base`world, base`cursor, this`touched, this`retiled
      ensures Valid() && base.cursor == old(base.cursor)
      ensures touched == After(t0, cells[..k + 1]) && retiled == r0 + Added(t0, cells[..k + 1])
      ensures RetiledRun(rulesets, base.tilesets, w0, base.world, Added(t0, cells[..k + 1]))
    {
      ghost var wk := base.world;
      AutoTileAt(cells[k]);
      AutoTileLoopStep(rulesets, base.tilesets, w0, wk, base.world, t0, cells, k, r0);
    }

    /** repaint_adjacent: optimized_auto_tiling at each of the six neighbours of the cursor. */
    method RepaintAdjacent()
      requires Valid()
      modifies base`world, base`cursor, this`touched, this`retiled
      ensures Valid() && base.cursor == old(base.cursor)
      ensures var around := Neighbours(base.cursor.pos);
        touched == After(old(touched), around) && retiled == old(retiled) + Added(old(touched), around) &&
        SameOutside(old(base.world), base.world, Added(old(touched), around))
      ensures RetiledRun(rulesets, base.tilesets, old(base.world), base.world, Added(old(touched), Neighbours(base.cursor.pos)))
    {
      var points := Neighbours(base.cursor.pos);
      AutoTileAll(points);
    }

    /** do_points(points, Tilemap3D.delete): the plain delete at each point, the cursor put back. */
    method ClearPoints(points: seq<Cell>)
      requires Valid()
      modifies base`world, base`cursor
      ensures Valid() && base.cursor == old(base.cursor)
      ensures base.world == DeleteAt(old(base.world), points)
    {
      var k := 0;
      while k < |points|
        invariant 0 <= k <= |points| && base.cursor == old(base.cursor)
        invariant base.world == DeleteAt(old(base.world), points[..k])
      {
        var orig := base.cursor;
        base.cursor := base.cursor.(pos := points[k]);
        base.Delete(None);
        base.cursor := orig;
        assert points[..k + 1][..k] == points[..k];
        k := k + 1;
      }
      assert points[..k] == points;
      DeleteAtEffect(old(base.world), points, base.tilesets);
    }

    /**
     * optimized_repaint_adjacent: mark the points touched, repaint around each one,
     * and unmark. The cells retiled are the neighbours of the points that are not
     * points themselves, each once.
     */
    method OptimizedRepaintAdjacent(points: seq<Cell>)
      requires Valid()
      modifies base`world, base`cursor, this`touched, this`retiled
      ensures Valid() && base.cursor == old(base.cursor) && touched.None?
      ensures var around := Kept(points, AllNeighbours(points));
        retiled == old(retiled) + around && SameOutside(old(base.world), base.world, around)
      ensures RetiledRun(rulesets, base.tilesets, old(base.world), base.world, Kept(points, AllNeighbours(points)))
    {
      // round_vector on each point: the points are whole cells already
      touched := Some(points);
      ghost var r0 := retiled;
      ghost var w0 := base.world;
      var k := 0;
      assert points[..0] == [] && points + Kept(points, AllNeighbours(points[..0])) == points;
      while k < |points|
        invariant 0 <= k <= |points|
        invariant Valid() && base.cursor == old(base.cursor)
        invariant touched == Some(points + Kept(points, AllNeighbours(points[..k])))
        invariant retiled == r0 + Kept(points, AllNeighbours(points[..k]))
        invariant SameOutside(w0, base.world, Kept(points, AllNeighbours(points[..k])))
        invariant RetiledRun(rulesets, base.tilesets, w0, base.world, Kept(points, AllNeighbours(points[..k])))
      {
        ghost var wk := base.world;
        var orig := base.cursor;
        base.cursor := base.cursor.(pos := points[k]);
        RepaintAdjacent();
        base.cursor := orig;
        RepaintStep(points, k, Neighbours(points[k]));
        RepaintLoopStep(points, Neighbours(points[k]), Kept(points, AllNeighbours(points[..k])),
                        Kept(points, AllNeighbours(points[..k + 1])), r0, touched, retiled, w0, wk, base.world);
        RetiledRunAppend(rulesets, base.tilesets, w0, wk, base.world, Kept(points, AllNeighbours(points[..k])),
                         Kept(points + Kept(points, AllNeighbours(points[..k])), Neighbours(points[k])));
        assert touched == Some(points + Kept(points, AllNeighbours(points[..k + 1])));
        assert retiled == r0 + Kept(points, AllNeighbours(points[..k + 1]));
        assert SameOutside(w0, base.world, Kept(points, AllNeighbours(points[..k + 1])));
        k := k + 1;
      }
      assert points[..k] == points;
      touched := None;
    }

    /**
     * The bitmask pass of optimized_paint: the fake scene is the real one with a stand-in
     * at every point, and each point's mask is read from it.
     */
    method SimulateBitmasks(points: seq<Cell>) returns (fake: Store, bitmasks: map<Cell, nat>)
      modifies base`cursor
      ensures base.cursor == old(base.cursor)
      ensures fake == WithFakes(base.world.objs, points)
      ensures forall p :: p in bitmasks <==> p in points
      ensures forall p :: p in bitmasks ==> bitmasks[p] == Mask(fake, p)
    {
      fake := base.world.objs;
      var k := 0;
      while k < |points|
        invariant 0 <= k <= |points|
        invariant fake == WithFakes(base.world.objs, points[..k])
      {
        fake := fake + [FakeObject(points[k])];
        assert points[..k + 1][..k] == points[..k];
        k := k + 1;
      }
      assert points[..k] == points;
      bitmasks := map[];
      k := 0;
      while k < |points|
        invariant 0 <= k <= |points| && base.cursor == old(base.cursor)
        invariant forall p :: p in bitmasks <==> p in points[..k]
        invariant forall p :: p in bitmasks ==> bitmasks[p] == Mask(fake, p)
      {
        var orig := base.cursor;
        base.cursor := base.cursor.(pos := points[k]);
        var adjacent := Adjacent(fake, base.cursor.pos);
        var bitmask := GetBitmask(adjacent);
        bitmasks := bitmasks[base.cursor.pos := bitmask];
        base.cursor := orig;
        assert points[..k + 1] == points[..k] + [points[k]];
        k := k + 1;
      }
      assert points[..k] == points;
    }

    /** optimized_new_auto_tile: the rule for the recorded mask of the cursor's cell makes a tile there. */
    method OptimizedNewAutoTile(bitmasks: map<Cell, nat>)
      requires Valid() && tileset in rulesets && base.cursor.pos in bitmasks
      modifies base`world
      ensures Valid()
      ensures match Get(rulesets[tileset], bitmasks[base.cursor.pos])
        case None => base.world == old(base.world)
        case Some(r) => RuleTilePlaced(old(base.world), base.world, base.cursor.pos, r, base.tilesets)
    {
      var p := base.cursor.pos;
      var bitmask := bitmasks[p];
      var rule := Get(rulesets[tileset], bitmask);
      if rule.Some? {
        GetHasTiles(rulesets[tileset], bitmask);
        var g := PlaceRule(rule.value);
        Scene.OperationsKeepValid(old(base.world), 0, InstanceGroup(g), p, rule.value.rot, TilesetOf(base.tilesets, InstanceGroup(g)));
      }
    }

    /** do_points(points, optimized_new_auto_tile, bitmasks). */
    method PlaceAllRules(points: seq<Cell>, bitmasks: map<Cell, nat>)
      requires Valid() && tileset in rulesets && forall p :: p in points ==> p in bitmasks
      modifies base`world, base`cursor
      ensures Valid() && base.cursor == old(base.cursor) && base.world.next >= old(base.world.next)
      ensures SameOutside(old(base.world), base.world, points)
      ensures forall k :: 0 <= k < |points| && Get(rulesets[tileset], bitmasks[points[k]]).Some? ==>
        exists o :: o in TilesAt(base.world.objs, points[k]) && o.id >= old(base.world.next) &&
          FromRule(o, points[k], Get(rulesets[tileset], bitmasks[points[k]]).value)
      ensures RulesPlaced(rulesets[tileset], base.tilesets, old(base.world), base.world, points, bitmasks)
    {
      var k := 0;
      while k < |points|
        invariant 0 <= k <= |points|
        invariant Valid() && base.cursor == old(base.cursor) && base.world.next >= old(base.world.next)
        invariant SameOutside(old(base.world), base.world, points[..k])
        invariant forall j :: 0 <= j < k && Get(rulesets[tileset], bitmasks[points[j]]).Some? ==>
          exists o :: o in TilesAt(base.world.objs, points[j]) && o.id >= old(base.world.next) &&
            FromRule(o, points[j], Get(rulesets[tileset], bitmasks[points[j]]).value)
        invariant RulesPlaced(rulesets[tileset], base.tilesets, old(base.world), base.world, points[..k], bitmasks)
      {
        ghost var wk := base.world;
        var orig := base.cursor;
        base.cursor := base.cursor.(pos := points[k]);
        OptimizedNewAutoTile(bitmasks);
        base.cursor := orig;
        PlaceRulesStep(old(base.world), wk, base.world, points, k, rulesets[tileset], bitmasks, base.tilesets);
        RulesPlacedStep(rulesets[tileset], base.tilesets, old(base.world), wk, base.world, points, k, bitmasks);
        k := k + 1;
      }
      assert points[..k] == points;
    }

    /**
     * The first three passes of optimized_paint: clear the points, read every point's mask
     * from the scene with all points filled, and place each point's rule tile.
     */
    method FilledRulePass(points: seq<Cell>) returns (bitmasks: map<Cell, nat>)
      requires Valid() && tileset in rulesets
      modifies base`world, base`cursor
      ensures Valid() && base.cursor == old(base.cursor)
      ensures forall p :: p in bitmasks <==> p in points
      ensures forall p :: p in bitmasks ==> bitmasks[p] == Mask(WithFakes(DeleteAt(old(base.world), points).objs, points), p)
      ensures RulesPlaced(rulesets[tileset], base.tilesets, DeleteAt(old(base.world), points), base.world, points, bitmasks)
    {
      ClearPoints(points);
      var fake;
      fake, bitmasks := SimulateBitmasks(points);
      PlaceAllRules(points, bitmasks);
    }

    /**
     * optimized_paint: clear the points, read every point's mask from the scene with
     * all points filled, place each point's rule tile, then retile the cells around.
     */
    method OptimizedPaint(points: seq<Cell>)
      requires Valid() && tileset in rulesets
      modifies base`world, base`cursor, this`touched, this`retiled
      ensures Valid() && base.cursor == old(base.cursor) && touched.None?
      ensures var around := Kept(points, AllNeighbours(points));
        retiled == old(retiled) + around && SameOutside(old(base.world), base.world, points + around)
      ensures var fake := WithFakes(DeleteAt(old(base.world), points).objs, points);
        forall k :: 0 <= k < |points| && Get(rulesets[tileset], Mask(fake, points[k])).Some? ==>
          exists o :: o in TilesAt(base.world.objs, points[k]) && o.id >= old(base.world.next) &&
            FromRule(o, points[k], Get(rulesets[tileset], Mask(fake, points[k])).value)
      ensures OptimizedPainted(rulesets, rulesets[tileset], base.tilesets, old(base.world), base.world, points)
    {
      ghost var w0 := base.world;
      var bitmasks := FilledRulePass(points);
      ghost var placed := base.world;
      OptimizedRepaintAdjacent(points);
      OptimizedPaintSteps(rulesets, rulesets[tileset], base.tilesets, w0, placed, base.world, points, bitmasks);
    }

    /** optimized_delete: clear the points, then retile the cells around them once each. */
    method OptimizedDelete(points: seq<Cell>)
      requires Valid()
      modifies base`world, base`cursor, this`touched, this`retiled
      ensures Valid() && base.cursor == old(base.cursor) && touched.None?
      ensures var around := Kept(points, AllNeighbours(points));
        retiled == old(retiled) + around && SameOutside(DeleteAt(old(base.world), points), base.world, around)
      ensures RetiledRun(rulesets, base.tilesets, DeleteAt(old(base.world), points), base.world,
                         Kept(points, AllNeighbours(points)))
    {
      ClearPoints(points);
      OptimizedRepaintAdjacent(points);
    }

    /** batch_cdraw: the batch form of drawing over a list of cells, by the paint or delete flag. */
    method BatchCdraw(points: seq<Cell>)
      requires Valid() && (base.paint ==> tileset in rulesets)
      modifies base`world, base`cursor, this`touched, this`retiled
      ensures Valid() && base.cursor == old(base.cursor)
      ensures !base.paint && !base.delete ==> base.world == old(base.world) && touched == old(touched)
      ensures base.paint || base.delete ==>
        var around := Kept(points, AllNeighbours(points));
        touched.None? && retiled == old(retiled) + around &&
        SameOutside(old(base.world), base.world, points + around)
      ensures base.paint ==> OptimizedPainted(rulesets, rulesets[tileset], base.tilesets, old(base.world), base.world, points)
      ensures !base.paint && base.delete ==>
        RetiledRun(rulesets, base.tilesets, DeleteAt(old(base.world), points), base.world, Kept(points, AllNeighbours(points)))
    {
      if base.paint {
        OptimizedPaint(points);
      } else if base.delete {
        ghost var w0 := base.world;
        DeleteAtEffect(w0, points, base.tilesets);
        OptimizedDelete(points);
        SameOutsideTrans(w0, DeleteAt(w0, points), base.world, points, Kept(points, AllNeighbours(points)));
      }
    }

    /** delete: the plain delete, then, in auto mode, the six neighbours are retiled. */
    method Delete(ignore: Option<nat>)
      requires Valid()
      modifies base`world, base`cursor, this`touched, this`retiled
      ensures Valid() && base.cursor == old(base.cursor)
      ensures !alt ==>
        base.world == DeleteSpec(old(base.world), base.cursor.pos, ignore) &&
        touched == old(touched) && retiled == old(retiled)
      ensures alt ==>
        SameOutside(DeleteSpec(old(base.world), base.cursor.pos, ignore), base.world, Neighbours(base.cursor.pos))
      ensures alt ==>
        touched == After(old(touched), Neighbours(base.cursor.pos)) &&
        retiled == old(retiled) + Added(old(touched), Neighbours(base.cursor.pos))
      ensures alt ==>
        RetiledRun(rulesets, base.tilesets, DeleteSpec(old(base.world), base.cursor.pos, ignore), base.world,
                   Added(old(touched), Neighbours(base.cursor.pos)))
    {
      var p := base.cursor.pos;
      base.Delete(ignore);
      DeleteSpecEffect(old(base.world), p, ignore);
      TaggedDelete(old(base.world), p, ignore, base.tilesets);
      if alt {
        ghost var w1 := base.world;
        ghost var t0 := touched;
        RepaintAdjacent();
        SameOutsideRun(w1, base.world, t0, Neighbours(p));
      }
    }

    /** The auto-mode branch of paint: the plain delete, new_auto_tile, then repaint_adjacent. */
    method AutoPaint()
      requires Valid() && tileset in rulesets
      modifies base`world, base`cursor, this`touched, this`retiled
      ensures Valid() && base.cursor == old(base.cursor)
      ensures var p := base.cursor.pos;
        exists w1 :: Retiled(DeleteSpec(old(base.world), p, None), w1, p,
                             Get(rulesets[tileset], Mask(old(base.world).objs, p)), base.tilesets) &&
                     SameOutside(w1, base.world, Neighbours(p))
      ensures touched == After(old(touched), Neighbours(base.cursor.pos))
      ensures retiled == old(retiled) + Added(old(touched), Neighbours(base.cursor.pos))
      ensures AutoPainted(rulesets, rulesets[tileset], base.tilesets, old(touched), old(base.world), base.world, base.cursor.pos)
    {
      var p := base.cursor.pos;
      base.Delete(None);
      DeleteSpecEffect(old(base.world), p, None);
      TaggedDelete(old(base.world), p, None, base.tilesets);
      MaskAfterDelete(old(base.world), p);
      NewAutoTile();
      ghost var w1 := base.world;
      ghost var t0 := touched;
      RepaintAdjacent();
      SameOutsideRun(w1, base.world, t0, Neighbours(p));
      assert RetiledRun(rulesets, base.tilesets, w1, base.world, Added(t0, Neighbours(p)));
    }

    /**
     * paint: in auto mode, the plain delete, then new_auto_tile, then the neighbours
     * are retiled; otherwise the plain paint (whose delete is the plain one, alt being off).
     */
    method Paint()
      requires Valid() && (alt ==> tileset in rulesets)
      modifies base`world, base`cursor, this`touched, this`retiled
      ensures Valid() && base.cursor == old(base.cursor)
      ensures !alt ==>
        base.world == PaintSpec(old(base.world), base.cursor, base.tilesets) &&
        touched == old(touched) && retiled == old(retiled)
      ensures alt ==>
        var p := base.cursor.pos;
        exists w1 :: Retiled(DeleteSpec(old(base.world), p, None), w1, p,
                             Get(rulesets[tileset], Mask(old(base.world).objs, p)), base.tilesets) &&
                     SameOutside(w1, base.world, Neighbours(p))
      ensures alt ==>
        touched == After(old(touched), Neighbours(base.cursor.pos)) &&
        retiled == old(retiled) + Added(old(touched), Neighbours(base.cursor.pos))
      ensures alt ==>
        AutoPainted(rulesets, rulesets[tileset], base.tilesets, old(touched), old(base.world), base.world, base.cursor.pos)
    {
      if alt {
        AutoPaint();
      } else {
        base.Paint();
        if base.cursor.tile3d.Some? {
          PaintSpecEffect(old(base.world), base.cursor, base.tilesets);
        }
        TaggedPaint(old(base.world), base.cursor, base.tilesets);
      }
    }

    /**
     * _cdraw on the auto-tiling editor: paint when painting, else delete when deleting,
     * each through the auto-tiling paint and delete above.
     */
    method Cdraw()
      requires Valid() && (alt && base.paint ==> tileset in rulesets)
      modifies base`world, base`cursor, this`touched, this`retiled
      ensures Valid() && base.cursor == old(base.cursor)
      ensures !alt ==>
        base.world == CdrawSpec(old(base.world), base.cursor, base.paint, base.delete, base.tilesets) &&
        touched == old(touched) && retiled == old(retiled)
      ensures alt && !base.paint && !base.delete ==>
        base.world == old(base.world) && touched == old(touched) && retiled == old(retiled)
      ensures alt && (base.paint || base.delete) ==>
        touched == After(old(touched), Neighbours(base.cursor.pos)) &&
        retiled == old(retiled) + Added(old(touched), Neighbours(base.cursor.pos))
      ensures alt && base.paint ==>
        AutoPainted(rulesets, rulesets[tileset], base.tilesets, old(touched), old(base.world), base.world, base.cursor.pos)
      ensures alt && !base.paint && base.delete ==>
        RetiledRun(rulesets, base.tilesets, DeleteSpec(old(base.world), base.cursor.pos, None), base.world,
                   Added(old(touched), Neighbours(base.cursor.pos)))
    {
      if base.paint {
        Paint();
      } else if base.delete {
        Delete(None);
      }
    }

    /**
     * end_select in auto mode: do_region moves the cursor over the selected box, cell by
     * cell in the order the region lists them, and draws at each through Cdraw, so every
     * painted or deleted cell retiles its neighbours before the next cell is drawn. The
     * cursor goes back where it was and the selection ends.
     */
    method EndSelect()
      requires Valid() && base.selectStart.Some? && (alt && base.paint ==> tileset in rulesets)
      modifies base`world, base`cursor, base`select, this`touched, this`retiled
      ensures Valid() && !base.select && base.cursor == old(base.cursor)
      ensures var cells := RegionOf(base.selectStart.value, base.cursor.pos);
        !alt ==> base.world == CdrawCells(old(base.world), base.cursor, cells, base.paint, base.delete, base.tilesets) &&
                 touched == old(touched)
      ensures alt && !base.paint && !base.delete ==> base.world == old(base.world) && touched == old(touched)
      ensures var cells := RegionOf(base.selectStart.value, base.cursor.pos);
        alt && (base.paint || base.delete) ==> touched == TouchedAfter(old(touched), cells)
      ensures var cells := RegionOf(base.selectStart.value, base.cursor.pos);
        alt && base.paint ==>
          PaintedEach(rulesets, rulesets[tileset], base.tilesets, old(touched), old(base.world), base.world, cells)
      ensures var cells := RegionOf(base.selectStart.value, base.cursor.pos);
        alt && !base.paint && base.delete ==>
          ClearedEach(rulesets, base.tilesets, old(touched), old(base.world), base.world, cells)
    {
      var orig := base.cursor;
      var cells := RegionOf(base.selectStart.value, orig.pos);
      ghost var w0, t0 := base.world, touched;
      var k := 0;
      while k < |cells|
        invariant 0 <= k <= |cells| && Valid()
        invariant base.cursor == orig.(pos := base.cursor.pos)
        invariant base.select == old(base.select) && base.selectStart == old(base.selectStart)
        invariant !alt ==> base.world == CdrawCells(w0, orig, cells[..k], base.paint, base.delete, base.tilesets) &&
                           touched == t0
        invariant alt && !base.paint && !base.delete ==> base.world == w0 && touched == t0
        invariant alt && (base.paint || base.delete) ==> touched == TouchedAfter(t0, cells[..k])
        invariant alt && base.paint ==> PaintedEach(rulesets, rulesets[tileset], base.tilesets, t0, w0, base.world, cells[..k])
        invariant alt && !base.paint && base.delete ==> ClearedEach(rulesets, base.tilesets, t0, w0, base.world, cells[..k])
      {
        DrawAt(cells, k, orig, w0, t0);
        k := k + 1;
      }
      assert cells[..k] == cells;
      base.cursor := orig;
      base.select := false;
    }

    /** One step of end_select's loop: move the cursor to the k-th cell and draw there. */
    method DrawAt(cells: seq<Cell>, k: nat, orig: Cursor, ghost w0: World, ghost t0: Option<seq<Cell>>)
      requires k < |cells| && Valid() && (alt && base.paint ==> tileset in rulesets)
      requires base.cursor == orig.(pos := base.cursor.pos)
      requires !alt ==> base.world == CdrawCells(w0, orig, cells[..k], base.paint, base.delete, base.tilesets) &&
                        touched == t0
      requires alt && !base.paint && !base.delete ==> base.world == w0 && touched == t0
      requires alt && (base.paint || base.delete) ==> touched == TouchedAfter(t0, cells[..k])
      requires alt && base.paint ==> PaintedEach(rulesets, rulesets[tileset], base.tilesets, t0, w0, base.world, cells[..k])
      requires alt && !base.paint && base.delete ==> ClearedEach(rulesets, base.tilesets, t0, w0, base.world, cells[..k])
      modifies base`world, base`cursor, this`touched, this`retiled
      ensures Valid() && base.cursor == orig.(pos := cells[k])
      ensures !alt ==> base.world == CdrawCells(w0, orig, cells[..k + 1], base.paint, base.delete, base.tilesets) &&
                       touched == t0
      ensures alt && !base.paint && !base.delete ==> base.world == w0 && touched == t0
      ensures alt && (base.paint || base.delete) ==> touched == TouchedAfter(t0, cells[..k + 1])
      ensures alt && base.paint ==> PaintedEach(rulesets, rulesets[tileset], base.tilesets, t0, w0, base.world, cells[..k + 1])
      ensures alt && !base.paint && base.delete ==> ClearedEach(rulesets, base.tilesets, t0, w0, base.world, cells[..k + 1])
    {
      ghost var wm, tm := base.world, touched;
      base.cursor := orig.(pos := cells[k]);
      Cdraw();
      DrawnStep(alt, base.paint, base.delete, rulesets, tileset, base.tilesets, orig, cells, k,
                w0, t0, wm, tm, base.world, touched);
    }

    /** paste with auto-tiling off: the plain paste. */
    method Paste()
      requires Valid()
      modifies base`world, base`cursor, this`alt
      ensures Valid() && alt && base.cursor == old(base.cursor)
      ensures base.world == if base.clipboard.Some? then
        PasteSpec(old(base.world), base.cursor.pos, base.clipboard.value, base.tilesets) else old(base.world)
    {
      alt := false;
      base.Paste();
      alt := true;
      if base.clipboard.Some? {
        TaggedPaintAll(old(base.world), PasteCursors(base.cursor.pos, base.clipboard.value), base.tilesets);
      }
    }

    /**
     * end_grab with auto-tiling off: the plain end_grab, raising where it raises. Nothing
     * restores the mode when end_grab raises, so auto-tiling stays off after an error.
     */
    method EndGrab(cancel: bool) returns (err: Option<PyError>)
      requires Valid() && base.grab
      modifies base`world, base`cursor, base`grab, base`grabbed, base`select, this`alt
      ensures alt == err.None?
      ensures !base.grab && !base.select && base.cursor == old(base.cursor).(pos := base.cursor.pos)
      ensures (base.world, base.cursor.pos, err) ==
        GrabEnded(old(base.world), old(base.cursor), if old(base.select) then base.selectStart else None,
                  base.paint, base.delete, old(base.grabbed).value, cancel, base.tilesets)
      ensures err.None? ==> Valid() && base.grabbed.None?
      ensures err.Some? ==> WorldValid(base.world) && Tagged(base.world.objs, base.tilesets)
    {
      alt := false;
      TaggedGrabEnded(base.world, base.cursor, if base.select then base.selectStart else None, base.paint, base.delete,
                      base.grabbed.value, cancel, base.tilesets);
      err := base.EndGrab(cancel);
      if err.None? {
        alt := true;
      }
    }
  }
}
