// The modal editing session of testudo3d/operator.py: the key handlers that
// move the editor between its paint, delete, grab and select modes, the
// mouse-paint toggle, the user layer kept within the scene's 20 layers, and
// the auto mode's check that every tile a rule names exists in its tileset.
// The handlers act on a Tilemap3D editor, as ManualModeOperator does; under
// AutoModeOperator each draw goes through AutoTiler3D.Cdraw and EndSelect instead.

module Operator {
  import opened Wrappers
  import opened Geometry
  import opened Scene
  import opened Rules
  import opened Tilemap
  import opened TilemapEngine

  /** clamp(a, b, c) = max(b, min(a, c)). */
  function Clamp(a: int, b: int, c: int): (r: int)
    ensures b <= c ==> b <= r <= c
    ensures b <= a <= c ==> r == a
    ensures a < b ==> r == b
    ensures b <= c < a ==> r == c
    ensures c < b ==> r == b
  {
    Max(b, Min(a, c))
  }

  /** The highest user layer: the scene has 20. */
  const LastLayer := 19

  /** A T3DOperatorBase session over a Tilemap3D editor. */
  class Session {
    const editor: Tilemap3D
    var mousepaint: bool
    var userLayer: int
    var selectCubeRedraw: bool

    predicate Valid()
      reads this, editor
    {
      editor.Valid()
    }

    constructor(editor: Tilemap3D, userLayer: int)
      requires editor.Valid()
      ensures Valid() && this.editor == editor && !mousepaint && this.userLayer == userLayer
    {
      this.editor := editor;
      mousepaint := false;
      this.userLayer := userLayer;
      selectCubeRedraw := false;
    }

    /**
     * handle_quit: a grab is cancelled; otherwise a selection is dropped without
     * drawing; otherwise the session ends (QuitError), shown by quit. Cancelling a
     * grab whose tile has left the scene raises, shown by err.
     */
    method HandleQuit() returns (quit: bool, err: Option<PyError>)
      requires Valid()
      modifies editor`world, editor`cursor, editor`grab, editor`grabbed, editor`select, this`selectCubeRedraw
      ensures editor.cursor == old(editor.cursor)
      ensures err.None? ==> Valid()
      ensures quit <==> !old(editor.grab) && !old(editor.select)
      ensures old(editor.grab) ==>
        !editor.grab && !editor.select &&
        (editor.world, editor.cursor.pos, err) ==
          GrabEnded(old(editor.world), old(editor.cursor), if old(editor.select) then editor.selectStart else None,
                    editor.paint, editor.delete, old(editor.grabbed).value, true, editor.tilesets) &&
        (err.None? ==> editor.grabbed.None?)
      ensures !old(editor.grab) ==>
        err.None? && editor.world == old(editor.world) && !editor.grab && editor.grabbed == old(editor.grabbed) && !editor.select
    {
      quit, err := false, None;
      if editor.grab {
        err := editor.EndGrab(true);
      } else if editor.select {
        editor.select := false;
        selectCubeRedraw := true;
      } else {
        quit := true;
      }
    }

    /**
     * handle_paint: commit a grab; or paint the whole selection and leave paint
     * off; or, when not painting yet, turn paint on and draw at the cursor.
     * Committing a grab whose tile has left the scene raises, shown by err.
     */
    method HandlePaint() returns (err: Option<PyError>)
      requires Valid()
      modifies editor`world, editor`cursor, editor`grab, editor`grabbed, editor`select, editor`paint
      ensures err.None? ==> Valid() && editor.cursor == old(editor.cursor)
      ensures old(editor.grab) ==>
        !editor.grab && !editor.select && editor.paint == old(editor.paint) &&
        editor.cursor == old(editor.cursor).(pos := editor.cursor.pos) &&
        (editor.world, editor.cursor.pos, err) ==
          GrabEnded(old(editor.world), old(editor.cursor), if old(editor.select) then editor.selectStart else None,
                    editor.paint, editor.delete, old(editor.grabbed).value, false, editor.tilesets)
      ensures !old(editor.grab) && old(editor.select) ==>
        err.None? && !editor.paint && !editor.select && !editor.grab &&
        editor.world == CdrawCells(old(editor.world), editor.cursor, RegionOf(editor.selectStart.value, editor.cursor.pos), true,
                                editor.delete, editor.tilesets)
      ensures !old(editor.grab) && !old(editor.select) ==>
        err.None? && editor.paint && !editor.select && !editor.grab &&
        editor.world == if old(editor.paint) then old(editor.world) else PaintSpec(old(editor.world), editor.cursor, editor.tilesets)
    {
      err := None;
      if editor.grab {
        err := editor.EndGrab(false);
      } else if editor.select {
        editor.paint := true;
        editor.EndSelect();
        editor.paint := false;
      } else if !editor.paint {
        editor.paint := true;
        BrushDraw();
      }
    }

    /** brush_draw, which is not part of this model, is taken as one cdraw at the cursor. */
    method BrushDraw()
      requires Valid()
      modifies editor`world
      ensures Valid() && editor.world == CdrawSpec(old(editor.world), editor.cursor, editor.paint, editor.delete, editor.tilesets)
    {
      CdrawSpecEffect(editor.world, editor.cursor, editor.paint, editor.delete, editor.tilesets);
      editor.Cdraw();
    }

    /** handle_paint_end and handle_delete_end: the stroke is over. */
    method HandlePaintEnd()
      modifies editor`paint
      ensures !editor.paint
    {
      editor.paint := false;
    }

    method HandleDeleteEnd()
      modifies editor`delete
      ensures !editor.delete
    {
      editor.delete := false;
    }

    /**
     * handle_delete: clear the whole selection (even while grabbing) and leave
     * delete off; otherwise, when neither grabbing nor deleting yet, turn delete
     * on and clear the first tile at the cursor.
     */
    method HandleDelete()
      requires Valid()
      modifies editor`world, editor`cursor, editor`select, editor`delete
      ensures Valid() && editor.cursor == old(editor.cursor)
      ensures old(editor.select) ==>
        !editor.delete && !editor.select &&
        editor.world == CdrawCells(old(editor.world), editor.cursor, RegionOf(editor.selectStart.value, editor.cursor.pos), editor.paint,
                                true, editor.tilesets)
      ensures !old(editor.select) && (editor.grab || old(editor.delete)) ==>
        editor.world == old(editor.world) && editor.delete == old(editor.delete) && !editor.select
      ensures !old(editor.select) && !editor.grab && !old(editor.delete) ==>
        editor.delete && !editor.select &&
        editor.world == CdrawSpec(old(editor.world), editor.cursor, editor.paint, true, editor.tilesets)
    {
      ghost var ss, paint, grab, tilesets := editor.selectStart, editor.paint, editor.grab, editor.tilesets;
      if editor.select {
        editor.delete := true;
        editor.EndSelect();
        editor.delete := false;
      } else if !editor.grab && !editor.delete {
        editor.delete := true;
        BrushDraw();
      }
      assert editor.selectStart == ss && editor.paint == paint && editor.grab == grab && editor.tilesets == tilesets;
    }

    /**
     * handle_grab: start a grab, or commit the one under way; committing a grab whose
     * tile has left the scene raises, shown by err.
     */
    method HandleGrab() returns (err: Option<PyError>)
      requires Valid()
      modifies editor`world, editor`cursor, editor`grab, editor`grabbed, editor`select
      ensures err.None? ==> Valid() && editor.cursor == old(editor.cursor)
      ensures !old(editor.grab) ==>
        err.None? && editor.world == old(editor.world) && editor.select == old(editor.select) &&
        (editor.grab <==> editor.grabbed.Some?)
      ensures old(editor.grab) ==>
        !editor.grab && !editor.select && editor.cursor == old(editor.cursor).(pos := editor.cursor.pos) &&
        (editor.world, editor.cursor.pos, err) ==
          GrabEnded(old(editor.world), old(editor.cursor), if old(editor.select) then editor.selectStart else None,
                    editor.paint, editor.delete, old(editor.grabbed).value, false, editor.tilesets)
    {
      err := None;
      if !editor.grab {
        editor.StartGrab();
      } else {
        err := editor.EndGrab(false);
      }
    }

    /** handle_select: ignored while grabbing; the first press starts a selection, the second draws over it. */
    method HandleSelect()
      requires Valid()
      modifies editor`world, editor`cursor, editor`select, editor`selectStart
      ensures Valid() && editor.cursor == old(editor.cursor)
      ensures old(editor.grab) ==>
        editor.world == old(editor.world) && editor.select == old(editor.select) && editor.selectStart == old(editor.selectStart)
      ensures !old(editor.grab) && !old(editor.select) ==>
        editor.select && editor.selectStart == Some(editor.cursor.pos) && editor.world == old(editor.world)
      ensures !old(editor.grab) && old(editor.select) ==>
        !editor.select && editor.selectStart == old(editor.selectStart) &&
        editor.world == CdrawCells(old(editor.world), editor.cursor, RegionOf(editor.selectStart.value, editor.cursor.pos),
                                editor.paint, editor.delete, editor.tilesets)
    {
      if editor.grab {
        return;
      } else if !editor.select {
        editor.StartSelect();
      } else {
        editor.EndSelect();
      }
    }

    /**
     * handle_mousepaint: a paint press, only while mouse painting; passThrough otherwise.
     * The press commits a grab under way, which raises when a grabbed tile has left the scene.
     */
    method HandleMousepaint() returns (passThrough: bool, err: Option<PyError>)
      requires Valid()
      modifies editor`world, editor`cursor, editor`grab, editor`grabbed, editor`select, editor`paint
      ensures err.None? ==> Valid() && editor.cursor == old(editor.cursor)
      ensures err.Some? ==> mousepaint && old(editor.grab) && !editor.grab
      ensures passThrough <==> !mousepaint
      ensures !mousepaint ==>
        err.None? && editor.world == old(editor.world) && editor.paint == old(editor.paint) &&
        editor.grab == old(editor.grab) && editor.select == old(editor.select) && editor.grabbed == old(editor.grabbed)
    {
      passThrough, err := !mousepaint, None;
      if mousepaint {
        err := HandlePaint();
      }
    }

    /** handle_toggle_mousepaint: end the stroke if mouse painting was on, then flip the flag. */
    method HandleToggleMousepaint()
      modifies this`mousepaint, editor`paint
      ensures mousepaint == !old(mousepaint)
      ensures old(mousepaint) ==> !editor.paint
      ensures !old(mousepaint) ==> editor.paint == old(editor.paint)
    {
      if mousepaint {
        // handle_mousepaint_end, which passes through when not mouse painting
        HandlePaintEnd();
      }
      mousepaint := !mousepaint;
    }

    /** handle_inc_layer: one layer up, kept within 0..19. */
    method HandleIncLayer()
      modifies this`userLayer
      ensures 0 <= userLayer <= LastLayer
      ensures 0 <= old(userLayer) < LastLayer ==> userLayer == old(userLayer) + 1
      ensures old(userLayer) >= LastLayer ==> userLayer == LastLayer
      ensures old(userLayer) < 0 ==> userLayer == 0
    {
      userLayer := userLayer + 1;
      userLayer := Clamp(userLayer, 0, LastLayer);
    }

    /** handle_dec_layer: one layer down, kept within 0..19. */
    method HandleDecLayer()
      modifies this`userLayer
      ensures 0 <= userLayer <= LastLayer
      ensures 0 < old(userLayer) <= LastLayer ==> userLayer == old(userLayer) - 1
      ensures old(userLayer) <= 0 ==> userLayer == 0
      ensures old(userLayer) > LastLayer ==> userLayer == LastLayer
    {
      userLayer := userLayer - 1;
      userLayer := Clamp(userLayer, 0, LastLayer);
    }
  }

  // ---------------------------------------------------------------------
  // AutoModeOperator.validate_rules
  // ---------------------------------------------------------------------

  /** The tile names the rules under the given masks use. */
  ghost function RuleTilesOf(rules: map<int, Rule>, masks: set<int>): set<string>
  {
    set m, t | m in masks && m in rules && t in rules[m].tiles :: t
  }

  /** Every tile name a ruleset uses, in its rules or its default. */
  ghost function RuleTiles(rs: Ruleset): set<string>
  {
    RuleTilesOf(rs.rules, rs.rules.Keys) + (if rs.default.Some? then set t | t in rs.default.value.tiles else {})
  }

  /** The names a ruleset uses that its tileset lacks. */
  ghost function Missing(rs: Ruleset, tiles: set<string>): set<string>
  {
    RuleTiles(rs) - tiles
  }

  /** The position of the first tileset, in the order given, whose rules name a missing tile. */
  ghost function FirstInvalid(names: seq<string>, rulesets: map<string, Ruleset>, tilesets: map<string, set<string>>): (r: Option<nat>)
    requires forall n :: n in names ==> n in rulesets && n in tilesets
    ensures r.None? <==> forall k :: 0 <= k < |names| ==> Missing(rulesets[names[k]], tilesets[names[k]]) == {}
    ensures r.Some? ==>
      r.value < |names| && Missing(rulesets[names[r.value]], tilesets[names[r.value]]) != {} &&
      forall j :: 0 <= j < r.value ==> Missing(rulesets[names[j]], tilesets[names[j]]) == {}
  {
    if names == [] then None
    else if Missing(rulesets[names[0]], tilesets[names[0]]) != {} then Some(0)
    else match FirstInvalid(names[1..], rulesets, tilesets)
      case None => None
      case Some(k) => Some(k + 1)
  }

  /** The inner loops: append each candidate the tileset lacks and that is not yet listed. */
  method CollectMissing(candidates: seq<string>, tiles: set<string>, notfound: seq<string>) returns (r: seq<string>)
    requires NoDuplicates(notfound)
    ensures NoDuplicates(r) && |notfound| <= |r| && r[..|notfound|] == notfound
    ensures forall t :: t in r <==> t in notfound || (t in candidates && t !in tiles)
  {
    r := notfound;
    var k := 0;
    while k < |candidates|
      invariant 0 <= k <= |candidates|
      invariant NoDuplicates(r) && |notfound| <= |r| && r[..|notfound|] == notfound
      invariant forall t :: t in r <==> t in notfound || (t in candidates[..k] && t !in tiles)
    {
      var tile3d := candidates[k];
      assert candidates[..k + 1] == candidates[..k] + [tile3d];
      if tile3d !in tiles && tile3d !in r {
        ConcatNoDuplicates(r, [tile3d]);
        assert (r + [tile3d])[..|notfound|] == r[..|notfound|];
        r := r + [tile3d];
      }
      k := k + 1;
    }
    assert candidates[..k] == candidates;
  }

  /** The names one ruleset uses that its tileset lacks, each listed once. */
  method MissingTiles(rs: Ruleset, tiles: set<string>) returns (notfound: seq<string>)
    ensures NoDuplicates(notfound)
    ensures forall t :: t in notfound <==> t in Missing(rs, tiles)
  {
    notfound := [];
    var remaining := rs.rules.Keys;
    ghost var done: set<int> := {};
    while remaining != {}
      invariant remaining + done == rs.rules.Keys && remaining !! done
      invariant NoDuplicates(notfound)
      invariant forall t :: t in notfound <==> t in RuleTilesOf(rs.rules, done) && t !in tiles
      decreases remaining
    {
      SomeMask(remaining);
      var m :| m in remaining;
      notfound := CollectMissing(rs.rules[m].tiles, tiles, notfound);
      RuleTilesStep(rs.rules, done, m);
      remaining := remaining - {m};
      done := done + {m};
    }
    if rs.default.Some? {
      notfound := CollectMissing(rs.default.value.tiles, tiles, notfound);
    }
  }

  /** A set of masks that is not empty has a member (the dict's iteration order is not modelled). */
  lemma SomeMask(masks: set<int>)
    requires masks != {}
    ensures exists m :: m in masks
  {
    if forall m :: m !in masks {
      assert false;
    }
  }

  lemma RuleTilesStep(rules: map<int, Rule>, done: set<int>, m: int)
    requires m in rules
    ensures RuleTilesOf(rules, done + {m}) == RuleTilesOf(rules, done) + set t | t in rules[m].tiles
  {
    forall t | t in rules[m].tiles
      ensures t in RuleTilesOf(rules, done + {m})
    {
    }
  }

  /**
   * validate_rules: for each tileset in turn report the missing names of its
   * ruleset; stop with the error (ok false) at the first tileset that has any.
   */
  method ValidateRules(names: seq<string>, rulesets: map<string, Ruleset>, tilesets: map<string, set<string>>)
    returns (warnings: seq<(string, string)>, ok: bool)
    requires forall n :: n in names ==> n in rulesets && n in tilesets
    ensures ok <==> FirstInvalid(names, rulesets, tilesets).None?
    ensures ok ==> warnings == []
    ensures !ok ==>
      var k := FirstInvalid(names, rulesets, tilesets).value;
      NoDuplicates(warnings) &&
      forall w :: w in warnings <==> w.1 == names[k] && w.0 in Missing(rulesets[names[k]], tilesets[names[k]])
  {
    warnings := [];
    var i := 0;
    while i < |names|
      invariant 0 <= i <= |names|
      invariant warnings == []
      invariant forall j :: 0 <= j < i ==> Missing(rulesets[names[j]], tilesets[names[j]]) == {}
    {
      var name := names[i];
      var notfound := MissingTiles(rulesets[name], tilesets[name]);
      if notfound != [] {
        assert notfound[0] in Missing(rulesets[name], tilesets[name]);
        warnings := Reports(notfound, name);
        FirstInvalidAt(names, rulesets, tilesets, i);
        return warnings, false;
      }
      assert forall t :: t !in Missing(rulesets[name], tilesets[name]);
      i := i + 1;
    }
    ok := true;
  }

  /** The warnings for one tileset's missing names, in order. */
  method Reports(notfound: seq<string>, name: string) returns (warnings: seq<(string, string)>)
    requires NoDuplicates(notfound)
    ensures NoDuplicates(warnings)
    ensures forall w :: w in warnings <==> w.1 == name && w.0 in notfound
  {
    warnings := [];
    var k := 0;
    while k < |notfound|
      invariant 0 <= k <= |notfound|
      invariant NoDuplicates(warnings)
      invariant forall w :: w in warnings <==> w.1 == name && w.0 in notfound[..k]
    {
      assert notfound[..k + 1] == notfound[..k] + [notfound[k]];
      assert notfound[k] !in notfound[..k];
      ConcatNoDuplicates(warnings, [(notfound[k], name)]);
      warnings := warnings + [(notfound[k], name)];
      k := k + 1;
    }
    assert notfound[..k] == notfound;
  }

  /** A tileset with missing names after only valid ones is the first invalid one. */
  lemma {:induction false} FirstInvalidAt(names: seq<string>, rulesets: map<string, Ruleset>, tilesets: map<string, set<string>>, i: nat)
    requires forall n :: n in names ==> n in rulesets && n in tilesets
    requires i < |names| && Missing(rulesets[names[i]], tilesets[names[i]]) != {}
    requires forall j :: 0 <= j < i ==> Missing(rulesets[names[j]], tilesets[names[j]]) == {}
    ensures FirstInvalid(names, rulesets, tilesets) == Some(i)
  {
    if i > 0 {
      assert Missing(rulesets[names[0]], tilesets[names[0]]) == {};
      FirstInvalidAt(names[1..], rulesets, tilesets, i - 1);
    }
  }
}
