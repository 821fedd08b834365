// Tile set-up helpers of testudo3d/__init__.py: the SetupTiles operator's
// rename_objects and layout_in_grid, get_children (the whole hierarchy under
// an object), and the AlignTiles operator that snaps every placed tile back
// onto the grid.

module Setup {
  import opened Geometry

  /** A location in Blender units. */
  datatype Location = Location(x: real, y: real, z: real)

  /** A scene object as the set-up code sees it: its name, its location and its child objects. */
  datatype SceneObject = SceneObject(name: string, location: Location, children: seq<SceneObject>)

  // ---------------------------------------------------------------------
  // rename_objects
  // ---------------------------------------------------------------------

  /** name.replace(' ', '_'): the same name with every space turned into an underscore. */
  function Underscored(s: string): (r: string)
    ensures |r| == |s| && ' ' !in r
    ensures forall i :: 0 <= i < |s| ==> r[i] == (if s[i] == ' ' then '_' else s[i])
  {
    if s == [] then [] else [if s[0] == ' ' then '_' else s[0]] + Underscored(s[1..])
  }

  /** A name without spaces is left as it is, so renaming twice renames once. */
  lemma UnderscoredKeeps(s: string)
    requires ' ' !in s
    ensures Underscored(s) == s
  {
    var r := Underscored(s);
    forall i | 0 <= i < |s| ensures r[i] == s[i] {
      assert s[i] in s;
    }
  }

  lemma UnderscoredConcat(a: string, b: string)
    ensures Underscored(a + b) == Underscored(a) + Underscored(b)
  {
    var ab := a + b;
    var l, ua, ub := Underscored(ab), Underscored(a), Underscored(b);
    var r := ua + ub;
    assert |l| == |ab| == |r|;
    forall i | 0 <= i < |ab| ensures l[i] == r[i] {
      if i < |a| {
        assert ab[i] == a[i] && r[i] == ua[i];
      } else {
        assert ab[i] == b[i - |a|] && r[i] == ub[i - |a|];
      }
    }
  }

  /** rename_objects: every object whose name holds a space gets the underscored name; nothing else changes. */
  method RenameObjects(objects: array<SceneObject>)
    modifies objects
    ensures forall k :: 0 <= k < objects.Length ==>
      objects[k] == old(objects[k]).(name := Underscored(old(objects[k]).name))
  {
    for k := 0 to objects.Length
      invariant forall j :: 0 <= j < k ==> objects[j] == old(objects[j]).(name := Underscored(old(objects[j]).name))
      invariant forall j :: k <= j < objects.Length ==> objects[j] == old(objects[j])
    {
      var obj := objects[k];
      ghost var renamed := obj.(name := Underscored(obj.name));
      if ' ' in obj.name {
        objects[k] := obj.(name := Underscored(obj.name));
      } else {
        UnderscoredKeeps(obj.name);
        assert obj == renamed;
      }
      assert objects[k] == renamed;
    }
  }

  // ---------------------------------------------------------------------
  // layout_in_grid
  // ---------------------------------------------------------------------

  /** ceil(sqrt(n)): the side of the smallest square with room for n objects. */
  function CeilSqrt(n: nat): (d: nat)
    ensures d * d >= n
    ensures n > 0 ==> d > 0 && (d - 1) * (d - 1) < n
    ensures n == 0 ==> d == 0
  {
    CeilSqrtFrom(n, 0)
  }

  function CeilSqrtFrom(n: nat, d: nat): (r: nat)
    requires d == 0 || (d - 1) * (d - 1) < n
    ensures r * r >= n && r >= d
    ensures r == 0 || (r - 1) * (r - 1) < n
    decreases n - d
  {
    if d * d >= n then d
    else
      SquareAtLeast(d);
      assert d < n;
      var e := d + 1;
      assert (e - 1) * (e - 1) < n;
      CeilSqrtFrom(n, e)
  }

  // ---------------------------------------------------------------------
  // Products (the solver's arithmetic stops at linear facts)
  // ---------------------------------------------------------------------

  lemma MulNonneg(a: int, b: int)
    requires a >= 0 && b >= 0
    ensures a * b >= 0
  {
  }

  /** A multiple of d by x >= 1 is at least d, and by x <= -1 at most -d. */
  lemma MulSign(x: int, d: int)
    requires d > 0
    ensures x >= 1 ==> x * d >= d
    ensures x <= -1 ==> x * d <= -d
    ensures x == 0 ==> x * d == 0
  {
    if x >= 1 {
      MulNonneg(x - 1, d);
      assert x * d == (x - 1) * d + d;
    } else if x <= -1 {
      MulNonneg(-x - 1, d);
      assert x * d == -((-x - 1) * d) - d;
    }
  }

  lemma SquareAtLeast(d: nat)
    ensures d * d >= d
  {
    if d > 0 {
      MulSign(d, d);
    }
  }

  /** Scaling by c >= 0 keeps order. */
  lemma MulMono(a: int, b: int, c: int)
    requires a <= b && c >= 0
    ensures a * c <= b * c
  {
    MulNonneg(b - a, c);
    assert b * c - a * c == (b - a) * c;
  }

  /** Scaling by c != 0 keeps distinct numbers distinct. */
  lemma MulInjective(a: int, b: int, c: int)
    requires c != 0
    ensures a * c == b * c ==> a == b
  {
    assert a * c - b * c == (a - b) * c;
  }

  /** The column and row of slot k in rows of d. */
  lemma SlotOf(k: int, d: int, row: int, col: int)
    requires d > 0 && 0 <= col < d && k == row * d + col
    ensures k % d == col && k / d == row
  {
    var q, r := k / d, k % d;
    assert q * d + r == row * d + col;
    assert (q - row) * d == col - r;
    MulSign(q - row, d);
  }

  /** Where layout_in_grid puts object k: column k mod d, row k div d, d = ceil(sqrt(n)), centred on the origin. */
  function GridSpot(k: nat, n: nat, border: int): (p: (real, real))
    requires k < n
  {
    var d := CeilSqrt(n);
    var offset := ((d - 1) * border) as real / 2.0;
    (((k % d) * border) as real - offset, ((k / d) * border) as real - offset)
  }

  /**
   * layout_in_grid: the objects in rows of ceil(sqrt(n)), border apart, the
   * grid centred on the origin (the offset is a true division); z and names are kept.
   */
  method LayoutInGrid(objects: array<SceneObject>, border: int)
    modifies objects
    ensures forall k :: 0 <= k < objects.Length ==>
      var p := GridSpot(k, objects.Length, border);
      objects[k] == old(objects[k]).(location := old(objects[k]).location.(x := p.0, y := p.1))
  {
    var dimx := CeilSqrt(objects.Length);
    var count := 0;
    var x := 0;
    var y := 0;
    var offset := ((dimx - 1) * border) as real / 2.0;
    ghost var row := 0;
    for k := 0 to objects.Length
      invariant k < objects.Length ==> 0 <= count < dimx
      invariant k == row * dimx + count && x == count * border && y == row * border
      invariant forall j :: 0 <= j < k ==>
        var p := GridSpot(j, objects.Length, border);
        objects[j] == old(objects[j]).(location := old(objects[j]).location.(x := p.0, y := p.1))
      invariant forall j :: k <= j < objects.Length ==> objects[j] == old(objects[j])
    {
      SlotOf(k, dimx, row, count);
      assert GridSpot(k, objects.Length, border) == (x as real - offset, y as real - offset);
      var obj := objects[k];
      objects[k] := obj.(location := obj.location.(x := x as real - offset, y := y as real - offset));
      assert (count + 1) * border == count * border + border;
      assert (row + 1) * dimx == row * dimx + dimx;
      count := count + 1;
      x := x + border;
      if count >= dimx {
        y := y + border;
        x := 0;
        count := 0;
        row := row + 1;
      }
    }
  }

  /** Layout puts no two objects on the same spot when border is non-zero. */
  lemma GridSpotsDistinct(i: nat, j: nat, n: nat, border: int)
    requires i < n && j < n && i != j && border != 0
    ensures GridSpot(i, n, border) != GridSpot(j, n, border)
  {
    var d := CeilSqrt(n);
    assert i == (i / d) * d + i % d && j == (j / d) * d + j % d;
    assert i % d != j % d || i / d != j / d;
    MulInjective(i % d, j % d, border);
    MulInjective(i / d, j / d, border);
  }

  /** Every spot lies within the square the offset centres: |coordinate| <= offset. */
  lemma GridSpotCentred(k: nat, n: nat, border: int)
    requires k < n && border >= 0
    ensures var d, p := CeilSqrt(n), GridSpot(k, n, border);
      var offset := ((d - 1) * border) as real / 2.0;
      -offset <= p.0 <= offset && -offset <= p.1 <= offset
  {
    var d := CeilSqrt(n);
    var q := k / d;
    QuotientBelow(k, d);
    MulMono(k % d, d - 1, border);
    MulMono(q, d - 1, border);
    MulNonneg(k % d, border);
    MulNonneg(q, border);
    Centred((k % d) * border, (d - 1) * border);
    Centred(q * border, (d - 1) * border);
  }

  lemma QuotientBelow(k: nat, d: nat)
    requires k < d * d
    ensures d > 0 && k / d < d
  {
    MulSign(d, 1);
    var q := k / d;
    assert q * d <= k;
    MulSign(q - d, d);
    assert (q - d) * d == q * d - d * d;
  }

  lemma Centred(a: int, m: int)
    requires 0 <= a <= m
    ensures -(m as real / 2.0) <= a as real - m as real / 2.0 <= m as real / 2.0
  {
  }

  // ---------------------------------------------------------------------
  // get_children
  // ---------------------------------------------------------------------

  /** What get_children(obj) lists: the direct children first, then what lies under each child in turn. */
  function Below(obj: SceneObject): seq<SceneObject>
    decreases obj, |obj.children| + 1
  {
    obj.children + BelowChildren(obj, |obj.children|)
  }

  /** What lies under the first i children of obj, child by child. */
  function BelowChildren(obj: SceneObject, i: nat): seq<SceneObject>
    requires i <= |obj.children|
    decreases obj, i
  {
    if i == 0 then [] else BelowChildren(obj, i - 1) + Below(obj.children[i - 1])
  }

  /**
   * get_children(obj, children): extends the accumulator with obj's children,
   * then recurses into each child with the same accumulator.
   */
  method GetChildren(obj: SceneObject, children: seq<SceneObject>) returns (r: seq<SceneObject>)
    ensures r == children + Below(obj)
    decreases obj
  {
    r := children + obj.children;
    for i := 0 to |obj.children|
      invariant r == children + obj.children + BelowChildren(obj, i)
    {
      r := GetChildren(obj.children[i], r);
    }
  }

  /** d lies somewhere under obj: a child, or under a child. */
  predicate Descends(d: SceneObject, obj: SceneObject)
    decreases obj
  {
    d in obj.children || exists i :: 0 <= i < |obj.children| && Descends(d, obj.children[i])
  }

  /** get_children lists exactly the objects under obj. */
  lemma {:induction false} BelowIsDescendants(obj: SceneObject, d: SceneObject)
    ensures d in Below(obj) <==> Descends(d, obj)
    decreases obj, |obj.children| + 1
  {
    BelowChildrenHas(obj, |obj.children|, d);
  }

  lemma {:induction false} BelowChildrenHas(obj: SceneObject, i: nat, d: SceneObject)
    requires i <= |obj.children|
    ensures d in BelowChildren(obj, i) <==> exists c :: 0 <= c < i && Descends(d, obj.children[c])
    decreases obj, i
  {
    if i > 0 {
      BelowChildrenHas(obj, i - 1, d);
      BelowIsDescendants(obj.children[i - 1], d);
      if exists c :: 0 <= c < i && Descends(d, obj.children[c]) {
        var c :| 0 <= c < i && Descends(d, obj.children[c]);
        if c < i - 1 {
          assert exists c' :: 0 <= c' < i - 1 && Descends(d, obj.children[c']);
        }
      }
    }
  }

  // ---------------------------------------------------------------------
  // AlignTiles
  // ---------------------------------------------------------------------

  /** A placed tile under the root: its position and its z rotation in degrees. */
  datatype Placed = Placed(pos: Location, rot: real)

  /** round_vector on the position and roundbase(rot, 90) on the rotation. */
  function Aligned(t: Placed): (r: Placed)
  {
    Placed(Location(RoundHalfEven(t.pos.x) as real, RoundHalfEven(t.pos.y) as real, RoundHalfEven(t.pos.z) as real),
           RoundBase(t.rot, 90) as real)
  }

  /**
   * An aligned tile sits on a whole cell, at most half a cell from where it
   * was, and is turned a whole number of quarter turns; aligning again changes nothing.
   */
  lemma AlignedOnGrid(t: Placed)
    ensures var a := Aligned(t);
      a.pos.x == a.pos.x.Floor as real && a.pos.y == a.pos.y.Floor as real && a.pos.z == a.pos.z.Floor as real &&
      RealAbs(t.pos.x - a.pos.x) <= 0.5 && RealAbs(t.pos.y - a.pos.y) <= 0.5 && RealAbs(t.pos.z - a.pos.z) <= 0.5 &&
      a.rot == a.rot.Floor as real && IsQuarter(a.rot.Floor) && RealAbs(t.rot - a.rot) <= 45.0 &&
      Aligned(a) == a
  {
    var a := Aligned(t);
    RoundHalfEvenNearest(t.pos.x, 0);
    RoundHalfEvenNearest(t.pos.y, 0);
    RoundHalfEvenNearest(t.pos.z, 0);
    RoundBaseQuarter(t.rot);
    RoundBaseClose(t.rot, 90);
    RoundWhole(a.pos.x.Floor);
    RoundWhole(a.pos.y.Floor);
    RoundWhole(a.pos.z.Floor);
    var q := RoundBase(t.rot, 90);
    assert (q as real / 90 as real) == (q / 90) as real by {
      assert q == (q / 90) * 90;
    }
    RoundWhole(q / 90);
  }

  /** round() of a whole number is that number. */
  lemma RoundWhole(n: int)
    ensures RoundHalfEven(n as real) == n
  {
  }

  /** AlignTiles.execute: every child of the root is snapped in place. */
  method AlignTiles(children: array<Placed>)
    modifies children
    ensures forall k :: 0 <= k < children.Length ==> children[k] == Aligned(old(children[k]))
  {
    for k := 0 to children.Length
      invariant forall j :: 0 <= j < k ==> children[j] == Aligned(old(children[j]))
      invariant forall j :: k <= j < children.Length ==> children[j] == old(children[j])
    {
      var child := children[k];
      var vec := Location(RoundHalfEven(child.pos.x) as real, RoundHalfEven(child.pos.y) as real, RoundHalfEven(child.pos.z) as real);
      var rot := RoundBase(child.rot, 90);
      children[k] := Placed(vec, rot as real);
    }
  }
}
