// Grid geometry shared by the tile-map editors: integer cells, quarter-turn
// rotation about Z, Python's half-to-even rounding, the median helper `mid`,
// heading conversion and the box-selection bounds.

module Geometry {

  /** An integer grid cell; positions in the tile map are always whole cells here. */
  datatype Cell = Cell(x: int, y: int, z: int)

  function Add(a: Cell, b: Cell): Cell { Cell(a.x + b.x, a.y + b.y, a.z + b.z) }

  function Sub(a: Cell, b: Cell): Cell { Cell(a.x - b.x, a.y - b.y, a.z - b.z) }

  function Abs(n: int): nat { if n < 0 then -n else n }

  /** p moved n times by v: where a cursor arrives after n equal steps. */
  function Advance(p: Cell, v: Cell, n: nat): Cell
  {
    if n == 0 then p else Add(Advance(p, v, n - 1), v)
  }

  /** n steps of v add n times v. */
  lemma {:induction false} AdvanceScale(p: Cell, v: Cell, n: nat)
    ensures Advance(p, v, n) == Add(p, Cell(v.x * n, v.y * n, v.z * n))
  {
    if n > 0 {
      AdvanceScale(p, v, n - 1);
      MulSucc(v.x, n - 1);
      MulSucc(v.y, n - 1);
      MulSucc(v.z, n - 1);
    }
  }

  lemma MulSucc(a: int, m: nat)
    ensures a * (m + 1) == a * m + a
  {
  }

  // ---------------------------------------------------------------------
  // Quarter-turn rotation about Z (Matrix.Rotation(radians(deg), 4, 'Z'))
  // ---------------------------------------------------------------------

  /** A heading the model can rotate by exactly: a whole number of quarter turns. */
  predicate IsQuarter(deg: int) { deg % 90 == 0 }

  /** The number of counter-clockwise quarter turns, in 0..3, of a heading. */
  function Quarters(deg: int): (q: int)
    requires IsQuarter(deg)
    ensures 0 <= q < 4
  {
    (deg / 90) % 4
  }

  function TurnOnce(v: Cell): Cell { Cell(-v.y, v.x, v.z) }

  function TurnTimes(q: nat, v: Cell): (r: Cell)
    ensures r.z == v.z
  {
    if q == 0 then v else TurnOnce(TurnTimes(q - 1, v))
  }

  /** Quarter turns keep the horizontal grid distance from the origin. */
  lemma {:induction false} TurnTimesNorm(q: nat, v: Cell)
    ensures Abs(TurnTimes(q, v).x) + Abs(TurnTimes(q, v).y) == Abs(v.x) + Abs(v.y)
  {
    if q > 0 {
      TurnTimesNorm(q - 1, v);
    }
  }

  /**
   * The image of v under a counter-clockwise rotation by deg degrees about Z:
   * (x, y) becomes (x cos - y sin, x sin + y cos), z is kept.
   */
  function RotateZ(deg: int, v: Cell): (r: Cell)
    requires IsQuarter(deg)
    ensures r.z == v.z
    ensures Abs(r.x) + Abs(r.y) == Abs(v.x) + Abs(v.y)
  {
    TurnTimesNorm(Quarters(deg), v);
    TurnTimes(Quarters(deg), v)
  }

  lemma {:induction false} TurnTimesMod(q: nat, v: Cell)
    ensures TurnTimes(q, v) == TurnTimes(q % 4, v)
  {
    if q >= 4 {
      TurnTimesAdd(q - 4, 4, v);
      TurnTimesFull(v);
      assert TurnTimes(q, v) == TurnTimes(q - 4, v);
      TurnTimesMod(q - 4, v);
      assert (q - 4) % 4 == q % 4;
    }
  }

  /** Four quarter turns are a whole turn. */
  lemma TurnTimesFull(v: Cell)
    ensures TurnTimes(4, v) == v
  {
    assert TurnTimes(1, v) == TurnOnce(v);
    assert TurnTimes(2, v) == Cell(-v.x, -v.y, v.z);
    assert TurnTimes(3, v) == Cell(v.y, -v.x, v.z);
  }

  lemma {:induction false} TurnTimesAdd(p: nat, q: nat, v: Cell)
    ensures TurnTimes(p + q, v) == TurnTimes(p, TurnTimes(q, v))
  {
    if p > 0 {
      TurnTimesAdd(p - 1, q, v);
    }
  }

  /** Rotations compose by adding their angles. */
  lemma RotateZCompose(a: int, b: int, v: Cell)
    requires IsQuarter(a) && IsQuarter(b)
    ensures RotateZ(a, RotateZ(b, v)) == RotateZ(a + b, v)
  {
    var qa, qb := Quarters(a), Quarters(b);
    TurnTimesAdd(qa, qb, v);
    TurnTimesMod(qa + qb, v);
    QuartersAdd(a, b);
  }

  lemma QuartersAdd(a: int, b: int)
    requires IsQuarter(a) && IsQuarter(b)
    ensures Quarters(a + b) == (Quarters(a) + Quarters(b)) % 4
  {
    var ka, kb := a / 90, b / 90;
    assert a == 90 * ka && b == 90 * kb;
    DivExact(a + b, ka + kb);
    ModSum4(ka, kb);
  }

  /** The turn between two quarter headings is a quarter turn. */
  lemma QuarterDiff(a: int, b: int)
    requires IsQuarter(a) && IsQuarter(b)
    ensures IsQuarter(a - b)
  {
    var ka, kb := a / 90, b / 90;
    assert a == 90 * ka && b == 90 * kb;
    DivExact(a - b, ka - kb);
  }

  lemma DivExact(n: int, k: int)
    requires n == 90 * k
    ensures n / 90 == k
  {
  }

  lemma ModSum4(x: int, y: int)
    ensures (x + y) % 4 == (x % 4 + y % 4) % 4
  {
    var qx, qy := x / 4, y / 4;
    assert x == 4 * qx + x % 4 && y == 4 * qy + y % 4;
  }

  /** A rotation by a whole turn, or by nothing, leaves every vector in place. */
  lemma RotateZWholeTurn(k: int, v: Cell)
    ensures RotateZ(360 * k, v) == v
  {
    assert Quarters(360 * k) == 0;
  }

  /** Rotating by -deg undoes rotating by deg. */
  lemma RotateZInverse(deg: int, v: Cell)
    requires IsQuarter(deg)
    ensures RotateZ(-deg, RotateZ(deg, v)) == v
  {
    RotateZCompose(-deg, deg, v);
    RotateZWholeTurn(0, v);
  }

  /** Rotation is linear: it distributes over vector addition and subtraction. */
  lemma {:induction false} TurnTimesLinear(q: nat, u: Cell, v: Cell)
    ensures TurnTimes(q, Add(u, v)) == Add(TurnTimes(q, u), TurnTimes(q, v))
    ensures TurnTimes(q, Sub(u, v)) == Sub(TurnTimes(q, u), TurnTimes(q, v))
  {
    if q > 0 {
      TurnTimesLinear(q - 1, u, v);
    }
  }

  lemma RotateZLinear(deg: int, u: Cell, v: Cell)
    requires IsQuarter(deg)
    ensures RotateZ(deg, Add(u, v)) == Add(RotateZ(deg, u), RotateZ(deg, v))
    ensures RotateZ(deg, Sub(u, v)) == Sub(RotateZ(deg, u), RotateZ(deg, v))
  {
    TurnTimesLinear(Quarters(deg), u, v);
  }

  /** The displacement dist cells ahead of a cursor with heading deg (the cursor's forward matrix applied to (0, dist, 0)). */
  function Forward(deg: int, dist: int): (r: Cell)
    requires IsQuarter(deg)
    ensures r.z == 0 && Abs(r.x) + Abs(r.y) == Abs(dist)
  {
    RotateZ(deg, Cell(0, dist, 0))
  }

  /** Going backward by i goes forward by i the opposite way. */
  lemma ForwardOpposite(deg: int, i: int)
    requires IsQuarter(deg)
    ensures Forward(deg, -i) == Sub(Cell(0, 0, 0), Forward(deg, i))
  {
    RotateZLinear(deg, Cell(0, 0, 0), Cell(0, i, 0));
    assert Sub(Cell(0, 0, 0), Cell(0, i, 0)) == Cell(0, -i, 0);
  }

  // ---------------------------------------------------------------------
  // normalized_XY_to_Zrot on the four axis directions
  // ---------------------------------------------------------------------

  /** A non-zero planar vector along the X or the Y axis. */
  predicate AxisAligned(x: int, y: int) { (x == 0) != (y == 0) }

  /**
   * degrees(atan2(-x, y)) after normalising (x, y): +Y gives 0, +X gives -90,
   * -X gives 90 and -Y gives -180 (atan2 of a negative zero).
   */
  function NormalizedXYToZrot(x: int, y: int): (deg: int)
    requires AxisAligned(x, y)
    ensures IsQuarter(deg) && -180 <= deg <= 90
  {
    if x == 0 then (if y > 0 then 0 else -180)
    else if x > 0 then -90 else 90
  }

  /** One step of |(x, y)| cells straight ahead, turned to the heading of (x, y), is the step (x, y). */
  lemma HeadingStep(x: int, y: int)
    requires AxisAligned(x, y)
    ensures RotateZ(NormalizedXYToZrot(x, y), Cell(0, Abs(x) + Abs(y), 0)) == Cell(x, y, 0)
  {
    HeadingForward(x, y);
  }

  /** Going forward |(x, y)| cells with the heading of (x, y) arrives exactly at (x, y). */
  lemma HeadingForward(x: int, y: int)
    requires AxisAligned(x, y)
    ensures Forward(NormalizedXYToZrot(x, y), Abs(x) + Abs(y)) == Cell(x, y, 0)
  {
    var deg := NormalizedXYToZrot(x, y);
    var d := Abs(x) + Abs(y);
    if x == 0 && y > 0 {
      assert Quarters(deg) == 0;
    } else if x == 0 {
      assert Quarters(deg) == 2;
      assert TurnTimes(1, Cell(0, d, 0)) == Cell(-d, 0, 0);
      assert TurnTimes(2, Cell(0, d, 0)) == Cell(0, -d, 0);
    } else if x > 0 {
      assert Quarters(deg) == 3;
      assert TurnTimes(1, Cell(0, d, 0)) == Cell(-d, 0, 0);
      assert TurnTimes(2, Cell(0, d, 0)) == Cell(0, -d, 0);
      assert TurnTimes(3, Cell(0, d, 0)) == Cell(d, 0, 0);
    } else {
      assert Quarters(deg) == 1;
      assert TurnTimes(1, Cell(0, d, 0)) == Cell(-d, 0, 0);
    }
  }

  // ---------------------------------------------------------------------
  // Python's round (half to even), roundbase and rot_conv
  // ---------------------------------------------------------------------

  /** Python 3 `round` of a float to an int: nearest integer, ties to the even one. */
  function RoundHalfEven(v: real): (r: int)
  {
    var f := v.Floor;
    var frac := v - f as real;
    if frac < 0.5 then f
    else if frac > 0.5 then f + 1
    else if f % 2 == 0 then f
    else f + 1
  }

  /** RoundHalfEven is a nearest integer, and on a tie it is the even neighbour. */
  lemma RoundHalfEvenNearest(v: real, k: int)
    ensures -0.5 <= v - RoundHalfEven(v) as real <= 0.5
    ensures RealAbs(v - RoundHalfEven(v) as real) <= RealAbs(v - k as real)
    ensures RealAbs(v - RoundHalfEven(v) as real) == 0.5 ==> RoundHalfEven(v) % 2 == 0
  {
    var f := v.Floor;
    var r := RoundHalfEven(v);
    assert f as real <= v < f as real + 1.0;
    assert r == f || r == f + 1;
    if k <= f {
      assert v - k as real >= v - f as real;
    } else {
      assert k as real >= f as real + 1.0;
      assert k as real - v >= f as real + 1.0 - v;
    }
  }

  function RealAbs(v: real): real { if v < 0.0 then -v else v }

  /** roundbase(x, base) from testudo3d/tilemap3d.py: x snapped to a nearest multiple of base. */
  function RoundBase(x: real, base: int): (r: int)
    requires base > 0
  {
    base * RoundHalfEven(x / base as real)
  }

  /** Snapping to 90 degrees, the only step the add-on uses, always gives a quarter turn. */
  lemma RoundBaseQuarter(x: real)
    ensures IsQuarter(RoundBase(x, 90))
  {
  }

  /** RoundBase never moves x by more than half a step. */
  lemma RoundBaseClose(x: real, base: int)
    requires base > 0
    ensures RealAbs(x - RoundBase(x, base) as real) <= base as real / 2.0
  {
    var k := RoundHalfEven(x / base as real);
    RoundHalfEvenNearest(x / base as real, k);
    IntProductAsReal(base, k);
    ScaledClose(x, base as real, k as real);
  }

  lemma IntProductAsReal(a: int, b: int)
    ensures (a * b) as real == a as real * b as real
  {
  }

  lemma ScaledClose(x: real, b: real, k: real)
    requires b > 0.0 && -0.5 <= x / b - k <= 0.5
    ensures RealAbs(x - b * k) <= b / 2.0
  {
    var e := x / b - k;
    assert x - b * k == b * e;
    assert -(b / 2.0) <= b * e <= b / 2.0;
  }

  /** Halfway cases go to the even multiple: 45 snaps to 0, 135 to 180, 225 to 180. */
  lemma RoundBaseTies()
    ensures RoundBase(45.0, 90) == 0
    ensures RoundBase(135.0, 90) == 180
    ensures RoundBase(225.0, 90) == 180
    ensures RoundBase(-45.0, 90) == 0
  {
    assert 45.0 / 90.0 == 0.5;
    assert 135.0 / 90.0 == 1.5;
    assert 225.0 / 90.0 == 2.5;
    assert -45.0 / 90.0 == -0.5;
  }

  /**
   * rot_conv from modular_building_tool.py: degrees rounded to an int, then
   * taken modulo 360 with Python's floor semantics (never negative).
   */
  function RotConv(deg: real): (r: int)
    ensures 0 <= r < 360
    ensures (RoundHalfEven(deg) - r) % 360 == 0
  {
    RoundHalfEven(deg) % 360
  }

  // ---------------------------------------------------------------------
  // mid and the box-selection bounds
  // ---------------------------------------------------------------------

  /** mid(a, b, c) = min(max(a, b), max(b, c), max(a, c)): the median of three. */
  function Mid(a: int, b: int, c: int): (r: int)
    ensures r == a || r == b || r == c
    ensures (a <= r && b <= r) || (a <= r && c <= r) || (b <= r && c <= r)
    ensures (a >= r && b >= r) || (a >= r && c >= r) || (b >= r && c >= r)
  {
    Min(Min(Max(a, b), Max(b, c)), Max(a, c))
  }

  function Min(a: int, b: int): int { if a <= b then a else b }

  function Max(a: int, b: int): int { if a >= b then a else b }

  /** mid(lo, i, hi) with lo <= hi clamps i into [lo, hi] and keeps it when it is inside. */
  lemma MidClamps(lo: int, i: int, hi: int)
    requires lo <= hi
    ensures lo <= Mid(lo, i, hi) <= hi
    ensures lo <= i <= hi ==> Mid(lo, i, hi) == i
    ensures i < lo ==> Mid(lo, i, hi) == lo
    ensures i > hi ==> Mid(lo, i, hi) == hi
  {
  }

  /** select_cube_bounds: the componentwise minimum and maximum of the two corners. */
  function SelectCubeBounds(start: Cell, end: Cell): (b: (Cell, Cell))
    ensures b.0.x <= b.1.x && b.0.y <= b.1.y && b.0.z <= b.1.z
    ensures InBox(start, b.0, b.1) && InBox(end, b.0, b.1)
    ensures b.0.x in {start.x, end.x} && b.1.x in {start.x, end.x}
    ensures b.0.y in {start.y, end.y} && b.1.y in {start.y, end.y}
    ensures b.0.z in {start.z, end.z} && b.1.z in {start.z, end.z}
  {
    (Cell(Min(start.x, end.x), Min(start.y, end.y), Min(start.z, end.z)),
     Cell(Max(start.x, end.x), Max(start.y, end.y), Max(start.z, end.z)))
  }

  /** The bounds do not depend on which corner the selection started from. */
  lemma SelectCubeBoundsSymmetric(start: Cell, end: Cell)
    ensures SelectCubeBounds(start, end) == SelectCubeBounds(end, start)
  {
  }

  predicate InBox(c: Cell, lo: Cell, hi: Cell)
  {
    lo.x <= c.x <= hi.x && lo.y <= c.y <= hi.y && lo.z <= c.z <= hi.z
  }

  // ---------------------------------------------------------------------
  // The cells of a box in the order z, then y, then x
  // ---------------------------------------------------------------------

  /** int(round(abs(hi + 1 - lo))): the number of cells along one axis. */
  function Extent(lo: int, hi: int): nat { Abs(hi + 1 - lo) }

  /** The first k cells of the row (y, z) of the box, x ascending. */
  function RowCells(lo: Cell, y: int, z: int, k: nat): (r: seq<Cell>)
    ensures |r| == k
  {
    if k == 0 then [] else RowCells(lo, y, z, k - 1) + [Cell(lo.x + k - 1, lo.y + y, lo.z + z)]
  }

  /** The first j full rows (each nx long) of plane z, y ascending. */
  function PlaneCells(lo: Cell, nx: nat, z: int, j: nat): seq<Cell>
  {
    if j == 0 then [] else PlaneCells(lo, nx, z, j - 1) + RowCells(lo, j - 1, z, nx)
  }

  /** The first i full planes (each ny rows of nx cells), z ascending. */
  function BoxCells(lo: Cell, nx: nat, ny: nat, i: nat): seq<Cell>
  {
    if i == 0 then [] else BoxCells(lo, nx, ny, i - 1) + PlaneCells(lo, nx, i - 1, ny)
  }

  predicate InRow(c: Cell, lo: Cell, y: int, z: int, k: nat)
  {
    c.y == lo.y + y && c.z == lo.z + z && lo.x <= c.x < lo.x + k
  }

  predicate InPlane(c: Cell, lo: Cell, nx: nat, z: int, j: nat)
  {
    c.z == lo.z + z && lo.x <= c.x < lo.x + nx && lo.y <= c.y < lo.y + j
  }

  predicate InBlock(c: Cell, lo: Cell, nx: nat, ny: nat, i: nat)
  {
    lo.x <= c.x < lo.x + nx && lo.y <= c.y < lo.y + ny && lo.z <= c.z < lo.z + i
  }

  /** A row lists each cell of its x-range once, and nothing else. */
  lemma {:induction false} RowCellsExact(lo: Cell, y: int, z: int, k: nat)
    ensures NoDuplicates(RowCells(lo, y, z, k))
    ensures forall c :: c in RowCells(lo, y, z, k) <==> InRow(c, lo, y, z, k)
  {
    if k > 0 {
      var prev, last := RowCells(lo, y, z, k - 1), [Cell(lo.x + k - 1, lo.y + y, lo.z + z)];
      RowCellsExact(lo, y, z, k - 1);
      assert RowCells(lo, y, z, k) == prev + last;
      forall c ensures c in prev + last <==> InRow(c, lo, y, z, k) {
        InConcat(prev, last, c);
      }
      ConcatNoDuplicates(prev, last);
    }
  }

  /** The first j rows of a plane list each cell of that rectangle once, and nothing else. */
  lemma {:induction false} PlaneCellsExact(lo: Cell, nx: nat, z: int, j: nat)
    ensures NoDuplicates(PlaneCells(lo, nx, z, j))
    ensures forall c :: c in PlaneCells(lo, nx, z, j) <==> InPlane(c, lo, nx, z, j)
  {
    if j > 0 {
      var prev, row := PlaneCells(lo, nx, z, j - 1), RowCells(lo, j - 1, z, nx);
      PlaneCellsExact(lo, nx, z, j - 1);
      RowCellsExact(lo, j - 1, z, nx);
      assert PlaneCells(lo, nx, z, j) == prev + row;
      forall c ensures c in prev + row <==> InPlane(c, lo, nx, z, j) {
        InConcat(prev, row, c);
      }
      ConcatNoDuplicates(prev, row);
    }
  }

  /** The first i planes of a box list each cell of that block once, and nothing else. */
  lemma {:induction false} BoxCellsExact(lo: Cell, nx: nat, ny: nat, i: nat)
    ensures NoDuplicates(BoxCells(lo, nx, ny, i))
    ensures forall c :: c in BoxCells(lo, nx, ny, i) <==> InBlock(c, lo, nx, ny, i)
  {
    if i > 0 {
      var prev, plane := BoxCells(lo, nx, ny, i - 1), PlaneCells(lo, nx, i - 1, ny);
      BoxCellsExact(lo, nx, ny, i - 1);
      PlaneCellsExact(lo, nx, i - 1, ny);
      assert BoxCells(lo, nx, ny, i) == prev + plane;
      forall c ensures c in prev + plane <==> InBlock(c, lo, nx, ny, i) {
        InConcat(prev, plane, c);
      }
      ConcatNoDuplicates(prev, plane);
    }
  }

  lemma InConcat<T>(a: seq<T>, b: seq<T>, x: T)
    ensures x in a + b <==> x in a || x in b
  {
  }

  /** Every cell of the selection box [lo, hi], in the order do_region visits them. */
  function RegionCells(lo: Cell, hi: Cell): seq<Cell>
  {
    BoxCells(lo, Extent(lo.x, hi.x), Extent(lo.y, hi.y), Extent(lo.z, hi.z))
  }

  lemma {:induction false} RowCellsAt(lo: Cell, y: int, z: int, k: nat, n: nat)
    requires n < k
    ensures |RowCells(lo, y, z, k)| == k
    ensures RowCells(lo, y, z, k)[n] == Cell(lo.x + n, lo.y + y, lo.z + z)
  {
    if n < k - 1 {
      RowCellsAt(lo, y, z, k - 1, n);
    } else if k > 1 {
      RowCellsAt(lo, y, z, k - 1, 0);
    }
  }

  predicate NoDuplicates<T(==)>(s: seq<T>)
  {
    forall i, j :: 0 <= i < j < |s| ==> s[i] != s[j]
  }

  lemma ConcatNoDuplicates<T>(a: seq<T>, b: seq<T>)
    requires NoDuplicates(a) && NoDuplicates(b)
    requires forall t :: t in a ==> t !in b
    ensures NoDuplicates(a + b)
  {
    forall i, j | 0 <= i < j < |a + b| ensures (a + b)[i] != (a + b)[j] {
      if j < |a| {
      } else if i >= |a| {
        assert (a + b)[i] == b[i - |a|] && (a + b)[j] == b[j - |a|];
      } else {
        assert (a + b)[i] in a && (a + b)[j] in b;
      }
    }
  }

  /**
   * The region of a normalised box lists every cell of the box, and only those,
   * each exactly once.
   */
  lemma RegionCellsExact(lo: Cell, hi: Cell, c: Cell)
    requires lo.x <= hi.x && lo.y <= hi.y && lo.z <= hi.z
    ensures c in RegionCells(lo, hi) <==> InBox(c, lo, hi)
    ensures NoDuplicates(RegionCells(lo, hi))
  {
    BoxCellsExact(lo, Extent(lo.x, hi.x), Extent(lo.y, hi.y), Extent(lo.z, hi.z));
  }

  /** The region of a non-empty box starts at its lowest corner. */
  lemma RegionCellsStartsAtMin(lo: Cell, hi: Cell)
    requires lo.x <= hi.x && lo.y <= hi.y && lo.z <= hi.z
    ensures |RegionCells(lo, hi)| > 0 && RegionCells(lo, hi)[0] == lo
  {
    var nx, ny, nz := Extent(lo.x, hi.x), Extent(lo.y, hi.y), Extent(lo.z, hi.z);
    BoxCellsFirst(lo, nx, ny, nz);
  }

  lemma {:induction false} PlaneCellsFirst(lo: Cell, nx: nat, z: int, j: nat)
    requires nx > 0 && j > 0
    ensures |PlaneCells(lo, nx, z, j)| > 0 && PlaneCells(lo, nx, z, j)[0] == Cell(lo.x, lo.y, lo.z + z)
  {
    var prev, row := PlaneCells(lo, nx, z, j - 1), RowCells(lo, j - 1, z, nx);
    if j == 1 {
      RowCellsAt(lo, 0, z, nx, 0);
      assert prev == [];
      FirstOfConcat(prev, row);
    } else {
      PlaneCellsFirst(lo, nx, z, j - 1);
      KeepsFirst(prev, row);
    }
  }

  lemma {:induction false} BoxCellsFirst(lo: Cell, nx: nat, ny: nat, i: nat)
    requires nx > 0 && ny > 0 && i > 0
    ensures |BoxCells(lo, nx, ny, i)| > 0 && BoxCells(lo, nx, ny, i)[0] == lo
  {
    var prev, plane := BoxCells(lo, nx, ny, i - 1), PlaneCells(lo, nx, i - 1, ny);
    if i == 1 {
      PlaneCellsFirst(lo, nx, 0, ny);
      assert prev == [];
      FirstOfConcat(prev, plane);
    } else {
      BoxCellsFirst(lo, nx, ny, i - 1);
      KeepsFirst(prev, plane);
    }
  }

  lemma FirstOfConcat<T>(a: seq<T>, b: seq<T>)
    requires a == [] && |b| > 0
    ensures |a + b| > 0 && (a + b)[0] == b[0]
  {
  }

  lemma KeepsFirst<T>(a: seq<T>, b: seq<T>)
    requires |a| > 0
    ensures |a + b| > 0 && (a + b)[0] == a[0]
  {
  }
}
