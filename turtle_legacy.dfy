// Turtle graphics over the first tile-map editor (tilemap3d/turtle3d.py): the
// turtle's position is the editor's cursor, its heading the cursor's heading,
// and its pen the paint flag. `line` rasterises a segment between whole cells
// (Bresenham's algorithm), `circle` plots a midpoint circle by eight-way
// symmetry, and each plotted point moves the cursor there, on the ground
// layer, and paints the active tile.
//
// The points a line or a circle plots are given first as functions, with their
// shape proved as lemmas; the Turtle3D class below plots them in place.

module TurtleLegacy {
  import opened Wrappers
  import opened Geometry
  import opened Scene
  import opened Tilemap
  import opened TilemapLegacy

  /** A plotted point (x, y); plot puts the cursor at (x, y, 0). */
  type Point = (int, int)

  /** The cells of a list of points, on the ground layer. */
  function Ground(pts: seq<Point>): (r: seq<Cell>)
    ensures |r| == |pts|
    ensures forall k :: 0 <= k < |pts| ==> r[k] == Cell(pts[k].0, pts[k].1, 0)
  {
    if pts == [] then [] else Ground(pts[..|pts| - 1]) + [Cell(pts[|pts| - 1].0, pts[|pts| - 1].1, 0)]
  }

  // ---------------------------------------------------------------------
  // line
  // ---------------------------------------------------------------------

  /** The step of an axis-aligned run: 1 toward a larger end, otherwise -1. */
  function RunStep(d: int): int { if d > 0 then 1 else -1 }

  /** range(a, b + step, step) with step = RunStep(b - a): every value from a to b inclusive. */
  function Run(a: int, b: int): (r: seq<int>)
    ensures |r| == Abs(b - a) + 1
    ensures forall i :: 0 <= i < |r| ==> r[i] == a + i * RunStep(b - a)
    decreases Abs(b - a)
  {
    if a == b then [a]
    else
      var rest := Run(a + RunStep(b - a), b);
      assert forall i :: 0 <= i < |rest| ==> rest[i] == a + (i + 1) * RunStep(b - a);
      [a] + rest
  }

  /**
   * The loop of Bresenham's algorithm along a major axis, n steps: each step moves
   * the major coordinate by stepMajor and, when the error term is not negative, the
   * minor one by stepMinor. Points are (minor, major).
   */
  function Steps(minor: int, major: int, frac: int, stepMinor: int, stepMajor: int, dMinor: int, dMajor: int, n: nat)
    : (r: seq<Point>)
    ensures |r| == n
    decreases n
  {
    if n == 0 then []
    else
      var minor' := if frac >= 0 then minor + stepMinor else minor;
      var frac' := (if frac >= 0 then frac - dMajor else frac) + dMinor;
      [(minor', major + stepMajor)] + Steps(minor', major + stepMajor, frac', stepMinor, stepMajor, dMinor, dMajor, n - 1)
  }

  /** Each step moves the major coordinate by exactly stepMajor. */
  lemma {:induction false} StepsMajor(minor: int, major: int, frac: int, sm: int, sM: int, dm: int, dM: int, n: nat)
    ensures forall i :: 0 <= i < n ==> Steps(minor, major, frac, sm, sM, dm, dM, n)[i].1 == major + (i + 1) * sM
    decreases n
  {
    if n > 0 {
      var minor' := if frac >= 0 then minor + sm else minor;
      var frac' := (if frac >= 0 then frac - dM else frac) + dm;
      var rest := Steps(minor', major + sM, frac', sm, sM, dm, dM, n - 1);
      var r := Steps(minor, major, frac, sm, sM, dm, dM, n);
      assert r == [(minor', major + sM)] + rest;
      StepsMajor(minor', major + sM, frac', sm, sM, dm, dM, n - 1);
      forall i | 0 <= i < n ensures r[i].1 == major + (i + 1) * sM {
        if i > 0 {
          var j := i - 1;
          assert r[i] == rest[j];
          assert rest[j].1 == major + sM + (j + 1) * sM;
          assert (i + 1) * sM == sM + i * sM;
        }
      }
    }
  }

  /** Each step moves the minor coordinate by 0 or stepMinor, the first one included. */
  lemma {:induction false} StepsMinor(minor: int, major: int, frac: int, sm: int, sM: int, dm: int, dM: int, n: nat)
    ensures var r := Steps(minor, major, frac, sm, sM, dm, dM, n);
      (n > 0 ==> r[0].0 - minor in {0, sm}) &&
      forall i :: 0 < i < n ==> r[i].0 - r[i - 1].0 in {0, sm}
    decreases n
  {
    if n > 0 {
      var minor' := if frac >= 0 then minor + sm else minor;
      var frac' := (if frac >= 0 then frac - dM else frac) + dm;
      var rest := Steps(minor', major + sM, frac', sm, sM, dm, dM, n - 1);
      var r := Steps(minor, major, frac, sm, sM, dm, dM, n);
      assert r == [(minor', major + sM)] + rest;
      StepsMinor(minor', major + sM, frac', sm, sM, dm, dM, n - 1);
      forall i | 0 < i < n ensures r[i].0 - r[i - 1].0 in {0, sm} {
        assert r[i] == rest[i - 1];
        if i > 1 { assert r[i - 1] == rest[i - 2]; }
      }
    }
  }

  /** Points with their coordinates exchanged. */
  function Swap(pts: seq<Point>): (r: seq<Point>)
    ensures |r| == |pts|
    ensures forall k :: 0 <= k < |pts| ==> r[k] == (pts[k].1, pts[k].0)
  {
    seq(|pts|, k requires 0 <= k < |pts| => (pts[k].1, pts[k].0))
  }

  /** The points a vertical (dx == 0) or horizontal (dy == 0) line plots, start and end included. */
  function AxisLine(x1: int, y1: int, x2: int, y2: int): (r: seq<Point>)
    requires x1 == x2 || y1 == y2
  {
    if x2 - x1 == 0 then
      var ys := Run(y1, y2); seq(|ys|, k requires 0 <= k < |ys| => (x1, ys[k]))
    else
      var xs := Run(x1, x2); seq(|xs|, k requires 0 <= k < |xs| => (xs[k], y1))
  }

  /** The steep branch (0 < |dx| <= |dy|): |dy| steps along y from (x1, y1), the start not plotted. */
  function SteepLine(x1: int, y1: int, x2: int, y2: int): seq<Point>
  {
    var adx, ady := Abs(x2 - x1), Abs(y2 - y1);
    Steps(x1, y1, adx - ady / 2, RunStep(x2 - x1), RunStep(y2 - y1), adx, ady, ady)
  }

  /** The shallow branch (|dx| > |dy| > 0) as evidently intended: the steep branch with x and y exchanged. */
  function ShallowLine(x1: int, y1: int, x2: int, y2: int): seq<Point>
  {
    var adx, ady := Abs(x2 - x1), Abs(y2 - y1);
    Swap(Steps(y1, x1, ady - adx / 2, RunStep(y2 - y1), RunStep(x2 - x1), ady, adx, adx))
  }

  /**
   * line(x1, y1, x2, y2) on whole cells (floor is the identity there), with the
   * shallow branch's loop running from x1 to x2 and stepping y1 by stepy.
   */
  function LinePoints(x1: int, y1: int, x2: int, y2: int): seq<Point>
  {
    if x1 == x2 || y1 == y2 then AxisLine(x1, y1, x2, y2)
    else if Abs(x2 - x1) > Abs(y2 - y1) then ShallowLine(x1, y1, x2, y2)
    else SteepLine(x1, y1, x2, y2)
  }

  /**
   * line as written: in the shallow branch the loop guard `x1 != x1` is false on
   * entry, so its body (which would also set y1 to y2 + stepy) never runs.
   */
  function LinePointsAsWritten(x1: int, y1: int, x2: int, y2: int): seq<Point>
  {
    if x1 == x2 || y1 == y2 then AxisLine(x1, y1, x2, y2)
    else if Abs(x2 - x1) > Abs(y2 - y1) then []
    else SteepLine(x1, y1, x2, y2)
  }

  /** A vertical line plots every y from y1 to y2 inclusive at x1; a zero-length line plots its one cell. */
  lemma LineVertical(x: int, y1: int, y2: int)
    ensures var r := LinePoints(x, y1, x, y2);
      |r| == Abs(y2 - y1) + 1 && r[0] == (x, y1) && r[|r| - 1] == (x, y2) &&
      forall k :: 0 <= k < |r| ==> r[k] == (x, y1 + k * RunStep(y2 - y1))
    ensures LinePoints(x, y1, x, y1) == [(x, y1)]
  {
    var r := LinePoints(x, y1, x, y2);
    assert r[|r| - 1] == (x, y1 + (|r| - 1) * RunStep(y2 - y1));
  }

  /** A horizontal line plots every x from x1 to x2 inclusive at y1. */
  lemma LineHorizontal(x1: int, x2: int, y: int)
    requires x1 != x2
    ensures var r := LinePoints(x1, y, x2, y);
      |r| == Abs(x2 - x1) + 1 && r[0] == (x1, y) && r[|r| - 1] == (x2, y) &&
      forall k :: 0 <= k < |r| ==> r[k] == (x1 + k * RunStep(x2 - x1), y)
  {
    var r := LinePoints(x1, y, x2, y);
    assert r[|r| - 1] == (x1 + (|r| - 1) * RunStep(x2 - x1), y);
  }

  // The error-term bookkeeping of Steps: how often the minor coordinate moves, and the final error.

  function MinorMoves(frac: int, dMinor: int, dMajor: int, n: nat): nat
    decreases n
  {
    if n == 0 then 0
    else (if frac >= 0 then 1 else 0) + MinorMoves((if frac >= 0 then frac - dMajor else frac) + dMinor, dMinor, dMajor, n - 1)
  }

  function FinalFrac(frac: int, dMinor: int, dMajor: int, n: nat): int
    decreases n
  {
    if n == 0 then frac
    else FinalFrac((if frac >= 0 then frac - dMajor else frac) + dMinor, dMinor, dMajor, n - 1)
  }

  /** The last point's minor coordinate has moved once per non-negative error term. */
  lemma {:induction false} StepsLast(minor: int, major: int, frac: int, sm: int, sM: int, dm: int, dM: int, n: nat)
    requires n > 0
    ensures Steps(minor, major, frac, sm, sM, dm, dM, n)[n - 1].0 == minor + sm * MinorMoves(frac, dm, dM, n)
    decreases n
  {
    var minor' := if frac >= 0 then minor + sm else minor;
    var frac' := (if frac >= 0 then frac - dM else frac) + dm;
    var rest := Steps(minor', major + sM, frac', sm, sM, dm, dM, n - 1);
    var r := Steps(minor, major, frac, sm, sM, dm, dM, n);
    assert r == [(minor', major + sM)] + rest;
    var c := MinorMoves(frac', dm, dM, n - 1);
    if n > 1 {
      StepsLast(minor', major + sM, frac', sm, sM, dm, dM, n - 1);
      assert r[n - 1] == rest[n - 2];
    }
    if frac >= 0 {
      assert MinorMoves(frac, dm, dM, n) == 1 + c;
      assert sm * (1 + c) == sm + sm * c;
    } else {
      assert MinorMoves(frac, dm, dM, n) == c;
    }
  }

  /** Every minor move takes dMajor from the error term and every step adds dMinor. */
  lemma {:induction false} MinorMovesAccount(frac: int, dm: int, dM: int, n: nat)
    ensures MinorMoves(frac, dm, dM, n) * dM == frac + n * dm - FinalFrac(frac, dm, dM, n)
    decreases n
  {
    if n > 0 {
      var c0 := if frac >= 0 then 1 else 0;
      var frac' := frac - c0 * dM + dm;
      assert frac' == (if frac >= 0 then frac - dM else frac) + dm;
      MinorMovesAccount(frac', dm, dM, n - 1);
      var c := MinorMoves(frac', dm, dM, n - 1);
      assert (c0 + c) * dM == c0 * dM + c * dM;
      assert n * dm == dm + (n - 1) * dm;
    }
  }

  /** With 0 < dMinor <= dMajor the error term stays in [dMinor - dMajor, dMinor). */
  lemma {:induction false} FinalFracBounds(frac: int, dm: int, dM: int, n: nat)
    requires 0 < dm <= dM && dm - dM <= frac < dm
    ensures dm - dM <= FinalFrac(frac, dm, dM, n) < dm
    decreases n
  {
    if n > 0 {
      FinalFracBounds((if frac >= 0 then frac - dM else frac) + dm, dm, dM, n - 1);
    }
  }

  lemma MultipleInOpenRange(a: int, d: int)
    requires d > 0 && -d < a * d < d
    ensures a == 0
  {
  }

  /**
   * Along the major axis Bresenham's loop of dMajor steps, started with the error
   * term dMinor - dMajor / 2, moves the minor coordinate exactly dMinor times.
   */
  lemma StepsMinorTotal(dm: int, dM: int)
    requires 0 < dm <= dM
    ensures MinorMoves(dm - dM / 2, dm, dM, dM) == dm
  {
    var f0 := dm - dM / 2;
    if dM == 1 {
      assert MinorMoves(f0, dm, dM, 1) == 1;
    } else {
      FinalFracBounds(f0, dm, dM, dM);
      MinorMovesAccount(f0, dm, dM, dM);
      var c := MinorMoves(f0, dm, dM, dM);
      var f := FinalFrac(f0, dm, dM, dM);
      assert (c - dm) * dM == c * dM - dm * dM;
      assert dM * dm == dm * dM;
      MultipleInOpenRange(c - dm, dM);
    }
  }

  /**
   * A steep line (0 < |dx| <= |dy|) plots exactly |dy| cells, the start excluded:
   * y moves one step toward y2 each time, x at most one step toward x2, and the
   * last cell is (x2, y2).
   */
  lemma LineSteep(x1: int, y1: int, x2: int, y2: int)
    requires 0 < Abs(x2 - x1) <= Abs(y2 - y1)
    ensures var r := LinePoints(x1, y1, x2, y2);
      |r| == Abs(y2 - y1) && r[|r| - 1] == (x2, y2) &&
      (forall i :: 0 <= i < |r| ==> r[i].1 == y1 + (i + 1) * RunStep(y2 - y1)) &&
      r[0].0 - x1 in {0, RunStep(x2 - x1)} &&
      (forall i :: 0 < i < |r| ==> r[i].0 - r[i - 1].0 in {0, RunStep(x2 - x1)})
  {
    var adx: nat, ady: nat := Abs(x2 - x1), Abs(y2 - y1);
    assert LinePoints(x1, y1, x2, y2) == Steps(x1, y1, adx - ady / 2, RunStep(x2 - x1), RunStep(y2 - y1), adx, ady, ady);
    StepsLine(x1, y1, RunStep(x2 - x1), RunStep(y2 - y1), adx, ady);
    RunStepAbs(x2 - x1);
    RunStepAbs(y2 - y1);
  }

  /**
   * A shallow line (|dx| > |dy| > 0), as evidently intended, plots exactly |dx| cells:
   * x moves one step toward x2 each time, y at most one step, and the last cell is (x2, y2).
   */
  lemma LineShallow(x1: int, y1: int, x2: int, y2: int)
    requires 0 < Abs(y2 - y1) < Abs(x2 - x1)
    ensures var r := LinePoints(x1, y1, x2, y2);
      |r| == Abs(x2 - x1) && r[|r| - 1] == (x2, y2) &&
      (forall i :: 0 <= i < |r| ==> r[i].0 == x1 + (i + 1) * RunStep(x2 - x1)) &&
      r[0].1 - y1 in {0, RunStep(y2 - y1)} &&
      (forall i :: 0 < i < |r| ==> r[i].1 - r[i - 1].1 in {0, RunStep(y2 - y1)})
  {
    var adx: nat, ady: nat := Abs(x2 - x1), Abs(y2 - y1);
    var s := Steps(y1, x1, ady - adx / 2, RunStep(y2 - y1), RunStep(x2 - x1), ady, adx, adx);
    var r := LinePoints(x1, y1, x2, y2);
    assert r == Swap(s);
    StepsLine(y1, x1, RunStep(y2 - y1), RunStep(x2 - x1), ady, adx);
    RunStepAbs(x2 - x1);
    RunStepAbs(y2 - y1);
    assert r[adx - 1] == (s[adx - 1].1, s[adx - 1].0);
    forall i | 0 <= i < |r| ensures r[i].0 == x1 + (i + 1) * RunStep(x2 - x1) {
      assert r[i].0 == s[i].1;
    }
    assert r[0].1 == s[0].0;
    forall i | 0 < i < |r| ensures r[i].1 - r[i - 1].1 in {0, RunStep(y2 - y1)} {
      assert r[i].1 == s[i].0 && r[i - 1].1 == s[i - 1].0;
    }
  }

  /**
   * A whole run of the line loop, |major| steps long: the major coordinate moves one
   * step each time, the minor one at most one step, and the run ends at
   * (minor + sm * dm, major + sM * dM).
   */
  lemma StepsLine(minor: int, major: int, sm: int, sM: int, dm: int, dM: int)
    requires 0 < dm <= dM
    ensures var r := Steps(minor, major, dm - dM / 2, sm, sM, dm, dM, dM);
      |r| == dM && r[dM - 1] == (minor + sm * dm, major + dM * sM) &&
      (forall i :: 0 <= i < dM ==> r[i].1 == major + (i + 1) * sM) &&
      r[0].0 - minor in {0, sm} &&
      (forall i :: 0 < i < dM ==> r[i].0 - r[i - 1].0 in {0, sm})
  {
    StepsMajor(minor, major, dm - dM / 2, sm, sM, dm, dM, dM);
    StepsMinor(minor, major, dm - dM / 2, sm, sM, dm, dM, dM);
    StepsLast(minor, major, dm - dM / 2, sm, sM, dm, dM, dM);
    StepsMinorTotal(dm, dM);
  }

  /** One step toward the far end, |d| times, covers d. */
  lemma RunStepAbs(d: int)
    requires d != 0
    ensures RunStep(d) * Abs(d) == d && Abs(d) * RunStep(d) == d
  {
  }

  /** As written, a shallow line plots nothing, while the intended line plots |dx| cells ending at (x2, y2). */
  lemma ShallowLineLost(x1: int, y1: int, x2: int, y2: int)
    requires 0 < Abs(y2 - y1) < Abs(x2 - x1)
    ensures LinePointsAsWritten(x1, y1, x2, y2) == []
    ensures |LinePoints(x1, y1, x2, y2)| == Abs(x2 - x1) > 0
  {
    LineShallow(x1, y1, x2, y2);
  }

  /** line(0, 0, 3, 1): as written no cell is painted; intended are (1, 1), (2, 1) and (3, 1). */
  lemma ShallowLineExample()
    ensures LinePointsAsWritten(0, 0, 3, 1) == []
    ensures LinePoints(0, 0, 3, 1) == [(1, 1), (2, 1), (3, 1)]
  {
    var s := Steps(0, 0, 0, 1, 1, 1, 3, 3);
    assert Steps(1, 2, -1, 1, 1, 1, 3, 1) == [(1, 3)];
    assert Steps(1, 1, -2, 1, 1, 1, 3, 2) == [(1, 2), (1, 3)];
    assert s == [(1, 1), (1, 2), (1, 3)];
  }

  // ---------------------------------------------------------------------
  // The loop state of line's Bresenham branches
  // ---------------------------------------------------------------------

  /** One pass of the loop body on (minor, major, frac). */
  function NextState(st: (int, int, int), sm: int, sM: int, dm: int, dM: int): (int, int, int)
  {
    ((if st.2 >= 0 then st.0 + sm else st.0), st.1 + sM, (if st.2 >= 0 then st.2 - dM else st.2) + dm)
  }

  /** The loop variables (minor, major, frac) after n passes. */
  function StepState(minor: int, major: int, frac: int, sm: int, sM: int, dm: int, dM: int, n: nat): (int, int, int)
    decreases n
  {
    if n == 0 then (minor, major, frac)
    else
      var nx := NextState((minor, major, frac), sm, sM, dm, dM);
      StepState(nx.0, nx.1, nx.2, sm, sM, dm, dM, n - 1)
  }

  /** One more pass plots the point the loop variables have reached. */
  lemma {:induction false} StepsSnoc(minor: int, major: int, frac: int, sm: int, sM: int, dm: int, dM: int, n: nat)
    ensures StepState(minor, major, frac, sm, sM, dm, dM, n + 1) == NextState(StepState(minor, major, frac, sm, sM, dm, dM, n), sm, sM, dm, dM)
    ensures var st := StepState(minor, major, frac, sm, sM, dm, dM, n + 1);
      Steps(minor, major, frac, sm, sM, dm, dM, n + 1) == Steps(minor, major, frac, sm, sM, dm, dM, n) + [(st.0, st.1)]
    decreases n
  {
    var nx := NextState((minor, major, frac), sm, sM, dm, dM);
    if n > 0 {
      StepsSnoc(nx.0, nx.1, nx.2, sm, sM, dm, dM, n - 1);
      var st := StepState(minor, major, frac, sm, sM, dm, dM, n + 1);
      var rest := Steps(nx.0, nx.1, nx.2, sm, sM, dm, dM, n - 1);
      assert Steps(minor, major, frac, sm, sM, dm, dM, n + 1) == [(nx.0, nx.1)] + (rest + [(st.0, st.1)]);
      assert Steps(minor, major, frac, sm, sM, dm, dM, n) == [(nx.0, nx.1)] + rest;
    }
  }

  /** After n passes the major coordinate has moved n steps. */
  lemma StepStateMajor(minor: int, major: int, frac: int, sm: int, sM: int, dm: int, dM: int, n: nat)
    ensures StepState(minor, major, frac, sm, sM, dm, dM, n).1 == major + n * sM
  {
    if n > 0 {
      StepsSnoc(minor, major, frac, sm, sM, dm, dM, n - 1);
      StepsMajor(minor, major, frac, sm, sM, dm, dM, n);
      var r := Steps(minor, major, frac, sm, sM, dm, dM, n);
      assert r[n - 1].1 == major + ((n - 1) + 1) * sM;
    }
  }

  /** A unit step reaches a target d steps away after exactly d passes. */
  lemma UnitStepsReach(a: int, b: int, k: nat)
    requires a != b && k <= Abs(b - a)
    ensures (a + k * RunStep(b - a) == b) <==> k == Abs(b - a)
  {
  }

  // ---------------------------------------------------------------------
  // circle
  // ---------------------------------------------------------------------

  /** One pass of circle's loop on (x, y, err): y always steps up, x steps down when the error is positive. */
  function CircleNext(x: int, y: int, err: int): (r: (int, int, int))
    ensures r.1 == y + 1 && r.0 in {x, x - 1}
  {
    var e1 := if err <= 0 then err + 2 * (y + 1) + 1 else err;
    if e1 > 0 then (x - 1, y + 1, e1 - (2 * (x - 1) + 1)) else (x, y + 1, e1)
  }

  /** The (x, y) pairs circle's loop plots around, started from x, y and err. */
  function CircleArcs(x: int, y: int, err: int): (arcs: seq<(int, int)>)
    decreases x - y + 1
  {
    if x < y then []
    else
      var nx := CircleNext(x, y, err);
      [(x, y)] + CircleArcs(nx.0, nx.1, nx.2)
  }

  /**
   * The k-th pass plots around (x, y + k), with y + k <= x' <= x for the x' it has
   * reached: the loop runs at most x - y + 1 times.
   */
  lemma {:induction false} CircleArcsShape(x: int, y: int, err: int)
    ensures var arcs := CircleArcs(x, y, err);
      |arcs| <= Max(x - y + 1, 0) &&
      forall k :: 0 <= k < |arcs| ==> arcs[k].1 == y + k && arcs[k].1 <= arcs[k].0 <= x
    decreases x - y + 1
  {
    if x >= y {
      var nx := CircleNext(x, y, err);
      CircleArcsShape(nx.0, nx.1, nx.2);
      var rest := CircleArcs(nx.0, nx.1, nx.2);
      var arcs := CircleArcs(x, y, err);
      assert arcs == [(x, y)] + rest;
      forall k | 0 < k < |arcs| ensures arcs[k].1 == y + k && arcs[k].1 <= arcs[k].0 <= x {
        assert arcs[k] == rest[k - 1];
      }
    }
  }

  /** circle(radius) runs at most radius + 1 passes, each around a pair with 0 <= y <= x <= radius. */
  lemma CircleBounds(radius: int)
    ensures var arcs := CircleArcs(radius, 0, 0);
      |arcs| <= Max(radius + 1, 0) &&
      forall k :: 0 <= k < |arcs| ==> 0 <= arcs[k].1 <= arcs[k].0 <= radius
    ensures radius >= 0 ==> |CircleArcs(radius, 0, 0)| > 0 && CircleArcs(radius, 0, 0)[0] == (radius, 0)
  {
    CircleArcsShape(radius, 0, 0);
  }

  /** The eight reflections of (x, y) about (x0, y0), in the order circle plots them. */
  function Octants(x0: int, y0: int, a: (int, int)): (r: seq<Point>)
    ensures |r| == 8
  {
    var (x, y) := a;
    [(x0 + x, y0 + y), (x0 + y, y0 + x), (x0 - y, y0 + x), (x0 - x, y0 + y),
     (x0 - x, y0 - y), (x0 - y, y0 - x), (x0 + y, y0 - x), (x0 + x, y0 - y)]
  }

  /** The eight points are symmetric about both axes through the centre and about its diagonal. */
  lemma OctantsSymmetric(x0: int, y0: int, a: (int, int), p: Point)
    requires p in Octants(x0, y0, a)
    ensures (2 * x0 - p.0, p.1) in Octants(x0, y0, a)
    ensures (p.0, 2 * y0 - p.1) in Octants(x0, y0, a)
    ensures (x0 + (p.1 - y0), y0 + (p.0 - x0)) in Octants(x0, y0, a)
    ensures Max(Abs(p.0 - x0), Abs(p.1 - y0)) == Max(Abs(a.0), Abs(a.1))
  {
    var o := Octants(x0, y0, a);
    // Each point's mirror images, by the point's place in the list.
    var mx, my, md := [3, 2, 1, 0, 7, 6, 5, 4], [7, 6, 5, 4, 3, 2, 1, 0], [1, 0, 7, 6, 5, 4, 3, 2];
    var i :| 0 <= i < 8 && o[i] == p;
    assert o[mx[i]] == (2 * x0 - p.0, p.1);
    assert o[my[i]] == (p.0, 2 * y0 - p.1);
    assert o[md[i]] == (x0 + (p.1 - y0), y0 + (p.0 - x0));
  }

  /** The points a run of passes plots, pass by pass. */
  function CirclePoints(x0: int, y0: int, arcs: seq<(int, int)>): (r: seq<Point>)
    ensures |r| == 8 * |arcs|
  {
    if arcs == [] then [] else CirclePoints(x0, y0, arcs[..|arcs| - 1]) + Octants(x0, y0, arcs[|arcs| - 1])
  }

  /** Every point circle(radius) plots is a reflection of a pair 0 <= y <= x <= radius, so within radius of the centre on each axis. */
  lemma {:induction false} CirclePointsNear(x0: int, y0: int, arcs: seq<(int, int)>, radius: int)
    requires forall k :: 0 <= k < |arcs| ==> 0 <= arcs[k].1 <= arcs[k].0 <= radius
    ensures forall p :: p in CirclePoints(x0, y0, arcs) ==> Abs(p.0 - x0) <= radius && Abs(p.1 - y0) <= radius
  {
    if arcs != [] {
      var init := arcs[..|arcs| - 1];
      CirclePointsNear(x0, y0, init, radius);
      forall p | p in Octants(x0, y0, arcs[|arcs| - 1]) ensures Abs(p.0 - x0) <= radius && Abs(p.1 - y0) <= radius {
        OctantsSymmetric(x0, y0, arcs[|arcs| - 1], p);
      }
    }
  }

  // ---------------------------------------------------------------------
  // Plotting lists of points
  // ---------------------------------------------------------------------

  /** Step i of a trace: ws[i + 1] is ws[i] with pts[i] plotted. */
  ghost predicate TraceStep(active: Option<string>, rot: int, ws: seq<World>, pts: seq<Point>, i: int)
  {
    0 <= i < |pts| && i + 1 < |ws| &&
    ws[i + 1] == Draw(ws[i], active, Cell(pts[i].0, pts[i].1, 0), rot, true, false)
  }

  /** ws is the world before any of pts is plotted and after each of them in turn. */
  ghost predicate Traced(w0: World, active: Option<string>, rot: int, ws: seq<World>, pts: seq<Point>)
  {
    |ws| == |pts| + 1 && ws[0] == w0 &&
    forall i :: 0 <= i < |pts| ==> TraceStep(active, rot, ws, pts, i)
  }

  /** The last world of a trace is the points drawn in turn over the first. */
  lemma {:induction false} TracedDraws(w0: World, active: Option<string>, rot: int, ws: seq<World>, pts: seq<Point>)
    requires Traced(w0, active, rot, ws, pts)
    ensures ws[|pts|] == DrawCells(w0, active, rot, Ground(pts), true, false)
    decreases |pts|
  {
    if pts != [] {
      var n := |pts| - 1;
      var ws', pts' := ws[..n + 1], pts[..n];
      forall i | 0 <= i < n ensures TraceStep(active, rot, ws', pts', i) {
        assert TraceStep(active, rot, ws, pts, i);
      }
      TracedDraws(w0, active, rot, ws', pts');
      assert TraceStep(active, rot, ws, pts, n);
      assert Ground(pts)[..n] == Ground(pts[..n]);
    }
  }

  /** A trace extended by one more plot. */
  lemma TracedSnoc(w0: World, active: Option<string>, rot: int, ws: seq<World>, pts: seq<Point>, p: Point, w: World)
    requires Traced(w0, active, rot, ws, pts)
    requires w == Draw(ws[|pts|], active, Cell(p.0, p.1, 0), rot, true, false)
    ensures Traced(w0, active, rot, ws + [w], pts + [p])
  {
    forall i | 0 <= i < |pts| + 1 ensures TraceStep(active, rot, ws + [w], pts + [p], i) {
      if i < |pts| {
        assert TraceStep(active, rot, ws, pts, i);
      }
    }
  }

  /** Exchanging the coordinates of one more point. */
  lemma SwapSnoc(pts: seq<Point>, p: Point)
    ensures Swap(pts + [p]) == Swap(pts) + [(p.1, p.0)]
  {
  }

  /** Drawing over two lists in turn is drawing over their concatenation. */
  lemma {:induction false} DrawCellsAppend(w: World, active: Option<string>, rot: int, a: seq<Cell>, b: seq<Cell>,
                                           paint: bool, delete: bool)
    ensures DrawCells(w, active, rot, a + b, paint, delete)
         == DrawCells(DrawCells(w, active, rot, a, paint, delete), active, rot, b, paint, delete)
  {
    if b != [] {
      DrawCellsAppend(w, active, rot, a, b[..|b| - 1], paint, delete);
      assert (a + b)[..|a + b| - 1] == a + b[..|b| - 1];
    } else {
      assert a + b == a;
    }
  }

  /** The cells of a concatenation are the concatenation of the cells. */
  lemma GroundAppend(a: seq<Point>, b: seq<Point>)
    ensures Ground(a + b) == Ground(a) + Ground(b)
  {
  }

  /** A line paints no cell twice: the major coordinate moves on every step. */
  lemma LineDistinct(x1: int, y1: int, x2: int, y2: int)
    ensures NoDuplicates(Ground(LinePoints(x1, y1, x2, y2)))
  {
    var r := LinePoints(x1, y1, x2, y2);
    var g := Ground(r);
    if x1 == x2 {
      LineVertical(x1, y1, y2);
      forall i, j | 0 <= i < j < |g| ensures g[i] != g[j] {
        assert r[i].1 == y1 + i * RunStep(y2 - y1) && r[j].1 == y1 + j * RunStep(y2 - y1);
      }
    } else if y1 == y2 {
      LineHorizontal(x1, x2, y1);
      forall i, j | 0 <= i < j < |g| ensures g[i] != g[j] {
        assert r[i].0 == x1 + i * RunStep(x2 - x1) && r[j].0 == x1 + j * RunStep(x2 - x1);
      }
    } else if Abs(x2 - x1) > Abs(y2 - y1) {
      LineShallow(x1, y1, x2, y2);
      forall i, j | 0 <= i < j < |g| ensures g[i] != g[j] {
        assert r[i].0 == x1 + (i + 1) * RunStep(x2 - x1) && r[j].0 == x1 + (j + 1) * RunStep(x2 - x1);
      }
    } else {
      LineSteep(x1, y1, x2, y2);
      forall i, j | 0 <= i < j < |g| ensures g[i] != g[j] {
        assert r[i].1 == y1 + (i + 1) * RunStep(y2 - y1) && r[j].1 == y1 + (j + 1) * RunStep(y2 - y1);
      }
    }
  }

  /** With an active tile, drawing a line leaves that tile, at the cursor's heading, on every cell it plots. */
  lemma LinePaintsAll(w: World, active: string, rot: int, x1: int, y1: int, x2: int, y2: int)
    requires WorldValid(w)
    ensures var cells := Ground(LinePoints(x1, y1, x2, y2));
      forall k :: 0 <= k < |cells| ==> HasTile(DrawCells(w, Some(active), rot, cells, true, false).objs, cells[k], Some(active), rot)
  {
    LineDistinct(x1, y1, x2, y2);
    FillCells(w, active, rot, Ground(LinePoints(x1, y1, x2, y2)), false);
  }

  /** Filling a selection with an active tile leaves that tile, at the cursor's heading, in every cell of the box. */
  lemma FillBox(w: World, active: string, rot: int, start: Cell, end: Cell, delete: bool)
    requires WorldValid(w)
    ensures var b := SelectCubeBounds(start, end);
      forall cell :: InBox(cell, b.0, b.1) ==>
        HasTile(DrawCells(w, Some(active), rot, RegionOf(start, end), true, delete).objs, cell, Some(active), rot)
  {
    var b := SelectCubeBounds(start, end);
    var cells := RegionOf(start, end);
    RegionCellsExact(b.0, b.1, b.0);
    FillCells(w, active, rot, cells, delete);
    forall cell | InBox(cell, b.0, b.1)
      ensures HasTile(DrawCells(w, Some(active), rot, cells, true, delete).objs, cell, Some(active), rot)
    {
      RegionCellsExact(b.0, b.1, cell);
      var k :| 0 <= k < |cells| && cells[k] == cell;
    }
  }

  /** Clearing a selection with the pen up empties every cell of the box that held at most one tile. */
  lemma ClearBox(w: World, active: Option<string>, rot: int, start: Cell, end: Cell)
    requires WorldValid(w)
    requires forall cell :: InBox(cell, SelectCubeBounds(start, end).0, SelectCubeBounds(start, end).1) ==> |TilesAt(w.objs, cell)| <= 1
    ensures var b := SelectCubeBounds(start, end);
      forall cell :: InBox(cell, b.0, b.1) ==> !Occupied(DrawCells(w, active, rot, RegionOf(start, end), false, true).objs, cell)
  {
    var b := SelectCubeBounds(start, end);
    var cells := RegionOf(start, end);
    RegionCellsExact(b.0, b.1, b.0);
    forall k | 0 <= k < |cells| ensures |TilesAt(w.objs, cells[k])| <= 1 {
      RegionCellsExact(b.0, b.1, cells[k]);
    }
    TilemapLegacy.ClearCells(w, active, rot, cells);
    forall cell | InBox(cell, b.0, b.1)
      ensures !Occupied(DrawCells(w, active, rot, cells, false, true).objs, cell)
    {
      RegionCellsExact(b.0, b.1, cell);
      var k :| 0 <= k < |cells| && cells[k] == cell;
    }
  }

  /** One more pass of a Bresenham loop that has not reached its end: the next point is plotted after the others. */
  lemma LoopStep(minor: int, major: int, f0: int, sm: int, sM: int, dm: int, dM: int, target: int, k: nat)
    requires k <= dM && sM == RunStep(target - major) && dM == Abs(target - major) && dM > 0
    requires StepState(minor, major, f0, sm, sM, dm, dM, k).1 != target
    ensures k < dM
    ensures var st := StepState(minor, major, f0, sm, sM, dm, dM, k + 1);
      st == NextState(StepState(minor, major, f0, sm, sM, dm, dM, k), sm, sM, dm, dM) &&
      Steps(minor, major, f0, sm, sM, dm, dM, k + 1) == Steps(minor, major, f0, sm, sM, dm, dM, k) + [(st.0, st.1)]
  {
    StepStateMajor(minor, major, f0, sm, sM, dm, dM, k);
    UnitStepsReach(major, target, k);
    StepsSnoc(minor, major, f0, sm, sM, dm, dM, k);
  }

  /** A Bresenham loop stops after exactly dMajor passes, its last point being the last it plotted. */
  lemma LoopEnd(minor: int, major: int, f0: int, sm: int, sM: int, dm: int, dM: int, target: int, k: nat)
    requires k <= dM && sM == RunStep(target - major) && dM == Abs(target - major) && dM > 0
    requires StepState(minor, major, f0, sm, sM, dm, dM, k).1 == target
    ensures k == dM
    ensures var st := StepState(minor, major, f0, sm, sM, dm, dM, k);
      Steps(minor, major, f0, sm, sM, dm, dM, dM)[dM - 1] == (st.0, st.1)
  {
    StepStateMajor(minor, major, f0, sm, sM, dm, dM, k);
    UnitStepsReach(major, target, k);
    StepsSnoc(minor, major, f0, sm, sM, dm, dM, dM - 1);
  }

  /** The steep branch of line is the steep loop's points, ending on (x2, y2). */
  lemma SteepLineEnds(x1: int, y1: int, x2: int, y2: int)
    requires 0 < Abs(x2 - x1) <= Abs(y2 - y1)
    ensures var adx, ady := Abs(x2 - x1), Abs(y2 - y1);
      var pts := Steps(x1, y1, adx - ady / 2, RunStep(x2 - x1), RunStep(y2 - y1), adx, ady, ady);
      LinePoints(x1, y1, x2, y2) == pts && pts[ady - 1] == (x2, y2)
  {
    LineSteep(x1, y1, x2, y2);
  }

  /** The shallow branch of line is the shallow loop's points with x and y exchanged, ending on (x2, y2). */
  lemma ShallowLineEnds(x1: int, y1: int, x2: int, y2: int)
    requires 0 < Abs(y2 - y1) < Abs(x2 - x1)
    ensures var adx, ady := Abs(x2 - x1), Abs(y2 - y1);
      var pts := Steps(y1, x1, ady - adx / 2, RunStep(y2 - y1), RunStep(x2 - x1), ady, adx, adx);
      LinePoints(x1, y1, x2, y2) == Swap(pts) && pts[adx - 1] == (y2, x2)
  {
    LineShallow(x1, y1, x2, y2);
    var adx: int, ady: int := Abs(x2 - x1), Abs(y2 - y1);
    var pts := Steps(y1, x1, ady - adx / 2, RunStep(y2 - y1), RunStep(x2 - x1), ady, adx, adx);
    assert Swap(pts)[adx - 1] == (pts[adx - 1].1, pts[adx - 1].0);
  }

  /** Drawing over the cells of equal point lists gives the same scene. */
  lemma DrawSamePoints(w: World, active: Option<string>, rot: int, a: seq<Point>, b: seq<Point>)
    requires a == b
    ensures DrawCells(w, active, rot, Ground(a), true, false) == DrawCells(w, active, rot, Ground(b), true, false)
  {
  }

  // ---------------------------------------------------------------------
  // The turtle
  // ---------------------------------------------------------------------

  /** Turtle3D: turtle graphics driving a first-generation editor, whose cursor is the turtle. */
  class Turtle3D {
    /** The editor the turtle is (Turtle3D extends Tilemap3D). */
    const base: Tilemap3D

    predicate Valid()
      reads this, base
    {
      base.Valid()
    }

    constructor()
      ensures fresh(base) && Valid() && base.world == World([], 0) && base.active.None?
      ensures base.pos == Cell(0, 0, 0) && base.rot == 0 && !base.paint && !base.delete
    {
      base := new Tilemap3D();
    }

    /** goto(x, y): the cursor moves to (x, y) on the ground layer, whatever its height was. */
    method Goto(x: int, y: int)
      modifies base`pos
      ensures base.pos == Cell(x, y, 0)
    {
      base.pos := Cell(x, y, 0);
    }

    /** setx: the cursor's x changes in place; a selection start sharing that Vector is not followed. */
    method SetX(x: int)
      modifies base`pos
      ensures base.pos == old(base.pos).(x := x)
    {
      base.pos := base.pos.(x := x);
    }

    /** sety: the cursor's y changes in place, as setx's x does. */
    method SetY(y: int)
      modifies base`pos
      ensures base.pos == old(base.pos).(y := y)
    {
      base.pos := base.pos.(y := y);
    }

    /** setheading: the heading is set without drawing. */
    method SetHeading(r: int)
      modifies base`rot
      ensures base.rot == r
    {
      base.rot := r;
    }

    /** down: the pen (the paint flag) goes down. */
    method Down()
      modifies base`paint
      ensures base.paint
    {
      base.paint := true;
    }

    method Up()
      modifies base`paint
      ensures !base.paint
    {
      base.paint := false;
    }

    /** home: back to (0, 0, 0) facing heading 0. */
    method Home()
      modifies base`pos, base`rot
      ensures base.pos == Cell(0, 0, 0) && base.rot == 0
    {
      Goto(0, 0);
      SetHeading(0);
    }

    /**
     * forward(i): the target is i cells ahead along the heading; with the pen down the
     * line from the cursor's (x, y) to it is drawn, then the turtle moves there on the
     * ground layer.
     */
    method Forward(i: int)
      requires IsQuarter(base.rot)
      modifies base`world, base`pos
      ensures var t := Add(old(base.pos), Geometry.Forward(base.rot, i));
        base.pos == Cell(t.x, t.y, 0) &&
        base.world == if base.paint then DrawCells(old(base.world), base.active, base.rot,
                                                   Ground(LinePoints(old(base.pos).x, old(base.pos).y, t.x, t.y)), true, false)
                      else old(base.world)
    {
      var t := Add(base.pos, Geometry.Forward(base.rot, i));
      if base.paint {
        Line(base.pos.x, base.pos.y, t.x, t.y);
      }
      Goto(t.x, t.y);
    }

    /** backward(i): forward(-i), which lands i cells behind the cursor. */
    method Backward(i: int)
      requires IsQuarter(base.rot)
      modifies base`world, base`pos
      ensures var t := Sub(old(base.pos), Geometry.Forward(base.rot, i));
        base.pos == Cell(t.x, t.y, 0) &&
        base.world == if base.paint then DrawCells(old(base.world), base.active, base.rot,
                                                   Ground(LinePoints(old(base.pos).x, old(base.pos).y, t.x, t.y)), true, false)
                      else old(base.world)
    {
      ForwardOpposite(base.rot, i);
      Forward(-i);
    }

    /** left(r): rotate by -r degrees (turning a grabbed tile and redrawing like rotate); a grabbed tile gone from the scene raises after the turn. */
    method Left(r: int) returns (err: Option<PyError>)
      requires Valid()
      modifies base`world, base`rot
      ensures Valid() && base.rot == old(base.rot) - r
      ensures err == GrabFault(old(base.world), if base.grab then Some([base.grabbed.value]) else None)
      ensures err.None? ==>
        base.world == Draw(GrabMoved(old(base.world), if base.grab then Some([base.grabbed.value]) else None, Turn(-r)),
                           base.active, base.pos, base.rot, base.paint, base.delete)
      ensures err.Some? ==> base.world == old(base.world)
    {
      var deg := -r;
      err := base.Rotate(deg);
      assert Turn(deg) == Turn(-r);
    }

    /** right(r): rotate by r degrees; a grabbed tile gone from the scene raises after the turn. */
    method Right(r: int) returns (err: Option<PyError>)
      requires Valid()
      modifies base`world, base`rot
      ensures Valid() && base.rot == old(base.rot) + r
      ensures err == GrabFault(old(base.world), if base.grab then Some([base.grabbed.value]) else None)
      ensures err.None? ==>
        base.world == Draw(GrabMoved(old(base.world), if base.grab then Some([base.grabbed.value]) else None, Turn(r)),
                           base.active, base.pos, base.rot, base.paint, base.delete)
      ensures err.Some? ==> base.world == old(base.world)
    {
      err := base.Rotate(r);
    }

    /** dot: paint the active tile at the cursor. */
    method Dot()
      modifies base`world
      ensures base.world == Draw(old(base.world), base.active, base.pos, base.rot, true, false)
    {
      base.Paint();
    }

    /** plot(x, y): go to (x, y) on the ground layer and paint there. */
    method Plot(x: int, y: int)
      modifies base`world, base`pos
      ensures base.pos == Cell(x, y, 0)
      ensures base.world == Draw(old(base.world), base.active, Cell(x, y, 0), base.rot, true, false)
    {
      Goto(x, y);
      Dot();
    }

    /**
     * line(x1, y1, x2, y2): plot the points of the line in order, ending on (x2, y2).
     * The shallow branch runs its loop as evidently intended (see LinePointsAsWritten).
     */
    method Line(x1: int, y1: int, x2: int, y2: int)
      modifies base`world, base`pos
      ensures base.pos == Cell(x2, y2, 0)
      ensures base.world == DrawCells(old(base.world), base.active, base.rot, Ground(LinePoints(x1, y1, x2, y2)), true, false)
    {
      var dx, dy := x2 - x1, y2 - y1;
      if dx == 0 {
        VerticalLine(x1, y1, x2, y2);
      } else if dy == 0 {
        HorizontalLine(x1, y1, x2, y2);
      } else {
        var stepy := 1;
        if dy < 0 {
          dy := -dy;
          stepy := -1;
        }
        var stepx := 1;
        if dx < 0 {
          dx := -dx;
          stepx := -1;
        }
        if dx > dy {
          ShallowLine(x1, y1, x2, y2, dx, dy, stepx, stepy);
        } else {
          SteepLine(x1, y1, x2, y2, dx, dy, stepx, stepy);
        }
      }
    }

    method VerticalLine(x1: int, y1: int, x2: int, y2: int)
      requires x1 == x2
      modifies base`world, base`pos
      ensures base.pos == Cell(x2, y2, 0)
      ensures base.world == DrawCells(old(base.world), base.active, base.rot, Ground(LinePoints(x1, y1, x2, y2)), true, false)
    {
      ghost var w0 := base.world;
      DrawSamePoints(w0, base.active, base.rot, LinePoints(x1, y1, x2, y2), AxisLine(x1, y1, x1, y2));
      VerticalLoop(x1, y1, y2);
    }

    method HorizontalLine(x1: int, y1: int, x2: int, y2: int)
      requires x1 != x2 && y1 == y2
      modifies base`world, base`pos
      ensures base.pos == Cell(x2, y2, 0)
      ensures base.world == DrawCells(old(base.world), base.active, base.rot, Ground(LinePoints(x1, y1, x2, y2)), true, false)
    {
      ghost var w0 := base.world;
      DrawSamePoints(w0, base.active, base.rot, LinePoints(x1, y1, x2, y2), AxisLine(x1, y1, x2, y1));
      HorizontalLoop(x1, x2, y1);
    }

    /** The range loop of a vertical line (dx == 0): every y from y1 to y2 at x. */
    method VerticalLoop(x: int, y1: int, y2: int)
      modifies base`world, base`pos
      ensures base.pos == Cell(x, y2, 0)
      ensures base.world == DrawCells(old(base.world), base.active, base.rot, Ground(AxisLine(x, y1, x, y2)), true, false)
    {
      ghost var w0 := base.world;
      ghost var pts := AxisLine(x, y1, x, y2);
      var ys := Run(y1, y2);
      assert |pts| == |ys| && forall j :: 0 <= j < |ys| ==> pts[j] == (x, ys[j]);
      ghost var ws: seq<World> := [w0];
      ghost var done: seq<Point> := [];
      for i := 0 to |ys|
        invariant done == pts[..i]
        invariant Traced(w0, base.active, base.rot, ws, done) && base.world == ws[i]
        invariant i > 0 ==> base.pos == Cell(x, ys[i - 1], 0)
      {
        ws := PlotTraced(w0, ws, done, x, ys[i]);
        assert pts[..i + 1] == done + [(x, ys[i])];
        done := done + [(x, ys[i])];
      }
      assert done == pts;
      TracedDraws(w0, base.active, base.rot, ws, done);
    }

    /** The range loop of a horizontal line (dy == 0): every x from x1 to x2 at y. */
    method HorizontalLoop(x1: int, x2: int, y: int)
      requires x1 != x2
      modifies base`world, base`pos
      ensures base.pos == Cell(x2, y, 0)
      ensures base.world == DrawCells(old(base.world), base.active, base.rot, Ground(AxisLine(x1, y, x2, y)), true, false)
    {
      ghost var w0 := base.world;
      ghost var pts := AxisLine(x1, y, x2, y);
      var xs := Run(x1, x2);
      assert |pts| == |xs| && forall j :: 0 <= j < |xs| ==> pts[j] == (xs[j], y);
      ghost var ws: seq<World> := [w0];
      ghost var done: seq<Point> := [];
      for i := 0 to |xs|
        invariant done == pts[..i]
        invariant Traced(w0, base.active, base.rot, ws, done) && base.world == ws[i]
        invariant i > 0 ==> base.pos == Cell(xs[i - 1], y, 0)
      {
        ws := PlotTraced(w0, ws, done, xs[i], y);
        assert pts[..i + 1] == done + [(xs[i], y)];
        done := done + [(xs[i], y)];
      }
      assert done == pts;
      TracedDraws(w0, base.active, base.rot, ws, done);
    }

    /** The steep branch of line (0 < |dx| <= |dy|). */
    method SteepLine(x1: int, y1: int, x2: int, y2: int, dx: int, dy: int, stepx: int, stepy: int)
      requires 0 < dx <= dy && dx == Abs(x2 - x1) && dy == Abs(y2 - y1)
      requires stepx == RunStep(x2 - x1) && stepy == RunStep(y2 - y1)
      modifies base`world, base`pos
      ensures base.pos == Cell(x2, y2, 0)
      ensures base.world == DrawCells(old(base.world), base.active, base.rot, Ground(LinePoints(x1, y1, x2, y2)), true, false)
    {
      ghost var w0 := base.world;
      SteepLineEnds(x1, y1, x2, y2);
      DrawSamePoints(w0, base.active, base.rot, LinePoints(x1, y1, x2, y2), Steps(x1, y1, dx - dy / 2, stepx, stepy, dx, dy, dy));
      SteepLoop(x1, y1, x2, y2, dx, dy, stepx, stepy);
    }

    /** The shallow branch of line (|dx| > |dy| > 0), as evidently intended. */
    method ShallowLine(x1: int, y1: int, x2: int, y2: int, dx: int, dy: int, stepx: int, stepy: int)
      requires 0 < dy < dx && dx == Abs(x2 - x1) && dy == Abs(y2 - y1)
      requires stepx == RunStep(x2 - x1) && stepy == RunStep(y2 - y1)
      modifies base`world, base`pos
      ensures base.pos == Cell(x2, y2, 0)
      ensures base.world == DrawCells(old(base.world), base.active, base.rot, Ground(LinePoints(x1, y1, x2, y2)), true, false)
    {
      ghost var w0 := base.world;
      ShallowLineEnds(x1, y1, x2, y2);
      DrawSamePoints(w0, base.active, base.rot, LinePoints(x1, y1, x2, y2), Swap(Steps(y1, x1, dy - dx / 2, stepy, stepx, dy, dx, dx)));
      ShallowLoop(x1, y1, x2, y2, dx, dy, stepx, stepy);
    }

    /** The loop of a steep line: |dy| steps along y, x following. */
    method SteepLoop(x1: int, y1: int, x2: int, y2: int, dx: int, dy: int, stepx: int, stepy: int)
      requires 0 < dx <= dy && dx == Abs(x2 - x1) && dy == Abs(y2 - y1)
      requires stepx == RunStep(x2 - x1) && stepy == RunStep(y2 - y1)
      modifies base`world, base`pos
      ensures base.pos == Cell(x2, y2, 0)
      ensures base.world == DrawCells(old(base.world), base.active, base.rot, Ground(Steps(x1, y1, dx - dy / 2, stepx, stepy, dx, dy, dy)), true, false)
    {
      ghost var w0 := base.world;
      var f0 := dx - dy / 2;
      var x, y, frac := x1, y1, f0;
      ghost var k: nat := 0;
      ghost var done: seq<Point> := [];
      ghost var ws: seq<World> := [w0];
      while y != y2
        invariant k <= dy
        invariant (x, y, frac) == StepState(x1, y1, f0, stepx, stepy, dx, dy, k)
        invariant done == Steps(x1, y1, f0, stepx, stepy, dx, dy, k)
        invariant Traced(w0, base.active, base.rot, ws, done) && base.world == ws[k]
        invariant k > 0 ==> base.pos == Cell(x, y, 0)
        decreases dy - k
      {
        LoopStep(x1, y1, f0, stepx, stepy, dx, dy, y2, k);
        if frac >= 0 {
          x := x + stepx;
          frac := frac - dy;
        }
        y := y + stepy;
        frac := frac + dx;
        ws := PlotTraced(w0, ws, done, x, y);
        done := done + [(x, y)];
        k := k + 1;
      }
      LoopEnd(x1, y1, f0, stepx, stepy, dx, dy, y2, k);
      assert done == Steps(x1, y1, dx - dy / 2, stepx, stepy, dx, dy, dy);
      TracedDraws(w0, base.active, base.rot, ws, done);
      SteepLineEnds(x1, y1, x2, y2);
    }

    /** The loop of a shallow line, as evidently intended: |dx| steps along x, y following. */
    method ShallowLoop(x1: int, y1: int, x2: int, y2: int, dx: int, dy: int, stepx: int, stepy: int)
      requires 0 < dy < dx && dx == Abs(x2 - x1) && dy == Abs(y2 - y1)
      requires stepx == RunStep(x2 - x1) && stepy == RunStep(y2 - y1)
      modifies base`world, base`pos
      ensures base.pos == Cell(x2, y2, 0)
      ensures base.world == DrawCells(old(base.world), base.active, base.rot, Ground(Swap(Steps(y1, x1, dy - dx / 2, stepy, stepx, dy, dx, dx))), true, false)
    {
      ghost var w0 := base.world;
      var f0 := dy - dx / 2;
      var x, y, frac := x1, y1, f0;
      ghost var k: nat := 0;
      ghost var done: seq<Point> := [];
      ghost var ws: seq<World> := [w0];
      while x != x2
        invariant k <= dx
        invariant (y, x, frac) == StepState(y1, x1, f0, stepy, stepx, dy, dx, k)
        invariant done == Swap(Steps(y1, x1, f0, stepy, stepx, dy, dx, k))
        invariant Traced(w0, base.active, base.rot, ws, done) && base.world == ws[k]
        invariant k > 0 ==> base.pos == Cell(x, y, 0)
        decreases dx - k
      {
        LoopStep(y1, x1, f0, stepy, stepx, dy, dx, x2, k);
        if frac >= 0 {
          y := y + stepy;
          frac := frac - dx;
        }
        x := x + stepx;
        frac := frac + dy;
        ws := PlotTraced(w0, ws, done, x, y);
        SwapSnoc(Steps(y1, x1, f0, stepy, stepx, dy, dx, k), (y, x));
        done := done + [(x, y)];
        k := k + 1;
      }
      LoopEnd(y1, x1, f0, stepy, stepx, dy, dx, x2, k);
      assert done == Swap(Steps(y1, x1, dy - dx / 2, stepy, stepx, dy, dx, dx));
      TracedDraws(w0, base.active, base.rot, ws, done);
      ShallowLineEnds(x1, y1, x2, y2);
    }

    /** plot(x, y), recording the plot in a trace of worlds. */
    method PlotTraced(ghost w0: World, ghost ws: seq<World>, ghost pts: seq<Point>, x: int, y: int)
      returns (ghost ws': seq<World>)
      requires Traced(w0, base.active, base.rot, ws, pts) && base.world == ws[|pts|]
      modifies base`world, base`pos
      ensures base.pos == Cell(x, y, 0)
      ensures Traced(w0, base.active, base.rot, ws', pts + [(x, y)]) && base.world == ws'[|pts| + 1]
    {
      Plot(x, y);
      TracedSnoc(w0, base.active, base.rot, ws, pts, (x, y), base.world);
      ws' := ws + [base.world];
    }

    /** The eight plots of one pass of circle, around (x0, y0) for the pair (x, y). */
    method PlotOctants(ghost w0: World, ghost ws: seq<World>, ghost pts: seq<Point>, x0: int, y0: int, x: int, y: int)
      returns (ghost ws': seq<World>)
      requires Traced(w0, base.active, base.rot, ws, pts) && base.world == ws[|pts|]
      modifies base`world, base`pos
      ensures Traced(w0, base.active, base.rot, ws', pts + Octants(x0, y0, (x, y))) && base.world == ws'[|pts| + 8]
    {
      ws' := ws;
      ghost var done := pts;
      ws' := PlotTraced(w0, ws', done, x0 + x, y0 + y);
      done := done + [(x0 + x, y0 + y)];
      ws' := PlotTraced(w0, ws', done, x0 + y, y0 + x);
      done := done + [(x0 + y, y0 + x)];
      ws' := PlotTraced(w0, ws', done, x0 - y, y0 + x);
      done := done + [(x0 - y, y0 + x)];
      ws' := PlotTraced(w0, ws', done, x0 - x, y0 + y);
      done := done + [(x0 - x, y0 + y)];
      ws' := PlotTraced(w0, ws', done, x0 - x, y0 - y);
      done := done + [(x0 - x, y0 - y)];
      ws' := PlotTraced(w0, ws', done, x0 - y, y0 - x);
      done := done + [(x0 - y, y0 - x)];
      ws' := PlotTraced(w0, ws', done, x0 + y, y0 - x);
      done := done + [(x0 + y, y0 - x)];
      ws' := PlotTraced(w0, ws', done, x0 + x, y0 - y);
      done := done + [(x0 + x, y0 - y)];
      assert done == pts + Octants(x0, y0, (x, y));
    }

    /**
     * circle(radius): the midpoint circle around the cursor's (x, y), eight reflections
     * plotted per pass, then back to the centre on the ground layer.
     */
    method Circle(radius: int)
      modifies base`world, base`pos
      ensures base.pos == Cell(old(base.pos).x, old(base.pos).y, 0)
      ensures base.world == DrawCells(old(base.world), base.active, base.rot,
                                      Ground(CirclePoints(old(base.pos).x, old(base.pos).y, CircleArcs(radius, 0, 0))), true, false)
    {
      ghost var w0 := base.world;
      var x0 := base.pos.x;
      var y0 := base.pos.y;
      var x := radius;
      var y := 0;
      var err := 0;
      ghost var arcs: seq<(int, int)> := [];
      ghost var pts: seq<Point> := [];
      ghost var ws: seq<World> := [w0];
      while x >= y
        invariant CircleArcs(radius, 0, 0) == arcs + CircleArcs(x, y, err)
        invariant pts == CirclePoints(x0, y0, arcs)
        invariant Traced(w0, base.active, base.rot, ws, pts) && base.world == ws[|pts|]
        decreases x - y + 1
      {
        ws := PlotOctants(w0, ws, pts, x0, y0, x, y);
        ghost var next := CircleNext(x, y, err);
        assert CircleArcs(x, y, err) == [(x, y)] + CircleArcs(next.0, next.1, next.2);
        assert (arcs + [(x, y)])[..|arcs|] == arcs;
        arcs := arcs + [(x, y)];
        pts := pts + Octants(x0, y0, (x, y));
        y := y + 1;
        if err <= 0 {
          err := err + 2 * y + 1;
        }
        if err > 0 {
          x := x - 1;
          err := err - (2 * x + 1);
        }
        assert (x, y, err) == next;
      }
      assert arcs == CircleArcs(radius, 0, 0);
      Goto(x0, y0);
      TracedDraws(w0, base.active, base.rot, ws, pts);
    }

    /**
     * fill: draw the selection with the pen down, then put the pen back as it was. With no
     * selection ever started, select_cube_bounds reads .x of None and raises AttributeError
     * before a cell is drawn, and the pen stays down.
     */
    method Fill() returns (err: Option<PyError>)
      requires WorldValid(base.world)
      modifies base`world, base`pos, base`select, base`paint
      ensures err == (if old(base.selectStart).None? then Some(AttributeError) else None)
      ensures base.pos == old(base.pos) && WorldValid(base.world)
      ensures err.Some? ==> base.paint && base.select == old(base.select) && base.world == old(base.world)
      ensures err.None? ==>
        base.paint == old(base.paint) && !base.select &&
        base.world == DrawCells(old(base.world), base.active, base.rot,
                                RegionOf(base.selectStart.value, base.pos), true, base.delete)
    {
      var state := base.paint;
      base.paint := true;
      if base.selectStart.None? {
        return Some(AttributeError);
      }
      base.EndSelect();
      base.paint := state;
      err := None;
    }

    /**
     * clear: draw the selection in delete mode, then leave delete mode. With no selection
     * ever started it raises AttributeError as fill does, leaving delete mode on.
     */
    method Clear() returns (err: Option<PyError>)
      requires WorldValid(base.world)
      modifies base`world, base`pos, base`select, base`delete
      ensures err == (if old(base.selectStart).None? then Some(AttributeError) else None)
      ensures base.delete == err.Some? && base.pos == old(base.pos) && WorldValid(base.world)
      ensures err.Some? ==> base.select == old(base.select) && base.world == old(base.world)
      ensures err.None? ==>
        !base.select &&
        base.world == DrawCells(old(base.world), base.active, base.rot,
                                RegionOf(base.selectStart.value, base.pos), base.paint, true)
    {
      base.delete := true;
      if base.selectStart.None? {
        return Some(AttributeError);
      }
      base.EndSelect();
      base.delete := false;
      err := None;
    }
  }
}
