// The neighbour-occupancy masks of the auto-tiler (testudo3d/autotiler3d.py).
// A cell's mask has one bit per neighbour: bit i is set when the cell one step
// along ADJACENCY_VECTORS[i] holds a tile. Rule lines write masks as binary
// literals, rightmost character first, so the literal of a pattern reads back
// as its mask; the ROTATE table copies a rule to the masks of the same pattern
// turned by quarter turns.

module Bitmasks {
  import opened Wrappers
  import opened Geometry
  import opened Scene
  import opened Rules

  /** ADJACENCY_VECTORS of testudo3d/tilemap3d.py: +Y, +X, -Y, -X, +Z, -Z. */
  const Adjacency: seq<Cell> :=
    [Cell(0, 1, 0), Cell(1, 0, 0), Cell(0, -1, 0), Cell(-1, 0, 0), Cell(0, 0, 1), Cell(0, 0, -1)]

  /** The six cells around p, in mask-bit order. */
  function Neighbours(p: Cell): (r: seq<Cell>)
    ensures |r| == 6
    ensures forall i :: 0 <= i < 6 ==> r[i] == Add(p, Adjacency[i])
  {
    seq(|Adjacency|, i requires 0 <= i < |Adjacency| => Add(p, Adjacency[i]))
  }

  /** The six neighbours are six different cells, none of them p itself. */
  lemma NeighboursDistinct(p: Cell)
    ensures p !in Neighbours(p) && NoDuplicates(Neighbours(p))
  {
  }

  // ---------------------------------------------------------------------
  // Masks as numbers and as rule literals
  // ---------------------------------------------------------------------

  function BitValue(b: bool): nat { if b then 1 else 0 }

  /** The mask of an occupancy pattern: occ[i] is bit i. */
  function MaskValue(occ: seq<bool>): nat
  {
    if occ == [] then 0 else BitValue(occ[0]) + 2 * MaskValue(occ[1..])
  }

  /** Bit i of n. */
  function Bit(n: nat, i: nat): bool
  {
    if i == 0 then n % 2 == 1 else Bit(n / 2, i - 1)
  }

  /** Bit i of a pattern's mask is exactly entry i of the pattern. */
  lemma {:induction false} MaskValueBits(occ: seq<bool>, i: nat)
    requires i < |occ|
    ensures Bit(MaskValue(occ), i) == occ[i]
  {
    var v := MaskValue(occ[1..]);
    assert MaskValue(occ) == BitValue(occ[0]) + 2 * v;
    assert (BitValue(occ[0]) + 2 * v) % 2 == BitValue(occ[0]);
    assert (BitValue(occ[0]) + 2 * v) / 2 == v;
    if i > 0 {
      MaskValueBits(occ[1..], i - 1);
    }
  }

  /** A pattern of k entries has a mask below 2^k. */
  lemma {:induction false} MaskValueBound(occ: seq<bool>)
    ensures MaskValue(occ) < Pow2(|occ|)
  {
    if occ != [] {
      MaskValueBound(occ[1..]);
    }
  }

  /** Appending entry k of a pattern adds bit k: the OR of get_bitmask is an addition. */
  lemma {:induction false} MaskValueSnoc(occ: seq<bool>, b: bool)
    ensures MaskValue(occ + [b]) == MaskValue(occ) + BitValue(b) * Pow2(|occ|)
  {
    if occ == [] {
      assert [b][1..] == [];
    } else {
      assert (occ + [b])[1..] == occ[1..] + [b];
      MaskValueSnoc(occ[1..], b);
    }
  }

  /** The binary literal a rule line uses for a pattern: entry 0 is the rightmost character. */
  function MaskText(occ: seq<bool>): (a: string)
    ensures |a| == |occ|
  {
    if occ == [] then "" else MaskText(occ[1..]) + [if occ[0] then '1' else '0']
  }

  /** int(literal, 2) of a pattern's literal is the pattern's mask. */
  lemma {:induction false} MaskTextValue(occ: seq<bool>)
    requires |occ| > 0
    ensures ParseBinary(MaskText(occ)) == Some(MaskValue(occ))
  {
    var a := MaskText(occ);
    if |occ| == 1 {
      assert occ[1..] == [];
      assert a == [if occ[0] then '1' else '0'];
    } else {
      MaskTextValue(occ[1..]);
      var t := MaskText(occ[1..]);
      assert IsBinary(t);
      assert a[..|a| - 1] == t;
      forall k | 0 <= k < |a| ensures a[k] == '0' || a[k] == '1' {
        if k < |a| - 1 {
          assert a[k] == t[k];
        }
      }
    }
  }

  // ---------------------------------------------------------------------
  // get_occupied and get_bitmask
  // ---------------------------------------------------------------------

  /** get_occupied's adjacent list: the tiles at each neighbour of p, in bit order. */
  function Adjacent(objs: Store, p: Cell): (r: seq<seq<Obj>>)
    ensures |r| == 6
  {
    var n := Neighbours(p);
    [TilesAt(objs, n[0]), TilesAt(objs, n[1]), TilesAt(objs, n[2]),
     TilesAt(objs, n[3]), TilesAt(objs, n[4]), TilesAt(objs, n[5])]
  }

  /** bool(tiles) for each entry of an adjacent list. */
  function OccupancyOf(adjacent: seq<seq<Obj>>): (occ: seq<bool>)
    ensures |occ| == |adjacent|
    ensures forall i :: 0 <= i < |adjacent| ==> (occ[i] <==> adjacent[i] != [])
  {
    seq(|adjacent|, i requires 0 <= i < |adjacent| => adjacent[i] != [])
  }

  /** The mask of cell p in a store. */
  function Mask(objs: Store, p: Cell): nat
  {
    MaskValue(OccupancyOf(Adjacent(objs, p)))
  }

  /** get_bitmask: OR in bit i for each neighbour list that is not empty. */
  method GetBitmask(adjacent: seq<seq<Obj>>) returns (bitmask: nat)
    ensures bitmask == MaskValue(OccupancyOf(adjacent))
    ensures bitmask < Pow2(|adjacent|)
  {
    ghost var occ := OccupancyOf(adjacent);
    bitmask := 0;
    var i := 0;
    while i < |adjacent|
      invariant 0 <= i <= |adjacent|
      invariant bitmask == MaskValue(occ[..i])
    {
      MaskValueSnoc(occ[..i], occ[i]);
      assert occ[..i + 1] == occ[..i] + [occ[i]];
      if adjacent[i] != [] {
        // bit i is clear in a mask below 2^i, so OR-ing it in adds 2^i
        bitmask := bitmask + Pow2(i);
      }
      i := i + 1;
    }
    assert occ[..i] == occ;
    MaskValueBound(occ);
  }

  /** Bit i of a cell's mask says whether neighbour i holds a tile; masks have six bits. */
  lemma MaskNeighbours(objs: Store, p: Cell)
    ensures Mask(objs, p) < 64
    ensures forall i :: 0 <= i < 6 ==> (Bit(Mask(objs, p), i) <==> Occupied(objs, Add(p, Adjacency[i])))
  {
    var occ := OccupancyOf(Adjacent(objs, p));
    MaskValueBound(occ);
    assert Pow2(6) == 64;
    forall i | 0 <= i < 6 ensures Bit(Mask(objs, p), i) <==> Occupied(objs, Add(p, Adjacency[i])) {
      MaskValueBits(occ, i);
    }
  }

  /** A change that leaves the six neighbour cells as they were leaves the mask as it was. */
  lemma MaskFrame(s: Store, t: Store, p: Cell)
    requires forall i :: 0 <= i < 6 ==> TilesAt(s, Add(p, Adjacency[i])) == TilesAt(t, Add(p, Adjacency[i]))
    ensures Mask(s, p) == Mask(t, p)
  {
    assert Adjacent(s, p) == Adjacent(t, p);
  }

  /** Two stores whose six neighbour cells are occupied alike give the cell the same mask. */
  lemma MaskOccupancy(s: Store, t: Store, p: Cell)
    requires forall i :: 0 <= i < 6 ==> (Occupied(s, Add(p, Adjacency[i])) <==> Occupied(t, Add(p, Adjacency[i])))
    ensures Mask(s, p) == Mask(t, p)
  {
    assert OccupancyOf(Adjacent(s, p)) == OccupancyOf(Adjacent(t, p));
  }

  /** A cell's mask does not depend on what is in the cell itself. */
  lemma MaskOutside(s: Store, t: Store, p: Cell)
    requires forall q :: q != p ==> TilesAt(s, q) == TilesAt(t, q)
    ensures Mask(s, p) == Mask(t, p)
  {
    forall i | 0 <= i < 6 ensures TilesAt(s, Add(p, Adjacency[i])) == TilesAt(t, Add(p, Adjacency[i])) {
      assert Add(p, Adjacency[i]) != p;
    }
    MaskFrame(s, t, p);
  }

  // ---------------------------------------------------------------------
  // The ROTATE table as quarter turns
  // ---------------------------------------------------------------------

  /** The pattern a tile sees after q clockwise quarter turns: horizontal entry k moves to k + q (mod 4). */
  function TurnPattern(occ: seq<bool>, q: nat): (r: seq<bool>)
    requires |occ| == 6
    ensures |r| == 6
  {
    seq(6, i requires 0 <= i < 6 => if i < 4 then occ[(i - q) % 4] else occ[i])
  }

  lemma ClockwiseQuarter(v: Cell)
    ensures RotateZ(-90, v) == Cell(v.y, -v.x, v.z)
  {
    assert Quarters(-90) == 3 by {
      assert -90 / 90 == -1;
      assert -1 % 4 == 3;
    }
    assert TurnTimes(1, v) == Cell(-v.y, v.x, v.z);
    assert TurnTimes(2, v) == Cell(-v.x, -v.y, v.z);
  }

  /** Neighbour k + 1 (mod 4) after neighbour k; up and down map to themselves. */
  function NextNeighbour(k: nat): nat
  {
    if k < 3 then k + 1 else if k == 3 then 0 else k
  }

  /** A clockwise quarter turn (rot -90) carries neighbour k onto neighbour k + 1 (mod 4) and keeps up and down. */
  lemma AdjacencyTurn(k: nat)
    requires k < 6
    ensures RotateZ(-90, Adjacency[k]) == Adjacency[NextNeighbour(k)]
  {
    var v := Adjacency[k];
    ClockwiseQuarter(v);
    assert Adjacency[NextNeighbour(k)] == Cell(v.y, -v.x, v.z);
  }

  lemma MaskValue6(occ: seq<bool>)
    requires |occ| == 6
    ensures MaskValue(occ) == BitValue(occ[0]) + 2 * BitValue(occ[1]) + 4 * BitValue(occ[2]) +
      8 * BitValue(occ[3]) + 16 * BitValue(occ[4]) + 32 * BitValue(occ[5])
  {
    var s1, s2, s3, s4, s5 := occ[1..], occ[2..], occ[3..], occ[4..], occ[5..];
    assert s1[1..] == s2 && s2[1..] == s3 && s3[1..] == s4 && s4[1..] == s5 && s5[1..] == [];
    assert MaskValue(s5) == BitValue(occ[5]);
  }

  /**
   * ROTATE[n][i] is the horizontal mask of pattern n turned i + 1 clockwise quarter
   * turns, so the copy parse_rules writes at (mask & 0b110000) | ROTATE[n][i], with
   * rot (i + 1) * -90, is the authored rule seen from a tile turned that far.
   */
  lemma RotateTableTurns(occ: seq<bool>, i: nat)
    requires |occ| == 6 && i < 3
    requires RotateTargets(Horizontal(MaskValue(occ))).Some?
    ensures Vertical(MaskValue(occ)) + RotateTargets(Horizontal(MaskValue(occ))).value[i] ==
      MaskValue(TurnPattern(occ, i + 1))
  {
    var t := TurnPattern(occ, i + 1);
    MaskValue6(occ);
    MaskValue6(t);
    var h := BitValue(occ[0]) + 2 * BitValue(occ[1]) + 4 * BitValue(occ[2]) + 8 * BitValue(occ[3]);
    var d := BitValue(occ[4]) + 2 * BitValue(occ[5]);
    assert MaskValue(occ) == h + 16 * d;
    assert Horizontal(MaskValue(occ)) == h;
    assert Vertical(MaskValue(occ)) == 16 * d;
    assert t[4] == occ[4] && t[5] == occ[5];
    assert occ[0] && !occ[3];
    if i == 0 {
      assert t[0] == occ[3] && t[1] == occ[0] && t[2] == occ[1] && t[3] == occ[2];
    } else if i == 1 {
      assert t[0] == occ[2] && t[1] == occ[3] && t[2] == occ[0] && t[3] == occ[1];
    } else {
      assert t[0] == occ[1] && t[1] == occ[2] && t[2] == occ[3] && t[3] == occ[0];
    }
  }

  // ---------------------------------------------------------------------
  // Every parsed rule names a tile
  // ---------------------------------------------------------------------

  /** Every rule and the default name at least one tile, so random.choice has a candidate. */
  predicate TableOk(rules: map<int, Rule>, default: Option<Rule>)
  {
    (forall m :: m in rules ==> rules[m].tiles != []) &&
    (default.Some? ==> default.value.tiles != [])
  }

  predicate RulesetOk(rs: Ruleset) { TableOk(rs.rules, rs.default) }

  lemma {:induction false} RotationsHaveTiles(rules: map<int, Rule>, d: int, t: seq<int>, tiles: seq<string>, i: nat)
    requires i <= |t| && tiles != []
    requires forall m :: m in rules ==> rules[m].tiles != []
    ensures forall m :: m in Rotations(rules, d, t, tiles, i) ==> Rotations(rules, d, t, tiles, i)[m].tiles != []
  {
    if i > 0 {
      RotationsHaveTiles(rules, d, t, tiles, i - 1);
    }
  }

  /** parse_rules only writes rules from lines with at least one tile after the mask. */
  lemma {:induction false} ParsedRulesHaveTiles(lines: seq<string>)
    ensures ParseSpec(lines).Ok? ==> TableOk(ParseSpec(lines).value.rules, ParseSpec(lines).value.default)
  {
    if lines != [] {
      var prefix := lines[..|lines| - 1];
      ParsedRulesHaveTiles(prefix);
      match ParseSpec(prefix)
      case Err(_) =>
      case Ok(table) =>
        var line := lines[|lines| - 1];
        var split := Tokens(line);
        if !(|line| > 0 && line[0] == '#') && |split| >= 2 {
          var a, b := split[0], split[1..];
          if ParseBinary(a).Some? {
            var n := ParseBinary(a).value;
            var r := table.rules[n := Rule(b, 0)];
            match RotateTargets(Horizontal(n))
            case None =>
            case Some(t) => RotationsHaveTiles(r, Vertical(n), t, b, 3);
          }
        }
    }
  }

  /** Looking up a mask in a ruleset whose rules all name tiles gives a rule with a tile. */
  lemma GetHasTiles(rs: Ruleset, bitmask: int)
    requires RulesetOk(rs)
    ensures Get(rs, bitmask).Some? ==> Get(rs, bitmask).value.tiles != []
  {
  }
}
