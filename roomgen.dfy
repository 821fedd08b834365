// The room generator of testudo3d/__init__.py (RoomGenOperator.make_tileset):
// from the "Wall", "Ceiling" and "Floor" groups it builds 24 rooms, one per
// combination of vertical neighbours (4) and horizontal pattern (6), and a
// rule table naming them. Each room has a wall on every side whose neighbour
// bit is clear, a ceiling when nothing is above and a floor when nothing is
// below; the six horizontal patterns are the ROTATE keys plus the empty and
// the full pattern, so the parser's quarter-turn copies reach all 64 masks.

module RoomGen {
  import opened Wrappers
  import Text
  import opened Rules
  import Bitmasks
  import RulesProperties
  import Setup

  /** RoomGenOperator.masks: the horizontal patterns a room is made for. */
  const Masks: seq<nat> := [0, 1, 3, 5, 7, 15]

  /** One group instance parented to a room's empty: the group and its z rotation in degrees. */
  datatype Piece = Piece(group: string, rot: int)

  /** The empty that stands for one tile, and the instances parented to it. */
  datatype Room = Room(name: string, pieces: seq<Piece>)

  /** What make_tileset leaves behind: the rooms in creation order and the lines of the rules text. */
  datatype Generated = Generated(rooms: seq<Room>, lines: seq<string>)

  // ---------------------------------------------------------------------
  // Names and line text
  // ---------------------------------------------------------------------

  predicate IsUpper(c: char) { 'A' <= c <= 'Z' }

  function LowerChar(c: char): char
  {
    if IsUpper(c) then (c as int - 'A' as int + 'a' as int) as char else c
  }

  /** str.lower on ASCII letters: no capital is left and every other character is kept. */
  function Lower(s: string): (r: string)
    ensures |r| == |s|
    ensures forall i :: 0 <= i < |r| ==> !IsUpper(r[i])
    ensures forall i :: 0 <= i < |r| && !IsUpper(s[i]) ==> r[i] == s[i]
    ensures forall i :: 0 <= i < |r| ==> r[i] == s[i] || 'a' <= r[i] <= 'z'
  {
    if s == [] then [] else [LowerChar(s[0])] + Lower(s[1..])
  }

  /** format(k, '02d') for k < 100: two decimal digits that read back as k. */
  function TwoDigits(k: nat): (r: string)
    requires k < 100
    ensures |r| == 2 && Text.AllDigits(r) && Text.DigitsValue(r) == k
  {
    var r := [Text.DigitChar(k / 10), Text.DigitChar(k % 10)];
    Text.DigitRoundTrip(k / 10);
    Text.DigitRoundTrip(k % 10);
    assert r[..1] == [r[0]];
    r
  }

  /** format(n, '0<w>b'): w binary digits, most significant first, that read back as n when n < 2^w. */
  function BinaryText(n: nat, w: nat): (r: string)
    ensures |r| == w
    ensures forall i :: 0 <= i < |r| ==> r[i] == '0' || r[i] == '1'
    ensures w > 0 ==> IsBinary(r)
    ensures w > 0 && n < Pow2(w) ==> BinaryValue(r) == n
  {
    if w == 0 then ""
    else
      var r := BinaryText(n / 2, w - 1) + [if n % 2 == 1 then '1' else '0'];
      assert r[..w - 1] == BinaryText(n / 2, w - 1);
      r
  }

  // ---------------------------------------------------------------------
  // The 24 rooms and the 24 rule lines
  // ---------------------------------------------------------------------

  /** The rule mask of room k: (j << 4) | m for j = k div 6 and m = masks[k mod 6]. */
  function RuleMask(k: nat): (n: nat)
    requires k < 24
    ensures n < 64 && n / 16 == k / 6 && n % 16 == Masks[k % 6]
  {
    (k / 6) * 16 + Masks[k % 6]
  }

  /** The empty's name: the lowered tileset name and the two-digit room index. */
  function RoomName(prefix: string, k: nat): string
    requires k < 24
  {
    prefix + TwoDigits(k)
  }

  /** The walls for the first i sides of pattern m: one per clear bit, turned (side) * -90 degrees. */
  function Walls(wall: string, m: nat, i: nat): seq<Piece>
  {
    if i == 0 then []
    else Walls(wall, m, i - 1) + (if Bitmasks.Bit(m, i - 1) then [] else [Piece(wall, (i - 1) * -90)])
  }

  /** The instances of room k: its walls, then a ceiling when j & 1 is clear, then a floor when j & 2 is clear. */
  function RoomPieces(wall: string, ceiling: string, floor: string, k: nat): seq<Piece>
    requires k < 24
  {
    var j := k / 6;
    Walls(wall, Masks[k % 6], 4)
      + (if j % 2 == 0 then [Piece(ceiling, 0)] else [])
      + (if Bitmasks.Bit(j, 1) then [] else [Piece(floor, 0)])
  }

  /** The text of rule line k without its newline: the 6-digit mask, a space, the room name. */
  function RuleBody(prefix: string, k: nat): string
    requires k < 24
  {
    BinaryText(RuleMask(k), 6) + " " + RoomName(prefix, k)
  }

  /** Rule line k as written to the text: its body and a newline. */
  function RuleLine(prefix: string, k: nat): string
    requires k < 24
  {
    RuleBody(prefix, k) + "\n"
  }

  /** The first n lines of the rules text. */
  function LinesUpTo(prefix: string, n: nat): (r: seq<string>)
    requires n <= 24
    ensures |r| == n
  {
    if n == 0 then [] else LinesUpTo(prefix, n - 1) + [RuleLine(prefix, n - 1)]
  }

  /** Every line of the rules text, as written by make_tileset. */
  function RuleLines(prefix: string): (r: seq<string>)
    ensures |r| == 24
  {
    LinesUpTo(prefix, 24)
  }

  /** text.write for each line in turn, after text.clear(). */
  function Concat(lines: seq<string>): string
  {
    if lines == [] then "" else lines[0] + Concat(lines[1..])
  }

  /** Room k: the empty named after k, holding the instances for its mask. */
  function RoomAt(prefix: string, wall: string, ceiling: string, floor: string, k: nat): Room
    requires k < 24
  {
    Room(RoomName(prefix, k), RoomPieces(wall, ceiling, floor, k))
  }

  /** The first n rooms. */
  function RoomsUpTo(prefix: string, wall: string, ceiling: string, floor: string, n: nat): (r: seq<Room>)
    requires n <= 24
    ensures |r| == n
  {
    if n == 0 then [] else RoomsUpTo(prefix, wall, ceiling, floor, n - 1) + [RoomAt(prefix, wall, ceiling, floor, n - 1)]
  }

  /** Every room make_tileset creates, in creation order. */
  function Rooms(prefix: string, wall: string, ceiling: string, floor: string): (r: seq<Room>)
    ensures |r| == 24
  {
    RoomsUpTo(prefix, wall, ceiling, floor, 24)
  }

  /**
   * make_tileset: None stands for the "group not found" warning, raised when
   * any of the three groups is missing; otherwise the 24 rooms in (j, mask)
   * order and the 24 rule lines naming them. Scenes and the Blender text
   * block are the host's; the rooms and lines are what the model keeps.
   */
  method MakeTileset(name: string, groups: set<string>, wall: string, ceiling: string, floor: string)
    returns (result: Option<Generated>)
    ensures result.None? <==> wall !in groups || ceiling !in groups || floor !in groups
    ensures result.Some? ==> result.value == Generated(Rooms(Lower(name), wall, ceiling, floor), RuleLines(Lower(name)))
  {
    if wall !in groups || ceiling !in groups || floor !in groups {
      return None;
    }
    var lname := Lower(name);
    var index := 0;
    var lines: seq<string> := [];
    var rooms: seq<Room> := [];
    for j := 0 to 4
      invariant index == 6 * j
      invariant lines == LinesUpTo(lname, index) && rooms == RoomsUpTo(lname, wall, ceiling, floor, index)
    {
      var c := j % 2;
      var f := Bitmasks.Bit(j, 1);
      for mi := 0 to |Masks|
        invariant index == 6 * j + mi
        invariant lines == LinesUpTo(lname, index) && rooms == RoomsUpTo(lname, wall, ceiling, floor, index)
      {
        assert index / 6 == j && index % 6 == mi;
        var room, line := MakeRoom(lname, wall, ceiling, floor, index, c, f, Masks[mi]);
        lines := lines + [line];
        rooms := rooms + [room];
        index := index + 1;
      }
    }
    return Some(Generated(rooms, lines));
  }

  /**
   * The body of make_tileset's inner loop for room `index` (j = index div 6,
   * c = j & 1, f = j & 2, m = masks[index mod 6]): the instances, the empty
   * named after the index, and the rule line for (j << 4) | m.
   */
  method MakeRoom(lname: string, wall: string, ceiling: string, floor: string, index: nat, c: int, f: bool, m: nat)
    returns (room: Room, line: string)
    requires index < 24 && c == (index / 6) % 2 && f == Bitmasks.Bit(index / 6, 1) && m == Masks[index % 6]
    ensures room == RoomAt(lname, wall, ceiling, floor, index)
    ensures line == RuleLine(lname, index)
  {
    var objs: seq<Piece> := [];
    for i := 0 to 4
      invariant objs == Walls(wall, m, i)
    {
      if !Bitmasks.Bit(m, i) {
        objs := objs + [Piece(wall, i * -90)];
      }
    }
    if c == 0 {
      objs := objs + [Piece(ceiling, 0)];
    }
    if !f {
      objs := objs + [Piece(floor, 0)];
    }
    var empty := lname + TwoDigits(index);
    var rule := (index / 6) * 16 + m;
    assert rule == RuleMask(index);
    assert empty == RoomName(lname, index);
    line := BinaryText(rule, 6) + " " + empty + "\n";
    room := Room(empty, objs);
  }

  // ---------------------------------------------------------------------
  // What the rooms look like
  // ---------------------------------------------------------------------

  /** Bits below w come from the low part, bits from w up from the high part. */
  lemma {:induction false} BitSplit(j: nat, m: nat, w: nat, i: nat)
    requires m < Pow2(w)
    ensures Bitmasks.Bit(j * Pow2(w) + m, i) == if i < w then Bitmasks.Bit(m, i) else Bitmasks.Bit(j, i - w)
    decreases w
  {
    if w > 0 {
      var p := Pow2(w - 1);
      assert j * Pow2(w) + m == 2 * (j * p + m / 2) + m % 2;
      if i > 0 {
        BitSplit(j, m / 2, w - 1, i - 1);
      }
    }
  }

  /** A wall at side i (turned i * -90 degrees) is among the first n walls of m iff i < n and bit i of m is clear. */
  lemma {:induction false} WallsAt(wall: string, m: nat, n: nat, i: int)
    requires 0 <= i
    ensures Piece(wall, i * -90) in Walls(wall, m, n) <==> i < n && !Bitmasks.Bit(m, i)
    ensures forall p :: p in Walls(wall, m, n) ==> p.group == wall
  {
    if n > 0 {
      WallsAt(wall, m, n - 1, i);
    }
  }

  /**
   * Room k mirrors its rule mask: a wall on side i exactly when neighbour bit i
   * is clear, a ceiling exactly when bit 4 (+Z) is clear and a floor exactly
   * when bit 5 (-Z) is clear, and nothing else.
   */
  lemma RoomMatchesMask(wall: string, ceiling: string, floor: string, k: nat)
    requires k < 24 && wall != ceiling && wall != floor && ceiling != floor
    ensures var pieces, n := RoomPieces(wall, ceiling, floor, k), RuleMask(k);
      (forall i :: 0 <= i < 4 ==> (Piece(wall, i * -90) in pieces <==> !Bitmasks.Bit(n, i))) &&
      (Piece(ceiling, 0) in pieces <==> !Bitmasks.Bit(n, 4)) &&
      (Piece(floor, 0) in pieces <==> !Bitmasks.Bit(n, 5)) &&
      (forall p :: p in pieces ==> p.group == wall || p == Piece(ceiling, 0) || p == Piece(floor, 0))
  {
    RoomWallsMatch(wall, ceiling, floor, k);
    RoomCapsMatch(wall, ceiling, floor, k);
  }

  /** The walls of room k: one on side i exactly when bit i of its mask is clear; every other piece is a cap. */
  lemma RoomWallsMatch(wall: string, ceiling: string, floor: string, k: nat)
    requires k < 24 && wall != ceiling && wall != floor
    ensures var pieces, n := RoomPieces(wall, ceiling, floor, k), RuleMask(k);
      (forall i :: 0 <= i < 4 ==> (Piece(wall, i * -90) in pieces <==> !Bitmasks.Bit(n, i))) &&
      (forall p :: p in pieces ==> p.group == wall || p == Piece(ceiling, 0) || p == Piece(floor, 0))
  {
    var j, m := k / 6, Masks[k % 6];
    var pieces, n := RoomPieces(wall, ceiling, floor, k), RuleMask(k);
    assert Pow2(4) == 16;
    assert n == j * Pow2(4) + m;
    forall i | 0 <= i < 4
      ensures Piece(wall, i * -90) in pieces <==> !Bitmasks.Bit(n, i)
    {
      WallsAt(wall, m, 4, i);
      BitSplit(j, m, 4, i);
    }
    WallsAt(wall, m, 4, 0);
  }

  /** The caps of room k: a ceiling exactly when bit 4 (+Z) is clear, a floor exactly when bit 5 (-Z) is. */
  lemma RoomCapsMatch(wall: string, ceiling: string, floor: string, k: nat)
    requires k < 24 && wall != ceiling && wall != floor && ceiling != floor
    ensures var pieces, n := RoomPieces(wall, ceiling, floor, k), RuleMask(k);
      (Piece(ceiling, 0) in pieces <==> !Bitmasks.Bit(n, 4)) &&
      (Piece(floor, 0) in pieces <==> !Bitmasks.Bit(n, 5))
  {
    var j, m := k / 6, Masks[k % 6];
    var n := RuleMask(k);
    assert Pow2(4) == 16;
    assert n == j * Pow2(4) + m;
    WallsAt(wall, m, 4, 0);
    BitSplit(j, m, 4, 4);
    BitSplit(j, m, 4, 5);
    assert Bitmasks.Bit(j, 0) == (j % 2 == 1);
  }

  // ---------------------------------------------------------------------
  // The rules text read back by parse_rules
  // ---------------------------------------------------------------------

  /** The first n line bodies, as the text's lines hold them. */
  function BodiesUpTo(prefix: string, n: nat): (r: seq<string>)
    requires n <= 24
    ensures |r| == n
  {
    if n == 0 then [] else BodiesUpTo(prefix, n - 1) + [RuleBody(prefix, n - 1)]
  }

  /** Each body with its newline. */
  function Terminated(bodies: seq<string>): seq<string>
  {
    if bodies == [] then [] else [bodies[0] + "\n"] + Terminated(bodies[1..])
  }

  lemma {:induction false} TerminatedSnoc(bodies: seq<string>, b: string)
    ensures Terminated(bodies + [b]) == Terminated(bodies) + [b + "\n"]
  {
    if bodies != [] {
      assert (bodies + [b])[1..] == bodies[1..] + [b];
      TerminatedSnoc(bodies[1..], b);
    } else {
      assert Terminated([b]) == [b + "\n"] + Terminated([]);
    }
  }

  lemma {:induction false} LinesTerminated(prefix: string, n: nat)
    requires n <= 24
    ensures LinesUpTo(prefix, n) == Terminated(BodiesUpTo(prefix, n))
  {
    if n > 0 {
      LinesTerminated(prefix, n - 1);
      TerminatedSnoc(BodiesUpTo(prefix, n - 1), RuleBody(prefix, n - 1));
    }
  }

  /** Writing each body and a newline gives the bodies joined by newlines, ending in an empty line. */
  lemma {:induction false} ConcatTerminated(bodies: seq<string>)
    ensures Concat(Terminated(bodies)) == Text.Join(bodies + [""], '\n')
  {
    if bodies != [] {
      ConcatTerminated(bodies[1..]);
      assert (bodies + [""])[1..] == bodies[1..] + [""];
      assert Concat(Terminated(bodies)) == (bodies[0] + "\n") + Concat(Terminated(bodies[1..]));
    } else {
      assert Text.Join([""], '\n') == "";
    }
  }

  /** A name that holds no space (and no newline) still holds none once lowered and numbered. */
  lemma RoomNameClean(prefix: string, k: nat, c: char)
    requires k < 24 && c !in prefix && !Text.IsDigit(c)
    ensures c !in RoomName(prefix, k) && RoomName(prefix, k) != ""
  {
    var d := TwoDigits(k);
    assert Text.IsDigit(d[0]) && Text.IsDigit(d[1]);
  }

  lemma BodyClean(prefix: string, k: nat)
    requires k < 24 && ' ' !in prefix && '\n' !in prefix
    ensures '\n' !in RuleBody(prefix, k)
    ensures Rules.Tokens(RuleBody(prefix, k)) == [BinaryText(RuleMask(k), 6), RoomName(prefix, k)]
  {
    var a := BinaryText(RuleMask(k), 6);
    RoomNameClean(prefix, k, ' ');
    RoomNameClean(prefix, k, '\n');
    assert ' ' !in a && '\n' !in a by {
      forall i | 0 <= i < |a| ensures a[i] != ' ' && a[i] != '\n' { }
    }
    RulesProperties.TwoWords(a, RoomName(prefix, k));
  }

  /** The text's lines: the 24 bodies and the empty line after the last newline. */
  lemma TextLines(prefix: string)
    requires ' ' !in prefix && '\n' !in prefix
    ensures Text.Split(Concat(RuleLines(prefix)), '\n') == BodiesUpTo(prefix, 24) + [""]
  {
    var bodies := BodiesUpTo(prefix, 24);
    LinesTerminated(prefix, 24);
    ConcatTerminated(bodies);
    forall k | 0 <= k < |bodies + [""]|
      ensures '\n' !in (bodies + [""])[k]
    {
      if k < 24 {
        BodyBodies(prefix, 24, k);
        BodyClean(prefix, k);
      }
    }
    Text.SplitJoin(bodies + [""], '\n');
  }

  lemma {:induction false} BodyBodies(prefix: string, n: nat, k: nat)
    requires k < n <= 24
    ensures BodiesUpTo(prefix, n)[k] == RuleBody(prefix, k)
  {
    if k < n - 1 {
      BodyBodies(prefix, n - 1, k);
    }
  }

  /** The table after the first n lines: each line authors its mask for its room. */
  function AuthorAll(prefix: string, n: nat): map<int, Rule>
    requires n <= 24
  {
    if n == 0 then map[] else Author(AuthorAll(prefix, n - 1), RuleMask(n - 1), [RoomName(prefix, n - 1)])
  }

  /** parse_rules reads the first n bodies without error, and authors every line's mask. */
  lemma {:induction false} ParseBodies(prefix: string, n: nat)
    requires n <= 24 && ' ' !in prefix && '\n' !in prefix
    ensures ParseSpec(BodiesUpTo(prefix, n)) == Ok(Table(AuthorAll(prefix, n), None))
  {
    if n > 0 {
      var k := n - 1;
      ParseBodies(prefix, k);
      var lines := BodiesUpTo(prefix, n);
      assert lines[..|lines| - 1] == BodiesUpTo(prefix, k);
      var body, a := RuleBody(prefix, k), BinaryText(RuleMask(k), 6);
      BodyClean(prefix, k);
      assert Pow2(6) == 64;
      assert body[0] == a[0];
      RulesProperties.StepAuthored(Table(AuthorAll(prefix, k), None), k, body, a, [RoomName(prefix, k)]);
    }
  }

  /** What Author adds: the authored mask and, for a ROTATE key, its three turned masks. */
  lemma AuthorKeys(rules: map<int, Rule>, n: nat, tiles: seq<string>)
    ensures rules.Keys <= Author(rules, n, tiles).Keys
    ensures n in Author(rules, n, tiles)
    ensures RotateTargets(Horizontal(n)).Some? ==>
      forall i :: 0 <= i < 3 ==> Vertical(n) + RotateTargets(Horizontal(n)).value[i] in Author(rules, n, tiles)
  {
    var r := Author(rules, n, tiles);
    forall m | m in rules ensures m in r {
      RulesProperties.AuthorAt(rules, n, tiles, m);
    }
    RulesProperties.AuthorAt(rules, n, tiles, n);
    if RotateTargets(Horizontal(n)).Some? {
      var t := RotateTargets(Horizontal(n)).value;
      forall i | 0 <= i < 3 ensures Vertical(n) + t[i] in r {
        RulesProperties.AuthorAt(rules, n, tiles, Vertical(n) + t[i]);
      }
    }
  }

  /** Author keeps the other rules and writes only rules naming its tiles, for masks with n's vertical bits. */
  lemma AuthorValues(rules: map<int, Rule>, n: nat, tiles: seq<string>)
    requires n < 64
    ensures forall m :: m in Author(rules, n, tiles) ==>
      (m in rules && Author(rules, n, tiles)[m] == rules[m]) ||
      (Author(rules, n, tiles)[m].tiles == tiles && 0 <= m < 64 && m / 16 == n / 16)
  {
    var r := Author(rules, n, tiles);
    forall m | m in r
      ensures (m in rules && r[m] == rules[m]) || (r[m].tiles == tiles && 0 <= m < 64 && m / 16 == n / 16)
    {
      RulesProperties.AuthorAt(rules, n, tiles, m);
    }
  }

  lemma AuthorAllStep(prefix: string, k: nat)
    requires k < 24
    ensures AuthorAll(prefix, k).Keys <= AuthorAll(prefix, k + 1).Keys
  {
    AuthorKeys(AuthorAll(prefix, k), RuleMask(k), [RoomName(prefix, k)]);
  }

  lemma {:induction false} AuthorAllGrows(prefix: string, a: nat, b: nat)
    requires a <= b <= 24
    ensures AuthorAll(prefix, a).Keys <= AuthorAll(prefix, b).Keys
    decreases b
  {
    if a < b {
      AuthorAllGrows(prefix, a, b - 1);
      AuthorAllStep(prefix, b - 1);
    }
  }

  /** Every rule written so far names one room, and a room made for the same vertical neighbours. */
  lemma {:induction false} AuthorAllValues(prefix: string, n: nat)
    requires n <= 24
    ensures forall m :: m in AuthorAll(prefix, n) ==> (0 <= m < 64 &&
      exists k :: 0 <= k < n && k / 6 == m / 16 && AuthorAll(prefix, n)[m].tiles == [RoomName(prefix, k)])
  {
    if n > 0 {
      AuthorAllValues(prefix, n - 1);
      var before := AuthorAll(prefix, n - 1);
      AuthorValues(before, RuleMask(n - 1), [RoomName(prefix, n - 1)]);
      forall m | m in AuthorAll(prefix, n)
        ensures 0 <= m < 64 &&
          exists k :: 0 <= k < n && k / 6 == m / 16 && AuthorAll(prefix, n)[m].tiles == [RoomName(prefix, k)]
      {
        if !(m in before && AuthorAll(prefix, n)[m] == before[m]) {
          assert AuthorAll(prefix, n)[m].tiles == [RoomName(prefix, n - 1)];
        }
      }
    }
  }

  /** The line whose mask or turned copies reach mask m. */
  function CoveringLine(m: nat): (k: nat)
    requires m < 64
    ensures k < 24 && k / 6 == m / 16
  {
    var h := m % 16;
    var idx :=
      if h == 0 then 0
      else if h in {1, 2, 4, 8} then 1
      else if h in {3, 6, 12, 9} then 2
      else if h in {5, 10} then 3
      else if h in {7, 14, 13, 11} then 4
      else 5;
    (m / 16) * 6 + idx
  }

  /** Which of the covering line's writes reaches m: -1 for the authored mask, i for the i-th turned copy. */
  function CoveringTurn(m: nat): (i: int)
    requires m < 64
    ensures -1 <= i < 3
  {
    var h := m % 16;
    if h in {2, 6, 10, 14} then 0
    else if h in {4, 12, 13} then 1
    else if h in {8, 9, 11} then 2
    else -1
  }

  /** Mask m is the covering line's own mask or one of its turned copies. */
  lemma CoveringLineReaches(m: nat)
    requires m < 64
    ensures var n, i := RuleMask(CoveringLine(m)), CoveringTurn(m);
      (i == -1 ==> m == n) &&
      (i >= 0 ==> RotateTargets(Horizontal(n)).Some? && m == Vertical(n) + RotateTargets(Horizontal(n)).value[i])
  {
    var k := CoveringLine(m);
    var n := RuleMask(k);
    assert Vertical(n) == (m / 16) * 16 && m == (m / 16) * 16 + m % 16;
    assert Horizontal(n) == Masks[k % 6];
  }

  /** Author writes the masks its line reaches. */
  lemma AuthorReaches(rules: map<int, Rule>, n: nat, tiles: seq<string>, m: int, i: int)
    requires -1 <= i < 3
    requires i == -1 ==> m == n
    requires i >= 0 ==> RotateTargets(Horizontal(n)).Some? && m == Vertical(n) + RotateTargets(Horizontal(n)).value[i]
    ensures m in Author(rules, n, tiles)
  {
    RulesProperties.AuthorAt(rules, n, tiles, m);
  }

  lemma Covers(prefix: string, m: nat)
    requires m < 64
    ensures m in AuthorAll(prefix, 24)
  {
    var k := CoveringLine(m);
    CoveringLineReaches(m);
    AuthorReaches(AuthorAll(prefix, k), RuleMask(k), [RoomName(prefix, k)], m, CoveringTurn(m));
    AuthorAllGrows(prefix, k + 1, 24);
  }

  /** The empty line after the last newline changes nothing. */
  lemma ParseTrailingEmpty(lines: seq<string>)
    ensures ParseSpec(lines + [""]) == ParseSpec(lines)
  {
    assert (lines + [""])[..|lines|] == lines;
    assert Rules.Tokens("") == [];
    match ParseSpec(lines)
    case Err(_) =>
    case Ok(t) => RulesProperties.SkippedLines(t, |lines|, "");
  }

  /** parse_rules on the text make_tileset writes: the table of all 24 lines. */
  lemma ParseText(prefix: string)
    requires ' ' !in prefix && '\n' !in prefix
    ensures ParseSpec(Text.Split(Concat(RuleLines(prefix)), '\n')) == Ok(Table(AuthorAll(prefix, 24), None))
  {
    TextLines(prefix);
    ParseBodies(prefix, 24);
    ParseTrailingEmpty(BodiesUpTo(prefix, 24));
  }

  /** The parsed table of a rules text written for a prefix without spaces or newlines. */
  lemma RulesFor(prefix: string)
    requires ' ' !in prefix && '\n' !in prefix
    ensures var parsed := ParseSpec(Text.Split(Concat(RuleLines(prefix)), '\n'));
      parsed.Ok? && parsed.value.default.None? &&
      (forall m :: 0 <= m < 64 ==> m in parsed.value.rules) &&
      (forall m :: m in parsed.value.rules ==> (0 <= m < 64 &&
        exists k :: 0 <= k < 24 && k / 6 == m / 16 && parsed.value.rules[m].tiles == [RoomName(prefix, k)]))
  {
    ParseText(prefix);
    AuthorAllValues(prefix, 24);
    forall m | 0 <= m < 64 ensures m in AuthorAll(prefix, 24) {
      Covers(prefix, m);
    }
  }

  /**
   * make_tileset's text is a valid rules text when the tileset name has no
   * space: parse_rules reads it without error, every one of the 64 masks gets
   * a rule, and each rule names one of the generated rooms, made for the same
   * neighbours above and below.
   */
  lemma GeneratedRulesParse(name: string)
    requires ' ' !in name && '\n' !in name
    ensures var parsed := ParseSpec(Text.Split(Concat(RuleLines(Lower(name))), '\n'));
      parsed.Ok? && parsed.value.default.None? &&
      (forall m :: 0 <= m < 64 ==> m in parsed.value.rules) &&
      (forall m :: m in parsed.value.rules ==> (0 <= m < 64 &&
        exists k :: 0 <= k < 24 && k / 6 == m / 16 && parsed.value.rules[m].tiles == [RoomName(Lower(name), k)]))
  {
    var prefix := Lower(name);
    assert ' ' !in prefix && '\n' !in prefix by {
      forall i | 0 <= i < |prefix| ensures prefix[i] != ' ' && prefix[i] != '\n' {
        assert name[i] in name;
      }
    }
    RulesFor(prefix);
  }

  // ---------------------------------------------------------------------
  // A tileset name with a space
  // ---------------------------------------------------------------------

  /**
   * As written, the line holds the room's name before setup_tiles renames it:
   * for the name "a b" the first line reads `000000 a b00`, so its rule names
   * the tiles "a" and "b00", while rename_objects turns the room into "a_b00".
   */
  lemma SpacedNameSplits()
    ensures RuleBody("a b", 0) == "000000 a b00"
    ensures Rules.Tokens(RuleBody("a b", 0)) == ["000000", "a", "b00"]
    ensures Setup.Underscored(RoomName("a b", 0)) == "a_b00"
  {
    SpacedBody();
    SpacedTokens();
    SpacedRename();
  }

  lemma SpacedRename()
    ensures Setup.Underscored(RoomName("a b", 0)) == "a_b00"
  {
    assert TwoDigits(0) == "00";
    assert RoomName("a b", 0) == "a b00";
    var u := Setup.Underscored("a b00");
    assert "a b00"[0] == 'a' && "a b00"[1] == ' ' && "a b00"[2] == 'b' && "a b00"[3] == '0' && "a b00"[4] == '0';
    assert u[0] == 'a' && u[1] == '_' && u[2] == 'b' && u[3] == '0' && u[4] == '0';
  }

  lemma SpacedBody()
    ensures RuleBody("a b", 0) == "000000 a b00"
  {
    assert BinaryText(0, 6) == "000000";
    assert TwoDigits(0) == "00";
  }

  lemma SpacedTokens()
    ensures Rules.Tokens("000000 a b00") == ["000000", "a", "b00"]
  {
    SpacedSplit();
    SpacedNonEmpty();
  }

  lemma SpacedNonEmpty()
    ensures NonEmpty(["000000", "a", "b00"]) == ["000000", "a", "b00"]
  {
    assert NonEmpty(["b00"]) == ["b00"];
    assert ["a", "b00"][1..] == ["b00"];
    assert NonEmpty(["a", "b00"]) == ["a", "b00"];
    assert ["000000", "a", "b00"][1..] == ["a", "b00"];
  }

  lemma SpacedSplit()
    ensures Text.Split("000000 a b00", ' ') == ["000000", "a", "b00"]
  {
    SpacedSplitTail();
    assert "000000 a b00" == "000000" + [' '] + "a b00";
    Text.SplitWordSep("000000", "a b00", ' ');
  }

  lemma SpacedSplitTail()
    ensures Text.Split("a b00", ' ') == ["a", "b00"]
  {
    Text.SplitWord("b00", ' ');
    assert "a b00" == "a" + [' '] + "b00";
    Text.SplitWordSep("a", "b00", ' ');
  }

  /** The name the rooms carry once setup_tiles has run: lowered, then spaces turned into underscores. */
  function TilePrefix(name: string): (p: string)
    ensures ' ' !in p && |p| == |name|
  {
    Setup.Underscored(Lower(name))
  }

  /**
   * Writing the renamed prefix instead makes the text valid for every name
   * without a newline: all 64 masks get a rule, and each rule names a room by
   * the very name rename_objects leaves it with.
   */
  lemma CorrectedRulesParse(name: string)
    requires '\n' !in name
    ensures var parsed := ParseSpec(Text.Split(Concat(RuleLines(TilePrefix(name))), '\n'));
      parsed.Ok? && parsed.value.default.None? &&
      (forall m :: 0 <= m < 64 ==> m in parsed.value.rules) &&
      (forall m :: m in parsed.value.rules ==> (0 <= m < 64 &&
        exists k :: 0 <= k < 24 && k / 6 == m / 16 && parsed.value.rules[m].tiles == [RoomName(TilePrefix(name), k)]))
    ensures forall k :: 0 <= k < 24 ==> RoomName(TilePrefix(name), k) == Setup.Underscored(RoomName(Lower(name), k))
  {
    var prefix := TilePrefix(name);
    assert '\n' !in prefix by {
      forall i | 0 <= i < |prefix| ensures prefix[i] != '\n' {
        assert name[i] in name;
      }
    }
    RulesFor(prefix);
    forall k | 0 <= k < 24 ensures RoomName(prefix, k) == Setup.Underscored(RoomName(Lower(name), k)) {
      RenamedRoom(name, k);
    }
  }

  lemma RenamedRoom(name: string, k: nat)
    requires k < 24
    ensures Setup.Underscored(RoomName(Lower(name), k)) == RoomName(TilePrefix(name), k)
  {
    var d := TwoDigits(k);
    assert ' ' !in d by {
      assert Text.IsDigit(d[0]) && Text.IsDigit(d[1]);
    }
    Setup.UnderscoredConcat(Lower(name), d);
    Setup.UnderscoredKeeps(d);
  }
}
