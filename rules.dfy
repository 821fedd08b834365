// The auto-tiler's rule table (testudo3d/autotiler3d.py): rule lines of the
// form `<binary mask> <tile> <tile> ...` or `default <tile> ...`, the
// quarter-turn expansion of masks whose horizontal part is a ROTATE key, and
// the lookup with its default fallback.

module Rules {
  import opened Wrappers
  import Text

  /** A rule: the tiles to choose from and the absolute heading, in degrees, to give them. */
  datatype Rule = Rule(tiles: seq<string>, rot: int)

  /** The parsed table: rules by neighbour mask, and the optional fallback rule. */
  datatype Ruleset = Ruleset(rules: map<int, Rule>, default: Option<Rule>)

  /** The ValueError raised for a bad first token: 1-based line number and the line text. */
  datatype ParseError = ParseError(lineNo: nat, line: string)

  /**
   * Ruleset.get: the rule authored or synthesised for the mask; otherwise the
   * default rule when there is one; otherwise nothing.
   */
  function Get(rs: Ruleset, bitmask: int): (r: Option<Rule>)
    ensures bitmask in rs.rules ==> r == Some(rs.rules[bitmask])
    ensures bitmask !in rs.rules && rs.default.Some? ==> r == rs.default
    ensures bitmask !in rs.rules && rs.default.None? ==> r.None?
  {
    if bitmask in rs.rules then Some(rs.rules[bitmask])
    else if rs.default.Some? then rs.default
    else None
  }

  // ---------------------------------------------------------------------
  // Splitting a line into tokens: [s for s in line.split(' ') if s]
  // ---------------------------------------------------------------------

  function NonEmpty(pieces: seq<string>): (r: seq<string>)
    ensures forall t :: t in r <==> t in pieces && t != ""
  {
    if pieces == [] then []
    else if pieces[0] == "" then NonEmpty(pieces[1..])
    else [pieces[0]] + NonEmpty(pieces[1..])
  }

  /** The words of a line: every token is non-empty and holds no space. */
  function Tokens(line: string): (r: seq<string>)
    ensures forall t :: t in r ==> t != "" && ' ' !in t
  {
    NonEmpty(Text.Split(line, ' '))
  }

  // ---------------------------------------------------------------------
  // int(a, 2) on plain binary literals
  // ---------------------------------------------------------------------

  predicate IsBinary(a: string) { |a| > 0 && forall k :: 0 <= k < |a| ==> a[k] == '0' || a[k] == '1' }

  /** The value of a binary literal; the rightmost character is bit 0. */
  function BinaryValue(a: string): (n: nat)
    requires IsBinary(a)
    ensures n < Pow2(|a|)
  {
    var bit := if a[|a| - 1] == '1' then 1 else 0;
    if |a| == 1 then bit else 2 * BinaryValue(a[..|a| - 1]) + bit
  }

  function Pow2(k: nat): (p: nat)
    ensures p >= 1
  {
    if k == 0 then 1 else 2 * Pow2(k - 1)
  }

  /** int(a, 2), restricted to plain literals: None stands for the ValueError. */
  function ParseBinary(a: string): (r: Option<nat>)
    ensures r.Some? <==> IsBinary(a)
  {
    if IsBinary(a) then Some(BinaryValue(a)) else None
  }

  // ---------------------------------------------------------------------
  // The ROTATE table and one line of the parser
  // ---------------------------------------------------------------------

  /** ROTATE: the masks a horizontal pattern turns into after 1, 2 and 3 quarter turns. */
  function RotateTargets(horizontal: int): (r: Option<seq<int>>)
    ensures r.Some? ==> |r.value| == 3
  {
    if horizontal == 1 then Some([2, 4, 8])
    else if horizontal == 3 then Some([6, 12, 9])
    else if horizontal == 5 then Some([10, 5, 10])
    else if horizontal == 7 then Some([14, 13, 11])
    else None
  }

  /** n & 0b001111: the four horizontal neighbour bits. */
  function Horizontal(n: nat): int { n % 16 }

  /** n & 0b110000: the above/below bits, kept in place. */
  function Vertical(n: nat): int { (n / 16) % 4 * 16 }

  /** The table as the parser builds it: rules so far and the default so far. */
  datatype Table = Table(rules: map<int, Rule>, default: Option<Rule>)

  /** The first i quarter-turn copies: rules[d | t[k]] = Rule(tiles, (k+1) * -90), in order. */
  function Rotations(rules: map<int, Rule>, d: int, t: seq<int>, tiles: seq<string>, i: nat): map<int, Rule>
    requires i <= |t|
  {
    if i == 0 then rules
    else Rotations(rules, d, t, tiles, i - 1)[d + t[i - 1] := Rule(tiles, i * -90)]
  }

  /** rules[n] = Rule(b), then the three quarter-turn copies, later writes winning. */
  function Author(rules: map<int, Rule>, n: nat, tiles: seq<string>): map<int, Rule>
  {
    var r := rules[n := Rule(tiles, 0)];
    match RotateTargets(Horizontal(n))
    case None => r
    case Some(t) => Rotations(r, Vertical(n), t, tiles, 3)
  }

  /** What one line (0-based number lineNo) does to the table. */
  function Step(table: Table, lineNo: nat, line: string): Result<Table, ParseError>
  {
    if |line| > 0 && line[0] == '#' then Ok(table)
    else
      var split := Tokens(line);
      if |split| < 2 then Ok(table)
      else
        var a, b := split[0], split[1..];
        match ParseBinary(a)
        case Some(n) => Ok(table.(rules := Author(table.rules, n, b)))
        case None =>
          if a == "default" then Ok(table.(default := Some(Rule(b, 0))))
          else Err(ParseError(lineNo + 1, line))
  }

  /** The table after the first |lines| lines, or the error of the first bad line. */
  function ParseSpec(lines: seq<string>): Result<Table, ParseError>
  {
    if lines == [] then Ok(Table(map[], None))
    else
      match ParseSpec(lines[..|lines| - 1])
      case Err(e) => Err(e)
      case Ok(t) => Step(t, |lines| - 1, lines[|lines| - 1])
  }

  /** Once a line fails, the whole parse fails with that line's error. */
  lemma {:induction false} ParseSpecErrSticks(lines: seq<string>, k: nat)
    requires k <= |lines| && ParseSpec(lines[..k]).Err?
    ensures ParseSpec(lines) == ParseSpec(lines[..k])
    decreases |lines| - k
  {
    if k < |lines| {
      assert lines[..k + 1][..k] == lines[..k];
      ParseSpecErrSticks(lines, k + 1);
    } else {
      assert lines[..k] == lines;
    }
  }

  /** parse_rules: one pass over the lines, stopping at the first bad one. */
  method ParseRules(lines: seq<string>) returns (result: Result<Ruleset, ParseError>)
    ensures result.Ok? <==> ParseSpec(lines).Ok?
    ensures result.Ok? ==>
      result.value == Ruleset(ParseSpec(lines).value.rules, ParseSpec(lines).value.default)
    ensures result.Err? ==> result.error == ParseSpec(lines).error
  {
    var rules: map<int, Rule> := map[];
    var default: Option<Rule> := None;
    var lineNo := 0;
    while lineNo < |lines|
      invariant 0 <= lineNo <= |lines|
      invariant ParseSpec(lines[..lineNo]) == Ok(Table(rules, default))
    {
      var line := lines[lineNo];
      assert lines[..lineNo + 1][..lineNo] == lines[..lineNo];
      if |line| > 0 && line[0] == '#' {
        lineNo := lineNo + 1;
        continue;
      }
      var split := Tokens(line);
      if |split| == 0 {
        lineNo := lineNo + 1;
        continue;
      }
      var a, b := split[0], split[1..];
      if b == [] {
        lineNo := lineNo + 1;
        continue;
      }
      var n := ParseBinary(a);
      if n.Some? {
        rules := rules[n.value := Rule(b, 0)];
        var horizontal, d := Horizontal(n.value), Vertical(n.value);
        var copyTo := RotateTargets(horizontal);
        if copyTo.Some? {
          ghost var authored := rules;
          var i := 0;
          while i < 3
            invariant 0 <= i <= 3
            invariant rules == Rotations(authored, d, copyTo.value, b, i)
          {
            rules := rules[d + copyTo.value[i] := Rule(b, (i + 1) * -90)];
            i := i + 1;
          }
        }
      } else if a == "default" {
        default := Some(Rule(b, 0));
      } else {
        ParseSpecErrSticks(lines, lineNo + 1);
        return Err(ParseError(lineNo + 1, line));
      }
      lineNo := lineNo + 1;
    }
    assert lines[..|lines|] == lines;
    return Ok(Ruleset(rules, default));
  }
}

module RulesProperties {
  import opened Wrappers
  import opened Rules
  import Text

  /** Comment lines, blank lines and a mask with no tile after it change nothing. */
  lemma SkippedLines(table: Table, lineNo: nat, line: string)
    requires (|line| > 0 && line[0] == '#') || |Tokens(line)| < 2
    ensures Step(table, lineNo, line) == Ok(table)
  {
  }

  /** A first token that is neither binary nor `default` fails with the 1-based line number and text. */
  lemma BadFirstToken(table: Table, lineNo: nat, line: string)
    requires !(|line| > 0 && line[0] == '#') && |Tokens(line)| >= 2
    requires !IsBinary(Tokens(line)[0]) && Tokens(line)[0] != "default"
    ensures Step(table, lineNo, line) == Err(ParseError(lineNo + 1, line))
  {
  }

  /**
   * The table after an authored mask line: the last of the writes
   * rules[n], rules[d|t0], rules[d|t1], rules[d|t2] that hits a key decides it.
   */
  lemma {:induction false} AuthorAt(rules: map<int, Rule>, n: nat, tiles: seq<string>, m: int)
    ensures var r := Author(rules, n, tiles);
      match RotateTargets(Horizontal(n))
      case None =>
        (m == n ==> m in r && r[m] == Rule(tiles, 0)) &&
        (m != n ==> (m in r <==> m in rules) && (m in r ==> r[m] == rules[m]))
      case Some(t) =>
        var d := Vertical(n);
        (m == d + t[2] ==> m in r && r[m] == Rule(tiles, -270)) &&
        (m != d + t[2] && m == d + t[1] ==> m in r && r[m] == Rule(tiles, -180)) &&
        (m != d + t[2] && m != d + t[1] && m == d + t[0] ==> m in r && r[m] == Rule(tiles, -90)) &&
        (m != d + t[2] && m != d + t[1] && m != d + t[0] && m == n ==> m in r && r[m] == Rule(tiles, 0)) &&
        (m != d + t[2] && m != d + t[1] && m != d + t[0] && m != n ==>
          (m in r <==> m in rules) && (m in r ==> r[m] == rules[m]))
  {
    match RotateTargets(Horizontal(n))
    case None =>
    case Some(t) =>
      var base := rules[n := Rule(tiles, 0)];
      var d := Vertical(n);
      assert Rotations(base, d, t, tiles, 1) == base[d + t[0] := Rule(tiles, -90)];
      assert Rotations(base, d, t, tiles, 2) == base[d + t[0] := Rule(tiles, -90)][d + t[1] := Rule(tiles, -180)];
      assert Author(rules, n, tiles) ==
        base[d + t[0] := Rule(tiles, -90)][d + t[1] := Rule(tiles, -180)][d + t[2] := Rule(tiles, -270)];
  }

  lemma TwoWords(w: string, v: string)
    requires ' ' !in w && ' ' !in v && w != "" && v != ""
    ensures Tokens(w + " " + v) == [w, v]
  {
    Text.SplitWordSep(w, v, ' ');
    Text.SplitWord(v, ' ');
    assert w + " " + v == w + [' '] + v;
    assert Text.Split(w + " " + v, ' ') == [w, v];
    assert [w, v][1..] == [v] && [v][1..] == [];
    assert NonEmpty([v]) == [v];
    assert NonEmpty([w, v]) == [w] + NonEmpty([v]);
  }

  /** Step on a line whose tokens are a binary mask and some tiles. */
  lemma StepAuthored(table: Table, lineNo: nat, line: string, a: string, tiles: seq<string>)
    requires |line| > 0 && line[0] != '#'
    requires Tokens(line) == [a] + tiles && tiles != [] && IsBinary(a)
    ensures Step(table, lineNo, line) == Ok(table.(rules := Author(table.rules, BinaryValue(a), tiles)))
  {
    assert Tokens(line)[1..] == tiles;
  }

  lemma AuthorMask1(rules: map<int, Rule>, tiles: seq<string>)
    ensures Author(rules, 1, tiles) ==
      rules[1 := Rule(tiles, 0)][2 := Rule(tiles, -90)][4 := Rule(tiles, -180)][8 := Rule(tiles, -270)]
  {
    assert Horizontal(1) == 1 && Vertical(1) == 0;
    var base := rules[1 := Rule(tiles, 0)];
    assert Rotations(base, 0, [2, 4, 8], tiles, 1) == base[2 := Rule(tiles, -90)];
    assert Rotations(base, 0, [2, 4, 8], tiles, 2) == base[2 := Rule(tiles, -90)][4 := Rule(tiles, -180)];
  }

  lemma AuthorMask2(rules: map<int, Rule>, tiles: seq<string>)
    ensures Author(rules, 2, tiles) == rules[2 := Rule(tiles, 0)]
  {
    assert Horizontal(2) == 2;
  }

  lemma AuthorMask5(rules: map<int, Rule>, tiles: seq<string>)
    ensures Author(rules, 5, tiles) ==
      rules[5 := Rule(tiles, 0)][10 := Rule(tiles, -90)][5 := Rule(tiles, -180)][10 := Rule(tiles, -270)]
  {
    assert Horizontal(5) == 5 && Vertical(5) == 0;
    var base := rules[5 := Rule(tiles, 0)];
    assert Rotations(base, 0, [10, 5, 10], tiles, 1) == base[10 := Rule(tiles, -90)];
    assert Rotations(base, 0, [10, 5, 10], tiles, 2) == base[10 := Rule(tiles, -90)][5 := Rule(tiles, -180)];
  }

  lemma BinaryAppend(a: string, c: char)
    requires IsBinary(a) && (c == '0' || c == '1')
    ensures IsBinary(a + [c])
    ensures BinaryValue(a + [c]) == 2 * BinaryValue(a) + (if c == '1' then 1 else 0)
  {
    assert (a + [c])[..|a|] == a;
  }

  lemma Masks()
    ensures IsBinary("000001") && BinaryValue("000001") == 1
    ensures IsBinary("000010") && BinaryValue("000010") == 2
    ensures IsBinary("000101") && BinaryValue("000101") == 5
  {
    assert BinaryValue("0") == 0;
    BinaryAppend("0", '0');
    assert "0" + ['0'] == "00";
    BinaryAppend("00", '0');
    assert "00" + ['0'] == "000";
    BinaryAppend("000", '0');
    assert "000" + ['0'] == "0000";
    BinaryAppend("0000", '0');
    assert "0000" + ['0'] == "00000";
    BinaryAppend("00000", '1');
    assert "00000" + ['1'] == "000001";
    BinaryAppend("0000", '1');
    assert "0000" + ['1'] == "00001";
    BinaryAppend("00001", '0');
    assert "00001" + ['0'] == "000010";
    BinaryAppend("000", '1');
    assert "000" + ['1'] == "0001";
    BinaryAppend("0001", '0');
    assert "0001" + ['0'] == "00010";
    BinaryAppend("00010", '1');
    assert "00010" + ['1'] == "000101";
  }

  /** `000001 a` alone yields a@0 for 000001 and its turns 000010@-90, 000100@-180, 001000@-270. */
  lemma SingleNeighbourExpansion()
    ensures ParseSpec(["000001 a"]) ==
      Ok(Table(map[1 := Rule(["a"], 0), 2 := Rule(["a"], -90), 4 := Rule(["a"], -180), 8 := Rule(["a"], -270)], None))
  {
    TwoWords("000001", "a");
    assert "000001" + " " + "a" == "000001 a";
    Masks();
    var t0 := Table(map[], None);
    assert ["000001 a"][..0] == [];
    assert ParseSpec(["000001 a"]) == Step(t0, 0, "000001 a");
    StepAuthored(t0, 0, "000001 a", "000001", ["a"]);
    AuthorMask1(map[], ["a"]);
  }

  /**
   * `000101 w` alone: ROTATE[5] = [10, 5, 10], so the copies overwrite the
   * authored rule, leaving rules[5] at -180 and rules[10] at -270.
   */
  lemma OppositePairOverride()
    ensures ParseSpec(["000101 w"]).Ok?
    ensures ParseSpec(["000101 w"]).value.rules == map[5 := Rule(["w"], -180), 10 := Rule(["w"], -270)]
  {
    TwoWords("000101", "w");
    assert "000101" + " " + "w" == "000101 w";
    Masks();
    var t0 := Table(map[], None);
    assert ["000101 w"][..0] == [];
    assert ParseSpec(["000101 w"]) == Step(t0, 0, "000101 w");
    StepAuthored(t0, 0, "000101 w", "000101", ["w"]);
    AuthorMask5(map[], ["w"]);
  }

  /**
   * Line order matters: authoring 000001 then 000010 leaves 000010 as written,
   * while the other order lets the turned copy of 000001 overwrite it.
   */
  lemma LaterLinesWin(m: map<int, Rule>, a: seq<string>, b: seq<string>)
    ensures 2 in Author(Author(m, 1, a), 2, b) && Author(Author(m, 1, a), 2, b)[2] == Rule(b, 0)
    ensures 2 in Author(Author(m, 2, b), 1, a) && Author(Author(m, 2, b), 1, a)[2] == Rule(a, -90)
  {
    AuthorMask2(Author(m, 1, a), b);
    AuthorMask1(Author(m, 2, b), a);
  }

  /** `default` sets the fallback rule; a mask with no rule then gets it from Get. */
  lemma DefaultFallback()
    ensures ParseSpec(["default x"]) == Ok(Table(map[], Some(Rule(["x"], 0))))
    ensures Get(Ruleset(map[], Some(Rule(["x"], 0))), 63) == Some(Rule(["x"], 0))
  {
    TwoWords("default", "x");
    assert "default" + " " + "x" == "default x";
    assert !IsBinary("default") by { assert "default"[0] == 'd'; }
    assert ["default x"][..0] == [];
    assert Tokens("default x")[1..] == ["x"];
    assert ParseSpec(["default x"]) == Step(Table(map[], None), 0, "default x");
  }
}
