// The test script's L-system rewriter and its command-line handling
// (test/test_script.py): `replace` rewrites a string n times, each pass mapping
// every symbol through the rule table (a symbol without a rule stands for
// itself); `parse_args` keeps only the arguments after the first "--" and
// picks the test to run.

module LSystem {
  import opened Wrappers

  type Rules = map<char, string>

  /** rules.get(c, c): the replacement of one symbol. */
  function Image(rules: Rules, c: char): (r: string)
    ensures c !in rules ==> r == [c]
  {
    if c in rules then rules[c] else [c]
  }

  /** One pass of the inner loop: the images of the symbols, concatenated left to right. */
  function Pass(s: string, rules: Rules): string
  {
    if s == [] then [] else Pass(s[..|s| - 1], rules) + Image(rules, s[|s| - 1])
  }

  /** The string after n passes. */
  function Passes(s: string, rules: Rules, n: nat): string
  {
    if n == 0 then s else Pass(Passes(s, rules, n - 1), rules)
  }

  /** A pass rewrites the parts of a string independently: it is a homomorphism. */
  lemma {:induction false} PassAppend(a: string, b: string, rules: Rules)
    ensures Pass(a + b, rules) == Pass(a, rules) + Pass(b, rules)
    decreases |b|
  {
    if b == [] {
      assert a + b == a;
    } else {
      var b' := b[..|b| - 1];
      assert (a + b)[..|a + b| - 1] == a + b';
      assert (a + b)[|a + b| - 1] == b[|b| - 1];
      PassAppend(a, b', rules);
    }
  }

  /** A pass maps each symbol to its image, in order: the image of s[k] sits after the images of s[..k]. */
  lemma PassSymbol(s: string, rules: Rules, k: nat)
    requires k < |s|
    ensures Pass(s, rules) == Pass(s[..k], rules) + Image(rules, s[k]) + Pass(s[k + 1..], rules)
  {
    assert s == s[..k] + [s[k]] + s[k + 1..];
    PassAppend(s[..k] + [s[k]], s[k + 1..], rules);
    PassAppend(s[..k], [s[k]], rules);
    assert [s[k]][..0] == [];
  }

  /** The total length of the symbols' images, summed from the left. */
  function ImageLength(s: string, rules: Rules): nat
  {
    if s == [] then 0 else |Image(rules, s[0])| + ImageLength(s[1..], rules)
  }

  /** After one pass the length is the sum of the images' lengths. */
  lemma {:induction false} PassLength(s: string, rules: Rules)
    ensures |Pass(s, rules)| == ImageLength(s, rules)
  {
    if s != [] {
      assert s == [s[0]] + s[1..];
      PassAppend([s[0]], s[1..], rules);
      assert [s[0]][..0] == [];
      PassLength(s[1..], rules);
    }
  }

  /** With no rules a pass changes nothing. */
  lemma {:induction false} PassNoRules(s: string)
    ensures Pass(s, map[]) == s
  {
    if s != [] {
      PassNoRules(s[..|s| - 1]);
      assert s[..|s| - 1] + [s[|s| - 1]] == s;
    }
  }

  /** With no rules, replace is the identity for every number of passes. */
  lemma {:induction false} PassesNoRules(s: string, n: nat)
    ensures Passes(s, map[], n) == s
  {
    if n > 0 {
      PassesNoRules(s, n - 1);
      PassNoRules(s);
    }
  }

  /** Passes compose: n passes after m passes are m + n passes. */
  lemma {:induction false} PassesAdd(s: string, rules: Rules, m: nat, n: nat)
    ensures Passes(Passes(s, rules, m), rules, n) == Passes(s, rules, m + n)
  {
    if n > 0 {
      PassesAdd(s, rules, m, n - 1);
    }
  }

  /** replace: n rounds, each building the new string symbol by symbol. */
  method Replace(s: string, rules: Rules, n: nat) returns (r: string)
    ensures r == Passes(s, rules, n)
    ensures n == 0 ==> r == s
  {
    r := s;
    var i := 0;
    while i < n
      invariant 0 <= i <= n
      invariant r == Passes(s, rules, i)
    {
      var next := "";
      var k := 0;
      while k < |r|
        invariant 0 <= k <= |r|
        invariant next == Pass(r[..k], rules)
      {
        assert r[..k + 1][..k] == r[..k];
        next := next + Image(rules, r[k]);
        k := k + 1;
      }
      assert r[..k] == r;
      r := next;
      i := i + 1;
    }
  }

  // ---------------------------------------------------------------------
  // parse_args
  // ---------------------------------------------------------------------

  /** list.index: the position of the first occurrence. */
  function IndexOf(argv: seq<string>, a: string): (i: nat)
    requires a in argv
    ensures i < |argv| && argv[i] == a && a !in argv[..i]
  {
    if argv[0] == a then 0
    else
      var i := IndexOf(argv[1..], a);
      assert argv[..i + 1] == [argv[0]] + argv[1..][..i];
      i + 1
  }

  /** The arguments after the first "--"; none when there is no "--". */
  function ArgsAfterDashes(argv: seq<string>): (r: seq<string>)
    ensures "--" !in argv ==> r == []
    ensures "--" in argv ==> exists pre :: "--" !in pre && argv == pre + ["--"] + r
  {
    if "--" !in argv then []
    else
      var i := IndexOf(argv, "--");
      assert argv == argv[..i] + ["--"] + argv[i + 1..];
      argv[i + 1..]
  }

  /** Whatever comes before the first "--" is ignored. */
  lemma ArgsAfterFirstDashes(pre: seq<string>, post: seq<string>)
    requires "--" !in pre
    ensures ArgsAfterDashes(pre + ["--"] + post) == post
  {
    var argv := pre + ["--"] + post;
    var i := IndexOf(argv, "--");
    assert argv[..|pre|] == pre && argv[|pre|] == "--";
    assert i == |pre|;
    assert argv[i + 1..] == post;
  }

  /** The outcome of argparse's -t/--test option: the value, or a usage error. */
  datatype ArgError = MissingTest | MissingValue | Unrecognized(arg: string)

  /**
   * The test name given with `-t name` or `--test name`, the last one winning;
   * any other argument, an option without its value, or no option at all is a
   * usage error (argparse then exits).
   */
  function TestOption(args: seq<string>): (r: Result<string, ArgError>)
    ensures args == [] ==> r == Err(MissingTest)
    ensures r.Ok? ==> |args| >= 2 && args[|args| - 2] in {"-t", "--test"} ==> r.value == args[|args| - 1]
    decreases |args|
  {
    if args == [] then Err(MissingTest)
    else if args[0] !in {"-t", "--test"} then Err(Unrecognized(args[0]))
    else if |args| == 1 then Err(MissingValue)
    else if |args| == 2 then Ok(args[1])
    else match TestOption(args[2..])
      case Err(e) => Err(e)
      case Ok(v) => Ok(v)
  }

  /** What parse_args leads to: the test to run, or no test (parse_args returned None), or a usage error. */
  datatype Outcome = Selected(name: string) | NoTest | UsageError(error: ArgError)

  /**
   * parse_args: argparse on the arguments after "--", then None for an empty
   * argument list, an empty test name or a name that is not a test.
   */
  function ParseArgs(argv: seq<string>, tests: set<string>): (r: Outcome)
    ensures r.Selected? ==> r.name in tests && r.name != "" && "--" in argv
    ensures "--" !in argv ==> r == UsageError(MissingTest)
  {
    var args := ArgsAfterDashes(argv);
    match TestOption(args)
    case Err(e) => UsageError(e)
    case Ok(name) =>
      if args == [] then NoTest
      else if name == "" then NoTest
      else if name !in tests then NoTest
      else Selected(name)
  }

  /** `-- -t name` after any other arguments selects that test exactly when it is one. */
  lemma ParseArgsSelects(pre: seq<string>, name: string, tests: set<string>)
    requires "--" !in pre && name != ""
    ensures ParseArgs(pre + ["--", "-t", name], tests) == if name in tests then Selected(name) else NoTest
  {
    assert pre + ["--", "-t", name] == pre + ["--"] + ["-t", name];
    ArgsAfterFirstDashes(pre, ["-t", name]);
  }
}
