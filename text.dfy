// The string handling the add-on relies on: str.split on one separator
// character, str.join, and the decimal text of whole numbers as Python's
// str() and float() write and read it.

module Text {
  import opened Wrappers

  /** str.split(sep): the pieces between separators, empty pieces included. */
  function Split(s: string, sep: char): (r: seq<string>)
    ensures |r| >= 1
    ensures forall t :: t in r ==> sep !in t
  {
    if s == [] then [""]
    else
      var rest := Split(s[1..], sep);
      if s[0] == sep then [""] + rest
      else [[s[0]] + rest[0]] + rest[1..]
  }

  /** sep.join(pieces). */
  function Join(pieces: seq<string>, sep: char): string
  {
    if pieces == [] then ""
    else if |pieces| == 1 then pieces[0]
    else pieces[0] + [sep] + Join(pieces[1..], sep)
  }

  /** Splitting loses nothing: joining the pieces with the separator gives the text back. */
  lemma {:induction false} JoinSplit(s: string, sep: char)
    ensures Join(Split(s, sep), sep) == s
  {
    if s != [] {
      JoinSplit(s[1..], sep);
      var rest := Split(s[1..], sep);
      if s[0] == sep {
        assert Split(s, sep) == [""] + rest;
        assert Join([""] + rest, sep) == "" + [sep] + Join(rest, sep);
      } else {
        var r := Split(s, sep);
        assert r[0] == [s[0]] + rest[0] && r[1..] == rest[1..];
        if |rest| == 1 {
          assert Join(r, sep) == [s[0]] + rest[0];
        } else {
          assert Join(rest, sep) == rest[0] + [sep] + Join(rest[1..], sep);
          assert Join(r, sep) == ([s[0]] + rest[0]) + [sep] + Join(rest[1..], sep);
        }
      }
    }
  }

  /** Joining pieces that hold no separator and splitting again gives the pieces back. */
  lemma {:induction false} SplitJoin(pieces: seq<string>, sep: char)
    requires |pieces| >= 1
    requires forall k :: 0 <= k < |pieces| ==> sep !in pieces[k]
    ensures Split(Join(pieces, sep), sep) == pieces
  {
    if |pieces| == 1 {
      SplitWord(pieces[0], sep);
    } else {
      SplitJoin(pieces[1..], sep);
      SplitWordSep(pieces[0], Join(pieces[1..], sep), sep);
      assert [pieces[0]] + pieces[1..] == pieces;
    }
  }

  lemma {:induction false} SplitWord(w: string, sep: char)
    requires sep !in w
    ensures Split(w, sep) == [w]
  {
    if w != [] {
      SplitWord(w[1..], sep);
      assert w[0] != sep by { assert w[0] in w; }
      assert [w[0]] + w[1..] == w;
    }
  }

  /** A separator-free word followed by a separator splits off as the first piece. */
  lemma {:induction false} SplitWordSep(w: string, rest: string, sep: char)
    requires sep !in w
    ensures Split(w + [sep] + rest, sep) == [w] + Split(rest, sep)
  {
    if w == [] {
      assert w + [sep] + rest == [sep] + rest;
      assert ([sep] + rest)[1..] == rest;
    } else {
      SplitWordSep(w[1..], rest, sep);
      var x := w + [sep] + rest;
      assert x[1..] == w[1..] + [sep] + rest;
      assert x[0] == w[0] && w[0] != sep by { assert w[0] in w; }
      var tail := Split(x[1..], sep);
      assert tail[0] == w[1..] && tail[1..] == Split(rest, sep);
      assert [w[0]] + w[1..] == w;
    }
  }

  // ---------------------------------------------------------------------
  // Decimal text of whole numbers
  // ---------------------------------------------------------------------

  predicate IsDigit(c: char) { '0' <= c <= '9' }

  function DigitChar(d: nat): (c: char)
    requires d < 10
    ensures IsDigit(c)
  {
    "0123456789"[d]
  }

  function DigitValue(c: char): (d: nat)
    requires IsDigit(c)
    ensures d < 10
  {
    (c as int - '0' as int)
  }

  /** str(n) for a natural number: its decimal digits, most significant first. */
  function NatText(n: nat): (s: string)
    ensures |s| > 0 && forall k :: 0 <= k < |s| ==> IsDigit(s[k])
  {
    if n < 10 then [DigitChar(n)] else NatText(n / 10) + [DigitChar(n % 10)]
  }

  /** The value of a non-empty run of decimal digits. */
  function DigitsValue(s: string): nat
    requires |s| > 0 && forall k :: 0 <= k < |s| ==> IsDigit(s[k])
  {
    if |s| == 1 then DigitValue(s[0])
    else 10 * DigitsValue(s[..|s| - 1]) + DigitValue(s[|s| - 1])
  }

  lemma DigitRoundTrip(d: nat)
    requires d < 10
    ensures DigitValue(DigitChar(d)) == d
  {
  }

  /** Reading back the decimal text of n gives n. */
  lemma {:induction false} NatTextRoundTrip(n: nat)
    ensures DigitsValue(NatText(n)) == n
  {
    if n < 10 {
      DigitRoundTrip(n);
    } else {
      NatTextRoundTrip(n / 10);
      DigitRoundTrip(n % 10);
      var s := NatText(n);
      assert s[..|s| - 1] == NatText(n / 10);
    }
  }

  /** str(i) for an integer: a minus sign before the digits of a negative number. */
  function IntText(i: int): (s: string)
    ensures |s| > 0 && forall k :: 0 <= k < |s| ==> s[k] == '-' || IsDigit(s[k])
  {
    if i < 0 then "-" + NatText(-i) else NatText(i)
  }

  /** str(float(i)) for a whole number i that Python prints without an exponent. */
  function FloatText(i: int): (s: string)
    ensures |s| > 2 && ',' !in s
  {
    var t := IntText(i);
    assert ',' !in t by {
      forall k | 0 <= k < |t| ensures t[k] != ',' { }
    }
    t + ".0"
  }

  predicate AllDigits(s: string) { |s| > 0 && forall k :: 0 <= k < |s| ==> IsDigit(s[k]) }

  /** int(s) on an optionally signed run of digits; None stands for the ValueError. */
  function ParseInt(s: string): Option<int>
  {
    if |s| > 1 && s[0] == '-' && AllDigits(s[1..]) then
      var v: int := 0 - DigitsValue(s[1..]) as int;
      Some(v)
    else if AllDigits(s) then Some(DigitsValue(s))
    else None
  }

  /** float(s) on text of the form <int> or <int>.0, read as that whole number. */
  function ParseWholeFloat(s: string): Option<int>
  {
    if |s| >= 2 && s[|s| - 2..] == ".0" then ParseInt(s[..|s| - 2]) else ParseInt(s)
  }

  lemma IntTextRoundTrip(i: int)
    ensures ParseInt(IntText(i)) == Some(i)
  {
    var s := IntText(i);
    if i < 0 {
      NatTextRoundTrip(-i);
      assert s[1..] == NatText(-i);
      assert AllDigits(s[1..]);
      assert s[0] == '-' && |s| > 1;
    } else {
      NatTextRoundTrip(i);
      assert AllDigits(s);
      assert IsDigit(s[0]);
    }
  }

  /** float(str(float(i))) == i for whole numbers, and so does int(str(i)). */
  lemma WholeFloatRoundTrip(i: int)
    ensures ParseWholeFloat(FloatText(i)) == Some(i)
    ensures ParseWholeFloat(IntText(i)) == Some(i)
  {
    var s := FloatText(i);
    assert s[..|s| - 2] == IntText(i);
    IntTextRoundTrip(i);
    var t := IntText(i);
    assert !(|t| >= 2 && t[|t| - 2..] == ".0") by {
      if |t| >= 2 {
        assert t[|t| - 2..][0] == t[|t| - 2] != '.';
      }
    }
  }
}
