/**
  The coordinate scanner of `parse_string_to_coordinates` (identical in
  `src/user_io.rs`, `src/cust_io.rs` and `src/text.rs`): every match of the
  pattern `([\d]+,[\d]+)+`, taken left to right without overlap, becomes one
  pair. Because a digit run is followed by a non-digit, the repetition never
  takes a second round and each match is a maximal digit run, a comma and a
  maximal digit run.
*/
module Coordinates {

  import opened Wrappers
  import opened Input

  /** The number of digits the text starts with. */
  function DigitRun(s: string): (n: nat)
    ensures n <= |s|
    ensures n == |s| || !IsDigit(s[n])
    decreases |s|
  {
    if s != [] && IsDigit(s[0]) then 1 + DigitRun(s[1..]) else 0
  }

  /** A digit run followed by a non-digit (or nothing) is exactly that run. */
  lemma {:induction false} DigitRunOf(d: string, t: string)
    requires AllDigits(d)
    requires t == [] || !IsDigit(t[0])
    ensures DigitRun(d + t) == |d|
    decreases |d|
  {
    if d != [] {
      assert (d + t)[0] == d[0];
      assert (d + t)[1..] == d[1..] + t;
      DigitRunOf(d[1..], t);
    } else {
      assert d + t == t;
    }
  }

  /**
    The match of `\d+,\d+` that starts the text, if one does: the pair of
    numbers it spells and the length of the match.
  */
  function MatchAt(s: string): (m: Option<((nat, nat), nat)>)
    ensures m.Some? ==> 3 <= m.value.1 <= |s|
  {
    var j := DigitRun(s);
    if 0 < j && j + 1 < |s| && s[j] == ',' && IsDigit(s[j + 1]) then
      var k := j + 1 + DigitRun(s[j + 1..]);
      Some(((Value(s[..j]), Value(s[j + 1..k])), k))
    else None
  }

  /** The pairs of all matches, left to right; a position where no match starts is skipped. */
  function Scan(s: string): (cells: seq<(nat, nat)>)
    decreases |s|
  {
    if s == [] then []
    else match MatchAt(s)
      case Some((pair, k)) => [pair] + Scan(s[k..])
      case None => Scan(s[1..])
  }

  lemma ScanMatched(s: string)
    requires MatchAt(s).Some?
    ensures Scan(s) == [MatchAt(s).value.0] + Scan(s[MatchAt(s).value.1..])
  {
  }

  lemma ScanSkipped(s: string)
    requires s != [] && MatchAt(s).None?
    ensures Scan(s) == Scan(s[1..])
  {
  }

  /** `parse_string_to_coordinates`: one `push` per match found by `captures_iter`. */
  method ParseStringToCoordinates(input: string) returns (cells: seq<(nat, nat)>)
    ensures cells == Scan(input)
  {
    cells := [];
    var rest := input;
    while rest != []
      invariant cells + Scan(rest) == Scan(input)
      decreases |rest|
    {
      var m := MatchAt(rest);
      if m.Some? {
        ScanMatched(rest);
        var (pair, k) := m.value;
        assert (cells + [pair]) + Scan(rest[k..]) == cells + ([pair] + Scan(rest[k..]));
        cells := cells + [pair];
        rest := rest[k..];
      } else {
        ScanSkipped(rest);
        rest := rest[1..];
      }
    }
    assert cells + [] == cells;
  }

  /** Text without digits contributes no pair and does not disturb what follows it. */
  lemma {:induction false} ScanSkipsNoise(noise: string, s: string)
    requires forall k :: 0 <= k < |noise| ==> !IsDigit(noise[k])
    ensures Scan(noise + s) == Scan(s)
    decreases |noise|
  {
    if noise == [] {
      assert noise + s == s;
    } else {
      var t := noise + s;
      assert t[0] == noise[0];
      ScanSkipped(t);
      assert t[1..] == noise[1..] + s;
      ScanSkipsNoise(noise[1..], s);
    }
  }

  /** A line with no digit parses to no coordinates. */
  lemma {:induction false} NoDigitsNoCoordinates(s: string)
    requires forall k :: 0 <= k < |s| ==> !IsDigit(s[k])
    ensures Scan(s) == []
  {
    ScanSkipsNoise(s, "");
    assert s + "" == s;
  }

  /** How a coordinate is typed: `x,y`. */
  function PairText(pair: (nat, nat)): (t: string)
    ensures |t| >= 3
  {
    Decimal(pair.0) + "," + Decimal(pair.1)
  }

  /** A list of coordinates typed as the prompt asks: `x,y x,y ...`, each followed by a space. */
  function Render(pairs: seq<(nat, nat)>): string
    decreases |pairs|
  {
    if pairs == [] then "" else PairText(pairs[0]) + " " + Render(pairs[1..])
  }

  /** Where the pieces of two digit runs around a comma, and what follows, lie. */
  lemma {:induction false} PiecesOf(a: string, b: string, rest: string)
    requires a != [] && AllDigits(a) && b != [] && AllDigits(b)
    requires rest == [] || !IsDigit(rest[0])
    ensures var s := a + "," + b + rest; var j := |a|;
              DigitRun(s) == j && j + 1 < |s| && s[j] == ',' && IsDigit(s[j + 1]) &&
              s[..j] == a && DigitRun(s[j + 1..]) == |b| && s[j + 1..j + 1 + |b|] == b
  {
    var s := a + "," + b + rest;
    var j := |a|;
    assert s == a + ("," + b + rest);
    DigitRunOf(a, "," + b + rest);
    assert s[j + 1..] == b + rest;
    DigitRunOf(b, rest);
  }

  /** Two digit runs around a comma, followed by a non-digit (or nothing), are one match. */
  lemma {:induction false} MatchOf(a: string, b: string, rest: string)
    requires a != [] && AllDigits(a) && b != [] && AllDigits(b)
    requires rest == [] || !IsDigit(rest[0])
    ensures MatchAt(a + "," + b + rest) == Some(((Value(a), Value(b)), |a| + 1 + |b|))
  {
    PiecesOf(a, b, rest);
  }

  /** A typed coordinate followed by a non-digit (or nothing) is matched as exactly that pair. */
  lemma {:induction false} MatchPair(pair: (nat, nat), rest: string)
    requires rest == [] || !IsDigit(rest[0])
    ensures MatchAt(PairText(pair) + rest) == Some((pair, |PairText(pair)|))
  {
    ValueOfDecimal(pair.0);
    ValueOfDecimal(pair.1);
    MatchOf(Decimal(pair.0), Decimal(pair.1), rest);
  }

  /** A typed coordinate and a separator that is not a digit scan as that pair, then whatever follows. */
  lemma {:induction false} ScanPairThen(pair: (nat, nat), sep: char, rest: string)
    requires !IsDigit(sep)
    ensures Scan(PairText(pair) + [sep] + rest) == [pair] + Scan(rest)
  {
    var p := PairText(pair);
    var t := p + [sep] + rest;
    assert t == p + ([sep] + rest);
    MatchPair(pair, [sep] + rest);
    ScanMatched(t);
    assert t[|p|..] == [sep] + rest;
    ScanSkipsNoise([sep], rest);
  }

  lemma {:induction false} ConsAppend<T>(s: seq<T>, t: seq<T>)
    requires s != []
    ensures [s[0]] + (s[1..] + t) == s + t
  {
    assert s == [s[0]] + s[1..];
  }

  /** Scanning typed coordinates and then more text gives those coordinates first. */
  lemma {:induction false} ScanRendered(pairs: seq<(nat, nat)>, rest: string)
    ensures Scan(Render(pairs) + rest) == pairs + Scan(rest)
    decreases |pairs|
  {
    if pairs == [] {
      assert Render(pairs) + rest == rest;
    } else {
      var others := Render(pairs[1..]) + rest;
      assert Scan(Render(pairs) + rest) == [pairs[0]] + Scan(others) by {
        assert Render(pairs) + rest == PairText(pairs[0]) + " " + others;
        ScanPairThen(pairs[0], ' ', others);
      }
      ScanRendered(pairs[1..], rest);
      ConsAppend(pairs, Scan(rest));
    }
  }

  /** Every list of coordinates typed as the prompt asks is read back unchanged. */
  lemma {:induction false} ScanRoundTrip(pairs: seq<(nat, nat)>)
    ensures Scan(Render(pairs)) == pairs
  {
    ScanRendered(pairs, "");
    assert Render(pairs) + "" == Render(pairs);
    assert pairs + [] == pairs;
  }

  /** A digit run followed by a comma (or nothing) is cut right after the run. */
  lemma {:induction false} CommaAtDigits(d: string, t: string)
    requires AllDigits(d) && (t == [] || t[0] == ',')
    ensures IndexOf(d + t, ',') == |d|
    decreases |d|
  {
    if d == [] {
      assert d + t == t;
    } else {
      assert (d + t)[0] == d[0];
      assert (d + t)[1..] == d[1..] + t;
      CommaAtDigits(d[1..], t);
    }
  }

  /**
    `get_user_coordinate` of `src/user_io.rs` and `src/cust_io.rs` once the
    line is read: the trimmed line is cut at its commas and the first two
    pieces must parse as `usize`; with fewer than two pieces or a piece that
    does not parse the source panics (`None` here). Pieces after the second
    are ignored.
  */
  function SplitCoordinate(line: string): (r: Option<(nat, nat)>)
    ensures r.Some? ==> IndexOf(Trim(line), ',') < |Trim(line)|
    ensures r.Some? ==> r.value.0 < UsizeLimit && r.value.1 < UsizeLimit
  {
    SplitPair(Trim(line))
  }

  /** The first two comma-separated pieces of a trimmed line, parsed. */
  function SplitPair(t: string): (r: Option<(nat, nat)>)
    ensures r.Some? ==> IndexOf(t, ',') < |t|
    ensures r.Some? ==> ParseUsize(t[..IndexOf(t, ',')]) == Some(r.value.0)
    ensures r.Some? ==> r.value.0 < UsizeLimit && r.value.1 < UsizeLimit
  {
    var i := IndexOf(t, ',');
    if i == |t| then None
    else
      var rest := t[i + 1..];
      match (ParseUsize(t[..i]), ParseUsize(rest[..IndexOf(rest, ',')]))
      case (Some(x), Some(y)) => Some((x, y))
      case _ => None
  }

  /** The decimal spelling of a `usize` parses back to it. */
  lemma ParseDecimal(n: nat)
    requires n < UsizeLimit
    ensures ParseUsize(Decimal(n)) == Some(n)
  {
    ValueOfDecimal(n);
    assert IsDigit(Decimal(n)[0]);
  }

  /** A digit run, a comma and more text are cut at that comma. */
  lemma CutAtComma(a: string, b: string)
    requires AllDigits(a)
    ensures var t := a + "," + b; IndexOf(t, ',') == |a| < |t| && t[..|a|] == a && t[|a| + 1..] == b
  {
    var t := a + "," + b;
    assert t == a + ("," + b);
    CommaAtDigits(a, "," + b);
  }

  /** Two digit runs around a comma are cut into those runs. */
  lemma SplitAtComma(a: string, b: string, x: nat, y: nat)
    requires AllDigits(a) && AllDigits(b)
    requires ParseUsize(a) == Some(x) && ParseUsize(b) == Some(y)
    ensures SplitPair(a + "," + b) == Some((x, y))
  {
    CutAtComma(a, b);
    assert b[..IndexOf(b, ',')] == b by {
      CommaAtDigits(b, "");
      assert b + "" == b;
    }
  }

  /** A typed coordinate is cut into its two numbers. */
  lemma PairTextSplits(pair: (nat, nat))
    requires pair.0 < UsizeLimit && pair.1 < UsizeLimit
    ensures SplitPair(PairText(pair)) == Some(pair)
  {
    DecimalDigits(pair.0);
    DecimalDigits(pair.1);
    ParseDecimal(pair.0);
    ParseDecimal(pair.1);
    SplitAtComma(Decimal(pair.0), Decimal(pair.1), pair.0, pair.1);
  }

  /** A typed coordinate starts and ends with a digit, so Enter is all `trim` removes. */
  lemma PairTextTrimmed(pair: (nat, nat))
    ensures Trim(PairText(pair) + "\n") == PairText(pair)
  {
    var t := PairText(pair);
    DecimalDigits(pair.0);
    DecimalDigits(pair.1);
    assert IsDigit(t[0]) && IsDigit(t[|t| - 1]);
    TrimmedAnswer(t);
  }

  /** A coordinate typed as `x,y` and Enter is read back, as long as both numbers fit a `usize`. */
  lemma SplitCoordinateReadsPair(pair: (nat, nat))
    requires pair.0 < UsizeLimit && pair.1 < UsizeLimit
    ensures SplitCoordinate(PairText(pair) + "\n") == Some(pair)
  {
    PairTextSplits(pair);
    PairTextTrimmed(pair);
  }

  /** Trimming a line without a comma leaves none. */
  lemma CommaFreeTrim(line: string)
    requires forall k :: 0 <= k < |line| ==> line[k] != ','
    ensures forall k :: 0 <= k < |Trim(line)| ==> Trim(line)[k] != ','
  {
    forall k | 0 <= k < |Trim(line)| ensures Trim(line)[k] != ',' {
      TrimmedCharAt(line, k);
    }
  }

  /** A line without a comma makes the source panic. */
  lemma SplitCoordinateNeedsComma(line: string)
    requires forall k :: 0 <= k < |line| ==> line[k] != ','
    ensures SplitCoordinate(line) == None
  {
    CommaFreeTrim(line);
    IndexOfAbsent(Trim(line), ',');
  }

  /**
    `read_file_coordinates` (`read_coords_from_file` in `src/save_load.rs`):
    the pairs of the file's text, or none when the file cannot be read.
  */
  method ReadFileCoordinates(file: Option<string>) returns (cells: seq<(nat, nat)>)
    ensures file.None? ==> cells == []
    ensures file.Some? ==> cells == Scan(file.value)
  {
    match file
    case None =>
      cells := [];
    case Some(text) =>
      cells := ParseStringToCoordinates(text);
  }
}
