/**
  Line input shared by the console front ends (`src/user_io.rs`,
  `src/cust_io.rs`, `src/text.rs`): `str::trim`, decimal digits, and the
  `usize` parse of `get_user_number` with its fallback to 0.
*/
module Input {

  import opened Wrappers

  /** Rust's `char::is_whitespace`: the characters with the Unicode White_Space property. */
  predicate IsWhitespace(c: char)
  {
    ('\U{9}' <= c <= '\U{D}') || c == ' ' || c == '\U{85}' || c == '\U{A0}' || c == '\U{1680}' ||
    ('\U{2000}' <= c <= '\U{200A}') || c == '\U{2028}' || c == '\U{2029}' || c == '\U{202F}' ||
    c == '\U{205F}' || c == '\U{3000}'
  }

  /** `str::trim_start`. */
  function TrimStart(s: string): (t: string)
    ensures |t| <= |s| && t == s[|s| - |t|..]
    ensures t == [] || !IsWhitespace(t[0])
    decreases |s|
  {
    if s != [] && IsWhitespace(s[0]) then TrimStart(s[1..]) else s
  }

  /** `str::trim_end`. */
  function TrimEnd(s: string): (t: string)
    ensures |t| <= |s| && t == s[..|t|]
    ensures t == [] || !IsWhitespace(t[|t| - 1])
    decreases |s|
  {
    if s != [] && IsWhitespace(s[|s| - 1]) then TrimEnd(s[..|s| - 1]) else s
  }

  /** `str::trim`: the text without leading and trailing whitespace. */
  function Trim(s: string): (t: string)
  {
    TrimEnd(TrimStart(s))
  }

  lemma {:induction false} TrimStartNoop(s: string)
    requires s == [] || !IsWhitespace(s[0])
    ensures TrimStart(s) == s
  {
  }

  lemma {:induction false} TrimEndNoop(s: string)
    requires s == [] || !IsWhitespace(s[|s| - 1])
    ensures TrimEnd(s) == s
  {
  }

  /** The trimmed text neither starts nor ends with whitespace. */
  lemma {:induction false} TrimmedEnds(s: string)
    ensures Trim(s) == [] || (!IsWhitespace(Trim(s)[0]) && !IsWhitespace(Trim(s)[|Trim(s)| - 1]))
  {
    var u := TrimStart(s);
    var t := TrimEnd(u);
    if t != [] {
      assert t[0] == u[..|t|][0] == u[0];
    }
  }

  /** The trimmed text is the piece of the input that starts after the leading whitespace. */
  lemma {:induction false} TrimIsInfix(s: string)
    ensures var i := |s| - |TrimStart(s)|; i + |Trim(s)| <= |s| && Trim(s) == s[i..i + |Trim(s)|]
  {
    var u := TrimStart(s);
    var t := TrimEnd(u);
    var i := |s| - |u|;
    assert u == s[i..];
    assert t == u[..|t|];
    assert s[i..i + |t|] == s[i..][..|t|];
  }

  /** Trimming twice is trimming once. */
  lemma {:induction false} TrimIdempotent(s: string)
    ensures Trim(Trim(s)) == Trim(s)
  {
    var t := Trim(s);
    TrimmedEnds(s);
    TrimStartNoop(t);
    TrimEndNoop(t);
  }

  /** Leading whitespace in front of a text that does not start with whitespace is removed. */
  lemma {:induction false} TrimStartPadded(pre: string, s: string)
    requires forall k :: 0 <= k < |pre| ==> IsWhitespace(pre[k])
    requires s == [] || !IsWhitespace(s[0])
    ensures TrimStart(pre + s) == s
    decreases |pre|
  {
    if pre == [] {
      assert pre + s == s;
    } else {
      assert (pre + s)[0] == pre[0];
      assert (pre + s)[1..] == pre[1..] + s;
      TrimStartPadded(pre[1..], s);
    }
  }

  /** Trailing whitespace after a text that does not end with whitespace is removed. */
  lemma {:induction false} TrimEndPadded(s: string, post: string)
    requires forall k :: 0 <= k < |post| ==> IsWhitespace(post[k])
    requires s == [] || !IsWhitespace(s[|s| - 1])
    ensures TrimEnd(s + post) == s
    decreases |post|
  {
    if post == [] {
      assert s + post == s;
    } else {
      var front := post[..|post| - 1];
      assert (s + post)[|s + post| - 1] == post[|post| - 1];
      assert (s + post)[..|s + post| - 1] == s + front;
      TrimEndPadded(s, front);
    }
  }

  /** Whitespace around a text that has none at its ends is removed by `trim`. */
  lemma {:induction false} TrimPadded(pre: string, s: string, post: string)
    requires forall k :: 0 <= k < |pre| ==> IsWhitespace(pre[k])
    requires forall k :: 0 <= k < |post| ==> IsWhitespace(post[k])
    requires s != [] && !IsWhitespace(s[0]) && !IsWhitespace(s[|s| - 1])
    ensures Trim(pre + s + post) == s
  {
    assert pre + s + post == pre + (s + post);
    assert (s + post)[0] == s[0];
    TrimStartPadded(pre, s + post);
    TrimEndPadded(s, post);
  }

  /** An answer without whitespace at its ends, typed and followed by Enter, trims back to itself. */
  lemma TrimmedAnswer(t: string)
    requires t != [] && !IsWhitespace(t[0]) && !IsWhitespace(t[|t| - 1])
    ensures Trim(t + "\n") == t
  {
    TrimPadded("", t, "\n");
    assert "" + t + "\n" == t + "\n";
  }

  /** The index of the first `c`, or the length of the text when it holds none. */
  function IndexOf(s: string, c: char): (i: nat)
    ensures i <= |s| && (i < |s| ==> s[i] == c)
    decreases |s|
  {
    if s == [] || s[0] == c then 0 else 1 + IndexOf(s[1..], c)
  }

  /** No `c` comes before the index `IndexOf` finds. */
  lemma {:induction false} IndexOfIsFirst(s: string, c: char, k: nat)
    requires k < IndexOf(s, c)
    ensures s[k] != c
    decreases k
  {
    if k > 0 {
      IndexOfIsFirst(s[1..], c, k - 1);
    }
  }

  /** A text without `c` is searched to its end. */
  lemma {:induction false} IndexOfAbsent(s: string, c: char)
    requires forall k :: 0 <= k < |s| ==> s[k] != c
    ensures IndexOf(s, c) == |s|
    decreases |s|
  {
    if s != [] {
      IndexOfAbsent(s[1..], c);
    }
  }

  /** Where the first `c` of `s + t` lies: inside `s` if `s` holds one, otherwise inside `t`. */
  lemma {:induction false} IndexOfAppend(s: string, t: string, c: char)
    ensures IndexOf(s + t, c) == if IndexOf(s, c) < |s| then IndexOf(s, c) else |s| + IndexOf(t, c)
    decreases |s|
  {
    if s == [] {
      assert s + t == t;
    } else {
      assert (s + t)[0] == s[0];
      if s[0] != c {
        assert (s + t)[1..] == s[1..] + t;
        IndexOfAppend(s[1..], t, c);
      }
    }
  }

  predicate IsDigit(c: char)
  {
    '0' <= c <= '9'
  }

  predicate AllDigits(s: string)
  {
    forall k :: 0 <= k < |s| ==> IsDigit(s[k])
  }

  /** The value of a decimal digit; other characters count as 0 and never reach it. */
  function DigitValue(c: char): (d: nat)
    ensures d < 10
  {
    if IsDigit(c) then c as int - '0' as int else 0
  }

  /** The value of a run of decimal digits, most significant first. */
  function Value(s: string): (n: nat)
    decreases |s|
  {
    if s == [] then 0 else 10 * Value(s[..|s| - 1]) + DigitValue(s[|s| - 1])
  }

  /** The shortest decimal spelling of `n`. */
  function Decimal(n: nat): (s: string)
    ensures s != []
    decreases n
  {
    if n < 10 then ['0' + n as char] else Decimal(n / 10) + ['0' + (n % 10) as char]
  }

  /** The decimal spelling is made of digits. */
  lemma {:induction false} DecimalDigits(n: nat)
    ensures AllDigits(Decimal(n))
    decreases n
  {
    if n >= 10 {
      DecimalDigits(n / 10);
    }
  }

  /** Reading back the decimal spelling gives the number. */
  lemma {:induction false} ValueOfDecimal(n: nat)
    ensures AllDigits(Decimal(n)) && Value(Decimal(n)) == n
    decreases n
  {
    DecimalDigits(n);
    if n >= 10 {
      ValueOfDecimal(n / 10);
      var s := Decimal(n);
      assert s[..|s| - 1] == Decimal(n / 10);
    }
  }

  const UsizeLimit: nat := 0x1_0000_0000_0000_0000

  /**
    `str::parse::<usize>()`: an optional '+', then one or more ASCII digits,
    whose value must fit 64 bits.
  */
  function ParseUsize(s: string): (r: Option<nat>)
    ensures r.Some? ==> r.value < UsizeLimit
    ensures r.Some? ==> exists d :: d != [] && AllDigits(d) && (s == d || s == "+" + d) && r.value == Value(d)
  {
    var digits := if s != [] && s[0] == '+' then s[1..] else s;
    if digits != [] && AllDigits(digits) && Value(digits) < UsizeLimit then
      assert s == digits || s == "+" + digits;
      Some(Value(digits))
    else None
  }

  /** A text with no digit never parses. */
  lemma {:induction false} NoDigitsNoNumber(s: string)
    requires forall k :: 0 <= k < |s| ==> !IsDigit(s[k])
    ensures ParseUsize(s) == None
  {
    if s != [] && s[0] == '+' && |s| > 1 {
      assert !IsDigit(s[1..][0]);
    } else if s != [] {
      assert !IsDigit(s[0]);
    }
  }

  /** `get_user_number` once the line is read: the trimmed line's number, or 0 when it does not parse. */
  function NumberOrZero(line: string): (n: nat)
    ensures n < UsizeLimit
    ensures ParseUsize(Trim(line)) == None ==> n == 0
  {
    match ParseUsize(Trim(line))
    case Some(v) => v
    case None => 0
  }

  /** A decimal spelling starts and ends with a digit, so Enter is all `trim` removes. */
  lemma DecimalTrimmed(n: nat)
    ensures Trim(Decimal(n) + "\n") == Decimal(n)
  {
    var d := Decimal(n);
    DecimalDigits(n);
    assert IsDigit(d[0]) && IsDigit(d[|d| - 1]);
    TrimmedAnswer(d);
  }

  /** A number typed as its decimal spelling followed by Enter is read back. */
  lemma NumberOrZeroReadsDecimal(n: nat)
    requires n < UsizeLimit
    ensures NumberOrZero(Decimal(n) + "\n") == n
  {
    var d := Decimal(n);
    ValueOfDecimal(n);
    DecimalTrimmed(n);
    ParseDigits(d);
  }

  /** Each character of the trimmed line is the line's character at the same place after the leading whitespace. */
  lemma TrimmedCharAt(line: string, k: nat)
    requires k < |Trim(line)|
    ensures var i := |line| - |TrimStart(line)|; i + k < |line| && Trim(line)[k] == line[i + k]
  {
    TrimIsInfix(line);
  }

  /** Trimming a line without digits leaves none. */
  lemma DigitFreeTrim(line: string)
    requires forall k :: 0 <= k < |line| ==> !IsDigit(line[k])
    ensures forall k :: 0 <= k < |Trim(line)| ==> !IsDigit(Trim(line)[k])
  {
    forall k | 0 <= k < |Trim(line)| ensures !IsDigit(Trim(line)[k]) {
      TrimmedCharAt(line, k);
    }
  }

  /** A line holding no digit reads as 0. */
  lemma NumberOrZeroWithoutDigits(line: string)
    requires forall k :: 0 <= k < |line| ==> !IsDigit(line[k])
    ensures NumberOrZero(line) == 0
  {
    DigitFreeTrim(line);
    NoDigitsNoNumber(Trim(line));
  }

  /** Every run of ASCII digits whose value fits 64 bits parses, with or without a leading '+'. */
  lemma ParseDigits(d: string)
    requires d != [] && AllDigits(d) && Value(d) < UsizeLimit
    ensures ParseUsize(d) == Some(Value(d))
    ensures ParseUsize("+" + d) == Some(Value(d))
  {
    assert d[0] != '+' by {
      assert IsDigit(d[0]);
    }
    assert ("+" + d)[0] == '+' && ("+" + d)[1..] == d;
  }

  /** A run of digits typed with whitespace around it, such as " 007\n", is read as its value. */
  lemma NumberOrZeroReadsDigits(pre: string, d: string, post: string)
    requires forall k :: 0 <= k < |pre| ==> IsWhitespace(pre[k])
    requires forall k :: 0 <= k < |post| ==> IsWhitespace(post[k])
    requires d != [] && AllDigits(d) && Value(d) < UsizeLimit
    ensures NumberOrZero(pre + d + post) == Value(d)
  {
    assert IsDigit(d[0]) && IsDigit(d[|d| - 1]);
    TrimPadded(pre, d, post);
    ParseDigits(d);
  }
}
