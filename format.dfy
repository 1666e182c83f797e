/**
  The two-glyph board text shared by `src/user_io.rs`, `src/cust_io.rs` and
  `src/save_load.rs`: one line of glyphs per row, rows joined by '\n' with no
  newline after the last one. Loading splits on '\n', keeps the glyphs of each
  piece in order and skips every other character; the width is the length of
  the first parsed row and the height the number of pieces.
*/
module Format {

  import opened Game
  import opened Wrappers

  /** The glyphs of one row, cell by cell. */
  function RowText(row: seq<CellStatus>): (t: string)
    ensures |t| == |row|
    ensures forall i :: 0 <= i < |row| ==> t[i] == ToChar(row[i])
  {
    seq(|row|, i requires 0 <= i < |row| => ToChar(row[i]))
  }

  lemma RowTextHasNoNewline(row: seq<CellStatus>)
    ensures '\n' !in RowText(row)
  {
    var t := RowText(row);
    forall i | 0 <= i < |t| ensures t[i] != '\n' {
      assert t[i] == ToChar(row[i]);
    }
  }

  /** The saved text: the row lines joined by '\n'. */
  function Serialize(rows: seq<seq<CellStatus>>): (s: string)
    decreases |rows|
  {
    if |rows| == 0 then ""
    else if |rows| == 1 then RowText(rows[0])
    else Serialize(rows[..|rows| - 1]) + "\n" + RowText(rows[|rows| - 1])
  }

  /** The text before the final `pop`: every row line followed by '\n'. */
  function Terminated(rows: seq<seq<CellStatus>>): string
    decreases |rows|
  {
    if |rows| == 0 then "" else Terminated(rows[..|rows| - 1]) + RowText(rows[|rows| - 1]) + "\n"
  }

  /** Popping the last character of the terminated text gives the saved text. */
  lemma {:induction false} TerminatedIsSerializedPlusNewline(rows: seq<seq<CellStatus>>)
    ensures |rows| == 0 ==> Terminated(rows) == ""
    ensures |rows| > 0 ==> Terminated(rows) == Serialize(rows) + "\n"
    decreases |rows|
  {
    if |rows| > 1 {
      TerminatedIsSerializedPlusNewline(rows[..|rows| - 1]);
    }
  }

  /**
    `save_board_to_file` (content building): pushes each row's glyphs and a
    '\n', then pops the last character.
  */
  method SaveBoardToFile(board: Board) returns (contents: string)
    ensures contents == Serialize(board.space)
  {
    var space := board.space;
    contents := "";
    for k := 0 to |space|
      invariant contents == Terminated(space[..k])
    {
      assert space[..k + 1][..k] == space[..k];
      var row := space[k];
      for i := 0 to |row|
        invariant contents == Terminated(space[..k]) + RowText(row[..i])
      {
        assert RowText(row[..i + 1]) == RowText(row[..i]) + [ToChar(row[i])];
        contents := contents + [ToChar(row[i])];
      }
      assert row[..|row|] == row;
      contents := contents + "\n";
    }
    assert space[..|space|] == space;
    TerminatedIsSerializedPlusNewline(space);
    if |contents| > 0 {
      contents := contents[..|contents| - 1];
    }
  }

  function CountNewlines(s: string): nat
    decreases |s|
  {
    if |s| == 0 then 0 else CountNewlines(s[..|s| - 1]) + (if s[|s| - 1] == '\n' then 1 else 0)
  }

  /** The sequence with `t` appended to its last element. */
  function ExtendLast<T>(s: seq<seq<T>>, t: seq<T>): (r: seq<seq<T>>)
    requires |s| > 0
    ensures |r| == |s|
  {
    s[..|s| - 1] + [s[|s| - 1] + t]
  }

  lemma ExtendLastNothing<T>(s: seq<seq<T>>)
    requires |s| > 0
    ensures ExtendLast(s, []) == s
  {
    assert s[|s| - 1] + [] == s[|s| - 1];
  }

  lemma ExtendLastTwice<T>(s: seq<seq<T>>, a: seq<T>, b: seq<T>)
    requires |s| > 0
    ensures ExtendLast(ExtendLast(s, a), b) == ExtendLast(s, a + b)
  {
    var n := |s| - 1;
    var once := ExtendLast(s, a);
    assert once[..n] == s[..n];
    assert once[n] == s[n] + a;
    assert s[n] + a + b == s[n] + (a + b);
  }

  /** Closing the last element and opening an empty one. */
  lemma ExtendLastOfClosed<T>(front: seq<seq<T>>, last: seq<T>, t: seq<T>)
    ensures ExtendLast(front + [last], t) == front + [last + t]
  {
    assert (front + [last])[..|front|] == front;
  }

  /** One character of `str::split('\n')`: a newline opens a new piece, anything else extends the last. */
  function SplitStep(pieces: seq<string>, c: char): (r: seq<string>)
    requires |pieces| > 0
    ensures |r| == |pieces| + (if c == '\n' then 1 else 0)
  {
    if c == '\n' then pieces + [""] else ExtendLast(pieces, [c])
  }

  /** `str::split('\n')`: the pieces between newlines, one more than there are newlines. */
  function Split(s: string): (pieces: seq<string>)
    ensures |pieces| == CountNewlines(s) + 1
    decreases |s|
  {
    if |s| == 0 then [""] else SplitStep(Split(s[..|s| - 1]), s[|s| - 1])
  }

  lemma SplitSnoc(s: string, c: char)
    ensures Split(s + [c]) == SplitStep(Split(s), c)
  {
    assert (s + [c])[..|s|] == s;
  }

  /** The glyphs of a text as cells, in order; every other character is dropped. */
  function GlyphCells(t: string): (cells: seq<CellStatus>)
    ensures |cells| <= |t|
    decreases |t|
  {
    if |t| == 0 then []
    else
      var cells := GlyphCells(t[..|t| - 1]);
      match FromChar(t[|t| - 1])
      case Some(c) => cells + [c]
      case None => cells
  }

  /** One character of the loader: a newline closes the row, a glyph extends it, anything else is skipped. */
  function ParseStep(rows: seq<seq<CellStatus>>, c: char): (r: seq<seq<CellStatus>>)
    requires |rows| > 0
    ensures |r| == |rows| + (if c == '\n' then 1 else 0)
  {
    if c == '\n' then rows + [[]]
    else match FromChar(c)
      case Some(cell) => ExtendLast(rows, [cell])
      case None => rows
  }

  /** The rows the loader builds, one per piece of `split('\n')`. */
  function ParseRows(s: string): (rows: seq<seq<CellStatus>>)
    ensures |rows| == CountNewlines(s) + 1
    decreases |s|
  {
    if |s| == 0 then [[]] else ParseStep(ParseRows(s[..|s| - 1]), s[|s| - 1])
  }

  lemma ParseSnoc(s: string, c: char)
    ensures ParseRows(s + [c]) == ParseStep(ParseRows(s), c)
  {
    assert (s + [c])[..|s|] == s;
  }

  lemma GlyphCellsSnoc(t: string, c: char)
    ensures GlyphCells(t + [c]) == GlyphCells(t) + (match FromChar(c) case Some(x) => [x] case None => [])
  {
    assert (t + [c])[..|t|] == t;
  }

  /** Row k of the loaded board is the glyphs of the k-th piece of the text split on '\n'. */
  lemma {:induction false} ParseRowsIsSplitThenFiltered(s: string)
    ensures |ParseRows(s)| == |Split(s)|
    ensures forall k :: 0 <= k < |Split(s)| ==> ParseRows(s)[k] == GlyphCells(Split(s)[k])
    decreases |s|
  {
    if |s| > 0 {
      var p := s[..|s| - 1];
      var c := s[|s| - 1];
      assert s == p + [c];
      ParseRowsIsSplitThenFiltered(p);
      ParseSnoc(p, c);
      SplitSnoc(p, c);
      var pieces, rows := Split(p), ParseRows(p);
      var n := |pieces| - 1;
      if c == '\n' {
        assert Split(s) == pieces + [""];
        assert ParseRows(s) == rows + [[]];
        forall k | 0 <= k < |Split(s)| ensures ParseRows(s)[k] == GlyphCells(Split(s)[k]) {
          if k < |pieces| {
            assert Split(s)[k] == pieces[k] && ParseRows(s)[k] == rows[k];
          }
        }
      } else {
        assert Split(s) == ExtendLast(pieces, [c]);
        GlyphCellsSnoc(pieces[n], c);
        forall k | 0 <= k < |Split(s)| ensures ParseRows(s)[k] == GlyphCells(Split(s)[k]) {
          if k < n {
            assert Split(s)[k] == pieces[k] && ParseRows(s)[k] == rows[k];
          } else {
            assert Split(s)[k] == pieces[n] + [c];
          }
        }
      }
    }
  }

  /** The board the loaders return for a readable text. */
  function LoadedBoard(s: string): (b: Board)
    ensures b.yMax == CountNewlines(s) + 1 && |b.space| == b.yMax
  {
    var rows := ParseRows(s);
    Board(rows, |rows[0]|, |rows|)
  }

  /**
    `load_board_from_file`: an unreadable file gives a fresh dead default-size
    board; otherwise the text is split on '\n' and each piece's glyphs become a
    row. The width is taken from the first row.
  */
  method LoadBoardFromFile(file: Option<string>) returns (board: Board)
    ensures file.None? ==> board == NewBoard(GameX, GameY)
    ensures file.Some? ==> board == LoadedBoard(file.value)
  {
    if file.None? {
      return NewBoard(GameX, GameY);
    }
    var contents := file.value;
    var constructedBoard: seq<seq<CellStatus>> := [];
    var constructedRow: seq<CellStatus> := [];
    for i := 0 to |contents|
      invariant constructedBoard + [constructedRow] == ParseRows(contents[..i])
    {
      assert contents[..i + 1][..i] == contents[..i];
      var s := contents[i];
      if s == '\n' {
        constructedBoard := constructedBoard + [constructedRow];
        constructedRow := [];
      } else {
        match FromChar(s)
        case Some(cell) => constructedRow := constructedRow + [cell];
        case None =>
      }
    }
    assert contents[..|contents|] == contents;
    constructedBoard := constructedBoard + [constructedRow];
    board := Board(constructedBoard, |constructedBoard[0]|, |constructedBoard|);
  }

  /** Appending a row's glyphs extends the last parsed row by exactly that row. */
  lemma {:induction false} ParseAppendRow(p: string, row: seq<CellStatus>)
    ensures ParseRows(p + RowText(row)) == ExtendLast(ParseRows(p), row)
    decreases |row|
  {
    if |row| == 0 {
      assert p + RowText(row) == p;
      ExtendLastNothing(ParseRows(p));
    } else {
      var init := row[..|row| - 1];
      var c := row[|row| - 1];
      ParseAppendRow(p, init);
      assert RowText(row) == RowText(init) + [ToChar(c)];
      var q := p + RowText(init);
      assert p + RowText(row) == q + [ToChar(c)];
      ParseSnoc(q, ToChar(c));
      assert FromChar(ToChar(c)) == Some(c);
      ExtendLastTwice(ParseRows(p), init, [c]);
      assert init + [c] == row;
    }
  }

  lemma SerializeSnoc(init: seq<seq<CellStatus>>, last: seq<CellStatus>)
    requires |init| >= 1
    ensures Serialize(init + [last]) == Serialize(init) + "\n" + RowText(last)
  {
    assert (init + [last])[..|init|] == init;
  }

  /** One saved row loads as itself. */
  lemma ParseSingleRow(row: seq<CellStatus>)
    ensures ParseRows(RowText(row)) == [row]
  {
    ParseAppendRow("", row);
    assert "" + RowText(row) == RowText(row);
    ExtendLastOfClosed([], [], row);
    assert [] + row == row;
  }

  /** A newline followed by a row's glyphs adds exactly that row. */
  lemma ParseNextRow(p: string, rows: seq<seq<CellStatus>>, row: seq<CellStatus>)
    requires ParseRows(p) == rows
    ensures ParseRows(p + "\n" + RowText(row)) == rows + [row]
  {
    ParseSnoc(p, '\n');
    ParseAppendRow(p + "\n", row);
    ExtendLastOfClosed(rows, [], row);
    assert [] + row == row;
  }

  /** Loading what was saved gives back the rows, for at least one row. */
  lemma {:induction false} ParseSerialized(rows: seq<seq<CellStatus>>)
    requires |rows| >= 1
    ensures ParseRows(Serialize(rows)) == rows
    decreases |rows|
  {
    var last := rows[|rows| - 1];
    if |rows| == 1 {
      ParseSingleRow(last);
      assert rows == [last];
    } else {
      var init := rows[..|rows| - 1];
      assert rows == init + [last];
      ParseSerialized(init);
      SerializeSnoc(init, last);
      ParseNextRow(Serialize(init), init, last);
    }
  }

  /**
    A saved rectangular board with at least one row loads back as the same
    board (`file_io_test`).
  */
  lemma LoadSaved(b: Board)
    requires Rectangular(b) && b.yMax >= 1
    ensures LoadedBoard(Serialize(b.space)) == b
  {
    ParseSerialized(b.space);
  }

  /** A board without rows saves as the empty text, which loads as one empty row. */
  lemma NoRowsDoNotRoundTrip(x: nat)
    ensures Serialize(NewBoard(x, 0).space) == ""
    ensures LoadedBoard("") == Board([[]], 0, 1)
  {
  }

  /** Splitting the saved text on '\n' gives back the row lines: the rows are joined by '\n'. */
  lemma {:induction false} SplitSerialized(rows: seq<seq<CellStatus>>)
    requires |rows| >= 1
    ensures |Split(Serialize(rows))| == |rows|
    ensures forall k :: 0 <= k < |rows| ==> Split(Serialize(rows))[k] == RowText(rows[k])
    decreases |rows|
  {
    var last := rows[|rows| - 1];
    if |rows| == 1 {
      RowTextHasNoNewline(last);
      SplitAppendText("", RowText(last));
      assert "" + RowText(last) == RowText(last);
      assert Split("") == [] + [""];
      ExtendLastOfClosed([], "", RowText(last));
    } else {
      var init := rows[..|rows| - 1];
      assert rows == init + [last];
      SplitSerialized(init);
      SerializeSnoc(init, last);
      RowTextHasNoNewline(last);
      SplitNextLine(Serialize(init), RowText(last));
      var pieces := Split(Serialize(rows));
      assert pieces == Split(Serialize(init)) + [RowText(last)];
      forall k | 0 <= k < |rows| ensures pieces[k] == RowText(rows[k]) {
        if k < |init| {
          assert rows[k] == init[k];
        }
      }
    }
  }

  /** A newline followed by text without newlines adds exactly that piece. */
  lemma SplitNextLine(p: string, t: string)
    requires '\n' !in t
    ensures Split(p + "\n" + t) == Split(p) + [t]
  {
    SplitSnoc(p, '\n');
    SplitAppendText(p + "\n", t);
    ExtendLastOfClosed(Split(p), "", t);
    assert "" + t == t;
  }

  /** Appending text without a newline extends the last piece. */
  lemma {:induction false} SplitAppendText(p: string, t: string)
    requires '\n' !in t
    ensures Split(p + t) == ExtendLast(Split(p), t)
    decreases |t|
  {
    if |t| == 0 {
      assert p + t == p;
      ExtendLastNothing(Split(p));
    } else {
      var init := t[..|t| - 1];
      var c := t[|t| - 1];
      assert c in t;
      assert forall d :: d in init ==> d in t;
      SplitAppendText(p, init);
      var q := p + init;
      assert p + t == q + [c];
      SplitSnoc(q, c);
      ExtendLastTwice(Split(p), init, [c]);
      assert init + [c] == t;
    }
  }

  /** Only the glyphs and the newlines of a text decide what it loads as. */
  function GlyphsAndNewlines(s: string): (t: string)
    decreases |s|
  {
    if |s| == 0 then ""
    else
      var c := s[|s| - 1];
      GlyphsAndNewlines(s[..|s| - 1]) + (if c == '\n' || FromChar(c).Some? then [c] else [])
  }

  /** Unknown characters are skipped: dropping them does not change the loaded rows. */
  lemma {:induction false} UnknownCharactersAreSkipped(s: string)
    ensures ParseRows(GlyphsAndNewlines(s)) == ParseRows(s)
    decreases |s|
  {
    if |s| > 0 {
      var p := s[..|s| - 1];
      var c := s[|s| - 1];
      assert s == p + [c];
      UnknownCharactersAreSkipped(p);
      ParseSnoc(p, c);
      var q := GlyphsAndNewlines(p);
      if c == '\n' || FromChar(c).Some? {
        ParseSnoc(q, c);
      } else {
        assert GlyphsAndNewlines(s) == q;
      }
    }
  }
}
