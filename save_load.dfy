/**
  The save and load paths of `src/save_load.rs` around the two-glyph board
  text: `save_board` and `load_board_from_file` (the shared format),
  `save_game` and `load_game` with their `SaveLoadError`, and the wiki
  importer that sizes the board by `str::lines`.

  `game::Game` is not part of this model. Its constructor arguments and the
  cell buffer `load_game` hands to `replace_buffer` are recorded in
  `GameLoad`; where a `Game` is read or stepped it is taken to be a `Board`.
*/
module SaveLoad {

  import opened Wrappers
  import opened Game
  import Format
  import Wiki
  import Input

  datatype SaveLoadError = StringWrite | FileWrite | FileOpen | EmptyFile

  /** `str::lines().count()`: one line per '\n', plus a last line when the text does not end in '\n'. */
  function LineCount(s: string): (n: nat)
    ensures n == 0 <==> s == ""
  {
    if s == "" then 0
    else Format.CountNewlines(s) + (if s[|s| - 1] == '\n' then 0 else 1)
  }

  /**
    `lines().next()` of a text that has a line: everything before the first
    '\n', without a '\r' that stands right before that '\n'.
  */
  function FirstLine(s: string): (line: string)
    ensures |line| <= |s| && line == s[..|line|]
    ensures var n := |line|; n == |s| || s[n] == '\n' || (s[n] == '\r' && n + 1 < |s| && s[n + 1] == '\n')
    ensures var n := |line|; n < |s| && s[n] == '\n' ==> n == 0 || s[n - 1] != '\r'
  {
    var e := Input.IndexOf(s, '\n');
    if e < |s| && e > 0 && s[e - 1] == '\r' then s[..e - 1] else s[..e]
  }

  /** The first line holds no '\n'. */
  lemma FirstLineHasNoNewline(s: string)
    ensures '\n' !in FirstLine(s)
  {
    var line := FirstLine(s);
    forall k | 0 <= k < |line| ensures line[k] != '\n' {
      Input.IndexOfIsFirst(s, '\n', k);
    }
  }

  /**
    What `load_game` builds its `Game` from: `Game::new(x_max, y_max)` and the
    cell buffer it passes to `replace_buffer`.
  */
  datatype GameLoad = GameLoad(xMax: nat, yMax: nat, buffer: seq<CellStatus>)

  /**
    `load_game`: an unreadable file is `FileOpen`, a text without lines is
    `EmptyFile`; otherwise the height is the line count, the width the number
    of characters of the first line (unknown characters included) and the
    buffer every glyph of the whole text, in order.
  */
  function LoadGame(file: Option<string>): (r: Result<GameLoad, SaveLoadError>)
    ensures r == Err(FileOpen) <==> file.None?
    ensures r == Err(EmptyFile) <==> file == Some("")
    ensures r.Ok? ==> file.Some? && r.value.yMax > 0 && |r.value.buffer| <= |file.value|
  {
    match file
    case None => Err(FileOpen)
    case Some(f) =>
      if LineCount(f) < 1 then Err(EmptyFile)
      else Ok(GameLoad(|FirstLine(f)|, LineCount(f), Format.GlyphCells(f)))
  }

  /** The cells of the rows, row after row. */
  function Flatten(rows: seq<seq<CellStatus>>): (cells: seq<CellStatus>)
    decreases |rows|
  {
    if rows == [] then [] else Flatten(rows[..|rows| - 1]) + rows[|rows| - 1]
  }

  /** The glyphs of two texts one after the other are the glyphs of each, in order. */
  lemma {:induction false} GlyphCellsAppend(a: string, b: string)
    ensures Format.GlyphCells(a + b) == Format.GlyphCells(a) + Format.GlyphCells(b)
    decreases |b|
  {
    if b == [] {
      assert a + b == a;
    } else {
      var init, c := b[..|b| - 1], b[|b| - 1];
      assert b == init + [c];
      assert a + b == (a + init) + [c];
      GlyphCellsAppend(a, init);
      Format.GlyphCellsSnoc(a + init, c);
      Format.GlyphCellsSnoc(init, c);
    }
  }

  /** The glyphs of a saved row read back as the row. */
  lemma {:induction false} GlyphCellsOfRow(row: seq<CellStatus>)
    ensures Format.GlyphCells(Format.RowText(row)) == row
    decreases |row|
  {
    if row != [] {
      var init, c := row[..|row| - 1], row[|row| - 1];
      assert Format.RowText(row) == Format.RowText(init) + [ToChar(c)];
      GlyphCellsOfRow(init);
      Format.GlyphCellsSnoc(Format.RowText(init), ToChar(c));
      assert FromChar(ToChar(c)) == Some(c);
      assert init + [c] == row;
    }
  }

  /** The glyphs of a saved board are its cells, row after row. */
  lemma {:induction false} GlyphCellsSerialized(rows: seq<seq<CellStatus>>)
    requires |rows| >= 1
    ensures Format.GlyphCells(Format.Serialize(rows)) == Flatten(rows)
    decreases |rows|
  {
    var last := rows[|rows| - 1];
    GlyphCellsOfRow(last);
    if |rows| == 1 {
      assert Flatten(rows) == Flatten([]) + last;
    } else {
      var init := rows[..|rows| - 1];
      GlyphCellsSerialized(init);
      var p := Format.Serialize(init);
      assert Format.Serialize(rows) == (p + "\n") + Format.RowText(last);
      GlyphCellsAppend(p + "\n", Format.RowText(last));
      Format.GlyphCellsSnoc(p, '\n');
    }
  }

  /** The first line of a saved board is the text of its first row. */
  lemma {:induction false} SerializedFirstLine(rows: seq<seq<CellStatus>>)
    requires |rows| >= 1
    ensures |rows[0]| <= |Format.Serialize(rows)|
    ensures Input.IndexOf(Format.Serialize(rows), '\n') == |rows[0]|
    ensures Format.Serialize(rows)[..|rows[0]|] == Format.RowText(rows[0])
    decreases |rows|
  {
    var last := rows[|rows| - 1];
    Format.RowTextHasNoNewline(last);
    Input.IndexOfAppend(Format.RowText(last), "", '\n');
    assert Format.RowText(last) + "" == Format.RowText(last);
    if |rows| > 1 {
      var init := rows[..|rows| - 1];
      SerializedFirstLine(init);
      var p := Format.Serialize(init);
      var t := "\n" + Format.RowText(last);
      assert Format.Serialize(rows) == p + t;
      Input.IndexOfAppend(p, t, '\n');
      assert Input.IndexOf(t, '\n') == 0;
      assert (p + t)[..|rows[0]|] == p[..|rows[0]|];
    }
  }

  /** A saved board whose last row is not empty has one line per row. */
  lemma SerializedLineCount(rows: seq<seq<CellStatus>>)
    requires |rows| >= 1 && |rows[|rows| - 1]| >= 1
    ensures LineCount(Format.Serialize(rows)) == |rows|
  {
    var s := Format.Serialize(rows);
    var last := rows[|rows| - 1];
    Format.SplitSerialized(rows);
    var t := Format.RowText(last);
    if |rows| == 1 {
      assert s == t;
    } else {
      assert s == Format.Serialize(rows[..|rows| - 1]) + "\n" + t;
    }
    assert s[|s| - 1] == t[|t| - 1] == ToChar(last[|last| - 1]);
  }

  /**
    A board saved in the shared format and read by `load_game` gives back its
    bounds and its cells row after row, as long as it has a row and a column.
  */
  lemma LoadSavedGame(b: Board)
    requires Rectangular(b) && b.xMax >= 1 && b.yMax >= 1
    ensures LoadGame(Some(Format.Serialize(b.space))) == Ok(GameLoad(b.xMax, b.yMax, Flatten(b.space)))
  {
    var s := Format.Serialize(b.space);
    SerializedLineCount(b.space);
    SerializedFirstLine(b.space);
    GlyphCellsSerialized(b.space);
    var e := Input.IndexOf(s, '\n');
    var row := b.space[0];
    if e > 0 {
      assert s[e - 1] == Format.RowText(row)[e - 1] == ToChar(row[e - 1]);
    }
    assert |FirstLine(s)| == b.xMax;
  }

  /** The width counts every character of the first line, glyph or not. */
  lemma WidthCountsUnknownCharacters()
    ensures LoadGame(Some(['x', AliveGlyph])) == Ok(GameLoad(2, 1, [Alive]))
  {
    var s := ['x', AliveGlyph];
    assert s[1..][1..] == [];
    assert Input.IndexOf(s, '\n') == 2;
    assert Format.CountNewlines(s) == 0 by {
      assert s[..|s| - 1] == ['x'];
      assert ['x'][..0] == [];
      assert Format.CountNewlines(['x']) == 0;
    }
    assert Format.GlyphCells(s) == [Alive] by {
      Format.GlyphCellsSnoc(['x'], AliveGlyph);
      assert ['x'] == [] + ['x'];
      Format.GlyphCellsSnoc([], 'x');
      assert s == ['x'] + [AliveGlyph];
    }
  }

  /**
    `save_game`: every cell's glyph, a '\n' after each row, the last '\n'
    popped; the only error is a failed write to the file (`FileWrite`).
    Writing into a `String` never fails, so `StringWrite` never occurs.
  */
  method SaveGame(game: Board, writeSucceeds: bool) returns (contents: string, r: Result<(), SaveLoadError>)
    ensures contents == Format.Serialize(game.space)
    ensures r.Ok? <==> writeSucceeds
    ensures r.Err? ==> r.error == FileWrite
  {
    contents := Format.SaveBoardToFile(game);
    if writeSucceeds {
      r := Ok(());
    } else {
      r := Err(FileWrite);
    }
  }

  /**
    `load_board_from_file_new`: the board `load_board_from_file` returns,
    copied into a game of the same bounds.
  */
  method LoadBoardFromFileNew(file: Option<string>) returns (game: Board)
    ensures file.None? ==> game == NewBoard(GameX, GameY)
    ensures file.Some? ==> game == Format.LoadedBoard(file.value)
  {
    game := Format.LoadBoardFromFile(file);
  }

  /**
    `convert_wiki_to_board` of `src/save_load.rs`: the file must be readable
    (the `unwrap` panics otherwise, `None` here); the height is the number of
    lines of the text.
  */
  method ConvertWikiToBoard(file: Option<string>) returns (board: Option<Board>)
    ensures file.None? ==> board.None?
    ensures file.Some? ==> board == Some(Wiki.WikiBoard(Wiki.WikiRows(file.value), LineCount(file.value)))
  {
    if file.None? {
      return None;
    }
    var text := file.value;
    var b := Wiki.ConvertWikiText(text, LineCount(text));
    return Some(b);
  }

  /** `create_save_from_wiki`: the imported board, written back in the shared format. */
  method CreateSaveFromWiki(file: Option<string>) returns (contents: Option<string>)
    ensures file.None? ==> contents.None?
    ensures file.Some? ==>
              contents == Some(Format.Serialize(Wiki.WikiBoard(Wiki.WikiRows(file.value), LineCount(file.value)).space))
  {
    var board := ConvertWikiToBoard(file);
    if board.None? {
      return None;
    }
    var text := Format.SaveBoardToFile(board.value);
    return Some(text);
  }
}
