/**
  The importer for the plain-text pattern format of the Game of Life wiki
  (`convert_wiki_to_board`): lines holding '!' are comments; 'O' is a live cell
  and '.' a dead one; every other character is skipped but still takes up a
  column. The width is the largest number of cell characters in a pattern
  line; the height is a line count the caller chooses.
*/
module Wiki {

  import opened Wrappers
  import opened Game
  import Arith
  import Format

  /** The state a pattern character stands for, if it stands for one. */
  function CellOf(c: char): (r: Option<CellStatus>)
    ensures r.Some? <==> c == 'O' || c == '.'
    ensures r == Some(Alive) <==> c == 'O'
  {
    if c == 'O' then Some(Alive) else if c == '.' then Some(Dead) else None
  }

  predicate IsComment(line: string)
  {
    '!' in line
  }

  /** The first k pieces that are not comments, in order (`filter(|r| !r.contains('!'))`). */
  function PatternLinesUpTo(pieces: seq<string>, k: nat): (rows: seq<string>)
    requires k <= |pieces|
    ensures |rows| <= k
  {
    if k == 0 then []
    else
      var front := PatternLinesUpTo(pieces, k - 1);
      if IsComment(pieces[k - 1]) then front else front + [pieces[k - 1]]
  }

  /** The pieces that are not comments, in order. */
  function PatternLines(pieces: seq<string>): (rows: seq<string>)
  {
    PatternLinesUpTo(pieces, |pieces|)
  }

  /** Filtering fewer pieces gives a prefix of the filtered lines. */
  lemma {:induction false} PatternLinesUpToPrefix(pieces: seq<string>, k: nat, m: nat)
    requires k <= m <= |pieces|
    ensures var front := PatternLinesUpTo(pieces, k);
      |front| <= |PatternLinesUpTo(pieces, m)| && PatternLinesUpTo(pieces, m)[..|front|] == front
    decreases m
  {
    var front := PatternLinesUpTo(pieces, k);
    if k == m {
      assert front[..|front|] == front;
    } else {
      PatternLinesUpToPrefix(pieces, k, m - 1);
      var mid := PatternLinesUpTo(pieces, m - 1);
      if !IsComment(pieces[m - 1]) {
        assert (mid + [pieces[m - 1]])[..|front|] == mid[..|front|];
      }
    }
  }

  /** The pattern lines of a text split on '\n'. */
  function WikiRows(text: string): (rows: seq<string>)
    ensures text == "" ==> rows == [""] && WikiWrites(rows) == []
  {
    assert RowWrites("", 0) == [];
    assert WikiWritesUpTo([""], 1) == WikiWritesUpTo([""], 0) + RowWrites("", 0);
    PatternLines(Format.Split(text))
  }

  /** How many cell characters the first i characters of a line hold. */
  function CellsUpTo(line: string, i: nat): (n: nat)
    requires i <= |line|
    ensures n <= i
  {
    if i == 0 then 0 else CellsUpTo(line, i - 1) + (if CellOf(line[i - 1]).Some? then 1 else 0)
  }

  /** How many cell characters a line holds. */
  function CellCount(line: string): nat
  {
    CellsUpTo(line, |line|)
  }

  /** A longer prefix holds at least as many cell characters. */
  lemma {:induction false} CellsUpToGrows(line: string, i: nat, j: nat)
    requires i <= j <= |line|
    ensures CellsUpTo(line, i) <= CellsUpTo(line, j)
    decreases j
  {
    if i < j {
      CellsUpToGrows(line, i, j - 1);
    }
  }

  /** The widest pattern line, counted in cell characters; 0 when there is none. */
  function Widest(rows: seq<string>): (w: nat)
    ensures forall y :: 0 <= y < |rows| ==> CellCount(rows[y]) <= w
    decreases |rows|
  {
    if rows == [] then 0
    else
      var n := |rows| - 1;
      var w := Widest(rows[..n]);
      assert forall y :: 0 <= y < n ==> rows[..n][y] == rows[y];
      if CellCount(rows[n]) > w then CellCount(rows[n]) else w
  }

  /** One more line can only widen the widest. */
  lemma WidestStep(rows: seq<string>, row: string)
    ensures Widest(rows + [row]) == if CellCount(row) > Widest(rows) then CellCount(row) else Widest(rows)
  {
    assert (rows + [row])[..|rows|] == rows;
  }

  /** The width is reached: it is 0, or the cell count of some pattern line. */
  lemma {:induction false} WidestIsReached(rows: seq<string>)
    ensures Widest(rows) == 0 || exists y :: 0 <= y < |rows| && CellCount(rows[y]) == Widest(rows)
    decreases |rows|
  {
    if rows != [] {
      var n := |rows| - 1;
      assert rows == rows[..n] + [rows[n]];
      WidestStep(rows[..n], rows[n]);
      WidestIsReached(rows[..n]);
      if CellCount(rows[n]) <= Widest(rows[..n]) && Widest(rows) != 0 {
        var y :| 0 <= y < n && CellCount(rows[..n][y]) == Widest(rows[..n]);
        assert rows[..n][y] == rows[y];
      }
    }
  }

  /**
    The `set` calls the first i characters of a pattern line make as row `y`:
    one per cell character, at the character's own index.
  */
  function RowWritesUpTo(line: string, y: nat, i: nat): (ws: seq<CellWrite>)
    requires i <= |line|
    ensures |ws| == CellsUpTo(line, i)
  {
    if i == 0 then []
    else
      var front := RowWritesUpTo(line, y, i - 1);
      match CellOf(line[i - 1])
      case Some(v) => front + [(i - 1, y, v)]
      case None => front
  }

  /** The `set` calls a whole pattern line makes as row `y`. */
  function RowWrites(line: string, y: nat): (ws: seq<CellWrite>)
    ensures |ws| == CellCount(line)
  {
    RowWritesUpTo(line, y, |line|)
  }

  /** The `set` calls of the first y pattern lines, the z-th pattern line as row z. */
  function WikiWritesUpTo(rows: seq<string>, y: nat): (ws: seq<CellWrite>)
    requires y <= |rows|
  {
    if y == 0 then [] else WikiWritesUpTo(rows, y - 1) + RowWrites(rows[y - 1], y - 1)
  }

  /** The `set` calls of all pattern lines. */
  function WikiWrites(rows: seq<string>): seq<CellWrite>
  {
    WikiWritesUpTo(rows, |rows|)
  }

  /** A run of writes depends only on the lines it covers. */
  lemma {:induction false} WikiWritesUpToSame(rows: seq<string>, other: seq<string>, y: nat)
    requires y <= |rows| && y <= |other|
    requires forall z :: 0 <= z < y ==> rows[z] == other[z]
    ensures WikiWritesUpTo(rows, y) == WikiWritesUpTo(other, y)
    decreases y
  {
    if y > 0 {
      WikiWritesUpToSame(rows, other, y - 1);
    }
  }

  /** One more pattern line adds its own writes, as the next row. */
  lemma WikiWritesSnoc(rows: seq<string>, p: string)
    ensures WikiWrites(rows + [p]) == WikiWrites(rows) + RowWrites(p, |rows|)
  {
    var more := rows + [p];
    assert forall z :: 0 <= z < |rows| ==> more[z] == rows[z];
    WikiWritesUpToSame(rows, more, |rows|);
    assert more[|rows|] == p;
  }

  /**
    The `set` calls of the first k pieces as the importer makes them: comment
    pieces make none, every other piece is the next row.
  */
  function PieceWrites(pieces: seq<string>, k: nat): seq<CellWrite>
    requires k <= |pieces|
  {
    if k == 0 then []
    else
      var front := PieceWrites(pieces, k - 1);
      if IsComment(pieces[k - 1]) then front
      else front + RowWrites(pieces[k - 1], |PatternLinesUpTo(pieces, k - 1)|)
  }

  /** Walking the pieces makes the writes of the pattern lines, the y-th as row y. */
  lemma {:induction false} PieceWritesArePatternWrites(pieces: seq<string>, k: nat)
    requires k <= |pieces|
    ensures PieceWrites(pieces, k) == WikiWrites(PatternLinesUpTo(pieces, k))
    decreases k
  {
    if k > 0 {
      PieceWritesArePatternWrites(pieces, k - 1);
      var rows := PatternLinesUpTo(pieces, k - 1);
      var p := pieces[k - 1];
      if IsComment(p) {
        assert PatternLinesUpTo(pieces, k) == rows;
      } else {
        assert PatternLinesUpTo(pieces, k) == rows + [p];
        WikiWritesSnoc(rows, p);
      }
    }
  }

  /** Later pieces only add writes. */
  lemma {:induction false} PieceWritesGrow(pieces: seq<string>, k: nat, m: nat)
    requires k <= m <= |pieces|
    ensures |PieceWrites(pieces, k)| <= |PieceWrites(pieces, m)|
    decreases m
  {
    if k < m {
      PieceWritesGrow(pieces, k, m - 1);
    }
  }

  /** Some write exists only when some pattern line holds a cell character, so the width is positive. */
  lemma WritesNeedWidth(rows: seq<string>)
    ensures WikiWrites(rows) != [] ==> Widest(rows) > 0
  {
    WritesUpToNeedWidth(rows, |rows|);
  }

  lemma {:induction false} WritesUpToNeedWidth(rows: seq<string>, y: nat)
    requires y <= |rows|
    ensures WikiWritesUpTo(rows, y) != [] ==> Widest(rows) > 0
    decreases y
  {
    if y > 0 {
      WritesUpToNeedWidth(rows, y - 1);
      assert CellCount(rows[y - 1]) <= Widest(rows);
    }
  }

  /** The board the importer builds: a dead board of the widest line by `height`, then the writes. */
  function WikiBoard(rows: seq<string>, height: nat): (b: Board)
    requires height > 0 || WikiWrites(rows) == []
    ensures Rectangular(b) && b.xMax == Widest(rows) && b.yMax == height
  {
    WritesNeedWidth(rows);
    WriteEach(NewBoard(Widest(rows), height), WikiWrites(rows))
  }

  /**
    The writes of the first i characters of a pattern line: each is at the
    index of a cell character, in row `y`, carrying that character's state,
    and every such character makes one.
  */
  lemma {:induction false} RowWritesUpToAreCells(line: string, y: nat, i: nat)
    requires i <= |line|
    ensures forall w :: w in RowWritesUpTo(line, y, i) ==> w.1 == y && w.0 < i && CellOf(line[w.0]) == Some(w.2)
    ensures forall x :: 0 <= x < i && CellOf(line[x]).Some? ==> (x, y, CellOf(line[x]).value) in RowWritesUpTo(line, y, i)
    decreases i
  {
    if i > 0 {
      RowWritesUpToAreCells(line, y, i - 1);
    }
  }

  /**
    The writes of the first y pattern lines: each is at a cell character of
    its line, the z-th line being row z, and every such character makes one.
  */
  lemma {:induction false} WikiWritesUpToAreCells(rows: seq<string>, y: nat)
    requires y <= |rows|
    ensures forall w :: w in WikiWritesUpTo(rows, y) ==>
              w.1 < y && w.0 < |rows[w.1]| && CellOf(rows[w.1][w.0]) == Some(w.2)
    ensures forall b, a :: 0 <= b < y && 0 <= a < |rows[b]| && CellOf(rows[b][a]).Some? ==>
              (a, b, CellOf(rows[b][a]).value) in WikiWritesUpTo(rows, y)
    decreases y
  {
    if y > 0 {
      WikiWritesUpToAreCells(rows, y - 1);
      RowWritesUpToAreCells(rows[y - 1], y - 1, |rows[y - 1]|);
    }
  }

  /** Every line holds only cell characters ('O' and '.'). */
  predicate OnlyCells(rows: seq<string>)
  {
    forall y, x :: 0 <= y < |rows| && 0 <= x < |rows[y]| ==> CellOf(rows[y][x]).Some?
  }

  /** A line of cell characters only counts all of them. */
  lemma {:induction false} CellsUpToAll(line: string, i: nat)
    requires i <= |line|
    requires forall x :: 0 <= x < |line| ==> CellOf(line[x]).Some?
    ensures CellsUpTo(line, i) == i
    decreases i
  {
    if i > 0 {
      CellsUpToAll(line, i - 1);
    }
  }

  /** On a board as wide as the widest line and at least as high as the pattern, no write wraps. */
  lemma WikiWritesInBounds(rows: seq<string>, height: nat)
    requires OnlyCells(rows) && height >= |rows|
    ensures forall w :: w in WikiWrites(rows) ==> w.0 < Widest(rows) && w.1 < height
  {
    WikiWritesUpToAreCells(rows, |rows|);
    forall w | w in WikiWrites(rows) ensures w.0 < Widest(rows) && w.1 < height {
      CellsUpToAll(rows[w.1], |rows[w.1]|);
    }
  }

  /** Writes that do not wrap reach the cell (x, y) only when they are at (x, y). */
  lemma WritesReaching(ws: seq<CellWrite>, w: nat, h: nat, x: nat, y: nat)
    requires w > 0 && h > 0
    requires forall v :: v in ws ==> v.0 < w && v.1 < h
    ensures forall k :: 0 <= k < |ws| && ws[k].0 % w == x && ws[k].1 % h == y ==> ws[k].0 == x && ws[k].1 == y
  {
    forall k | 0 <= k < |ws| && ws[k].0 % w == x && ws[k].1 % h == y
      ensures ws[k].0 == x && ws[k].1 == y
    {
      assert ws[k] in ws;
      Arith.ModBelow(ws[k].0, w);
      Arith.ModBelow(ws[k].1, h);
    }
  }

  /**
    For a pattern made only of cell characters, the last write that reaches
    (x, y) is the one of the x-th character of the y-th line, if there is one.
  */
  lemma WikiLastWrite(rows: seq<string>, height: nat, x: nat, y: nat)
    requires OnlyCells(rows) && height >= |rows|
    requires x < Widest(rows) && y < height
    ensures LastWrite(WikiWrites(rows), Widest(rows), height, x, y) ==
              if y < |rows| && x < |rows[y]| then Some(CellOf(rows[y][x]).value) else None
  {
    var w := Widest(rows);
    var ws := WikiWrites(rows);
    WikiWritesInBounds(rows, height);
    WritesReaching(ws, w, height, x, y);
    WikiWritesUpToAreCells(rows, |rows|);
    if y < |rows| && x < |rows[y]| {
      var v := CellOf(rows[y][x]).value;
      forall k | 0 <= k < |ws| && ws[k].0 == x && ws[k].1 == y ensures ws[k].2 == v {
        assert ws[k] in ws;
      }
      assert (x, y, v) in ws;
      var k :| 0 <= k < |ws| && ws[k] == (x, y, v);
      Arith.ModBelow(x, w);
      Arith.ModBelow(y, height);
      LastWriteAgrees(ws, v, w, height, x, y);
    } else {
      forall k | 0 <= k < |ws| ensures ws[k].0 != x || ws[k].1 != y {
        assert ws[k] in ws;
      }
    }
  }

  /**
    A pattern made only of cell characters, on a board at least as high as it
    has lines, is imported cell for cell: (x, y) is the state of the x-th
    character of the y-th pattern line, and Dead where the line is shorter or
    missing.
  */
  lemma WikiBoardCells(rows: seq<string>, height: nat, x: nat, y: nat)
    requires OnlyCells(rows) && height >= |rows|
    requires x < Widest(rows) && y < height
    ensures WikiBoard(rows, height).space[y][x] ==
              if y < |rows| && x < |rows[y]| then CellOf(rows[y][x]).value else Dead
  {
    WikiLastWrite(rows, height, x, y);
    WriteEachEffect(NewBoard(Widest(rows), height), WikiWrites(rows), x, y);
  }

  /**
    Every character takes a column, cell or not: in the single line "..xO" the
    'O' is the fourth character, the board is three cells wide, and the 'O'
    wraps onto column 0, overwriting the '.' written there.
  */
  lemma UnknownCharacterTakesAColumn()
    ensures WikiBoard(["..xO"], 1).xMax == 3
    ensures WikiBoard(["..xO"], 1).space[0][0] == Alive
  {
    var line := "..xO";
    var rows := [line];
    assert CellsUpTo(line, 1) == 1 && CellsUpTo(line, 2) == 2;
    assert CellsUpTo(line, 3) == 2 && CellsUpTo(line, 4) == 3;
    assert Widest(rows) == 3 by {
      assert rows[..0] == [];
    }
    var ws := WikiWrites(rows);
    assert RowWritesUpTo(line, 0, 2) == [(0, 0, Dead), (1, 0, Dead)];
    assert RowWritesUpTo(line, 0, 3) == [(0, 0, Dead), (1, 0, Dead)];
    assert RowWritesUpTo(line, 0, 4) == [(0, 0, Dead), (1, 0, Dead), (3, 0, Alive)];
    assert ws == [(0, 0, Dead), (1, 0, Dead), (3, 0, Alive)] by {
      assert WikiWritesUpTo(rows, 1) == [] + RowWrites(line, 0);
    }
    var start := NewBoard(3, 1);
    WriteEachEffect(start, ws, 0, 0);
    assert LastWrite(ws, 3, 1, 0, 0) == Some(Alive);
  }

  /** The counting loop of the first pass. */
  method CountCells(row: string) returns (count: nat)
    ensures count == CellCount(row)
  {
    count := 0;
    for i := 0 to |row|
      invariant count == CellsUpTo(row, i)
    {
      if row[i] == '.' || row[i] == 'O' {
        count := count + 1;
      }
    }
  }

  /** The first pass: the largest cell count over the lines that are not comments. */
  method WidestPatternLine(pieces: seq<string>) returns (xMax: nat)
    ensures xMax == Widest(PatternLines(pieces))
  {
    xMax := 0;
    for k := 0 to |pieces|
      invariant xMax == Widest(PatternLinesUpTo(pieces, k))
    {
      var row := pieces[k];
      if !IsComment(row) {
        var count := CountCells(row);
        WidestStep(PatternLinesUpTo(pieces, k), row);
        if count > xMax {
          xMax := count;
        }
      }
    }
  }

  /** A cell character of a pattern line is one more write, on a board that can take it. */
  lemma RowWriteStep(row: string, y: nat, i: nat, start: Board)
    requires i < |row| && CellOf(row[i]).Some?
    requires RowWrites(row, y) == [] || Indexable(start)
    ensures Indexable(start) && Indexable(WriteEach(start, RowWritesUpTo(row, y, i)))
    ensures WriteEach(start, RowWritesUpTo(row, y, i + 1)) ==
            Written(WriteEach(start, RowWritesUpTo(row, y, i)), i, y, CellOf(row[i]).value)
  {
    CellsUpToGrows(row, i + 1, |row|);
    WriteEachSnoc(start, RowWritesUpTo(row, y, i), (i, y, CellOf(row[i]).value));
  }

  /** `b` is `start` after the writes of the first `i` characters of a pattern line. */
  predicate WroteUpTo(b: Board, start: Board, row: string, y: nat, i: nat)
    requires i <= |row|
  {
    (RowWritesUpTo(row, y, i) == [] || Indexable(start)) && b == WriteEach(start, RowWritesUpTo(row, y, i))
  }

  /** One character of the second pass: a cell character is set at its index, anything else is skipped. */
  method SetPatternChar(board: GameBoard, row: string, y: nat, i: nat, ghost start: Board)
    requires i < |row| && (RowWrites(row, y) == [] || Indexable(start))
    requires WroteUpTo(board.Value(), start, row, y, i)
    modifies board
    ensures WroteUpTo(board.Value(), start, row, y, i + 1)
  {
    var cell := CellOf(row[i]);
    if cell.Some? {
      RowWriteStep(row, y, i, start);
      board.Set(i, y, cell.value);
    } else {
      assert RowWritesUpTo(row, y, i + 1) == RowWritesUpTo(row, y, i);
    }
  }

  /** The second pass over one pattern line: x advances on every character, cells are set. */
  method SetPatternLine(board: GameBoard, row: string, y: nat)
    requires RowWrites(row, y) == [] || Indexable(board.Value())
    modifies board
    ensures board.Value() == WriteEach(old(board.Value()), RowWrites(row, y))
  {
    ghost var start := board.Value();
    var x: nat := 0;
    for i := 0 to |row|
      invariant x == i
      invariant WroteUpTo(board.Value(), start, row, y, i)
    {
      SetPatternChar(board, row, y, x, start);
      x := x + 1;
    }
  }

  /** The bookkeeping of one pattern line in the second pass. */
  lemma SecondPassStep(pieces: seq<string>, k: nat, start: Board)
    requires k < |pieces| && !IsComment(pieces[k])
    requires PieceWrites(pieces, |pieces|) == [] || Indexable(start)
    ensures var before := PieceWrites(pieces, k);
      var line := RowWrites(pieces[k], |PatternLinesUpTo(pieces, k)|);
      && (PieceWrites(pieces, k + 1) == [] || Indexable(start))
      && (line == [] || Indexable(WriteEach(start, before)))
      && WriteEach(start, PieceWrites(pieces, k + 1)) == WriteEach(WriteEach(start, before), line)
  {
    PieceWritesGrow(pieces, k + 1, |pieces|);
    WriteEachAppend(start, PieceWrites(pieces, k), RowWrites(pieces[k], |PatternLinesUpTo(pieces, k)|));
  }

  /** The second pass: every piece in turn, each pattern line as the next row. */
  method SecondPass(board: GameBoard, pieces: seq<string>)
    requires PieceWrites(pieces, |pieces|) == [] || Indexable(board.Value())
    modifies board
    ensures board.Value() == WriteEach(old(board.Value()), PieceWrites(pieces, |pieces|))
  {
    ghost var start := board.Value();
    var y: nat := 0;
    for k := 0 to |pieces|
      invariant y == |PatternLinesUpTo(pieces, k)|
      invariant PieceWrites(pieces, k) == [] || Indexable(start)
      invariant board.Value() == WriteEach(start, PieceWrites(pieces, k))
    {
      var row := pieces[k];
      if !IsComment(row) {
        SecondPassStep(pieces, k, start);
        SetPatternLine(board, row, y);
        y := y + 1;
      }
    }
  }

  /**
    The importer's two passes over the text split on '\n', skipping comment
    lines: first the widest line, then one `set` per cell character at
    (character index, pattern-line index).
  */
  method ConvertWikiText(text: string, height: nat) returns (b: Board)
    requires text == "" || height > 0
    ensures b == WikiBoard(WikiRows(text), height)
  {
    var pieces := Format.Split(text);
    var xMax := WidestPatternLine(pieces);
    var board := new GameBoard(xMax, height);
    PieceWritesArePatternWrites(pieces, |pieces|);
    WritesNeedWidth(PatternLines(pieces));
    SecondPass(board, pieces);
    b := board.Value();
  }
}
