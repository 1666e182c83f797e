/**
  The Game of Life board of `src/game.rs`: cell states, their two glyphs, the
  board value with its wrap-around indexing, and the in-place writers `set` and
  `set_cells` on a mutable board object.
*/
module Game {

  import opened Wrappers
  import Arith

  /** Default board size used when nothing else is known (GAME_X, GAME_Y). */
  const GameX: nat := 30
  const GameY: nat := 30

  /** The glyphs written for a live and a dead cell ('☑' and '☒'). */
  const AliveGlyph: char := '\U{2611}'
  const DeadGlyph: char := '\U{2612}'

  datatype CellStatus = Alive | Dead

  /** `CellStatus::to_char`: a total map onto the two glyphs, injective. */
  function ToChar(c: CellStatus): (g: char)
    ensures g == AliveGlyph || g == DeadGlyph
    ensures g == AliveGlyph <==> c == Alive
  {
    match c
    case Alive => AliveGlyph
    case Dead => DeadGlyph
  }

  /**
    The glyph match of the board loaders: a glyph gives its state, every other
    character gives nothing (it is skipped).
  */
  function FromChar(g: char): (r: Option<CellStatus>)
    ensures r.Some? <==> g == AliveGlyph || g == DeadGlyph
    ensures r.Some? ==> ToChar(r.value) == g
  {
    if g == AliveGlyph then Some(Alive)
    else if g == DeadGlyph then Some(Dead)
    else None
  }

  /**
    `GameBoard`: rows of cells (`space[y][x]`) and the two bounds. Nothing ties
    the bounds to the rows: a board read from a file may be ragged.
  */
  datatype Board = Board(space: seq<seq<CellStatus>>, xMax: nat, yMax: nat)

  /** A board whose rows are exactly as the bounds say (what `new` builds). */
  predicate Rectangular(b: Board)
  {
    |b.space| == b.yMax && forall y :: 0 <= y < |b.space| ==> |b.space[y]| == b.xMax
  }

  /** Every cell inside the bounds exists. */
  predicate Covers(b: Board)
  {
    |b.space| >= b.yMax && forall y :: 0 <= y < b.yMax ==> |b.space[y]| >= b.xMax
  }

  /** What `get`/`set` need: no division by a zero bound and every wrapped cell present. */
  predicate Indexable(b: Board)
  {
    b.xMax > 0 && b.yMax > 0 && Covers(b)
  }

  /** `GameBoard::new(x, y)`: `y` rows of `x` dead cells. */
  function NewBoard(x: nat, y: nat): (b: Board)
    ensures Rectangular(b) && b.xMax == x && b.yMax == y
    ensures forall j, i :: 0 <= j < y && 0 <= i < x ==> b.space[j][i] == Dead
  {
    Board(seq(y, _ => seq(x, _ => Dead)), x, y)
  }

  /** Some stored cell, in any row and at any column, is alive. */
  predicate AnyAlive(b: Board)
  {
    exists y, x :: 0 <= y < |b.space| && 0 <= x < |b.space[y]| && b.space[y][x] == Alive
  }

  /** A new board has no live cell (the first half of `dead_board_test`). */
  lemma NewBoardIsDead(x: nat, y: nat)
    ensures !AnyAlive(NewBoard(x, y))
  {
  }

  /** `GameBoard::get`: both coordinates are reduced modulo the bounds, so the board wraps around. */
  function Get(b: Board, x: nat, y: nat): (c: CellStatus)
    requires Indexable(b)
    ensures x < b.xMax && y < b.yMax ==> c == b.space[y][x]
  {
    Arith.ModBelow(x, b.xMax);
    Arith.ModBelow(y, b.yMax);
    b.space[y % b.yMax][x % b.xMax]
  }

  /** Reading one bound further along either axis reads the same cell. */
  lemma {:induction false} GetWraps(b: Board, x: nat, y: nat)
    requires Indexable(b)
    ensures Get(b, x + b.xMax, y) == Get(b, x, y)
    ensures Get(b, x, y + b.yMax) == Get(b, x, y)
  {
    Arith.ModShift(x, b.xMax);
    Arith.ModShift(y, b.yMax);
  }

  /**
    The board after `set(x, y, v)`: the wrapped cell holds `v`; no other cell,
    no row length and neither bound changes.
  */
  function Written(b: Board, x: nat, y: nat, v: CellStatus): (r: Board)
    requires Indexable(b)
    ensures r.xMax == b.xMax && r.yMax == b.yMax && |r.space| == |b.space|
    ensures forall j :: 0 <= j < |b.space| ==> |r.space[j]| == |b.space[j]|
    ensures Indexable(r) && Get(r, x, y) == v
    ensures forall j, i :: 0 <= j < |b.space| && 0 <= i < |b.space[j]| && (j != y % b.yMax || i != x % b.xMax) ==>
              r.space[j][i] == b.space[j][i]
  {
    var j, i := y % b.yMax, x % b.xMax;
    b.(space := b.space[j := b.space[j][i := v]])
  }

  /** One pending write of a state to a coordinate. */
  type CellWrite = (nat, nat, CellStatus)

  /** The board after the writes of `ws`, performed in order. */
  function WriteEach(b: Board, ws: seq<CellWrite>): (r: Board)
    requires ws == [] || Indexable(b)
    ensures r.xMax == b.xMax && r.yMax == b.yMax && |r.space| == |b.space|
    ensures forall j :: 0 <= j < |b.space| ==> |r.space[j]| == |b.space[j]|
    ensures Indexable(b) ==> Indexable(r)
    decreases |ws|
  {
    if ws == [] then b
    else
      var w := ws[|ws| - 1];
      Written(WriteEach(b, ws[..|ws| - 1]), w.0, w.1, w.2)
  }

  /** One more write is one more `set`. */
  lemma WriteEachSnoc(b: Board, ws: seq<CellWrite>, w: CellWrite)
    requires Indexable(b)
    ensures WriteEach(b, ws + [w]) == Written(WriteEach(b, ws), w.0, w.1, w.2)
  {
    assert (ws + [w])[..|ws|] == ws;
  }

  /** Writing two runs one after the other is writing their concatenation. */
  lemma {:induction false} WriteEachAppend(b: Board, ws: seq<CellWrite>, vs: seq<CellWrite>)
    requires ws + vs == [] || Indexable(b)
    ensures WriteEach(b, ws + vs) == WriteEach(WriteEach(b, ws), vs)
    decreases |vs|
  {
    if vs == [] {
      assert ws + vs == ws;
    } else {
      var n := |vs| - 1;
      WriteEachAppend(b, ws, vs[..n]);
      assert (ws + vs)[..|ws + vs| - 1] == ws + vs[..n];
    }
  }

  /** The writes `set_cells(cells, status)` performs, one per listed coordinate. */
  function CellWrites(cells: seq<(nat, nat)>, status: CellStatus): (ws: seq<CellWrite>)
    ensures |ws| == |cells|
    ensures forall k :: 0 <= k < |cells| ==> ws[k] == (cells[k].0, cells[k].1, status)
  {
    seq(|cells|, k requires 0 <= k < |cells| => (cells[k].0, cells[k].1, status))
  }

  /** The writes for one more listed cell are one more write. */
  lemma CellWritesSnoc(cells: seq<(nat, nat)>, k: nat, status: CellStatus)
    requires k < |cells|
    ensures CellWrites(cells[..k + 1], status) == CellWrites(cells[..k], status) + [(cells[k].0, cells[k].1, status)]
  {
  }

  /** Some listed coordinate wraps onto the cell (i, j) of `b`. */
  predicate Listed(b: Board, cells: seq<(nat, nat)>, i: nat, j: nat)
    requires b.xMax > 0 && b.yMax > 0
  {
    exists k :: 0 <= k < |cells| && cells[k].0 % b.xMax == i && cells[k].1 % b.yMax == j
  }

  /** The state the last of the writes `ws` that wraps onto the cell (i, j) carries, if any does. */
  function LastWrite(ws: seq<CellWrite>, xMax: nat, yMax: nat, i: nat, j: nat): (r: Option<CellStatus>)
    requires xMax > 0 && yMax > 0
    ensures r.None? <==> forall k :: 0 <= k < |ws| ==> ws[k].0 % xMax != i || ws[k].1 % yMax != j
    decreases |ws|
  {
    if ws == [] then None
    else
      var w := ws[|ws| - 1];
      if w.0 % xMax == i && w.1 % yMax == j then Some(w.2)
      else
        var r := LastWrite(ws[..|ws| - 1], xMax, yMax, i, j);
        assert forall k :: 0 <= k < |ws| - 1 ==> ws[..|ws| - 1][k] == ws[k];
        r
  }

  /** The last write to a cell decides it among two runs of writes: the later run wins if it touches it. */
  lemma {:induction false} LastWriteAppend(ws: seq<CellWrite>, vs: seq<CellWrite>, xMax: nat, yMax: nat, i: nat, j: nat)
    requires xMax > 0 && yMax > 0
    ensures LastWrite(ws + vs, xMax, yMax, i, j) ==
              if LastWrite(vs, xMax, yMax, i, j).Some? then LastWrite(vs, xMax, yMax, i, j) else LastWrite(ws, xMax, yMax, i, j)
    decreases |vs|
  {
    if vs == [] {
      assert ws + vs == ws;
    } else {
      var n := |vs| - 1;
      LastWriteAppend(ws, vs[..n], xMax, yMax, i, j);
      assert (ws + vs)[..|ws + vs| - 1] == ws + vs[..n];
    }
  }

  /**
    After the writes `ws` a cell holds the state of the last write that wraps
    onto it, or its old state when none does.
  */
  lemma {:induction false} WriteEachEffect(b: Board, ws: seq<CellWrite>, i: nat, j: nat)
    requires Indexable(b) && i < b.xMax && j < b.yMax
    ensures WriteEach(b, ws).space[j][i] ==
              match LastWrite(ws, b.xMax, b.yMax, i, j)
              case Some(v) => v
              case None => b.space[j][i]
    decreases |ws|
  {
    if ws != [] {
      var n := |ws| - 1;
      WriteEachEffect(b, ws[..n], i, j);
      var before := WriteEach(b, ws[..n]);
      var w := ws[n];
      assert Get(Written(before, w.0, w.1, w.2), w.0, w.1) == w.2;
    }
  }

  /** When every write that wraps onto the cell (i, j) carries `v`, the last of them carries it too. */
  lemma {:induction false} LastWriteAgrees(ws: seq<CellWrite>, v: CellStatus, xMax: nat, yMax: nat, i: nat, j: nat)
    requires xMax > 0 && yMax > 0
    requires forall k :: 0 <= k < |ws| && ws[k].0 % xMax == i && ws[k].1 % yMax == j ==> ws[k].2 == v
    ensures LastWrite(ws, xMax, yMax, i, j) in {None, Some(v)}
    decreases |ws|
  {
    if ws != [] {
      var n := |ws| - 1;
      assert forall k :: 0 <= k < n ==> ws[..n][k] == ws[k];
      LastWriteAgrees(ws[..n], v, xMax, yMax, i, j);
    }
  }

  /**
    After `set_cells(cells, status)` every cell some listed coordinate wraps onto
    holds `status`, and every other cell keeps its state.
  */
  lemma SetCellsEffect(b: Board, cells: seq<(nat, nat)>, status: CellStatus, i: nat, j: nat)
    requires Indexable(b) && i < b.xMax && j < b.yMax
    ensures WriteEach(b, CellWrites(cells, status)).space[j][i] ==
              if Listed(b, cells, i, j) then status else b.space[j][i]
  {
    var ws := CellWrites(cells, status);
    WriteEachEffect(b, ws, i, j);
    LastWriteAgrees(ws, status, b.xMax, b.yMax, i, j);
    if Listed(b, cells, i, j) {
      var k :| 0 <= k < |cells| && cells[k].0 % b.xMax == i && cells[k].1 % b.yMax == j;
      assert ws[k] == (cells[k].0, cells[k].1, status);
    } else {
      forall k | 0 <= k < |ws| ensures ws[k].0 % b.xMax != i || ws[k].1 % b.yMax != j {
        assert ws[k] == (cells[k].0, cells[k].1, status);
      }
    }
  }

  /** The second half of `dead_board_test`: one live cell makes the board non-empty. */
  lemma OneCellMakesBoardAlive()
    ensures AnyAlive(Written(NewBoard(10, 10), 5, 5, Alive))
  {
    var b := Written(NewBoard(10, 10), 5, 5, Alive);
    assert b.space[5][5] == Get(b, 5, 5) == Alive;
  }

  /**
    `has_alive_cells`: walks every stored row and cell and answers on the first
    live one.
  */
  method HasAliveCells(b: Board) returns (r: bool)
    ensures r == AnyAlive(b)
  {
    for y := 0 to |b.space|
      invariant forall j, i :: 0 <= j < y && 0 <= i < |b.space[j]| ==> b.space[j][i] != Alive
    {
      for x := 0 to |b.space[y]|
        invariant forall i :: 0 <= i < x ==> b.space[y][i] != Alive
      {
        if b.space[y][x] == Alive {
          return true;
        }
      }
    }
    return false;
  }

  /** What `PartialEq::eq` needs to index both boards once the bounds agree. */
  predicate Comparable(a: Board, b: Board)
  {
    a.xMax != b.xMax || a.yMax != b.yMax || (Covers(a) && Covers(b))
  }

  /** `PartialEq`: the same bounds and the same state in every cell inside them. */
  predicate SameBoard(a: Board, b: Board)
    requires Comparable(a, b)
  {
    a.xMax == b.xMax && a.yMax == b.yMax &&
    forall j, i :: 0 <= j < a.yMax && 0 <= i < a.xMax ==> a.space[j][i] == b.space[j][i]
  }

  /** `PartialEq::eq` with its early returns. */
  method Equals(a: Board, b: Board) returns (r: bool)
    requires Comparable(a, b)
    ensures r == SameBoard(a, b)
  {
    if a.yMax != b.yMax || a.xMax != b.xMax {
      return false;
    }
    for y := 0 to a.yMax
      invariant forall j, i :: 0 <= j < y && 0 <= i < a.xMax ==> a.space[j][i] == b.space[j][i]
    {
      for x := 0 to a.xMax
        invariant forall i :: 0 <= i < x ==> a.space[y][i] == b.space[y][i]
      {
        if a.space[y][x] != b.space[y][x] {
          return false;
        }
      }
    }
    return true;
  }

  /** On rectangular boards the board equality is plain value equality. */
  lemma SameBoardIsEquality(a: Board, b: Board)
    requires Rectangular(a) && Rectangular(b)
    ensures Comparable(a, b)
    ensures SameBoard(a, b) <==> a == b
  {
    if SameBoard(a, b) {
      forall j | 0 <= j < |a.space|
        ensures a.space[j] == b.space[j]
      {
        assert |a.space[j]| == |b.space[j]|;
        assert forall i :: 0 <= i < |a.space[j]| ==> a.space[j][i] == b.space[j][i];
      }
      assert a.space == b.space;
    }
  }

  /**
    The mutable `GameBoard`. Its three fields are the ones of the value `Board`;
    `Value()` reads them out.
  */
  class GameBoard {
    var space: seq<seq<CellStatus>>
    var xMax: nat
    var yMax: nat

    function Value(): Board
      reads this
    {
      Board(space, xMax, yMax)
    }

    /** `GameBoard::new`. */
    constructor (x: nat, y: nat)
      ensures Value() == NewBoard(x, y)
    {
      space := NewBoard(x, y).space;
      xMax, yMax := x, y;
    }

    /** `GameBoard::set`: writes the wrapped cell in place. */
    method Set(x: nat, y: nat, value: CellStatus)
      requires Indexable(Value())
      modifies this
      ensures Value() == Written(old(Value()), x, y, value)
    {
      var x_, y_ := x % xMax, y % yMax;
      space := space[y_ := space[y_][x_ := value]];
    }

    /** `GameBoard::set_cells`: writes `status` to every listed (wrapped) cell, in order. */
    method SetCells(cellsToChange: seq<(nat, nat)>, status: CellStatus)
      requires cellsToChange == [] || Indexable(Value())
      modifies this
      ensures Value() == WriteEach(old(Value()), CellWrites(cellsToChange, status))
    {
      for k := 0 to |cellsToChange|
        invariant Value() == WriteEach(old(Value()), CellWrites(cellsToChange[..k], status))
      {
        var s := cellsToChange[k];
        CellWritesSnoc(cellsToChange, k, status);
        WriteEachSnoc(old(Value()), CellWrites(cellsToChange[..k], status), (s.0, s.1, status));
        var x_, y_ := s.0 % xMax, s.1 % yMax;
        space := space[y_ := space[y_][x_ := status]];
      }
      assert cellsToChange[..|cellsToChange|] == cellsToChange;
    }
  }
}
