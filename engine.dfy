/**
  The generation step of `src/game.rs`: the hand-written neighbour list, the
  live-neighbour count, `update_board` (B3/S23 written into a scratch board)
  and `run_iterations`.

  `update_board` scans `0..=x_max` by `0..=y_max`, one past the last stored
  index on both axes. Through the wrap-around of `get`/`set` the extra column
  `x_max` and the extra row `y_max` read and write column 0 and row 0, and the
  scratch board only ever receives Alive, so a cell of column or row 0 ends
  Alive when any of the (up to four) scan positions that wrap onto it says so.
  `NextAlive` states exactly that.
*/
module GameEngine {

  import opened Game
  import Arith

  /** `v` lies on the edge `get_neighbors` tests for: 0 or the bound itself. */
  predicate OnEdge(v: nat, bound: nat)
  {
    v == 0 || v == bound
  }

  function Distance(a: nat, b: nat): nat
  {
    if a <= b then b - a else a - b
  }

  /**
    `get_neighbors`: the literal case split. Nothing beyond the bounds, three
    entries on a corner, five on an edge, eight elsewhere; every entry is a
    different coordinate one step away from (x, y) on each axis and never
    (x, y) itself.
  */
  function GetNeighbors(b: Board, x: nat, y: nat): (ns: seq<(nat, nat)>)
    ensures |ns| == if x > b.xMax || y > b.yMax then 0
                    else if OnEdge(x, b.xMax) && OnEdge(y, b.yMax) then 3
                    else if OnEdge(x, b.xMax) || OnEdge(y, b.yMax) then 5
                    else 8
    ensures forall k :: 0 <= k < |ns| ==>
              ns[k] != (x, y) && Distance(ns[k].0, x) <= 1 && Distance(ns[k].1, y) <= 1
    ensures forall k, l :: 0 <= k < l < |ns| ==> ns[k] != ns[l]
    ensures b.xMax > 0 && b.yMax > 0 ==>
              forall k :: 0 <= k < |ns| ==> ns[k].0 <= b.xMax && ns[k].1 <= b.yMax
  {
    if x > b.xMax || y > b.yMax then []
    else if x == 0 && y == 0 then [(0, 1), (1, 1), (1, 0)]
    else if x == 0 && y == b.yMax then [(x, y - 1), (x + 1, y - 1), (x + 1, y)]
    else if x == b.xMax && y == 0 then [(x - 1, y), (x - 1, y + 1), (x, y + 1)]
    else if x == b.xMax && y == b.yMax then [(x - 1, y - 1), (x - 1, y), (x, y - 1)]
    else if x == 0 then [(x, y - 1), (x, y + 1), (x + 1, y - 1), (x + 1, y), (x + 1, y + 1)]
    else if x == b.xMax then [(x - 1, y - 1), (x - 1, y), (x - 1, y + 1), (x, y - 1), (x, y + 1)]
    else if y == 0 then [(x - 1, y), (x - 1, y + 1), (x, y + 1), (x + 1, y), (x + 1, y + 1)]
    else if y == b.yMax then [(x - 1, y - 1), (x - 1, y), (x, y - 1), (x + 1, y - 1), (x + 1, y)]
    else [(x - 1, y - 1), (x - 1, y), (x - 1, y + 1), (x, y - 1), (x, y + 1), (x + 1, y - 1), (x + 1, y), (x + 1, y + 1)]
  }

  /** The counts `mini_find_neighbors_test` expects on a 5 by 5 board. */
  lemma NeighborCountsOnFiveByFive()
    ensures var b := NewBoard(5, 5);
      && |GetNeighbors(b, 0, 0)| == 3 && |GetNeighbors(b, 0, 5)| == 3
      && |GetNeighbors(b, 5, 0)| == 3 && |GetNeighbors(b, 5, 5)| == 3
      && |GetNeighbors(b, 2, 3)| == 8 && |GetNeighbors(b, 0, 3)| == 5
      && |GetNeighbors(b, 3, 0)| == 5 && |GetNeighbors(b, 1, 1)| == 8
  {
  }

  /** How many of the listed coordinates wrap onto a live cell. */
  function AliveAmong(b: Board, cs: seq<(nat, nat)>): (n: nat)
    requires cs == [] || Indexable(b)
    ensures n <= |cs|
    decreases |cs|
  {
    if cs == [] then 0
    else
      var c := cs[|cs| - 1];
      AliveAmong(b, cs[..|cs| - 1]) + (if Get(b, c.0, c.1) == Alive then 1 else 0)
  }

  /**
    `num_alive_neighbors`: counts the neighbour entries whose (wrapped) cell is
    alive; at most eight.
  */
  method NumAliveNeighbors(b: Board, x: nat, y: nat) returns (count: nat)
    requires GetNeighbors(b, x, y) == [] || Indexable(b)
    ensures count == AliveAmong(b, GetNeighbors(b, x, y))
    ensures count <= 8
  {
    count := 0;
    var ns := GetNeighbors(b, x, y);
    for k := 0 to |ns|
      invariant count == AliveAmong(b, ns[..k])
    {
      assert ns[..k + 1][..k] == ns[..k];
      match Get(b, ns[k].0, ns[k].1)
      case Alive => count := count + 1;
      case Dead =>
    }
    assert ns[..|ns|] == ns;
  }

  /** B3/S23: a live cell lives on with 2 or 3 live neighbours, a dead one is born with exactly 3. */
  predicate LivesOn(c: CellStatus, n: nat)
  {
    match c
    case Alive => n == 2 || n == 3
    case Dead => n == 3
  }

  /** The verdict `update_board` reaches at scan position (x, y). */
  predicate Verdict(b: Board, x: nat, y: nat)
    requires Indexable(b)
  {
    LivesOn(Get(b, x, y), AliveAmong(b, GetNeighbors(b, x, y)))
  }

  /**
    Cell (i, j) of the next generation is alive iff some scan position that
    wraps onto it reached a live verdict: (i, j) itself, and for column 0 also
    column `xMax`, for row 0 also row `yMax`.
  */
  predicate NextAlive(b: Board, i: nat, j: nat)
    requires Indexable(b)
  {
    || Verdict(b, i, j)
    || (i == 0 && Verdict(b, b.xMax, j))
    || (j == 0 && Verdict(b, i, b.yMax))
    || (i == 0 && j == 0 && Verdict(b, b.xMax, b.yMax))
  }

  /** The board `update_board` returns: same bounds, rectangular, cells as `NextAlive` says. */
  function Next(b: Board): (r: Board)
    requires Indexable(b)
    ensures Rectangular(r) && r.xMax == b.xMax && r.yMax == b.yMax && Indexable(r)
    ensures forall j, i :: 0 <= j < b.yMax && 0 <= i < b.xMax ==>
              (r.space[j][i] == Alive <==> NextAlive(b, i, j))
  {
    Board(seq(b.yMax, j requires 0 <= j < b.yMax =>
            seq(b.xMax, i requires 0 <= i < b.xMax => if NextAlive(b, i, j) then Alive else Dead)),
          b.xMax, b.yMax)
  }

  /** Scan position (sx, sy) comes before position (x, y) in the row-major scan. */
  predicate Before(sx: nat, sy: nat, x: nat, y: nat)
  {
    sy < y || (sy == y && sx < x)
  }

  /** `NextAlive` restricted to the scan positions visited before (x, y). */
  predicate PartlyAlive(b: Board, i: nat, j: nat, x: nat, y: nat)
    requires Indexable(b)
  {
    || (Before(i, j, x, y) && Verdict(b, i, j))
    || (i == 0 && Before(b.xMax, j, x, y) && Verdict(b, b.xMax, j))
    || (j == 0 && Before(i, b.yMax, x, y) && Verdict(b, i, b.yMax))
    || (i == 0 && j == 0 && Before(b.xMax, b.yMax, x, y) && Verdict(b, b.xMax, b.yMax))
  }

  /** Visiting (x, y) adds exactly the verdict of (x, y) to the one cell it wraps onto. */
  lemma ScanStep(b: Board, i: nat, j: nat, x: nat, y: nat)
    requires Indexable(b) && i < b.xMax && j < b.yMax && x <= b.xMax && y <= b.yMax
    ensures PartlyAlive(b, i, j, x + 1, y) <==>
              PartlyAlive(b, i, j, x, y) || (x % b.xMax == i && y % b.yMax == j && Verdict(b, x, y))
  {
    Arith.ModUpTo(x, b.xMax);
    Arith.ModUpTo(y, b.yMax);
  }

  /**
    The scratch board after the scan has visited every position before (x, y):
    the bounds of the old board, and a cell alive iff `PartlyAlive` says so.
  */
  predicate ScratchAfter(oldBoard: Board, scratch: Board, x: nat, y: nat)
    requires Indexable(oldBoard)
  {
    && Rectangular(scratch) && scratch.xMax == oldBoard.xMax && scratch.yMax == oldBoard.yMax
    && forall j, i :: 0 <= j < oldBoard.yMax && 0 <= i < oldBoard.xMax ==>
         (scratch.space[j][i] == Alive <==> PartlyAlive(oldBoard, i, j, x, y))
  }

  /** Writing the verdict of (x, y) into the scratch board moves the scan one position on. */
  lemma ScratchStep(oldBoard: Board, scratch: Board, x: nat, y: nat)
    requires Indexable(oldBoard) && x <= oldBoard.xMax && y <= oldBoard.yMax
    requires ScratchAfter(oldBoard, scratch, x, y)
    ensures Indexable(scratch)
    ensures ScratchAfter(oldBoard, if Verdict(oldBoard, x, y) then Written(scratch, x, y, Alive) else scratch, x + 1, y)
  {
    var after := if Verdict(oldBoard, x, y) then Written(scratch, x, y, Alive) else scratch;
    forall j, i | 0 <= j < oldBoard.yMax && 0 <= i < oldBoard.xMax
      ensures after.space[j][i] == Alive <==> PartlyAlive(oldBoard, i, j, x + 1, y)
    {
      ScanStep(oldBoard, i, j, x, y);
    }
  }

  /** Once the whole scan is done, the scratch board is the next generation. */
  lemma ScratchDone(oldBoard: Board, scratch: Board)
    requires Indexable(oldBoard) && ScratchAfter(oldBoard, scratch, 0, oldBoard.yMax + 1)
    ensures scratch == Next(oldBoard)
  {
    SameBoardIsEquality(scratch, Next(oldBoard));
  }

  /** One position of the scan: count the neighbours and set the cell alive on a live verdict. */
  method ScanPosition(oldBoard: Board, newBoard: GameBoard, x: nat, y: nat)
    requires Indexable(oldBoard) && x <= oldBoard.xMax && y <= oldBoard.yMax
    requires ScratchAfter(oldBoard, newBoard.Value(), x, y)
    modifies newBoard
    ensures ScratchAfter(oldBoard, newBoard.Value(), x + 1, y)
  {
    ScratchStep(oldBoard, newBoard.Value(), x, y);
    var n := NumAliveNeighbors(oldBoard, x, y);
    match Get(oldBoard, x, y)
    case Alive =>
      if n == 2 || n == 3 {
        newBoard.Set(x, y, Alive);
      }
    case Dead =>
      if n == 3 {
        newBoard.Set(x, y, Alive);
      }
  }

  /**
    `update_board`: a fresh dead board of the same bounds, and a scan of
    `0..=y_max` by `0..=x_max` that sets the wrapped cell alive on every live
    verdict. The old board is only read.
  */
  method UpdateBoard(oldBoard: Board) returns (r: Board)
    requires Indexable(oldBoard)
    ensures r == Next(oldBoard)
  {
    var newBoard := new GameBoard(oldBoard.xMax, oldBoard.yMax);
    for y := 0 to oldBoard.yMax + 1
      invariant ScratchAfter(oldBoard, newBoard.Value(), 0, y)
    {
      for x := 0 to oldBoard.xMax + 1
        invariant ScratchAfter(oldBoard, newBoard.Value(), x, y)
      {
        ScanPosition(oldBoard, newBoard, x, y);
      }
    }
    r := newBoard.Value();
    ScratchDone(oldBoard, r);
  }

  /** `n` generations, the way `run_iterations` applies them: first step first. */
  function Iterate(b: Board, n: nat): (r: Board)
    requires n == 0 || Indexable(b)
    ensures n > 0 ==> Rectangular(r) && Indexable(r) && r.xMax == b.xMax && r.yMax == b.yMax
    decreases n
  {
    if n == 0 then b else Iterate(Next(b), n - 1)
  }

  /**
    Zero generations change nothing, and `m + n` generations are `n`
    generations of the board after `m`.
  */
  lemma {:induction false} IterateAdd(b: Board, m: nat, n: nat)
    requires m + n == 0 || Indexable(b)
    ensures Iterate(b, 0) == b
    ensures Iterate(b, m + n) == Iterate(Iterate(b, m), n)
    decreases m
  {
    if m > 0 {
      IterateAdd(Next(b), m - 1, n);
    }
  }

  /** `run_iterations`: clones the board and replaces the clone by its successor `n` times. */
  method RunIterations(board: Board, n: nat) returns (r: Board)
    requires n == 0 || Indexable(board)
    ensures r == Iterate(board, n)
  {
    r := board;
    for i := 0 to n
      invariant r == Iterate(board, i)
    {
      IterateAdd(board, i, 1);
      r := UpdateBoard(r);
    }
  }

  /** With no live cell anywhere, every neighbour count is zero. */
  lemma {:induction false} AliveAmongDeadBoard(b: Board, cs: seq<(nat, nat)>)
    requires Indexable(b) && !AnyAlive(b)
    ensures AliveAmong(b, cs) == 0
    decreases |cs|
  {
    if cs != [] {
      AliveAmongDeadBoard(b, cs[..|cs| - 1]);
      var c := cs[|cs| - 1];
      assert b.space[c.1 % b.yMax][c.0 % b.xMax] != Alive;
    }
  }

  /** A board without live cells is its own successor. */
  lemma DeadBoardIsStill(b: Board)
    requires Rectangular(b) && Indexable(b) && !AnyAlive(b)
    ensures Next(b) == b
  {
    var r := Next(b);
    forall j, i | 0 <= j < b.yMax && 0 <= i < b.xMax
      ensures r.space[j][i] == b.space[j][i]
    {
      AliveAmongDeadBoard(b, GetNeighbors(b, i, j));
      AliveAmongDeadBoard(b, GetNeighbors(b, b.xMax, j));
      AliveAmongDeadBoard(b, GetNeighbors(b, i, b.yMax));
      AliveAmongDeadBoard(b, GetNeighbors(b, b.xMax, b.yMax));
      assert b.space[j][i] != Alive;
    }
    SameBoardIsEquality(r, b);
  }

  /** Once every cell is dead, any number of further generations keeps the board as it is. */
  lemma {:induction false} DeadBoardStaysDead(b: Board, n: nat)
    requires Rectangular(b) && Indexable(b) && !AnyAlive(b)
    ensures Iterate(b, n) == b
    decreases n
  {
    if n > 0 {
      DeadBoardIsStill(b);
      DeadBoardStaysDead(b, n - 1);
    }
  }
}
