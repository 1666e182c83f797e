/**
  The session logic of the window front end, `src/graphics.rs`: the 200 ms
  step timer, the actions the window understands, the pending-action state
  machine of `GUIGameState`, the debounced event queue `ProgramManager`, and
  the pixel arithmetic of `DrawInformation`.

  Time is a number of nanoseconds given by the caller (`now`); the coordinates
  a grow or kill action reads from the console are a parameter as well.
  `game::Game` is taken to be a `Board`: `step(1)` is one generation and
  `set_many(cells, [s])` writes `s` to each listed cell in turn.
*/
module Graphics {

  import opened Wrappers
  import opened Game
  import GameEngine
  import Text
  import Arith

  /** `Duration::from_millis(200)`, in nanoseconds. */
  const Delay: nat := 200_000_000

  /**
    `StepDelay::can_step`: strictly more than the delay has passed since the
    last step (`Instant::elapsed` is zero for a clock reading before it).
  */
  function CanStep(prevStep: nat, now: nat): (b: bool)
    ensures b <==> now > prevStep + Delay
  {
    (if now >= prevStep then now - prevStep else 0) > Delay
  }

  datatype GUIGameAction = Step | Paused | Play | GrowCell | KillCell

  /** `GUIGameAction::try_from`: the five actions the window knows, by name; every other one is refused. */
  function TryFromGameAction(a: Text.GameAction): (r: Result<GUIGameAction, ()>)
    ensures r.Ok? ==> ToGameAction(r.value) == a
    ensures r.Err? <==> a == Text.PrintBoard || a == Text.Quit || a == Text.Save || a == Text.Failed
  {
    match a
    case GrowCell => Ok(GrowCell)
    case KillCell => Ok(KillCell)
    case Paused => Ok(Paused)
    case Play => Ok(Play)
    case Step => Ok(Step)
    case _ => Err(())
  }

  /** The `game::GameAction` of the same name. */
  function ToGameAction(g: GUIGameAction): Text.GameAction
  {
    match g
    case Step => Text.Step
    case Paused => Text.Paused
    case Play => Text.Play
    case GrowCell => Text.GrowCell
    case KillCell => Text.KillCell
  }

  /** Every window action is accepted back from its game action. */
  lemma TryFromInvertsToGameAction(g: GUIGameAction)
    ensures TryFromGameAction(ToGameAction(g)) == Ok(g)
  {
  }

  /**
    An accepted game action is the one of the same name; exactly printing,
    quitting, saving and failure are refused.
  */
  lemma TryFromKeepsNames(a: Text.GameAction)
    ensures TryFromGameAction(a).Ok? ==> ToGameAction(TryFromGameAction(a).value) == a
    ensures TryFromGameAction(a).Err? <==> a in {Text.PrintBoard, Text.Quit, Text.Save, Text.Failed}
  {
  }

  /** The state of a `GUIGameState`: the game, the pending action and the time of the last step. */
  datatype GuiSnapshot = GuiSnapshot(board: Board, currentAction: Option<GUIGameAction>, prevStep: nat)

  /** What the pending action needs of the game: a board to step or to write to. */
  predicate CanConsume(s: GuiSnapshot, now: nat, cells: seq<(nat, nat)>)
  {
    match s.currentAction
    case Some(Step) => Indexable(s.board)
    case Some(Play) => CanStep(s.prevStep, now) ==> Indexable(s.board)
    case Some(GrowCell) => cells == [] || Indexable(s.board)
    case Some(KillCell) => cells == [] || Indexable(s.board)
    case _ => true
  }

  /**
    The state `consume_current_event` leaves at time `now`, `cells` being the
    coordinates a grow or kill action reads.
  */
  function AfterEvent(s: GuiSnapshot, now: nat, cells: seq<(nat, nat)>): GuiSnapshot
    requires CanConsume(s, now, cells)
  {
    match s.currentAction
    case None => s
    case Some(Paused) => s
    case Some(Step) => GuiSnapshot(GameEngine.Next(s.board), None, now)
    case Some(Play) =>
      if CanStep(s.prevStep, now) then GuiSnapshot(GameEngine.Next(s.board), None, now)
      else s.(currentAction := None)
    case Some(GrowCell) => s.(board := WriteEach(s.board, CellWrites(cells, Alive)), currentAction := None)
    case Some(KillCell) => s.(board := WriteEach(s.board, CellWrites(cells, Dead)), currentAction := None)
  }

  /** A pause stays pending; every other action is used up. */
  lemma ConsumeSettlesAction(s: GuiSnapshot, now: nat, cells: seq<(nat, nat)>)
    requires CanConsume(s, now, cells)
    ensures AfterEvent(s, now, cells).currentAction == if s.currentAction == Some(Paused) then Some(Paused) else None
  {
  }

  /** With nothing pending, or a pause, consuming changes nothing. */
  lemma NothingPendingChangesNothing(s: GuiSnapshot, now: nat, cells: seq<(nat, nat)>)
    requires s.currentAction == None || s.currentAction == Some(Paused)
    ensures AfterEvent(s, now, cells) == s
  {
  }

  /** Consuming a second time, at any later time, changes nothing more. */
  lemma ConsumeIsIdempotent(s: GuiSnapshot, now: nat, cells: seq<(nat, nat)>, later: nat, more: seq<(nat, nat)>)
    requires CanConsume(s, now, cells)
    ensures CanConsume(AfterEvent(s, now, cells), later, more)
    ensures AfterEvent(AfterEvent(s, now, cells), later, more) == AfterEvent(s, now, cells)
  {
    ConsumeSettlesAction(s, now, cells);
    NothingPendingChangesNothing(AfterEvent(s, now, cells), later, more);
  }

  /** A step advances exactly one generation and restarts the timer. */
  lemma StepAdvancesOneGeneration(s: GuiSnapshot, now: nat, cells: seq<(nat, nat)>)
    requires s.currentAction == Some(Step) && Indexable(s.board)
    ensures AfterEvent(s, now, cells).board == GameEngine.Iterate(s.board, 1)
    ensures AfterEvent(s, now, cells).prevStep == now
  {
    GameEngine.IterateAdd(GameEngine.Next(s.board), 0, 0);
  }

  /**
    Play advances one generation and restarts the timer only once more than
    the delay has passed; before that it leaves the board and the timer alone.
  */
  lemma PlayWaitsForDelay(s: GuiSnapshot, now: nat, cells: seq<(nat, nat)>)
    requires s.currentAction == Some(Play) && Indexable(s.board)
    ensures now > s.prevStep + Delay ==>
              AfterEvent(s, now, cells).board == GameEngine.Iterate(s.board, 1) && AfterEvent(s, now, cells).prevStep == now
    ensures now <= s.prevStep + Delay ==>
              AfterEvent(s, now, cells).board == s.board && AfterEvent(s, now, cells).prevStep == s.prevStep
  {
    GameEngine.IterateAdd(GameEngine.Next(s.board), 0, 0);
  }

  /** Consuming keeps the bounds of the game, and a board that can be stepped stays one. */
  lemma ConsumeKeepsBounds(s: GuiSnapshot, now: nat, cells: seq<(nat, nat)>)
    requires CanConsume(s, now, cells)
    ensures AfterEvent(s, now, cells).board.xMax == s.board.xMax
    ensures AfterEvent(s, now, cells).board.yMax == s.board.yMax
    ensures Indexable(s.board) ==> Indexable(AfterEvent(s, now, cells).board)
  {
  }

  /**
    On a grow action a cell ends alive exactly when it is listed or was alive,
    and the timer is left alone.
  */
  lemma GrowMakesListedCellsAlive(s: GuiSnapshot, now: nat, cells: seq<(nat, nat)>, i: nat, j: nat)
    requires s.currentAction == Some(GrowCell) && Indexable(s.board) && i < s.board.xMax && j < s.board.yMax
    ensures AfterEvent(s, now, cells).board.space[j][i] == Alive <==>
              Listed(s.board, cells, i, j) || s.board.space[j][i] == Alive
    ensures AfterEvent(s, now, cells).prevStep == s.prevStep
  {
    SetCellsEffect(s.board, cells, Alive, i, j);
  }

  /** On a kill action a cell ends alive exactly when it is not listed and was alive. */
  lemma KillMakesListedCellsDead(s: GuiSnapshot, now: nat, cells: seq<(nat, nat)>, i: nat, j: nat)
    requires s.currentAction == Some(KillCell) && Indexable(s.board) && i < s.board.xMax && j < s.board.yMax
    ensures AfterEvent(s, now, cells).board.space[j][i] == Alive <==>
              !Listed(s.board, cells, i, j) && s.board.space[j][i] == Alive
    ensures AfterEvent(s, now, cells).prevStep == s.prevStep
  {
    SetCellsEffect(s.board, cells, Dead, i, j);
  }

  /** `GUIGameState`: the game shown in the window, the action waiting to be carried out, and the step timer. */
  class GUIGameState {
    var board: Board
    var currentAction: Option<GUIGameAction>
    var prevStep: nat

    function Snapshot(): GuiSnapshot
      reads this
    {
      GuiSnapshot(board, currentAction, prevStep)
    }

    /** `GUIGameState::new`: a fresh dead game of the given size, nothing pending, the timer started now. */
    constructor New(size: (nat, nat), now: nat)
      ensures Snapshot() == GuiSnapshot(NewBoard(size.0, size.1), None, now)
    {
      board := NewBoard(size.0, size.1);
      currentAction := None;
      prevStep := now;
    }

    /** `GUIGameState::from_game`: the given game, nothing pending, the timer started now. */
    constructor FromGame(game: Board, now: nat)
      ensures Snapshot() == GuiSnapshot(game, None, now)
    {
      board := game;
      currentAction := None;
      prevStep := now;
    }

    /** `tick`: one generation, and the timer restarted now. */
    method Tick(now: nat)
      requires Indexable(board)
      modifies this
      ensures Snapshot() == GuiSnapshot(GameEngine.Next(old(board)), old(currentAction), now)
    {
      var next := GameEngine.UpdateBoard(board);
      board := next;
      prevStep := now;
    }

    /** `load_new_board`: the game is replaced; the pending action and the timer stay. */
    method LoadNewBoard(game: Board)
      modifies this
      ensures Snapshot() == old(Snapshot()).(board := game)
    {
      board := game;
    }

    /** `consume_current_event` at time `now`, with the coordinates a grow or kill action reads. */
    method ConsumeCurrentEvent(now: nat, cells: seq<(nat, nat)>)
      requires CanConsume(Snapshot(), now, cells)
      modifies this
      ensures Snapshot() == AfterEvent(old(Snapshot()), now, cells)
    {
      if currentAction.None? {
        return;
      }
      match currentAction.value {
        case Step =>
          Tick(now);
        case Paused =>
          return;
        case Play =>
          if CanStep(prevStep, now) {
            Tick(now);
          }
        case GrowCell =>
          board := WriteEach(board, CellWrites(cells, Alive));
        case KillCell =>
          board := WriteEach(board, CellWrites(cells, Dead));
      }
      currentAction := None;
    }
  }

  datatype ProgramEvent = ShowHelp | SaveBoard | LoadBoard | ExitApplication

  /** The queue after `add_event`: the event goes to the back unless it equals the one already there. */
  function Debounced(q: seq<ProgramEvent>, e: ProgramEvent): seq<ProgramEvent>
  {
    if q != [] && q[|q| - 1] == e then q else q + [e]
  }

  /** After an addition the event is at the back and everything before is kept, in order. */
  lemma DebouncedKeepsQueue(q: seq<ProgramEvent>, e: ProgramEvent)
    ensures |q| <= |Debounced(q, e)| <= |q| + 1
    ensures Debounced(q, e)[..|q|] == q
    ensures Debounced(q, e)[|Debounced(q, e)| - 1] == e
    ensures |Debounced(q, e)| == |q| <==> q != [] && q[|q| - 1] == e
  {
  }

  /** No two neighbouring events in the queue are equal. */
  predicate NoAdjacentDuplicates(q: seq<ProgramEvent>)
  {
    forall k :: 0 < k < |q| ==> q[k - 1] != q[k]
  }

  lemma DebouncedKeepsNoAdjacentDuplicates(q: seq<ProgramEvent>, e: ProgramEvent)
    requires NoAdjacentDuplicates(q)
    ensures NoAdjacentDuplicates(Debounced(q, e))
  {
  }

  /** Only neighbours are merged: an event may come back once something else was queued after it. */
  lemma NonAdjacentDuplicatesAreKept()
    ensures Debounced(Debounced([ShowHelp], SaveBoard), ShowHelp) == [ShowHelp, SaveBoard, ShowHelp]
    ensures Debounced(Debounced([ShowHelp], SaveBoard), SaveBoard) == [ShowHelp, SaveBoard]
  {
  }

  /** `ProgramManager`: the program events waiting to be handled, front first. */
  class ProgramManager {
    var toProcess: seq<ProgramEvent>

    /** `ProgramManager::new`: an empty queue. */
    constructor ()
      ensures toProcess == []
    {
      toProcess := [];
    }

    /**
      `add_event`: the event is queued unless it repeats the back of the queue.
      The source's `Err(())` needs a queue that is neither empty nor has a back,
      so every call succeeds.
    */
    method AddEvent(event: ProgramEvent) returns (r: Result<(), ()>)
      modifies this
      ensures toProcess == Debounced(old(toProcess), event)
      ensures r == Ok(())
      ensures NoAdjacentDuplicates(old(toProcess)) ==> NoAdjacentDuplicates(toProcess)
    {
      var back := if toProcess != [] then Some(toProcess[|toProcess| - 1]) else None;
      if back.Some? {
        if back.value != event {
          toProcess := toProcess + [event];
        }
        return Ok(());
      } else if toProcess == [] {
        toProcess := toProcess + [event];
        return Ok(());
      }
      return Err(());
    }

    /** `add_event_ignore`: `add_event` with its result dropped. */
    method AddEventIgnore(event: ProgramEvent)
      modifies this
      ensures toProcess == Debounced(old(toProcess), event)
    {
      var _ := AddEvent(event);
    }

    /** `pop`: the front event is removed and returned; an empty queue gives `None`. */
    method Pop() returns (e: Option<ProgramEvent>)
      modifies this
      ensures old(toProcess) == [] ==> e == None && toProcess == []
      ensures old(toProcess) != [] ==> e == Some(old(toProcess)[0]) && toProcess == old(toProcess)[1..]
      ensures NoAdjacentDuplicates(old(toProcess)) ==> NoAdjacentDuplicates(toProcess)
    {
      if toProcess == [] {
        return None;
      }
      e := Some(toProcess[0]);
      toProcess := toProcess[1..];
    }
  }

  /** Indices are truncated to `u32` before the arithmetic. */
  const U32Limit: nat := 0x1_0000_0000

  /** `DrawInformation`: the screen size in pixels, the size of a cell and the padding between cells. */
  datatype DrawInformation = DrawInformation(width: nat, height: nat, cellSize: (nat, nat), padding: nat)

  /** `index_to_pixel`: the column and row of the (truncated) index in a row-major frame `width` pixels wide. */
  function IndexToPixel(d: DrawInformation, idx: nat): (p: (nat, nat))
    requires d.width > 0
    ensures p.0 < d.width
  {
    var i := idx % U32Limit;
    (i % d.width, i / d.width)
  }

  /** Row and column rebuild the truncated index. */
  lemma PixelRebuildsIndex(d: DrawInformation, idx: nat)
    requires d.width > 0
    ensures IndexToPixel(d, idx).1 * d.width + IndexToPixel(d, idx).0 == idx % U32Limit
  {
  }

  /** Every pixel of the frame is found at its row-major index. */
  lemma PixelOfIndex(d: DrawInformation, x: nat, y: nat)
    requires d.width > 0 && x < d.width && y * d.width + x < U32Limit
    ensures IndexToPixel(d, y * d.width + x) == (x, y)
  {
    var idx := y * d.width + x;
    Arith.ModBelow(idx, U32Limit);
    Arith.DivModUnique(idx, d.width, y, x);
  }

  /** What `index_to_cell` needs: no division by zero and no `u32` overflow in `cell + padding`. */
  predicate CellGrid(d: DrawInformation)
  {
    d.width > 0 && 0 < d.cellSize.0 + d.padding < U32Limit && 0 < d.cellSize.1 + d.padding < U32Limit
  }

  /** The pixel lies in the first `padding + 1` pixels of a period of `cell + padding` pixels, on either axis. */
  predicate OnPadding(p: (nat, nat), d: DrawInformation)
    requires CellGrid(d)
  {
    p.0 % (d.cellSize.0 + d.padding) <= d.padding || p.1 % (d.cellSize.1 + d.padding) <= d.padding
  }

  /**
    `index_to_cell`: `None` on the padding (the first `padding + 1` pixels of
    each period of `cell + padding` pixels, on either axis); otherwise the
    period the pixel lies in, on each axis.
  */
  function IndexToCell(d: DrawInformation, idx: nat): Option<(nat, nat)>
    requires CellGrid(d)
  {
    var (x, y) := IndexToPixel(d, idx);
    var px, py := d.cellSize.0 + d.padding, d.cellSize.1 + d.padding;
    if x % px <= d.padding || y % py <= d.padding then None else Some((x / px, y / py))
  }

  /**
    `index_to_cell` answers `None` exactly on the padding; otherwise the pixel
    lies past the padding of the period its cell names, and before the next period.
  */
  lemma IndexToCellPeriod(d: DrawInformation, idx: nat)
    requires CellGrid(d)
    ensures var c := IndexToCell(d, idx); var p := IndexToPixel(d, idx);
            (c.None? <==> OnPadding(p, d)) &&
            (c.Some? ==> InPeriod(p.0, c.value.0, d.cellSize.0 + d.padding, d.padding) &&
                         InPeriod(p.1, c.value.1, d.cellSize.1 + d.padding, d.padding))
  {
    var p := IndexToPixel(d, idx);
    if !OnPadding(p, d) {
      PeriodOf(p.0, d.cellSize.0 + d.padding, d.padding);
      PeriodOf(p.1, d.cellSize.1 + d.padding, d.padding);
    }
  }

  /** `v` lies in period `q` of `period` pixels, past its first `pad + 1` pixels. */
  predicate InPeriod(v: nat, q: nat, period: nat, pad: nat)
  {
    q * period + pad < v < q * period + period
  }

  /** A coordinate off the padding lies in the period its quotient names. */
  lemma PeriodOf(v: nat, period: nat, pad: nat)
    requires period > 0 && v % period > pad
    ensures InPeriod(v, v / period, period, pad)
  {
    assert v == (v / period) * period + v % period;
  }

  /** A coordinate below `bound` periods plus the padding, off the padding, is in a period below `bound`. */
  lemma PeriodBelow(v: nat, bound: nat, period: nat, pad: nat)
    requires period > 0 && v < bound * period + pad && v % period > pad
    ensures v / period < bound
  {
    var q := v / period;
    assert v == q * period + v % period;
    if q >= bound {
      assert (q - bound) * period >= 0;
      Arith.MulDistributes(q, bound, period);
    }
  }

  /** A truncated index below `width * height` lies on a row below `height`. */
  lemma RowBelow(i: nat, width: nat, height: nat)
    requires width > 0 && i < width * height
    ensures i / width < height
  {
    var q := i / width;
    assert i == q * width + i % width;
    if q >= height {
      assert (q - height) * width >= 0;
      Arith.MulDistributes(q, height, width);
    }
  }

  /**
    With the screen sized as the window builds it (`bound * (cell + padding) +
    padding` on each axis), every pixel of the frame that maps to a cell maps
    to one on the board.
  */
  lemma CellInBoard(d: DrawInformation, xMax: nat, yMax: nat, idx: nat)
    requires CellGrid(d)
    requires d.width == xMax * (d.cellSize.0 + d.padding) + d.padding
    requires d.height == yMax * (d.cellSize.1 + d.padding) + d.padding
    requires idx < d.width * d.height
    ensures IndexToCell(d, idx).Some? ==> IndexToCell(d, idx).value.0 < xMax && IndexToCell(d, idx).value.1 < yMax
  {
    var i := idx % U32Limit;
    Arith.ModBelow(idx, U32Limit);
    assert i <= idx;
    var (x, y) := IndexToPixel(d, idx);
    RowBelow(i, d.width, d.height);
    var px, py := d.cellSize.0 + d.padding, d.cellSize.1 + d.padding;
    if x % px > d.padding && y % py > d.padding {
      PeriodBelow(x, xMax, px, d.padding);
      PeriodBelow(y, yMax, py, d.padding);
    }
  }

  /** Every pixel inside cell `(cx, cy)`, past the padding, maps back to that cell. */
  lemma CellPixelsMapBack(d: DrawInformation, cx: nat, cy: nat, x: nat, y: nat)
    requires CellGrid(d) && x < d.width && y * d.width + x < U32Limit
    requires var ox := x - cx * (d.cellSize.0 + d.padding); d.padding < ox < d.cellSize.0 + d.padding
    requires var oy := y - cy * (d.cellSize.1 + d.padding); d.padding < oy < d.cellSize.1 + d.padding
    ensures IndexToCell(d, y * d.width + x) == Some((cx, cy))
  {
    var px, py := d.cellSize.0 + d.padding, d.cellSize.1 + d.padding;
    PixelOfIndex(d, x, y);
    Arith.DivModUnique(x, px, cx, x - cx * px);
    Arith.DivModUnique(y, py, cy, y - cy * py);
  }

  /** The window's layout: 8 by 8 pixel cells with 2 pixels of padding, sized to the board. */
  function GuiScreen(xMax: nat, yMax: nat): (d: DrawInformation)
    ensures CellGrid(d)
    ensures d.width == xMax * (d.cellSize.0 + d.padding) + d.padding
    ensures d.height == yMax * (d.cellSize.1 + d.padding) + d.padding
  {
    DrawInformation(xMax * 10 + 2, yMax * 10 + 2, (8, 8), 2)
  }

  /** In the window's layout, every pixel of the frame that maps to a cell maps to one on the board. */
  lemma GuiCellsOnBoard(xMax: nat, yMax: nat, idx: nat)
    requires idx < GuiScreen(xMax, yMax).width * GuiScreen(xMax, yMax).height
    ensures var c := IndexToCell(GuiScreen(xMax, yMax), idx); c.Some? ==> c.value.0 < xMax && c.value.1 < yMax
  {
    CellInBoard(GuiScreen(xMax, yMax), xMax, yMax, idx);
  }
}
