/**
  The command-line front end of `src/text.rs`: its command table over
  `game::GameAction`, the single-coordinate prompt with its assertion, and the
  dispatch of `initialize_board` and `prompt_user_to_change_cells` once the
  console lines and the file contents are given. `game::GameAction` is not
  part of this model; its variants are the ones `run_command_line` matches.
*/
module Text {

  import opened Wrappers
  import opened Game
  import opened Input
  import opened Coordinates
  import Format

  datatype GameAction = Step | GrowCell | KillCell | PrintBoard | Quit | Play | Save | Paused | Failed

  /**
    The letter the prompt offers for an action ('q' for Quit, which also takes
    'c'); `Paused` and `Failed` have none.
  */
  function Key(a: GameAction): (k: Option<string>)
    ensures k.Some? <==> a != Failed && a != Paused
    ensures k.Some? ==> |k.value| == 1
  {
    match a
    case Step => Some("s")
    case PrintBoard => Some("p")
    case GrowCell => Some("g")
    case KillCell => Some("k")
    case Quit => Some("q")
    case Play => Some("l")
    case Save => Some("v")
    case Paused => None
    case Failed => None
  }

  /**
    The match of `get_user_game_action` on the trimmed line: exact and
    case-sensitive. A command comes only from its own letter (or 'c' for
    Quit), `Paused` never comes from the console, and every other text is
    `Failed`.
  */
  function ActionOf(t: string): (a: GameAction)
    ensures a != Paused
    ensures a != Failed ==> t == Key(a).value || (a == Quit && t == "c")
  {
    if t == "s" then Step
    else if t == "p" then PrintBoard
    else if t == "g" then GrowCell
    else if t == "k" then KillCell
    else if t == "q" || t == "c" then Quit
    else if t == "l" then Play
    else if t == "v" then Save
    else Failed
  }

  /** `get_user_game_action` once the line is read. */
  function GetUserGameAction(line: string): GameAction
  {
    ActionOf(Trim(line))
  }

  /** Each offered letter selects its action. */
  lemma KeysSelectTheirAction(a: GameAction)
    requires a != Failed && a != Paused
    ensures ActionOf(Key(a).value) == a
  {
  }

  /** Each offered letter, typed and followed by Enter, selects its action. */
  lemma TypedKeysSelectTheirAction(a: GameAction)
    requires a != Failed && a != Paused
    ensures GetUserGameAction(Key(a).value + "\n") == a
  {
    TrimmedAnswer(Key(a).value);
    KeysSelectTheirAction(a);
  }

  /** 'c' quits as well as 'q'. */
  lemma CancelLetterQuits()
    ensures ActionOf("c") == Quit
  {
  }

  /** Letter case matters: the capital letters are no commands. */
  lemma ActionIsCaseSensitive()
    ensures forall t :: t in ["S", "P", "G", "K", "Q", "C", "L", "V"] ==> ActionOf(t) == Failed
  {
  }

  /** Surrounding whitespace does not matter. */
  lemma ActionIgnoresSurroundingWhitespace(line: string)
    ensures GetUserGameAction(Trim(line)) == GetUserGameAction(line)
  {
    TrimIdempotent(line);
  }

  /**
    `get_user_coordinate` once the line is read: the one pair the line holds;
    any other number of pairs fails the assertion (`None`).
  */
  function GetUserCoordinate(line: string): (r: Option<(nat, nat)>)
    ensures r.Some? <==> |Scan(line)| == 1
    ensures r.Some? ==> Scan(line) == [r.value]
  {
    var v := Scan(line);
    if |v| == 1 then Some(v[0]) else None
  }

  /** A coordinate typed as `x,y` and Enter is read back. */
  lemma TypedCoordinateIsRead(pair: (nat, nat))
    ensures GetUserCoordinate(PairText(pair) + "\n") == Some(pair)
  {
    ScanPairThen(pair, '\n', "");
    assert PairText(pair) + ['\n'] + "" == PairText(pair) + "\n";
  }

  /** Two coordinates on the line fail the assertion. */
  lemma TwoCoordinatesAreRejected(p: (nat, nat), q: (nat, nat))
    ensures GetUserCoordinate(Render([p, q])) == None
  {
    ScanRoundTrip([p, q]);
  }

  /** A line without digits fails the assertion. */
  lemma NoCoordinateIsRejected(line: string)
    requires forall k :: 0 <= k < |line| ==> !IsDigit(line[k])
    ensures GetUserCoordinate(line) == None
  {
    NoDigitsNoCoordinates(line);
  }

  /**
    `initialize_board` once the answers are read: "l" loads the board of the
    named file (its text, `None` when it cannot be read), "-m" makes the typed
    cells alive on a fresh default-size board, and anything else gives the
    fresh board.
  */
  method InitializeBoard(answer: string, file: Option<string>, typed: string) returns (board: Board)
    ensures Trim(answer) == "l" ==> board == if file.None? then NewBoard(GameX, GameY) else Format.LoadedBoard(file.value)
    ensures Trim(answer) == "-m" ==> board == WriteEach(NewBoard(GameX, GameY), CellWrites(Scan(typed), Alive))
    ensures Trim(answer) != "l" && Trim(answer) != "-m" ==> board == NewBoard(GameX, GameY)
  {
    var t := Trim(answer);
    if t == "l" {
      board := Format.LoadBoardFromFile(file);
    } else if t == "-m" {
      var b := new GameBoard(GameX, GameY);
      var cells := ParseStringToCoordinates(typed);
      b.SetCells(cells, Alive);
      board := b.Value();
    } else {
      board := NewBoard(GameX, GameY);
    }
  }

  /**
    On a board started by hand a cell is alive exactly when a typed coordinate
    wraps onto it; typing the coordinates as the prompt shows lists exactly them.
  */
  lemma ManualBoardCells(typed: string, i: nat, j: nat)
    requires i < GameX && j < GameY
    ensures WriteEach(NewBoard(GameX, GameY), CellWrites(Scan(typed), Alive)).space[j][i] == Alive <==>
              Listed(NewBoard(GameX, GameY), Scan(typed), i, j)
  {
    SetCellsEffect(NewBoard(GameX, GameY), Scan(typed), Alive, i, j);
  }

  /**
    `prompt_user_to_change_cells` once the answers are read: "t" sets the
    typed cells, "r" the cells read from the named file (given here), to
    `status`; any other answer changes nothing.
  */
  method PromptUserToChangeCells(board: GameBoard, status: CellStatus, answer: string, typed: string,
                                 fileCells: seq<(nat, nat)>)
    requires Trim(answer) == "t" && Scan(typed) != [] ==> Indexable(board.Value())
    requires Trim(answer) == "r" && fileCells != [] ==> Indexable(board.Value())
    modifies board
    ensures Trim(answer) == "t" ==> board.Value() == WriteEach(old(board.Value()), CellWrites(Scan(typed), status))
    ensures Trim(answer) == "r" ==> board.Value() == WriteEach(old(board.Value()), CellWrites(fileCells, status))
    ensures Trim(answer) != "t" && Trim(answer) != "r" ==> board.Value() == old(board.Value())
  {
    var t := Trim(answer);
    if t == "t" {
      var cells := ParseStringToCoordinates(typed);
      board.SetCells(cells, status);
    } else if t == "r" {
      board.SetCells(fileCells, status);
    }
  }
}
