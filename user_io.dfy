/**
  The console front end of `src/user_io.rs`: the one-letter command table and
  the wiki importer that sizes the board by the pieces of `split('\n')`. The
  coordinate scanner, the number prompt and the board text it shares with
  `src/cust_io.rs` and `src/save_load.rs` are modelled once, in the modules
  `Coordinates`, `Input` and `Format`.
*/
module UserIo {

  import opened Wrappers
  import opened Game
  import opened Input
  import Format
  import Wiki

  datatype GameAction = Simulation | GrowCell | KillCell | PrintBoard | Quit | Play | Save | Failed

  /** The letter the prompt offers for an action ('q' for Quit, which also takes 'c'); `Failed` has none. */
  function Key(a: GameAction): (k: Option<string>)
    ensures k.Some? <==> a != Failed
    ensures k.Some? ==> |k.value| == 1
  {
    match a
    case Simulation => Some("s")
    case PrintBoard => Some("p")
    case GrowCell => Some("g")
    case KillCell => Some("k")
    case Quit => Some("q")
    case Play => Some("l")
    case Save => Some("v")
    case Failed => None
  }

  /**
    The match of `get_user_game_action` on the trimmed line: exact and
    case-sensitive. A command comes only from its own letter (or 'c' for
    Quit); every other text is `Failed`.
  */
  function ActionOf(t: string): (a: GameAction)
    ensures a != Failed ==> t == Key(a).value || (a == Quit && t == "c")
  {
    if t == "s" then Simulation
    else if t == "p" then PrintBoard
    else if t == "g" then GrowCell
    else if t == "k" then KillCell
    else if t == "q" || t == "c" then Quit
    else if t == "l" then Play
    else if t == "v" then Save
    else Failed
  }

  /** `get_user_game_action` once the line is read. */
  function GetUserGameAction(line: string): GameAction
  {
    ActionOf(Trim(line))
  }

  /** Each offered letter selects its action. */
  lemma KeysSelectTheirAction(a: GameAction)
    requires a != Failed
    ensures ActionOf(Key(a).value) == a
  {
  }

  /** Each offered letter, typed and followed by Enter, selects its action. */
  lemma TypedKeysSelectTheirAction(a: GameAction)
    requires a != Failed
    ensures GetUserGameAction(Key(a).value + "\n") == a
  {
    TrimmedAnswer(Key(a).value);
    KeysSelectTheirAction(a);
  }

  /** 'c' quits as well as 'q'. */
  lemma CancelLetterQuits()
    ensures ActionOf("c") == Quit
  {
  }

  /** Letter case matters: the capital letters are no commands. */
  lemma ActionIsCaseSensitive()
    ensures forall t :: t in ["S", "P", "G", "K", "Q", "C", "L", "V"] ==> ActionOf(t) == Failed
  {
  }

  /** Surrounding whitespace does not matter. */
  lemma ActionIgnoresSurroundingWhitespace(line: string)
    ensures GetUserGameAction(Trim(line)) == GetUserGameAction(line)
  {
    TrimIdempotent(line);
  }

  /**
    `convert_wiki_to_board` of `src/user_io.rs`: an unreadable file reads as
    the empty text; the height is the number of pieces of `split('\n')`,
    comment lines included.
  */
  method ConvertWikiToBoard(file: Option<string>) returns (board: Board)
    ensures file.None? ==> board == NewBoard(0, 1)
    ensures file.Some? ==> board == Wiki.WikiBoard(Wiki.WikiRows(file.value), |Format.Split(file.value)|)
  {
    var text := if file.Some? then file.value else "";
    board := Wiki.ConvertWikiText(text, |Format.Split(text)|);
  }

  /**
    The importer never wraps a row: there are never more pattern lines than
    pieces of the text, so a pattern made only of cell characters is imported
    cell for cell.
  */
  lemma WikiImportIsExact(text: string, x: nat, y: nat)
    requires Wiki.OnlyCells(Wiki.WikiRows(text))
    requires x < Wiki.Widest(Wiki.WikiRows(text)) && y < |Wiki.WikiRows(text)|
    ensures Wiki.WikiBoard(Wiki.WikiRows(text), |Format.Split(text)|).space[y][x] ==
              if x < |Wiki.WikiRows(text)[y]| then Wiki.CellOf(Wiki.WikiRows(text)[y][x]).value else Dead
  {
    Wiki.WikiBoardCells(Wiki.WikiRows(text), |Format.Split(text)|, x, y);
  }

  /** `convert_wiki_file_to_save`: the imported board in the shared board text. */
  method ConvertWikiFileToSave(file: Option<string>) returns (contents: string)
    ensures file.None? ==> contents == ""
    ensures file.Some? ==>
              contents == Format.Serialize(Wiki.WikiBoard(Wiki.WikiRows(file.value), |Format.Split(file.value)|).space)
  {
    var board := ConvertWikiToBoard(file);
    contents := Format.SaveBoardToFile(board);
  }
}
