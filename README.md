# Game of Life — a Dafny model

This project models the core of `robert-pat/game-of-life`, a Rust Game of Life simulator, and proves properties of that model. The core consists of:

- **The board and its generation step** (`src/game.rs`). The board is a grid of `CellStatus` values with wrap-around `get`/`set`. It has a hand-written neighbour list, and `update_board` writes the B3/S23 rule into a scratch board, scanning `0..=x_max` by `0..=y_max`. `run_iterations` repeats the step.
- **The two-glyph board text** and its readers and writers (`src/save_load.rs`, `src/user_io.rs`, `src/cust_io.rs`). Each row is one line of `'☑'`/`'☒'`, and rows are joined by `'\n'`. On top of that sit:
  - `load_game` with its `SaveLoadError`;
  - the importer for the Game of Life wiki's plain-text patterns.
- **The console front ends** (`src/user_io.rs`, `src/cust_io.rs`, `src/text.rs`):
  - the `digits,digits` coordinate scanner;
  - the one-letter command tables;
  - the number prompt with its fallback to 0;
  - the single-coordinate prompts;
  - the `initialize_board` and `prompt_user_to_change_cells` dispatch.
- **The window session** (`src/graphics.rs`):
  - the 200 ms step timer;
  - the pending-action state machine of `GUIGameState`;
  - the debounced event queue `ProgramManager`;
  - the pixel-to-cell arithmetic of `DrawInformation`.

Modules:

| module | file | models |
|---|---|---|
| `Wrappers` | wrappers.dfy | `Option` and `Result` |
| `Arith` | arith.dfy | division facts used by the proofs |
| `Game` | game.dfy | `CellStatus`, the board value `Board`, the mutable `GameBoard` class (`set`, `set_cells`), `has_alive_cells`, `PartialEq` |
| `GameEngine` | engine.dfy | `get_neighbors`, `num_alive_neighbors`, `update_board`, `run_iterations` |
| `Format` | format.dfy | the board text: save, split and parse, load |
| `Wiki` | wiki.dfy | the wiki pattern importer |
| `Input` | input.dfy | `str::trim`, `usize` parsing, `get_user_number` |
| `Coordinates` | coords.dfy | `parse_string_to_coordinates`, `read_file_coordinates`, the `split(',')` coordinate prompt |
| `SaveLoad` | save_load.dfy | `save_game`, `load_game`, `lines()`, the `save_load.rs` wiki importer |
| `UserIo` | user_io.dfy | the `user_io.rs` command table and wiki importer |
| `CustIo` | cust_io.dfy | the `cust_io.rs` command table |
| `Text` | text.dfy | the `text.rs` command table, coordinate prompt, `initialize_board`, `prompt_user_to_change_cells` |
| `Graphics` | graphics.dfy | `StepDelay`, `GUIGameAction`, `GUIGameState`, `ProgramManager`, `DrawInformation` |

Three source files carry copies of the same save, load, scanner, number-prompt and wiki code. Each copy is modelled once, and the table below cites every copy. The I/O is replaced by explicit inputs:

- A file's content is an `Option<string>`, where `None` means the file cannot be read.
- A console answer is the line as typed.
- A clock reading is a number of nanoseconds.

Points where the code's behaviour is easy to misread, and which the model follows as written:

- The neighbour list is the hand-written case split of `get_neighbors` (src/game.rs:108-145). It treats `x_max`/`y_max` as the edge, and `get` then wraps the coordinates it returns; it is not a clipped neighbourhood.
- Auto-play waits until strictly more than 200 ms have passed: `can_step` compares with `>` (src/graphics.rs:15-17).
- `add_event` answers `Ok(())` even when it drops a repeated event; its `Err(())` is unreachable (src/graphics.rs:113-124).
- A `Play` action is used up after one tick, like every action except `Paused`, because `consume_current_event` clears the action after its match (src/graphics.rs:94).
- `get`/`set` wrap their coordinates with `%` instead of rejecting them (src/game.rs:30-41).

`game::Game`, `GameBoardOld`, `game::Board`, `CellState` and `game::Status` are used by the source but not part of this model. They are taken to be `Board` and `CellStatus`:

- `step(1)` is one generation of `update_board`.
- `set_many(cells, [s])` is `set_cells(cells, s)`.
- `clone_from_old` copies the board.

## Model

| member | source | states |
|---|---|---|
| Game.ToChar | src/game.rs:9-14 | Alive is written as '☑' and Dead as '☒'; the two glyphs differ |
| Game.FromChar | src/save_load.rs:50-57 | exactly the two glyphs are read as a state, and each reads back as the state it was written for |
| Game.NewBoard | src/game.rs:54-60 | `new(x, y)` has `y` rows of `x` cells, all Dead, with bounds `x` and `y` |
| Game.NewBoardIsDead | src/test.rs:79-81 | a new board has no live cell |
| Game.GameBoard.constructor | src/game.rs:54-60 | the object holds the new board |
| Game.Get | src/game.rs:30-34 | inside the bounds `get` reads the stored cell |
| Game.GetWraps | src/game.rs:30-34 | `get` is periodic: adding `x_max` or `y_max` to a coordinate reads the same cell |
| Game.Written | src/game.rs:37-41 | after `set(x, y, v)`, `get(x, y) == v`; bounds and row lengths are kept; every other cell is unchanged |
| Game.GameBoard.Set | src/game.rs:37-41 | the in-place `set` leaves the board that `Written` describes |
| Game.GameBoard.SetCells | src/game.rs:44-50 | the loop leaves the board after all listed writes, in order |
| Game.WriteEachAppend | src/game.rs:44-50 | writing two lists one after the other is writing their concatenation |
| Game.WriteEachEffect | src/game.rs:44-50 | after a list of writes, each cell holds the last write that wraps onto it, or its old state if none does |
| Game.SetCellsEffect | src/game.rs:44-50 | after `set_cells(cells, s)`, a cell holds `s` exactly when a listed coordinate wraps onto it; otherwise it keeps its state |
| Game.HasAliveCells | src/game.rs:63-73 | the early-return scan answers true exactly when some stored cell is Alive |
| Game.OneCellMakesBoardAlive | src/test.rs:79-85 | setting (5,5) Alive on an empty 10×10 board gives a board with a live cell |
| Game.Equals | src/game.rs:92-104 | `eq` is true exactly when the bounds agree and every cell inside them agrees |
| Game.SameBoardIsEquality | src/game.rs:92-104 | on rectangular boards `eq` is value equality |
| GameEngine.GetNeighbors | src/game.rs:108-145 | `[]` when `x > x_max` or `y > y_max`. Otherwise 3 entries at the corners, 5 on one edge, 8 elsewhere. No duplicates, never `(x, y)` itself, each within one step on each axis |
| GameEngine.NeighborCountsOnFiveByFive | src/test.rs:53-77 | the neighbour counts the 5×5 test expects |
| GameEngine.NumAliveNeighbors | src/game.rs:176-185 | the counter loop returns the number of listed neighbours whose wrapped cell is Alive, at most 8 |
| GameEngine.Next | src/game.rs:147-173 | the next generation keeps the bounds; a cell is Alive exactly when some scan position that wraps onto it is Alive with 2 or 3 live neighbours, or Dead with 3 |
| GameEngine.ScanStep | src/game.rs:151-170 | each scan position adds exactly its own verdict to the one cell it wraps onto |
| GameEngine.ScanPosition | src/game.rs:154-168 | one scan position writes Alive into the scratch board exactly on a live verdict |
| GameEngine.UpdateBoard | src/game.rs:148-173 | the nested scan over the scratch board returns `Next` of the old board |
| GameEngine.Iterate | src/game.rs:188-194 | one or more generations keep the bounds and a rectangular board |
| GameEngine.IterateAdd | src/game.rs:188-194 | zero generations change nothing; `m + n` generations are `n` generations after `m` |
| GameEngine.RunIterations | src/game.rs:188-194 | the loop returns `n` generations of the board; the board passed in is a value and is not changed |
| GameEngine.AliveAmongDeadBoard | src/game.rs:176-185 | on a board without live cells every neighbour count is 0 |
| GameEngine.DeadBoardIsStill | src/game.rs:147-173 | a board without live cells is its own next generation |
| GameEngine.DeadBoardStaysDead | src/game.rs:188-194 | any number of generations keep a dead board as it is |
| Format.SaveBoardToFile | src/save_load.rs:17-32 | the text is the rows' glyphs joined by '\n', with the last '\n' popped; the copy at `src/user_io.rs:104-119` is the same; the copy at `src/cust_io.rs:105-120` is the same |
| Format.TerminatedIsSerializedPlusNewline | src/save_load.rs:20-27 | before the `pop` the text is the saved board plus one '\n'; for no rows it is empty |
| Format.Split | src/save_load.rs:47 | `split('\n')` gives one piece more than there are newlines |
| Format.ParseRowsIsSplitThenFiltered | src/save_load.rs:47-60 | the parsed rows are the `'\n'` pieces, each reduced to its glyphs in order |
| Format.UnknownCharactersAreSkipped | src/save_load.rs:49-57 | removing every character other than the glyphs and '\n' does not change the parsed rows |
| Format.LoadedBoard | src/save_load.rs:62-66 | the height is the number of pieces and matches the rows |
| Format.LoadBoardFromFile | src/save_load.rs:37-67 | an unreadable file gives a new dead 30×30 board; otherwise the rows parsed from the text, the width from the first row, the height from the row count; the copy at `src/user_io.rs:124-151` is the same; the copy at `src/cust_io.rs:125-155` is the same |
| Format.ParseSerialized | src/save_load.rs:17-66 | parsing the saved text of at least one row gives the rows back |
| Format.SplitSerialized | src/save_load.rs:17-47 | the saved text of at least one row splits into exactly the rows' lines |
| Format.LoadSaved | src/test.rs:14-33 | a rectangular board with at least one row, saved and loaded, is the same board |
| Format.NoRowsDoNotRoundTrip | src/save_load.rs:17-66 | a board without rows saves as "" and loads back as one empty row |
| Input.TrimmedEnds | src/user_io.rs:80 | `trim` leaves no Unicode whitespace at either end |
| Input.TrimIsInfix | src/user_io.rs:80 | the trimmed text is the piece of the line after its leading whitespace |
| Input.TrimIdempotent | src/user_io.rs:80 | trimming twice is trimming once |
| Input.TrimPadded | src/user_io.rs:80 | whitespace around a text that has none at its ends is removed exactly |
| Input.ParseUsize | src/user_io.rs:63 | a parse succeeds only on an optional '+' and one or more ASCII digits, and its value is below 2^64 |
| Input.ParseDigits | src/user_io.rs:63 | conversely, every run of ASCII digits whose value is below 2^64 parses to that value, with or without a leading '+' |
| Input.ValueOfDecimal | src/user_io.rs:63-66 | reading back the decimal spelling of a number gives the number |
| Input.NumberOrZero | src/user_io.rs:58-70 | the trimmed line's number, or 0 when it does not parse; the copy at `src/cust_io.rs:60-72` is the same; the copy at `src/text.rs:141-153` is the same |
| Input.NumberOrZeroReadsDecimal | src/user_io.rs:63-66 | a number below 2^64 typed followed by Enter is read back |
| Input.NumberOrZeroReadsDigits | src/user_io.rs:58-70 | any run of digits below 2^64 typed with whitespace around it, leading zeros included (" 007" and Enter), is read as its value |
| Input.NumberOrZeroWithoutDigits | src/text.rs:146-152 | a line without digits reads as 0 |
| Coordinates.DigitRun | src/user_io.rs:46 | the leading digit run is maximal: what follows it is no digit |
| Coordinates.MatchAt | src/user_io.rs:46-50 | a match is at least three characters long and lies inside the text |
| Coordinates.ParseStringToCoordinates | src/user_io.rs:41-55 | the push loop returns the pairs of all `digits,digits` matches, left to right; the copy at `src/cust_io.rs:43-57` is the same; the copy at `src/text.rs:124-138` is the same |
| Coordinates.ScanSkipsNoise | src/user_io.rs:49-52 | text without digits adds no pair and does not disturb what follows it |
| Coordinates.NoDigitsNoCoordinates | src/user_io.rs:49-52 | a line without digits gives no coordinates |
| Coordinates.MatchPair | src/text.rs:129-134 | a typed `x,y` followed by a non-digit is matched as exactly that pair |
| Coordinates.ScanPairThen | src/text.rs:132-135 | a typed pair and a non-digit separator give that pair, then the pairs of what follows |
| Coordinates.ScanRoundTrip | src/text.rs:116-119 | any list of coordinates typed as the prompt asks (`x,y x,y ...`) is read back unchanged |
| Coordinates.ReadFileCoordinates | src/user_io.rs:93-101 | an unreadable file gives no coordinates; otherwise the pairs of its text; the copy at `src/cust_io.rs:94-102` is the same; `read_coords_from_file` at `src/save_load.rs:6-14` is the same, with `text::parse_to_coordinates` taken to be this scanner |
| Coordinates.SplitCoordinateReadsPair | src/user_io.rs:20-27 | a coordinate typed as `x,y` and Enter, both below 2^64, is read back by the `split(',')` prompt; the copy at `src/cust_io.rs:21-28` is the same |
| Coordinates.SplitCoordinate | src/user_io.rs:20-27 | `get_user_coordinate` of `user_io.rs` and `cust_io.rs` (src/cust_io.rs:21-28): an answer exists only when the trimmed line holds a comma, and both numbers are below 2^64; any other line panics (`None`) |
| Coordinates.SplitCoordinateNeedsComma | src/user_io.rs:25-26 | a line without a comma makes the prompt panic (`None`) |
| Coordinates.SplitAtComma | src/user_io.rs:25-26 | two digit runs around a comma are cut into exactly those runs |
| Wiki.CellOf | src/save_load.rs:98-102 | exactly 'O' and '.' are cells; 'O' is Alive |
| Wiki.WikiRows | src/save_load.rs:96 | an empty text has one empty pattern line and makes no writes |
| Wiki.Widest | src/user_io.rs:162-172 | the width is at least the cell count of every pattern line (`WidestIsReached` gives the other half) |
| Wiki.WidestIsReached | src/user_io.rs:162-172 | the width is 0 or the cell count of some pattern line, so with `Widest` it is the largest count |
| Wiki.WikiBoard | src/user_io.rs:174-190 | the imported board is rectangular, as wide as the widest pattern line, as tall as the given height |
| Wiki.CountCells | src/user_io.rs:166-168 | the loop counts the cell characters of a line |
| Wiki.WidestPatternLine | src/user_io.rs:162-172 | the first pass returns the largest cell count of a non-comment line |
| Wiki.SetPatternLine | src/user_io.rs:180-187 | one line's pass sets each 'O'/'.' at its character index, in order |
| Wiki.SecondPass | src/user_io.rs:178-189 | the second pass performs the writes of every non-comment line, the y-th such line at row y |
| Wiki.ConvertWikiText | src/save_load.rs:82-105 | both passes over the text build the board `WikiBoard` describes for the given height; the copy at `src/user_io.rs:162-190` is the same; the copy at `src/cust_io.rs:165-193` is the same |
| Wiki.RowWritesUpToAreCells | src/user_io.rs:180-187 | a line's writes are exactly its cell characters, at their character index |
| Wiki.WikiWritesInBounds | src/user_io.rs:174-189 | in a pattern made only of cells, every write lies inside the board |
| Wiki.WikiBoardCells | src/user_io.rs:174-189 | in a pattern made only of cells, cell (x, y) is the state of the x-th character of the y-th pattern line, and Dead past its end |
| Wiki.UnknownCharacterTakesAColumn | src/user_io.rs:182-186 | an unknown character is not counted in the width but still advances x |
| SaveLoad.LineCount | src/save_load.rs:159-163 | `lines().count()` is 0 exactly for the empty text |
| SaveLoad.SerializedLineCount | src/save_load.rs:159-163 | a saved board whose last row is not empty has one line per row |
| SaveLoad.FirstLine | src/save_load.rs:164 | the first line is a prefix of the text that ends exactly at the first line ending: at the end of the text, at the first '\n', or at a '\r' standing right before that '\n' |
| SaveLoad.FirstLineHasNoNewline | src/save_load.rs:164 | the first line holds no '\n' |
| SaveLoad.LoadGame | src/save_load.rs:154-178 | `FileOpen` exactly for an unreadable file, `EmptyFile` exactly for the empty text; otherwise a height of at least 1 and a buffer no longer than the text |
| SaveLoad.GlyphCellsSerialized | src/save_load.rs:166-173 | the glyph buffer of a saved board is its cells, row after row |
| SaveLoad.LoadSavedGame | src/save_load.rs:132-178 | the text `save_game` writes for a board of at least one row and one column, read by `load_game`, gives its bounds and its cells row after row; through the file this holds when the file is new or not longer than the text (see Left out) |
| SaveLoad.WidthCountsUnknownCharacters | src/save_load.rs:164 | the width counts every character of the first line, glyph or not |
| SaveLoad.SaveGame | src/save_load.rs:132-152 | the text written is the saved board; the result is `Ok` exactly when the write succeeds, and its only error is `FileWrite` |
| SaveLoad.LoadBoardFromFileNew | src/save_load.rs:69-74 | the loaded board, copied into a game of the same bounds |
| SaveLoad.ConvertWikiToBoard | src/save_load.rs:78-106 | an unreadable file panics (`None`); otherwise the imported board with the line count as height |
| SaveLoad.CreateSaveFromWiki | src/save_load.rs:109-112 | the imported board's saved text, or `None` where the import panics |
| UserIo.Key | src/user_io.rs:80-89 | every action except `Failed` has a one-letter key |
| UserIo.ActionOf | src/user_io.rs:80-89 | a command comes only from its own letter, or 'c' for Quit; anything else is `Failed` |
| UserIo.KeysSelectTheirAction | src/user_io.rs:80-89 | each letter selects its action |
| UserIo.TypedKeysSelectTheirAction | src/user_io.rs:74-90 | each letter typed and followed by Enter selects its action |
| UserIo.CancelLetterQuits | src/user_io.rs:85 | 'c' quits |
| UserIo.ActionIsCaseSensitive | src/user_io.rs:80-89 | capital letters are no commands |
| UserIo.ActionIgnoresSurroundingWhitespace | src/user_io.rs:80 | surrounding whitespace does not matter |
| UserIo.ConvertWikiToBoard | src/user_io.rs:155-191 | an unreadable file gives an empty board with one row; otherwise the imported board with the number of `'\n'` pieces as height; the copy at `src/cust_io.rs:158-194` is the same |
| UserIo.WikiImportIsExact | src/user_io.rs:174-189 | in a pattern made only of cells, every pattern character becomes the cell at its place |
| UserIo.ConvertWikiFileToSave | src/user_io.rs:195-198 | the text written back is the imported board's saved text; the copy at `src/cust_io.rs:197-200` is the same |
| CustIo.Key | src/cust_io.rs:80-89 | every choice except `Failed` has a one-letter key |
| CustIo.ChoiceOf | src/cust_io.rs:80-89 | a choice comes only from its own letter, or 'c' for Cancel; anything else is `Failed` |
| CustIo.KeysSelectTheirChoice | src/cust_io.rs:80-89 | each letter selects its choice |
| CustIo.TypedKeysSelectTheirChoice | src/cust_io.rs:76-90 | each letter typed and followed by Enter selects its choice |
| CustIo.CancelLetterCancels | src/cust_io.rs:85 | 'c' cancels |
| CustIo.ChoiceIsCaseSensitive | src/cust_io.rs:80-89 | capital letters are no choices |
| CustIo.ChoiceIgnoresSurroundingWhitespace | src/cust_io.rs:80 | surrounding whitespace does not matter |
| Text.Key | src/text.rs:161-170 | every action except `Paused` and `Failed` has a one-letter key |
| Text.ActionOf | src/text.rs:161-170 | a command comes only from its own letter, or 'c' for Quit; `Paused` never comes from the console; anything else is `Failed` |
| Text.KeysSelectTheirAction | src/text.rs:161-170 | each letter selects its action |
| Text.TypedKeysSelectTheirAction | src/text.rs:155-171 | each letter typed and followed by Enter selects its action |
| Text.CancelLetterQuits | src/text.rs:166 | 'c' quits |
| Text.ActionIsCaseSensitive | src/text.rs:161-170 | capital letters are no commands |
| Text.ActionIgnoresSurroundingWhitespace | src/text.rs:161 | surrounding whitespace does not matter |
| Text.TypedCoordinateIsRead | src/text.rs:102-110 | a coordinate typed as `x,y` and Enter passes the assertion and is returned |
| Text.TwoCoordinatesAreRejected | src/text.rs:107-108 | two coordinates on the line fail the assertion |
| Text.NoCoordinateIsRejected | src/text.rs:107-108 | a line without digits fails the assertion |
| Text.GetUserCoordinate | src/text.rs:102-110 | an answer exists exactly when the line holds one `digits,digits` pair, and it is that pair |
| Text.InitializeBoard | src/text.rs:7-28 | "l" loads the named file's board; "-m" makes the typed cells Alive on a new 30×30 board; anything else gives a new 30×30 board |
| Text.ManualBoardCells | src/text.rs:21-25 | on a board started by hand a cell is Alive exactly when a typed coordinate wraps onto it |
| Text.PromptUserToChangeCells | src/text.rs:73-90 | "t" sets the typed cells and "r" the file's cells to the status; any other answer changes nothing |
| Graphics.CanStep | src/graphics.rs:15-17 | a step is due exactly when more than 200 ms have passed since the last one |
| Graphics.TryFromInvertsToGameAction | src/graphics.rs:27-39 | every window action is accepted back from the game action of the same name |
| Graphics.TryFromKeepsNames | src/graphics.rs:27-39 | an accepted action keeps its name; exactly PrintBoard, Quit, Save and Failed are refused |
| Graphics.TryFromGameAction | src/graphics.rs:27-39 | an accepted action converts back to the game action it came from; exactly PrintBoard, Quit, Save and Failed are refused |
| Graphics.GUIGameState.New | src/graphics.rs:46-55 | a new dead game of the given size, nothing pending, the timer started now |
| Graphics.GUIGameState.FromGame | src/graphics.rs:56-65 | the given game, nothing pending, the timer started now |
| Graphics.GUIGameState.Tick | src/graphics.rs:66-69 | one generation, and the timer restarted now; the pending action is kept |
| Graphics.GUIGameState.LoadNewBoard | src/graphics.rs:70-72 | the game is replaced; the pending action and the timer stay |
| Graphics.GUIGameState.ConsumeCurrentEvent | src/graphics.rs:73-95 | the state afterwards is the one `AfterEvent` describes |
| Graphics.ConsumeSettlesAction | src/graphics.rs:73-95 | a pause stays pending; every other action, Play included, is used up |
| Graphics.NothingPendingChangesNothing | src/graphics.rs:74-79 | with nothing pending, or a pause, nothing changes |
| Graphics.ConsumeIsIdempotent | src/graphics.rs:73-95 | consuming a second time, at any later time, changes nothing more |
| Graphics.StepAdvancesOneGeneration | src/graphics.rs:66-78 | Step advances exactly one generation and restarts the timer |
| Graphics.PlayWaitsForDelay | src/graphics.rs:80-84 | Play advances one generation and restarts the timer only after more than 200 ms; before that the board and the timer stay |
| Graphics.ConsumeKeepsBounds | src/graphics.rs:73-95 | consuming keeps the game's bounds, and a board that can be stepped stays one |
| Graphics.GrowMakesListedCellsAlive | src/graphics.rs:85-88 | after a grow action a cell is Alive exactly when it is listed or was Alive; the timer stays |
| Graphics.KillMakesListedCellsDead | src/graphics.rs:89-92 | after a kill action a cell is Alive exactly when it is not listed and was Alive; the timer stays |
| Graphics.DebouncedKeepsQueue | src/graphics.rs:113-124 | after `add_event` the event is at the back and the queue before it is unchanged; it grows exactly when the queue was empty or its back differs |
| Graphics.DebouncedKeepsNoAdjacentDuplicates | src/graphics.rs:113-124 | `add_event` keeps neighbouring events distinct |
| Graphics.NonAdjacentDuplicatesAreKept | src/graphics.rs:113-124 | an event comes back once another was queued after it; a repeat of the back is dropped |
| Graphics.ProgramManager.constructor | src/graphics.rs:108-112 | the queue starts empty |
| Graphics.ProgramManager.AddEvent | src/graphics.rs:113-124 | the queue becomes the debounced queue and the result is always `Ok`, the `Err` branch being unreachable; neighbouring events stay distinct |
| Graphics.ProgramManager.AddEventIgnore | src/graphics.rs:125-127 | the queue becomes the debounced queue |
| Graphics.ProgramManager.Pop | src/graphics.rs:128-130 | the front event is removed and returned, `None` for an empty queue; neighbouring events stay distinct |
| Graphics.IndexToPixel | src/graphics.rs:141-146 | the column lies inside the screen width |
| Graphics.PixelRebuildsIndex | src/graphics.rs:141-146 | row and column rebuild the index truncated to `u32` |
| Graphics.PixelOfIndex | src/graphics.rs:141-146 | every pixel of the frame is found at its row-major index |
| Graphics.IndexToCellPeriod | src/graphics.rs:148-165 | `index_to_cell` answers `None` exactly on the padding of either axis; otherwise the pixel lies past the padding inside the period of `cell + padding` pixels that the returned cell names |
| Graphics.CellInBoard | src/graphics.rs:148-165 | with the screen sized `bound * (cell + padding) + padding` on each axis, every pixel of the frame that maps to a cell maps to one on the board |
| Graphics.CellPixelsMapBack | src/graphics.rs:148-165 | every pixel of cell (cx, cy) past the padding maps back to (cx, cy) |
| Graphics.GuiScreen | src/graphics.rs:176-185 | the window's layout is a valid grid sized `bound * (cell + padding) + padding` on each axis, as `CellInBoard` needs |
| Graphics.GuiCellsOnBoard | src/graphics.rs:176-185 | in the window's 8-pixel cells with 2 pixels of padding, every pixel that maps to a cell maps to one on the board |

## Left out

- Game.Get, Game.GameBoard.Set, Game.GameBoard.SetCells, Game.Equals, GameEngine.NumAliveNeighbors, GameEngine.UpdateBoard, GameEngine.RunIterations, Text.PromptUserToChangeCells, Graphics.GUIGameState.Tick and Graphics.GUIGameState.ConsumeCurrentEvent: the source panics on a board with a zero bound (`% 0`) or a row shorter than `x_max` (an index out of range), and the model excludes those boards by its preconditions (`Indexable`, `Comparable`). Such a board is reachable: loading the text "☑☑\n☑" gives `x_max` 2 with a one-cell second row, on which `get(1, 1)`, `update_board` and `eq` panic.

- Console and file I/O (`read_line`, `read_to_string`, `write`, `OpenOptions`), printing and error logging: a file is its text or `None`, a console line is a parameter, and written text is returned.
- `game::Game`, `GameBoardOld`, `game::Board`, `CellState`/`game::Status` and their `step`, `set_many`, `rows`, `clone_from_old` and `replace_buffer` are not part of this model. `SaveLoad.LoadGame` returns the arguments of `Game::new` and the buffer handed to `replace_buffer` as a `GameLoad` record. What `replace_buffer` does with a buffer of the wrong length (its `unwrap`) is unknown.
- SaveLoad.SaveGame: the `unwrap` on opening the file is not modelled; only the write can fail. The file is opened without truncation (`OpenOptions` with `write` and `create` only), so an existing longer file keeps its tail after the written text. The model returns the written text, not the file's content afterwards: saving a 2×2 board over a 30×30 save leaves stale lines and glyphs that `load_game` then reads. Writing into a `String` never fails, so `StringWrite` is never produced.
- `text::parse_to_coordinates` (used by `read_coords_from_file`), `save_load::file_to_coordinates` (used by `prompt_user_to_change_cells`) and `text::get_coordinates` (used by the window's grow and kill actions) are not part of this model. The first is taken to be `parse_string_to_coordinates`; the other two are parameters.
- Coordinates.ParseStringToCoordinates: digits are ASCII digits and numbers are unbounded. The regex's `\d` also matches other Unicode decimal digits, and `parse().unwrap()` panics on those and on numbers of 2^64 or more.
- Text.InitializeBoard and Text.PromptUserToChangeCells: the second console line (the file name) is replaced by the file's content or coordinates.
- `run_command_line`, `prompt_user_to_save_board`, `display_next_iteration`, the menus and `main`: interactive loops with sleeps, process exit and cursor rewriting that only dispatch to modelled operations.
- `Display`/`Debug` for boards and cells, and the unused `reset_max_bounds`: display only.
- The window itself: `gui`, `gui_init`, `run_gui`, the key mapping, `initial_gui_draw` and `draw_board` are foreign library calls and callbacks.
- Graphics.GUIGameState.ConsumeCurrentEvent: `can_step` and `tick` read the clock separately in the source. Here both use one reading, `now`.
- Graphics.GuiScreen: the screen size `x_max * 10 + 2` is computed on unbounded numbers; the `u32` overflow of very large boards is not modelled.
- Graphics.IndexToCellPeriod (about `IndexToCell`): the screen and cell sizes are not bounded by `u32`; only `cell + padding` is required to fit. `CellGrid` also excludes the `% 0` panic the source has for a zero screen width or a zero `cell + padding`.
