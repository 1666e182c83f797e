/**
  The command table of `src/cust_io.rs`, the second generation of the console
  front end. Everything else it holds is the same code as `src/user_io.rs`
  and is modelled once: the coordinate scanner in `Coordinates`, the number
  prompt in `Input`, the board text in `Format` and the wiki importer in
  `UserIo`.
*/
module CustIo {

  import opened Wrappers
  import opened Input

  datatype Action = Simulation | GrowCell | KillCell | PrintBoard | Cancel | Play | Save | Failed

  /** The letter the prompt offers for an action ('q' for Cancel, which also takes 'c'); `Failed` has none. */
  function Key(a: Action): (k: Option<string>)
    ensures k.Some? <==> a != Failed
    ensures k.Some? ==> |k.value| == 1
  {
    match a
    case Simulation => Some("s")
    case PrintBoard => Some("p")
    case GrowCell => Some("g")
    case KillCell => Some("k")
    case Cancel => Some("q")
    case Play => Some("l")
    case Save => Some("v")
    case Failed => None
  }

  /**
    The match of `get_user_choice` on the trimmed line: exact and
    case-sensitive. A choice comes only from its own letter (or 'c' for
    Cancel); every other text is `Failed`.
  */
  function ChoiceOf(t: string): (a: Action)
    ensures a != Failed ==> t == Key(a).value || (a == Cancel && t == "c")
  {
    if t == "s" then Simulation
    else if t == "p" then PrintBoard
    else if t == "g" then GrowCell
    else if t == "k" then KillCell
    else if t == "q" || t == "c" then Cancel
    else if t == "l" then Play
    else if t == "v" then Save
    else Failed
  }

  /** `get_user_choice` once the line is read. */
  function GetUserChoice(line: string): Action
  {
    ChoiceOf(Trim(line))
  }

  /** Each offered letter selects its choice. */
  lemma KeysSelectTheirChoice(a: Action)
    requires a != Failed
    ensures ChoiceOf(Key(a).value) == a
  {
  }

  /** Each offered letter, typed and followed by Enter, selects its choice. */
  lemma TypedKeysSelectTheirChoice(a: Action)
    requires a != Failed
    ensures GetUserChoice(Key(a).value + "\n") == a
  {
    TrimmedAnswer(Key(a).value);
    KeysSelectTheirChoice(a);
  }

  /** 'c' cancels as well as 'q'. */
  lemma CancelLetterCancels()
    ensures ChoiceOf("c") == Cancel
  {
  }

  /** Letter case matters: the capital letters are no choices. */
  lemma ChoiceIsCaseSensitive()
    ensures forall t :: t in ["S", "P", "G", "K", "Q", "C", "L", "V"] ==> ChoiceOf(t) == Failed
  {
  }

  /** Surrounding whitespace does not matter. */
  lemma ChoiceIgnoresSurroundingWhitespace(line: string)
    ensures GetUserChoice(Trim(line)) == GetUserChoice(line)
  {
    TrimIdempotent(line);
  }
}
