/** The record types shared by the server and the client (frontend/app/types.ts). */
module Types {
  import opened Wrappers

  /** A puzzle: two drawable parts and the compound keyword. */
  datatype Word = Word(parts: (string, string), keyword: string)

  /** The `type` tag of a guess: 'guess' | 'correct_part' | 'correct_keyword'. */
  datatype GuessType = PlainGuess | CorrectPart | CorrectKeyword

  datatype Guess = Guess(user: string, text: string, kind: GuessType)

  datatype Drawer = Drawer(id: string, word: string)

  datatype GameState = GameState(
    word: Option<Word>,
    drawer1: Drawer,
    drawer2: Drawer,
    guesses: seq<Guess>,
    score: int,
    partsGuessed: seq<string>)

  datatype PlayerRole = Drawer1 | Drawer2 | Guesser

  datatype Player = Player(id: string, name: string, role: PlayerRole)

  /** The string a guess type is written as on the wire. */
  function GuessTypeName(t: GuessType): string {
    match t
    case PlainGuess => "guess"
    case CorrectPart => "correct_part"
    case CorrectKeyword => "correct_keyword"
  }

}
