# gartic-2 relay and keyword display, in Dafny

A model of the core of a drawing-and-guessing game: two players each draw
half of a compound word (GUARDA-CHUVA is drawn as GUARDA and CHUVA) while a
third guesses it.

- **Server** (`server.dfy`): the WebSocket relay. It keeps a registry of rooms
  (`rooms`, a map from room id to the room's players and stored game state)
  and, per connection, the closure variables `currentRoomId` and
  `currentPlayerId`. `JOIN_ROOM` creates a room lazily, appends the connection
  to it and replies with the room's state to the sender alone. `DRAW`, `CLEAR`
  and `GAME_STATE_UPDATE` are relayed to every open player of the sender's
  room, and `GAME_STATE_UPDATE` also replaces the stored state. `close`
  removes the connection from its room and deletes a room left empty. Every
  other message type falls through the `switch` and does nothing. The class
  `RoomServer` holds the registry, the connections (an abstract id with an
  open flag and the two closure variables) and an outbox that logs every send.
  Its invariant `Valid` says that every room is non-empty, that every player
  is a known connection, and that an open connection is in the player list of
  the room it last joined. Every handler keeps that invariant.
- **GameInfo** (`game_info.dfy`): the client's game panel. It covers the
  keyword display (`generateKeywordDisplay`), the guard on submitting a
  guess (`handleSubmit`) and the style of each listed guess (`getGuessStyle`).
  The guesser sees each not-yet-guessed part masked: every non-white-space
  character of an occurrence of it becomes `_`, provided no earlier
  occurrence of the same part and no occurrence of the other unguessed part
  overlaps it. The result is spaced out one character at a time. Every
  character the guesser sees masked lies inside such an occurrence.
- **Data** (`data.dfy`): the word bank and the player roster. Their lemmas
  establish the facts that let the model treat the client's regular
  expression as literal matching.
- **JsBuiltins** (`js_builtins.dfy`): the JavaScript built-ins the core calls.
  These are `filter`, `trim`, `toUpperCase`, the class `\s` and
  `split("").join(" ")`.
- **Types** (`types.dfy`): the records of `frontend/app/types.ts`.
- **DisplayExamples** (`display_examples.dfy`): the display of GUARDA-CHUVA
  worked out for the guesser.

The server keeps JavaScript truthiness: a room id or player id that is the
empty string counts as absent. A connection whose current room id is `""`
has its strokes dropped. A connection that joined with an empty room id or
player id stays in its room's list after it closes. A connection that joins
a second room stays in the first room's list after it closes, because only
its current room is cleaned up. The model keeps all three as the code has
them.

The server does not evaluate guesses, start turns, pick puzzles or reject a
player id that is already in the room. The model does not add any of that.

A room in the source is an object that is reached only through the `rooms`
map, and each handler runs to completion before the next event. The model
therefore keeps rooms as values in the map, and a handler writes the updated
room back.

## Model

| member | source | states |
|---|---|---|
| `JsBuiltins.UpperChar` | frontend/app/components/GameInfo.tsx:38 | upper-casing a lower-case letter of Basic Latin or Latin-1 (`a`-`z`, `à`-`þ` except `÷`) moves it down by 0x20, any other character is unchanged, and upper-casing twice is upper-casing once |
| `JsBuiltins.Upper` | frontend/app/components/GameInfo.tsx:38 | `toUpperCase` keeps the length and upper-cases every character on its own |
| `JsBuiltins.Filter` | frontend/app/components/GameInfo.tsx:37-39 | `filter` returns no more elements than it scans |
| `JsBuiltins.FilterCount` | frontend/app/components/GameInfo.tsx:37-39 | `filter` keeps each accepted element exactly as often as it occurs and drops every other element |
| `JsBuiltins.FilterMembers` | frontend/server.ts:96 | an element is in the result of `filter` iff it is in the array and accepted |
| `JsBuiltins.FilterAppend` | frontend/server.ts:96 | `filter` keeps the order of the array: filtering a concatenation is the concatenation of the filtered halves |
| `JsBuiltins.FilterKeepsAll` | frontend/app/components/GameInfo.tsx:37-39 | a filter that accepts every element returns the array unchanged |
| `JsBuiltins.FilterKeepsNone` | frontend/app/components/GameInfo.tsx:37-39 | a filter that accepts no element returns the empty array |
| `JsBuiltins.Spaced` | frontend/app/components/GameInfo.tsx:46 | `split("").join(" ")` of a text of length n>0 has length 2n-1, holds character k at position 2k and a space at every odd position |
| `JsBuiltins.SpacedAppend` | frontend/app/components/GameInfo.tsx:44 | spacing out two non-empty texts in a row puts one space between the two spaced-out halves |
| `JsBuiltins.Trim` | frontend/app/components/GameInfo.tsx:27-28 | `trim` returns a slice of the text with only white space cut off either end; the slice neither starts nor ends with white space; it is empty iff the text is all white space |
| `JsBuiltins.LeadingWhitespace` | frontend/app/components/GameInfo.tsx:27 | counts the white space at the front: all of it is white space and the next character is not |
| `JsBuiltins.TrailingWhitespace` | frontend/app/components/GameInfo.tsx:27 | counts the white space at the back: all of it is white space and the character before it is not |
| `JsBuiltins.UpperCaseFixed` | frontend/app/components/data.ts:4-13 | a text whose every character is its own upper case is left unchanged by `toUpperCase` |
| `Data.WordListSize` | frontend/app/components/data.ts:3-14 | the word bank has exactly 10 entries |
| `Data.KeywordsJoinParts` | frontend/app/components/data.ts:4-13 | every keyword is its first part, a hyphen or a space, and its second part |
| `Data.KeywordsUpperCase` | frontend/app/components/data.ts:4-13 | every keyword is already upper case |
| `Data.PartsPlain` | frontend/app/components/data.ts:4-13 | every part is non-empty and made only of upper-case letters and spaces |
| `Data.WellFormedByParts` | frontend/app/components/data.ts:4-13 | a puzzle whose keyword joins its parts, is upper case, and whose parts are plain has upper-case parts without regular-expression metacharacters or `_` |
| `Data.WordListWellFormed` | frontend/app/components/data.ts:3-14 | every entry of the bank is well formed: upper-casing is the identity on parts and keyword, and a part used as a regular expression matches only literally |
| `Data.MockedPlayersConsistent` | frontend/app/components/data.ts:16-20 | the roster has the keys player1 to player3, each key is its player's id, the roles are pairwise distinct, and player3 is the one guesser |
| `GameInfo.SameIgnoringCaseAt` | frontend/app/components/GameInfo.tsx:41 | under the `i` flag two texts match iff they have the same length and the same upper case at every position |
| `GameInfo.MaskChar` | frontend/app/components/GameInfo.tsx:42 | `/\S/g` replaces a character by `_` iff it is not white space |
| `GameInfo.Mask` | frontend/app/components/GameInfo.tsx:42 | `match.replace(/\S/g, "_")` keeps the length and turns each non-white-space character of the match into `_`, keeping white space |
| `GameInfo.ReplaceAll` | frontend/app/components/GameInfo.tsx:40-42 | masking one part keeps the length of the display |
| `GameInfo.ReplaceAllOnlyMasks` | frontend/app/components/GameInfo.tsx:40-42 | masking one part changes a character only into `_`, and only when it is not white space |
| `GameInfo.ReplaceAllChangesOnlyOccurrences` | frontend/app/components/GameInfo.tsx:40-42 | a character that masking one part changes lies inside a case-insensitive occurrence of that part |
| `GameInfo.ReplaceAllSkips` | frontend/app/components/GameInfo.tsx:40-42 | nothing before the first occurrence of the part changes |
| `GameInfo.ReplaceAllMasksOccurrence` | frontend/app/components/GameInfo.tsx:40-42 | an occurrence that no earlier occurrence overlaps is masked completely, white space kept |
| `GameInfo.MaskAll` | frontend/app/components/GameInfo.tsx:40-43 | masking the unguessed parts in turn keeps the length and changes only non-white-space characters, only into `_` |
| `GameInfo.OccurrenceSurvivesMasking` | frontend/app/components/GameInfo.tsx:40-43 | for a part without `_`, an occurrence in the partly masked display is an occurrence in the keyword too |
| `GameInfo.MaskAllChangesOnlyOccurrences` | frontend/app/components/GameInfo.tsx:40-43 | for parts without `_`, a character changed by the whole masking lies inside an occurrence of one of the parts in the original keyword |
| `GameInfo.MaskingElsewhereKeepsOccurrence` | frontend/app/components/GameInfo.tsx:40-42 | masking a part none of whose occurrences overlaps an occurrence of another part leaves that occurrence unchanged |
| `GameInfo.MaskAllMasksOccurrence` | frontend/app/components/GameInfo.tsx:40-43 | for parts without `_`, the whole masking turns every non-white-space character of an occurrence of a part into `_`, when no earlier occurrence of the same part and no occurrence of a part masked before it overlaps it |
| `GameInfo.Unguessed` | frontend/app/components/GameInfo.tsx:37-39 | a part is masked iff its upper-case form is not in `partsGuessed` |
| `GameInfo.GenerateKeywordDisplay` | frontend/app/components/GameInfo.tsx:33-47 | the display computed with the `forEach` loop equals the specified display: loading text without a word, masked and spaced keyword for the guesser, spaced keyword for everyone else |
| `GameInfo.DisplayWhileLoading` | frontend/app/components/GameInfo.tsx:34 | without a word the display is "Carregando..." whatever the role |
| `GameInfo.DisplayForDrawers` | frontend/app/components/GameInfo.tsx:46 | a non-guesser sees a display of length 2n-1 for a keyword of length n>0, with keyword character k at position 2k and spaces between |
| `GameInfo.DisplayForGuesser` | frontend/app/components/GameInfo.tsx:35-44 | the guesser's display has the same length and spacing, and each position shows the keyword character or `_` in place of a non-white-space character |
| `GameInfo.GuesserSeesOutsideUnguessedParts` | frontend/app/components/GameInfo.tsx:37-44 | for the guesser, a character shown other than as in the keyword lies inside an occurrence of a part whose upper case is not in `partsGuessed` |
| `GameInfo.GuesserSeesUnguessedPartsMasked` | frontend/app/components/GameInfo.tsx:37-44 | the guesser sees `_` at position 2k for every non-white-space character k of an occurrence of a part whose upper case is not in `partsGuessed`, when no earlier occurrence of it and no occurrence of the other unguessed part overlaps it |
| `GameInfo.AllPartsGuessedShowsKeyword` | frontend/app/components/GameInfo.tsx:35-46 | once both parts are guessed, the guesser's display equals the drawers' display |
| `GameInfo.SubmittedGuess` | frontend/app/components/GameInfo.tsx:27-28 | a guess is passed on iff the text is not all white space and the player is the guesser, and what is passed on is the trimmed text: the slice left after cutting all white space off either end, non-empty and not starting or ending with white space |
| `GameInfo.GuessForm.constructor` | frontend/app/components/GameInfo.tsx:22 | the input starts empty and nothing has been handed to `onGuess` |
| `GameInfo.GuessForm.Change` | frontend/app/components/GameInfo.tsx:73 | typing replaces the input and hands nothing on |
| `GameInfo.GuessForm.HandleSubmit` | frontend/app/components/GameInfo.tsx:25-31 | when the text is not blank and the player is the guesser, the trimmed text is appended to the guesses handed to `onGuess` and the input is cleared; otherwise nothing changes |
| `GameInfo.GetGuessStyle` | frontend/app/components/GameInfo.tsx:49-58 | `correct_part` and `correct_keyword` get their own styles, every other value the normal one |
| `GameInfo.GuessStylesDistinct` | frontend/app/components/GameInfo.tsx:49-58 | two guess types get the same style iff they are the same type |
| `DisplayExamples.NothingGuessedDisplay` | frontend/app/components/GameInfo.tsx:35-44 | with nothing guessed the guesser sees GUARDA-CHUVA as `_ _ _ _ _ _ - _ _ _ _ _`: the hyphen survives |
| `DisplayExamples.ChuvaGuessedDisplay` | frontend/app/components/GameInfo.tsx:35-44 | with CHUVA guessed the guesser sees `_ _ _ _ _ _ - C H U V A` |
| `DisplayExamples.ExampleFromTables` | frontend/app/components/data.ts:4 | the worked example is the first puzzle of the bank, and player3 is the guesser |
| `Server.BroadcastStep` | frontend/server.ts:22-26 | scanning one more player of the list adds a send to that player iff it is open |
| `Server.SendAllCounts` | frontend/server.ts:22-26 | sending to each target in turn reaches each connection as often as it is a target |
| `Server.BroadcastReachesOpenPlayers` | frontend/server.ts:18-28 | a broadcast sends the message unchanged, only to open players of the room, to each as often as it occurs in the list; a missing room gets nothing |
| `Server.WithoutRemovesEveryOccurrence` | frontend/server.ts:96 | leaving removes every occurrence of the connection and keeps every other player with its multiplicity and order; the list empties iff it held only that connection |
| `Server.RoomServer.constructor` | frontend/server.ts:12 | the server starts with no rooms, no connections and nothing sent |
| `Server.RoomServer.Connect` | frontend/server.ts:31-35 | a new connection is open with null room and player ids, and nothing else changes |
| `Server.RoomServer.BroadcastToRoom` | frontend/server.ts:18-28 | appends to the outbox exactly the sends of the broadcast to the room |
| `Server.RoomServer.SendToOpen` | frontend/server.ts:22-26 | the `forEach` appends one send to each open player of the list, in list order |
| `Server.RoomServer.HandleMessage` | frontend/server.ts:37-89 | JOIN_ROOM joins, DRAW, CLEAR and GAME_STATE_UPDATE are relayed, any other type changes nothing and sends nothing; the invariant holds afterwards |
| `Server.RoomServer.Join` | frontend/server.ts:41-73 | the connection records the payload's room and player ids; a missing room is created with word null, drawers player1 and player2 with empty words, no guesses, score 0 and no parts guessed; the connection is appended to the players with no duplicate check; the sender alone gets one GAME_STATE_UPDATE with the room's current state |
| `Server.RoomServer.Relay` | frontend/server.ts:76-87 | nothing happens for a connection with no truthy room id; otherwise GAME_STATE_UPDATE replaces the stored state, DRAW and CLEAR leave it alone, and the message goes unchanged to every open player of the room, sender included; the room lookup never misses |
| `Server.RoomServer.Close` | frontend/server.ts:91-106 | the connection is no longer open; only with a truthy room id and player id, every occurrence of it leaves its room, the room is deleted iff its list becomes empty, and other rooms are untouched; nothing is sent |
| `Server.DuplicateJoinScenario` | frontend/server.ts:62-71 | the same connection joining twice is in the list twice and receives two replies |
| `Server.DrawBeforeJoinScenario` | frontend/server.ts:79 | a stroke from a connection that has not joined a room sends nothing and creates no room |
| `Server.RejoinScenario` | frontend/server.ts:46-59 | the stored state is what GAME_STATE_UPDATE carried; the last player closing deletes the room; joining the same id again starts from the initial state |

## Left out

- The WebSocket transport and JSON framing: `JSON.parse` throwing on a malformed frame, `JSON.stringify` and `ws.send` are an outbox of typed messages. A payload with a missing or non-string field is not modelled; payloads are well-typed.
- `readyState`: the open flag is true until the `close` event. The CLOSING state, in which a socket is not open but its `close` handler has not run, is not modelled.
- `console.log` calls.
- The WebSocket server's port and start-up (`new WebSocketServer`).
- `ReplaceAll`: a part is matched literally. The source builds a regular expression from the part, so a part with metacharacters would be matched as a pattern. `Data.WordListWellFormed` shows that no part of the bank has any.
- `UpperChar`: upper-casing covers only Basic Latin and Latin-1 letters. Other characters, including `ß`, `ÿ` and `µ` (whose upper case in JavaScript is `SS`, U+0178 and U+039C), count as their own upper case. All text of the bank is in that range.
- Strings are sequences of Unicode scalar values, not of UTF-16 code units; `split("")` differs only on characters outside the Basic Multilingual Plane, and the bank has none.
- The JSX of the panel, the `useRef` for scrolling, and the React re-rendering.
- The client component GameClient.tsx, the canvas, drawing area, toolbar, socket context and page. They are rendering, pointer input and connection set-up, not part of this model.
- Guess evaluation, turn advancement, random puzzle selection, the 3000 ms timer and rejection of a duplicate player: frontend/server.ts does not implement them.
