# Wordle game engine in Dafny

This project models the game engine of a single-screen Wordle clone. The
screen keeps four pieces of state:

- `rows`: a grid of R rows by L cells, where R is `NUMBER_OF_TRIES` and L is the length of the day's word;
- the cursor `currentRow` / `currentCol`;
- `gameState`, which is `"playing"`, `"won"` or `"lost"`.

The state changes one key press at a time:

- a letter key fills the cell under the cursor;
- CLEAR empties the cell before it;
- ENTER submits a full row;
- after a submission, an effect on `currentRow` judges whether the game is won or lost.

From the state the screen derives the colour of each cell, the letters the
on-screen keyboard colours green, yellow and grey, and the emoji grid it
offers for sharing.

Modules, one per concern:

- `Board` (board.dfy): the state as a value (`State`), the outcome and colour datatypes, the shape predicates and the initial state.
- `Puzzle` (puzzle.dfy): picking the word of the day from the word list and splitting it into letters.
- `Feedback` (feedback.dfy): cell colours, the keyboard letter lists and the share text. These are pure functions of the state.
- `Engine` (engine.dfy): one key press as a function of the state (`OnKeyPressed`), the outcome checks, a whole key press with its effect (`Turn`), the invariants these keep, and the loss check as the source writes it and as it is evidently meant.
- `App` (app.dfy): the screen as a class `Game` whose fields the key handler updates in place. Its methods are proved equal to the `Engine` functions.

Constants the screen imports from modules that are not part of this model
are parameters:

- `NUMBER_OF_TRIES`;
- the `ENTER` and `CLEAR` sentinels (`Engine.Keys`);
- the colours, as the datatype `Board.Color` of four distinct values;
- `colorsToEmoji`, as a `map<Color, string>`;
- the word list.

A colour missing from `colorsToEmoji` reads `undefined`, and `join` renders
that as "". So when black has no emoji, the rows not yet submitted give empty
lines, and the share text drops them.

The loss check `checkIfLost` negates the function `checkIfWon` instead of
calling it, so the game never becomes lost (see Findings). The word-list entry
is used as it is; nothing lower-cases it.

## Model

| member | source | states |
|---|---|---|
| Board.Initial | App.js:39-44 | the start state has `NUMBER_OF_TRIES` rows of L empty cells, the cursor at (0, 0) and the game playing |
| Puzzle.Split | App.js:38 | `split("")` gives one single-character string per character of the word, in order |
| Puzzle.Concat | App.js:72 | `join("")`: joining one-character strings gives a string with one character per part; it undoes `split("")` (`Puzzle.ConcatSplit`) and builds each emoji line (`Feedback.RowEmojiIsConcat`) |
| Puzzle.ConcatSplit | App.js:38 | joining the split letters gives the word back |
| Puzzle.LettersOfTheDay | App.js:34-38 | the letters exist exactly when the day indexes the word list (otherwise the split of `undefined` throws), and they are that day's word split into one-character strings, in order, which join back to the word |
| Feedback.CellColor | App.js:125-139 | black exactly for rows at or below the cursor row; primary exactly when the letter equals the puzzle letter in its column; secondary exactly when it does not but occurs in the puzzle; dark grey exactly when it does not occur in the puzzle |
| Feedback.RepeatedLetterNotDemoted | App.js:132-137 | the colouring is not duplicate-aware: with puzzle "rust", both t's of "ttxx" are secondary |
| Feedback.RowLettersWithColorMembers | App.js:143 | a letter is kept by the filter of row i exactly when some cell of that row holds it with colour c |
| Feedback.LettersWithColorUpToMembers | App.js:142-144 | a letter is listed by `flatMap` over the first m rows exactly when some cell of those rows holds it with colour c |
| Feedback.LettersWithColorMembers | App.js:141-144 | characterises `Feedback.LettersWithColor`, the model of `getAllLettersWithColor`: a letter is in the list for colour c exactly when some cell holding it has colour c; for the feedback colours that cell is in a submitted row |
| Feedback.ColorCounts | App.js:141-148 | every cell is listed under exactly one colour: the green, yellow and grey lists together hold `currentRow * L` letters, and the black list holds the remaining rows' cells |
| Feedback.RowColorCounts | App.js:143 | in a submitted row the three feedback colours together keep every cell and black keeps none; in a later row black keeps every cell and the feedback colours none |
| Feedback.ColorCountsUpTo | App.js:142-144 | over the first m rows the feedback colours list one letter per cell of the submitted rows among them, and black one per cell of the others |
| Feedback.Emoji | App.js:72 | a colour in `colorsToEmoji` gives its glyph; a colour with no entry reads `undefined`, which `join("")` renders as the empty string |
| Feedback.RowEmoji | App.js:71-73 | the emoji line of a row not yet submitted is empty when black has no emoji |
| Feedback.RowEmojiIsConcat | App.js:72 | a row's emoji line is the glyphs of its cells' colours, in column order, joined with `join("")` |
| Feedback.EmojiLines | App.js:70-74 | the `filter` keeps at most one line per row and drops every empty line |
| Feedback.EmojiLinesMembers | App.js:70-74 | for any emoji table, a line is kept exactly when it is non-empty and is the emoji line of one of the rows |
| Feedback.Join | App.js:75 | `join("\n")` puts the first line at the start of the text |
| Feedback.JoinIsConcat | App.js:75 | `join(sep)` is the concatenation of the lines with `sep` in front of every line but the first |
| Feedback.ShareText | App.js:69-77 | the share text starts with the title line `"Wordle \n"` |
| Feedback.ShareLinesAreSubmittedRows | App.js:70-77 | with no emoji for black and a non-empty emoji for each feedback colour, the share text is the title followed by one emoji line per submitted row, in order, joined by newlines |
| Feedback.MatchingRowIsAllPrimary | App.js:72 | a submitted row that spells the puzzle shares as a line of primary emoji only |
| Engine.CopyArray | App.js:22-24 | the copy has the same rows as the grid it copies |
| Engine.OnKeyPressed | App.js:92-119 | a key press throws only while playing with the row cursor past the grid; otherwise it keeps the grid's dimensions and the outcome, and moves the row cursor by at most one, only for ENTER and without touching the grid (the per-key effects are `Engine.ClearEffect`, `Engine.EnterEffect`, `Engine.LetterEffect`) |
| Engine.CheckIfWon | App.js:83-86 | won exactly when the last submitted row agrees with the puzzle in every one of its columns, that is, the row is a prefix of the puzzle |
| Engine.CheckIfLost | App.js:88-90 | as written, the loss check is false for every state |
| Engine.CheckGameStatus | App.js:52-67 | a winning row sets the outcome to won; otherwise the outcome is unchanged, because the loss check as written never fires |
| Engine.Turn | App.js:46-119 | a key press with the effect it triggers keeps the grid's dimensions and moves the row cursor by at most one; the outcome changes only when ENTER submits a row while playing (its invariant is `Engine.TurnPreservesValid`) |
| Engine.InitialIsValid | App.js:39-50 | the start state satisfies the engine invariant and the filled-before-cursor shape |
| Engine.InputIgnoredAfterGameOver | App.js:93 | once the game is not playing, every key leaves grid, cursor and outcome unchanged |
| Engine.ClearEffect | App.js:96-104 | CLEAR at column 0 is a no-op, also with the row cursor past the grid; otherwise it empties the cell before the cursor and moves the cursor back, with every other cell, the row and the outcome unchanged |
| Engine.EnterEffect | App.js:106-112 | ENTER never changes the grid; it advances the row and resets the column exactly when the row is full, and otherwise changes nothing |
| Engine.LetterEffect | App.js:114-118 | a letter with room left writes the cell under the cursor and advances the column, with every other cell unchanged; on a full row it is a no-op; it throws exactly when there is room but no row under the cursor |
| Engine.ClearUndoesLetter | App.js:96-118 | typing a letter and then pressing CLEAR gives back the state typed into |
| Engine.TurnPreservesValid | App.js:46-119 | from a valid state, a key press throws exactly for a letter typed while playing with every row used, and otherwise leads to a valid state: grid width L, cursor in range, never lost, won exactly when the last submitted row spells the puzzle |
| Engine.TurnPreservesFilled | App.js:92-119 | for keys that type something, submitted rows stay full, the current row is filled exactly before the cursor and later rows stay empty |
| Engine.CorrectGuessWins | App.js:46-59 | submitting the puzzle wins, on the last attempt as on any other |
| Engine.WrongGuessKeepsPlaying | App.js:52-67 | submitting a wrong row moves the cursor to the next row and leaves the game playing |
| Engine.WrongLastGuessNotLost | App.js:88-90 | as written, a wrong guess in the last row leaves the game playing with every row used, although the intended loss condition holds |
| Engine.LetterAfterLastWrongGuessThrows | App.js:114-118 | as written, after the last row is used without winning, the next letter key throws |
| Engine.OneTryGameThrows | App.js:106-118 | with one try and the puzzle "a", the keys "b", ENTER, "c" reach that throw from the start state |
| Engine.CheckIfLostCorrected | App.js:88-90 | the intended loss check: the last submitted row is wrong and no row is left |
| Engine.CheckGameStatusCorrected | App.js:52-67 | with the intended loss check: a winning row wins; a wrong last row loses; any other row leaves the outcome unchanged |
| Engine.TurnCorrected | App.js:46-119 | with the intended loss check, a key press with its effect keeps the grid's dimensions, and the outcome changes only when ENTER submits a row while playing (its invariant is `Engine.TurnCorrectedPreservesValid`) |
| Engine.InitialIsValidCorrected | App.js:39-44 | the start state satisfies the intended invariant |
| Engine.TurnCorrectedPreservesValid | App.js:46-119 | with the intended loss check no key press throws, and the invariant is kept: won exactly when the last row spells the puzzle, lost exactly when every row is used and the last is wrong |
| Engine.LastGuessDecides | App.js:52-67 | with the intended loss check, submitting the last row wins if it spells the puzzle and loses otherwise |
| App.Game.constructor | App.js:39-44 | the fields start as the initial state, which is valid and empty |
| App.Game.OnKeyPressed | App.js:92-119 | the fields after the handler are the state `Engine.OnKeyPressed` gives; a throw leaves them unchanged |
| App.Game.CheckGameStatus | App.js:52-67 | the outcome field becomes `Engine.CheckGameStatus` of the state |
| App.Game.Press | App.js:46-119 | handler plus effect equal `Engine.Turn`; from a valid state they throw exactly for a letter typed with every row used, and otherwise keep the state valid |

## Left out

- `getDayOfTheYear` (App.js:26-33) reads the wall clock. `Puzzle.LettersOfTheDay` takes the day number as a parameter.
- Rendering is not modelled: the layout, `StyleSheet`, the border colour from `isCellActive`, `toUpperCase` on display and `StatusBar`. They only present the state.
- `Alert.alert`, `Clipboard.setString` and `console.log` are I/O. The model keeps the text `shareScore` builds (`Feedback.ShareText`) and the outcome change, not the dialogs or the clipboard write.
- The keyboard component, the constants module and the word list are not part of this model. The keyboard's keys and the constants are parameters.
- React schedules state updates and effects asynchronously. The model takes each key press, with the effect it triggers, as one atomic step (`Engine.Turn`, `App.Game.Press`).
- The initial grid fills every row with the same array object, so all rows alias. The model's grid is a value, so it has no aliasing. In the source the aliasing is harmless, because every write goes to the deep copy that `copyArray` makes.
- If the effect ever read a row past the grid it would throw after the state was stored. `Engine.Turn` reports that as `Throws`. `Engine.TurnPreservesValid` shows it cannot happen from a valid state.
- The model assumes at least one try (`Board.Rectangular` asks for a row). With `NUMBER_OF_TRIES` at 0 the grid has no rows, and the source throws when ENTER or a letter reads `rows[0].length` (App.js:107, 114).
- Characters are Dafny `char`s. JavaScript strings are UTF-16 code units, and the model does not reproduce surrogate pairs.
- Engine.TurnPreservesFilled: holds only for keys that are not the empty string. The keyboard sends letters, and an empty key would fill a cell with "".
- Feedback.LettersWithColorMembers: states which letters are listed, and `Feedback.ColorCounts` states how many. The row-major order is the definition itself (`Feedback.LettersWithColorUpTo`) and has no separate lemma.
- Feedback.EmojiLines: for an arbitrary emoji table, `Feedback.EmojiLinesMembers` states which lines are kept, not their order or repeats. The row order is stated by `Feedback.ShareLinesAreSubmittedRows`, which applies only to a table with no glyph for black and a glyph for each feedback colour. Otherwise the order is the definition.
- Feedback.RowLettersWithColorMembers: states which letters one row's filter keeps, not their order or how often each repeats; `Feedback.RowColorCounts` gives the counts per row, and the order is the definition (`Feedback.RowLettersWithColor`).
- Feedback.LettersWithColorUpToMembers: states which letters the first m rows list, not their order or how often each repeats; `Feedback.ColorCountsUpTo` gives the counts, and the order is the definition.

## Findings

| source | as written | input that shows it | evidently intended | confidence | as-written member | corrected member |
|---|---|---|---|---|---|---|
| App.js:88-90 | `!checkIfWon && currentRow === rows.length` negates the function value, which is truthy, so the loss check is always false | R wrong guesses: after the R-th, every row is used and the game is still playing | `!checkIfWon() && currentRow === rows.length`: the game is lost on the R-th wrong guess | high; not executed | Engine.WrongLastGuessNotLost | Engine.LastGuessDecides |
| App.js:114-118 | a letter key writes `newRows[currentRow][currentCol]` without checking that the row exists | after R wrong guesses (`currentRow == R`, still playing), typing any letter throws a TypeError | the game is over by then, so no key is processed and nothing throws | high; not executed | Engine.LetterAfterLastWrongGuessThrows | Engine.TurnCorrectedPreservesValid |

The engine and the `Game` class keep both defects as written, because they
model the program. The corrected loss check (`Engine.CheckIfLostCorrected`,
`Engine.CheckGameStatusCorrected`, `Engine.TurnCorrected`) is defined beside
them, and its intended properties are proved there.
