/**
 The game's transitions: what one key press does to the state
 (`onKeyPressed`), how the outcome is judged after a row is submitted
 (`checkGameStatus`, run by the effect that watches `currentRow`), and the
 invariants these keep.
 */
module Engine {
  import opened Board

  /** The sentinel strings the keyboard sends for its ENTER and CLEAR keys. */
  datatype Keys = Keys(enter: string, clear: string)

  /** What a key press leads to: the next state, or the TypeError the screen
      raises when it indexes a row that does not exist. */
  datatype Step = Next(state: State) | Throws

  /** `copyArray`: a copy of the grid, row by row. On values the copy equals
      the grid it was taken from. */
  function CopyArray(rows: seq<seq<string>>): (copy: seq<seq<string>>)
    ensures |copy| == |rows|
    ensures forall i | 0 <= i < |rows| :: copy[i] == rows[i]
  {
    seq(|rows|, i requires 0 <= i < |rows| => rows[i][..])
  }

  /** `t` has the grid dimensions of `s` and its row cursor is the same or
      one further. */
  predicate KeepsDimensions(s: State, t: State)
  {
    && |t.rows| == |s.rows|
    && (forall i | 0 <= i < |s.rows| :: |t.rows[i]| == |s.rows[i]|)
    && s.currentRow <= t.currentRow <= s.currentRow + 1
  }

  /** `onKeyPressed(key)`: the state after one key press, before the effect
      that reacts to a new `currentRow` runs. */
  function OnKeyPressed(s: State, keys: Keys, key: string): (r: Step)
    requires Rectangular(s)
    ensures r == Throws ==> s.gameState == Playing && s.currentRow >= |s.rows|
    ensures r.Next? ==> KeepsDimensions(s, r.state) && r.state.gameState == s.gameState
    ensures r.Next? && r.state.currentRow != s.currentRow ==> key == keys.enter && r.state.rows == s.rows
  {
    if s.gameState != Playing then Next(s)
    else
      var newRows := CopyArray(s.rows);
      var width := |s.rows[0]|;
      if key == keys.clear then
        if s.currentCol > 0 then
          var prevCol := s.currentCol - 1;
          if s.currentRow < |newRows| then
            Next(s.(rows := newRows[s.currentRow := newRows[s.currentRow][prevCol := ""]], currentCol := prevCol))
          else Throws
        else Next(s)
      else if key == keys.enter then
        if s.currentCol == width then Next(s.(currentRow := s.currentRow + 1, currentCol := 0))
        else Next(s)
      else if s.currentCol < width then
        if s.currentRow < |newRows| then
          Next(s.(rows := newRows[s.currentRow := newRows[s.currentRow][s.currentCol := key]], currentCol := s.currentCol + 1))
        else Throws
      else Next(s)
  }

  /** `checkIfWon`: every cell of the last submitted row equals the puzzle
      letter in its column, that is, the row is a prefix of the puzzle (the
      puzzle itself when the row is as wide as the puzzle). */
  function CheckIfWon(s: State, letters: seq<string>): (won: bool)
    requires 0 < s.currentRow <= |s.rows|
    ensures won <==> s.rows[s.currentRow - 1] <= letters
  {
    var row := s.rows[s.currentRow - 1];
    PrefixByColumns(row, letters);
    forall i | 0 <= i < |row| :: i < |letters| && row[i] == letters[i]
  }

  lemma PrefixByColumns(row: seq<string>, letters: seq<string>)
    ensures (forall i | 0 <= i < |row| :: i < |letters| && row[i] == letters[i]) <==> row <= letters
  {
    if forall i | 0 <= i < |row| :: i < |letters| && row[i] == letters[i] {
      if |row| > 0 {
        var last := |row| - 1;
        var cell := row[last];
        assert last < |letters| && cell == letters[last];
      }
      assert row == letters[..|row|];
    }
  }

  /** `checkIfLost` as written: it negates the function `checkIfWon` instead
      of calling it. A function value is truthy, so the conjunction is false
      for every state. */
  function CheckIfLost(s: State): (lost: bool)
    ensures !lost
  {
    var checkIfWonIsTruthy := true;
    !checkIfWonIsTruthy && s.currentRow == |s.rows|
  }

  /** `checkGameStatus`: the won check comes first; the lost check as written
      never fires, so the outcome only ever moves to `Won`. */
  function CheckGameStatus(s: State, letters: seq<string>): (g: GameState)
    requires 0 < s.currentRow <= |s.rows|
    ensures CheckIfWon(s, letters) ==> g == Won
    ensures !CheckIfWon(s, letters) ==> g == s.gameState
  {
    if CheckIfWon(s, letters) && s.gameState != Won then Won
    else if CheckIfLost(s) && s.gameState != Lost then Lost
    else s.gameState
  }

  /** One key press as the screen handles it: `onKeyPressed`, then, when it
      moved `currentRow` to a positive value, the effect's `checkGameStatus`.
      Reading a row past the grid there would throw. */
  function Turn(s: State, letters: seq<string>, keys: Keys, key: string): (r: Step)
    requires Rectangular(s)
    ensures r.Next? ==> KeepsDimensions(s, r.state)
    ensures r.Next? && r.state.gameState != s.gameState ==>
              && key == keys.enter && r.state.currentRow == s.currentRow + 1
              && r.state.rows == s.rows && s.gameState == Playing
  {
    match OnKeyPressed(s, keys, key)
    case Throws => Throws
    case Next(t) =>
      if t.currentRow != s.currentRow && t.currentRow > 0 then
        if t.currentRow <= |t.rows| then Next(t.(gameState := CheckGameStatus(t, letters)))
        else Throws
      else Next(t)
  }

  /** The invariant of the screen's state: the grid is as wide as the puzzle,
      the cursor is in range, the game is never lost, and it is won exactly
      when the last submitted row spells the puzzle. */
  predicate Valid(s: State, letters: seq<string>)
  {
    && Shaped(s, |letters|)
    && s.gameState != Lost
    && (s.gameState == Won <==> s.currentRow > 0 && s.rows[s.currentRow - 1] == letters)
  }

  lemma InitialIsValid(numberOfTries: nat, letters: seq<string>)
    requires numberOfTries > 0
    ensures Valid(Initial(numberOfTries, |letters|), letters)
    ensures Filled(Initial(numberOfTries, |letters|))
  {
  }

  // ---------------------------------------------------------------------
  // The effect of each kind of key
  // ---------------------------------------------------------------------

  /** Once the game is over every key is ignored. */
  lemma InputIgnoredAfterGameOver(s: State, letters: seq<string>, keys: Keys, key: string)
    requires Rectangular(s) && s.gameState != Playing
    ensures OnKeyPressed(s, keys, key) == Next(s)
    ensures Turn(s, letters, keys, key) == Next(s)
  {
  }

  /** CLEAR at column 0 changes nothing; otherwise it empties the cell left of
      the cursor and moves the cursor back onto it, leaving every other cell
      and the row alone. */
  lemma ClearEffect(s: State, letters: seq<string>, keys: Keys)
    requires Rectangular(s) && s.gameState == Playing && (s.currentRow < |s.rows| || s.currentCol == 0)
    ensures Turn(s, letters, keys, keys.clear) == OnKeyPressed(s, keys, keys.clear)
    ensures OnKeyPressed(s, keys, keys.clear).Next?
    ensures var t := OnKeyPressed(s, keys, keys.clear).state;
            && (s.currentCol == 0 ==> t == s)
            && (s.currentCol > 0 ==>
                  && t.currentRow == s.currentRow && t.gameState == s.gameState
                  && t.currentCol == s.currentCol - 1
                  && |t.rows| == |s.rows|
                  && (forall i | 0 <= i < |s.rows| :: |t.rows[i]| == |s.rows[i]|)
                  && t.rows[s.currentRow][s.currentCol - 1] == ""
                  && forall i, j | 0 <= i < |s.rows| && 0 <= j < |s.rows[i]| && (i != s.currentRow || j != s.currentCol - 1) ::
                       t.rows[i][j] == s.rows[i][j])
  {
  }

  /** ENTER never touches the grid: on a full row it moves the cursor to the
      start of the next row, otherwise it changes nothing. */
  lemma EnterEffect(s: State, keys: Keys)
    requires Rectangular(s) && s.gameState == Playing && keys.enter != keys.clear
    ensures OnKeyPressed(s, keys, keys.enter).Next?
    ensures var t := OnKeyPressed(s, keys, keys.enter).state;
            && t.rows == s.rows && t.gameState == s.gameState
            && (s.currentCol == |s.rows[0]| ==> t.currentRow == s.currentRow + 1 && t.currentCol == 0)
            && (s.currentCol != |s.rows[0]| ==> t == s)
  {
  }

  /** A letter key fills the cell under the cursor and advances the cursor
      when the row has room, and is ignored when it is full. With room left
      but no row under the cursor (all rows used), writing the cell throws. */
  lemma LetterEffect(s: State, keys: Keys, key: string)
    requires Rectangular(s) && s.gameState == Playing && key != keys.clear && key != keys.enter
    ensures OnKeyPressed(s, keys, key) == Throws <==> s.currentCol < |s.rows[0]| && s.currentRow >= |s.rows|
    ensures s.currentCol == |s.rows[0]| ==> OnKeyPressed(s, keys, key) == Next(s)
    ensures s.currentCol < |s.rows[0]| && s.currentRow < |s.rows| ==>
              var t := OnKeyPressed(s, keys, key).state;
              && t.currentRow == s.currentRow && t.gameState == s.gameState
              && t.currentCol == s.currentCol + 1
              && |t.rows| == |s.rows|
              && (forall i | 0 <= i < |s.rows| :: |t.rows[i]| == |s.rows[i]|)
              && t.rows[s.currentRow][s.currentCol] == key
              && forall i, j | 0 <= i < |s.rows| && 0 <= j < |s.rows[i]| && (i != s.currentRow || j != s.currentCol) ::
                   t.rows[i][j] == s.rows[i][j]
  {
  }

  /** CLEAR undoes a letter: typing a letter into a row with room and then
      pressing CLEAR gives back the state typed into. */
  lemma {:induction false} ClearUndoesLetter(s: State, letters: seq<string>, keys: Keys, key: string)
    requires Valid(s, letters) && Filled(s)
    requires s.gameState == Playing && s.currentRow < |s.rows| && s.currentCol < |letters|
    requires key != keys.clear && key != keys.enter
    ensures Turn(s, letters, keys, key).Next?
    ensures Turn(Turn(s, letters, keys, key).state, letters, keys, keys.clear) == Next(s)
  {
    var t := Turn(s, letters, keys, key).state;
    assert s.rows[s.currentRow][s.currentCol] == "";
    assert t.rows[s.currentRow][s.currentCol := ""] == s.rows[s.currentRow];
    assert t.rows[s.currentRow := s.rows[s.currentRow]] == s.rows;
  }

  // ---------------------------------------------------------------------
  // Invariants
  // ---------------------------------------------------------------------

  /** A key press from a valid state either throws, which happens only for a
      letter typed after the last row was submitted without winning, or
      leads to a valid state. */
  lemma TurnPreservesValid(s: State, letters: seq<string>, keys: Keys, key: string)
    requires Valid(s, letters)
    ensures Turn(s, letters, keys, key) == Throws <==>
              s.gameState == Playing && s.currentRow == |s.rows| && key != keys.clear && key != keys.enter
    ensures Turn(s, letters, keys, key).Next? ==> Valid(Turn(s, letters, keys, key).state, letters)
  {
  }

  /** With keys that type something, the cells stay filled exactly before the
      cursor. */
  lemma TurnPreservesFilled(s: State, letters: seq<string>, keys: Keys, key: string)
    requires Valid(s, letters) && Filled(s) && key != ""
    requires Turn(s, letters, keys, key).Next?
    ensures Filled(Turn(s, letters, keys, key).state)
  {
  }

  // ---------------------------------------------------------------------
  // Outcome
  // ---------------------------------------------------------------------

  /** Submitting the puzzle wins, on the last attempt as on any other. */
  lemma CorrectGuessWins(s: State, letters: seq<string>, keys: Keys)
    requires Valid(s, letters) && s.gameState == Playing && keys.enter != keys.clear
    requires s.currentRow < |s.rows| && s.currentCol == |letters| && s.rows[s.currentRow] == letters
    ensures Turn(s, letters, keys, keys.enter) == Next(s.(currentRow := s.currentRow + 1, currentCol := 0, gameState := Won))
  {
  }

  /** Submitting anything else leaves the game playing. */
  lemma WrongGuessKeepsPlaying(s: State, letters: seq<string>, keys: Keys)
    requires Valid(s, letters) && s.gameState == Playing && keys.enter != keys.clear
    requires s.currentRow < |s.rows| && s.currentCol == |letters| && s.rows[s.currentRow] != letters
    ensures Turn(s, letters, keys, keys.enter) == Next(s.(currentRow := s.currentRow + 1, currentCol := 0))
  {
  }

  // ---------------------------------------------------------------------
  // The loss check: as written, and as intended
  // ---------------------------------------------------------------------

  /** As written, a wrong guess in the last row leaves the game playing with
      every row used, although the intended loss condition then holds. */
  lemma WrongLastGuessNotLost(s: State, letters: seq<string>, keys: Keys)
    requires Valid(s, letters) && s.gameState == Playing && keys.enter != keys.clear
    requires s.currentRow == |s.rows| - 1 && s.currentCol == |letters| && s.rows[s.currentRow] != letters
    ensures Turn(s, letters, keys, keys.enter).Next?
    ensures var t := Turn(s, letters, keys, keys.enter).state;
            t.gameState == Playing && t.currentRow == |t.rows| && CheckIfLostCorrected(t, letters)
  {
  }

  /** As written, once every row is used without winning, the next letter key
      throws: the screen writes into a row that does not exist. */
  lemma LetterAfterLastWrongGuessThrows(s: State, letters: seq<string>, keys: Keys, key: string)
    requires Valid(s, letters) && s.gameState == Playing && s.currentRow == |s.rows|
    requires key != keys.clear && key != keys.enter
    ensures |letters| > 0
    ensures Turn(s, letters, keys, key) == Throws
  {
  }

  /** A game of one try with the puzzle "a": typing "b", ENTER, then "c"
      throws. */
  lemma OneTryGameThrows()
    ensures var keys := Keys("ENTER", "CLEAR");
            var letters := ["a"];
            var s0 := Initial(1, 1);
            var s1 := Turn(s0, letters, keys, "b");
            && s1.Next?
            && var s2 := Turn(s1.state, letters, keys, "ENTER");
               && s2.Next? && s2.state.gameState == Playing
               && Turn(s2.state, letters, keys, "c") == Throws
  {
    var keys := Keys("ENTER", "CLEAR");
    var letters := ["a"];
    var s0 := Initial(1, 1);
    assert s0.rows[0] == [""];
    assert s0.rows == [[""]];
    var s1 := State([["b"]], 0, 1, Playing);
    assert [""][0 := "b"] == ["b"];
    assert CopyArray(s0.rows) == s0.rows;
    assert OnKeyPressed(s0, keys, "b") == Next(s1);
    var s2 := State([["b"]], 1, 0, Playing);
    assert "b" != "a" by { assert "b"[0] != "a"[0]; }
    assert ["b"][0] != letters[0];
    assert !(["b"] <= letters);
    assert Turn(s1, letters, keys, "ENTER") == Next(s2);
  }

  /** `checkIfLost` as intended: the last submitted row is wrong and no row is left. */
  function CheckIfLostCorrected(s: State, letters: seq<string>): (lost: bool)
    requires 0 < s.currentRow <= |s.rows|
    ensures lost <==> s.currentRow == |s.rows| && !(s.rows[s.currentRow - 1] <= letters)
  {
    !CheckIfWon(s, letters) && s.currentRow == |s.rows|
  }

  /** `checkGameStatus` with the intended loss check: won first, then lost
      once the last row is used. */
  function CheckGameStatusCorrected(s: State, letters: seq<string>): (g: GameState)
    requires 0 < s.currentRow <= |s.rows|
    ensures CheckIfWon(s, letters) ==> g == Won
    ensures !CheckIfWon(s, letters) && s.currentRow == |s.rows| ==> g == Lost
    ensures !CheckIfWon(s, letters) && s.currentRow < |s.rows| ==> g == s.gameState
  {
    if CheckIfWon(s, letters) && s.gameState != Won then Won
    else if CheckIfLostCorrected(s, letters) && s.gameState != Lost then Lost
    else s.gameState
  }

  /** A key press followed by the intended outcome check. */
  function TurnCorrected(s: State, letters: seq<string>, keys: Keys, key: string): (r: Step)
    requires Rectangular(s)
    ensures r.Next? ==> KeepsDimensions(s, r.state)
    ensures r.Next? && r.state.gameState != s.gameState ==>
              && key == keys.enter && r.state.currentRow == s.currentRow + 1
              && r.state.rows == s.rows && s.gameState == Playing
  {
    match OnKeyPressed(s, keys, key)
    case Throws => Throws
    case Next(t) =>
      if t.currentRow != s.currentRow && t.currentRow > 0 then
        if t.currentRow <= |t.rows| then Next(t.(gameState := CheckGameStatusCorrected(t, letters)))
        else Throws
      else Next(t)
  }

  /** The intended invariant: won exactly when the last submitted row spells
      the puzzle, lost exactly when every row is used and the last is wrong. */
  predicate ValidCorrected(s: State, letters: seq<string>)
  {
    && Shaped(s, |letters|)
    && (s.gameState == Won <==> s.currentRow > 0 && s.rows[s.currentRow - 1] == letters)
    && (s.gameState == Lost <==> s.currentRow == |s.rows| && s.rows[s.currentRow - 1] != letters)
  }

  lemma InitialIsValidCorrected(numberOfTries: nat, letters: seq<string>)
    requires numberOfTries > 0
    ensures ValidCorrected(Initial(numberOfTries, |letters|), letters)
  {
  }

  /** With the intended loss check no key press ever throws, and the
      invariant is kept. */
  lemma TurnCorrectedPreservesValid(s: State, letters: seq<string>, keys: Keys, key: string)
    requires ValidCorrected(s, letters)
    ensures TurnCorrected(s, letters, keys, key).Next?
    ensures ValidCorrected(TurnCorrected(s, letters, keys, key).state, letters)
  {
  }

  /** With the intended loss check the last submission decides the game: won
      if it spells the puzzle, lost otherwise. */
  lemma LastGuessDecides(s: State, letters: seq<string>, keys: Keys)
    requires ValidCorrected(s, letters) && s.gameState == Playing && keys.enter != keys.clear
    requires s.currentRow == |s.rows| - 1 && s.currentCol == |letters|
    ensures TurnCorrected(s, letters, keys, keys.enter).Next?
    ensures TurnCorrected(s, letters, keys, keys.enter).state.gameState
            == if s.rows[s.currentRow] == letters then Won else Lost
  {
  }
}
