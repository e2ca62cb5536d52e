/**
 The state the game screen keeps between key presses: the grid of guessed
 letters, the cursor and the outcome of the game.
 */
module Board {

  /** The outcome, `gameState`: "playing", "won" or "lost". */
  datatype GameState = Playing | Won | Lost

  /** The background colours a cell can take. `Black` marks a row that has not
      been submitted yet; the other three are the feedback colours. */
  datatype Color = Black | Primary | Secondary | DarkGrey

  /** One snapshot of the screen's state. Each cell is "" (empty) or the key
      string that was typed into it. */
  datatype State = State(rows: seq<seq<string>>, currentRow: nat, currentCol: nat, gameState: GameState)

  /** The grid is a non-empty rectangle as wide as its first row, and the
      column cursor lies inside it. This is what a key press needs. */
  predicate Rectangular(s: State)
  {
    && |s.rows| > 0
    && (forall i | 0 <= i < |s.rows| :: |s.rows[i]| == |s.rows[0]|)
    && s.currentCol <= |s.rows[0]|
  }

  /** The grid is `width` wide, and the row cursor is at most one past the
      last row, with the column cursor at 0 when it is. */
  predicate Shaped(s: State, width: nat)
  {
    && Rectangular(s)
    && |s.rows[0]| == width
    && s.currentRow <= |s.rows|
    && (s.currentRow == |s.rows| ==> s.currentCol == 0)
  }

  /** Cells are filled exactly before the cursor: submitted rows are full, the
      current row holds letters in its first `currentCol` cells, and the rest
      of the grid is empty. */
  predicate Filled(s: State)
  {
    forall i, j | 0 <= i < |s.rows| && 0 <= j < |s.rows[i]| ::
      (s.rows[i][j] != "") == (i < s.currentRow || (i == s.currentRow && j < s.currentCol))
  }

  /** The state the screen starts in: `numberOfTries` empty rows of `width`
      cells, the cursor at the top left, the game playing. */
  function Initial(numberOfTries: nat, width: nat): (s: State)
    ensures |s.rows| == numberOfTries
    ensures forall i | 0 <= i < numberOfTries :: s.rows[i] == seq(width, _ => "")
    ensures s.currentRow == 0 && s.currentCol == 0 && s.gameState == Playing
  {
    State(seq(numberOfTries, _ => seq(width, _ => "")), 0, 0, Playing)
  }
}
