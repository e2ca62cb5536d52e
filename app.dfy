/**
 The game screen as an object: its state fields, updated in place by the
 key handler and by the effect that judges a submitted row.
 */
module App {
  import opened Board
  import opened Engine

  class Game {
    /** The puzzle, one single-character string per letter. */
    const letters: seq<string>
    /** The ENTER and CLEAR sentinels the keyboard sends. */
    const keys: Keys

    var rows: seq<seq<string>>
    var currentRow: nat
    var currentCol: nat
    var gameState: GameState

    /** The fields as one value. */
    function Snapshot(): State
      reads this
    {
      State(rows, currentRow, currentCol, gameState)
    }

    predicate Valid()
      reads this
    {
      Engine.Valid(Snapshot(), letters)
    }

    /** The initial state: `numberOfTries` rows of empty cells as wide as the
        puzzle, the cursor at the top left, the game playing. */
    constructor (letters: seq<string>, numberOfTries: nat, keys: Keys)
      requires numberOfTries > 0
      ensures this.letters == letters && this.keys == keys
      ensures Snapshot() == Initial(numberOfTries, |letters|)
      ensures Valid() && Filled(Snapshot())
    {
      this.letters := letters;
      this.keys := keys;
      rows := seq(numberOfTries, _ => seq(|letters|, _ => ""));
      currentRow := 0;
      currentCol := 0;
      gameState := Playing;
      InitialIsValid(numberOfTries, letters);
    }

    /** `onKeyPressed(key)`: copies the grid, writes the copy and stores it.
        `thrown` reports the TypeError of writing into a missing row, which
        leaves the fields as they were. */
    method OnKeyPressed(key: string) returns (thrown: bool)
      requires Rectangular(Snapshot())
      modifies this
      ensures thrown <==> Engine.OnKeyPressed(old(Snapshot()), keys, key) == Throws
      ensures !thrown ==> Engine.OnKeyPressed(old(Snapshot()), keys, key) == Next(Snapshot())
      ensures thrown ==> Snapshot() == old(Snapshot())
    {
      thrown := false;
      if gameState != Playing {
        return;
      }

      var newRows := CopyArray(rows);
      if key == keys.clear {
        var prevCol: int := currentCol - 1;
        if prevCol >= 0 {
          if currentRow >= |newRows| {
            thrown := true;
            return;
          }
          newRows := newRows[currentRow := newRows[currentRow][prevCol := ""]];
          rows := newRows;
          currentCol := prevCol;
        }
        return;
      }

      if key == keys.enter {
        if currentCol == |rows[0]| {
          currentRow := currentRow + 1;
          currentCol := 0;
        }
        return;
      }

      if currentCol < |rows[0]| {
        if currentRow >= |newRows| {
          thrown := true;
          return;
        }
        newRows := newRows[currentRow := newRows[currentRow][currentCol := key]];
        rows := newRows;
        currentCol := currentCol + 1;
      }
    }

    /** `checkGameStatus`: moves the outcome to won when the last submitted
        row spells the puzzle; the loss check as written never fires. */
    method CheckGameStatus()
      requires 0 < currentRow <= |rows|
      modifies this`gameState
      ensures gameState == Engine.CheckGameStatus(old(Snapshot()), letters)
    {
      var won := CheckIfWon(Snapshot(), letters);
      var lost := CheckIfLost(Snapshot());
      gameState :=
        if won && gameState != Won then Won
        else if lost && gameState != Lost then Lost
        else gameState;
    }

    /** One key press as the screen processes it: the handler, then the
        effect that runs `checkGameStatus` when `currentRow` moved. From a
        valid state it throws only for a letter typed after the last row was
        submitted without winning, and otherwise keeps the state valid. */
    method Press(key: string) returns (thrown: bool)
      requires Valid()
      modifies this
      ensures thrown <==> Turn(old(Snapshot()), letters, keys, key) == Throws
      ensures thrown <==> old(gameState) == Playing && old(currentRow) == |rows| && key != keys.clear && key != keys.enter
      ensures !thrown ==> Snapshot() == Turn(old(Snapshot()), letters, keys, key).state && Valid()
      ensures thrown ==> Snapshot() == old(Snapshot())
    {
      ghost var before := Snapshot();
      TurnPreservesValid(before, letters, keys, key);
      var rowBefore := currentRow;
      thrown := OnKeyPressed(key);
      if !thrown && currentRow != rowBefore && currentRow > 0 {
        CheckGameStatus();
      }
    }
  }
}
