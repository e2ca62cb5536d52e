/**
 What the screen derives from its state without changing it: the background
 colour of each cell, the letters the on-screen keyboard colours, and the
 emoji grid offered for sharing.
 */
module Feedback {
  import opened Board
  import Puzzle

  /** The background colour of cell (row, col), `getCellBGColor`. A row the
      cursor has not passed is black. In a submitted row a letter equal to the
      puzzle letter in the same column is primary, one found anywhere in the
      puzzle is secondary, and any other is dark grey. Each cell is judged
      alone: a letter repeated in the guess is coloured the same at every
      position, however often it occurs in the puzzle. A column past the end
      of the puzzle reads `undefined`, which equals no letter. */
  function CellColor(s: State, letters: seq<string>, row: nat, col: nat): (c: Color)
    requires row < |s.rows| && col < |s.rows[row]|
    ensures c == Black <==> row >= s.currentRow
    ensures c == Primary <==> row < s.currentRow && col < |letters| && s.rows[row][col] == letters[col]
    ensures c == Secondary <==>
              && row < s.currentRow
              && !(col < |letters| && s.rows[row][col] == letters[col])
              && s.rows[row][col] in letters
    ensures c == DarkGrey <==> row < s.currentRow && s.rows[row][col] !in letters
  {
    var letter := s.rows[row][col];
    if row >= s.currentRow then Black
    else if col < |letters| && letter == letters[col] then Primary
    else if letter in letters then Secondary
    else DarkGrey
  }

  /** With the puzzle "rust", the guess "ttxx" colours both t's secondary,
      although the puzzle has a single t. */
  lemma RepeatedLetterNotDemoted()
    ensures var s := State([["t", "t", "x", "x"]], 1, 0, Playing);
            var letters := ["r", "u", "s", "t"];
            CellColor(s, letters, 0, 0) == Secondary && CellColor(s, letters, 0, 1) == Secondary
  {
  }

  // ---------------------------------------------------------------------
  // Keyboard letters: `getAllLettersWithColor`
  // ---------------------------------------------------------------------

  /** The letters in the first `n` cells of row `i` whose colour is `c`, left to right. */
  function RowLettersWithColor(s: State, letters: seq<string>, i: nat, n: nat, c: Color): (r: seq<string>)
    requires i < |s.rows| && n <= |s.rows[i]|
  {
    if n == 0 then []
    else
      RowLettersWithColor(s, letters, i, n - 1, c)
      + (if CellColor(s, letters, i, n - 1) == c then [s.rows[i][n - 1]] else [])
  }

  /** The letters of colour `c` in the first `m` rows, row by row. */
  function LettersWithColorUpTo(s: State, letters: seq<string>, m: nat, c: Color): (r: seq<string>)
    requires m <= |s.rows|
  {
    if m == 0 then []
    else LettersWithColorUpTo(s, letters, m - 1, c) + RowLettersWithColor(s, letters, m - 1, |s.rows[m - 1]|, c)
  }

  /** `getAllLettersWithColor(c)`: every cell letter whose colour is `c`, in
      row-major order, repeats included. */
  function LettersWithColor(s: State, letters: seq<string>, c: Color): (r: seq<string>)
  {
    LettersWithColorUpTo(s, letters, |s.rows|, c)
  }

  lemma {:induction false} RowLettersWithColorMembers(s: State, letters: seq<string>, i: nat, n: nat, c: Color, x: string)
    requires i < |s.rows| && n <= |s.rows[i]|
    ensures x in RowLettersWithColor(s, letters, i, n, c) <==>
              exists j | 0 <= j < n :: s.rows[i][j] == x && CellColor(s, letters, i, j) == c
  {
    if n > 0 {
      RowLettersWithColorMembers(s, letters, i, n - 1, c, x);
    }
  }

  lemma {:induction false} LettersWithColorUpToMembers(s: State, letters: seq<string>, m: nat, c: Color, x: string)
    requires m <= |s.rows|
    ensures x in LettersWithColorUpTo(s, letters, m, c) <==>
              exists i, j | 0 <= i < m && 0 <= j < |s.rows[i]| :: s.rows[i][j] == x && CellColor(s, letters, i, j) == c
  {
    if m > 0 {
      LettersWithColorUpToMembers(s, letters, m - 1, c, x);
      RowLettersWithColorMembers(s, letters, m - 1, |s.rows[m - 1]|, c, x);
    }
  }

  /** A letter is listed under colour `c` exactly when some cell holding it
      has colour `c`; for the three feedback colours that cell lies in a
      submitted row. */
  lemma LettersWithColorMembers(s: State, letters: seq<string>, c: Color, x: string)
    ensures x in LettersWithColor(s, letters, c) <==>
              exists i, j | 0 <= i < |s.rows| && 0 <= j < |s.rows[i]| :: s.rows[i][j] == x && CellColor(s, letters, i, j) == c
    ensures c != Black && x in LettersWithColor(s, letters, c) ==>
              exists i, j | 0 <= i < |s.rows| && i < s.currentRow && 0 <= j < |s.rows[i]| :: s.rows[i][j] == x
  {
    LettersWithColorUpToMembers(s, letters, |s.rows|, c, x);
  }

  lemma {:induction false} RowColorCounts(s: State, letters: seq<string>, i: nat, n: nat)
    requires i < |s.rows| && n <= |s.rows[i]|
    ensures |RowLettersWithColor(s, letters, i, n, Primary)|
          + |RowLettersWithColor(s, letters, i, n, Secondary)|
          + |RowLettersWithColor(s, letters, i, n, DarkGrey)| == if i < s.currentRow then n else 0
    ensures |RowLettersWithColor(s, letters, i, n, Black)| == if i < s.currentRow then 0 else n
  {
    if n > 0 {
      RowColorCounts(s, letters, i, n - 1);
    }
  }

  lemma {:induction false} ColorCountsUpTo(s: State, letters: seq<string>, m: nat, width: nat)
    requires m <= |s.rows|
    requires forall i | 0 <= i < |s.rows| :: |s.rows[i]| == width
    ensures var submitted := if m < s.currentRow then m else s.currentRow;
            && |LettersWithColorUpTo(s, letters, m, Primary)|
               + |LettersWithColorUpTo(s, letters, m, Secondary)|
               + |LettersWithColorUpTo(s, letters, m, DarkGrey)| == submitted * width
            && |LettersWithColorUpTo(s, letters, m, Black)| == (m - submitted) * width
  {
    if m > 0 {
      var k := m - 1;
      ColorCountsUpTo(s, letters, k, width);
      RowColorCounts(s, letters, k, width);
      UpToStep(s, letters, m, Primary);
      UpToStep(s, letters, m, Secondary);
      UpToStep(s, letters, m, DarkGrey);
      UpToStep(s, letters, m, Black);
      var shown := |LettersWithColorUpTo(s, letters, k, Primary)|
                   + |LettersWithColorUpTo(s, letters, k, Secondary)|
                   + |LettersWithColorUpTo(s, letters, k, DarkGrey)|;
      var rowShown := |RowLettersWithColor(s, letters, k, width, Primary)|
                      + |RowLettersWithColor(s, letters, k, width, Secondary)|
                      + |RowLettersWithColor(s, letters, k, width, DarkGrey)|;
      var hidden := |LettersWithColorUpTo(s, letters, k, Black)|;
      var rowHidden := |RowLettersWithColor(s, letters, k, width, Black)|;
      if k < s.currentRow {
        OneMoreRow(k, k, m, width, shown, hidden, rowShown, rowHidden);
      } else {
        OneMoreRow(s.currentRow, k, s.currentRow, width, shown, hidden, rowShown, rowHidden);
      }
    }
  }

  /** One more row adds that row's letters of colour `c` to the count. */
  lemma UpToStep(s: State, letters: seq<string>, m: nat, c: Color)
    requires 0 < m <= |s.rows|
    ensures |LettersWithColorUpTo(s, letters, m, c)|
            == |LettersWithColorUpTo(s, letters, m - 1, c)| + |RowLettersWithColor(s, letters, m - 1, |s.rows[m - 1]|, c)|
  {
  }

  /** Arithmetic step of the count: one more row of `width` cells, which is
      either submitted or still to come. */
  lemma OneMoreRow(before: nat, k: nat, after: nat, width: nat, shown: int, hidden: int, rowShown: int, rowHidden: int)
    requires before <= k
    requires shown == before * width && hidden == (k - before) * width
    requires || (after == before + 1 && rowShown == width && rowHidden == 0)
             || (after == before && rowShown == 0 && rowHidden == width)
    ensures shown + rowShown == after * width
    ensures hidden + rowHidden == (k + 1 - after) * width
  {
    if after == before + 1 {
      assert (before + 1) * width == before * width + width;
    } else {
      assert (k - before + 1) * width == (k - before) * width + width;
    }
  }

  /** Every cell is listed under exactly one colour: the three feedback
      colours together list one letter per cell of the submitted rows, and
      black lists the cells of the rows still to come. */
  lemma ColorCounts(s: State, letters: seq<string>)
    requires Shaped(s, |letters|)
    ensures |LettersWithColor(s, letters, Primary)|
          + |LettersWithColor(s, letters, Secondary)|
          + |LettersWithColor(s, letters, DarkGrey)| == s.currentRow * |letters|
    ensures |LettersWithColor(s, letters, Black)| == (|s.rows| - s.currentRow) * |letters|
  {
    ColorCountsUpTo(s, letters, |s.rows|, |letters|);
  }

  // ---------------------------------------------------------------------
  // Sharing: the text built by `shareScore`
  // ---------------------------------------------------------------------

  /** `colorsToEmoji[c]`; a colour with no emoji reads `undefined`, which
      `join` renders as the empty string. */
  function Emoji(colorsToEmoji: map<Color, string>, c: Color): (glyph: string)
    ensures c in colorsToEmoji ==> glyph == colorsToEmoji[c]
    ensures c !in colorsToEmoji ==> glyph == ""
  {
    if c in colorsToEmoji then colorsToEmoji[c] else ""
  }

  /** The emoji of the first `n` cells of row `i`, concatenated. */
  function RowEmoji(s: State, letters: seq<string>, colorsToEmoji: map<Color, string>, i: nat, n: nat): (line: string)
    requires i < |s.rows| && n <= |s.rows[i]|
    ensures i >= s.currentRow && Black !in colorsToEmoji ==> line == ""
  {
    if n == 0 then ""
    else RowEmoji(s, letters, colorsToEmoji, i, n - 1) + Emoji(colorsToEmoji, CellColor(s, letters, i, n - 1))
  }

  /** A row's emoji line is the glyphs of its cells, in column order, joined
      with no separator. */
  lemma {:induction false} RowEmojiIsConcat(s: State, letters: seq<string>, colorsToEmoji: map<Color, string>, i: nat, n: nat)
    requires i < |s.rows| && n <= |s.rows[i]|
    ensures RowEmoji(s, letters, colorsToEmoji, i, n)
            == Puzzle.Concat(seq(n, j requires 0 <= j < n => Emoji(colorsToEmoji, CellColor(s, letters, i, j))))
  {
    if n > 0 {
      RowEmojiIsConcat(s, letters, colorsToEmoji, i, n - 1);
      var glyphs := seq(n, j requires 0 <= j < n => Emoji(colorsToEmoji, CellColor(s, letters, i, j)));
      assert glyphs[..n - 1] == seq(n - 1, j requires 0 <= j < n - 1 => Emoji(colorsToEmoji, CellColor(s, letters, i, j)));
    }
  }

  /** The emoji line of each of the first `m` rows, with empty lines dropped. */
  function EmojiLines(s: State, letters: seq<string>, colorsToEmoji: map<Color, string>, m: nat): (lines: seq<string>)
    requires m <= |s.rows|
    ensures |lines| <= m
    ensures forall k | 0 <= k < |lines| :: lines[k] != ""
  {
    if m == 0 then []
    else
      var line := RowEmoji(s, letters, colorsToEmoji, m - 1, |s.rows[m - 1]|);
      EmojiLines(s, letters, colorsToEmoji, m - 1) + (if line != "" then [line] else [])
  }

  /** The `filter` keeps a line exactly when it is non-empty: the lines are
      the non-empty emoji lines of the first `m` rows. */
  lemma {:induction false} EmojiLinesMembers(s: State, letters: seq<string>, colorsToEmoji: map<Color, string>, m: nat, x: string)
    requires m <= |s.rows|
    ensures x in EmojiLines(s, letters, colorsToEmoji, m) <==>
              x != "" && exists i | 0 <= i < m :: RowEmoji(s, letters, colorsToEmoji, i, |s.rows[i]|) == x
  {
    if m > 0 {
      EmojiLinesMembers(s, letters, colorsToEmoji, m - 1, x);
      var line := RowEmoji(s, letters, colorsToEmoji, m - 1, |s.rows[m - 1]|);
      var kept := EmojiLines(s, letters, colorsToEmoji, m - 1);
      assert EmojiLines(s, letters, colorsToEmoji, m) == kept + (if line != "" then [line] else []);
      if exists i | 0 <= i < m :: RowEmoji(s, letters, colorsToEmoji, i, |s.rows[i]|) == x {
        var i :| 0 <= i < m && RowEmoji(s, letters, colorsToEmoji, i, |s.rows[i]|) == x;
        assert i < m - 1 || x == line;
      }
    }
  }

  /** `lines.join(sep)`. */
  function Join(lines: seq<string>, sep: string): (text: string)
    ensures |lines| > 0 ==> lines[0] <= text
  {
    if |lines| == 0 then ""
    else if |lines| == 1 then lines[0]
    else Join(lines[..|lines| - 1], sep) + sep + lines[|lines| - 1]
  }

  /** `join(sep)` puts `sep` in front of every line but the first and
      concatenates the results. */
  lemma {:induction false} JoinIsConcat(lines: seq<string>, sep: string)
    ensures Join(lines, sep)
            == Puzzle.Concat(seq(|lines|, k requires 0 <= k < |lines| => (if k == 0 then "" else sep) + lines[k]))
  {
    var n := |lines|;
    if n > 1 {
      JoinIsConcat(lines[..n - 1], sep);
      var parts := seq(n, k requires 0 <= k < n => (if k == 0 then "" else sep) + lines[k]);
      assert parts[..n - 1] == seq(n - 1, k requires 0 <= k < n - 1 => (if k == 0 then "" else sep) + lines[..n - 1][k]);
    } else if n == 1 {
      var parts := seq(n, k requires 0 <= k < n => (if k == 0 then "" else sep) + lines[k]);
      assert parts[..0] == [];
    }
  }

  const Title: string := "Wordle \n"

  /** The text `shareScore` copies to the clipboard: the title line, then the
      non-empty emoji lines joined by newlines. */
  function ShareText(s: State, letters: seq<string>, colorsToEmoji: map<Color, string>): (text: string)
    ensures |text| >= |Title| && text[..|Title|] == Title
  {
    Title + Join(EmojiLines(s, letters, colorsToEmoji, |s.rows|), "\n")
  }

  /** The emoji table as the constants give it: nothing for black, a
      non-empty glyph for each feedback colour. */
  predicate EmojiForFeedbackOnly(colorsToEmoji: map<Color, string>)
  {
    && Emoji(colorsToEmoji, Black) == ""
    && Emoji(colorsToEmoji, Primary) != ""
    && Emoji(colorsToEmoji, Secondary) != ""
    && Emoji(colorsToEmoji, DarkGrey) != ""
  }

  lemma {:induction false} RowEmojiEmpty(s: State, letters: seq<string>, colorsToEmoji: map<Color, string>, i: nat, n: nat)
    requires i < |s.rows| && n <= |s.rows[i]|
    requires EmojiForFeedbackOnly(colorsToEmoji)
    ensures RowEmoji(s, letters, colorsToEmoji, i, n) == "" <==> n == 0 || i >= s.currentRow
  {
    if n > 0 {
      RowEmojiEmpty(s, letters, colorsToEmoji, i, n - 1);
    }
  }

  lemma {:induction false} EmojiLinesUpTo(s: State, letters: seq<string>, colorsToEmoji: map<Color, string>, m: nat)
    requires m <= |s.rows| && s.currentRow <= |s.rows|
    requires forall i | 0 <= i < |s.rows| :: |s.rows[i]| > 0
    requires EmojiForFeedbackOnly(colorsToEmoji)
    ensures var k := if m < s.currentRow then m else s.currentRow;
            EmojiLines(s, letters, colorsToEmoji, m) == seq(k, i requires 0 <= i < k => RowEmoji(s, letters, colorsToEmoji, i, |s.rows[i]|))
  {
    if m > 0 {
      EmojiLinesUpTo(s, letters, colorsToEmoji, m - 1);
      RowEmojiEmpty(s, letters, colorsToEmoji, m - 1, |s.rows[m - 1]|);
      var line := RowEmoji(s, letters, colorsToEmoji, m - 1, |s.rows[m - 1]|);
      if m - 1 < s.currentRow {
        assert EmojiLines(s, letters, colorsToEmoji, m) == EmojiLines(s, letters, colorsToEmoji, m - 1) + [line];
      } else {
        assert EmojiLines(s, letters, colorsToEmoji, m) == EmojiLines(s, letters, colorsToEmoji, m - 1);
      }
    }
  }

  /** With the emoji table of the constants and a puzzle of at least one
      letter, the share text has exactly one line per submitted row, in order. */
  lemma ShareLinesAreSubmittedRows(s: State, letters: seq<string>, colorsToEmoji: map<Color, string>)
    requires Shaped(s, |letters|) && |letters| > 0
    requires EmojiForFeedbackOnly(colorsToEmoji)
    ensures EmojiLines(s, letters, colorsToEmoji, |s.rows|)
            == seq(s.currentRow, i requires 0 <= i < s.currentRow => RowEmoji(s, letters, colorsToEmoji, i, |letters|))
    ensures ShareText(s, letters, colorsToEmoji)
            == Title + Join(seq(s.currentRow, i requires 0 <= i < s.currentRow => RowEmoji(s, letters, colorsToEmoji, i, |letters|)), "\n")
  {
    EmojiLinesUpTo(s, letters, colorsToEmoji, |s.rows|);
  }

  /** `n` copies of `glyph`, concatenated. */
  function Repeat(glyph: string, n: nat): (r: string)
    ensures |r| == n * |glyph|
  {
    if n == 0 then "" else Repeat(glyph, n - 1) + glyph
  }

  /** A submitted row that spells the puzzle shares as a line of primary glyphs. */
  lemma {:induction false} MatchingRowIsAllPrimary(s: State, letters: seq<string>, colorsToEmoji: map<Color, string>, i: nat, n: nat)
    requires i < s.currentRow && i < |s.rows| && n <= |s.rows[i]|
    requires s.rows[i] == letters
    ensures RowEmoji(s, letters, colorsToEmoji, i, n) == Repeat(Emoji(colorsToEmoji, Primary), n)
  {
    if n > 0 {
      MatchingRowIsAllPrimary(s, letters, colorsToEmoji, i, n - 1);
    }
  }
}
