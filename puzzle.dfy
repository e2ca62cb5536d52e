/**
 Choosing the puzzle: the word of the day, taken from the word list by the
 day's ordinal within the year, and split into one-character strings.
 */
module Puzzle {

  datatype Option<T> = None | Some(value: T)

  /** `word.split("")`: one single-character string per character. */
  function Split(word: string): (letters: seq<string>)
    ensures |letters| == |word|
    ensures forall i | 0 <= i < |word| :: letters[i] == [word[i]]
  {
    seq(|word|, i requires 0 <= i < |word| => [word[i]])
  }

  /** The concatenation of a sequence of strings (`join("")`). */
  function Concat(parts: seq<string>): (joined: string)
    ensures (forall k | 0 <= k < |parts| :: |parts[k]| == 1) ==> |joined| == |parts|
  {
    if parts == [] then "" else Concat(parts[..|parts| - 1]) + parts[|parts| - 1]
  }

  /** Splitting a word and joining the pieces gives the word back. */
  lemma {:induction false} ConcatSplit(word: string)
    ensures Concat(Split(word)) == word
  {
    if word != [] {
      var n := |word| - 1;
      assert Split(word)[..n] == Split(word[..n]);
      ConcatSplit(word[..n]);
      assert word == word[..n] + [word[n]];
    }
  }

  /** `words[dayOfTheYear].split("")`. The list is indexed without a bounds
      check, so a day past its end makes `word` undefined and the split throws;
      that outcome is `None`. */
  function LettersOfTheDay(words: seq<string>, day: nat): (r: Option<seq<string>>)
    ensures r.Some? <==> day < |words|
    ensures r.Some? ==> Concat(r.value) == words[day] && |r.value| == |words[day]|
    ensures r.Some? ==> forall k | 0 <= k < |words[day]| :: r.value[k] == [words[day][k]]
  {
    if day < |words| then
      ConcatSplit(words[day]);
      Some(Split(words[day]))
    else
      None
  }
}
