/** The status glyphs and game sizes that both Wordle versions share. */
module WordleSupport {
  import opened Common

  /** A letter in the right place (green square). */
  const CORRECT: char := '\U{1F7E9}'
  /** A letter that occurs in the answer elsewhere (yellow square). */
  const MISPLACED: char := '\U{1F7E8}'
  /** A letter that is not in the answer (black square). */
  const INCORRECT: char := '\U{2B1B}'
  /** A keyboard letter that no guess has used yet (white square). */
  const UNSEEN: char := '\U{2B1C}'

  /** Letters in every guess and answer. */
  const WORD_LENGTH: nat := 6
  /** Guesses allowed in one round. */
  const MAX_GUESSES: nat := 6

  /** One of the three marks a processed guess is made of. */
  predicate IsMark(c: char)
  {
    c == CORRECT || c == MISPLACED || c == INCORRECT
  }

  /** A past guess together with its processed form. */
  type Entry = (string, string)

  /** Some letter occurs again later in `word`. */
  predicate HasRepeat(word: string)
  {
    exists i :: 0 <= i < |word| && word[i] in word[i + 1..]
  }

  /** `word` has no repeated letter. */
  predicate NoRepeat(word: string)
  {
    !HasRepeat(word)
  }

  /** No repeated letter means no two positions hold the same letter. */
  lemma NoRepeatIffDistinct(word: string)
    ensures NoRepeat(word) <==> NoDuplicates(word)
  {
    if !NoDuplicates(word) {
      var i, j :| 0 <= i < j < |word| && word[i] == word[j];
      assert word[i + 1..][j - i - 1] == word[j];
    }
    if HasRepeat(word) {
      var i :| 0 <= i < |word| && word[i] in word[i + 1..];
      var t :| 0 <= t < |word[i + 1..]| && word[i + 1..][t] == word[i];
      assert word[i + 1 + t] == word[i];
    }
  }
}
