/** The reference Wordle round (A1/a1_solution.py): scoring a guess, the
    immutable history and statistics helpers, the keyboard summary and the
    automatic suggestion of a next guess. */
module WordleSolution {
  import opened Common
  import opened WordleSupport

  // ---------------------------------------------------------------------------
  // Winning, losing and the tuple helpers
  // ---------------------------------------------------------------------------

  /** The round is won by this guess. */
  function HasWon(guess: string, answer: string): (won: bool)
    ensures won <==> guess == answer
  {
    guess == answer
  }

  /** The round is lost once MAX_GUESSES guesses have been used. */
  function HasLost(guessNumber: int): (lost: bool)
    ensures lost <==> guessNumber >= MAX_GUESSES
  {
    guessNumber >= MAX_GUESSES
  }

  /** `words` without the first occurrence of `word`. */
  function RemoveWord(words: seq<string>, word: string): (r: seq<string>)
    requires word in words
    ensures |r| == |words| - 1
    ensures multiset(r) == multiset(words) - multiset{word}
    ensures forall x :: x in r ==> x in words
    ensures forall x :: x in words && x != word ==> x in r
  {
    var i := IndexOf(words, word);
    assert words == words[..i] + [word] + words[i + 1..];
    words[..i] + words[i + 1..]
  }

  /** `RemoveWord` takes out exactly the first occurrence: the words before it
      are kept, and putting `word` back at that place restores the tuple. */
  lemma RemoveWordFirstOccurrence(words: seq<string>, word: string)
    requires word in words
    ensures var i := IndexOf(words, word);
      var r := RemoveWord(words, word);
      i <= |r| && word !in r[..i] && r[..i] + [word] + r[i..] == words
  {
    var i := IndexOf(words, word);
    var before, after := words[..i], words[i + 1..];
    assert RemoveWord(words, word) == before + after;
    SplitAround(words, i);
    ConcatParts(before, after);
  }

  /** A sequence is its prefix, its element at `i` and its suffix. */
  lemma SplitAround(words: seq<string>, i: nat)
    requires i < |words|
    ensures words[..i] + [words[i]] + words[i + 1..] == words
  {
  }

  /** The two parts of a concatenation are its prefix and suffix. */
  lemma ConcatParts(a: seq<string>, b: seq<string>)
    ensures (a + b)[..|a|] == a && (a + b)[|a|..] == b
  {
  }

  /** Removing a word from a tuple without repeats leaves no copy of it, and
      the result still has no repeats. */
  lemma {:induction false} RemoveWordNoDuplicates(words: seq<string>, word: string)
    requires word in words && NoDuplicates(words)
    ensures word !in RemoveWord(words, word)
    ensures NoDuplicates(RemoveWord(words, word))
  {
    var i := IndexOf(words, word);
    var r := RemoveWord(words, word);
    forall p | 0 <= p < |r|
      ensures r[p] != word
    {
      RemoveWordAt(words, word, p);
    }
    forall p, q | 0 <= p < q < |r|
      ensures r[p] != r[q]
    {
      RemoveWordAt(words, word, p);
      RemoveWordAt(words, word, q);
    }
  }

  /** Position `p` of the result is the word's position `p`, or `p + 1` once
      past the removed occurrence. */
  lemma RemoveWordAt(words: seq<string>, word: string, p: nat)
    requires word in words && p < |words| - 1
    ensures var i := IndexOf(words, word);
      RemoveWord(words, word)[p] == words[if p < i then p else p + 1]
  {
    var i := IndexOf(words, word);
    assert RemoveWord(words, word) == words[..i] + words[i + 1..];
  }


  /** The sum of the statistics. */
  function Total(stats: seq<int>): int
  {
    if stats == [] then 0 else stats[0] + Total(stats[1..])
  }

  /** Two statistics that differ at most at position `i` differ in their sum
      by the difference there. */
  lemma {:induction false} TotalDiffersAt(a: seq<int>, b: seq<int>, i: nat)
    requires |a| == |b| && i < |a|
    requires forall j :: 0 <= j < |a| && j != i ==> a[j] == b[j]
    ensures Total(b) == Total(a) - a[i] + b[i]
  {
    if i > 0 {
      TotalDiffersAt(a[1..], b[1..], i - 1);
    } else {
      assert a[1..] == b[1..];
    }
  }

  /** Counts one more round finished in `guessNumber` guesses (index
      MAX_GUESSES + 1 is the number of rounds lost). */
  function UpdateStats(stats: seq<int>, guessNumber: int): (r: seq<int>)
    requires 1 <= guessNumber <= |stats|
    ensures |r| == |stats|
    ensures r[guessNumber - 1] == stats[guessNumber - 1] + 1
    ensures forall j :: 0 <= j < |stats| && j != guessNumber - 1 ==> r[j] == stats[j]
  {
    var idx := guessNumber - 1;
    stats[..idx] + [stats[idx] + 1] + stats[idx + 1..]
  }

  /** Recording a round adds exactly one to the number of rounds played. */
  lemma UpdateStatsTotal(stats: seq<int>, guessNumber: int)
    requires 1 <= guessNumber <= |stats|
    ensures Total(UpdateStats(stats, guessNumber)) == Total(stats) + 1
  {
    TotalDiffersAt(stats, UpdateStats(stats, guessNumber), guessNumber - 1);
  }

  // ---------------------------------------------------------------------------
  // Scoring a guess
  // ---------------------------------------------------------------------------

  /** The mark of position `i`: correct when the letters agree; misplaced when
      the letter is in the answer, this is its first occurrence in the guess
      and the guess does not already hold it at the answer's first position
      of that letter; incorrect otherwise. */
  function Mark(guess: string, answer: string, i: nat): (m: char)
    requires |guess| == |answer| && i < |guess|
    ensures IsMark(m)
  {
    var c := guess[i];
    if c == answer[i] then CORRECT
    else if c in answer && c !in guess[..i] && guess[IndexOf(answer, c)] != c then MISPLACED
    else INCORRECT
  }

  /** The processed guess: one mark per letter. */
  function Feedback(guess: string, answer: string): (r: string)
    requires |guess| == |answer|
    ensures |r| == |guess|
    ensures forall i :: 0 <= i < |r| ==> r[i] == Mark(guess, answer, i)
  {
    seq(|guess|, i requires 0 <= i < |guess| => Mark(guess, answer, i))
  }

  /** What the processed guess says: a position is correct exactly when the
      letters agree; a letter the answer lacks is incorrect; a position is
      misplaced exactly when its letter is elsewhere in the answer, occurs
      here for the first time in the guess, and the guess does not already
      hold it at the answer's first position of that letter. */
  lemma FeedbackMeaning(guess: string, answer: string)
    requires |guess| == |answer|
    ensures |Feedback(guess, answer)| == |guess|
    ensures forall i :: 0 <= i < |guess| ==> (Feedback(guess, answer)[i] == CORRECT <==> guess[i] == answer[i])
    ensures forall i :: 0 <= i < |guess| && guess[i] !in answer ==> Feedback(guess, answer)[i] == INCORRECT
    ensures forall i :: 0 <= i < |guess| ==>
      (Feedback(guess, answer)[i] == MISPLACED <==>
        guess[i] != answer[i] && guess[i] in answer && guess[i] !in guess[..i]
        && guess[IndexOf(answer, guess[i])] != guess[i])
  {
  }

  /** Builds the processed guess letter by letter. */
  method ProcessGuess(guess: string, answer: string) returns (processed: string)
    requires |guess| == |answer|
    ensures processed == Feedback(guess, answer)
    ensures |processed| == |guess|
    ensures forall i :: 0 <= i < |guess| ==> (processed[i] == CORRECT <==> guess[i] == answer[i])
    ensures forall i :: 0 <= i < |guess| && guess[i] !in answer ==> processed[i] == INCORRECT
    ensures forall i :: 0 <= i < |guess| ==>
      (processed[i] == MISPLACED <==>
        guess[i] != answer[i] && guess[i] in answer && guess[i] !in guess[..i]
        && guess[IndexOf(answer, guess[i])] != guess[i])
  {
    processed := "";
    for i := 0 to |guess|
      invariant |processed| == i
      invariant forall j :: 0 <= j < i ==> processed[j] == Mark(guess, answer, j)
    {
      var c := guess[i];
      if c == answer[i] {
        processed := processed + [CORRECT];
      } else if c in answer && c !in guess[..i] && guess[IndexOf(answer, c)] != c {
        processed := processed + [MISPLACED];
      } else {
        processed := processed + [INCORRECT];
      }
    }
  }

  /** A guess wins exactly when every position is marked correct. */
  lemma HasWonIffAllCorrect(guess: string, answer: string)
    requires |guess| == |answer|
    ensures HasWon(guess, answer) <==> Feedback(guess, answer) == seq(|guess|, _ => CORRECT)
  {
    var f := Feedback(guess, answer);
    if f == seq(|guess|, _ => CORRECT) {
      forall i | 0 <= i < |guess|
        ensures guess[i] == answer[i]
      {
        assert f[i] == CORRECT;
      }
    }
  }

  /** Every letter of a repeated-letter guess gets at most one misplaced mark. */
  lemma AtMostOneMisplacedPerLetter(guess: string, answer: string, i: nat, j: nat)
    requires |guess| == |answer| && i < j < |guess| && guess[i] == guess[j]
    ensures !(Mark(guess, answer, i) == MISPLACED && Mark(guess, answer, j) == MISPLACED)
  {
    assert guess[j] in guess[..j] by {
      assert guess[..j][i] == guess[i];
    }
  }

  /** A letter the guess holds at the answer's first position of that letter
      is never also reported as misplaced: the correct place takes
      precedence. */
  lemma CorrectPlaceTakesPrecedence(guess: string, answer: string, i: nat)
    requires |guess| == |answer| && i < |guess| && guess[i] in answer
    requires guess[IndexOf(answer, guess[i])] == guess[i]
    ensures Mark(guess, answer, i) != MISPLACED
    ensures Mark(guess, answer, IndexOf(answer, guess[i])) == CORRECT
  {
  }

  /** The positions of `guess` holding `letter` that are marked correct or
      misplaced. */
  function HitsOf(guess: string, answer: string, letter: char): set<nat>
    requires |guess| == |answer|
  {
    set i: nat | i < |guess| && guess[i] == letter && Feedback(guess, answer)[i] != INCORRECT
  }

  /** The positions of `answer` holding `letter`. */
  function OccurrencesOf(answer: string, letter: char): set<nat>
  {
    set j: nat | j < |answer| && answer[j] == letter
  }

  /** No letter is reported, as correct or misplaced, more often than the
      answer holds it. */
  lemma LetterMarksBounded(guess: string, answer: string, letter: char)
    requires |guess| == |answer|
    ensures |HitsOf(guess, answer, letter)| <= |OccurrencesOf(answer, letter)|
  {
    var hits, occurrences := HitsOf(guess, answer, letter), OccurrencesOf(answer, letter);
    var correct := set i: nat | i < |guess| && guess[i] == letter && guess[i] == answer[i];
    SubsetSize(correct, occurrences);
    if m :| m in hits && m !in correct {
      assert Mark(guess, answer, m) == MISPLACED;
      forall i | i in hits && i !in correct
        ensures i == m
      {
        if i < m {
          AtMostOneMisplacedPerLetter(guess, answer, i, m);
        } else if m < i {
          AtMostOneMisplacedPerLetter(guess, answer, m, i);
        }
      }
      assert hits == correct + {m};
      var k := IndexOf(answer, letter);
      assert k in occurrences && k !in correct;
      SubsetSize(correct, occurrences - {k});
    } else {
      assert hits == correct;
    }
  }

  /** A subset is no larger than the set that holds it. */
  lemma SubsetSize(a: set<nat>, b: set<nat>)
    requires a <= b
    ensures |a| <= |b|
  {
    assert b == a + (b - a);
  }

  // ---------------------------------------------------------------------------
  // History and the keyboard summary
  // ---------------------------------------------------------------------------

  /** Every processed guess in the history has one mark per letter. */
  predicate WellFormed(history: seq<Entry>)
  {
    forall k :: 0 <= k < |history| ==> |history[k].1| == |history[k].0|
  }

  /** The history extended by `guess` and its processed form. */
  function UpdateHistory(history: seq<Entry>, guess: string, answer: string): (r: seq<Entry>)
    requires |guess| == |answer|
    ensures |r| == |history| + 1 && r[..|history|] == history
    ensures r[|history|].0 == guess && r[|history|].1 == Feedback(guess, answer)
    ensures WellFormed(history) ==> WellFormed(r)
  {
    history + [(guess, Feedback(guess, answer))]
  }

  /** What one past guess says about `letter`, given what was known before:
      the mark at the letter's first position in that guess, except that a
      correct status is only ever replaced by another correct one. */
  function StatusAfter(letter: char, status: char, entry: Entry): char
    requires |entry.1| == |entry.0|
  {
    if letter in entry.0 then
      var seen := entry.1[IndexOf(entry.0, letter)];
      if seen == CORRECT || status != CORRECT then seen else status
    else status
  }

  /** The keyboard status of `letter` after the whole history. */
  function KeyboardStatus(letter: char, history: seq<Entry>): char
    requires WellFormed(history)
  {
    if history == [] then UNSEEN
    else StatusAfter(letter, KeyboardStatus(letter, history[..|history| - 1]), history[|history| - 1])
  }

  /** Walks the history once, updating the status as it goes. */
  method LetterStatus(letter: char, history: seq<Entry>) returns (status: char)
    requires WellFormed(history)
    ensures status == KeyboardStatus(letter, history)
  {
    status := UNSEEN;
    for k := 0 to |history|
      invariant status == KeyboardStatus(letter, history[..k])
    {
      var (guess, processed) := history[k];
      assert history[..k + 1][..k] == history[..k];
      if letter in guess {
        var thisStatus := processed[IndexOf(guess, letter)];
        if thisStatus == CORRECT || status != CORRECT {
          status := thisStatus;
        }
      }
    }
    assert history[..|history|] == history;
  }

  /** Some guess of the history marks `letter` correct at its first position. */
  predicate SeenCorrect(letter: char, history: seq<Entry>)
    requires WellFormed(history)
  {
    exists k :: 0 <= k < |history| && letter in history[k].0
      && history[k].1[IndexOf(history[k].0, letter)] == CORRECT
  }

  /** A letter that no guess contains stays unseen. */
  lemma {:induction false} KeyboardUnseen(letter: char, history: seq<Entry>)
    requires WellFormed(history)
    requires forall k :: 0 <= k < |history| ==> letter !in history[k].0
    ensures KeyboardStatus(letter, history) == UNSEEN
  {
    if history != [] {
      var init := history[..|history| - 1];
      assert forall k :: 0 <= k < |init| ==> init[k] == history[k];
      KeyboardUnseen(letter, init);
    }
  }

  /** The keyboard shows correct exactly when some guess marked the letter
      correct at its first position. */
  lemma {:induction false} KeyboardCorrectIff(letter: char, history: seq<Entry>)
    requires WellFormed(history)
    ensures KeyboardStatus(letter, history) == CORRECT <==> SeenCorrect(letter, history)
  {
    if history != [] {
      var init := history[..|history| - 1];
      var last := history[|history| - 1];
      assert WellFormed(init) by {
        assert forall k :: 0 <= k < |init| ==> init[k] == history[k];
      }
      KeyboardCorrectIff(letter, init);
      if SeenCorrect(letter, init) {
        var k :| 0 <= k < |init| && letter in init[k].0
          && init[k].1[IndexOf(init[k].0, letter)] == CORRECT;
        assert history[k] == init[k];
      }
      if SeenCorrect(letter, history) && !(letter in last.0 && last.1[IndexOf(last.0, letter)] == CORRECT) {
        var k :| 0 <= k < |history| && letter in history[k].0
          && history[k].1[IndexOf(history[k].0, letter)] == CORRECT;
        assert k < |init| && init[k] == history[k];
      }
    }
  }

  /** Once the keyboard shows a letter correct, later guesses never change
      that. */
  lemma CorrectStaysCorrect(letter: char, history: seq<Entry>, later: seq<Entry>)
    requires WellFormed(history) && WellFormed(later)
    requires KeyboardStatus(letter, history) == CORRECT
    ensures WellFormed(history + later)
    ensures KeyboardStatus(letter, history + later) == CORRECT
  {
    var all := history + later;
    assert forall k :: 0 <= k < |history| ==> all[k] == history[k];
    assert forall k :: |history| <= k < |all| ==> all[k] == later[k - |history|];
    KeyboardCorrectIff(letter, history);
    KeyboardCorrectIff(letter, all);
  }

  /** After the winning guess every letter of the answer shows correct. */
  lemma WinningGuessLightsKeyboard(history: seq<Entry>, answer: string, letter: char)
    requires WellFormed(history) && letter in answer
    ensures WellFormed(UpdateHistory(history, answer, answer))
    ensures KeyboardStatus(letter, UpdateHistory(history, answer, answer)) == CORRECT
  {
    var h := UpdateHistory(history, answer, answer);
    assert h[..|h| - 1] == history;
    assert Mark(answer, answer, IndexOf(answer, letter)) == CORRECT;
  }

  // ---------------------------------------------------------------------------
  // Suggesting the next guess
  // ---------------------------------------------------------------------------

  /** Walking over the ORIGINAL tuple while removing the first occurrence of
      each rejected word from the current one: before step `k` the current
      tuple is the kept part of the first `k` words followed by the rest.
      A kept word leaves the current tuple as it is ... */
  lemma FilterStepKeep(s: seq<string>, k: nat, keep: string -> bool)
    requires k < |s| && keep(s[k])
    ensures Filter(s[..k + 1], keep) + s[k + 1..] == Filter(s[..k], keep) + s[k..]
  {
    assert s[..k + 1][..k] == s[..k];
    assert s[k..] == [s[k]] + s[k + 1..];
  }

  /** ... and removing the first occurrence of a rejected one takes out exactly
      that word. */
  lemma FilterStepDrop(s: seq<string>, k: nat, keep: string -> bool)
    requires k < |s| && !keep(s[k])
    ensures s[k] in Filter(s[..k], keep) + s[k..]
    ensures RemoveWord(Filter(s[..k], keep) + s[k..], s[k]) == Filter(s[..k + 1], keep) + s[k + 1..]
  {
    var f := Filter(s[..k], keep);
    var x := s[k];
    var cur := f + s[k..];
    assert s[..k + 1][..k] == s[..k];
    assert Filter(s[..k + 1], keep) == f;
    FilterContents(s[..k], keep, x);
    assert cur[..|f|] == f;
    assert cur[|f|] == x;
    IndexOfAt(cur, |f|, x);
    assert cur[|f| + 1..] == s[k + 1..];
  }

  /** Keeps only the words without a repeated letter (`history` is not used). */
  method RemoveDuplicatedLetters(vocab: seq<string>, history: seq<Entry>) returns (r: seq<string>)
    ensures r == Filter(vocab, NoRepeat)
  {
    r := vocab;
    for k := 0 to |vocab|
      invariant r == Filter(vocab[..k], NoRepeat) + vocab[k..]
    {
      var word := vocab[k];
      var i := 0;
      while i < |word|
        invariant 0 <= i <= |word|
        invariant forall j :: 0 <= j < i ==> word[j] !in word[j + 1..]
        invariant r == Filter(vocab[..k], NoRepeat) + vocab[k..]
      {
        if word[i] in word[i + 1..] {
          FilterStepDrop(vocab, k, NoRepeat);
          r := RemoveWord(r, word);
          break;
        }
        i := i + 1;
      }
      if i == |word| {
        FilterStepKeep(vocab, k, NoRepeat);
      }
    }
    assert vocab[..|vocab|] == vocab;
  }

  /** The exception of the source's duplicate-letter loop, which pairs the
      guess with the one-character `status` rather than with the whole
      processed guess: only the pair (guess[0], status) is ever examined. */
  predicate ZipExempt(guess: string, status: char, letter: char)
  {
    var pairs := Zip(guess, [status]);
    exists t :: 0 <= t < |pairs| && pairs[t].1 == CORRECT && pairs[t].0 == letter
  }

  /** `candidate` agrees with the mark `status` of `guess[position]`; `exempt`
      switches off the exclusion of candidates containing an incorrect
      letter. A candidate shorter than `position` is refused (the callers
      never pass one). */
  predicate Passes(candidate: string, guess: string, position: nat, status: char, exempt: bool)
    requires position < |guess|
  {
    var letter := guess[position];
    position < |candidate|
    && !(status == CORRECT && candidate[position] != letter)
    && !(status == INCORRECT && letter in candidate && !exempt)
    && !(status == MISPLACED && (letter !in candidate || candidate[position] == letter))
  }

  /** The words of `vocab` that agree with one mark, in their order. */
  function FilterWordsSpec(vocab: seq<string>, guess: string, position: nat, status: char, exempt: bool): (r: seq<string>)
    requires position < |guess|
    ensures |r| <= |vocab|
    ensures forall w :: w in r ==> w in vocab && Passes(w, guess, position, status, exempt)
    ensures NoDuplicates(vocab) ==> NoDuplicates(r)
  {
    var keep := c => Passes(c, guess, position, status, exempt);
    FilterIsSubsequence(vocab, keep);
    if NoDuplicates(vocab) then
      SubsequenceNoDuplicates(Filter(vocab, keep), vocab);
      Filter(vocab, keep)
    else Filter(vocab, keep)
  }

  /** The survivors of one mark keep the vocabulary's order. */
  lemma FilterWordsKeepsOrder(vocab: seq<string>, guess: string, position: nat, status: char, exempt: bool)
    requires position < |guess|
    ensures IsSubsequence(FilterWordsSpec(vocab, guess, position, status, exempt), vocab)
  {
    FilterIsSubsequence(vocab, c => Passes(c, guess, position, status, exempt));
  }

  /** A word that agrees with the mark survives the filter. */
  lemma FilterWordsKeeps(vocab: seq<string>, guess: string, position: nat, status: char, exempt: bool, w: string)
    requires position < |guess|
    requires w in vocab && Passes(w, guess, position, status, exempt)
    ensures w in FilterWordsSpec(vocab, guess, position, status, exempt)
  {
    FilterContents(vocab, c => Passes(c, guess, position, status, exempt), w);
  }

  /** What the surviving words satisfy, for each kind of mark, and that every
      word satisfying it survives. */
  lemma FilterWordsMembers(vocab: seq<string>, guess: string, position: nat, status: char, w: string)
    requires position < |guess| && position < |w|
    requires status == CORRECT || status == MISPLACED || status == INCORRECT
    ensures var letter := guess[position];
      w in FilterWordsSpec(vocab, guess, position, status, ZipExempt(guess, status, letter))
      <==>
      w in vocab
      && (status == CORRECT ==> w[position] == letter)
      && (status == MISPLACED ==> letter in w && w[position] != letter)
      && (status == INCORRECT ==> letter !in w)
  {
    var letter := guess[position];
    var exempt := ZipExempt(guess, status, letter);
    assert status == INCORRECT ==> !exempt;
    if w in vocab && Passes(w, guess, position, status, exempt) {
      FilterWordsKeeps(vocab, guess, position, status, exempt, w);
    }
  }

  /** Drops the words that disagree with the mark `status` of `guess[position]`. */
  method FilterWords(vocab: seq<string>, guess: string, position: nat, status: char) returns (r: seq<string>)
    requires position < |guess|
    requires forall w :: w in vocab ==> position < |w|
    ensures r == FilterWordsSpec(vocab, guess, position, status, ZipExempt(guess, status, guess[position]))
  {
    var letter := guess[position];
    var exempt := ZipExempt(guess, status, letter);
    var keep := c => Passes(c, guess, position, status, exempt);
    r := vocab;
    for k := 0 to |vocab|
      invariant r == Filter(vocab[..k], keep) + vocab[k..]
    {
      var candidate := vocab[k];
      var falsePositive := status == CORRECT && candidate[position] != letter;
      var falseNegative := status == INCORRECT && letter in candidate;
      if falseNegative {
        var pairs := Zip(guess, [status]);
        for t := 0 to |pairs|
          invariant falseNegative <==>
            forall u :: 0 <= u < t ==> !(pairs[u].1 == CORRECT && pairs[u].0 == letter)
        {
          var (otherLetter, otherStatus) := pairs[t];
          if otherStatus == CORRECT && otherLetter == letter {
            falseNegative := false;
          }
        }
      }
      var wrongMisplaced := status == MISPLACED && (letter !in candidate || candidate[position] == letter);
      if falsePositive || falseNegative || wrongMisplaced {
        FilterStepDrop(vocab, k, keep);
        r := RemoveWord(r, candidate);
      } else {
        FilterStepKeep(vocab, k, keep);
      }
    }
    assert vocab[..|vocab|] == vocab;
  }

  // Which exception the duplicate-letter loop applies: AsWritten, the source,
  // where zip(guess, status) sees (guess[0], status) only; Corrected, where an
  // incorrect mark is ignored when the same letter is marked correct or
  // misplaced elsewhere in the guess (sparing only correct ones is not
  // enough, as MinimalFixDropsTheAnswer shows).

  /** The exception for position `position` of a history entry. */
  predicate Exemption(v: Variant, guess: string, info: string, position: nat)
    requires position < |guess| && position < |info|
  {
    match v
    case AsWritten => ZipExempt(guess, info[position], guess[position])
    case Corrected =>
      exists j :: 0 <= j < |guess| && j < |info| && guess[j] == guess[position] && info[j] != INCORRECT
  }

  /** `vocab` filtered by the first `n` marks of one history entry. */
  function FilterPositions(vocab: seq<string>, guess: string, info: string, n: nat, v: Variant): (r: seq<string>)
    requires n <= |info| == |guess|
    ensures forall w :: w in r ==> w in vocab
    ensures NoDuplicates(vocab) ==> NoDuplicates(r)
  {
    if n == 0 then vocab
    else
      FilterWordsSpec(FilterPositions(vocab, guess, info, n - 1, v), guess, n - 1, info[n - 1],
                      Exemption(v, guess, info, n - 1))
  }

  /** One history entry applied: its guess is dropped, then each mark filters. */
  function AfterEntry(vocab: seq<string>, entry: Entry, v: Variant): seq<string>
    requires |entry.1| == |entry.0|
  {
    var pruned := if entry.0 in vocab then RemoveWord(vocab, entry.0) else vocab;
    FilterPositions(pruned, entry.0, entry.1, |entry.1|, v)
  }

  /** The words still possible after the whole history, in vocabulary order. */
  function Candidates(vocab: seq<string>, history: seq<Entry>, v: Variant): seq<string>
    requires WellFormed(history)
  {
    if history == [] then Filter(vocab, NoRepeat)
    else
      var init := history[..|history| - 1];
      assert WellFormed(init) by {
        assert forall k :: 0 <= k < |init| ==> init[k] == history[k];
      }
      AfterEntry(Candidates(vocab, init, v), history[|history| - 1], v)
  }

  /** The suggested next guess: the first remaining candidate, if any. */
  function Suggestion(vocab: seq<string>, history: seq<Entry>, v: Variant): Option<string>
    requires WellFormed(history)
  {
    var c := Candidates(vocab, history, v);
    if c == [] then None else Some(c[0])
  }

  /** Every word is WORD_LENGTH letters long. */
  predicate AllWordLength(words: seq<string>)
  {
    forall w :: w in words ==> |w| == WORD_LENGTH
  }

  /** Every guess and processed guess of the history is WORD_LENGTH long. */
  predicate HistoryWordLength(history: seq<Entry>)
  {
    WellFormed(history) && forall k :: 0 <= k < |history| ==> |history[k].0| == WORD_LENGTH
  }

  /** The inner loop of `guess_next`: filters by each mark of one entry. */
  method FilterByMarks(vocab: seq<string>, guess: string, info: string) returns (r: seq<string>)
    requires AllWordLength(vocab) && |info| == |guess| == WORD_LENGTH
    ensures r == FilterPositions(vocab, guess, info, |info|, AsWritten)
    ensures AllWordLength(r)
  {
    r := vocab;
    for i := 0 to |info|
      invariant r == FilterPositions(vocab, guess, info, i, AsWritten)
      invariant AllWordLength(r)
    {
      var next := FilterWords(r, guess, i, info[i]);
      assert Exemption(AsWritten, guess, info, i) == ZipExempt(guess, info[i], guess[i]);
      assert next == FilterPositions(vocab, guess, info, i + 1, AsWritten);
      r := next;
    }
  }

  /** Filters the vocabulary by the whole history and suggests its first word. */
  method GuessNext(vocab: seq<string>, history: seq<Entry>) returns (r: Option<string>)
    requires AllWordLength(vocab) && HistoryWordLength(history)
    ensures r == Suggestion(vocab, history, AsWritten)
    ensures r.None? <==> Candidates(vocab, history, AsWritten) == []
  {
    var current := RemoveDuplicatedLetters(vocab, history);
    for k := 0 to |history|
      invariant WellFormed(history[..k])
      invariant current == Candidates(vocab, history[..k], AsWritten)
      invariant AllWordLength(current)
    {
      var (guess, info) := history[k];
      CandidatesStep(vocab, history, k, AsWritten);
      ghost var before := current;
      if guess in current {
        current := RemoveWord(current, guess);
      }
      current := FilterByMarks(current, guess, info);
      assert current == AfterEntry(before, history[k], AsWritten);
    }
    assert history[..|history|] == history;
    if |current| == 0 {
      return None;
    }
    return Some(current[0]);
  }

  /** The candidates after `k + 1` entries are those after `k` entries with
      entry `k` applied. */
  lemma CandidatesStep(vocab: seq<string>, history: seq<Entry>, k: nat, v: Variant)
    requires k < |history| && WellFormed(history)
    ensures WellFormed(history[..k]) && WellFormed(history[..k + 1])
    ensures Candidates(vocab, history[..k + 1], v)
      == AfterEntry(Candidates(vocab, history[..k], v), history[k], v)
  {
    assert history[..k + 1][..k] == history[..k];
  }

  // ---------------------------------------------------------------------------
  // Properties of the suggestion
  // ---------------------------------------------------------------------------

  /** Candidates only shrink: every word of a later stage was in an earlier one. */
  lemma {:induction false} FilterPositionsMembers(vocab: seq<string>, guess: string, info: string, n: nat, v: Variant, w: string)
    requires n <= |info| == |guess|
    requires w in FilterPositions(vocab, guess, info, n, v)
    ensures w in vocab
    ensures forall i :: 0 <= i < n ==> Passes(w, guess, i, info[i], Exemption(v, guess, info, i))
  {
    forall i | 0 <= i < n
      ensures Passes(w, guess, i, info[i], Exemption(v, guess, info, i))
    {
      FilterPositionsPass(vocab, guess, info, n, v, w, i);
    }
  }

  lemma {:induction false} FilterPositionsPass(vocab: seq<string>, guess: string, info: string, n: nat, v: Variant, w: string, i: nat)
    requires i < n <= |info| == |guess|
    requires w in FilterPositions(vocab, guess, info, n, v)
    ensures Passes(w, guess, i, info[i], Exemption(v, guess, info, i))
    decreases n
  {
    var prev := FilterPositions(vocab, guess, info, n - 1, v);
    assert w in prev;
    if i < n - 1 {
      FilterPositionsPass(vocab, guess, info, n - 1, v, w, i);
    }
  }

  /** A candidate agrees with every mark of every history entry, has no repeated
      letter and comes from the vocabulary. */
  lemma {:induction false} CandidatesMembers(vocab: seq<string>, history: seq<Entry>, v: Variant, w: string)
    requires WellFormed(history)
    requires w in Candidates(vocab, history, v)
    ensures w in vocab && NoRepeat(w)
    ensures forall k, i :: 0 <= k < |history| && 0 <= i < |history[k].1| ==>
      Passes(w, history[k].0, i, history[k].1[i], Exemption(v, history[k].0, history[k].1, i))
  {
    CandidatesFromVocab(vocab, history, v, w);
    forall k, i | 0 <= k < |history| && 0 <= i < |history[k].1|
      ensures Passes(w, history[k].0, i, history[k].1[i], Exemption(v, history[k].0, history[k].1, i))
    {
      CandidatesPassEntry(vocab, history, v, w, k);
    }
  }

  lemma {:induction false} CandidatesFromVocab(vocab: seq<string>, history: seq<Entry>, v: Variant, w: string)
    requires WellFormed(history)
    requires w in Candidates(vocab, history, v)
    ensures w in vocab && NoRepeat(w)
  {
    if history != [] {
      var init := history[..|history| - 1];
      var last := history[|history| - 1];
      assert forall k :: 0 <= k < |init| ==> init[k] == history[k];
      var c := Candidates(vocab, init, v);
      assert w in c;
      CandidatesFromVocab(vocab, init, v, w);
    }
  }

  lemma {:induction false} CandidatesPassEntry(vocab: seq<string>, history: seq<Entry>, v: Variant, w: string, k: nat)
    requires WellFormed(history) && k < |history|
    requires w in Candidates(vocab, history, v)
    ensures forall i :: 0 <= i < |history[k].1| ==>
      Passes(w, history[k].0, i, history[k].1[i], Exemption(v, history[k].0, history[k].1, i))
  {
    var init := history[..|history| - 1];
    var last := history[|history| - 1];
    assert forall j :: 0 <= j < |init| ==> init[j] == history[j];
    var c := Candidates(vocab, init, v);
    var pruned := if last.0 in c then RemoveWord(c, last.0) else c;
    if k == |history| - 1 {
      FilterPositionsMembers(pruned, last.0, last.1, |last.1|, v, w);
    } else {
      FilterPositionsMembers(pruned, last.0, last.1, |last.1|, v, w);
      assert w in c;
      CandidatesPassEntry(vocab, init, v, w, k);
      assert init[k] == history[k];
    }
  }

  /** Candidates keep the vocabulary's freedom from repeats, and no guess of
      the history remains among them. */
  lemma {:induction false} CandidatesNotGuessed(vocab: seq<string>, history: seq<Entry>, v: Variant)
    requires WellFormed(history) && NoDuplicates(vocab)
    ensures NoDuplicates(Candidates(vocab, history, v))
    ensures forall k :: 0 <= k < |history| ==> history[k].0 !in Candidates(vocab, history, v)
  {
    if history == [] {
      FilterIsSubsequence(vocab, NoRepeat);
      SubsequenceNoDuplicates(Filter(vocab, NoRepeat), vocab);
    } else {
      var init := history[..|history| - 1];
      var last := history[|history| - 1];
      assert forall k :: 0 <= k < |init| ==> init[k] == history[k];
      CandidatesNotGuessed(vocab, init, v);
      var c := Candidates(vocab, init, v);
      var r := Candidates(vocab, history, v);
      assert r == AfterEntry(c, last, v);
      AfterEntryDropsGuess(c, last, v);
      forall k | 0 <= k < |history| - 1
        ensures history[k].0 !in r
      {
        assert history[k].0 == init[k].0;
      }
    }
  }

  /** Applying an entry to candidates without repeats keeps no copy of its
      guess, adds no word and keeps the result free of repeats. */
  lemma AfterEntryDropsGuess(c: seq<string>, entry: Entry, v: Variant)
    requires |entry.1| == |entry.0| && NoDuplicates(c)
    ensures entry.0 !in AfterEntry(c, entry, v)
    ensures forall w :: w in AfterEntry(c, entry, v) ==> w in c
    ensures NoDuplicates(AfterEntry(c, entry, v))
  {
    var pruned := if entry.0 in c then RemoveWord(c, entry.0) else c;
    if entry.0 in c {
      RemoveWordNoDuplicates(c, entry.0);
    }
    assert entry.0 !in pruned;
  }

  /** The suggestion is a word of the vocabulary without repeated letters that
      agrees with every mark seen so far and, when the vocabulary has no
      repeats, was not guessed before. */
  lemma SuggestionProperties(vocab: seq<string>, history: seq<Entry>, v: Variant)
    requires WellFormed(history)
    ensures Suggestion(vocab, history, v).Some? ==>
      var w := Suggestion(vocab, history, v).value;
      w in vocab && NoRepeat(w)
      && (forall k, i :: 0 <= k < |history| && 0 <= i < |history[k].1| ==>
            Passes(w, history[k].0, i, history[k].1[i], Exemption(v, history[k].0, history[k].1, i)))
      && (NoDuplicates(vocab) ==> forall k :: 0 <= k < |history| ==> w != history[k].0)
  {
    var c := Candidates(vocab, history, v);
    if c != [] {
      CandidatesMembers(vocab, history, v, c[0]);
      if NoDuplicates(vocab) {
        CandidatesNotGuessed(vocab, history, v);
      }
    }
  }

  /** Filtering by the history never adds words: there are no more
      candidates than vocabulary words. */
  lemma {:induction false} CandidatesShrink(vocab: seq<string>, history: seq<Entry>, v: Variant)
    requires WellFormed(history)
    ensures |Candidates(vocab, history, v)| <= |vocab|
  {
    if history != [] {
      var init := history[..|history| - 1];
      var last := history[|history| - 1];
      assert forall k :: 0 <= k < |init| ==> init[k] == history[k];
      CandidatesShrink(vocab, init, v);
      var c := Candidates(vocab, init, v);
      var pruned := if last.0 in c then RemoveWord(c, last.0) else c;
      FilterPositionsNoLonger(pruned, last.0, last.1, |last.1|, v);
    }
  }

  /** The marks of one entry keep at most the words they are given. */
  lemma {:induction false} FilterPositionsNoLonger(vocab: seq<string>, guess: string, info: string, n: nat, v: Variant)
    requires n <= |info| == |guess|
    ensures |FilterPositions(vocab, guess, info, n, v)| <= |vocab|
  {
    if n > 0 {
      FilterPositionsNoLonger(vocab, guess, info, n - 1, v);
      FilterPositionsShrinks(vocab, guess, info, n, v);
    }
  }

  /** Every word agrees with every mark of the history. */
  predicate AgreesWithHistory(words: seq<string>, history: seq<Entry>, v: Variant)
    requires WellFormed(history)
  {
    forall w, k, i :: w in words && 0 <= k < |history| && 0 <= i < |history[k].1| ==>
      Passes(w, history[k].0, i, history[k].1[i], Exemption(v, history[k].0, history[k].1, i))
  }

  /** Filtering the candidates again by the same history changes nothing,
      provided the vocabulary has no repeated word. */
  lemma CandidatesIdempotent(vocab: seq<string>, history: seq<Entry>, v: Variant)
    requires WellFormed(history) && NoDuplicates(vocab)
    ensures Candidates(Candidates(vocab, history, v), history, v) == Candidates(vocab, history, v)
  {
    var c := Candidates(vocab, history, v);
    forall w | w in c
      ensures NoRepeat(w)
      ensures forall k, i :: 0 <= k < |history| && 0 <= i < |history[k].1| ==>
        Passes(w, history[k].0, i, history[k].1[i], Exemption(v, history[k].0, history[k].1, i))
    {
      CandidatesMembers(vocab, history, v, w);
    }
    CandidatesNotGuessed(vocab, history, v);
    CandidatesOfSurvivors(c, history, v);
  }

  /** Words that have no repeated letter, agree with every mark and are no
      guess of the history all survive it, in place. */
  lemma {:induction false} CandidatesOfSurvivors(c: seq<string>, history: seq<Entry>, v: Variant)
    requires WellFormed(history)
    requires forall w :: w in c ==> NoRepeat(w)
    requires AgreesWithHistory(c, history, v)
    requires forall k :: 0 <= k < |history| ==> history[k].0 !in c
    ensures Candidates(c, history, v) == c
  {
    if history == [] {
      FilterKeepsAll(c, NoRepeat);
    } else {
      var init := history[..|history| - 1];
      var last := history[|history| - 1];
      assert forall k :: 0 <= k < |init| ==> init[k] == history[k];
      CandidatesOfSurvivors(c, init, v);
      assert last.0 !in c;
      FilterPositionsOfSurvivors(c, last.0, last.1, |last.1|, v);
    }
  }

  /** Every word agrees with the first `n` marks of an entry. */
  predicate AgreesWithMarks(words: seq<string>, guess: string, info: string, n: nat, v: Variant)
    requires n <= |info| == |guess|
  {
    forall w, i :: w in words && 0 <= i < n ==> Passes(w, guess, i, info[i], Exemption(v, guess, info, i))
  }

  /** Words that agree with the first `n` marks of an entry all survive them. */
  lemma {:induction false} FilterPositionsOfSurvivors(c: seq<string>, guess: string, info: string, n: nat, v: Variant)
    requires n <= |info| == |guess|
    requires AgreesWithMarks(c, guess, info, n, v)
    ensures FilterPositions(c, guess, info, n, v) == c
  {
    if n > 0 {
      var exempt := Exemption(v, guess, info, n - 1);
      forall w | w in c
        ensures Passes(w, guess, n - 1, info[n - 1], exempt)
      {
      }
      FilterPositionsOfSurvivors(c, guess, info, n - 1, v);
      FilterWordsOfSurvivors(c, guess, n - 1, info[n - 1], exempt);
    }
  }

  /** Words that all agree with one mark all survive it. */
  lemma FilterWordsOfSurvivors(c: seq<string>, guess: string, position: nat, status: char, exempt: bool)
    requires position < |guess|
    requires forall w :: w in c ==> Passes(w, guess, position, status, exempt)
    ensures FilterWordsSpec(c, guess, position, status, exempt) == c
  {
    FilterKeepsAll(c, w => Passes(w, guess, position, status, exempt));
  }

  /** With a repeated vocabulary word, filtering twice is not filtering once:
      the first pass removes one copy of the guessed word and keeps the
      other, which the second pass removes. */
  lemma CandidatesRepeatedWord()
    ensures var word := "abcdef";
      var history := [(word, Feedback(word, word))];
      WellFormed(history)
      && Candidates([word, word], history, AsWritten) == [word]
      && Candidates(Candidates([word, word], history, AsWritten), history, AsWritten) == []
  {
    var word := "abcdef";
    forall i | 0 <= i < |word|
      ensures word[i] !in word[i + 1..]
    {
    }
    RepeatedWordCandidates(word, AsWritten);
  }

  /** The general form of CandidatesRepeatedWord, for any word without a
      repeated letter guessed correctly. */
  lemma RepeatedWordCandidates(word: string, v: Variant)
    requires NoRepeat(word)
    ensures var history := [(word, Feedback(word, word))];
      WellFormed(history)
      && Candidates([word, word], history, v) == [word]
      && Candidates([word], history, v) == []
  {
    var info := Feedback(word, word);
    var history := [(word, info)];
    assert WellFormed(history);
    FilterKeepsAll([word, word], NoRepeat);
    FilterKeepsAll([word], NoRepeat);
    assert RemoveWord([word, word], word) == [word];
    assert RemoveWord([word], word) == [];
    forall i | 0 <= i < |info|
      ensures Passes(word, word, i, info[i], Exemption(v, word, info, i))
    {
      assert info[i] == CORRECT;
    }
    FilterPositionsOfSurvivors([word], word, info, |info|, v);
    FilterPositionsOfSurvivors([], word, info, |info|, v);
    assert Candidates([word, word], history, v) == AfterEntry([word, word], (word, info), v);
    assert Candidates([word], history, v) == AfterEntry([word], (word, info), v);
  }

  // ---------------------------------------------------------------------------
  // The duplicate-letter exception: the source as written and corrected
  // ---------------------------------------------------------------------------

  /** Each per-position filter keeps at most the words it is given. */
  lemma FilterPositionsShrinks(vocab: seq<string>, guess: string, info: string, n: nat, v: Variant)
    requires 0 < n <= |info| == |guess|
    ensures |FilterPositions(vocab, guess, info, n, v)| <= |FilterPositions(vocab, guess, info, n - 1, v)|
  {
  }

  /** With answer "axyzuv" and the guess "aaqrst", the second 'a' is marked
      incorrect (the first one is correct), and the filter as written then
      removes every word containing 'a', the answer included: the suggestion
      is None although the answer is in the vocabulary. */
  lemma AsWrittenDropsTheAnswer()
    ensures var answer := "axyzuv";
      var history := [("aaqrst", Feedback("aaqrst", answer))];
      WellFormed(history) && NoRepeat(answer)
      && Suggestion([answer], history, AsWritten) == None
  {
    var answer, guess := "axyzuv", "aaqrst";
    var info := Feedback(guess, answer);
    ExampleMarks();
    ExampleNoRepeat();
    assert guess !in [answer];
    SingleEntryCandidates([answer], guess, info, AsWritten);
    ExampleFilteredOut(info);
  }

  /** With a single entry whose guess is not a word of a vocabulary without
      repeated letters, the candidates are the words its marks let through. */
  lemma SingleEntryCandidates(vocab: seq<string>, guess: string, info: string, v: Variant)
    requires |info| == |guess| && Filter(vocab, NoRepeat) == vocab && guess !in vocab
    ensures WellFormed([(guess, info)])
    ensures Candidates(vocab, [(guess, info)], v) == FilterPositions(vocab, guess, info, |info|, v)
  {
    var history := [(guess, info)];
    var none: seq<Entry> := [];
    assert history[..0] == none && history[..1] == history;
    CandidatesStep(vocab, history, 0, v);
  }

  /** The marks of "aaqrst" against "axyzuv" start correct, incorrect. */
  lemma ExampleMarks()
    ensures var info := Feedback("aaqrst", "axyzuv");
      |info| == 6 && info[0] == CORRECT && info[1] == INCORRECT
  {
    var guess, answer := "aaqrst", "axyzuv";
    assert Mark(guess, answer, 0) == CORRECT;
    assert guess[1] in guess[..1];
    assert Mark(guess, answer, 1) == INCORRECT;
  }

  /** "axyzuv" has no repeated letter and survives the first filter. */
  lemma ExampleNoRepeat()
    ensures NoRepeat("axyzuv") && Filter(["axyzuv"], NoRepeat) == ["axyzuv"]
  {
    var answer := "axyzuv";
    forall i | 0 <= i < |answer|
      ensures answer[i] !in answer[i + 1..]
    {
    }
    var single: seq<string> := [answer];
    assert single[..0] == [];
  }

  /** Any entry for "aaqrst" marked correct, incorrect at its first two
      places removes "axyzuv" by its second mark. */
  lemma ExampleFilteredOut(info: string)
    requires |info| == 6 && info[0] == CORRECT && info[1] == INCORRECT
    ensures |FilterPositions(["axyzuv"], "aaqrst", info, 6, AsWritten)| == 0
  {
    var guess := "aaqrst";
    assert FilterPositions(["axyzuv"], guess, info, 1, AsWritten) == ["axyzuv"];
    assert Zip(guess, [INCORRECT])[0] == ('a', INCORRECT);
    assert !ZipExempt(guess, INCORRECT, 'a');
    assert |FilterPositions(["axyzuv"], guess, info, 2, AsWritten)| == 0;
    FilterPositionsShrinks(["axyzuv"], guess, info, 3, AsWritten);
    FilterPositionsShrinks(["axyzuv"], guess, info, 4, AsWritten);
    FilterPositionsShrinks(["axyzuv"], guess, info, 5, AsWritten);
    FilterPositionsShrinks(["axyzuv"], guess, info, 6, AsWritten);
  }

  /** The exemption that pairs the guess with the whole processed guess but,
      like the loop body, still only spares a letter marked correct
      elsewhere. */
  predicate CorrectOnlyExempt(guess: string, info: string, position: nat)
    requires position < |guess| == |info|
  {
    exists j :: 0 <= j < |guess| && guess[j] == guess[position] && info[j] == CORRECT
  }

  /** The marks of "llqrst" against "axlzuv" start misplaced, incorrect. */
  lemma MinimalFixMarks()
    ensures var info := Feedback("llqrst", "axlzuv");
      |info| == 6 && info[0] == MISPLACED && info[1] == INCORRECT
  {
    var guess, answer := "llqrst", "axlzuv";
    assert answer[2] == 'l' && answer[..2] == "ax";
    assert IndexOf(answer, 'l') == 2;
    assert Mark(guess, answer, 0) == MISPLACED;
    assert guess[1] in guess[..1];
    assert Mark(guess, answer, 1) == INCORRECT;
  }

  /** Pairing the guess with the whole processed guess is not enough on its
      own: with answer "axlzuv" and guess "llqrst" the first 'l' is misplaced
      and the second incorrect, no 'l' is correct, so the correct-only
      exemption does not fire and the filter on the second mark drops the
      answer. Hence the corrected rule also spares a letter marked
      misplaced, which keeps the answer in the vocabulary as guess_next
      expects. */
  lemma MinimalFixDropsTheAnswer()
    ensures var info := Feedback("llqrst", "axlzuv");
      |info| == 6 && !CorrectOnlyExempt("llqrst", info, 1)
      && "axlzuv" !in FilterWordsSpec(["axlzuv"], "llqrst", 1, info[1], CorrectOnlyExempt("llqrst", info, 1))
      && "axlzuv" in FilterWordsSpec(["axlzuv"], "llqrst", 1, info[1], Exemption(Corrected, "llqrst", info, 1))
  {
    var guess, answer := "llqrst", "axlzuv";
    var info := Feedback(guess, answer);
    MinimalFixMarks();
    forall j | 0 <= j < |guess| && guess[j] == guess[1]
      ensures info[j] != CORRECT
    {
      assert j == 0 || j == 1;
    }
    assert !Passes(answer, guess, 1, info[1], false);
    assert Exemption(Corrected, guess, info, 1) by {
      assert guess[0] == guess[1] && info[0] != INCORRECT;
    }
    assert Passes(answer, guess, 1, info[1], true);
    FilterWordsKeeps([answer], guess, 1, info[1], true, answer);
  }

  /** The answer agrees with every mark of a guess scored against it, once
      an incorrect mark is ignored for a letter the guess also marks correct
      or misplaced. */
  lemma AnswerAgreesWithMarks(guess: string, answer: string, i: nat)
    requires |guess| == |answer| && i < |guess|
    ensures Passes(answer, guess, i, Mark(guess, answer, i),
                   Exemption(Corrected, guess, Feedback(guess, answer), i))
  {
    var info := Feedback(guess, answer);
    var l := guess[i];
    if Mark(guess, answer, i) == INCORRECT && l in answer {
      var p := IndexOf(answer, l);
      if guess[p] == l {
        assert info[p] == CORRECT;
      } else {
        assert l in guess[..i];
        var j := IndexOf(guess, l);
        assert guess[..i][j] == l;
        assert info[j] != INCORRECT;
      }
    }
  }

  /** Applying one entry of the answer's own history keeps the answer. */
  lemma {:induction false} CorrectedFilterKeepsAnswer(vocab: seq<string>, guess: string, answer: string, n: nat)
    requires |guess| == |answer| && n <= |guess|
    requires answer in vocab
    ensures answer in FilterPositions(vocab, guess, Feedback(guess, answer), n, Corrected)
  {
    if n > 0 {
      CorrectedFilterKeepsAnswer(vocab, guess, answer, n - 1);
      AnswerAgreesWithMarks(guess, answer, n - 1);
      var info := Feedback(guess, answer);
      FilterWordsKeeps(FilterPositions(vocab, guess, info, n - 1, Corrected), guess, n - 1, info[n - 1],
                       Exemption(Corrected, guess, info, n - 1), answer);
    }
  }

  /** With the corrected exception the suggestion is sound: if every past
      guess was scored against the answer and was not the answer, and the
      answer is a vocabulary word without a repeated letter, the answer is
      still a candidate, so a suggestion is always made. */
  lemma {:induction false} CorrectedKeepsTheAnswer(vocab: seq<string>, history: seq<Entry>, answer: string)
    requires answer in vocab && NoRepeat(answer)
    requires forall k :: 0 <= k < |history| ==>
      |history[k].0| == |answer| && history[k].0 != answer
      && history[k].1 == Feedback(history[k].0, answer)
    ensures WellFormed(history)
    ensures answer in Candidates(vocab, history, Corrected)
    ensures Suggestion(vocab, history, Corrected).Some?
  {
    if history == [] {
      FilterContents(vocab, NoRepeat, answer);
    } else {
      var init := history[..|history| - 1];
      var last := history[|history| - 1];
      assert forall k :: 0 <= k < |init| ==> init[k] == history[k];
      CorrectedKeepsTheAnswer(vocab, init, answer);
      var c := Candidates(vocab, init, Corrected);
      var pruned := if last.0 in c then RemoveWord(c, last.0) else c;
      assert answer in pruned;
      CorrectedFilterKeepsAnswer(pruned, last.0, answer, |last.1|);
    }
  }
}
