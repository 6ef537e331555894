/** The second Wordle implementation (A1/a1.py): its own win test, word
    removal, scoring with in-place resolution of repeated letters, history
    update and the candidate collection of its next-guess helper. */
module WordleStudent {
  import opened Common
  import opened WordleSupport

  // ---------------------------------------------------------------------------
  // Winning, losing and removing a word
  // ---------------------------------------------------------------------------

  /** The guess wins only when both words are six letters long and equal. */
  function HasWon(guess: string, answer: string): (won: bool)
    ensures won <==> |guess| == WORD_LENGTH && |answer| == WORD_LENGTH && guess == answer
  {
    if |guess| == WORD_LENGTH && |answer| == WORD_LENGTH then
      if guess == answer then true else false
    else false
  }

  /** The round is lost after six guesses. */
  function HasLost(guessNumber: int): (lost: bool)
    ensures lost <==> guessNumber >= MAX_GUESSES
  {
    if guessNumber >= MAX_GUESSES then true else false
  }

  /** The words of `words` other than `word`, in order. */
  function Without(words: seq<string>, word: string): seq<string>
  {
    Filter(words, w => w != word)
  }

  /** Copies every element different from `word`. */
  method RemoveWord(words: seq<string>, word: string) returns (r: seq<string>)
    ensures r == Without(words, word)
  {
    r := [];
    for k := 0 to |words|
      invariant r == Without(words[..k], word)
    {
      assert words[..k + 1][..k] == words[..k];
      if words[k] != word {
        r := r + [words[k]];
      }
    }
    assert words[..|words|] == words;
  }

  /** Every occurrence of `word` goes, every other word keeps its number of
      occurrences, and the order is kept. */
  lemma WithoutProperties(words: seq<string>, word: string, x: string)
    ensures word !in Without(words, word)
    ensures x != word ==> multiset(Without(words, word))[x] == multiset(words)[x]
    ensures IsSubsequence(Without(words, word), words)
  {
    FilterContents(words, w => w != word, x);
    FilterContents(words, w => w != word, word);
    FilterIsSubsequence(words, w => w != word);
  }

  // ---------------------------------------------------------------------------
  // Scoring a guess
  // ---------------------------------------------------------------------------

  /** The first mark given to position `k`, before repeated letters are
      resolved: correct, misplaced when the letter occurs anywhere in the
      answer, incorrect otherwise. */
  function InitialMark(guess: string, answer: string, k: nat): char
    requires k < |guess| && k < |answer|
  {
    if guess[k] == answer[k] then CORRECT
    else if guess[k] in answer then MISPLACED
    else INCORRECT
  }

  /** The positions of `c` in `s`, in increasing order. */
  function Positions(s: string, c: char): (ps: seq<nat>)
    ensures forall u :: 0 <= u < |ps| ==> ps[u] < |s| && s[ps[u]] == c
    ensures forall u, v :: 0 <= u < v < |ps| ==> ps[u] < ps[v]
    ensures forall p :: 0 <= p < |s| && s[p] == c ==> p in ps
  {
    if s == [] then []
    else Positions(s[..|s| - 1], c) + (if s[|s| - 1] == c then [|s| - 1] else [])
  }

  /** Position `k` is where the guess first matches the answer with its letter. */
  predicate FirstCorrect(guess: string, answer: string, k: nat)
    requires k < |guess| <= |answer|
  {
    guess[k] == answer[k]
    && forall j :: 0 <= j < k && guess[j] == guess[k] ==> guess[j] != answer[j]
  }

  /** No position below `n` holds letter `c` where the answer has it too. */
  predicate NoCorrectBelow(guess: string, answer: string, c: char, n: nat)
    requires n <= |guess| <= |answer|
  {
    forall j :: 0 <= j < n && guess[j] == c ==> guess[j] != answer[j]
  }

  /** What every mark satisfies at all times: it is one of the three marks, a
      correct mark sits on a match, a misplaced mark on a letter of the answer
      that does not match there, and the first match of each letter is
      marked correct. */
  predicate WeakAt(guess: string, answer: string, marks: string, k: nat)
    requires k < |marks| <= |guess| <= |answer|
  {
    IsMark(marks[k])
    && (marks[k] == CORRECT ==> guess[k] == answer[k])
    && (marks[k] == MISPLACED ==> guess[k] != answer[k] && guess[k] in answer)
    && (FirstCorrect(guess, answer, k) ==> marks[k] == CORRECT)
  }

  /** What a mark satisfies once its letter is resolved: in addition, a
      misplaced mark means the letter matches nowhere, and a correct mark is
      the only correct one of its letter. */
  predicate FullAt(guess: string, answer: string, marks: string, k: nat)
    requires k < |marks| <= |guess| <= |answer|
  {
    WeakAt(guess, answer, marks, k)
    && (marks[k] == MISPLACED ==> NoCorrectBelow(guess, answer, guess[k], |marks|))
    && (marks[k] == CORRECT ==>
          forall j :: 0 <= j < |marks| && j != k && guess[j] == guess[k] ==> marks[j] != CORRECT)
  }

  /** Marks of other letters do not affect whether a mark is resolved. */
  lemma FullAtFrame(guess: string, answer: string, marks: string, marks': string, k: nat)
    requires k < |marks| == |marks'| <= |guess| <= |answer|
    requires forall j :: 0 <= j < |marks| && guess[j] == guess[k] ==> marks'[j] == marks[j]
    ensures FullAt(guess, answer, marks, k) ==> FullAt(guess, answer, marks', k)
    ensures WeakAt(guess, answer, marks, k) ==> WeakAt(guess, answer, marks', k)
  {
  }

  /** The dictionary of letter positions after `n` letters, with the order in
      which its keys were inserted. */
  predicate DictOk(guess: string, n: nat, positions: map<char, seq<nat>>, keys: seq<char>)
    requires n <= |guess|
  {
    NoDuplicates(keys)
    && (forall x :: x in positions <==> x in keys)
    && (forall x :: x in positions <==> x in guess[..n])
    && (forall x :: x in positions ==> positions[x] == Positions(guess[..n], x))
  }

  /** The least `u` with a match at `ps[u]`, or `|ps|` when there is none. */
  function FirstMatch(guess: string, answer: string, ps: seq<nat>): (u: nat)
    requires forall u :: 0 <= u < |ps| ==> ps[u] < |guess| && ps[u] < |answer|
    ensures u <= |ps|
    ensures u < |ps| ==> guess[ps[u]] == answer[ps[u]]
    ensures forall u' :: 0 <= u' < u ==> guess[ps[u']] != answer[ps[u']]
  {
    if ps == [] then 0
    else if guess[ps[0]] == answer[ps[0]] then 0
    else 1 + FirstMatch(guess, answer, ps[1..])
  }

  /** Two different values in a sequence make its set of values larger than one. */
  lemma TwoValues(s: seq<char>, x: char, y: char)
    requires x in s && y in s && x != y
    ensures |set z | z in s| != 1
  {
    var values := set z | z in s;
    var rest := values - {x, y};
    assert values == rest + {x, y};
    assert rest * {x, y} == {};
    assert |{x, y}| == 2;
  }

  // ---------------------------------------------------------------------------
  // The scoring loop as functions of its inputs
  // ---------------------------------------------------------------------------

  /** Every position listed in `ps` set to `m`. */
  function Marked(marks: string, ps: seq<nat>, m: char): (r: string)
    ensures |r| == |marks|
  {
    seq(|marks|, k requires 0 <= k < |marks| => if k in ps then m else marks[k])
  }

  /** The current marks of the positions in `ps`, in order. */
  function Snapshot(marks: string, ps: seq<nat>): (t: seq<char>)
    requires forall u :: 0 <= u < |ps| ==> ps[u] < |marks|
    ensures |t| == |ps|
  {
    seq(|ps|, u requires 0 <= u < |ps| => marks[ps[u]])
  }

  /** Whether a misplaced mark on the letter keeps only its first position
      misplaced. As written, this is decided by the marks collected so far in
      `temp`, of this letter and of every repeated letter handled before it at
      this location, all being the same; corrected, by this letter having no
      correct mark in `letter`. */
  predicate KeepFirst(v: Variant, temp: seq<char>, letter: seq<char>)
  {
    match v
    case AsWritten => |set x | x in temp| == 1
    case Corrected => CORRECT !in letter
  }

  /** The pass over the positions `ps` of one letter, from step `u` on: a
      correct mark makes every other position incorrect; otherwise, when
      `keepFirst` holds, a misplaced mark makes every position incorrect but
      the first, which becomes misplaced. */
  function ResolvePass(r: string, ps: seq<nat>, keepFirst: bool, u: nat): (r': string)
    requires forall t :: 0 <= t < |ps| ==> ps[t] < |r|
    ensures |r'| == |r|
    decreases |ps| - u
  {
    if u >= |ps| then r
    else ResolvePass(PassStep(r, ps, keepFirst, u), ps, keepFirst, u + 1)
  }

  /** One step of that pass, decided by the mark at `ps[u]`. */
  function PassStep(r: string, ps: seq<nat>, keepFirst: bool, u: nat): (r': string)
    requires u < |ps| && forall t :: 0 <= t < |ps| ==> ps[t] < |r|
    ensures |r'| == |r|
  {
    var index := ps[u];
    if r[index] == CORRECT then Marked(r, ps, INCORRECT)[index := CORRECT]
    else if keepFirst && r[index] == MISPLACED then Marked(r, ps, INCORRECT)[ps[0] := MISPLACED]
    else r
  }

  /** Every position list of the dictionary lies below `n`. */
  predicate InRange(positions: map<char, seq<nat>>, n: nat)
  {
    forall x, t :: x in positions && 0 <= t < |positions[x]| ==> positions[x][t] < n
  }

  /** The pass over the dictionary keys from `keys[j]` on, with `temp` the
      marks collected so far at this location. */
  function ResolveKeys(r: string, positions: map<char, seq<nat>>, keys: seq<char>,
                       temp: seq<char>, v: Variant, j: nat): (r': string)
    requires InRange(positions, |r|) && forall x :: x in keys ==> x in positions
    ensures |r'| == |r|
    decreases |keys| - j
  {
    if j >= |keys| then r
    else
      var ps := positions[keys[j]];
      if |ps| > 1 then
        var letter := Snapshot(r, ps);
        var temp' := temp + letter;
        ResolveKeys(ResolvePass(r, ps, KeepFirst(v, temp', letter), 0), positions, keys, temp', v, j + 1)
      else
        ResolveKeys(r, positions, keys, temp, v, j + 1)
  }

  /** The marks, the dictionary of letter positions and its keys in
      insertion order, after some letters of the guess. */
  datatype ScoreState = ScoreState(marks: string, positions: map<char, seq<nat>>, keys: seq<char>)

  /** The state after the first `n` letters of the guess: each letter gets its
      first mark, its position is recorded, then the whole dictionary is
      passed over. */
  function ScoreUpTo(guess: string, answer: string, v: Variant, n: nat): (s: ScoreState)
    requires n <= |guess| <= |answer|
    ensures |s.marks| == n && InRange(s.positions, n)
    ensures forall x :: x in s.keys ==> x in s.positions
  {
    if n == 0 then ScoreState([], map[], [])
    else
      var t := Record(guess, answer, ScoreUpTo(guess, answer, v, n - 1));
      ScoreState(ResolveKeys(t.marks, t.positions, t.keys, [], v, 0), t.positions, t.keys)
  }

  /** The next letter of the guess gets its first mark and its position is
      recorded, under a new key when the letter is new. */
  function Record(guess: string, answer: string, s: ScoreState): (t: ScoreState)
    requires |s.marks| < |guess| <= |answer| && InRange(s.positions, |s.marks|)
    requires forall x :: x in s.keys ==> x in s.positions
    ensures |t.marks| == |s.marks| + 1 && InRange(t.positions, |t.marks|)
    ensures forall x :: x in t.keys ==> x in t.positions
  {
    var n := |s.marks|;
    var c := guess[n];
    var marks := s.marks + [InitialMark(guess, answer, n)];
    var positions := if c !in s.positions then s.positions[c := [n]] else s.positions[c := s.positions[c] + [n]];
    var keys := if c !in s.positions then s.keys + [c] else s.keys;
    ScoreState(marks, positions, keys)
  }

  /** The processed guess: the marks after every letter when both words have
      six letters, nothing otherwise. */
  function Scored(guess: string, answer: string, v: Variant): Option<string>
  {
    if |guess| == WORD_LENGTH && |answer| == WORD_LENGTH then
      Some(ScoreUpTo(guess, answer, v, |guess|).marks)
    else None
  }

  /** Sets every position listed in `ps` to `m`. */
  method MarkAll(marks: string, ps: seq<nat>, m: char) returns (r: string)
    requires forall u :: 0 <= u < |ps| ==> ps[u] < |marks|
    ensures |r| == |marks|
    ensures forall k :: 0 <= k < |marks| ==> r[k] == if k in ps then m else marks[k]
    ensures r == Marked(marks, ps, m)
  {
    r := marks;
    for t := 0 to |ps|
      invariant |r| == |marks|
      invariant forall k :: 0 <= k < |marks| ==> r[k] == if k in ps[..t] then m else marks[k]
    {
      assert forall k :: k in ps[..t + 1] <==> k in ps[..t] || k == ps[t];
      r := r[ps[t] := m];
    }
    assert ps[..|ps|] == ps;
  }

  /** One repeated letter with positions `ps`: its current marks are added
      to `temp`; then a correct mark makes every other position of the letter
      incorrect, and, when every mark collected in `temp` is the same, a
      misplaced mark makes the first position misplaced and the others
      incorrect. */
  method ResolveLetter(marks: string, ps: seq<nat>, temp: seq<char>, v: Variant)
    returns (r: string, temp': seq<char>)
    requires forall t :: 0 <= t < |ps| ==> ps[t] < |marks|
    ensures temp' == temp + Snapshot(marks, ps)
    ensures r == ResolvePass(marks, ps, KeepFirst(v, temp', Snapshot(marks, ps)), 0)
  {
    temp' := Collect(marks, ps, temp);
    var keepFirst := if v == AsWritten then |set x | x in temp'| == 1 else CORRECT !in temp'[|temp|..];
    assert temp'[|temp|..] == Snapshot(marks, ps);
    assert keepFirst == KeepFirst(v, temp', Snapshot(marks, ps));
    r := marks;
    for u := 0 to |ps|
      invariant |r| == |marks|
      invariant ResolvePass(r, ps, keepFirst, u) == ResolvePass(marks, ps, keepFirst, 0)
    {
      var index := ps[u];
      if r[index] == CORRECT {
        var correctMark := index;
        r := MarkAll(r, ps, INCORRECT);
        r := r[correctMark := CORRECT];
      } else if keepFirst && r[index] == MISPLACED {
        r := MarkAll(r, ps, INCORRECT);
        r := r[ps[0] := MISPLACED];
      }
    }
  }

  /** The pass over a repeated letter `d` resolves it: every other letter
      keeps its marks and every mark of `d` is resolved. */
  lemma LetterPassResolves(guess: string, answer: string, marks: string, ps: seq<nat>, d: char,
                           temp: seq<char>, v: Variant)
    requires |marks| <= |guess| == |answer|
    requires ps == Positions(guess[..|marks|], d) && |ps| > 1
    requires forall k :: 0 <= k < |marks| && guess[k] == d ==> WeakAt(guess, answer, marks, k)
    ensures var temp' := temp + Snapshot(marks, ps);
      var r := ResolvePass(marks, ps, KeepFirst(v, temp', Snapshot(marks, ps)), 0);
      (forall k :: 0 <= k < |marks| && guess[k] != d ==> r[k] == marks[k])
      && (forall k :: 0 <= k < |marks| && guess[k] == d ==> FullAt(guess, answer, r, k))
  {
    var temp' := temp + Snapshot(marks, ps);
    var keepFirst := KeepFirst(v, temp', Snapshot(marks, ps));
    var tf := LetterContext(guess, answer, marks, ps, d, temp, temp', v);
    ResolvePassResolves(guess, answer, marks, marks, ps, d, keepFirst, 0, tf);
    LetterResolved(guess, answer, marks, ResolvePass(marks, ps, keepFirst, 0), ps, d, keepFirst, tf);
  }

  /** Before the pass over a letter, its context holds, with `tf` the step of
      its first match. */
  lemma LetterContext(guess: string, answer: string, marks: string, ps: seq<nat>, d: char,
                      temp: seq<char>, temp': seq<char>, v: Variant) returns (tf: nat)
    requires |marks| <= |guess| == |answer|
    requires ps == Positions(guess[..|marks|], d) && |ps| > 1
    requires forall k :: 0 <= k < |marks| && guess[k] == d ==> WeakAt(guess, answer, marks, k)
    requires temp' == temp + Snapshot(marks, ps)
    ensures PassContext(guess, answer, marks, ps, d, KeepFirst(v, temp', Snapshot(marks, ps)), tf)
  {
    var n := |marks|;
    LetterPositions(guess, n, d, ps);
    tf := FirstMatch(guess, answer, ps);
    if tf < |ps| {
      FirstMatchIsFirstCorrect(guess, answer, ps, d, n, tf);
      assert marks[ps[tf]] == CORRECT;
      forall t | 0 <= t < tf && marks[ps[t]] == MISPLACED
        ensures !KeepFirst(v, temp', Snapshot(marks, ps))
      {
        assert temp'[|temp| + t] == MISPLACED && temp'[|temp| + tf] == CORRECT;
        if v == AsWritten {
          TwoValues(temp', MISPLACED, CORRECT);
        } else {
          assert Snapshot(marks, ps)[tf] == CORRECT;
        }
      }
    }
  }

  /** After the whole pass, other letters keep their marks and every mark of
      the letter is resolved. */
  lemma LetterResolved(guess: string, answer: string, marks: string, r: string, ps: seq<nat>, d: char,
                       keepFirst: bool, tf: nat)
    requires |r| == |marks| <= |guess| == |answer|
    requires PassContext(guess, answer, marks, ps, d, keepFirst, tf)
    requires PassState(guess, answer, marks, r, ps, d, |ps|, tf)
    ensures forall k :: 0 <= k < |marks| && guess[k] != d ==> r[k] == marks[k]
    ensures forall k :: 0 <= k < |marks| && guess[k] == d ==> FullAt(guess, answer, r, k)
  {
    forall k | 0 <= k < |marks| && guess[k] == d
      ensures FullAt(guess, answer, r, k)
    {
      ResolvedIsFull(guess, answer, marks, r, ps, d, tf, k);
    }
  }

  /** What holds of one letter `d` with positions `ps` throughout its pass,
      with `tf` the step of its first match (`|ps|` when it has none): its
      first match is marked correct, and a misplaced mark before it rules out
      keeping the first position misplaced. */
  predicate PassContext(guess: string, answer: string, marks: string, ps: seq<nat>, d: char,
                        keepFirst: bool, tf: nat)
    requires |marks| <= |guess| == |answer|
  {
    ps == Positions(guess[..|marks|], d) && |ps| > 0
    && (forall k :: 0 <= k < |marks| ==> (guess[k] == d <==> k in ps))
    && (forall k :: 0 <= k < |marks| && guess[k] == d ==> WeakAt(guess, answer, marks, k))
    && tf == FirstMatch(guess, answer, ps)
    && (tf < |ps| ==> marks[ps[tf]] == CORRECT)
    && (tf < |ps| && keepFirst ==> forall t :: 0 <= t < tf ==> marks[ps[t]] != MISPLACED)
  }

  /** The marks `r` after `u` steps of the pass: other letters are untouched;
      up to the first match nothing changes, after it the first match is the
      only mark of the letter that is not incorrect; without a match the
      letter is misplaced or incorrect everywhere. */
  predicate PassState(guess: string, answer: string, marks: string, r: string, ps: seq<nat>, d: char,
                      u: nat, tf: nat)
    requires |r| == |marks| <= |guess| == |answer| && tf <= |ps|
  {
    (forall k :: 0 <= k < |marks| && guess[k] != d ==> r[k] == marks[k])
    && (tf < |ps| && u <= tf ==> r == marks)
    && (tf < |ps| && u > tf ==> forall k :: 0 <= k < |marks| && guess[k] == d ==>
          r[k] == if k == ps[tf] then CORRECT else INCORRECT)
    && (tf == |ps| ==> forall k :: 0 <= k < |marks| && guess[k] == d ==>
          IsMark(r[k]) && r[k] != CORRECT && (r[k] == MISPLACED ==> d in answer))
  }

  /** One step of the pass keeps its state description. */
  lemma PassStepKeeps(guess: string, answer: string, marks: string, r: string, ps: seq<nat>, d: char,
                      keepFirst: bool, u: nat, tf: nat)
    requires |r| == |marks| <= |guess| == |answer|
    requires PassContext(guess, answer, marks, ps, d, keepFirst, tf) && u < |ps|
    requires PassState(guess, answer, marks, r, ps, d, u, tf)
    ensures PassState(guess, answer, marks, PassStep(r, ps, keepFirst, u), ps, d, u + 1, tf)
  {
    var index := ps[u];
    var next := PassStep(r, ps, keepFirst, u);
    if tf < |ps| {
      if u < tf {
        assert guess[index] != answer[index];
        assert next == r;
      } else if u == tf {
        assert next == Marked(r, ps, INCORRECT)[index := CORRECT];
      } else {
        assert index != ps[tf];
        assert next == r;
      }
    }
  }

  /** The whole pass from step `u` on ends in the state after all steps. */
  lemma {:induction false} ResolvePassResolves(guess: string, answer: string, marks: string, r: string,
                                               ps: seq<nat>, d: char, keepFirst: bool, u: nat, tf: nat)
    requires |r| == |marks| <= |guess| == |answer|
    requires PassContext(guess, answer, marks, ps, d, keepFirst, tf) && u <= |ps|
    requires PassState(guess, answer, marks, r, ps, d, u, tf)
    ensures PassState(guess, answer, marks, ResolvePass(r, ps, keepFirst, u), ps, d, |ps|, tf)
    decreases |ps| - u
  {
    if u < |ps| {
      PassStepKeeps(guess, answer, marks, r, ps, d, keepFirst, u, tf);
      ResolvePassResolves(guess, answer, marks, PassStep(r, ps, keepFirst, u), ps, d, keepFirst, u + 1, tf);
    }
  }

  /** Appends the current marks of the positions in `ps` to `temp`. */
  method Collect(marks: string, ps: seq<nat>, temp: seq<char>) returns (temp': seq<char>)
    requires forall u :: 0 <= u < |ps| ==> ps[u] < |marks|
    ensures temp' == temp + Snapshot(marks, ps)
  {
    temp' := temp;
    for u := 0 to |ps|
      invariant temp' == temp + Snapshot(marks, ps)[..u]
    {
      assert Snapshot(marks, ps)[..u + 1] == Snapshot(marks, ps)[..u] + [marks[ps[u]]];
      temp' := temp' + [marks[ps[u]]];
    }
    assert Snapshot(marks, ps)[..|ps|] == Snapshot(marks, ps);
  }

  /** After the pass over one letter, each of its positions is resolved. */
  lemma ResolvedIsFull(guess: string, answer: string, marks: string, r: string, ps: seq<nat>,
                       d: char, tf: nat, k: nat)
    requires |r| == |marks| <= |guess| == |answer|
    requires ps == Positions(guess[..|marks|], d)
    requires forall k :: 0 <= k < |marks| ==> (guess[k] == d <==> k in ps)
    requires tf == FirstMatch(guess, answer, ps)
    requires forall k :: 0 <= k < |marks| && guess[k] == d ==> WeakAt(guess, answer, marks, k)
    requires tf < |ps| ==> forall k :: 0 <= k < |marks| && guess[k] == d ==>
      r[k] == if k == ps[tf] then CORRECT else INCORRECT
    requires tf == |ps| ==> forall k :: 0 <= k < |marks| && guess[k] == d ==>
      IsMark(r[k]) && r[k] != CORRECT && (r[k] == MISPLACED ==> d in answer)
    requires k < |marks| && guess[k] == d
    ensures FullAt(guess, answer, r, k)
  {
    assert k in ps;
    var u :| 0 <= u < |ps| && ps[u] == k;
    if tf < |ps| {
      FirstMatchIsFirstCorrect(guess, answer, ps, d, |marks|, tf);
      if k != ps[tf] {
        assert u < tf ==> guess[k] != answer[k];
        assert u > tf ==> ps[tf] < k;
      }
    } else {
      assert guess[k] != answer[k];
      forall j | 0 <= j < |marks| && guess[j] == d
        ensures guess[j] != answer[j]
      {
        assert j in ps;
      }
    }
  }

  /** Below `n`, the positions of `d` are exactly the elements of `ps`. */
  lemma LetterPositions(guess: string, n: nat, d: char, ps: seq<nat>)
    requires n <= |guess| && ps == Positions(guess[..n], d)
    ensures forall u :: 0 <= u < |ps| ==> ps[u] < n && guess[ps[u]] == d
    ensures forall k :: 0 <= k < n ==> (guess[k] == d <==> k in ps)
  {
    forall k | 0 <= k < n && guess[k] == d
      ensures k in ps
    {
      assert guess[..n][k] == d;
    }
  }

  /** The first match among a letter's positions is that letter's first
      correct position, so it carries the correct mark. */
  lemma FirstMatchIsFirstCorrect(guess: string, answer: string, ps: seq<nat>, d: char, n: nat, tf: nat)
    requires n <= |guess| == |answer|
    requires ps == Positions(guess[..n], d)
    requires forall k :: 0 <= k < n ==> (guess[k] == d <==> k in ps)
    requires tf < |ps| && tf == FirstMatch(guess, answer, ps)
    ensures FirstCorrect(guess, answer, ps[tf])
  {
    forall j | 0 <= j < ps[tf] && guess[j] == guess[ps[tf]]
      ensures guess[j] != answer[j]
    {
      assert j in ps;
      var u :| 0 <= u < |ps| && ps[u] == j;
    }
  }

  /** The dictionary's positions lie below `n` and every key is in it. */
  lemma DictInRange(guess: string, n: nat, positions: map<char, seq<nat>>, keys: seq<char>)
    requires n <= |guess| && DictOk(guess, n, positions, keys)
    ensures InRange(positions, n) && forall x :: x in keys ==> x in positions
  {
  }

  /** The marks during the pass over the dictionary, before key `keys[j]`:
      all weakly valid, and all resolved except those of `c` when `c` still
      lies ahead and has several positions. */
  predicate KeysState(guess: string, answer: string, r: string, positions: map<char, seq<nat>>,
                      keys: seq<char>, c: char, j: nat)
    requires |r| <= |guess| == |answer| && j <= |keys|
  {
    (forall k :: 0 <= k < |r| ==> WeakAt(guess, answer, r, k))
    && forall k :: 0 <= k < |r| ==>
         FullAt(guess, answer, r, k)
         || (guess[k] == c && c in positions && |positions[c]| > 1 && c in keys[j..])
  }

  /** One key of the dictionary pass, in terms of its result. */
  lemma ResolveKeysStep(r0: string, positions: map<char, seq<nat>>, keys: seq<char>, temp0: seq<char>,
                        v: Variant, j: nat, r: string, temp: seq<char>)
    requires InRange(positions, |r0|) && (forall x :: x in keys ==> x in positions) && j < |keys|
    requires |r| == |r0|
    requires var ps := positions[keys[j]];
      if |ps| > 1 then
        temp == temp0 + Snapshot(r0, ps) && r == ResolvePass(r0, ps, KeepFirst(v, temp, Snapshot(r0, ps)), 0)
      else
        temp == temp0 && r == r0
    ensures ResolveKeys(r0, positions, keys, temp0, v, j) == ResolveKeys(r, positions, keys, temp, v, j + 1)
  {
  }

  /** A key with several positions may be resolved. */
  lemma KeyReady(guess: string, answer: string, r: string, positions: map<char, seq<nat>>,
                 keys: seq<char>, c: char, j: nat)
    requires |r| <= |guess| == |answer| && j < |keys|
    requires DictOk(guess, |r|, positions, keys)
    requires KeysState(guess, answer, r, positions, keys, c, j)
    ensures positions[keys[j]] == Positions(guess[..|r|], keys[j])
    ensures forall k :: 0 <= k < |r| && guess[k] == keys[j] ==> WeakAt(guess, answer, r, k)
  {
  }

  /** Resolving key `keys[j]`, or skipping it, moves the state to the next key. */
  lemma KeyStepKeeps(guess: string, answer: string, r0: string, r: string,
                     positions: map<char, seq<nat>>, keys: seq<char>, c: char, j: nat)
    requires |r| == |r0| <= |guess| == |answer| && j < |keys|
    requires DictOk(guess, |r0|, positions, keys)
    requires KeysState(guess, answer, r0, positions, keys, c, j)
    requires |positions[keys[j]]| <= 1 ==> r == r0
    requires |positions[keys[j]]| > 1 ==>
      (forall k :: 0 <= k < |r0| && guess[k] != keys[j] ==> r[k] == r0[k])
      && (forall k :: 0 <= k < |r0| && guess[k] == keys[j] ==> FullAt(guess, answer, r, k))
    ensures KeysState(guess, answer, r, positions, keys, c, j + 1)
  {
    var key := keys[j];
    assert forall x :: x in keys[j..] && x != key ==> x in keys[j + 1..];
    if |positions[key]| > 1 {
      forall k | 0 <= k < |r0| && guess[k] != key
        ensures WeakAt(guess, answer, r, k)
        ensures FullAt(guess, answer, r0, k) ==> FullAt(guess, answer, r, k)
      {
        FullAtFrame(guess, answer, r0, r, k);
      }
    } else if c == key && c in positions && |positions[c]| > 1 {
      assert false;
    }
  }

  /** The pass over the dictionary: every key with more than one position is
      resolved, in insertion order, sharing one `temp` list. */
  method ResolveDuplicates(marks: string, positions: map<char, seq<nat>>, keys: seq<char>, v: Variant)
    returns (r: string)
    requires InRange(positions, |marks|) && forall x :: x in keys ==> x in positions
    ensures r == ResolveKeys(marks, positions, keys, [], v, 0)
  {
    r := marks;
    var temp: seq<char> := [];
    for j := 0 to |keys|
      invariant |r| == |marks|
      invariant ResolveKeys(r, positions, keys, temp, v, j) == ResolveKeys(marks, positions, keys, [], v, 0)
    {
      var key := keys[j];
      ghost var r0, temp0 := r, temp;
      if |positions[key]| > 1 {
        r, temp := ResolveLetter(r, positions[key], temp, v);
      }
      ResolveKeysStep(r0, positions, keys, temp0, v, j, r, temp);
    }
  }

  /** Every mark is resolved. */
  predicate AllFull(guess: string, answer: string, r: string)
    requires |r| <= |guess| == |answer|
  {
    forall k :: 0 <= k < |r| ==> FullAt(guess, answer, r, k)
  }

  /** The pass over the dictionary from key `keys[j]` on resolves every mark
      when only the marks of `c`, with several positions and still ahead,
      are unresolved. */
  lemma {:induction false} KeysResolve(guess: string, answer: string, r: string,
                                       positions: map<char, seq<nat>>, keys: seq<char>,
                                       temp: seq<char>, v: Variant, c: char, j: nat)
    requires |r| <= |guess| == |answer| && j <= |keys|
    requires DictOk(guess, |r|, positions, keys)
    requires KeysState(guess, answer, r, positions, keys, c, j)
    ensures InRange(positions, |r|) && (forall x :: x in keys ==> x in positions)
      && AllFull(guess, answer, ResolveKeys(r, positions, keys, temp, v, j))
    decreases |keys| - j
  {
    DictInRange(guess, |r|, positions, keys);
    if j == |keys| {
      assert keys[j..] == [];
    } else {
      var r', temp' := KeyStep(guess, answer, r, positions, keys, temp, v, c, j);
      KeysResolve(guess, answer, r', positions, keys, temp', v, c, j + 1);
    }
  }

  /** One key of the dictionary pass keeps its state description. */
  lemma KeyStep(guess: string, answer: string, r: string, positions: map<char, seq<nat>>, keys: seq<char>,
                temp: seq<char>, v: Variant, c: char, j: nat)
    returns (r': string, temp': seq<char>)
    requires |r| <= |guess| == |answer| && j < |keys|
    requires DictOk(guess, |r|, positions, keys)
    requires KeysState(guess, answer, r, positions, keys, c, j)
    ensures |r'| == |r| && KeysState(guess, answer, r', positions, keys, c, j + 1)
    ensures InRange(positions, |r|) && (forall x :: x in keys ==> x in positions)
      && ResolveKeys(r, positions, keys, temp, v, j) == ResolveKeys(r', positions, keys, temp', v, j + 1)
    ensures var ps := positions[keys[j]];
      if |ps| > 1 then
        temp' == temp + Snapshot(r, ps) && r' == ResolvePass(r, ps, KeepFirst(v, temp', Snapshot(r, ps)), 0)
      else
        r' == r
  {
    DictInRange(guess, |r|, positions, keys);
    var ps := positions[keys[j]];
    if |ps| > 1 {
      KeyReady(guess, answer, r, positions, keys, c, j);
      LetterPassResolves(guess, answer, r, ps, keys[j], temp, v);
      temp' := temp + Snapshot(r, ps);
      r' := ResolvePass(r, ps, KeepFirst(v, temp', Snapshot(r, ps)), 0);
    } else {
      r', temp' := r, temp;
    }
    KeyStepKeeps(guess, answer, r, r', positions, keys, c, j);
    ResolveKeysStep(r, positions, keys, temp, v, j, r', temp');
  }

  /** Appending the first mark of the next letter keeps every mark weakly
      valid, and every mark resolved except those of that letter when it
      already occurred. */
  lemma AppendMark(guess: string, answer: string, marks: string)
    requires |marks| < |guess| == |answer|
    requires forall k :: 0 <= k < |marks| ==> FullAt(guess, answer, marks, k)
    ensures var n := |marks|;
      var marks' := marks + [InitialMark(guess, answer, n)];
      forall k :: 0 <= k <= n ==>
        WeakAt(guess, answer, marks', k)
        && (FullAt(guess, answer, marks', k) || (guess[k] == guess[n] && guess[n] in guess[..n]))
  {
    var n := |marks|;
    var marks' := marks + [InitialMark(guess, answer, n)];
    assert forall j :: 0 <= j < n ==> marks'[j] == marks[j];
    forall k | 0 <= k < n
      ensures WeakAt(guess, answer, marks', k)
      ensures FullAt(guess, answer, marks', k) || (guess[k] == guess[n] && guess[n] in guess[..n])
    {
      assert FullAt(guess, answer, marks, k);
      if guess[k] == guess[n] {
        assert guess[..n][k] == guess[n];
      }
    }
    if guess[n] !in guess[..n] {
      assert forall j :: 0 <= j < n ==> guess[..n][j] == guess[j];
      assert forall j :: 0 <= j < n ==> guess[j] != guess[n];
      assert FullAt(guess, answer, marks', n);
    }
  }

  /** One more letter adds its own position to its list and leaves the
      other lists alone. */
  lemma PositionsSnoc(guess: string, n: nat, x: char)
    requires n < |guess|
    ensures Positions(guess[..n + 1], x) == Positions(guess[..n], x) + (if x == guess[n] then [n] else [])
  {
    assert guess[..n + 1][..n] == guess[..n];
  }

  /** A letter that does not occur has no positions. */
  lemma PositionsAbsent(s: string, x: char)
    requires x !in s
    ensures Positions(s, x) == []
  {
  }

  /** Appending a new element keeps a sequence free of duplicates. */
  lemma NoDuplicatesSnoc<T>(s: seq<T>, x: T)
    requires NoDuplicates(s) && x !in s
    ensures NoDuplicates(s + [x])
  {
    forall a, b | 0 <= a < b < |s| + 1
      ensures (s + [x])[a] != (s + [x])[b]
    {
      if b == |s| {
        assert (s + [x])[a] == s[a];
      }
    }
  }

  /** Recording position `n` in the dictionary of letter positions. */
  lemma RecordPosition(guess: string, n: nat, positions: map<char, seq<nat>>, keys: seq<char>)
    requires n < |guess| && DictOk(guess, n, positions, keys)
    ensures var c := guess[n];
      var positions' := if c !in positions then positions[c := [n]] else positions[c := positions[c] + [n]];
      var keys' := if c !in positions then keys + [c] else keys;
      DictOk(guess, n + 1, positions', keys')
      && (c in guess[..n] ==> |positions'[c]| > 1)
  {
    if guess[n] !in positions {
      RecordFirst(guess, n, positions, keys);
    } else {
      RecordAgain(guess, n, positions, keys);
    }
  }

  /** A letter seen for the first time gets a new key listing only `n`. */
  lemma RecordFirst(guess: string, n: nat, positions: map<char, seq<nat>>, keys: seq<char>)
    requires n < |guess| && DictOk(guess, n, positions, keys) && guess[n] !in positions
    ensures DictOk(guess, n + 1, positions[guess[n] := [n]], keys + [guess[n]])
  {
    var c := guess[n];
    var positions' := positions[c := [n]];
    var g', g := guess[..n + 1], guess[..n];
    assert g' == g + [c];
    NoDuplicatesSnoc(keys, c);
    PositionsAbsent(g, c);
    forall x | x in positions'
      ensures positions'[x] == Positions(g', x)
    {
      PositionsSnoc(guess, n, x);
    }
  }

  /** A letter seen before gets `n` appended to its list. */
  lemma RecordAgain(guess: string, n: nat, positions: map<char, seq<nat>>, keys: seq<char>)
    requires n < |guess| && DictOk(guess, n, positions, keys) && guess[n] in positions
    ensures DictOk(guess, n + 1, positions[guess[n] := positions[guess[n]] + [n]], keys)
    ensures positions[guess[n]] != []
  {
    RecordAgainKeys(guess, n, positions);
    RecordAgainLists(guess, n, positions);
    PositionsPresent(guess[..n], guess[n]);
  }

  /** Recording a letter seen before keeps the set of keys. */
  lemma RecordAgainKeys(guess: string, n: nat, positions: map<char, seq<nat>>)
    requires n < |guess| && guess[n] in positions
    requires forall x :: x in positions <==> x in guess[..n]
    ensures var positions' := positions[guess[n] := positions[guess[n]] + [n]];
      (forall x :: x in positions' <==> x in positions)
      && (forall x :: x in positions' <==> x in guess[..n + 1])
  {
    var c := guess[n];
    assert guess[..n + 1] == guess[..n] + [c];
    forall x
      ensures x in guess[..n + 1] <==> x in guess[..n] || x == c
    {
    }
  }

  /** Recording a letter seen before appends `n` to its list only. */
  lemma RecordAgainLists(guess: string, n: nat, positions: map<char, seq<nat>>)
    requires n < |guess| && guess[n] in positions
    requires forall x :: x in positions ==> positions[x] == Positions(guess[..n], x)
    ensures var positions' := positions[guess[n] := positions[guess[n]] + [n]];
      forall x :: x in positions' ==> positions'[x] == Positions(guess[..n + 1], x)
  {
    var positions' := positions[guess[n] := positions[guess[n]] + [n]];
    forall x | x in positions'
      ensures positions'[x] == Positions(guess[..n + 1], x)
    {
      PositionsSnoc(guess, n, x);
    }
  }

  /** A letter that occurs has a position. */
  lemma PositionsPresent(s: string, x: char)
    requires x in s
    ensures Positions(s, x) != []
  {
    var p :| 0 <= p < |s| && s[p] == x;
    assert p in Positions(s, x);
  }

  /** After the next letter's first mark is appended and its position
      recorded, the pass over the dictionary may start: only marks of that
      letter can be unresolved, and then it has several positions. */
  lemma ReadyToResolve(guess: string, answer: string, marks: string,
                       positions: map<char, seq<nat>>, keys: seq<char>,
                       marks': string, positions': map<char, seq<nat>>, keys': seq<char>)
    requires |marks| < |guess| == |answer|
    requires DictOk(guess, |marks|, positions, keys) && AllFull(guess, answer, marks)
    requires marks' == marks + [InitialMark(guess, answer, |marks|)]
    requires var c := guess[|marks|];
      positions' == (if c !in positions then positions[c := [|marks|]] else positions[c := positions[c] + [|marks|]])
      && keys' == (if c !in positions then keys + [c] else keys)
    ensures DictOk(guess, |marks'|, positions', keys')
    ensures forall k :: 0 <= k < |marks'| ==> WeakAt(guess, answer, marks', k)
    ensures forall k :: 0 <= k < |marks'| ==>
      FullAt(guess, answer, marks', k)
      || (guess[k] == guess[|marks|] && guess[|marks|] in positions' && |positions'[guess[|marks|]]| > 1)
  {
    var n, c := |marks|, guess[|marks|];
    AppendMark(guess, answer, marks);
    RecordPosition(guess, n, positions, keys);
    assert c in positions';
    assert c in guess[..n] ==> |positions'[c]| > 1;
  }

  /** The state before the dictionary pass, with `c` the letter just added. */
  lemma ReadyState(guess: string, answer: string, marks: string, positions: map<char, seq<nat>>,
                   keys: seq<char>, c: char)
    requires |marks| <= |guess| == |answer|
    requires DictOk(guess, |marks|, positions, keys)
    requires forall k :: 0 <= k < |marks| ==> WeakAt(guess, answer, marks, k)
    requires forall k :: 0 <= k < |marks| ==>
      FullAt(guess, answer, marks, k) || (guess[k] == c && c in positions && |positions[c]| > 1)
    ensures KeysState(guess, answer, marks, positions, keys, c, 0)
  {
    assert keys[0..] == keys;
  }

  /** Scores a guess of six letters against a six-letter answer; any other
      lengths give None. */
  method ProcessGuess(guess: string, answer: string, v: Variant) returns (r: Option<string>)
    ensures r == Scored(guess, answer, v)
  {
    if |guess| == WORD_LENGTH && |answer| == WORD_LENGTH {
      var compareResult: string := [];
      var duplicateTest: map<char, seq<nat>> := map[];
      var keys: seq<char> := [];
      for location := 0 to |guess|
        invariant ScoreState(compareResult, duplicateTest, keys) == ScoreUpTo(guess, answer, v, location)
      {
        ghost var before := ScoreState(compareResult, duplicateTest, keys);
        var c := guess[location];
        if c == answer[location] {
          compareResult := compareResult + [CORRECT];
        } else if c in answer {
          compareResult := compareResult + [MISPLACED];
        } else {
          compareResult := compareResult + [INCORRECT];
        }
        if c !in duplicateTest {
          duplicateTest := duplicateTest[c := [location]];
          keys := keys + [c];
        } else {
          duplicateTest := duplicateTest[c := duplicateTest[c] + [location]];
        }
        assert ScoreState(compareResult, duplicateTest, keys) == Record(guess, answer, before);
        compareResult := ResolveDuplicates(compareResult, duplicateTest, keys, v);
      }
      var feedback: string := [];
      for i := 0 to |compareResult|
        invariant feedback == compareResult[..i]
      {
        feedback := feedback + [compareResult[i]];
      }
      assert compareResult[..|compareResult|] == compareResult;
      r := Some(feedback);
    } else {
      r := None;
    }
  }

  /** After any number of letters the dictionary lists each letter's
      positions and every mark is resolved. */
  lemma {:induction false} ScoreResolves(guess: string, answer: string, v: Variant, n: nat)
    requires n <= |guess| == |answer|
    ensures var s := ScoreUpTo(guess, answer, v, n);
      DictOk(guess, n, s.positions, s.keys) && AllFull(guess, answer, s.marks)
  {
    if n > 0 {
      ScoreResolves(guess, answer, v, n - 1);
      ScoreStep(guess, answer, v, ScoreUpTo(guess, answer, v, n - 1));
    }
  }

  /** Scoring one more letter keeps the dictionary right and every mark
      resolved. */
  lemma ScoreStep(guess: string, answer: string, v: Variant, s: ScoreState)
    requires |s.marks| < |guess| == |answer|
    requires DictOk(guess, |s.marks|, s.positions, s.keys) && AllFull(guess, answer, s.marks)
    ensures InRange(s.positions, |s.marks|) && (forall x :: x in s.keys ==> x in s.positions)
      && var t := Record(guess, answer, s);
         DictOk(guess, |s.marks| + 1, t.positions, t.keys)
         && AllFull(guess, answer, ResolveKeys(t.marks, t.positions, t.keys, [], v, 0))
  {
    DictInRange(guess, |s.marks|, s.positions, s.keys);
    var t := Record(guess, answer, s);
    ReadyToResolve(guess, answer, s.marks, s.positions, s.keys, t.marks, t.positions, t.keys);
    ReadyState(guess, answer, t.marks, t.positions, t.keys, guess[|s.marks|]);
    KeysResolve(guess, answer, t.marks, t.positions, t.keys, [], v, guess[|s.marks|], 0);
  }

  /** The processed guess has one mark per letter; a correct mark sits on a
      match and is the only correct mark of its letter, and the first match
      of each letter is marked correct; a misplaced mark sits on a letter of
      the answer that matches nowhere in the guess; a letter that is not in
      the answer is marked incorrect. */
  lemma ScoredResolves(guess: string, answer: string, v: Variant)
    requires |guess| == |answer| == WORD_LENGTH
    ensures Scored(guess, answer, v).Some?
    ensures var r := Scored(guess, answer, v).value;
      |r| == |guess| && forall k :: 0 <= k < |r| ==> FullAt(guess, answer, r, k)
  {
    ScoreResolves(guess, answer, v, |guess|);
    assert AllFull(guess, answer, Scored(guess, answer, v).value);
  }


  /** A match is preceded, or equalled, by the first match of its letter. */
  lemma ExistsFirstCorrect(guess: string, answer: string, k: nat) returns (f: nat)
    requires k < |guess| <= |answer| && guess[k] == answer[k]
    ensures f <= k && guess[f] == guess[k] && FirstCorrect(guess, answer, f)
    decreases k
  {
    if FirstCorrect(guess, answer, k) {
      f := k;
    } else {
      var j :| 0 <= j < k && guess[j] == guess[k] && guess[j] == answer[j];
      f := ExistsFirstCorrect(guess, answer, j);
    }
  }

  /** Each mark of a processed guess: correct exactly on the first match of
      its letter; misplaced only on a letter of the answer that matches
      nowhere in the guess; incorrect on every letter not in the answer. */
  lemma ScoredMarks(guess: string, answer: string, v: Variant, k: nat)
    requires |guess| == |answer| == WORD_LENGTH && k < |guess|
    ensures Scored(guess, answer, v).Some?
    ensures var r := Scored(guess, answer, v).value;
      |r| == |guess| && IsMark(r[k])
      && (r[k] == CORRECT <==> FirstCorrect(guess, answer, k))
      && (r[k] == MISPLACED ==> guess[k] in answer && NoCorrectBelow(guess, answer, guess[k], |guess|))
      && (guess[k] !in answer ==> r[k] == INCORRECT)
  {
    ScoredResolves(guess, answer, v);
    var r := Scored(guess, answer, v).value;
    assert FullAt(guess, answer, r, k);
    if guess[k] == answer[k] && !FirstCorrect(guess, answer, k) {
      var f := ExistsFirstCorrect(guess, answer, k);
      assert FullAt(guess, answer, r, f);
      assert f != k && r[f] == CORRECT;
    }
  }

  /** Guessing a word against itself gives all correct marks exactly when
      no letter of it repeats: a repeated letter keeps only its first
      position correct. */
  lemma SelfGuess(word: string, v: Variant)
    requires |word| == WORD_LENGTH
    ensures Scored(word, word, v) == Some(seq(|word|, _ => CORRECT)) <==> NoRepeat(word)
  {
    NoRepeatIffDistinct(word);
    ScoredResolves(word, word, v);
    var r := Scored(word, word, v).value;
    if NoDuplicates(word) {
      forall k | 0 <= k < |word|
        ensures r[k] == CORRECT
      {
        ScoredMarks(word, word, v, k);
      }
      assert r == seq(|word|, _ => CORRECT);
    } else {
      var i, j :| 0 <= i < j < |word| && word[i] == word[j];
      ScoredMarks(word, word, v, j);
      assert !FirstCorrect(word, word, j);
      assert r[j] != CORRECT;
    }
  }

  // ---------------------------------------------------------------------------
  // The history
  // ---------------------------------------------------------------------------

  /** A past guess with its processed form, which is None when a length was
      wrong. */
  type Attempt = (string, Option<string>)

  /** Appends the guess and its processed form to the history. */
  method UpdateHistory(history: seq<Attempt>, guess: string, answer: string, v: Variant)
    returns (r: seq<Attempt>)
    ensures |r| == |history| + 1 && r[..|history|] == history
    ensures r[|history|] == (guess, Scored(guess, answer, v))
  {
    var processed := ProcessGuess(guess, answer, v);
    r := history + [(guess, processed)];
  }

  // ---------------------------------------------------------------------------
  // The candidates of the next-guess helper
  // ---------------------------------------------------------------------------

  /** What the history says: each correct letter with its position, each
      misplaced letter (once) with the position where it was first seen
      misplaced, and every other guessed letter, in guess order, as one
      string. */
  datatype Clues = Clues(correctLetters: string, correctPlaces: seq<nat>,
                         misplacedLetters: string, misplacedPlaces: seq<nat>,
                         abandoned: string)

  /** Every past guess and its processed form can be read at six positions. */
  predicate Readable(history: seq<Attempt>)
  {
    forall k :: 0 <= k < |history| ==>
      |history[k].0| >= WORD_LENGTH && history[k].1.Some? && |history[k].1.value| >= WORD_LENGTH
  }

  /** The clues with position `loc` of one past guess added. */
  function ClueAt(c: Clues, guess: string, marks: string, loc: nat): Clues
    requires loc < |guess| && loc < |marks|
  {
    var letter := guess[loc];
    if marks[loc] == CORRECT then
      c.(correctLetters := c.correctLetters + [letter], correctPlaces := c.correctPlaces + [loc])
    else if marks[loc] == MISPLACED && letter !in c.misplacedLetters then
      c.(misplacedLetters := c.misplacedLetters + [letter], misplacedPlaces := c.misplacedPlaces + [loc])
    else
      c.(abandoned := c.abandoned + [letter])
  }

  /** The clues with the first `n` positions of one past guess added. */
  function CluesOfGuess(c: Clues, guess: string, marks: string, n: nat): Clues
    requires n <= |guess| && n <= |marks|
  {
    if n == 0 then c else ClueAt(CluesOfGuess(c, guess, marks, n - 1), guess, marks, n - 1)
  }

  /** The clues of the whole history. */
  function CluesOf(history: seq<Attempt>): Clues
    requires Readable(history)
  {
    if history == [] then Clues([], [], [], [], [])
    else
      var last := history[|history| - 1];
      CluesOfGuess(CluesOf(history[..|history| - 1]), last.0, last.1.value, WORD_LENGTH)
  }

  /** Letters and positions pair up, positions lie within a word, and no
      misplaced letter is listed twice. */
  predicate CluesOk(c: Clues)
  {
    |c.correctLetters| == |c.correctPlaces| && |c.misplacedLetters| == |c.misplacedPlaces|
    && (forall i :: 0 <= i < |c.correctPlaces| ==> c.correctPlaces[i] < WORD_LENGTH)
    && (forall i :: 0 <= i < |c.misplacedPlaces| ==> c.misplacedPlaces[i] < WORD_LENGTH)
    && NoDuplicates(c.misplacedLetters)
  }

  /** The number of clues of all kinds. */
  function ClueCount(c: Clues): nat
  {
    |c.correctLetters| + |c.misplacedLetters| + |c.abandoned|
  }

  /** Adding the positions of one guess keeps the clues well formed and adds
      one clue per position. */
  lemma {:induction false} CluesOfGuessOk(c: Clues, guess: string, marks: string, n: nat)
    requires n <= WORD_LENGTH && n <= |guess| && n <= |marks| && CluesOk(c)
    ensures CluesOk(CluesOfGuess(c, guess, marks, n))
    ensures ClueCount(CluesOfGuess(c, guess, marks, n)) == ClueCount(c) + n
  {
    if n > 0 {
      CluesOfGuessOk(c, guess, marks, n - 1);
      var d := CluesOfGuess(c, guess, marks, n - 1);
      var letter := guess[n - 1];
      if marks[n - 1] != CORRECT && marks[n - 1] == MISPLACED && letter !in d.misplacedLetters {
        NoDuplicatesSnoc(d.misplacedLetters, letter);
      }
    }
  }

  /** The clues of a history are well formed, six per past guess. */
  lemma {:induction false} CluesOfOk(history: seq<Attempt>)
    requires Readable(history)
    ensures CluesOk(CluesOf(history)) && ClueCount(CluesOf(history)) == WORD_LENGTH * |history|
  {
    if history != [] {
      var init := history[..|history| - 1];
      CluesOfOk(init);
      var last := history[|history| - 1];
      CluesOfGuessOk(CluesOf(init), last.0, last.1.value, WORD_LENGTH);
    }
  }

  /** Reads the clues off the history, guess by guess and position by
      position. */
  method CollectClues(history: seq<Attempt>) returns (c: Clues)
    requires Readable(history)
    ensures c == CluesOf(history)
  {
    var correctLetters: string := [];
    var correctPlaces: seq<nat> := [];
    var abandoned: string := [];
    var misplacedLetters: string := [];
    var misplacedPlaces: seq<nat> := [];
    for k := 0 to |history|
      invariant Clues(correctLetters, correctPlaces, misplacedLetters, misplacedPlaces, abandoned)
        == CluesOf(history[..k])
    {
      var guess, marks := history[k].0, history[k].1.value;
      assert history[..k + 1][..k] == history[..k];
      for location := 0 to WORD_LENGTH
        invariant Clues(correctLetters, correctPlaces, misplacedLetters, misplacedPlaces, abandoned)
          == CluesOfGuess(CluesOf(history[..k]), guess, marks, location)
      {
        if marks[location] == CORRECT {
          correctLetters := correctLetters + [guess[location]];
          correctPlaces := correctPlaces + [location];
        } else if marks[location] == MISPLACED && guess[location] !in misplacedLetters {
          misplacedLetters := misplacedLetters + [guess[location]];
          misplacedPlaces := misplacedPlaces + [location];
        } else {
          abandoned := abandoned + [guess[location]];
        }
      }
    }
    assert history[..|history|] == history;
    c := Clues(correctLetters, correctPlaces, misplacedLetters, misplacedPlaces, abandoned);
  }

  /** `s` occurs in `w` as a contiguous piece; the empty string occurs in
      every word. */
  predicate IsSubstring(s: string, w: string)
  {
    exists i :: 0 <= i <= |w| && OccursAt(s, w, i)
  }

  /** `s` occurs in `w` starting at position `i`. */
  predicate OccursAt(s: string, w: string, i: int)
  {
    0 <= i && i + |s| <= |w| && w[i..i + |s|] == s
  }

  /** The word does not contain the abandoned letters as one contiguous
      piece. */
  predicate Allowed(w: string, c: Clues)
  {
    !IsSubstring(c.abandoned, w)
  }

  /** The word has correct letter `ic` at its position. */
  predicate CorrectFits(w: string, c: Clues, ic: nat)
    requires CluesOk(c) && |w| >= WORD_LENGTH && ic < |c.correctLetters|
  {
    w[c.correctPlaces[ic]] == c.correctLetters[ic]
  }

  /** The word has misplaced letter `im`, but not where it was misplaced. */
  predicate MisplacedFits(w: string, c: Clues, im: nat)
    requires CluesOk(c) && |w| >= WORD_LENGTH && im < |c.misplacedLetters|
  {
    c.misplacedLetters[im] in w && w[c.misplacedPlaces[im]] != c.misplacedLetters[im]
  }

  /** How often the filter appends `w` for correct letter `ic` while it runs
      over the first `m` misplaced letters. */
  function RowHits(w: string, c: Clues, ic: nat, m: nat): nat
    requires CluesOk(c) && |w| >= WORD_LENGTH && ic < |c.correctLetters| && m <= |c.misplacedLetters|
  {
    if m == 0 then 0
    else RowHits(w, c, ic, m - 1)
         + if Allowed(w, c) && CorrectFits(w, c, ic) && MisplacedFits(w, c, m - 1) then 1 else 0
  }

  /** How often the filter appends `w` over the first `n` correct letters,
      each with every misplaced letter. */
  function PairHits(w: string, c: Clues, n: nat): nat
    requires CluesOk(c) && |w| >= WORD_LENGTH && n <= |c.correctLetters|
  {
    if n == 0 then 0 else PairHits(w, c, n - 1) + RowHits(w, c, n - 1, |c.misplacedLetters|)
  }

  /** How often the filter appends `w` over the first `m` misplaced letters
      when there is no correct letter. */
  function MisplacedHits(w: string, c: Clues, m: nat): nat
    requires CluesOk(c) && |w| >= WORD_LENGTH && m <= |c.misplacedLetters|
  {
    if m == 0 then 0
    else MisplacedHits(w, c, m - 1) + if Allowed(w, c) && MisplacedFits(w, c, m - 1) then 1 else 0
  }

  /** How often the filter appends `w` over the first `n` correct letters
      when there is no misplaced letter. */
  function CorrectHits(w: string, c: Clues, n: nat): nat
    requires CluesOk(c) && |w| >= WORD_LENGTH && n <= |c.correctLetters|
  {
    if n == 0 then 0
    else CorrectHits(w, c, n - 1) + if Allowed(w, c) && CorrectFits(w, c, n - 1) then 1 else 0
  }

  /** How often the filter appends `w`: once per correct and misplaced
      letter pair it satisfies when both kinds exist, otherwise once per
      letter of the kind that exists. */
  function Hits(w: string, c: Clues): nat
    requires CluesOk(c) && |w| >= WORD_LENGTH
  {
    if |c.correctLetters| != 0 && |c.misplacedLetters| != 0 then PairHits(w, c, |c.correctLetters|)
    else if |c.correctLetters| == 0 then MisplacedHits(w, c, |c.misplacedLetters|)
    else CorrectHits(w, c, |c.correctLetters|)
  }

  /** `n` copies of `w`. */
  function Copies(w: string, n: nat): (r: seq<string>)
    ensures |r| == n && forall x :: x in r ==> x == w
  {
    seq(n, _ => w)
  }

  /** Every word of the vocabulary, in order, as often as the filter appends it. */
  function Filtered(vocab: seq<string>, c: Clues): seq<string>
    requires CluesOk(c) && forall w :: w in vocab ==> |w| >= WORD_LENGTH
  {
    if vocab == [] then []
    else Filtered(vocab[..|vocab| - 1], c) + Copies(vocab[|vocab| - 1], Hits(vocab[|vocab| - 1], c))
  }

  /** Every word of the vocabulary is at least six letters long. */
  predicate LongWords(vocab: seq<string>)
  {
    forall w :: w in vocab ==> |w| >= WORD_LENGTH
  }

  /** The filtered vocabulary of the next-guess helper, or None when it is
      empty; choosing one of its words is left to the caller. */
  function NextCandidates(vocab: seq<string>, history: seq<Attempt>): Option<seq<string>>
    requires LongWords(vocab) && Readable(history)
  {
    CluesOfOk(history);
    var f := Filtered(vocab, CluesOf(history));
    if f == [] then None else Some(f)
  }

  /** One more copy of `w`. */
  lemma CopiesSnoc(w: string, n: nat)
    ensures Copies(w, n) + [w] == Copies(w, n + 1)
  {
  }

  /** Filters the vocabulary by the clues, appending a word once for every
      clue, or clue pair, it satisfies. */
  method FilterVocab(vocab: seq<string>, c: Clues) returns (filtered: seq<string>)
    requires CluesOk(c) && LongWords(vocab)
    ensures filtered == Filtered(vocab, c)
  {
    filtered := [];
    for k := 0 to |vocab|
      invariant filtered == Filtered(vocab[..k], c)
    {
      var word := vocab[k];
      assert vocab[..k + 1][..k] == vocab[..k];
      if |c.correctLetters| != 0 && |c.misplacedLetters| != 0 {
        filtered := AppendPairs(filtered, word, c);
      } else if |c.correctLetters| == 0 {
        filtered := AppendMisplaced(filtered, word, c);
      } else {
        filtered := AppendCorrect(filtered, word, c);
      }
    }
    assert vocab[..|vocab|] == vocab;
  }

  /** Appends `word` once for every correct and misplaced letter pair it
      satisfies. */
  method AppendPairs(filtered: seq<string>, word: string, c: Clues) returns (r: seq<string>)
    requires CluesOk(c) && |word| >= WORD_LENGTH
    ensures r == filtered + Copies(word, PairHits(word, c, |c.correctLetters|))
  {
    r := filtered;
    for ic := 0 to |c.correctLetters|
      invariant r == filtered + Copies(word, PairHits(word, c, ic))
    {
      for im := 0 to |c.misplacedLetters|
        invariant r == filtered + Copies(word, PairHits(word, c, ic) + RowHits(word, c, ic, im))
      {
        if Allowed(word, c) && c.correctLetters[ic] == word[c.correctPlaces[ic]]
           && c.misplacedLetters[im] in word && c.misplacedLetters[im] != word[c.misplacedPlaces[im]] {
          CopiesSnoc(word, PairHits(word, c, ic) + RowHits(word, c, ic, im));
          r := r + [word];
        }
      }
    }
  }

  /** Appends `word` once for every misplaced letter it fits. */
  method AppendMisplaced(filtered: seq<string>, word: string, c: Clues) returns (r: seq<string>)
    requires CluesOk(c) && |word| >= WORD_LENGTH
    ensures r == filtered + Copies(word, MisplacedHits(word, c, |c.misplacedLetters|))
  {
    r := filtered;
    for im := 0 to |c.misplacedLetters|
      invariant r == filtered + Copies(word, MisplacedHits(word, c, im))
    {
      if Allowed(word, c) && c.misplacedLetters[im] in word
         && c.misplacedLetters[im] != word[c.misplacedPlaces[im]] {
        CopiesSnoc(word, MisplacedHits(word, c, im));
        r := r + [word];
      }
    }
  }

  /** Appends `word` once for every correct letter it has in place. */
  method AppendCorrect(filtered: seq<string>, word: string, c: Clues) returns (r: seq<string>)
    requires CluesOk(c) && |word| >= WORD_LENGTH
    ensures r == filtered + Copies(word, CorrectHits(word, c, |c.correctLetters|))
  {
    r := filtered;
    for ic := 0 to |c.correctLetters|
      invariant r == filtered + Copies(word, CorrectHits(word, c, ic))
    {
      if Allowed(word, c) && c.correctLetters[ic] == word[c.correctPlaces[ic]] {
        CopiesSnoc(word, CorrectHits(word, c, ic));
        r := r + [word];
      }
    }
  }

  /** The next-guess helper up to its random choice: the words of the
      vocabulary that fit the clues of the history, or None when none does. */
  method GuessNextCandidates(vocab: seq<string>, history: seq<Attempt>) returns (r: Option<seq<string>>)
    requires LongWords(vocab) && Readable(history)
    ensures r == NextCandidates(vocab, history)
  {
    var c := CollectClues(history);
    CluesOfOk(history);
    var filtered := FilterVocab(vocab, c);
    if |filtered| == 0 {
      r := None;
    } else {
      r := Some(filtered);
    }
  }

  /** A word is in the filtered vocabulary exactly when it is in the
      vocabulary and the filter appends it at least once. */
  lemma {:induction false} FilteredMembers(vocab: seq<string>, c: Clues, w: string)
    requires CluesOk(c) && LongWords(vocab)
    ensures w in Filtered(vocab, c) <==> w in vocab && Hits(w, c) > 0
  {
    if vocab != [] {
      var init, last := vocab[..|vocab| - 1], vocab[|vocab| - 1];
      assert vocab == init + [last];
      FilteredMembers(init, c, w);
      if w == last && Hits(w, c) > 0 {
        assert Copies(last, Hits(last, c))[0] == w;
      }
    }
  }

  /** Row `ic` appends the word exactly when it is allowed, has correct
      letter `ic` in place and fits one of the first `m` misplaced letters. */
  lemma {:induction false} RowHitsPositive(w: string, c: Clues, ic: nat, m: nat)
    requires CluesOk(c) && |w| >= WORD_LENGTH && ic < |c.correctLetters| && m <= |c.misplacedLetters|
    ensures RowHits(w, c, ic, m) > 0 <==>
      Allowed(w, c) && CorrectFits(w, c, ic) && exists im :: 0 <= im < m && MisplacedFits(w, c, im)
  {
    if m > 0 {
      RowHitsPositive(w, c, ic, m - 1);
    }
  }

  /** The pairs append the word exactly when some row does. */
  lemma {:induction false} PairHitsPositive(w: string, c: Clues, n: nat)
    requires CluesOk(c) && |w| >= WORD_LENGTH && n <= |c.correctLetters|
    ensures PairHits(w, c, n) > 0 <==> exists ic :: 0 <= ic < n && RowHits(w, c, ic, |c.misplacedLetters|) > 0
  {
    if n > 0 {
      var m := |c.misplacedLetters|;
      PairHitsPositive(w, c, n - 1);
      assert PairHits(w, c, n) == PairHits(w, c, n - 1) + RowHits(w, c, n - 1, m);
      if PairHits(w, c, n - 1) > 0 {
        var ic :| 0 <= ic < n - 1 && RowHits(w, c, ic, m) > 0;
        assert 0 <= ic < n && RowHits(w, c, ic, m) > 0;
      } else if RowHits(w, c, n - 1, m) > 0 {
        assert 0 <= n - 1 < n && RowHits(w, c, n - 1, m) > 0;
      } else {
        forall ic | 0 <= ic < n
          ensures RowHits(w, c, ic, m) == 0
        {
          if ic < n - 1 {
            assert !(0 <= ic < n - 1 && RowHits(w, c, ic, m) > 0);
          }
        }
      }
    }
  }

  /** Without correct letters, the word is appended exactly when it is
      allowed and fits one of the first `m` misplaced letters. */
  lemma {:induction false} MisplacedHitsPositive(w: string, c: Clues, m: nat)
    requires CluesOk(c) && |w| >= WORD_LENGTH && m <= |c.misplacedLetters|
    ensures MisplacedHits(w, c, m) > 0 <==> Allowed(w, c) && exists im :: 0 <= im < m && MisplacedFits(w, c, im)
  {
    if m > 0 {
      MisplacedHitsPositive(w, c, m - 1);
    }
  }

  /** Without misplaced letters, the word is appended exactly when it is
      allowed and has one of the first `n` correct letters in place. */
  lemma {:induction false} CorrectHitsPositive(w: string, c: Clues, n: nat)
    requires CluesOk(c) && |w| >= WORD_LENGTH && n <= |c.correctLetters|
    ensures CorrectHits(w, c, n) > 0 <==> Allowed(w, c) && exists ic :: 0 <= ic < n && CorrectFits(w, c, ic)
  {
    if n > 0 {
      CorrectHitsPositive(w, c, n - 1);
    }
  }

  /** The filter appends a word exactly when the word does not contain the
      abandoned letters as one piece, there is a correct or a misplaced
      letter, the word has some correct letter in place when there are
      correct letters, and it fits some misplaced letter when there are
      misplaced letters. */
  lemma HitsMeaning(w: string, c: Clues)
    requires CluesOk(c) && |w| >= WORD_LENGTH
    ensures Hits(w, c) > 0 <==>
      Allowed(w, c)
      && (|c.correctLetters| > 0 || |c.misplacedLetters| > 0)
      && (|c.correctLetters| > 0 ==> exists ic :: 0 <= ic < |c.correctLetters| && CorrectFits(w, c, ic))
      && (|c.misplacedLetters| > 0 ==> exists im :: 0 <= im < |c.misplacedLetters| && MisplacedFits(w, c, im))
  {
    var n, m := |c.correctLetters|, |c.misplacedLetters|;
    if n != 0 && m != 0 {
      PairHitsPositive(w, c, n);
      forall ic | 0 <= ic < n
        ensures RowHits(w, c, ic, m) > 0 <==>
          Allowed(w, c) && CorrectFits(w, c, ic) && exists im :: 0 <= im < m && MisplacedFits(w, c, im)
      {
        RowHitsPositive(w, c, ic, m);
      }
      if Hits(w, c) > 0 {
        var ic :| 0 <= ic < n && RowHits(w, c, ic, m) > 0;
        assert CorrectFits(w, c, ic);
      }
      if Allowed(w, c) && (exists ic :: 0 <= ic < n && CorrectFits(w, c, ic))
         && (exists im :: 0 <= im < m && MisplacedFits(w, c, im)) {
        var ic :| 0 <= ic < n && CorrectFits(w, c, ic);
        assert RowHits(w, c, ic, m) > 0;
      }
    } else if n == 0 {
      MisplacedHitsPositive(w, c, m);
    } else {
      CorrectHitsPositive(w, c, n);
    }
  }

  /** The candidates: None when no word fits; otherwise words of the
      vocabulary, each fitting the clues of the history. */
  lemma NextCandidatesFit(vocab: seq<string>, history: seq<Attempt>, w: string)
    requires LongWords(vocab) && Readable(history)
    ensures NextCandidates(vocab, history).Some? ==> NextCandidates(vocab, history).value != []
    ensures CluesOk(CluesOf(history))
    ensures (NextCandidates(vocab, history).Some? && w in NextCandidates(vocab, history).value)
      <==> (w in vocab && Hits(w, CluesOf(history)) > 0)
  {
    CluesOfOk(history);
    FilteredMembers(vocab, CluesOf(history), w);
  }

  /** Without any past guess there are no clues and nothing is collected. */
  lemma NoHistoryNoCandidates(vocab: seq<string>)
    requires LongWords(vocab)
    ensures NextCandidates(vocab, []) == None
  {
    var c := CluesOf([]);
    forall w | w in vocab
      ensures Hits(w, c) == 0
    {
    }
    FilteredNone(vocab, c);
  }

  /** When nothing was abandoned, no word is allowed, since the empty
      string occurs in every word; nothing is collected. */
  lemma NothingAbandonedNoCandidates(vocab: seq<string>, history: seq<Attempt>)
    requires LongWords(vocab) && Readable(history)
    requires CluesOf(history).abandoned == []
    ensures NextCandidates(vocab, history) == None
  {
    var c := CluesOf(history);
    CluesOfOk(history);
    forall w | w in vocab
      ensures Hits(w, c) == 0
    {
      assert OccursAt(c.abandoned, w, 0);
      HitsMeaning(w, c);
    }
    FilteredNone(vocab, c);
  }

  /** No word appended means nothing collected. */
  lemma {:induction false} FilteredNone(vocab: seq<string>, c: Clues)
    requires CluesOk(c) && LongWords(vocab)
    requires forall w :: w in vocab ==> Hits(w, c) == 0
    ensures Filtered(vocab, c) == []
  {
    if vocab != [] {
      FilteredNone(vocab[..|vocab| - 1], c);
    }
  }

  /** A non-empty sequence of one repeated value has one value. */
  lemma OneValue(s: seq<char>, x: char)
    requires x in s && forall t :: 0 <= t < |s| ==> s[t] == x
    ensures |set z | z in s| == 1
  {
    var values := set z | z in s;
    assert values == {x};
  }

  /** The guess and answer of the counterexample below. */
  const TripleGuess: string := "bbbxyz"
  const TripleAnswer: string := "acdbef"

  lemma TripleAfterOne()
    ensures ScoreUpTo(TripleGuess, TripleAnswer, AsWritten, 1)
      == ScoreState([MISPLACED], map['b' := [0]], ['b'])
  {
    assert TripleAnswer[3] == 'b' && TripleGuess[0] == 'b';
    assert InitialMark(TripleGuess, TripleAnswer, 0) == MISPLACED;
    var empty: map<char, seq<nat>> := map[];
    var none: seq<char> := [];
    assert empty['b' := [0]] == map['b' := [0]];
    assert none + ['b'] == ['b'];
    assert ResolveKeys([MISPLACED], map['b' := [0]], ['b'], [], AsWritten, 0) == [MISPLACED];
  }

  /** At the second `b` both marks are misplaced: the first stays misplaced. */
  lemma TripleSecondPass()
    ensures ResolveKeys([MISPLACED, MISPLACED], map['b' := [0, 1]], ['b'], [], AsWritten, 0)
      == [MISPLACED, INCORRECT]
  {
    var M := MISPLACED;
    var none: seq<char> := [];
    assert Snapshot([M, M], [0, 1]) == [M, M];
    assert none + [M, M] == [M, M];
    OneValue([M, M], M);
    assert Marked([M, M], [0, 1], INCORRECT) == [INCORRECT, INCORRECT];
  }

  lemma TripleRecordTwo()
    ensures Record(TripleGuess, TripleAnswer, ScoreState([MISPLACED], map['b' := [0]], ['b']))
      == ScoreState([MISPLACED, MISPLACED], map['b' := [0, 1]], ['b'])
  {
    assert TripleAnswer[3] == 'b' && TripleGuess[1] == 'b';
    assert InitialMark(TripleGuess, TripleAnswer, 1) == MISPLACED;
    var before: map<char, seq<nat>> := map['b' := [0]];
    var l: seq<nat> := [0];
    assert l + [1] == [0, 1];
    assert before['b' := before['b'] + [1]] == map['b' := [0, 1]];
  }

  lemma TripleAfterTwo()
    ensures ScoreUpTo(TripleGuess, TripleAnswer, AsWritten, 2)
      == ScoreState([MISPLACED, INCORRECT], map['b' := [0, 1]], ['b'])
  {
    TripleAfterOne();
    TripleRecordTwo();
    TripleSecondPass();
    ScoreNext(TripleGuess, TripleAnswer, AsWritten, 1,
              ScoreState([MISPLACED], map['b' := [0]], ['b']),
              ScoreState([MISPLACED, MISPLACED], map['b' := [0, 1]], ['b']),
              [MISPLACED, INCORRECT]);
  }

  /** At the third `b` the collected marks are misplaced, incorrect,
      misplaced: not all the same, so nothing changes. */
  lemma TripleThirdPass()
    ensures ResolveKeys([MISPLACED, INCORRECT, MISPLACED], map['b' := [0, 1, 2]], ['b'], [], AsWritten, 0)
      == [MISPLACED, INCORRECT, MISPLACED]
  {
    var none: seq<char> := [];
    var t := [MISPLACED, INCORRECT, MISPLACED];
    assert Snapshot(t, [0, 1, 2]) == t;
    assert none + t == t;
    TwoValues(t, MISPLACED, INCORRECT);
  }

  lemma TripleRecordThree()
    ensures Record(TripleGuess, TripleAnswer, ScoreState([MISPLACED, INCORRECT], map['b' := [0, 1]], ['b']))
      == ScoreState([MISPLACED, INCORRECT, MISPLACED], map['b' := [0, 1, 2]], ['b'])
  {
    assert TripleAnswer[3] == 'b' && TripleGuess[2] == 'b';
    assert InitialMark(TripleGuess, TripleAnswer, 2) == MISPLACED;
    var before: map<char, seq<nat>> := map['b' := [0, 1]];
    var l: seq<nat> := [0, 1];
    assert l + [2] == [0, 1, 2];
    assert before['b' := before['b'] + [2]] == map['b' := [0, 1, 2]];
  }

  lemma TripleAfterThree()
    ensures ScoreUpTo(TripleGuess, TripleAnswer, AsWritten, 3)
      == ScoreState([MISPLACED, INCORRECT, MISPLACED], map['b' := [0, 1, 2]], ['b'])
  {
    TripleAfterTwo();
    TripleRecordThree();
    TripleThirdPass();
    ScoreNext(TripleGuess, TripleAnswer, AsWritten, 2,
              ScoreState([MISPLACED, INCORRECT], map['b' := [0, 1]], ['b']),
              ScoreState([MISPLACED, INCORRECT, MISPLACED], map['b' := [0, 1, 2]], ['b']),
              [MISPLACED, INCORRECT, MISPLACED]);
  }

  /** The pass over `b` leaves misplaced, incorrect, misplaced alone. */
  lemma TripleKeepsB(t: string)
    requires |t| >= 3 && t[0] == MISPLACED && t[1] == INCORRECT && t[2] == MISPLACED
    ensures Snapshot(t, [0, 1, 2]) == [MISPLACED, INCORRECT, MISPLACED]
    ensures ResolvePass(t, [0, 1, 2], false, 0) == t
  {
    assert ResolvePass(t, [0, 1, 2], false, 3) == t;
  }

  /** With `b` first and every later key seen once, the dictionary pass
      changes nothing. */
  lemma TriplePass(t: string, positions: map<char, seq<nat>>, keys: seq<char>)
    requires |t| >= 3 && t[0] == MISPLACED && t[1] == INCORRECT && t[2] == MISPLACED
    requires InRange(positions, |t|) && forall x :: x in keys ==> x in positions
    requires |keys| > 0 && keys[0] == 'b' && positions['b'] == [0, 1, 2]
    requires forall j :: 1 <= j < |keys| ==> |positions[keys[j]]| == 1
    ensures ResolveKeys(t, positions, keys, [], AsWritten, 0) == t
  {
    var M, I := MISPLACED, INCORRECT;
    TripleKeepsB(t);
    var none: seq<char> := [];
    assert none + [M, I, M] == [M, I, M];
    TwoValues([M, I, M], M, I);
    TriplePassTail(t, positions, keys, [M, I, M], 1);
  }

  /** Keys seen once are skipped by the dictionary pass. */
  lemma {:induction false} TriplePassTail(t: string, positions: map<char, seq<nat>>, keys: seq<char>,
                                          temp: seq<char>, j: nat)
    requires InRange(positions, |t|) && forall x :: x in keys ==> x in positions
    requires forall j' :: j <= j' < |keys| ==> |positions[keys[j']]| == 1
    ensures ResolveKeys(t, positions, keys, temp, AsWritten, j) == t
    decreases |keys| - j
  {
    if j < |keys| {
      TriplePassTail(t, positions, keys, temp, j + 1);
    }
  }

  lemma TripleAfterFour()
    ensures ScoreUpTo(TripleGuess, TripleAnswer, AsWritten, 4)
      == ScoreState([MISPLACED, INCORRECT, MISPLACED, INCORRECT],
                    map['b' := [0, 1, 2], 'x' := [3]], ['b', 'x'])
  {
    TripleAfterThree();
    TripleRecordFour();
    TripleFourthPass();
    ScoreNext(TripleGuess, TripleAnswer, AsWritten, 3,
              ScoreState([MISPLACED, INCORRECT, MISPLACED], map['b' := [0, 1, 2]], ['b']),
              ScoreState([MISPLACED, INCORRECT, MISPLACED, INCORRECT],
                         map['b' := [0, 1, 2], 'x' := [3]], ['b', 'x']),
              [MISPLACED, INCORRECT, MISPLACED, INCORRECT]);
  }

  lemma TripleRecordFour()
    ensures Record(TripleGuess, TripleAnswer,
                   ScoreState([MISPLACED, INCORRECT, MISPLACED], map['b' := [0, 1, 2]], ['b']))
      == ScoreState([MISPLACED, INCORRECT, MISPLACED, INCORRECT],
                    map['b' := [0, 1, 2], 'x' := [3]], ['b', 'x'])
  {
    assert TripleGuess[3] == 'x';
    assert InitialMark(TripleGuess, TripleAnswer, 3) == INCORRECT;
  }

  lemma TripleFourthPass()
    ensures ResolveKeys([MISPLACED, INCORRECT, MISPLACED, INCORRECT],
                        map['b' := [0, 1, 2], 'x' := [3]], ['b', 'x'], [], AsWritten, 0)
      == [MISPLACED, INCORRECT, MISPLACED, INCORRECT]
  {
    TriplePass([MISPLACED, INCORRECT, MISPLACED, INCORRECT], map['b' := [0, 1, 2], 'x' := [3]], ['b', 'x']);
  }

  lemma TripleFifthPass()
    ensures ResolveKeys([MISPLACED, INCORRECT, MISPLACED, INCORRECT, INCORRECT],
                        map['b' := [0, 1, 2], 'x' := [3], 'y' := [4]], ['b', 'x', 'y'], [], AsWritten, 0)
      == [MISPLACED, INCORRECT, MISPLACED, INCORRECT, INCORRECT]
  {
    TriplePass([MISPLACED, INCORRECT, MISPLACED, INCORRECT, INCORRECT],
               map['b' := [0, 1, 2], 'x' := [3], 'y' := [4]], ['b', 'x', 'y']);
  }

  lemma TripleSixthPass()
    ensures ResolveKeys([MISPLACED, INCORRECT, MISPLACED, INCORRECT, INCORRECT, INCORRECT],
                        map['b' := [0, 1, 2], 'x' := [3], 'y' := [4], 'z' := [5]], ['b', 'x', 'y', 'z'],
                        [], AsWritten, 0)
      == [MISPLACED, INCORRECT, MISPLACED, INCORRECT, INCORRECT, INCORRECT]
  {
    TriplePass([MISPLACED, INCORRECT, MISPLACED, INCORRECT, INCORRECT, INCORRECT],
               map['b' := [0, 1, 2], 'x' := [3], 'y' := [4], 'z' := [5]], ['b', 'x', 'y', 'z']);
  }

  /** One more letter of the score, given the state before it, the recorded
      state and the outcome of the dictionary pass. */
  lemma ScoreNext(guess: string, answer: string, v: Variant, n: nat,
                  s: ScoreState, t: ScoreState, r: string)
    requires n < |guess| <= |answer|
    requires ScoreUpTo(guess, answer, v, n) == s
    requires Record(guess, answer, s) == t
    requires ResolveKeys(t.marks, t.positions, t.keys, [], v, 0) == r
    ensures ScoreUpTo(guess, answer, v, n + 1) == ScoreState(r, t.positions, t.keys)
  {
  }

  lemma TripleRecordFive()
    ensures Record(TripleGuess, TripleAnswer,
                   ScoreState([MISPLACED, INCORRECT, MISPLACED, INCORRECT],
                              map['b' := [0, 1, 2], 'x' := [3]], ['b', 'x']))
      == ScoreState([MISPLACED, INCORRECT, MISPLACED, INCORRECT, INCORRECT],
                    map['b' := [0, 1, 2], 'x' := [3], 'y' := [4]], ['b', 'x', 'y'])
  {
    assert TripleGuess[4] == 'y';
    assert InitialMark(TripleGuess, TripleAnswer, 4) == INCORRECT;
  }

  lemma TripleRecordSix()
    ensures Record(TripleGuess, TripleAnswer,
                   ScoreState([MISPLACED, INCORRECT, MISPLACED, INCORRECT, INCORRECT],
                              map['b' := [0, 1, 2], 'x' := [3], 'y' := [4]], ['b', 'x', 'y']))
      == ScoreState([MISPLACED, INCORRECT, MISPLACED, INCORRECT, INCORRECT, INCORRECT],
                    map['b' := [0, 1, 2], 'x' := [3], 'y' := [4], 'z' := [5]], ['b', 'x', 'y', 'z'])
  {
    assert TripleGuess[5] == 'z';
    assert InitialMark(TripleGuess, TripleAnswer, 5) == INCORRECT;
  }

  lemma TripleAfterFive()
    ensures ScoreUpTo(TripleGuess, TripleAnswer, AsWritten, 5)
      == ScoreState([MISPLACED, INCORRECT, MISPLACED, INCORRECT, INCORRECT],
                    map['b' := [0, 1, 2], 'x' := [3], 'y' := [4]], ['b', 'x', 'y'])
  {
    TripleAfterFour();
    TripleRecordFive();
    TripleFifthPass();
    ScoreNext(TripleGuess, TripleAnswer, AsWritten, 4,
              ScoreState([MISPLACED, INCORRECT, MISPLACED, INCORRECT],
                         map['b' := [0, 1, 2], 'x' := [3]], ['b', 'x']),
              ScoreState([MISPLACED, INCORRECT, MISPLACED, INCORRECT, INCORRECT],
                         map['b' := [0, 1, 2], 'x' := [3], 'y' := [4]], ['b', 'x', 'y']),
              [MISPLACED, INCORRECT, MISPLACED, INCORRECT, INCORRECT]);
  }

  /** As written, a letter guessed three times that occurs once in the
      answer, nowhere in its place, keeps two misplaced marks: when the third
      position is scored the first two are already misplaced and incorrect, so
      the collected marks are not all the same and nothing is resolved. */
  lemma AsWrittenKeepsTwoMisplaced()
    ensures Scored(TripleGuess, TripleAnswer, AsWritten)
      == Some([MISPLACED, INCORRECT, MISPLACED, INCORRECT, INCORRECT, INCORRECT])
  {
    TripleAfterFive();
    TripleRecordSix();
    TripleSixthPass();
    ScoreNext(TripleGuess, TripleAnswer, AsWritten, 5,
              ScoreState([MISPLACED, INCORRECT, MISPLACED, INCORRECT, INCORRECT],
                         map['b' := [0, 1, 2], 'x' := [3], 'y' := [4]], ['b', 'x', 'y']),
              ScoreState([MISPLACED, INCORRECT, MISPLACED, INCORRECT, INCORRECT, INCORRECT],
                         map['b' := [0, 1, 2], 'x' := [3], 'y' := [4], 'z' := [5]], ['b', 'x', 'y', 'z']),
              [MISPLACED, INCORRECT, MISPLACED, INCORRECT, INCORRECT, INCORRECT]);
    assert |TripleGuess| == |TripleAnswer| == WORD_LENGTH;
  }
}
