/** The marks that the repeated-letter resolution of A1/a1.py evidently
    intends, and the proof that the corrected resolution gives them: for each
    letter of the guess, its first match is correct and every other position
    incorrect; without a match, its first position is misplaced when the
    letter is in the answer and every other position incorrect. */
module WordleIntended {
  import opened Common
  import opened WordleSupport
  import opened WordleStudent

  // ---------------------------------------------------------------------------
  // The intended marks
  // ---------------------------------------------------------------------------

  /** Position `k` holds the first occurrence of its letter in the guess. */
  predicate FirstOccurrence(guess: string, k: nat)
    requires k < |guess|
  {
    forall j :: 0 <= j < k ==> guess[j] != guess[k]
  }

  /** The intended mark of position `k`: correct on the first match of its
      letter; incorrect on any other position of a letter that matches
      somewhere; otherwise misplaced on the first occurrence of a letter of
      the answer, incorrect everywhere else. */
  function IntendedMark(guess: string, answer: string, k: nat): (m: char)
    requires k < |guess| <= |answer|
    ensures IsMark(m)
  {
    if FirstCorrect(guess, answer, k) then CORRECT
    else if !NoCorrectBelow(guess, answer, guess[k], |guess|) then INCORRECT
    else if guess[k] in answer && FirstOccurrence(guess, k) then MISPLACED
    else INCORRECT
  }

  /** The intended marks give each letter at most one position that is not
      incorrect, and that position is correct exactly when the letter
      matches somewhere. */
  lemma OneMarkPerLetter(guess: string, answer: string, j: nat, k: nat)
    requires j < k < |guess| <= |answer| && guess[j] == guess[k]
    ensures IntendedMark(guess, answer, j) == INCORRECT || IntendedMark(guess, answer, k) == INCORRECT
    ensures IntendedMark(guess, answer, k) != MISPLACED
    ensures IntendedMark(guess, answer, k) == CORRECT ==> guess[j] != answer[j]
  {
    if IntendedMark(guess, answer, j) == CORRECT {
      assert guess[j] == answer[j];
    }
  }

  // ---------------------------------------------------------------------------
  // What the corrected resolution keeps about misplaced marks
  // ---------------------------------------------------------------------------

  /** A misplaced mark sits exactly on the first occurrence of a letter of
      the answer that matches nowhere among the marked positions. */
  predicate MisplacedOk(guess: string, answer: string, marks: string, k: nat)
    requires k < |marks| <= |guess| <= |answer|
  {
    (marks[k] == MISPLACED) <==>
      (guess[k] in answer && NoCorrectBelow(guess, answer, guess[k], |marks|) && FirstOccurrence(guess, k))
  }

  /** Every mark is misplaced exactly where it should be. */
  predicate AllMisplacedOk(guess: string, answer: string, r: string)
    requires |r| <= |guess| == |answer|
  {
    forall k :: 0 <= k < |r| ==> MisplacedOk(guess, answer, r, k)
  }

  /** When letter `d` matches nowhere, one of its marks is misplaced exactly
      when it occurs in the answer. */
  predicate LetterMisplaced(guess: string, answer: string, marks: string, ps: seq<nat>, d: char)
    requires |marks| <= |guess| == |answer| && forall u :: 0 <= u < |ps| ==> ps[u] < |marks|
  {
    NoCorrectBelow(guess, answer, d, |marks|) ==> (MISPLACED in Snapshot(marks, ps) <==> d in answer)
  }

  /** The marks `r` after `u` steps of a pass that keeps the first position
      misplaced, over positions without a correct mark: once a misplaced mark
      was met the first position is misplaced and the rest incorrect; before
      that nothing changed. */
  predicate KeepFirstState(marks: string, r: string, ps: seq<nat>, u: nat)
    requires u <= |ps| && forall t :: 0 <= t < |ps| ==> ps[t] < |marks|
  {
    |r| == |marks|
    && (forall k :: 0 <= k < |marks| && k !in ps ==> r[k] == marks[k])
    && if MISPLACED in Snapshot(marks, ps)[..u] then
         forall t :: 0 <= t < |ps| ==> r[ps[t]] == if t == 0 then MISPLACED else INCORRECT
       else r == marks
  }

  /** One step of that pass keeps its state description. */
  lemma KeepFirstStep(marks: string, r: string, ps: seq<nat>, u: nat)
    requires u < |ps| && forall t :: 0 <= t < |ps| ==> ps[t] < |marks|
    requires forall a, b :: 0 <= a < b < |ps| ==> ps[a] < ps[b]
    requires forall t :: 0 <= t < |ps| ==> marks[ps[t]] != CORRECT
    requires KeepFirstState(marks, r, ps, u)
    ensures KeepFirstState(marks, PassStep(r, ps, true, u), ps, u + 1)
  {
    var snap := Snapshot(marks, ps);
    assert snap[..u + 1] == snap[..u] + [marks[ps[u]]];
    if MISPLACED in snap[..u] {
      assert u != 0 && r[ps[u]] == INCORRECT;
      assert PassStep(r, ps, true, u) == r;
    } else if marks[ps[u]] == MISPLACED {
      var next := Marked(r, ps, INCORRECT)[ps[0] := MISPLACED];
      assert PassStep(r, ps, true, u) == next;
      forall t | 0 <= t < |ps|
        ensures next[ps[t]] == if t == 0 then MISPLACED else INCORRECT
      {
        if t != 0 {
          assert ps[0] < ps[t];
        }
      }
      forall k | 0 <= k < |marks| && k !in ps
        ensures next[k] == marks[k]
      {
        assert k != ps[0];
      }
    } else {
      assert PassStep(r, ps, true, u) == r;
    }
  }

  /** The whole pass from step `u` on ends in the state after all steps. */
  lemma {:induction false} KeepFirstPass(marks: string, r: string, ps: seq<nat>, u: nat)
    requires u <= |ps| && forall t :: 0 <= t < |ps| ==> ps[t] < |marks|
    requires forall a, b :: 0 <= a < b < |ps| ==> ps[a] < ps[b]
    requires forall t :: 0 <= t < |ps| ==> marks[ps[t]] != CORRECT
    requires KeepFirstState(marks, r, ps, u)
    ensures KeepFirstState(marks, ResolvePass(r, ps, true, u), ps, |ps|)
    decreases |ps| - u
  {
    if u < |ps| {
      var next := PassStep(r, ps, true, u);
      KeepFirstStep(marks, r, ps, u);
      KeepFirstPass(marks, next, ps, u + 1);
      assert ResolvePass(r, ps, true, u) == ResolvePass(next, ps, true, u + 1);
    } else {
      assert ResolvePass(r, ps, true, u) == r;
    }
  }

  /** The corrected pass over a repeated letter `d`, whose misplaced marks
      tell whether it is in the answer, puts every misplaced mark of `d`
      where it should be. */
  lemma CorrectedLetter(guess: string, answer: string, marks: string, ps: seq<nat>, d: char, temp: seq<char>)
    requires |marks| <= |guess| == |answer|
    requires ps == Positions(guess[..|marks|], d) && |ps| > 1
    requires forall k :: 0 <= k < |marks| && guess[k] == d ==> WeakAt(guess, answer, marks, k)
    requires LetterMisplaced(guess, answer, marks, ps, d)
    ensures var temp' := temp + Snapshot(marks, ps);
      var r := ResolvePass(marks, ps, KeepFirst(Corrected, temp', Snapshot(marks, ps)), 0);
      forall k :: 0 <= k < |marks| && guess[k] == d ==> MisplacedOk(guess, answer, r, k)
  {
    LetterPositions(guess, |marks|, d, ps);
    if FirstMatch(guess, answer, ps) < |ps| {
      CorrectedLetterMatch(guess, answer, marks, ps, d, temp);
    } else {
      CorrectedLetterNoMatch(guess, answer, marks, ps, d, temp);
    }
  }

  /** A letter that matches somewhere ends with no misplaced mark. */
  lemma CorrectedLetterMatch(guess: string, answer: string, marks: string, ps: seq<nat>, d: char,
                             temp: seq<char>)
    requires |marks| <= |guess| == |answer|
    requires ps == Positions(guess[..|marks|], d) && |ps| > 1
    requires forall k :: 0 <= k < |marks| && guess[k] == d ==> WeakAt(guess, answer, marks, k)
    requires FirstMatch(guess, answer, ps) < |ps|
    ensures var temp' := temp + Snapshot(marks, ps);
      var r := ResolvePass(marks, ps, KeepFirst(Corrected, temp', Snapshot(marks, ps)), 0);
      forall k :: 0 <= k < |marks| && guess[k] == d ==> MisplacedOk(guess, answer, r, k)
  {
    var snap := Snapshot(marks, ps);
    var temp' := temp + snap;
    var keepFirst := KeepFirst(Corrected, temp', snap);
    var tf := LetterContext(guess, answer, marks, ps, d, temp, temp', Corrected);
    ResolvePassResolves(guess, answer, marks, marks, ps, d, keepFirst, 0, tf);
    assert guess[ps[tf]] == d && guess[ps[tf]] == answer[ps[tf]];
  }

  /** A letter that matches nowhere ends misplaced on its first position
      exactly when it is in the answer, and incorrect elsewhere. */
  lemma CorrectedLetterNoMatch(guess: string, answer: string, marks: string, ps: seq<nat>, d: char,
                               temp: seq<char>)
    requires |marks| <= |guess| == |answer|
    requires ps == Positions(guess[..|marks|], d) && |ps| > 1
    requires forall k :: 0 <= k < |marks| ==> (guess[k] == d <==> k in ps)
    requires forall k :: 0 <= k < |marks| && guess[k] == d ==> WeakAt(guess, answer, marks, k)
    requires LetterMisplaced(guess, answer, marks, ps, d)
    requires FirstMatch(guess, answer, ps) == |ps|
    ensures var temp' := temp + Snapshot(marks, ps);
      var r := ResolvePass(marks, ps, KeepFirst(Corrected, temp', Snapshot(marks, ps)), 0);
      forall k :: 0 <= k < |marks| && guess[k] == d ==> MisplacedOk(guess, answer, r, k)
  {
    var snap := Snapshot(marks, ps);
    forall t | 0 <= t < |ps|
      ensures marks[ps[t]] != CORRECT
    {
      assert WeakAt(guess, answer, marks, ps[t]);
    }
    forall j | 0 <= j < |marks| && guess[j] == d
      ensures guess[j] != answer[j]
    {
      var u :| 0 <= u < |ps| && ps[u] == j;
    }
    assert KeepFirst(Corrected, temp + snap, snap);
    assert snap[..0] == [];
    KeepFirstPass(marks, marks, ps, 0);
    assert snap[..|ps|] == snap;
    forall k | 0 <= k < |marks| && guess[k] == d
      ensures MisplacedOk(guess, answer, ResolvePass(marks, ps, true, 0), k)
    {
      KeptFirstPlaced(guess, answer, marks, ResolvePass(marks, ps, true, 0), ps, d, k);
    }
  }

  /** After the pass that keeps the first position misplaced, each position
      of a letter that matches nowhere is misplaced exactly where it should
      be. */
  lemma KeptFirstPlaced(guess: string, answer: string, marks: string, r: string, ps: seq<nat>, d: char, k: nat)
    requires |marks| <= |guess| == |answer|
    requires ps == Positions(guess[..|marks|], d) && |ps| > 0
    requires forall k :: 0 <= k < |marks| ==> (guess[k] == d <==> k in ps)
    requires NoCorrectBelow(guess, answer, d, |marks|)
    requires LetterMisplaced(guess, answer, marks, ps, d)
    requires KeepFirstState(marks, r, ps, |ps|)
    requires k < |marks| && guess[k] == d
    ensures MisplacedOk(guess, answer, r, k)
  {
    var snap := Snapshot(marks, ps);
    assert snap[..|ps|] == snap;
    var u :| 0 <= u < |ps| && ps[u] == k;
    if MISPLACED in snap {
      if u == 0 {
        forall j | 0 <= j < k
          ensures guess[j] != guess[k]
        {
          FirstPositionFirst(guess, |marks|, ps, d, j);
        }
      } else {
        assert ps[0] < k && guess[ps[0]] == guess[k];
      }
    } else {
      assert snap[u] == marks[k];
    }
  }

  /** No position before the first listed one holds the letter. */
  lemma FirstPositionFirst(guess: string, n: nat, ps: seq<nat>, d: char, j: nat)
    requires n <= |guess| && ps == Positions(guess[..n], d) && |ps| > 0
    requires forall k :: 0 <= k < n ==> (guess[k] == d <==> k in ps)
    requires j < ps[0]
    ensures guess[j] != d
  {
    forall u | 0 <= u < |ps|
      ensures ps[u] != j
    {
      if u > 0 {
        assert ps[0] < ps[u];
      }
    }
  }

  /** A letter whose marks are all where they should be tells by them
      whether it is in the answer. */
  lemma LetterMisplacedOfResolved(guess: string, answer: string, marks: string, ps: seq<nat>, d: char)
    requires |marks| <= |guess| == |answer|
    requires ps == Positions(guess[..|marks|], d) && |ps| > 0
    requires forall k :: 0 <= k < |marks| && guess[k] == d ==> MisplacedOk(guess, answer, marks, k)
    ensures LetterMisplaced(guess, answer, marks, ps, d)
  {
    LetterPositions(guess, |marks|, d, ps);
    var snap := Snapshot(marks, ps);
    if NoCorrectBelow(guess, answer, d, |marks|) {
      forall j | 0 <= j < ps[0]
        ensures guess[j] != guess[ps[0]]
      {
        FirstPositionFirst(guess, |marks|, ps, d, j);
      }
      assert MisplacedOk(guess, answer, marks, ps[0]);
      if d in answer {
        assert snap[0] == MISPLACED;
      } else {
        forall t | 0 <= t < |ps|
          ensures snap[t] != MISPLACED
        {
          assert MisplacedOk(guess, answer, marks, ps[t]);
        }
      }
    }
  }

  // ---------------------------------------------------------------------------
  // The corrected pass over the dictionary
  // ---------------------------------------------------------------------------

  /** The marks during the corrected pass over the dictionary, before key
      `keys[j]`: every misplaced mark is where it should be, except on `c`
      when it still lies ahead with several positions, and then the marks of
      `c` tell whether it is in the answer. */
  predicate CKeysState(guess: string, answer: string, r: string, positions: map<char, seq<nat>>,
                       keys: seq<char>, c: char, j: nat)
    requires |r| <= |guess| == |answer| && j <= |keys| && InRange(positions, |r|)
  {
    (forall k :: 0 <= k < |r| ==>
       MisplacedOk(guess, answer, r, k)
       || (guess[k] == c && c in positions && |positions[c]| > 1 && c in keys[j..]))
    && (c in positions && |positions[c]| > 1 && c in keys[j..] ==>
          LetterMisplaced(guess, answer, r, positions[c], c))
  }

  /** One key of the corrected pass keeps that state description. */
  lemma CKeyStep(guess: string, answer: string, r: string, r': string, positions: map<char, seq<nat>>,
                 keys: seq<char>, temp: seq<char>, c: char, j: nat)
    requires |r| <= |guess| == |answer| && j < |keys|
    requires DictOk(guess, |r|, positions, keys) && InRange(positions, |r|)
    requires KeysState(guess, answer, r, positions, keys, c, j)
    requires CKeysState(guess, answer, r, positions, keys, c, j)
    requires var ps := positions[keys[j]];
      if |ps| > 1 then r' == ResolvePass(r, ps, KeepFirst(Corrected, temp + Snapshot(r, ps), Snapshot(r, ps)), 0)
      else r' == r
    ensures |r'| == |r| && CKeysState(guess, answer, r', positions, keys, c, j + 1)
  {
    var key := keys[j];
    var ps := positions[key];
    if |ps| > 1 {
      KeyReady(guess, answer, r, positions, keys, c, j);
      if key != c {
        LetterMisplacedOfResolved(guess, answer, r, ps, key);
      }
      LetterPassResolves(guess, answer, r, ps, key, temp, Corrected);
      CorrectedLetter(guess, answer, r, ps, key, temp);
      CKeysAfter(guess, answer, r, r', positions, keys, c, j);
    } else {
      CKeysSkip(guess, answer, r, positions, keys, c, j);
    }
  }

  /** After the pass over key `keys[j]`, which changed only that letter and
      put its misplaced marks where they should be, the state moves to the
      next key. */
  lemma CKeysAfter(guess: string, answer: string, r: string, r': string, positions: map<char, seq<nat>>,
                   keys: seq<char>, c: char, j: nat)
    requires |r'| == |r| <= |guess| == |answer| && j < |keys|
    requires DictOk(guess, |r|, positions, keys) && InRange(positions, |r|)
    requires CKeysState(guess, answer, r, positions, keys, c, j)
    requires forall k :: 0 <= k < |r| && guess[k] != keys[j] ==> r'[k] == r[k]
    requires forall k :: 0 <= k < |r| && guess[k] == keys[j] ==> MisplacedOk(guess, answer, r', k)
    ensures CKeysState(guess, answer, r', positions, keys, c, j + 1)
  {
    var key := keys[j];
    assert forall x :: x in keys[j..] && x != key ==> x in keys[j + 1..];
    if key == c {
      forall t | j + 1 <= t < |keys|
        ensures keys[t] != key
      {
      }
      assert key !in keys[j + 1..];
    } else if c in positions {
      var cs := positions[c];
      assert cs == Positions(guess[..|r|], c);
      assert Snapshot(r', cs) == Snapshot(r, cs);
    }
    forall k | 0 <= k < |r| && guess[k] != key
      ensures MisplacedOk(guess, answer, r', k) <==> MisplacedOk(guess, answer, r, k)
    {
    }
  }

  /** A key with one position is skipped and the state moves to the next key. */
  lemma CKeysSkip(guess: string, answer: string, r: string, positions: map<char, seq<nat>>,
                  keys: seq<char>, c: char, j: nat)
    requires |r| <= |guess| == |answer| && j < |keys| && keys[j] in positions
    requires InRange(positions, |r|) && |positions[keys[j]]| <= 1
    requires CKeysState(guess, answer, r, positions, keys, c, j)
    ensures CKeysState(guess, answer, r, positions, keys, c, j + 1)
  {
    assert forall x :: x in keys[j..] && x != keys[j] ==> x in keys[j + 1..];
  }

  /** The corrected pass over the dictionary from key `keys[j]` on puts
      every misplaced mark where it should be. */
  lemma {:induction false} KeysIntended(guess: string, answer: string, r: string,
                                        positions: map<char, seq<nat>>, keys: seq<char>,
                                        temp: seq<char>, c: char, j: nat)
    requires |r| <= |guess| == |answer| && j <= |keys|
    requires DictOk(guess, |r|, positions, keys) && InRange(positions, |r|)
    requires KeysState(guess, answer, r, positions, keys, c, j)
    requires CKeysState(guess, answer, r, positions, keys, c, j)
    ensures (forall x :: x in keys ==> x in positions)
      && AllMisplacedOk(guess, answer, ResolveKeys(r, positions, keys, temp, Corrected, j))
    decreases |keys| - j
  {
    DictInRange(guess, |r|, positions, keys);
    if j == |keys| {
      assert keys[j..] == [];
    } else {
      var r', temp' := KeyStep(guess, answer, r, positions, keys, temp, Corrected, c, j);
      CKeyStep(guess, answer, r, r', positions, keys, temp, c, j);
      KeysIntended(guess, answer, r', positions, keys, temp', c, j + 1);
    }
  }

  /** After the next letter is recorded, the corrected pass may start: only
      marks of that letter can be out of place, and then its marks tell
      whether it is in the answer. */
  lemma CReadyState(guess: string, answer: string, s: ScoreState)
    requires |s.marks| < |guess| == |answer|
    requires DictOk(guess, |s.marks|, s.positions, s.keys) && AllMisplacedOk(guess, answer, s.marks)
    ensures InRange(s.positions, |s.marks|) && (forall x :: x in s.keys ==> x in s.positions)
    ensures var t := Record(guess, answer, s);
      var c := guess[|s.marks|];
      (forall k :: 0 <= k < |t.marks| ==>
            MisplacedOk(guess, answer, t.marks, k)
            || (guess[k] == c && c in t.positions && |t.positions[c]| > 1 && c in t.keys))
      && (c in t.positions && |t.positions[c]| > 1 ==>
            c in t.keys && LetterMisplaced(guess, answer, t.marks, t.positions[c], c))
  {
    DictInRange(guess, |s.marks|, s.positions, s.keys);
    var n := |s.marks|;
    var c := guess[n];
    var t := Record(guess, answer, s);
    RecordPosition(guess, n, s.positions, s.keys);
    CReadyMarks(guess, answer, s.marks);
    assert c in s.positions <==> c in guess[..n];
    if c in guess[..n] {
      var ps := Positions(guess[..n], c);
      assert s.positions[c] == ps;
      assert t.positions[c] == ps + [n];
      assert c in t.keys;
      CReadyLetter(guess, answer, s.marks, ps);
    } else {
      assert t.positions[c] == [n];
    }
  }

  /** The state before the corrected pass over the dictionary, with `c` the
      letter just added. */
  lemma CKeysStart(guess: string, answer: string, marks: string, positions: map<char, seq<nat>>,
                   keys: seq<char>, c: char)
    requires |marks| <= |guess| == |answer| && InRange(positions, |marks|)
    requires forall k :: 0 <= k < |marks| ==>
      MisplacedOk(guess, answer, marks, k) || (guess[k] == c && c in positions && |positions[c]| > 1 && c in keys)
    requires c in positions && |positions[c]| > 1 ==> c in keys && LetterMisplaced(guess, answer, marks, positions[c], c)
    ensures CKeysState(guess, answer, marks, positions, keys, c, 0)
  {
    assert keys[0..] == keys;
  }

  /** Appending the first mark of the next letter keeps every misplaced mark
      where it should be, except on that letter when it occurred before. */
  lemma CReadyMarks(guess: string, answer: string, marks: string)
    requires |marks| < |guess| == |answer| && AllMisplacedOk(guess, answer, marks)
    ensures var n := |marks|;
      var marks' := marks + [InitialMark(guess, answer, n)];
      forall k :: 0 <= k < |marks'| ==>
        MisplacedOk(guess, answer, marks', k) || (guess[k] == guess[n] && guess[n] in guess[..n])
  {
    var n := |marks|;
    var c := guess[n];
    var marks' := marks + [InitialMark(guess, answer, n)];
    forall k | 0 <= k < n + 1
      ensures MisplacedOk(guess, answer, marks', k) || (guess[k] == c && c in guess[..n])
    {
      if k < n {
        assert marks'[k] == marks[k];
        if guess[k] != c {
          assert MisplacedOk(guess, answer, marks, k);
          assert NoCorrectBelow(guess, answer, guess[k], n + 1) == NoCorrectBelow(guess, answer, guess[k], n);
        } else {
          assert guess[..n][k] == c;
        }
      } else if c !in guess[..n] {
        forall j | 0 <= j < n
          ensures guess[j] != c
        {
          assert guess[..n][j] == guess[j];
        }
      }
    }
  }

  /** When the next letter occurred before and matches nowhere, its marks
      with the new one tell whether it is in the answer. */
  lemma CReadyLetter(guess: string, answer: string, marks: string, ps: seq<nat>)
    requires |marks| < |guess| == |answer| && AllMisplacedOk(guess, answer, marks)
    requires ps == Positions(guess[..|marks|], guess[|marks|]) && |ps| > 0
    ensures LetterMisplaced(guess, answer, marks + [InitialMark(guess, answer, |marks|)],
                            ps + [|marks|], guess[|marks|])
  {
    var n := |marks|;
    var c := guess[n];
    var marks' := marks + [InitialMark(guess, answer, n)];
    if NoCorrectBelow(guess, answer, c, n + 1) {
      assert NoCorrectBelow(guess, answer, c, n);
      LetterMisplacedOfResolved(guess, answer, marks, ps, c);
      assert Snapshot(marks', ps + [n]) == Snapshot(marks, ps) + [InitialMark(guess, answer, n)];
    }
  }

  /** Scoring one more letter with the corrected resolution keeps every
      misplaced mark where it should be. */
  lemma CorrectedStep(guess: string, answer: string, s: ScoreState)
    requires |s.marks| < |guess| == |answer|
    requires DictOk(guess, |s.marks|, s.positions, s.keys)
    requires AllFull(guess, answer, s.marks) && AllMisplacedOk(guess, answer, s.marks)
    ensures InRange(s.positions, |s.marks|) && (forall x :: x in s.keys ==> x in s.positions)
      && var t := Record(guess, answer, s);
         AllMisplacedOk(guess, answer, ResolveKeys(t.marks, t.positions, t.keys, [], Corrected, 0))
  {
    DictInRange(guess, |s.marks|, s.positions, s.keys);
    var t := Record(guess, answer, s);
    ReadyToResolve(guess, answer, s.marks, s.positions, s.keys, t.marks, t.positions, t.keys);
    ReadyState(guess, answer, t.marks, t.positions, t.keys, guess[|s.marks|]);
    CReadyState(guess, answer, s);
    CKeysStart(guess, answer, t.marks, t.positions, t.keys, guess[|s.marks|]);
    KeysIntended(guess, answer, t.marks, t.positions, t.keys, [], guess[|s.marks|], 0);
  }

  /** After any number of letters, the corrected resolution has every
      misplaced mark where it should be. */
  lemma {:induction false} CorrectedScoreUpTo(guess: string, answer: string, n: nat)
    requires n <= |guess| == |answer|
    ensures AllMisplacedOk(guess, answer, ScoreUpTo(guess, answer, Corrected, n).marks)
  {
    if n > 0 {
      ScoreResolves(guess, answer, Corrected, n - 1);
      CorrectedScoreUpTo(guess, answer, n - 1);
      CorrectedStep(guess, answer, ScoreUpTo(guess, answer, Corrected, n - 1));
    }
  }

  /** Resolved marks whose misplaced marks are where they should be are the
      intended marks. */
  lemma IntendedOfResolved(guess: string, answer: string, marks: string, k: nat)
    requires |marks| == |guess| == |answer| && k < |marks|
    requires AllFull(guess, answer, marks) && MisplacedOk(guess, answer, marks, k)
    ensures marks[k] == IntendedMark(guess, answer, k)
  {
    assert FullAt(guess, answer, marks, k);
    if !FirstCorrect(guess, answer, k) && !NoCorrectBelow(guess, answer, guess[k], |guess|) {
      var j :| 0 <= j < |marks| && guess[j] == guess[k] && guess[j] == answer[j];
      var f := ExistsFirstCorrect(guess, answer, j);
      assert FullAt(guess, answer, marks, f);
      assert f != k && marks[f] == CORRECT;
    }
  }

  // ---------------------------------------------------------------------------
  // The scored guess
  // ---------------------------------------------------------------------------

  /** With the corrected resolution, every mark of a processed guess is the
      intended one. */
  lemma CorrectedScoresIntended(guess: string, answer: string)
    requires |guess| == |answer| == WORD_LENGTH
    ensures Scored(guess, answer, Corrected).Some?
    ensures var r := Scored(guess, answer, Corrected).value;
      |r| == |guess| && forall k :: 0 <= k < |r| ==> r[k] == IntendedMark(guess, answer, k)
  {
    ScoredResolves(guess, answer, Corrected);
    CorrectedScoreUpTo(guess, answer, |guess|);
    var r := Scored(guess, answer, Corrected).value;
    assert AllFull(guess, answer, r);
    forall k | 0 <= k < |r|
      ensures r[k] == IntendedMark(guess, answer, k)
    {
      IntendedOfResolved(guess, answer, r, k);
    }
  }

  /** As written, the third `b` of "bbbxyz" against "acdbef" is marked
      misplaced although the intended mark is incorrect. */
  lemma AsWrittenMissesIntended()
    ensures Scored(TripleGuess, TripleAnswer, AsWritten).Some?
    ensures Scored(TripleGuess, TripleAnswer, AsWritten).value[2] == MISPLACED
    ensures IntendedMark(TripleGuess, TripleAnswer, 2) == INCORRECT
  {
    AsWrittenKeepsTwoMisplaced();
    assert TripleGuess[0] == TripleGuess[2] && TripleGuess[2] != TripleAnswer[2];
  }
}
