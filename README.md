# Wordle and MazeRunner game logic in Dafny

This project models the game logic of two coursework programs written in
Python and proves properties of that logic.

**Wordle.** A round of a six-letter word-guessing game, in two versions:

- The reference version (`A1/a1_solution.py`, module `WordleSolution`):
  - scoring a guess letter by letter as correct, misplaced or incorrect;
  - the win and loss tests;
  - the immutable tuple helpers for the word list, history and statistics;
  - the keyboard summary of what is known about each letter;
  - the automatic suggestion of a next guess, which filters the vocabulary
    by every mark seen so far and takes the first survivor.
- The second version (`A1/a1.py`, module `WordleStudent`):
  - its own win test and word removal;
  - a scoring routine that rewrites marks in place through a dictionary of
    letter positions;
  - its history update;
  - the filter of its next-guess helper, up to the point where a word is
    chosen.
- Module `WordleIntended` defines the marks that this second scoring routine
  evidently intends. It proves that a corrected resolution produces them.
- Module `WordleSupport` holds what both versions share:
  - the four status glyphs, as four distinct one-character constants;
  - the word length and the guess budget, both 6.

**MazeRunner.** A tile-based maze game (`A2/a2.py`, modules `MazeEntities`
and `MazeRunner`):

- Tiles: wall, empty, lava, and the maze's one door, which starts locked and
  can be unlocked.
- Items: potion, coin, water, apple and honey (plus candy from `A3/a3.py`).
- A player whose health, hunger and thirst are clamped to their ranges.
- An inventory that maps an item name to the items held, oldest first.
- A maze and a level built row by row from text.
- The game model: moving, periodic hunger and thirst, collecting items,
  levelling up and losing.

The entities whose fields the program updates are Dafny classes (`Door`,
`Player`, `Inventory`, `Maze`, `Level`, `Model`). Their methods state the
new state and what stays unchanged.

**Shop.** Module `MazeShop` covers the rules `A3/a3.py` adds: the shop's
price list, buying an item with coins, the coin count, the candy item, and
the arithmetic of the timer label. `A3/a3.py` imports a second solution of
`A2/a2.py` that is not part of this model. These rules are therefore stated
against the `A2/a2.py` classes.

**Constants.** The game constants come from a module that is not part of
this model:

- Tile and entity IDs are distinct representative characters.
- The amounts are the ones the class documentation states: HP 100, lava 5,
  potion +20, water -5, apple -1 and honey -5.
- Hunger and thirst ceilings of 10 are representative.

The general lemmas rely only on the IDs being distinct and each minimum
lying below its maximum. The character written over a collected coin is the
source's literal space (`BLANK`), not the empty tile's ID. The worked
examples of "## Findings" (`MazeRunner.AsWrittenCoinIndexHitsLineBreak` and
`MazeRunner.AsWrittenUnlocksWithCoinLeft`) are stated over these particular
characters: 'P', 'C', 'D', '#' and ' '.

**As written and corrected.** Where the source has a defect (see "##
Findings"), the affected operation takes a `Variant` argument:

- `AsWritten` models the code as written.
- `Corrected` models the evidently intended behaviour.

Each case is proved about its own variant.

## Model

| member | source | states |
|---|---|---|
| WordleSupport.NoRepeatIffDistinct | A1/a1_solution.py:279-284 | a word passes the repeated-letter test (no letter occurs again later in the word) iff no two of its positions hold the same letter |
| WordleSolution.HasWon | A1/a1_solution.py:131-141 | the round is won iff the guess equals the answer |
| WordleSolution.HasLost | A1/a1_solution.py:144-150 | the round is lost iff at least MAX_GUESSES (6) guesses were made |
| WordleSolution.RemoveWord | A1/a1_solution.py:48-61 | for a word that is in the tuple: the result is one shorter, and as a multiset it is the input minus one copy of the word; every other word stays |
| WordleSolution.RemoveWordFirstOccurrence | A1/a1_solution.py:60-61 | only the first occurrence is removed: the prefix before it is kept, and reinserting the word there gives back the input |
| WordleSolution.RemoveWordNoDuplicates | A1/a1_solution.py:60-61 | on a tuple without repeats, the removed word is gone entirely and the result still has no repeats |
| WordleSolution.UpdateStats | A1/a1_solution.py:209-225 | the length is kept, index guess_number-1 goes up by one, and every other index is unchanged |
| WordleSolution.UpdateStatsTotal | A1/a1_solution.py:224-225 | recording a round adds exactly one to the total number of rounds |
| WordleSolution.Mark | A1/a1_solution.py:112-126 | each position gets one of the three marks |
| WordleSolution.FeedbackMeaning | A1/a1_solution.py:110-128 | the processed guess has one mark per letter; a position is CORRECT iff guess and answer agree there; a letter absent from the answer is INCORRECT; MISPLACED iff the letter is in the answer, not in place, seen for the first time in the guess, and the guess does not already hold it at the answer's first position of that letter |
| WordleSolution.ProcessGuess | A1/a1_solution.py:92-128 | the loop builds exactly the processed guess. Position i is CORRECT iff guess[i] == answer[i]. A letter absent from the answer is INCORRECT. MISPLACED holds iff the letter is in the answer, this is its first occurrence in the guess, and the guess is not correct at the answer's first position of that letter |
| WordleSolution.HasWonIffAllCorrect | A1/a1_solution.py:112-141 | a guess wins iff its processed form is all CORRECT; so process_guess(w, w) is all CORRECT |
| WordleSolution.AtMostOneMisplacedPerLetter | A1/a1_solution.py:117-124 | two positions holding the same letter are never both MISPLACED |
| WordleSolution.CorrectPlaceTakesPrecedence | A1/a1_solution.py:117-124 | when the guess holds a letter at the answer's first position of it, that position is CORRECT and no position of that letter is MISPLACED |
| WordleSolution.LetterMarksBounded | A1/a1_solution.py:117-124 | for every letter, the positions of the guess marked CORRECT or MISPLACED are no more than the answer's occurrences of that letter |
| WordleSolution.UpdateHistory | A1/a1_solution.py:228-242 | the history grows by exactly one entry, (guess, processed guess), and its prefix is unchanged |
| WordleSolution.LetterStatus | A1/a1_solution.py:168-187 | the loop over the history computes the keyboard status of the letter |
| WordleSolution.KeyboardUnseen | A1/a1_solution.py:181-187 | a letter that is in no guess is UNSEEN |
| WordleSolution.KeyboardCorrectIff | A1/a1_solution.py:181-187 | the status is CORRECT iff some guess marked the letter CORRECT at its first position in that guess |
| WordleSolution.CorrectStaysCorrect | A1/a1_solution.py:181-187 | once the status is CORRECT, later guesses never change it |
| WordleSolution.WinningGuessLightsKeyboard | A1/a1_solution.py:181-187 | after the winning guess, every letter of the answer shows CORRECT |
| WordleSolution.RemoveDuplicatedLetters | A1/a1_solution.py:265-284 | the result is the input with every word containing a repeated letter dropped, in order |
| WordleSolution.FilterWordsSpec | A1/a1_solution.py:287-330 | the survivors of one mark come from the vocabulary, each agrees with that mark, there are no more of them than words, and they have no repeats when the vocabulary has none |
| WordleSolution.FilterWordsKeepsOrder | A1/a1_solution.py:287-330 | the survivors of one mark are a subsequence of the vocabulary: the filter keeps the vocabulary's order |
| WordleSolution.FilterWordsKeeps | A1/a1_solution.py:303-330 | every vocabulary word that agrees with the mark survives |
| WordleSolution.FilterWordsMembers | A1/a1_solution.py:303-330 | a word survives iff it is in the vocabulary and, for CORRECT, has the letter at the position; for MISPLACED, contains the letter but not there; for INCORRECT, does not contain the letter at all, because the duplicate exception never fires |
| WordleSolution.FilterWords | A1/a1_solution.py:287-330 | the loop, which removes the first occurrence of each rejected word, computes exactly that filter, with the exception as the zip(guess, status) loop computes it |
| WordleSolution.FilterPositions | A1/a1_solution.py:353-354 | filtering by the marks of one entry keeps only vocabulary words and keeps the absence of repeats |
| WordleSolution.GuessNext | A1/a1_solution.py:333-362 | returns the first word left after the repeated-letter filter and the filter by every history entry; returns None iff no word is left. The result is a function of (vocab, history) alone, so it is deterministic |
| WordleSolution.FilterByMarks | A1/a1_solution.py:353-354 | the loop over the marks of one history entry ends with the vocabulary filtered by each mark in turn (FilterPositions with the source's zip exemption), and every word left still has six letters |
| WordleSolution.CandidatesMembers | A1/a1_solution.py:347-362 | every remaining candidate is a vocabulary word without a repeated letter that agrees with every mark of every entry |
| WordleSolution.CandidatesNotGuessed | A1/a1_solution.py:350-354 | on a vocabulary without repeats, no guess of the history remains a candidate, and the candidates have no repeats |
| WordleSolution.SuggestionProperties | A1/a1_solution.py:333-362 | a suggestion is a vocabulary word without a repeated letter that agrees with every mark seen; when the vocabulary has no duplicate words, it was not guessed before (a duplicated word survives `remove_word`, which drops one copy only) |
| WordleSolution.CandidatesShrink | A1/a1_solution.py:347-362 | there are never more candidates than vocabulary words |
| WordleSolution.CandidatesIdempotent | A1/a1_solution.py:347-362 | on a vocabulary without repeated words, filtering the candidates again by the same history gives the same candidates |
| WordleSolution.CandidatesRepeatedWord | A1/a1_solution.py:350-354 | without that condition filtering is not idempotent: for the vocabulary ("abcdef", "abcdef") and a history that guessed "abcdef" correctly, the candidates are ["abcdef"], and filtering those again leaves none, because `remove_word` drops one copy per pass |
| WordleSolution.AsWrittenDropsTheAnswer | A1/a1_solution.py:318-320 | as written, guess "aaqrst" against answer "axyzuv" leaves no suggestion, although the answer is the only vocabulary word |
| WordleSolution.AnswerAgreesWithMarks | A1/a1_solution.py:303-330 | with the corrected exception, the answer agrees with every mark of any guess scored against it |
| WordleSolution.CorrectedFilterKeepsAnswer | A1/a1_solution.py:353-354 | with the corrected exception, filtering by an entry scored against the answer keeps the answer |
| WordleSolution.CorrectedKeepsTheAnswer | A1/a1_solution.py:347-362 | with the corrected exception, the answer stays a candidate when it has no repeated letter and was not guessed; so a suggestion is always made |
| WordleSolution.MinimalFixDropsTheAnswer | A1/a1_solution.py:316-320 | with the exemption of the loop body (a letter marked CORRECT elsewhere) applied to the whole processed guess, "llqrst" against "axlzuv" still loses the answer on the second 'l', while the corrected exemption keeps it |
| WordleStudent.HasWon | A1/a1.py:30-46 | won iff both words are 6 letters long and equal |
| WordleStudent.HasLost | A1/a1.py:49-61 | lost iff guess_number >= 6 |
| WordleStudent.RemoveWord | A1/a1.py:64-84 | the loop copies exactly the elements different from the word, in order |
| WordleStudent.WithoutProperties | A1/a1.py:78-84 | no occurrence of the word is left, every other word keeps its number of occurrences, and the result is a subsequence of the input |
| WordleStudent.ProcessGuess | A1/a1.py:120-177 | the nested loops compute exactly the scored guess. For two 6-letter words this is the marks after the duplicate pass at every location; for any other lengths it is None |
| WordleStudent.ScoredResolves | A1/a1.py:131-177 | for two 6-letter words the result exists, has 6 marks, and every position is resolved |
| WordleStudent.ScoredMarks | A1/a1.py:136-173 | a position ends CORRECT iff it is the first match of its letter. A MISPLACED position holds a letter of the answer that matches nowhere in the guess. A letter absent from the answer ends INCORRECT |
| WordleStudent.SelfGuess | A1/a1.py:152-167 | process_guess(w, w) is all CORRECT iff w has no repeated letter |
| WordleStudent.UpdateHistory | A1/a1.py:180-196 | the history grows by exactly (guess, process_guess(guess, answer)), and its prefix is unchanged |
| WordleStudent.CollectClues | A1/a1.py:309-319 | the loop reads the clue lists off the history. Correct letters with their positions come in guess order, misplaced letters each once, and every other letter is appended to the abandoned string |
| WordleStudent.CluesOfOk | A1/a1.py:309-319 | letters and positions pair up, every position is below 6, no misplaced letter is listed twice, and each past guess adds 6 clues |
| WordleStudent.FilterVocab | A1/a1.py:323-345 | the loops append each vocabulary word, in order, once per clue or clue pair it satisfies |
| WordleStudent.GuessNextCandidates | A1/a1.py:291-350 | the collected words, or None when nothing was collected |
| WordleStudent.FilteredMembers | A1/a1.py:323-347 | a word is collected iff it is in the vocabulary and satisfies at least one clue or clue pair |
| WordleStudent.HitsMeaning | A1/a1.py:323-345 | a word is appended iff the abandoned string is not a substring of it, and it fits some correct letter and some misplaced letter, whichever kinds exist |
| WordleStudent.NextCandidatesFit | A1/a1.py:323-350 | every collected word comes from the vocabulary and fits the clues; None is returned iff nothing was collected |
| WordleStudent.NoHistoryNoCandidates | A1/a1.py:323-348 | with an empty history nothing is collected, and the result is None |
| WordleStudent.NothingAbandonedNoCandidates | A1/a1.py:323-348 | when no letter was abandoned, nothing is collected, because the empty string is in every word |
| WordleStudent.AsWrittenKeepsTwoMisplaced | A1/a1.py:152-173 | as written, "bbbxyz" against "acdbef" scores MISPLACED, INCORRECT, MISPLACED, INCORRECT, INCORRECT, INCORRECT |
| WordleIntended.OneMarkPerLetter | A1/a1.py:160-173 | with the intended marks, each letter has at most one position that is not INCORRECT, and never a second MISPLACED |
| WordleIntended.CorrectedScoresIntended | A1/a1.py:152-173 | with the corrected test, every mark is the intended one |
| WordleIntended.AsWrittenMissesIntended | A1/a1.py:170-173 | as written, the third 'b' of "bbbxyz" is MISPLACED where INCORRECT is intended |
| MazeEntities.TileBehaviour | A2/a2.py:54-214 | a wall always blocks; the base tile, empty floor and lava never do; a door blocks iff it shows the door ID; only lava shows the lava ID and does damage |
| MazeEntities.Door.constructor | A2/a2.py:187-190 | a new door is blocking and shows the door ID |
| MazeEntities.Door.Unlock | A2/a2.py:211-214 | afterwards the door is non-blocking and shows the empty ID, whatever its state before; so unlocking is idempotent |
| MazeEntities.NameIsKind | A2/a2.py:594-604 | two items share an inventory key iff they are of the same kind |
| MazeEntities.Clamp | A2/a2.py:331-365 | the result lies within the bounds; it is the value itself when in range, and the nearer bound otherwise |
| MazeEntities.Player.constructor | A2/a2.py:307-317 | a new player is at the given position with hunger 0, thirst 0, health MAX_HEALTH and an empty inventory |
| MazeEntities.Player.SetPosition | A2/a2.py:277-284 | only the position changes |
| MazeEntities.Player.ChangeHunger | A2/a2.py:331-341 | hunger becomes old+amount clamped to [MIN_HUNGER, MAX_HUNGER]; nothing else changes |
| MazeEntities.Player.ChangeThirst | A2/a2.py:343-353 | thirst becomes old+amount clamped to [MIN_THIRST, MAX_THIRST]; nothing else changes |
| MazeEntities.Player.ChangeHealth | A2/a2.py:355-365 | health becomes old+amount clamped to [MIN_HEALTH, MAX_HEALTH]; nothing else changes |
| MazeEntities.ApplyItem | A2/a2.py:384-560 | a potion heals by POTION_AMOUNT, water changes thirst by WATER_AMOUNT, an apple or honey changes hunger by its amount, and a coin does nothing. Every change is clamped, and every other stat is unchanged |
| MazeEntities.Added | A2/a2.py:594-604 | add_item appends the item under its class name, creating the key if missing. No other key changes, and no key maps to an empty list |
| MazeEntities.Dropped | A2/a2.py:612-634 | an unknown name leaves the dictionary unchanged. Otherwise the list loses its first item and the key goes when the list empties. Other names are untouched, and no key maps to an empty list |
| MazeEntities.StockedGroups | A2/a2.py:574-592 | an inventory built from a list holds, under each name, exactly that name's items in their original order |
| MazeEntities.StockedNoEmptyList | A2/a2.py:574-592 | an inventory built from a list has no empty entry |
| MazeEntities.DropUndoesAdd | A2/a2.py:594-634 | removing by name right after adding the first item of that name gives the inventory back |
| MazeEntities.Inventory.constructor | A2/a2.py:574-592 | the dictionary is the initial items added one by one |
| MazeEntities.Inventory.AddItem | A2/a2.py:594-604 | the dictionary becomes `Added` of the old one |
| MazeEntities.Inventory.RemoveItem | A2/a2.py:612-634 | returns None for an unknown name, otherwise the first instance; the dictionary becomes `Dropped` of the old one |
| MazeRunner.SanitizedRowClean | A2/a2.py:684-688 | a recorded row holds no coin ID and no line break |
| MazeRunner.ScanLines | A2/a2.py:692-704 | row text made of whole lines is rebuilt as one tile list per line, with nothing left over |
| MazeRunner.MazeFromRows | A2/a2.py:676-704 | after add_row of each row, the maze holds one tile list per row, each as long as its row: a wall for the wall ID, the door for the door ID, and empty floor for everything else, lava included |
| MazeRunner.ScanNoLava | A2/a2.py:692-704 | add_row never builds a lava tile |
| MazeRunner.Maze.constructor | A2/a2.py:659-670 | a new maze has empty row text, no tiles and a locked door |
| MazeRunner.Maze.AddRow | A2/a2.py:676-704 | the row text gains the row plus a line break, with IDs outside (WALL, DOOR, LAVA, WATER, APPLE, HONEY, POTION) written as EMPTY. The tiles are rebuilt from the whole text. No coin and no lava ever appear |
| MazeRunner.Maze.UnlockDoor | A2/a2.py:714-716 | the shared door becomes unlocked |
| MazeRunner.NoLavaInValidMaze | A2/a2.py:980-981 | a tile looked up in a maze built by add_row never shows the lava ID, so the lava damage branch never fires |
| MazeRunner.GetTileOfRows | A2/a2.py:718-725 | a lookup at a cell of the added rows gives the tile that the cell's ID names |
| MazeRunner.GetTileWraps | A2/a2.py:718-725 | a negative row index wraps round to the bottom rows, as Python list indexing does |
| MazeRunner.RowItemsAt | A2/a2.py:775-794 | Level.add_row places an item exactly at the cells of the row with an item ID, keyed (rows added so far, column), and it is the item that ID names |
| MazeRunner.LastIndexOf | A2/a2.py:791-792 | the player is placed at the last player ID of the row |
| MazeRunner.Level.constructor | A2/a2.py:744-756 | a new level has no player, no items, no rows, and a fresh maze |
| MazeRunner.Level.AttemptUnlockDoor | A2/a2.py:762-765 | unlocks the door when the check holds, and otherwise leaves it as it was |
| MazeRunner.Level.AddRow | A2/a2.py:767-794 | the maze gains the row, the items gain that row's items, the row counter goes up by one, and a new player stands at the row's last player ID if there is one |
| MazeRunner.Level.RemoveItem | A2/a2.py:842-846 | the item at the position goes when the tile shows an item-entity ID; otherwise nothing changes |
| MazeRunner.PlayerStartAfterRow | A2/a2.py:867-873 | after a row with a player ID, the player start is that row's last player cell |
| MazeRunner.CoinClearedNoCoin | A2/a2.py:999-1006 | blanking a collected coin never writes a coin ID into the row text |
| MazeRunner.CorrectedCoinClearsCell | A2/a2.py:999-1006 | with the corrected index, blanking changes exactly the coin's cell of the row text |
| MazeRunner.AsWrittenCoinIndexHitsLineBreak | A2/a2.py:999-1006 | as written, collecting the coin of row "PC#" blanks the line break instead of the coin's cell |
| MazeRunner.LinesHaveNoCoin | A2/a2.py:684-688 | row text built by add_row never contains the coin ID |
| MazeRunner.AsWrittenUnlocksWithCoinLeft | A2/a2.py:762-765 | as written, the door check passes for every level built from rows, even with a coin still on the level |
| MazeRunner.CorrectedUnlocksIffNoCoin | A2/a2.py:762-765 | with the corrected check, a level built from one row opens its door iff the row placed no coin |
| MazeRunner.Model.constructor | A2/a2.py:900-913 | a new model is at level 0, not won, not lost, not levelled up, with no moves |
| MazeRunner.Model.LevelUp | A2/a2.py:934-941 | the level index goes up by one. Won is set iff the new index equals the number of levels; otherwise did_level_up is set |
| MazeRunner.Model.HasLost | A2/a2.py:921-928 | the game is lost iff health <= MIN_HEALTH, hunger >= MAX_HUNGER or thirst >= MAX_THIRST, now or before; once lost it stays lost |
| MazeRunner.Model.AttemptCollectItem | A2/a2.py:989-1007 | an item at the position goes into the inventory; a coin is blanked in the row text; the item leaves the level when the tile shows an item-entity ID. Without an item nothing changes |
| MazeRunner.Model.MovePlayer | A2/a2.py:948-987 | a move into a wall changes nothing. Otherwise: the move count goes up; the position becomes old+delta; health drops by 1, clamped; every 5th move raises hunger and thirst by 1; an item at the target is collected; the door check runs. The level index never changes |
| MazeShop.ShopListPrices | A3/a3.py:15-16 | apple and water cost 1, honey and potion 2, and candy 3. Candy is on sale iff the shop was drawn. No good is a coin, and each is filed under its capitalised name |
| MazeShop.NumCoin | A3/a3.py:376-385 | the length of the "Coin" list, or 0 when there is no such key |
| MazeShop.NumCoinCountsCoins | A3/a3.py:376-385 | for an inventory built from a list, the coin count is the number of coins in that list |
| MazeShop.DroppedNTakesFirst | A3/a3.py:559-560 | k removals by name take the first k items of that name, or all of them when fewer |
| MazeShop.DroppedNKeepsOthers | A3/a3.py:559-560 | removals by one name leave every other name alone |
| MazeShop.PurchaseEffect | A3/a3.py:557-561 | when the coins suffice, exactly the price in coins is removed and exactly one item of the bought kind is added; nothing else changes |
| MazeShop.TryBuyItem | A3/a3.py:549-562 | an unknown name is reported and changes nothing. The purchase goes ahead iff coin_num >= price; then the inventory becomes `Purchased`. When coins are short, the inventory is unchanged |
| MazeShop.ApplyCandy | A3/a3.py:736-745 | hunger changes by -10 and health by -2, both clamped; nothing else changes |
| MazeShop.TimerLabelOffByOne | A3/a3.py:698-706 | the label shows minutes t // 60 and seconds t % 60 - 1: seconds run from -1 to 58, show -1 exactly on whole minutes, and minutes*60 + seconds + 1 == t |

## Left out

- File and console I/O are not modelled:
  - `load_game` is left out; `Model` is built from a given list of levels.
  - `prompt_user` and the `print_*` functions are left out.
  - The game drivers `game_play`, `play_again`, `play_round` and `main` are left out.
- Word-list loading and `choose_word` are left out, because they live in a support module that is not part of this model, and `choose_word` is likely random:
  - `WordleStudent.GuessNextCandidates` stops at the filtered list and returns it instead of a chosen word.
  - `a1.py`'s final `else` branch of that filter cannot be reached, so it is omitted.
- All tkinter and PIL code is left out: views, frames, menus, dialogs, the `after`-driven timer and save/load.
- `A3/pure_enjoy.py` is not part of this model.
- The floating-point cell size in `ImageLevelView.draw` is left out.
- `__str__` and `__repr__` text formatting is left out, including `Inventory.__str__`, which accumulates text across calls.
- Shared instances are modelled by value, so their aliasing is not modelled:
  - `SHOP_LIST` holds one shared instance per good, which every purchase adds again.
  - The maze's single `Door` object is kept: every door cell reads the maze's one door.
- `Level.add_entity` and `Level.add_player_start` are left out. Their "build a row when the maze is empty" path is test scaffolding.
- Trivial getters are left out: `get_items`, `get_dimensions`, `has_won`, `did_level_up` and `get_player_stats`.
- `Inventory(None)`, the default argument, is left out: the source fails on it (`len(None)`), so the model takes a list.
- Game constants take representative values, as described above.
- WordleSolution.ProcessGuess: requires equal lengths. The source requires both words to have 6 letters and fails with an `IndexError` on a short answer.
- WordleSolution.RemoveWord: requires the word to be present, as the source's precondition does. The source raises `ValueError` otherwise.
- WordleSolution.UpdateStats: requires 1 <= guess_number <= len(stats). Python's negative indexing for 0 is not modelled.
- WordleSolution.GuessNext: requires vocabulary words and history entries of exactly 6 letters. The source may raise `IndexError` on shorter words (an INCORRECT mark never reads the candidate's letter, so not always) and accepts longer ones.
- WordleStudent.GuessNextCandidates: requires every history entry to be readable at six positions and every vocabulary word to have at least 6 letters (the word list holds only 6-letter words). The source raises `IndexError` on a short history entry.
- MazeRunner.Model.MovePlayer: requires the target cell to be inside the tile grid. The source raises `IndexError` there, and that error path is not modelled.
- MazeRunner.Model.HasLost: requires a current level (0 <= level number < number of levels) that has a player. Past the last level, `get_level` raises `IndexError` (A2/a2.py:932). On a level without a 'P', `get_player` returns `None` (A2/a2.py:1011), and reading the player's stats raises `AttributeError`. Neither error path is modelled.
- MazeRunner.Model.AttemptCollectItem: requires a current level that has a player, as HasLost does. The source fails with `IndexError` or `AttributeError` otherwise.
- MazeRunner.Model.MovePlayer: also requires a current level that has a player, as HasLost does. Without one, the move fails with `AttributeError` at A2/a2.py:967.
- MazeRunner.Level.RemoveItem: requires an item at the position when the tile shows an item-entity ID, as the source's precondition does. The source raises `KeyError` otherwise.

## Findings

| source | as written | input that shows it | evidently intended | confidence | as-written member | corrected member |
|---|---|---|---|---|---|---|
| A1/a1_solution.py:318-320 | the duplicate exception zips `guess` with the one-character `status`, so it only checks (guess[0], status) and never clears `false_negative` | guess "aaqrst", answer "axyzuv", vocabulary ["axyzuv"]: the second 'a' is INCORRECT, the filter drops every word containing 'a', and no suggestion is made | the answer stays a candidate, as the comment at A1/a1_solution.py:356-357 expects. The comment at 316-317 spares only a letter marked CORRECT elsewhere, and pairing the guess with the whole processed guess under that CORRECT-only test is not enough: guess "llqrst" against "axlzuv" marks the first 'l' MISPLACED and the second INCORRECT, and the answer is still dropped (WordleSolution.MinimalFixDropsTheAnswer). The corrected rule therefore also spares a letter marked MISPLACED elsewhere in the guess | high, not executed | WordleSolution.AsWrittenDropsTheAnswer | WordleSolution.CorrectedKeepsTheAnswer |
| A1/a1.py:152-173 | `temp_result` is shared across the letters at one location and holds already-rewritten marks, so `len(set(temp_result)) == 1` fails once a letter is resolved to MISPLACED, INCORRECT | "bbbxyz" against "acdbef" scores MISPLACED, INCORRECT, MISPLACED, INCORRECT, INCORRECT, INCORRECT | only the first 'b' MISPLACED | high, not executed | WordleIntended.AsWrittenMissesIntended | WordleIntended.CorrectedScoresIntended |
| A2/a2.py:1000-1002 | coin_index = (row + 1) * width + column - 1 ignores the line break ending each row | one row "PC#" (width 3): collecting the coin at (0, 1) blanks index 3, the line break, instead of index 1 | index row * (width + 1) + column | high, not executed | MazeRunner.AsWrittenCoinIndexHitsLineBreak | MazeRunner.CorrectedCoinClearsCell |
| A2/a2.py:762-765 | the door check looks for the coin ID in the row text, which `Maze.add_row` never writes it into | one row "PCD": the door unlocks while the coin at (0, 1) is still on the level | unlock when no coin is left on the level | high, not executed | MazeRunner.AsWrittenUnlocksWithCoinLeft | MazeRunner.CorrectedUnlocksIffNoCoin |
