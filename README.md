# Wordle simulator: constraint engine, in Dafny

This project models the engine of a Wordle simulator and proves properties of it. The simulator plays a hidden answer word against a word list. Each guess gets a feedback record, with one `[letter, score]` pair per guessed letter:

- 2: the letter is in the right place.
- 1: the letter is present elsewhere.
- 0: the letter is absent.

A `Word` object accumulates what the records reveal:

- `word`: the fixed slots, with a space for each slot not yet known.
- `present`: an insertion-ordered dict from a letter to the indices where it is known not to be.
- `absent`: the letters ruled out.
- `correct`: the letters seen with a 2.

After every guess, the candidate list is filtered against that state. Six strategies pick the next guess from the remaining candidates:

- basic, unique, column, column_unique, pattern and pattern_unique.
- Each uses letter, column or substring frequencies.
- Each takes the first maximal entry of a `Counter`.

A trial runs at most six guesses.

Two versions of the engine exist, and both are modelled:

- **barebones_solver.py** splits the state into `Word` and `WordList`. Its `update_word` rules out a 0-scored letter only when that letter is not already a fixed slot. The module is an unfinished refactor:
  - the filter is called on the wrong object;
  - the strategy is handed the `WordList` object instead of its list.

  The model takes the evident intent: the filter reads the `Word`'s constraint state, and the strategy receives the list.
- **test.py** has one `Word` class that holds its own list. Its `update_word` rules out every 0-scored letter.

Module layout, one file each:

- `Sequences`: order-preserving sublists (`Subseq`), `Select`, `Distinct`.
- `Oracle`: `check_doubles` and `get_score`. The two files have identical copies, nested in `run_basic_trial`.
- `Constraints`: the constraint state as a value (`Knowledge`), and the merge of one feedback record into it (`Merge`, with the guard as a flag). It also holds:
  - the candidate filter (`Filter`);
  - the loops that implement them (`Classify`, `IsAbsent`, `IsPresent`, `IsCorrect`, `FilterWords`);
  - the soundness lemmas.
- `Strategies`: `get_most_common_letters`, `get_unique_words` and the six strategies, as functions. `Counter.most_common(1)` becomes `Choose`, the first entry with the largest tally.
- `Trial`: the result tuple of `run_basic_trial`, the `knowns_per_guess` bookkeeping, and the trial as a recursive function `Play` over the state a pass of the loop leaves (`Game`: the constraint state, the candidates, the bookkeeping and the last record). It also holds `Ask`, the strategy's call in a pass.
- `Barebones`: the `WordList` and `Word` classes and `run_basic_trial` of barebones_solver.py.
- `Prototype`: the `Word` class and `run_basic_trial` of test.py, and the counterexample for its unguarded update.

The classes keep the source's fields and update them in place. Each method is specified against the functions of `Constraints`: for example, `UpdateWord` ensures `State() == Merge(old(State()), score, guarded)`. Each `RunBasicTrial` ensures that its loop returns exactly what `Play` returns from a fresh `Word`. The properties are proved about those functions.

## Model

| member | source | states |
|---|---|---|
| Oracle.ShortAnswerHas | barebones_solver.py:226 | `short_answer` holds `c` iff some position of the answer holds `c` while `known` does not fix `c` there |
| Oracle.CheckDoubles | barebones_solver.py:224-227 | `check_doubles(answer, c, known)` holds iff some position of the answer holds `c` while `known` does not fix `c` there |
| Oracle.Feedback | barebones_solver.py:229-238 | one pair per guessed letter, in guess order, holding that letter; its mark is 2 iff the letter matches the answer there, 1 iff it does not match but is in the answer and `check_doubles` holds, and 0 otherwise |
| Oracle.GetScore | barebones_solver.py:229-238 | one pair per guessed letter, in guess order: 2 where the guess matches the answer, else 1 iff the letter is unaccounted for in the answer, else 0 |
| Oracle.BlankKnownPresent | barebones_solver.py:232-235 | with nothing fixed yet, a non-matching letter scores 1 iff it occurs in the answer |
| Oracle.MissingLetterAbsent | barebones_solver.py:234-237 | a letter that does not occur in the answer scores 0 |
| Oracle.CountCorrect | barebones_solver.py:249 | `[ele[1] for ele in guess_score].count(2)`: the number of entries scored 2 in the record |
| Oracle.CountCorrectBound | barebones_solver.py:249 | the count of 2s in a record is at most its length, and equals it iff every entry is a 2 |
| Oracle.HelloExamples | test.py:157-166 | against "hello" with nothing fixed: "hello" scores all 2s; "ollhe" scores 1,1,2,1,1; "xzxzx" scores all 0s |
| Sequences.SubseqTrans | barebones_solver.py:52-57 | an order-preserving sublist of an order-preserving sublist is one of the original, so the candidates stay a sublist of the dictionary across guesses |
| Sequences.Select | barebones_solver.py:129-131 | a list comprehension with a condition keeps exactly the elements that pass, in order, each as many times as it occurs |
| Constraints.MergeSpots | barebones_solver.py:75-81 | `process_present`: existing keys keep their indices united with the new ones; the key order is the old keys followed by the new dict's keys not yet present, in the new dict's order; nothing is removed; validity is kept |
| Constraints.MergeKeysOrder | barebones_solver.py:77-81 | the loop over distinct keys appends exactly the keys not yet present, in the order it meets them, after the old keys |
| Constraints.FillSlotsAt | barebones_solver.py:71-73 | `process_correct` writes a letter into slot i only when the slot is blank and the entry is not blank; every other slot keeps its value |
| Constraints.FillSlotsTwice | barebones_solver.py:71-73 | filling the same list twice changes nothing the second time |
| Constraints.Misplaced | barebones_solver.py:94-98 | the local `present` dict maps each letter to exactly the positions it was scored 1 at, and holds no other key; its keys come in the order of each letter's first 1 in the record |
| Constraints.MisplacedFirstKey | barebones_solver.py:94-98 | the first key of that dict, the one `is_present` decides on (barebones_solver.py:34-44), is the letter of the record's first entry scored 1 |
| Constraints.Classify | barebones_solver.py:88-102 | the classifying loop yields the `correct` list (the letter at 2s, a blank elsewhere), the `present` dict, and the set of 0-scored letters outside the excluded ones |
| Constraints.Merge | barebones_solver.py:86-105 | `update_word` before the re-filtering keeps the number of slots; what it adds is stated by `MergeGrows` and `MergeAbsent` |
| Constraints.MergeGrows | barebones_solver.py:68-84 | one update never unfixes or overwrites a slot, fixes every blank slot scored 2, keeps every present key and index, and only adds absent letters |
| Constraints.MergeAbsent | barebones_solver.py:92-93 | a newly ruled-out letter was scored 0 in the record, and under the guard it was not already a fixed slot |
| Constraints.MergeTwice | barebones_solver.py:86-105 | merging the same record twice gives the state of merging it once |
| Constraints.MergeKeysNothingNew | barebones_solver.py:77-81 | `process_present` with keys and indices already recorded leaves the dict unchanged |
| Constraints.IsAbsent | barebones_solver.py:28-32 | the early-return loop answers true iff no letter of the word has been ruled out |
| Constraints.IsPresent | barebones_solver.py:34-44 | with an empty `present`, true; otherwise it decides on the first key alone: the word must contain it, and not at any of its excluded indices |
| Constraints.IsCorrect | barebones_solver.py:46-50 | true iff the word agrees with every fixed slot |
| Constraints.FilterWords | barebones_solver.py:52-57 | the loop builds exactly the list of the candidates that pass all three checks, in order |
| Constraints.Filter | barebones_solver.py:52-57 | every word of the new list was a candidate and passes all three checks |
| Constraints.FilterMembers | barebones_solver.py:52-57 | a word survives the filter iff it was a candidate and passes all three checks |
| Constraints.FilterSubseq | barebones_solver.py:52-57 | the new list is an order-preserving sublist of the old one, so it never grows |
| Constraints.FilterAllKept | barebones_solver.py:52-57 | when every candidate passes, the list is unchanged |
| Constraints.FilterIdempotent | barebones_solver.py:52-57 | filtering a second time against the same state removes nothing |
| Constraints.ConsistentInitial | barebones_solver.py:60-65 | the empty state of a fresh `Word` is true of every answer of its length |
| Constraints.ConsistentKeeps | barebones_solver.py:27-50 | a state that is true of the answer lets the answer through all three checks |
| Constraints.MergedSlotsConsistent | barebones_solver.py:99-103 | after a true record, every fixed slot holds the answer's letter |
| Constraints.GuardedAbsentConsistent | barebones_solver.py:92-93 | with the guard, no letter of the answer is ever ruled out |
| Constraints.MarkedConsistent | barebones_solver.py:94-98 | a letter scored 1 occurs in the answer, and not at any position where it was scored 1 |
| Constraints.MergedPresentConsistent | barebones_solver.py:94-105 | after a true record, every present key occurs in the answer and avoids its excluded indices |
| Constraints.GuardedMergeConsistent | barebones_solver.py:86-105 | the guarded update keeps the state true of the answer |
| Constraints.GuardedUpdateKeepsAnswer | barebones_solver.py:86-106 | the guarded update never filters the answer out of the candidates |
| Constraints.FixedAndAbsentEmpties | barebones_solver.py:28-50 | a state with a fixed slot whose letter is also ruled out admits no candidate at all |
| Constraints.UnguardedZeroAndTwoEmpties | test.py:83-98 | without the guard, a record that scores a letter 2 at one position and 0 at another empties the candidate list |
| Strategies.Concat | barebones_solver.py:110 | `"".join(word_list)` holds exactly the letters of the words |
| Strategies.First | barebones_solver.py:110-111 | the index of the first occurrence, which is the order `Counter` gives its keys |
| Strategies.LettersMembers | barebones_solver.py:110 | the keys of `Counter(text)` are exactly the letters of the text |
| Strategies.LettersOrder | barebones_solver.py:110 | the keys come in order of first occurrence |
| Strategies.InsertMultiset | barebones_solver.py:111 | inserting a key into the ranking adds exactly that key |
| Strategies.InsertSorted | barebones_solver.py:111 | stable insertion of a later key keeps the ranking sorted by falling count, with ties in insertion order |
| Strategies.SortByCountMultiset | barebones_solver.py:111 | `most_common()` is a permutation of the keys |
| Strategies.SortByCountSorted | barebones_solver.py:111 | `most_common()` is sorted by falling count, with ties kept in insertion order |
| Strategies.RankingMembers | barebones_solver.py:109-113 | the reversed ranking holds exactly the letters of the text |
| Strategies.RankingOrder | barebones_solver.py:109-113 | the reversed ranking runs by rising count, and among equal counts the later-seen letter comes first |
| Strategies.MostCommonLetters | barebones_solver.py:109-113 | `get_most_common_letters` lists exactly the letters of the joined word list |
| Strategies.MostCommonLettersOrder | barebones_solver.py:109-113 | `get_most_common_letters` lists exactly the letters of the word list, from the rarest to the commonest, with ties in reverse first-occurrence order |
| Strategies.MostCommonLettersAscending | barebones_solver.py:109-113 | no letter is listed twice, and counts never fall along the list |
| Strategies.ReverseMembers | barebones_solver.py:112 | `reverse()` keeps the same elements |
| Strategies.FirstMax | barebones_solver.py:126 | the index of a largest weight, before which every weight is smaller |
| Strategies.Choose | barebones_solver.py:121-126 | `counter.most_common(1)[0][0]`: a word of the pool, whose tally no other word exceeds, and no earlier word ties |
| Strategies.RankScoreMonotone | barebones_solver.py:121-124 | a word with at least the letters of another has at least its letter-rank score |
| Strategies.LetterSetSize | barebones_solver.py:131 | `len(set(word))` is at most the word's length, and equals it iff no letter repeats |
| Strategies.UniqueWords | barebones_solver.py:129-131 | `get_unique_words` keeps, in order, exactly the words whose letter set has n elements, each as many times as it occurs |
| Strategies.UniqueWordsDistinct | barebones_solver.py:129-131 | in a list of n-letter words, `get_unique_words` keeps, in order, exactly the words that repeat no letter, each as many times as it occurs |
| Strategies.ColumnCountBounds | barebones_solver.py:152-159 | a column count is at most the number of words, and positive iff some word has that letter there |
| Strategies.ColumnScoreSelf | barebones_solver.py:161-164 | a word of the list scores at least one per letter and at most the list length per letter |
| Strategies.OccursAt | barebones_solver.py:193 | a window of the word occurs in it (`pattern in word`) |
| Strategies.WordWindows | barebones_solver.py:191 | a word of length n has n-p+1 windows of length p, each occurring in it |
| Strategies.Windows | barebones_solver.py:191 | every counted window occurs in some word, and a non-empty list yields a window |
| Strategies.MostCommonPattern | barebones_solver.py:191-193 | the commonest window occurs in some candidate |
| Strategies.PatternWords | barebones_solver.py:193 | the pattern words are, in order, exactly the candidates holding the commonest window, each as many times as it occurs, and there is at least one |
| Strategies.GuessBasic | barebones_solver.py:116-126 | a candidate with the highest letter-rank tally, and the first such |
| Strategies.GuessUnique | barebones_solver.py:134-147 | a candidate; when some candidate repeats no letter, such a word with the highest tally among them; otherwise exactly `guess_basic` |
| Strategies.GuessColumn | barebones_solver.py:150-166 | a candidate with the highest column tally, and the first such |
| Strategies.GuessColumnUnique | barebones_solver.py:169-186 | a candidate; when some candidate repeats no letter, such a word with the highest column tally; otherwise exactly `guess_column` |
| Strategies.GuessPattern | barebones_solver.py:189-201 | a candidate holding the commonest window, with the highest letter-rank tally among the pattern words |
| Strategies.GuessPatternUnique | barebones_solver.py:204-219 | a candidate holding the commonest window, repeating no letter when such a pattern word exists; otherwise exactly `guess_pattern` |
| Strategies.Guess | barebones_solver.py:247 | the strategy call fails (`IndexError`) exactly on an empty list, zero-length words, or a pattern longer than the words; otherwise it returns a candidate of the right length |
| Trial.TurnsMembers | barebones_solver.py:245-250 | the recorded guess numbers are exactly 1 to `guess_count` |
| Trial.SumKnownsFrame | barebones_solver.py:250 | a later guess's entry does not change the sum over earlier guesses |
| Trial.KnownsStep | barebones_solver.py:249-251 | recording this guess's 2-count minus the previous one makes the entries sum to this guess's 2-count |
| Trial.RecordGuess | barebones_solver.py:249-251 | one step of `knowns_per_guess` keeps its keys 1..guess_count and its sum equal to the latest 2-count |
| Trial.RecordGuessKeeps | barebones_solver.py:250 | recording a guess leaves every earlier guess's entry as it was |
| Trial.Start | barebones_solver.py:240-243 | a fresh `Word` and empty bookkeeping: the candidates are the dictionary list, no guess is made, and the empty state is true of the answer |
| Trial.Advance | barebones_solver.py:246-251 | one pass of the loop: the record is the feedback for the guess against the current slots, the state is the merge of that record, the candidates an order-preserving sublist, the guess count one more, and `knowns_per_guess` updated by one step |
| Trial.AdvanceFilters | barebones_solver.py:248 | the candidates after a pass are the old ones re-filtered by the merged state, and the record is the feedback for the guess |
| Trial.PlayCases | barebones_solver.py:245-247 | the trial stops at once with the tuple read off the state when the slots spell the answer or six guesses are spent; otherwise a strategy with no word ends it at the next guess |
| Trial.PlayStep | barebones_solver.py:245-251 | otherwise a guess moves the trial on to the state one pass leaves |
| Trial.Ask | barebones_solver.py:247 | the strategy's call: a raise ends the trial at this guess; otherwise its word has the answer's length and the trial goes on from it |
| Trial.PlayEnds | barebones_solver.py:245-253 | a finished trial returns the tuple of its final state, with the slots spelling the answer or six guesses spent; a raised trial stopped where the strategy had no word |
| Trial.PlayLexicon | barebones_solver.py:247-248 | the candidates stay an order-preserving sublist of the dictionary for the whole trial |
| Trial.PlayKeepsRecorded | barebones_solver.py:250 | a guess's entry in `knowns_per_guess`, once recorded, is never changed |
| Trial.AdvanceKeepsAnswer | barebones_solver.py:247-248 | one guarded pass keeps the state true of the answer and the answer among the candidates |
| Trial.PlayKeepsAnswer | barebones_solver.py:245-253 | with the guard, a trial from a state true of the answer with the answer a candidate always finishes, and keeps both |
| Trial.TrialOutcome | barebones_solver.py:222-253 | at most six guesses; success iff the fixed slots spell the answer; fewer than six guesses only on success; `knowns_per_guess` has keys 1..guess_count and sums to the last 2-count; a raise only where the strategy has no word; the candidates a sublist of the dictionary |
| Trial.GuardedTrialKeepsAnswer | barebones_solver.py:222-253 | with the guard and the answer in the dictionary, the trial finishes with the answer still a candidate |
| Barebones.WordList.constructor | barebones_solver.py:24-25 | the candidate list starts as the given dictionary list |
| Barebones.WordList.ProcessWordList | barebones_solver.py:27-57 | the list becomes the filter of the old list against the `Word`'s state |
| Barebones.Word.constructor | barebones_solver.py:60-66 | all slots blank, no present, absent or correct letters, and the candidate list is the dictionary list |
| Barebones.Word.ProcessCorrect | barebones_solver.py:68-73 | `correct` gains every entry of the list, blanks included; `word` becomes the slot fill of the old `word` |
| Barebones.Word.ProcessPresent | barebones_solver.py:75-81 | `present` becomes the merge of the old dict and the given one |
| Barebones.Word.ProcessAbsent | barebones_solver.py:83-84 | `absent` becomes the old set united with the given one |
| Barebones.Word.UpdateWord | barebones_solver.py:86-106 | the new state is the guarded merge of the old state and the record, the candidates are the filter of the old ones, and the invariant is kept |
| Barebones.Turn | barebones_solver.py:247-251 | one pass after the strategy's call: the new `Word` state, its list, `knowns_per_guess` and the score are exactly `Trial.Advance` (guarded) of the old ones, so the trial stays on the course `Play` predicts |
| Barebones.RunBasicTrial | barebones_solver.py:240-253 | the loop returns exactly the outcome of the guarded `Play` from a fresh `Word`, so every property of `Trial.TrialOutcome` and `Trial.GuardedTrialKeepsAnswer` holds of it |
| Prototype.Word.constructor | test.py:19-25 | all slots blank, nothing recorded, and the candidate list is the dictionary list |
| Prototype.Word.ProcessCorrect | test.py:27-33 | `word` becomes the slot fill of the old `word`, and `correct` gains only the non-blank entries |
| Prototype.Word.ProcessPresent | test.py:35-41 | `present` becomes the merge of the old dict and the given one |
| Prototype.Word.ProcessAbsent | test.py:43-44 | `absent` becomes the old set united with the given one |
| Prototype.Word.ProcessWordList | test.py:46-76 | the list becomes the filter of the old list against the object's own state |
| Prototype.Word.UpdateWord | test.py:78-98 | the new state is the unguarded merge of the old state and the record, and the candidates are the filter of the old ones |
| Prototype.Turn | test.py:175-179 | one pass after the strategy's call, with the unguarded update: the new `Word` state, its list, `knowns_per_guess` and the score are exactly `Trial.Advance` (unguarded) of the old ones, so the trial stays on the course `Play` predicts |
| Prototype.RunBasicTrial | test.py:168-185 | the loop returns exactly the outcome of the unguarded `Play` from a fresh `Word`, so every property of `Trial.TrialOutcome` holds of it |
| Prototype.OpeningGuess | test.py:157-166 | against "ab", guess "ac" fixes slot 0 to 'a' and rules out 'c', which is true of the answer |
| Prototype.SecondGuessScore | test.py:157-166 | with slot 0 fixed, guess "aa" against "ab" scores 'a' 2 and then 0 |
| Prototype.SecondUnguarded | test.py:84-85 | the unguarded update on that record drops the answer "ab" |
| Prototype.SecondGuarded | barebones_solver.py:92-93 | the guarded update on that record keeps the answer "ab" |
| Prototype.UnguardedLosesAnswer | test.py:84-85 | the full counterexample: a state true of the answer, a true record, and an unguarded update that empties `["ab"]` where the guarded one keeps it |

test.py's `get_score`, `check_doubles`, `get_most_common_letters`, `get_unique_words` and `guess_basic` (test.py:100-117, 152-166, 187-189) match the barebones versions line for line, apart from printing. Its `guess_pattern` (test.py:119-148) also matches, apart from printing, timing and the precomputed shortcut. The `Oracle` and `Strategies` members above stand for both versions.

In barebones_solver.py, `process_correct` adds the blank entries of the list to `correct` (barebones_solver.py:70); test.py:32-33 leaves them out. Nothing reads `correct`, so each class models its own version.

## Left out

- Reading the dictionaries (`get_word_list`, barebones_solver.py:13-21, test.py:8-16): the constructors and `RunBasicTrial` take the list as a parameter.
- The `__main__` harness of barebones_solver.py: the process pool, the progress bars, the statistics and the JSON output. These are concurrency and I/O.
- precomputation.py and converter.py are not part of this model. They are file I/O at import time and a file conversion. barebones_solver.py imports the precomputed counters but never uses them.
- From test.py: the printing and timing; the `len(word_list) > 12000` shortcut to precomputed data; and the script run at the bottom (test.py:191-193).
- Strategies.Guess: `guess_func` may be any callable in the source; the model offers the six strategies.
- Strategies.Guess requires every candidate to have the trial's word length, as the dictionary lists do.
- Strategies.Guess: a mixed-length list, which could fail inside `guess_column` with an index error, is not modelled.
- Strategies.Guess: `pattern` is a natural number. The source's negative pattern lengths are not modelled.
- Barebones.RunBasicTrial, Prototype.RunBasicTrial: an `IndexError` raised by a strategy is returned as `Raised(turn)` instead of propagating.
- Prototype.RunBasicTrial: the answer-keeping property of `Trial.GuardedTrialKeepsAnswer` is stated for the guarded trial only. The finding below shows that the unguarded trial can lose the answer.
- Strategies.GuessUnique: states the highest tally among the unique words but not the first-maximal tie-break. `Strategies.Choose`, which it returns, proves that tie-break.
- Strategies.GuessColumnUnique: states the highest tally among the unique words but not the first-maximal tie-break; `Strategies.Choose` proves it.
- Strategies.GuessPattern: states the highest tally among the pattern words but not the first-maximal tie-break; `Strategies.Choose` proves it.
- Strategies.GuessPatternUnique: states membership, the pattern and the fallback, but not the maximal tally among the unique pattern words; `Strategies.Choose` proves that.
- Barebones.Word.UpdateWord: Python aliases the set stored for a new `present` key with the local dict. The model copies values, which is indistinguishable here because the local dict is discarded.
- Prototype.Word.UpdateWord: Python aliases the set stored for a new `present` key with the local dict. The model copies values, which is indistinguishable here because the local dict is discarded.

## Findings

| source | as written | input that shows it | evidently intended | confidence | as-written member | corrected member |
|---|---|---|---|---|---|---|
| test.py:84-85 | every letter scored 0 joins `absent`, including a letter that this or an earlier guess fixed in `word`; `is_absent` then rejects every word with that letter, the answer included | answer "ab": guess "ac" fixes slot 0 to 'a'; guess "aa" then scores [('a', 2), ('a', 0)], 'a' joins `absent`, and the candidate list `["ab"]` becomes empty | rule out a 0-scored letter only when it is not a fixed slot, as barebones_solver.py:92 does, so that the answer is never filtered out | high; not executed | Prototype.UnguardedLosesAnswer | Constraints.GuardedUpdateKeepsAnswer |
