/** The self-contained earlier version in test.py: one `Word` class that holds its own
    candidate list, an `update_word` that rules out every 0-scored letter with no guard,
    a `process_correct` that records only the non-blank letters, and the same trial loop. */
module Prototype {
  import opened Sequences
  import opened Oracle
  import opened Constraints
  import opened Strategies
  import opened Trial

  class Word {
    var word: seq<char>
    const wordLength: nat
    var correct: set<char>
    var present: Spots
    var absent: set<char>
    var wordList: seq<string>

    /** The fields the candidate filter reads. */
    function State(): Knowledge
      reads this
    {
      Knowledge(word, present, absent)
    }

    ghost predicate Valid()
      reads this
    {
      && |word| == wordLength
      && present.Valid()
      && (forall w :: w in wordList ==> Fits(State(), w))
    }

    /** The list the source reads from a dictionary file is given here. */
    constructor (wordLength: nat, initial: seq<string>)
      requires forall w :: w in initial ==> wordLength <= |w|
      ensures Valid()
      ensures this.wordLength == wordLength && State() == Initial(wordLength) && correct == {}
      ensures wordList == initial
    {
      this.wordLength := wordLength;
      word := seq(wordLength, _ => Blank);
      correct := {};
      present := NoSpots;
      absent := {};
      wordList := initial;
    }

    /** `process_correct`: fill the blank slots; only the letters, not the blanks, join `correct`. */
    method ProcessCorrect(fill: seq<char>)
      requires |fill| <= |word|
      modifies this`word, this`correct
      ensures word == FillSlots(old(word), fill)
      ensures correct == old(correct) + set c | c in fill && c != Blank
    {
      for i := 0 to |fill|
        invariant correct == old(correct)
        invariant word == FillSlots(old(word), fill[..i])
      {
        assert fill[..i + 1][..i] == fill[..i];
        if fill[i] != Blank && word[i] == Blank {
          word := word[i := fill[i]];
        }
      }
      assert fill[..|fill|] == fill;
      correct := correct + set c | c in fill && c != Blank;
    }

    /** `process_present`. */
    method ProcessPresent(t: Spots)
      requires t.Valid()
      modifies this`present
      ensures present == MergeSpots(old(present), t)
    {
      for i := 0 to |t.keys|
        invariant present == MergeKeys(old(present), t.keys[..i], t.at)
      {
        var c := t.keys[i];
        assert t.keys[..i + 1] == t.keys[..i] + [c];
        assert t.keys[..i + 1][..i] == t.keys[..i];
        if c in present.at {
          present := Spots(present.keys, present.at[c := present.at[c] + t.at[c]]);
        } else {
          present := Spots(present.keys + [c], present.at[c := t.at[c]]);
        }
      }
      assert t.keys[..|t.keys|] == t.keys;
    }

    /** `process_absent`. */
    method ProcessAbsent(out: set<char>)
      modifies this`absent
      ensures absent == old(absent) + out
    {
      absent := absent + out;
    }

    /** `process_word_list`: keep, in order, the candidates the constraint state admits. */
    method ProcessWordList()
      requires Valid()
      modifies this`wordList
      ensures Valid()
      ensures wordList == Filter(State(), old(wordList))
    {
      wordList := FilterWords(State(), wordList);
      FilterIdempotent(State(), old(wordList));
    }

    /** `update_word`: classify the record with no guard on the 0s, merge it, and filter. */
    method UpdateWord(score: seq<Entry>)
      requires Valid() && |score| <= wordLength
      modifies this
      ensures Valid()
      ensures State() == Merge(old(State()), score, false)
      ensures correct == old(correct) + set c | c in CorrectList(score) && c != Blank
      ensures forall w :: w in old(wordList) ==> Fits(State(), w)
      ensures wordList == Filter(State(), old(wordList))
    {
      var fill, marked, out := Classify(score, []);
      ghost var before, candidates := State(), wordList;
      assert forall w :: w in candidates ==> Fits(before, w);
      ProcessCorrect(fill);
      assert wordList == candidates;
      ProcessAbsent(out);
      assert wordList == candidates;
      ProcessPresent(marked);
      assert wordList == candidates;
      ghost var after := State();
      assert after == Merge(before, score, false);
      forall w | w in candidates
        ensures Fits(after, w)
      {
        MergeFits(before, score, false, w);
      }
      ProcessWordList();
    }
  }

  /** One pass of the loop in `run_basic_trial` once the strategy has offered `guess`:
      score it against the answer, update the `Word` and record how many slots the score
      fixes. The pass keeps the trial on the course `Play` predicts from its start. */
  method Turn(answer: string, strategy: Strategy, pattern: nat, ghost start: Game,
              word: Word, knowns: Knowns, ghost last: seq<Entry>, guess: string)
      returns (next: Knowns, score: seq<Entry>)
    requires word.Valid() && word.wordLength == |answer| && word.word != answer
    requires Ready(answer, Game(word.State(), word.wordList, knowns, last)) && knowns.count < MaxGuesses
    requires |guess| == |answer| && Ready(answer, start)
    requires Play(answer, strategy, pattern, false, start) ==
             PlayOn(answer, strategy, pattern, false, Game(word.State(), word.wordList, knowns, last), guess)
    modifies word
    ensures word.Valid() && word.wordLength == |answer| && next.count == knowns.count + 1
    ensures Ready(answer, Game(word.State(), word.wordList, next, score))
    ensures Game(word.State(), word.wordList, next, score) ==
            Advance(answer, false, Game(old(word.State()), old(word.wordList), knowns, last), guess)
    ensures Play(answer, strategy, pattern, false, start) ==
            Play(answer, strategy, pattern, false, Game(word.State(), word.wordList, next, score))
  {
    ghost var g := Game(word.State(), word.wordList, knowns, last);
    score := GetScore(answer, guess, word.word);
    word.UpdateWord(score);
    next := RecordGuess(knowns, CountCorrect(score));
    assert Game(word.State(), word.wordList, next, score) == Advance(answer, false, g, guess);
  }

  /** `run_basic_trial` of test.py, with the same result tuple and the same six-guess cap.
      `lexicon` is the list the source reads for the answer's length. The loop computes
      exactly the unguarded `Play` from a fresh `Word`. */
  method RunBasicTrial(answer: string, strategy: Strategy, pattern: nat, lexicon: seq<string>) returns (out: Outcome)
    requires Uniform(lexicon, |answer|)
    ensures out == Play(answer, strategy, pattern, false, Start(answer, lexicon)).out
  {
    var word := new Word(|answer|, lexicon);
    var guessCount: nat := 0;
    var knowns := Knowns(map[], 0, 0);
    ghost var lastScore: seq<Entry> := [];
    ghost var start := Start(answer, lexicon);
    while word.word != answer && guessCount < MaxGuesses
      invariant fresh(word)
      invariant word.Valid() && word.wordLength == |answer| && guessCount == knowns.count
      invariant Ready(answer, Game(word.State(), word.wordList, knowns, lastScore))
      invariant Play(answer, strategy, pattern, false, start) ==
                Play(answer, strategy, pattern, false, Game(word.State(), word.wordList, knowns, lastScore))
      decreases MaxGuesses - guessCount
    {
      ghost var g := Game(word.State(), word.wordList, knowns, lastScore);
      guessCount := guessCount + 1;
      var guess := Ask(answer, strategy, pattern, false, g, word.wordList, word.wordLength);
      if guess.None? {
        return Raised(guessCount);
      }
      knowns, lastScore := Turn(answer, strategy, pattern, start, word, knowns, lastScore, guess.value);
    }
    out := Finished(TrialResult(word.word == answer, answer, guessCount, knowns.perGuess));
  }

  /** The record of guess "ac" against "ab", and of guess "aa" once slot 0 holds 'a'. */
  const OpeningScore: seq<Entry> := [Entry('a', Correct), Entry('c', Absent)]
  const SecondScore: seq<Entry> := [Entry('a', Correct), Entry('a', Absent)]

  /** Answer "ab", first guess "ac": slot 0 is fixed to 'a' and 'c' is ruled out, all of
      which is true of the answer. */
  lemma OpeningGuess()
    ensures IsFeedback("ab", "ac", Initial(2).word, OpeningScore)
    ensures var first := Merge(Initial(2), OpeningScore, false);
      first.word == "a " && first.present.Valid() && Consistent(first, "ab")
  {
    assert IsFeedback("ab", "ac", Initial(2).word, OpeningScore) by {
      assert Initial(2).word == "  ";
      assert !Unaccounted("ab", 'c', "  ");
    }
    assert AbsentLetters(OpeningScore, Initial(2).word) == AbsentLetters(OpeningScore, []) by {
      forall i | 0 <= i < |OpeningScore| && OpeningScore[i].score == Absent
        ensures OpeningScore[i].letter !in Initial(2).word
      {
        assert i == 1 && Initial(2).word == "  ";
      }
    }
    assert Merge(Initial(2), OpeningScore, false) == Merge(Initial(2), OpeningScore, true);
    GuardedMergeConsistent(Initial(2), "ab", "ac", OpeningScore);
    MergeGrows(Initial(2), OpeningScore, false);
  }

  /** With slot 0 fixed, the second 'a' of guess "aa" against "ab" is marked 0. */
  lemma SecondGuessScore()
    ensures IsFeedback("ab", "aa", "a ", SecondScore)
  {
    assert !Unaccounted("ab", 'a', "a ");
  }

  /** The state after the first guess. */
  function AfterOpening(): Knowledge {
    Merge(Initial(2), OpeningScore, false)
  }

  /** Without the guard the second record rules out the fixed 'a', and "ab" is dropped. */
  lemma SecondUnguarded()
    ensures Fits(Merge(AfterOpening(), SecondScore, false), "ab")
    ensures Filter(Merge(AfterOpening(), SecondScore, false), ["ab"]) == []
  {
    OpeningGuess();
    MergeFits(Initial(2), OpeningScore, false, "ab");
    MergeFits(AfterOpening(), SecondScore, false, "ab");
    UnguardedZeroAndTwoEmpties(AfterOpening(), SecondScore, ["ab"], 0, 1);
  }

  /** With the guard the fixed 'a' is not ruled out, and "ab" stays. */
  lemma SecondGuarded()
    ensures Fits(Merge(AfterOpening(), SecondScore, true), "ab")
    ensures Filter(Merge(AfterOpening(), SecondScore, true), ["ab"]) == ["ab"]
  {
    OpeningGuess();
    SecondGuessScore();
    MergeFits(Initial(2), OpeningScore, false, "ab");
    MergeFits(AfterOpening(), SecondScore, true, "ab");
    GuardedUpdateKeepsAnswer(AfterOpening(), "ab", "aa", SecondScore, ["ab"]);
    FilterSubseq(Merge(AfterOpening(), SecondScore, true), ["ab"]);
  }

  /** Answer "ab". The first guess "ac" fixes slot 0 and rules out 'c'. The second guess "aa"
      scores its second 'a' 0, since the only 'a' of the answer is already fixed. With no
      guard that 'a' is ruled out although it is fixed, and the answer leaves the candidates;
      with the guard of barebones_solver.py it stays. */
  lemma UnguardedLosesAnswer()
    ensures Consistent(AfterOpening(), "ab")
    ensures IsFeedback("ab", "aa", AfterOpening().word, SecondScore)
    ensures Fits(Merge(AfterOpening(), SecondScore, false), "ab")
    ensures Fits(Merge(AfterOpening(), SecondScore, true), "ab")
    ensures Filter(Merge(AfterOpening(), SecondScore, false), ["ab"]) == []
    ensures Filter(Merge(AfterOpening(), SecondScore, true), ["ab"]) == ["ab"]
  {
    OpeningGuess();
    SecondGuessScore();
    SecondUnguarded();
    SecondGuarded();
  }
}
