/** The classes and the trial loop of barebones_solver.py: `WordList`, `Word` (whose
    `update_word` rules a letter out only when it is not already fixed) and
    `run_basic_trial`. The candidate filter reads the `Word`'s constraint state, and the
    trial hands the strategy the list itself, as the refactor evidently intends. */
module Barebones {
  import opened Sequences
  import opened Oracle
  import opened Constraints
  import opened Strategies
  import opened Trial

  /** The remaining candidates. The list the source reads from a dictionary file is
      given to the constructor. */
  class WordList {
    var wordList: seq<string>

    constructor (initial: seq<string>)
      ensures wordList == initial
    {
      wordList := initial;
    }

    /** `process_word_list`, judging each candidate against the constraint state `k`. */
    method ProcessWordList(k: Knowledge)
      requires k.present.Valid()
      requires forall w :: w in wordList ==> Fits(k, w)
      modifies this
      ensures wordList == Filter(k, old(wordList))
    {
      wordList := FilterWords(k, wordList);
    }
  }

  class Word {
    var word: seq<char>
    const wordLength: nat
    var correct: set<char>
    var present: Spots
    var absent: set<char>
    const wordList: WordList

    /** The fields the candidate filter reads. */
    function State(): Knowledge
      reads this
    {
      Knowledge(word, present, absent)
    }

    ghost predicate Valid()
      reads this, wordList
    {
      && |word| == wordLength
      && present.Valid()
      && (forall w :: w in wordList.wordList ==> Fits(State(), w))
    }

    constructor (wordLength: nat, initial: seq<string>)
      requires forall w :: w in initial ==> wordLength <= |w|
      ensures Valid() && fresh(wordList)
      ensures this.wordLength == wordLength && State() == Initial(wordLength) && correct == {}
      ensures wordList.wordList == initial
    {
      this.wordLength := wordLength;
      word := seq(wordLength, _ => Blank);
      correct := {};
      present := NoSpots;
      absent := {};
      wordList := new WordList(initial);
    }

    /** `process_correct`: every entry of the list, blanks included, joins `correct`. */
    method ProcessCorrect(fill: seq<char>)
      requires |fill| <= |word|
      modifies this`word, this`correct
      ensures word == FillSlots(old(word), fill)
      ensures correct == old(correct) + set c | c in fill
    {
      correct := correct + set c | c in fill;
      for i := 0 to |fill|
        invariant correct == old(correct) + set c | c in fill
        invariant word == FillSlots(old(word), fill[..i])
      {
        assert fill[..i + 1][..i] == fill[..i];
        if fill[i] != Blank && word[i] == Blank {
          word := word[i := fill[i]];
        }
      }
      assert fill[..|fill|] == fill;
    }

    /** `process_present`. */
    method ProcessPresent(t: Spots)
      requires t.Valid()
      modifies this`present
      ensures present == MergeSpots(old(present), t)
    {
      for i := 0 to |t.keys|
        invariant present == MergeKeys(old(present), t.keys[..i], t.at)
      {
        var c := t.keys[i];
        assert t.keys[..i + 1] == t.keys[..i] + [c];
        assert t.keys[..i + 1][..i] == t.keys[..i];
        if c in present.at {
          present := Spots(present.keys, present.at[c := present.at[c] + t.at[c]]);
        } else {
          present := Spots(present.keys + [c], present.at[c := t.at[c]]);
        }
      }
      assert t.keys[..|t.keys|] == t.keys;
    }

    /** `process_absent`. */
    method ProcessAbsent(out: set<char>)
      modifies this`absent
      ensures absent == old(absent) + out
    {
      absent := absent + out;
    }

    /** `update_word`: classify the record, merge it, and filter the candidates. */
    method UpdateWord(score: seq<Entry>)
      requires Valid() && |score| <= wordLength
      modifies this, wordList
      ensures Valid()
      ensures State() == Merge(old(State()), score, true)
      ensures correct == old(correct) + set c | c in CorrectList(score)
      ensures forall w :: w in old(wordList.wordList) ==> Fits(State(), w)
      ensures wordList.wordList == Filter(State(), old(wordList.wordList))
    {
      var fill, marked, out := Classify(score, word);
      ghost var before := State();
      ProcessCorrect(fill);
      ProcessAbsent(out);
      ProcessPresent(marked);
      assert State() == Merge(before, score, true);
      forall w | w in wordList.wordList
        ensures Fits(State(), w)
      {
        MergeFits(before, score, true, w);
      }
      wordList.ProcessWordList(State());
      FilterMembers(State(), old(wordList.wordList));
    }
  }

  /** One pass of the loop in `run_basic_trial` once the strategy has offered `guess`:
      score it against the answer, update the `Word` and record how many slots the score
      fixes. The pass keeps the trial on the course `Play` predicts from its start. */
  method Turn(answer: string, strategy: Strategy, pattern: nat, ghost start: Game,
              word: Word, knowns: Knowns, ghost last: seq<Entry>, guess: string)
      returns (next: Knowns, score: seq<Entry>)
    requires word.Valid() && word.wordLength == |answer| && word.word != answer
    requires Ready(answer, Game(word.State(), word.wordList.wordList, knowns, last)) && knowns.count < MaxGuesses
    requires |guess| == |answer| && Ready(answer, start)
    requires Play(answer, strategy, pattern, true, start) ==
             PlayOn(answer, strategy, pattern, true, Game(word.State(), word.wordList.wordList, knowns, last), guess)
    modifies word, word.wordList
    ensures word.Valid() && word.wordLength == |answer| && next.count == knowns.count + 1
    ensures Ready(answer, Game(word.State(), word.wordList.wordList, next, score))
    ensures Game(word.State(), word.wordList.wordList, next, score) ==
            Advance(answer, true, Game(old(word.State()), old(word.wordList.wordList), knowns, last), guess)
    ensures Play(answer, strategy, pattern, true, start) ==
            Play(answer, strategy, pattern, true, Game(word.State(), word.wordList.wordList, next, score))
  {
    ghost var g := Game(word.State(), word.wordList.wordList, knowns, last);
    score := GetScore(answer, guess, word.word);
    word.UpdateWord(score);
    next := RecordGuess(knowns, CountCorrect(score));
    assert Game(word.State(), word.wordList.wordList, next, score) == Advance(answer, true, g, guess);
  }

  /** `run_basic_trial`: guess with `strategy` until the fixed slots spell the answer or six
      guesses are spent. `lexicon` is the list the source reads for the answer's length.
      The loop computes exactly the guarded `Play` from a fresh `Word`. */
  method RunBasicTrial(answer: string, strategy: Strategy, pattern: nat, lexicon: seq<string>) returns (out: Outcome)
    requires Uniform(lexicon, |answer|)
    ensures out == Play(answer, strategy, pattern, true, Start(answer, lexicon)).out
  {
    var word := new Word(|answer|, lexicon);
    var guessCount: nat := 0;
    var knowns := Knowns(map[], 0, 0);
    ghost var lastScore: seq<Entry> := [];
    ghost var start := Start(answer, lexicon);
    while word.word != answer && guessCount < MaxGuesses
      invariant fresh(word) && fresh(word.wordList)
      invariant word.Valid() && word.wordLength == |answer| && guessCount == knowns.count
      invariant Ready(answer, Game(word.State(), word.wordList.wordList, knowns, lastScore))
      invariant Play(answer, strategy, pattern, true, start) ==
                Play(answer, strategy, pattern, true, Game(word.State(), word.wordList.wordList, knowns, lastScore))
      decreases MaxGuesses - guessCount
    {
      ghost var g := Game(word.State(), word.wordList.wordList, knowns, lastScore);
      guessCount := guessCount + 1;
      var guess := Ask(answer, strategy, pattern, true, g, word.wordList.wordList, word.wordLength);
      if guess.None? {
        return Raised(guessCount);
      }
      knowns, lastScore := Turn(answer, strategy, pattern, start, word, knowns, lastScore, guess.value);
    }
    out := Finished(TrialResult(word.word == answer, answer, guessCount, knowns.perGuess));
  }
}
