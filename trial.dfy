/** What `run_basic_trial` returns, in both barebones_solver.py and test.py, the
    bookkeeping of `knowns_per_guess`, and the whole trial as a function of its inputs
    (`Play`), against which the loops of both versions are proved. */
module Trial {
  import opened Sequences
  import opened Oracle
  import opened Constraints
  import opened Strategies

  /** The largest number of guesses a trial makes. */
  const MaxGuesses: nat := 6

  /** The tuple `(success, answer, guess_count, knowns_per_guess)`. */
  datatype TrialResult = TrialResult(success: bool, answer: string, guessCount: nat, knownsPerGuess: map<nat, int>)

  /** A trial returns its tuple, or ends with the `IndexError` its strategy raised on guess `turn`. */
  datatype Outcome = Finished(result: TrialResult) | Raised(turn: nat)

  /** The guess numbers 1 to `n`. */
  function Turns(n: nat): set<nat>
    decreases n
  {
    if n == 0 then {} else Turns(n - 1) + {n}
  }

  lemma {:induction false} TurnsMembers(n: nat)
    ensures forall g: nat :: g in Turns(n) <==> 1 <= g <= n
    decreases n
  {
    if n > 0 {
      TurnsMembers(n - 1);
    }
  }

  /** The values `m` holds for guesses 1 to `n`, added up. */
  function SumKnowns(m: map<nat, int>, n: nat): int
    requires Turns(n) <= m.Keys
    decreases n
  {
    if n == 0 then 0 else SumKnowns(m, n - 1) + m[n]
  }

  /** Entries past guess `n` do not enter the sum up to `n`. */
  lemma {:induction false} SumKnownsFrame(m: map<nat, int>, n: nat, g: nat, v: int)
    requires Turns(n) <= m.Keys && g > n
    ensures Turns(n) <= m[g := v].Keys
    ensures SumKnowns(m[g := v], n) == SumKnowns(m, n)
    decreases n
  {
    if n > 0 {
      SumKnownsFrame(m, n - 1, g, v);
    }
  }

  /** Recording, for guess `n`, the difference to the previous guess's count of 2s keeps
      the entries adding up to the latest count: `knowns_per_guess` telescopes. */
  lemma KnownsStep(m: map<nat, int>, n: nat, prior: int, all: int)
    requires n >= 1 && m.Keys == Turns(n - 1) && SumKnowns(m, n - 1) == prior
    ensures m[n := all - prior].Keys == Turns(n)
    ensures SumKnowns(m[n := all - prior], n) == all
  {
    SumKnownsFrame(m, n - 1, n, all - prior);
  }

  /** The running `knowns_per_guess` map, the guesses it covers and the latest count of 2s. */
  datatype Knowns = Knowns(perGuess: map<nat, int>, count: nat, prior: int)
  {
    ghost predicate Valid() {
      perGuess.Keys == Turns(count) && SumKnowns(perGuess, count) == prior
    }
  }

  /** Guess `count + 1` found `all` letters fixed in total: record the difference. */
  function RecordGuess(k: Knowns, all: int): (r: Knowns)
    requires k.Valid()
    ensures r.Valid() && r.count == k.count + 1 && r.prior == all
    ensures r.perGuess == k.perGuess[k.count + 1 := all - k.prior]
  {
    KnownsStep(k.perGuess, k.count + 1, k.prior, all);
    Knowns(k.perGuess[k.count + 1 := all - k.prior], k.count + 1, all)
  }

  /** Recording a guess leaves the entries of the earlier guesses as they were. */
  lemma RecordGuessKeeps(k: Knowns, all: int)
    requires k.Valid()
    ensures forall t :: t in k.perGuess ==> t in RecordGuess(k, all).perGuess && RecordGuess(k, all).perGuess[t] == k.perGuess[t]
  {
    TurnsMembers(k.count);
  }

  // ---------------------------------------------------------------------------
  // The trial as a function

  /** Where a trial stands between guesses: the constraint state, the candidates, the
      `knowns_per_guess` bookkeeping and the last feedback record. */
  datatype Game = Game(k: Knowledge, ws: seq<string>, knowns: Knowns, last: seq<Entry>)

  /** What the loop keeps true of its state for `answer`. */
  ghost predicate Ready(answer: string, g: Game) {
    && |g.k.word| == |answer| && g.k.present.Valid()
    && Uniform(g.ws, |answer|)
    && (forall w :: w in g.ws ==> Fits(g.k, w))
    && g.knowns.Valid() && g.knowns.count <= MaxGuesses
    && g.knowns.prior == CountCorrect(g.last)
  }

  /** A fresh `Word` over the dictionary list, before the first guess. */
  function Start(answer: string, lexicon: seq<string>): (g: Game)
    requires Uniform(lexicon, |answer|)
    ensures Ready(answer, g) && g.ws == lexicon && g.knowns.count == 0
    ensures Consistent(g.k, answer)
  {
    Game(Initial(|answer|), lexicon, Knowns(map[], 0, 0), [])
  }

  /** One pass of the loop body for `guess`: score it against the fixed slots, merge the
      record (with or without the guard), filter the candidates and record the guess's
      count of 2s minus the previous guess's. */
  function Advance(answer: string, guarded: bool, g: Game, guess: string): (r: Game)
    requires Ready(answer, g) && g.knowns.count < MaxGuesses && |guess| == |answer|
    ensures Ready(answer, r)
    ensures IsFeedback(answer, guess, g.k.word, r.last)
    ensures r.k == Merge(g.k, r.last, guarded)
    ensures Subseq(r.ws, g.ws)
    ensures r.knowns.count == g.knowns.count + 1
    ensures r.knowns == RecordGuess(g.knowns, CountCorrect(r.last))
  {
    var score := Feedback(answer, guess, g.k.word);
    var k := Merge(g.k, score, guarded);
    NextReady(answer, guarded, g, score);
    FilterSubseq(k, g.ws);
    Game(k, Filter(k, g.ws), RecordGuess(g.knowns, CountCorrect(score)), score)
  }

  /** A pass re-filters the old candidates by the merged state, as `update_word` does. */
  lemma AdvanceFilters(answer: string, guarded: bool, g: Game, guess: string)
    requires Ready(answer, g) && g.knowns.count < MaxGuesses && |guess| == |answer|
    ensures var r := Advance(answer, guarded, g, guess);
      r.ws == Filter(r.k, g.ws) && r.last == Feedback(answer, guess, g.k.word)
  {
  }

  /** The state after merging a record and filtering is ready for the next guess. */
  lemma NextReady(answer: string, guarded: bool, g: Game, score: seq<Entry>)
    requires Ready(answer, g) && g.knowns.count < MaxGuesses && |score| <= |answer|
    ensures var k := Merge(g.k, score, guarded);
      && (forall w :: w in g.ws ==> Fits(k, w))
      && Ready(answer, Game(k, Filter(k, g.ws), RecordGuess(g.knowns, CountCorrect(score)), score))
  {
    var k := Merge(g.k, score, guarded);
    MergeFitsAll(g.k, score, guarded, g.ws);
    var ws := Filter(k, g.ws);
    assert forall w :: w in ws ==> w in g.ws;
    assert k.present.Valid();
  }

  /** How a trial ends, and the state it ends in. */
  datatype Run = Run(out: Outcome, end: Game)

  /** `run_basic_trial` from state `g`: stop when the fixed slots spell the answer or six
      guesses are spent; otherwise ask the strategy, which may raise, and go on. */
  function Play(answer: string, strategy: Strategy, pattern: nat, guarded: bool, g: Game): Run
    requires Ready(answer, g)
    decreases MaxGuesses - g.knowns.count, 3
  {
    if g.k.word == answer then
      Run(Finished(TrialResult(true, answer, g.knowns.count, g.knowns.perGuess)), g)
    else
      PlayCapped(answer, strategy, pattern, guarded, g)
  }

  /** The second half of the loop test: with the slots not yet spelling the answer, stop
      after six guesses; otherwise ask the strategy. */
  function PlayCapped(answer: string, strategy: Strategy, pattern: nat, guarded: bool, g: Game): Run
    requires Ready(answer, g) && g.k.word != answer
    decreases MaxGuesses - g.knowns.count, 2
  {
    if g.knowns.count == MaxGuesses then
      Run(Finished(TrialResult(false, answer, g.knowns.count, g.knowns.perGuess)), g)
    else
      PlayGuess(answer, strategy, pattern, guarded, g)
  }

  /** A pass of the loop that goes ahead: the strategy is asked for a guess, and either
      raises or the trial goes on from the state that guess leads to. */
  function PlayGuess(answer: string, strategy: Strategy, pattern: nat, guarded: bool, g: Game): Run
    requires Ready(answer, g) && g.knowns.count < MaxGuesses
    decreases MaxGuesses - g.knowns.count, 1
  {
    match Guess(strategy, g.ws, |answer|, pattern)
    case None => Run(Raised(g.knowns.count + 1), g)
    case Some(guess) => PlayOn(answer, strategy, pattern, guarded, g, guess)
  }

  /** The rest of the trial once the strategy has offered `guess` in state `g`. */
  function PlayOn(answer: string, strategy: Strategy, pattern: nat, guarded: bool, g: Game, guess: string): Run
    requires Ready(answer, g) && g.knowns.count < MaxGuesses && |guess| == |answer|
    decreases MaxGuesses - g.knowns.count, 0
  {
    Play(answer, strategy, pattern, guarded, Advance(answer, guarded, g, guess))
  }

  /** And a guess moves the trial one step on. */
  lemma PlayStep(answer: string, strategy: Strategy, pattern: nat, guarded: bool, g: Game, guess: string)
    requires Ready(answer, g) && g.k.word != answer && g.knowns.count < MaxGuesses
    requires Guess(strategy, g.ws, |answer|, pattern) == Some(guess)
    ensures Play(answer, strategy, pattern, guarded, g) ==
            Play(answer, strategy, pattern, guarded, Advance(answer, guarded, g, guess))
  {
    assert Play(answer, strategy, pattern, guarded, g) == PlayCapped(answer, strategy, pattern, guarded, g);
    assert PlayCapped(answer, strategy, pattern, guarded, g) == PlayGuess(answer, strategy, pattern, guarded, g);
    assert PlayGuess(answer, strategy, pattern, guarded, g) == PlayOn(answer, strategy, pattern, guarded, g, guess);
  }

  /** `Play` case by case: the loop test, then the strategy's answer. */
  lemma PlayCases(answer: string, strategy: Strategy, pattern: nat, guarded: bool, g: Game)
    requires Ready(answer, g)
    ensures var r := Play(answer, strategy, pattern, guarded, g);
      && (g.k.word == answer || g.knowns.count == MaxGuesses ==>
            r == Run(Finished(TrialResult(g.k.word == answer, answer, g.knowns.count, g.knowns.perGuess)), g))
      && (g.k.word != answer && g.knowns.count < MaxGuesses && Guess(strategy, g.ws, |answer|, pattern).None? ==>
            r == Run(Raised(g.knowns.count + 1), g))
  {
    if g.k.word != answer {
      assert Play(answer, strategy, pattern, guarded, g) == PlayCapped(answer, strategy, pattern, guarded, g);
      if g.knowns.count < MaxGuesses {
        assert PlayCapped(answer, strategy, pattern, guarded, g) == PlayGuess(answer, strategy, pattern, guarded, g);
      }
    }
  }

  /** The strategy's call in a pass of the loop, and where it leads the trial: a raise, or
      the rest of the trial from the offered guess. */
  method Ask(answer: string, strategy: Strategy, pattern: nat, guarded: bool, ghost g: Game,
             ws: seq<string>, n: nat) returns (guess: Option<string>)
    requires Ready(answer, g) && g.k.word != answer && g.knowns.count < MaxGuesses
    requires ws == g.ws && n == |answer|
    ensures guess.None? ==> Play(answer, strategy, pattern, guarded, g).out == Raised(g.knowns.count + 1)
    ensures guess.Some? ==>
      && |guess.value| == |answer|
      && Play(answer, strategy, pattern, guarded, g) == PlayOn(answer, strategy, pattern, guarded, g, guess.value)
  {
    guess := Guess(strategy, ws, n, pattern);
    assert Play(answer, strategy, pattern, guarded, g) == PlayCapped(answer, strategy, pattern, guarded, g);
    assert PlayCapped(answer, strategy, pattern, guarded, g) == PlayGuess(answer, strategy, pattern, guarded, g);
  }

  /** How a trial ends: finished with the slots spelling the answer or after six guesses,
      its tuple read off the final state; or raised by the strategy at the next guess. */
  lemma {:induction false} PlayEnds(answer: string, strategy: Strategy, pattern: nat, guarded: bool, g: Game)
    requires Ready(answer, g)
    ensures var r := Play(answer, strategy, pattern, guarded, g);
      && Ready(answer, r.end)
      && g.knowns.count <= r.end.knowns.count
      && (r.out.Finished? ==>
            && r.out.result == TrialResult(r.end.k.word == answer, answer, r.end.knowns.count, r.end.knowns.perGuess)
            && (r.end.k.word == answer || r.end.knowns.count == MaxGuesses))
      && (r.out.Raised? ==>
            && r.out.turn == r.end.knowns.count + 1 <= MaxGuesses
            && r.end.k.word != answer
            && Guess(strategy, r.end.ws, |answer|, pattern).None?)
    decreases MaxGuesses - g.knowns.count
  {
    PlayCases(answer, strategy, pattern, guarded, g);
    if !(g.k.word == answer || g.knowns.count == MaxGuesses) {
      var guess := Guess(strategy, g.ws, |answer|, pattern);
      if guess.Some? {
        PlayStep(answer, strategy, pattern, guarded, g, guess.value);
        PlayEnds(answer, strategy, pattern, guarded, Advance(answer, guarded, g, guess.value));
      }
    }
  }

  /** The candidates only ever shrink to an order-preserving sublist of the dictionary. */
  lemma {:induction false} PlayLexicon(answer: string, strategy: Strategy, pattern: nat, guarded: bool, g: Game,
                                       lexicon: seq<string>)
    requires Ready(answer, g) && Subseq(g.ws, lexicon)
    ensures Subseq(Play(answer, strategy, pattern, guarded, g).end.ws, lexicon)
    decreases MaxGuesses - g.knowns.count
  {
    PlayCases(answer, strategy, pattern, guarded, g);
    if !(g.k.word == answer || g.knowns.count == MaxGuesses) {
      var guess := Guess(strategy, g.ws, |answer|, pattern);
      if guess.Some? {
        var next := Advance(answer, guarded, g, guess.value);
        PlayStep(answer, strategy, pattern, guarded, g, guess.value);
        SubseqTrans(next.ws, g.ws, lexicon);
        PlayLexicon(answer, strategy, pattern, guarded, next, lexicon);
      }
    }
  }

  /** A guess's entry in `knowns_per_guess`, once recorded, is never changed. */
  lemma {:induction false} PlayKeepsRecorded(answer: string, strategy: Strategy, pattern: nat, guarded: bool, g: Game)
    requires Ready(answer, g)
    ensures var m := Play(answer, strategy, pattern, guarded, g).end.knowns.perGuess;
      forall t :: t in g.knowns.perGuess ==> t in m && m[t] == g.knowns.perGuess[t]
    decreases MaxGuesses - g.knowns.count
  {
    PlayCases(answer, strategy, pattern, guarded, g);
    if !(g.k.word == answer || g.knowns.count == MaxGuesses) {
      var guess := Guess(strategy, g.ws, |answer|, pattern);
      if guess.Some? {
        var next := Advance(answer, guarded, g, guess.value);
        PlayStep(answer, strategy, pattern, guarded, g, guess.value);
        RecordGuessKeeps(g.knowns, CountCorrect(next.last));
        PlayKeepsRecorded(answer, strategy, pattern, guarded, next);
      }
    }
  }

  /** One guarded step keeps the state true of the answer and the answer a candidate. */
  lemma AdvanceKeepsAnswer(answer: string, g: Game, guess: string)
    requires Ready(answer, g) && g.knowns.count < MaxGuesses && |guess| == |answer|
    requires Consistent(g.k, answer) && answer in g.ws
    ensures var r := Advance(answer, true, g, guess);
      Consistent(r.k, answer) && answer in r.ws
  {
    var r := Advance(answer, true, g, guess);
    GuardedMergeConsistent(g.k, answer, guess, r.last);
    MergeFitsAll(g.k, r.last, true, g.ws);
    GuardedUpdateKeepsAnswer(g.k, answer, guess, r.last, g.ws);
  }

  /** With the guard, an answer among the candidates is never lost: the trial finishes
      (no strategy can raise on a list holding it) with the answer still a candidate. */
  lemma {:induction false} PlayKeepsAnswer(answer: string, strategy: Strategy, pattern: nat, g: Game)
    requires Ready(answer, g) && Consistent(g.k, answer) && answer in g.ws
    requires strategy.UsesPattern() ==> pattern <= |answer|
    ensures var r := Play(answer, strategy, pattern, true, g);
      r.out.Finished? && Consistent(r.end.k, answer) && answer in r.end.ws
    decreases MaxGuesses - g.knowns.count
  {
    if !(g.k.word == answer || g.knowns.count == MaxGuesses) {
      var guess := Guess(strategy, g.ws, |answer|, pattern);
      AdvanceKeepsAnswer(answer, g, guess.value);
      PlayStep(answer, strategy, pattern, true, g, guess.value);
      PlayKeepsAnswer(answer, strategy, pattern, Advance(answer, true, g, guess.value));
    }
  }

  /** What every trial promises: at most six guesses; success exactly when the fixed
      slots spell the answer, and fewer than six guesses only on success; the tuple's
      `knowns_per_guess` has an entry for each guess, adding up to the last guess's count
      of 2s; a raise only where the strategy has no word to offer; and the candidates an
      order-preserving sublist of the dictionary throughout. */
  lemma TrialOutcome(answer: string, strategy: Strategy, pattern: nat, guarded: bool, lexicon: seq<string>)
    requires Uniform(lexicon, |answer|)
    ensures var r := Play(answer, strategy, pattern, guarded, Start(answer, lexicon));
      && Subseq(r.end.ws, lexicon) && Uniform(r.end.ws, |answer|)
      && (r.out.Finished? ==>
            && r.out.result.answer == answer
            && r.out.result.guessCount <= MaxGuesses
            && (r.out.result.success <==> r.end.k.word == answer)
            && (!r.out.result.success ==> r.out.result.guessCount == MaxGuesses)
            && r.out.result.knownsPerGuess.Keys == Turns(r.out.result.guessCount)
            && SumKnowns(r.out.result.knownsPerGuess, r.out.result.guessCount) == CountCorrect(r.end.last))
      && (r.out.Raised? ==> 1 <= r.out.turn <= MaxGuesses && Guess(strategy, r.end.ws, |answer|, pattern).None?)
  {
    var g := Start(answer, lexicon);
    PlayEnds(answer, strategy, pattern, guarded, g);
    SubseqRefl(lexicon);
    PlayLexicon(answer, strategy, pattern, guarded, g, lexicon);
  }

  /** With the guard, a trial whose answer is in the dictionary always finishes, with the
      state true of the answer and the answer still a candidate. */
  lemma GuardedTrialKeepsAnswer(answer: string, strategy: Strategy, pattern: nat, lexicon: seq<string>)
    requires Uniform(lexicon, |answer|) && answer in lexicon
    requires strategy.UsesPattern() ==> pattern <= |answer|
    ensures var r := Play(answer, strategy, pattern, true, Start(answer, lexicon));
      r.out.Finished? && Consistent(r.end.k, answer) && answer in r.end.ws
  {
    PlayKeepsAnswer(answer, strategy, pattern, Start(answer, lexicon));
  }
}
