/** The feedback oracle of a trial: `check_doubles` and `get_score`, nested in
    `run_basic_trial` in both barebones_solver.py and test.py (the two copies are identical). */
module Oracle {

  /** A letter's mark: 0 = absent, 1 = present elsewhere, 2 = right place. */
  datatype Score = Absent | Present | Correct

  /** One `[char, score]` pair of a feedback record. */
  datatype Entry = Entry(letter: char, score: Score)

  /** The answer with every position dropped where the answer holds `c` and `known`
      (the letters already fixed, blank elsewhere) fixes `c` there. */
  function ShortAnswer(answer: string, c: char, known: string): string
    requires |answer| <= |known|
    decreases |answer|
  {
    if answer == [] then []
    else
      var n := |answer| - 1;
      ShortAnswer(answer[..n], c, known) + (if answer[n] == c && known[n] == c then [] else [answer[n]])
  }


  /** An occurrence of `c` in the answer that `known` has not yet pinned down. */
  predicate Unaccounted(answer: string, c: char, known: string)
    requires |answer| <= |known|
  {
    exists j :: 0 <= j < |answer| && answer[j] == c && known[j] != c
  }

  /** Dropping the fixed copies of `c` leaves a copy exactly when one is unaccounted for. */
  lemma {:induction false} ShortAnswerHas(answer: string, c: char, known: string)
    requires |answer| <= |known|
    ensures c in ShortAnswer(answer, c, known) <==> Unaccounted(answer, c, known)
    decreases |answer|
  {
    if answer != [] {
      var n := |answer| - 1;
      var front := answer[..n];
      ShortAnswerHas(front, c, known);
      var tail: string := if answer[n] == c && known[n] == c then [] else [answer[n]];
      assert ShortAnswer(answer, c, known) == ShortAnswer(front, c, known) + tail;
      assert c in tail <==> answer[n] == c && known[n] != c;
      if Unaccounted(front, c, known) {
        var j :| 0 <= j < |front| && front[j] == c && known[j] != c;
        assert answer[j] == c;
      }
      if Unaccounted(answer, c, known) && !(answer[n] == c && known[n] != c) {
        var j :| 0 <= j < |answer| && answer[j] == c && known[j] != c;
        assert j < n && front[j] == c;
      }
    }
  }

  /** `check_doubles`: `c` still occurs in the answer once the fixed copies are dropped,
      that is, some copy of `c` in the answer is not yet fixed. */
  function CheckDoubles(answer: string, c: char, known: string): (b: bool)
    requires |answer| <= |known|
    ensures b <==> Unaccounted(answer, c, known)
  {
    ShortAnswerHas(answer, c, known);
    c in ShortAnswer(answer, c, known)
  }

  /** The mark the duplicate-letter rule gives letter `c` guessed at position `i`:
      2 on an exact match, 1 when the answer holds `c` at some position `known`
      has not fixed to `c`, 0 otherwise. */
  function ScoreAt(answer: string, known: string, c: char, i: nat): Score
    requires i < |answer| <= |known|
  {
    if c == answer[i] then Correct
    else if Unaccounted(answer, c, known) then Present
    else Absent
  }

  /** `r` is the feedback record for `guess` against `answer`: one pair per guessed
      letter, in guess order. */
  predicate IsFeedback(answer: string, guess: string, known: string, r: seq<Entry>) {
    |guess| <= |answer| <= |known| && |r| == |guess| &&
    forall i :: 0 <= i < |r| ==> r[i] == Entry(guess[i], ScoreAt(answer, known, guess[i], i))
  }

  /** The feedback record as a value, for reasoning about a whole trial. */
  function Feedback(answer: string, guess: string, known: string): (r: seq<Entry>)
    requires |guess| <= |answer| <= |known|
    ensures IsFeedback(answer, guess, known, r)
    ensures |r| == |guess|
    ensures forall i :: 0 <= i < |r| ==> r[i].letter == guess[i]
    ensures forall i :: 0 <= i < |r| ==> (r[i].score == Correct <==> guess[i] == answer[i])
    ensures forall i :: 0 <= i < |r| ==>
      (r[i].score == Present <==>
        guess[i] != answer[i] && guess[i] in answer && CheckDoubles(answer, guess[i], known))
    ensures forall i :: 0 <= i < |r| ==>
      (r[i].score == Absent <==>
        guess[i] != answer[i] && !(guess[i] in answer && CheckDoubles(answer, guess[i], known)))
  {
    seq(|guess|, i requires 0 <= i < |guess| => Entry(guess[i], ScoreAt(answer, known, guess[i], i)))
  }

  /** A guess has exactly one feedback record. */
  lemma FeedbackUnique(answer: string, guess: string, known: string, r: seq<Entry>)
    requires IsFeedback(answer, guess, known, r)
    ensures r == Feedback(answer, guess, known)
  {
  }

  /** `get_score`. */
  method GetScore(answer: string, guess: string, known: string) returns (r: seq<Entry>)
    requires |guess| <= |answer| <= |known|
    ensures IsFeedback(answer, guess, known, r)
    ensures r == Feedback(answer, guess, known)
  {
    r := [];
    for i := 0 to |guess|
      invariant |r| == i
      invariant forall m :: 0 <= m < i ==> r[m] == Entry(guess[m], ScoreAt(answer, known, guess[m], m))
    {
      var c := guess[i];
      if c == answer[i] {
        r := r + [Entry(c, Correct)];
      } else if c in answer && CheckDoubles(answer, c, known) {
        r := r + [Entry(c, Present)];
      } else {
        r := r + [Entry(c, Absent)];
      }
    }
    FeedbackUnique(answer, guess, known, r);
  }

  /** With nothing fixed yet, a misplaced letter is marked 1 exactly when the answer holds it. */
  lemma BlankKnownPresent(answer: string, known: string, c: char, i: nat)
    requires i < |answer| <= |known| && c != ' '
    requires forall j :: 0 <= j < |known| ==> known[j] == ' '
    ensures ScoreAt(answer, known, c, i) == Present <==> c != answer[i] && c in answer
  {
    if c in answer {
      var j :| 0 <= j < |answer| && answer[j] == c;
      assert known[j] != c;
    }
  }

  /** A letter the answer lacks is always marked 0. */
  lemma MissingLetterAbsent(answer: string, known: string, c: char, i: nat)
    requires i < |answer| <= |known| && c !in answer
    ensures ScoreAt(answer, known, c, i) == Absent
  {
  }

  /** `[ele[1] for ele in guess_score]`. */
  function Marks(r: seq<Entry>): (m: seq<Score>)
    ensures |m| == |r| && forall i :: 0 <= i < |r| ==> m[i] == r[i].score
  {
    seq(|r|, i requires 0 <= i < |r| => r[i].score)
  }

  /** The number of 2s in a record, counted entry by entry; it is the `.count(2)` of the
      list of marks. */
  function CountCorrect(r: seq<Entry>): (n: nat)
    ensures n == multiset(Marks(r))[Correct]
    decreases |r|
  {
    if r == [] then 0
    else
      var front := r[..|r| - 1];
      assert Marks(r) == Marks(front) + [r[|r| - 1].score];
      CountCorrect(front) + (if r[|r| - 1].score == Correct then 1 else 0)
  }

  lemma {:induction false} CountCorrectBound(r: seq<Entry>)
    ensures CountCorrect(r) <= |r|
    ensures CountCorrect(r) == |r| <==> forall i :: 0 <= i < |r| ==> r[i].score == Correct
    decreases |r|
  {
    if r != [] {
      var front := r[..|r| - 1];
      CountCorrectBound(front);
      if forall i :: 0 <= i < |r| ==> r[i].score == Correct {
        assert forall i :: 0 <= i < |front| ==> front[i].score == Correct by {
          forall i | 0 <= i < |front| ensures front[i].score == Correct {
            assert front[i] == r[i];
          }
        }
      }
    }
  }

  /** The literal cases: a guess equal to the answer is all 2s; "ollhe" against "hello"
      with nothing fixed is 1, 1, 2, 1, 1 (its middle "l" is in place). */
  lemma HelloExamples()
    ensures IsFeedback("hello", "hello", "     ",
                       [Entry('h', Correct), Entry('e', Correct), Entry('l', Correct), Entry('l', Correct), Entry('o', Correct)])
    ensures IsFeedback("hello", "ollhe", "     ",
                       [Entry('o', Present), Entry('l', Present), Entry('l', Correct), Entry('h', Present), Entry('e', Present)])
    ensures IsFeedback("hello", "xzxzx", "     ",
                       [Entry('x', Absent), Entry('z', Absent), Entry('x', Absent), Entry('z', Absent), Entry('x', Absent)])
  {
    var answer, known := "hello", "     ";
    assert answer[4] == 'o' && known[4] != 'o';
    assert answer[2] == 'l' && known[2] != 'l';
    assert answer[0] == 'h' && known[0] != 'h';
    assert answer[1] == 'e' && known[1] != 'e';
    assert 'x' !in answer && 'z' !in answer;
  }
}
