/** The six guess strategies of barebones_solver.py (and the `guess_basic` and
    `guess_pattern` of test.py, which choose the same word), with the letter ranking
    `get_most_common_letters` and the filter `get_unique_words` they share.
    Every strategy is a choice of one word of the remaining list by a `Counter` tally and
    `Counter.most_common(1)`, which returns the first key, in insertion order, whose
    tally is largest. */
module Strategies {
  import opened Sequences

  datatype Option<T> = None | Some(value: T)

  /** Every word of `ws` has `n` letters. */
  predicate Uniform(ws: seq<string>, n: nat) {
    forall w :: w in ws ==> |w| == n
  }

  /** The lists a strategy can choose from without `most_common(1)[0]` failing. */
  predicate Playable(ws: seq<string>, n: nat) {
    ws != [] && n > 0 && Uniform(ws, n)
  }

  // ---------------------------------------------------------------------------
  // get_most_common_letters

  /** `"".join(ws)`. */
  function Concat(ws: seq<string>): (r: string)
    ensures forall c :: c in r <==> exists w :: w in ws && c in w
    decreases |ws|
  {
    if ws == [] then []
    else
      var n := |ws| - 1;
      assert ws == ws[..n] + [ws[n]];
      Concat(ws[..n]) + ws[n]
  }

  /** How often `c` occurs in `s`: its tally in `Counter(s)`. */
  function Count(s: string, c: char): nat {
    multiset(s)[c]
  }

  /** The index of the first `c` in `s`, or `|s|` when there is none. */
  function First(s: string, c: char): (r: nat)
    ensures r <= |s|
    ensures r < |s| <==> c in s
    ensures r < |s| ==> s[r] == c
    ensures forall i :: 0 <= i < r ==> s[i] != c
    decreases |s|
  {
    if s == [] then 0
    else
      var n := |s| - 1;
      assert forall i :: 0 <= i < n ==> s[..n][i] == s[i];
      if c in s[..n] then First(s[..n], c)
      else if s[n] == c then n
      else |s|
  }

  /** The keys of `Counter(s)`: each letter once, in order of first occurrence. */
  function Letters(s: string): seq<char>
    decreases |s|
  {
    if s == [] then []
    else
      var n := |s| - 1;
      Letters(s[..n]) + (if s[n] in s[..n] then [] else [s[n]])
  }

  /** Keys listed in order of first occurrence in `s`. */
  predicate InOrderOfFirst(s: string, keys: seq<char>) {
    forall i, j :: 0 <= i < j < |keys| ==> First(s, keys[i]) < First(s, keys[j])
  }

  lemma {:induction false} LettersMembers(s: string)
    ensures forall c :: c in Letters(s) <==> c in s
    decreases |s|
  {
    if s != [] {
      var n := |s| - 1;
      LettersMembers(s[..n]);
      assert s == s[..n] + [s[n]];
    }
  }

  lemma {:induction false} LettersOrder(s: string)
    ensures InOrderOfFirst(s, Letters(s))
    decreases |s|
  {
    if s != [] {
      var n := |s| - 1;
      var p := s[..n];
      var front := Letters(p);
      LettersOrder(p);
      LettersMembers(p);
      assert s == p + [s[n]];
      assert forall c :: c in p ==> First(s, c) == First(p, c);
      var r := Letters(s);
      assert r == front + (if s[n] in p then [] else [s[n]]);
      forall i, j | 0 <= i < j < |r|
        ensures First(s, r[i]) < First(s, r[j])
      {
        assert r[i] == front[i] && r[i] in p;
        if j < |front| {
          assert r[j] == front[j] && r[j] in p;
        } else {
          assert r[j] == s[n] && s[n] !in p;
        }
      }
    }
  }

  /** `Counter.most_common()` orders keys by falling tally and, being a stable sort,
      keeps tied keys in insertion order: `a` goes before `b`. */
  predicate Before(s: string, a: char, b: char) {
    Count(s, a) > Count(s, b) || (Count(s, a) == Count(s, b) && First(s, a) < First(s, b))
  }

  predicate SortedDown(s: string, l: seq<char>) {
    forall i, j :: 0 <= i < j < |l| ==> Before(s, l[i], l[j])
  }

  /** Insertion of a key that entered the counter after all the keys of `l`. */
  function Insert(s: string, x: char, l: seq<char>): seq<char>
    decreases |l|
  {
    if l == [] then [x]
    else if Count(s, l[0]) < Count(s, x) then [x] + l
    else [l[0]] + Insert(s, x, l[1..])
  }

  lemma {:induction false} InsertMultiset(s: string, x: char, l: seq<char>)
    ensures multiset(Insert(s, x, l)) == multiset(l) + multiset{x}
    decreases |l|
  {
    if l != [] && Count(s, l[0]) >= Count(s, x) {
      assert l == [l[0]] + l[1..];
      InsertMultiset(s, x, l[1..]);
    }
  }

  /** Every key of a sorted list goes before every later one. */
  lemma SortedHead(s: string, l: seq<char>, y: char)
    requires SortedDown(s, l) && l != [] && y in l[1..]
    ensures Before(s, l[0], y)
  {
    var k :| 0 <= k < |l[1..]| && l[1..][k] == y;
    assert l[k + 1] == y;
  }

  /** A key that goes before every key of a sorted list can head it. */
  lemma PrependSorted(s: string, x: char, l: seq<char>)
    requires SortedDown(s, l)
    requires forall y :: y in l ==> Before(s, x, y)
    ensures SortedDown(s, [x] + l)
  {
    var r := [x] + l;
    forall i, j | 0 <= i < j < |r|
      ensures Before(s, r[i], r[j])
    {
      assert r[j] == l[j - 1];
      if i > 0 {
        assert r[i] == l[i - 1];
      }
    }
  }

  lemma {:induction false} InsertSorted(s: string, x: char, l: seq<char>)
    requires SortedDown(s, l)
    requires forall y :: y in l ==> First(s, y) < First(s, x)
    ensures SortedDown(s, Insert(s, x, l))
    decreases |l|
  {
    if l != [] && Count(s, l[0]) >= Count(s, x) {
      var rest := l[1..];
      assert SortedDown(s, rest) by {
        forall i, j | 0 <= i < j < |rest|
          ensures Before(s, rest[i], rest[j])
        {
          assert rest[i] == l[i + 1] && rest[j] == l[j + 1];
        }
      }
      assert forall y :: y in rest ==> y in l;
      InsertSorted(s, x, rest);
      InsertMultiset(s, x, rest);
      var ins := Insert(s, x, rest);
      forall y | y in ins
        ensures Before(s, l[0], y)
      {
        assert y in multiset(ins);
        if y != x {
          SortedHead(s, l, y);
        }
      }
      PrependSorted(s, l[0], ins);
    } else if l != [] {
      forall y | y in l
        ensures Before(s, x, y)
      {
        if y != l[0] {
          var k :| 0 <= k < |l| && l[k] == y;
          assert Before(s, l[0], l[k]);
        }
      }
      PrependSorted(s, x, l);
    }
  }

  /** `most_common()` over the keys `keys`, inserted in that order. */
  function SortByCount(s: string, keys: seq<char>): seq<char>
    decreases |keys|
  {
    if keys == [] then []
    else
      var n := |keys| - 1;
      Insert(s, keys[n], SortByCount(s, keys[..n]))
  }

  lemma {:induction false} SortByCountMultiset(s: string, keys: seq<char>)
    ensures multiset(SortByCount(s, keys)) == multiset(keys)
    decreases |keys|
  {
    if keys != [] {
      var n := |keys| - 1;
      assert keys == keys[..n] + [keys[n]];
      SortByCountMultiset(s, keys[..n]);
      InsertMultiset(s, keys[n], SortByCount(s, keys[..n]));
    }
  }

  lemma {:induction false} SortByCountSorted(s: string, keys: seq<char>)
    requires InOrderOfFirst(s, keys)
    ensures SortedDown(s, SortByCount(s, keys))
    decreases |keys|
  {
    if keys != [] {
      var n := |keys| - 1;
      var front := keys[..n];
      assert InOrderOfFirst(s, front) by {
        forall i, j | 0 <= i < j < |front|
          ensures First(s, front[i]) < First(s, front[j])
        {
          assert front[i] == keys[i] && front[j] == keys[j];
        }
      }
      SortByCountSorted(s, front);
      SortByCountMultiset(s, front);
      var sorted := SortByCount(s, front);
      forall y | y in sorted
        ensures First(s, y) < First(s, keys[n])
      {
        assert y in multiset(front);
        var k :| 0 <= k < n && front[k] == y;
        assert keys[k] == y;
      }
      InsertSorted(s, keys[n], sorted);
    }
  }

  function Reverse<T>(l: seq<T>): (r: seq<T>)
    ensures |r| == |l| && forall i :: 0 <= i < |l| ==> r[i] == l[|l| - 1 - i]
  {
    seq(|l|, i requires 0 <= i < |l| => l[|l| - 1 - i])
  }

  /** `get_most_common_letters`: every letter of the list, from the rarest to the commonest. */
  function MostCommonLetters(ws: seq<string>): (r: seq<char>)
    ensures forall c :: c in r <==> c in Concat(ws)
  {
    var text := Concat(ws);
    RankingMembers(text);
    Reverse(SortByCount(text, Letters(text)))
  }

  /** The ranking of the letters of `text` holds each of them. */
  lemma RankingMembers(text: string)
    ensures forall c :: c in Reverse(SortByCount(text, Letters(text))) <==> c in text
  {
    var keys := Letters(text);
    LettersMembers(text);
    SortByCountMultiset(text, keys);
    var sorted := SortByCount(text, keys);
    ReverseMembers(sorted);
    assert forall c :: c in sorted <==> c in multiset(keys);
  }

  /** The ranking of the letters of `text` runs by rising count, and among equal counts,
      latest first occurrence first. */
  lemma RankingOrder(text: string)
    ensures var r := Reverse(SortByCount(text, Letters(text)));
      forall i, j :: 0 <= i < j < |r| ==> Before(text, r[j], r[i])
  {
    LettersOrder(text);
    SortByCountSorted(text, Letters(text));
    ReverseSortedDown(text, SortByCount(text, Letters(text)));
  }

  /** Read backwards, a list sorted by `Before` runs the other way. */
  lemma ReverseSortedDown(s: string, l: seq<char>)
    requires SortedDown(s, l)
    ensures var r := Reverse(l);
      forall i, j :: 0 <= i < j < |r| ==> Before(s, r[j], r[i])
  {
    var r := Reverse(l);
    forall i, j | 0 <= i < j < |r|
      ensures Before(s, r[j], r[i])
    {
      assert r[j] == l[|l| - 1 - j] && r[i] == l[|l| - 1 - i];
    }
  }

  /** The ranking holds each letter of the list exactly once, in rising order of
      frequency; of two equally frequent letters the one seen later in the list comes first. */
  lemma MostCommonLettersOrder(ws: seq<string>)
    ensures forall c :: c in MostCommonLetters(ws) <==> exists w :: w in ws && c in w
    ensures var r := MostCommonLetters(ws);
      forall i, j :: 0 <= i < j < |r| ==> Before(Concat(ws), r[j], r[i])
  {
    var text := Concat(ws);
    assert MostCommonLetters(ws) == Reverse(SortByCount(text, Letters(text)));
    RankingMembers(text);
    RankingOrder(text);
  }

  /** Hence no letter is ranked twice, and the counts never fall along the ranking. */
  lemma MostCommonLettersAscending(ws: seq<string>)
    ensures Distinct(MostCommonLetters(ws))
    ensures var r := MostCommonLetters(ws);
      forall i, j :: 0 <= i < j < |r| ==> Count(Concat(ws), r[i]) <= Count(Concat(ws), r[j])
  {
    MostCommonLettersOrder(ws);
  }

  lemma ReverseMembers<T>(l: seq<T>)
    ensures forall x :: x in Reverse(l) <==> x in l
  {
    var r := Reverse(l);
    forall x | x in l
      ensures x in r
    {
      var i :| 0 <= i < |l| && l[i] == x;
      assert r[|l| - 1 - i] == x;
    }
  }

  // ---------------------------------------------------------------------------
  // The counter tallies and most_common(1)

  /** A word's tally in a `Counter` that adds `score(w)` for every occurrence of `w` in `pool`. */
  function Tally(pool: seq<string>, score: string -> int, w: string): int {
    multiset(pool)[w] * score(w)
  }

  /** The first index of a largest weight. */
  function FirstMax(weights: seq<int>): (k: nat)
    requires weights != []
    ensures k < |weights|
    ensures forall j :: 0 <= j < |weights| ==> weights[j] <= weights[k]
    ensures forall j :: 0 <= j < k ==> weights[j] < weights[k]
    decreases |weights|
  {
    var n := |weights| - 1;
    if n == 0 then 0
    else
      var k := FirstMax(weights[..n]);
      assert weights[..n][k] == weights[k];
      assert forall j :: 0 <= j < n ==> weights[..n][j] == weights[j];
      if weights[k] < weights[n] then n else k
  }

  /** `counter.most_common(1)[0][0]` for the counter built over `pool`: a word of the pool
      with the largest tally, and the first such word in the order the pool lists them
      (the order its keys entered the counter). */
  function Choose(pool: seq<string>, score: string -> int): (r: string)
    requires pool != []
    ensures r in pool
    ensures forall w :: w in pool ==> Tally(pool, score, w) <= Tally(pool, score, r)
    ensures forall j :: 0 <= j < |pool| && Tally(pool, score, pool[j]) == Tally(pool, score, r) ==>
              r in pool[..j + 1]
  {
    var weights := Weights(pool, score);
    var k := FirstMax(weights);
    ChooseFacts(pool, score, k);
    pool[k]
  }

  /** The tallies of the pool's entries, index by index. */
  function Weights(pool: seq<string>, score: string -> int): (r: seq<int>)
    ensures |r| == |pool| && forall i :: 0 <= i < |pool| ==> r[i] == Tally(pool, score, pool[i])
  {
    seq(|pool|, i requires 0 <= i < |pool| => Tally(pool, score, pool[i]))
  }

  lemma ChooseFacts(pool: seq<string>, score: string -> int, k: nat)
    requires var weights := Weights(pool, score);
      k < |weights| &&
      (forall j :: 0 <= j < |weights| ==> weights[j] <= weights[k]) &&
      (forall j :: 0 <= j < k ==> weights[j] < weights[k])
    ensures forall w :: w in pool ==> Tally(pool, score, w) <= Tally(pool, score, pool[k])
    ensures forall j :: 0 <= j < |pool| && Tally(pool, score, pool[j]) == Tally(pool, score, pool[k]) ==>
              pool[k] in pool[..j + 1]
  {
    var weights := Weights(pool, score);
    forall j | 0 <= j < |pool| && weights[j] == weights[k]
      ensures pool[k] in pool[..j + 1]
    {
      assert !(j < k);
      assert pool[..j + 1][k] == pool[k];
    }
    forall w | w in pool
      ensures Tally(pool, score, w) <= weights[k]
    {
      var j :| 0 <= j < |pool| && pool[j] == w;
      assert weights[j] == Tally(pool, score, w);
    }
  }

  /** The score `guess_basic` adds for one occurrence of `w`: the index in `letters` of
      every letter of `letters` that `w` contains. */
  function RankScore(letters: seq<char>, w: string): nat
    decreases |letters|
  {
    if letters == [] then 0
    else
      var n := |letters| - 1;
      RankScore(letters[..n], w) + (if letters[n] in w then n else 0)
  }

  /** A word holding every letter another word holds scores at least as much. */
  lemma {:induction false} RankScoreMonotone(letters: seq<char>, v: string, w: string)
    requires forall c :: c in v ==> c in w
    ensures RankScore(letters, v) <= RankScore(letters, w)
    decreases |letters|
  {
    if letters != [] {
      RankScoreMonotone(letters[..|letters| - 1], v, w);
    }
  }

  // ---------------------------------------------------------------------------
  // get_unique_words

  /** `set(w)`. */
  function LetterSet(w: string): set<char> {
    set c | c in w
  }

  lemma {:induction false} LetterSetSize(w: string)
    ensures |LetterSet(w)| <= |w|
    ensures |LetterSet(w)| == |w| <==> Distinct(w)
    decreases |w|
  {
    if w != [] {
      var n := |w| - 1;
      var p := w[..n];
      LetterSetSize(p);
      assert w == p + [w[n]];
      assert LetterSet(w) == LetterSet(p) + {w[n]};
      if w[n] in p {
        assert LetterSet(w) == LetterSet(p);
        var k :| 0 <= k < n && p[k] == w[n];
        assert w[k] == w[n];
      } else {
        assert w[n] !in LetterSet(p);
        if Distinct(p) {
          forall i, j | 0 <= i < j < |w|
            ensures w[i] != w[j]
          {
            if j < n {
              assert w[i] == p[i] && w[j] == p[j];
            } else {
              assert w[i] == p[i];
            }
          }
        }
        if Distinct(w) {
          forall i, j | 0 <= i < j < |p|
            ensures p[i] != p[j]
          {
            assert w[i] == p[i] && w[j] == p[j];
          }
        }
      }
    }
  }

  /** `len(set(w)) == word_length`. */
  predicate HasUniqueLetters(w: string, n: nat) {
    |LetterSet(w)| == n
  }

  /** `get_unique_words`: every copy of each word with `n` distinct letters, in order. */
  function UniqueWords(ws: seq<string>, n: nat): (r: seq<string>)
    ensures Subseq(r, ws)
    ensures forall w :: w in r <==> w in ws && HasUniqueLetters(w, n)
    ensures forall w :: multiset(r)[w] == if HasUniqueLetters(w, n) then multiset(ws)[w] else 0
  {
    Select(ws, w => HasUniqueLetters(w, n))
  }

  /** In a list of `n`-letter words, the unique words are, in order and with every copy,
      those that repeat no letter. */
  lemma UniqueWordsDistinct(ws: seq<string>, n: nat)
    requires Uniform(ws, n)
    ensures Subseq(UniqueWords(ws, n), ws)
    ensures forall w :: w in UniqueWords(ws, n) <==> w in ws && Distinct(w)
    ensures forall w :: multiset(UniqueWords(ws, n))[w] == if Distinct(w) then multiset(ws)[w] else 0
  {
    forall w | w in ws
      ensures HasUniqueLetters(w, n) <==> Distinct(w)
    {
      LetterSetSize(w);
    }
  }

  // ---------------------------------------------------------------------------
  // Column counts

  /** `column_counters[i][c]`: the words of `ws` with `c` at index `i`. */
  function ColumnCount(ws: seq<string>, i: nat, c: char): nat
    decreases |ws|
  {
    if ws == [] then 0
    else
      var n := |ws| - 1;
      ColumnCount(ws[..n], i, c) + (if i < |ws[n]| && ws[n][i] == c then 1 else 0)
  }

  /** The score `guess_column` adds for one occurrence of `w`: for each of its positions,
      how many words of the list share its letter there. */
  function ColumnScore(ws: seq<string>, w: string): nat
    decreases |w|
  {
    if w == [] then 0
    else
      var n := |w| - 1;
      ColumnScore(ws, w[..n]) + ColumnCount(ws, n, w[n])
  }

  lemma {:induction false} ColumnCountBounds(ws: seq<string>, i: nat, c: char)
    ensures ColumnCount(ws, i, c) <= |ws|
    ensures (exists w :: w in ws && i < |w| && w[i] == c) <==> ColumnCount(ws, i, c) > 0
    decreases |ws|
  {
    if ws != [] {
      var n := |ws| - 1;
      ColumnCountBounds(ws[..n], i, c);
      assert ws == ws[..n] + [ws[n]];
    }
  }

  /** A word of the list counts itself in every column, so scores at least its length. */
  lemma {:induction false} ColumnScoreSelf(ws: seq<string>, w: string, v: string)
    requires w in ws && v <= w
    ensures |v| <= ColumnScore(ws, v) <= |v| * |ws|
    decreases |v|
  {
    if v != [] {
      var n := |v| - 1;
      assert v[..n] <= w;
      ColumnScoreSelf(ws, w, v[..n]);
      ColumnCountBounds(ws, n, v[n]);
      assert w[n] == v[n];
      assert ColumnScore(ws, v) == ColumnScore(ws, v[..n]) + ColumnCount(ws, n, v[n]);
      assert |v| * |ws| == n * |ws| + |ws|;
    }
  }

  // ---------------------------------------------------------------------------
  // Patterns

  /** Python's `x in w` on strings: `x` is a substring of `w`. */
  predicate Occurs(x: string, w: string)
    decreases |w|
  {
    x <= w || (w != [] && Occurs(x, w[1..]))
  }

  lemma {:induction false} OccursAt(x: string, w: string, i: nat)
    requires i + |x| <= |w| && w[i..i + |x|] == x
    ensures Occurs(x, w)
    decreases i
  {
    if i == 0 {
      assert x <= w;
    } else {
      assert w[1..][i - 1..i - 1 + |x|] == w[i..i + |x|];
      OccursAt(x, w[1..], i - 1);
    }
  }

  /** `[w[i : i + p] for i in range(n - p + 1)]` for one word `w` of `n` letters. */
  function WordWindows(w: string, n: nat, p: nat): (r: seq<string>)
    requires |w| == n && p <= n
    ensures |r| == n - p + 1
    ensures forall x :: x in r ==> |x| == p && Occurs(x, w)
  {
    var r := seq(n - p + 1, i requires 0 <= i < n - p + 1 => w[i..i + p]);
    assert forall i :: 0 <= i < |r| ==> r[i] == w[i..i + p] && Occurs(r[i], w) by {
      forall i | 0 <= i < |r|
        ensures Occurs(r[i], w)
      {
        OccursAt(r[i], w, i);
      }
    }
    r
  }

  /** The list `pattern_counter` is built from: every window of length `p` of every word. */
  function Windows(ws: seq<string>, n: nat, p: nat): (r: seq<string>)
    requires Uniform(ws, n) && p <= n
    ensures ws != [] ==> r != []
    ensures forall x :: x in r ==> exists w :: w in ws && Occurs(x, w)
    decreases |ws|
  {
    if ws == [] then []
    else
      var k := |ws| - 1;
      assert ws[k] in ws;
      var front := Windows(ws[..k], n, p);
      var own := WordWindows(ws[k], n, p);
      assert own[0] in own;
      assert forall x :: x in front ==> exists w :: w in ws && Occurs(x, w) by {
        forall x | x in front
          ensures exists w :: w in ws && Occurs(x, w)
        {
          var w :| w in ws[..k] && Occurs(x, w);
          assert w in ws;
        }
      }
      front + own
  }

  /** `pattern_counter.most_common(1)[0][0]`: the commonest window, first seen first. */
  function MostCommonPattern(ws: seq<string>, n: nat, p: nat): (pat: string)
    requires Playable(ws, n) && p <= n
    ensures exists w :: w in ws && Occurs(pat, w)
  {
    Choose(Windows(ws, n, p), _ => 1)
  }

  /** `pattern_word_list`: the words holding the commonest window, in order. */
  function PatternWords(ws: seq<string>, n: nat, p: nat): (r: seq<string>)
    requires Playable(ws, n) && p <= n
    ensures r != []
    ensures Subseq(r, ws)
    ensures forall w :: w in r <==> w in ws && Occurs(MostCommonPattern(ws, n, p), w)
    ensures forall w :: multiset(r)[w] == if Occurs(MostCommonPattern(ws, n, p), w) then multiset(ws)[w] else 0
  {
    var pat := MostCommonPattern(ws, n, p);
    var r := Select(ws, w => Occurs(pat, w));
    var w :| w in ws && Occurs(pat, w);
    assert w in r;
    r
  }

  // ---------------------------------------------------------------------------
  // The strategies

  /** The tally `guess_basic`, `guess_unique`, `guess_pattern` and `guess_pattern_unique`
      give a word: the rank indices of its letters among those of the whole list. */
  function LetterRank(ws: seq<string>): string -> int {
    var letters := MostCommonLetters(ws);
    w => RankScore(letters, w)
  }

  /** The tally `guess_column` and `guess_column_unique` give a word. */
  function ColumnRank(ws: seq<string>): string -> int {
    w => ColumnScore(ws, w)
  }

  /** `guess_basic`: the first word with the highest letter-rank tally. */
  function GuessBasic(ws: seq<string>, n: nat): (r: string)
    requires Playable(ws, n)
    ensures r in ws
    ensures forall w :: w in ws ==> Tally(ws, LetterRank(ws), w) <= Tally(ws, LetterRank(ws), r)
    ensures forall j :: 0 <= j < |ws| && Tally(ws, LetterRank(ws), ws[j]) == Tally(ws, LetterRank(ws), r) ==>
              r in ws[..j + 1]
  {
    Choose(ws, LetterRank(ws))
  }

  /** `guess_unique`: among the words that repeat no letter, the first with the highest
      letter-rank tally; `guess_basic` when there is none. */
  function GuessUnique(ws: seq<string>, n: nat): (r: string)
    requires Playable(ws, n)
    ensures r in ws
    ensures UniqueWords(ws, n) == [] ==> r == GuessBasic(ws, n)
    ensures var u := UniqueWords(ws, n);
      u != [] ==> HasUniqueLetters(r, n) &&
                  forall w :: w in u ==> Tally(u, LetterRank(ws), w) <= Tally(u, LetterRank(ws), r)
  {
    var u := UniqueWords(ws, n);
    if u == [] then GuessBasic(ws, n) else Choose(u, LetterRank(ws))
  }

  /** `guess_column`: the first word with the highest column tally. */
  function GuessColumn(ws: seq<string>, n: nat): (r: string)
    requires Playable(ws, n)
    ensures r in ws
    ensures forall w :: w in ws ==> Tally(ws, ColumnRank(ws), w) <= Tally(ws, ColumnRank(ws), r)
    ensures forall j :: 0 <= j < |ws| && Tally(ws, ColumnRank(ws), ws[j]) == Tally(ws, ColumnRank(ws), r) ==>
              r in ws[..j + 1]
  {
    Choose(ws, ColumnRank(ws))
  }

  /** `guess_column_unique`: among the words that repeat no letter, the first with the
      highest column tally (columns counted over the whole list); `guess_column` when
      there is none. */
  function GuessColumnUnique(ws: seq<string>, n: nat): (r: string)
    requires Playable(ws, n)
    ensures r in ws
    ensures UniqueWords(ws, n) == [] ==> r == GuessColumn(ws, n)
    ensures var u := UniqueWords(ws, n);
      u != [] ==> HasUniqueLetters(r, n) &&
                  forall w :: w in u ==> Tally(u, ColumnRank(ws), w) <= Tally(u, ColumnRank(ws), r)
  {
    var u := UniqueWords(ws, n);
    if u == [] then GuessColumn(ws, n) else Choose(u, ColumnRank(ws))
  }

  /** `guess_pattern`: among the words holding the commonest window of length `p`, the
      first with the highest letter-rank tally (letters ranked over the whole list). */
  function GuessPattern(ws: seq<string>, n: nat, p: nat): (r: string)
    requires Playable(ws, n) && p <= n
    ensures r in ws && Occurs(MostCommonPattern(ws, n, p), r)
    ensures var pw := PatternWords(ws, n, p);
      forall w :: w in pw ==> Tally(pw, LetterRank(ws), w) <= Tally(pw, LetterRank(ws), r)
  {
    Choose(PatternWords(ws, n, p), LetterRank(ws))
  }

  /** `guess_pattern_unique`: as `guess_pattern`, among the pattern words that repeat no
      letter; `guess_pattern` when there is none. */
  function GuessPatternUnique(ws: seq<string>, n: nat, p: nat): (r: string)
    requires Playable(ws, n) && p <= n
    ensures r in ws && Occurs(MostCommonPattern(ws, n, p), r)
    ensures UniqueWords(PatternWords(ws, n, p), n) == [] ==> r == GuessPattern(ws, n, p)
    ensures UniqueWords(PatternWords(ws, n, p), n) != [] ==> HasUniqueLetters(r, n)
  {
    var u := UniqueWords(PatternWords(ws, n, p), n);
    if u == [] then GuessPattern(ws, n, p) else Choose(u, LetterRank(ws))
  }

  /** A strategy is chosen by `guess_func`; the pattern ones use `pattern_length`. */
  datatype Strategy = Basic | Unique | Column | ColumnUnique | Pattern | PatternUnique {
    predicate UsesPattern() {
      this == Pattern || this == PatternUnique
    }
  }

  /** `guess_func(word_list, word_length, pattern)`, `None` where it raises `IndexError`
      because `most_common(1)` of an empty counter has no element. */
  function Guess(s: Strategy, ws: seq<string>, n: nat, p: nat): (r: Option<string>)
    requires Uniform(ws, n)
    ensures r.None? <==> ws == [] || n == 0 || (s.UsesPattern() && p > n)
    ensures r.Some? ==> r.value in ws && |r.value| == n
  {
    if ws == [] || n == 0 then None
    else
      match s
      case Basic => Some(GuessBasic(ws, n))
      case Unique => Some(GuessUnique(ws, n))
      case Column => Some(GuessColumn(ws, n))
      case ColumnUnique => Some(GuessColumnUnique(ws, n))
      case Pattern => if p <= n then Some(GuessPattern(ws, n, p)) else None
      case PatternUnique => if p <= n then Some(GuessPatternUnique(ws, n, p)) else None
  }
}
