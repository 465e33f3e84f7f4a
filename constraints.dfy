/** The constraint state a `Word` accumulates across guesses, the merge of one feedback
    record into it, and the candidate filter of `process_word_list`, as values.
    The classes in Barebones and Prototype hold the same state in fields and are
    specified by these functions. */
module Constraints {
  import opened Sequences
  import opened Oracle

  /** The mark of a slot whose letter is not known yet. */
  const Blank: char := ' '

  /** A dict from a letter to the indices where it is known NOT to be, with its keys in
      insertion order (the order `present.items()` iterates them). */
  datatype Spots = Spots(keys: seq<char>, at: map<char, set<nat>>) {
    ghost predicate Valid() {
      Distinct(keys) && forall c :: c in at <==> c in keys
    }
  }

  const NoSpots: Spots := Spots([], map[])

  /** The excluded indices recorded for `c`, none when `c` is not a key. */
  function Get(s: Spots, c: char): set<nat> {
    if c in s.at then s.at[c] else {}
  }

  /** Every index in `locs` is below `n`. */
  ghost predicate Below(locs: set<nat>, n: nat) {
    forall i :: i in locs ==> i < n
  }

  /** Every recorded index is below `n`. */
  ghost predicate SpotsBelow(s: Spots, n: nat) {
    forall c :: c in s.at ==> Below(s.at[c], n)
  }

  /** `d[c].update(locs)` for an existing key, `d[c] = locs` (appended last) otherwise. */
  function Record(s: Spots, c: char, locs: set<nat>): (r: Spots)
    ensures s.Valid() ==> r.Valid()
    ensures forall x :: Get(r, x) == Get(s, x) + (if x == c then locs else {})
    ensures forall x :: x in r.at <==> x in s.at || x == c
    ensures s.keys <= r.keys
  {
    if c in s.at then Spots(s.keys, s.at[c := s.at[c] + locs])
    else Spots(s.keys + [c], s.at[c := locs])
  }

  /** `process_present` for the keys `keys` of a local dict `at`, in order. */
  function MergeKeys(s: Spots, keys: seq<char>, at: map<char, set<nat>>): Spots
    requires forall c :: c in keys ==> c in at
    decreases |keys|
  {
    if keys == [] then s
    else
      var n := |keys| - 1;
      Record(MergeKeys(s, keys[..n], at), keys[n], at[keys[n]])
  }

  /** Merging keeps a valid dict valid and only appends keys. */
  lemma {:induction false} MergeKeysValid(s: Spots, keys: seq<char>, at: map<char, set<nat>>)
    requires forall c :: c in keys ==> c in at
    ensures s.Valid() ==> MergeKeys(s, keys, at).Valid()
    ensures s.keys <= MergeKeys(s, keys, at).keys
    decreases |keys|
  {
    if keys != [] {
      MergeKeysValid(s, keys[..|keys| - 1], at);
    }
  }

  /** Merging adds exactly the new keys. */
  lemma {:induction false} MergeKeysDomain(s: Spots, keys: seq<char>, at: map<char, set<nat>>)
    requires forall c :: c in keys ==> c in at
    ensures forall x :: x in MergeKeys(s, keys, at).at <==> x in s.at || x in keys
    decreases |keys|
  {
    if keys != [] {
      var n := |keys| - 1;
      MergeKeysDomain(s, keys[..n], at);
      assert keys == keys[..n] + [keys[n]];
    }
  }

  /** Merging unites the indices of every key. */
  lemma {:induction false} MergeKeysGet(s: Spots, keys: seq<char>, at: map<char, set<nat>>, x: char)
    requires forall c :: c in keys ==> c in at
    ensures Get(MergeKeys(s, keys, at), x) == Get(s, x) + (if x in keys then at[x] else {})
    decreases |keys|
  {
    if keys != [] {
      var n := |keys| - 1;
      var front := keys[..n];
      assert keys == front + [keys[n]];
      MergeKeysGet(s, front, at, x);
      assert x in keys <==> x in front || x == keys[n];
    }
  }

  /** The keys of `keys` that `s` does not hold yet, in order. */
  function NewKeys(s: Spots, keys: seq<char>): seq<char>
    decreases |keys|
  {
    if keys == [] then []
    else
      var n := |keys| - 1;
      NewKeys(s, keys[..n]) + (if keys[n] in s.at then [] else [keys[n]])
  }

  /** Merging distinct keys appends, in their order, those the dict does not hold yet. */
  lemma {:induction false} MergeKeysOrder(s: Spots, keys: seq<char>, at: map<char, set<nat>>)
    requires forall c :: c in keys ==> c in at
    requires Distinct(keys)
    ensures MergeKeys(s, keys, at).keys == s.keys + NewKeys(s, keys)
    decreases |keys|
  {
    if keys != [] {
      var n := |keys| - 1;
      var front := keys[..n];
      assert Distinct(front);
      MergeKeysOrder(s, front, at);
      MergeKeysDomain(s, front, at);
      assert keys[n] !in front;
    }
  }

  /** Into a dict holding none of them, all the keys are appended. */
  lemma {:induction false} NewKeysAll(s: Spots, keys: seq<char>)
    ensures (forall c :: c in keys ==> c !in s.at) ==> NewKeys(s, keys) == keys
    decreases |keys|
  {
    if keys != [] && forall c :: c in keys ==> c !in s.at {
      var n := |keys| - 1;
      NewKeysAll(s, keys[..n]);
      assert keys[n] in keys;
      assert keys == keys[..n] + [keys[n]];
    }
  }

  /** `process_present(t)`: every key of `s` keeps its indices, united with those of `t`;
      keys new to `s` are appended in the order of `t`. */
  function MergeSpots(s: Spots, t: Spots): (r: Spots)
    requires t.Valid()
    ensures s.Valid() ==> r.Valid()
    ensures forall x :: Get(r, x) == Get(s, x) + Get(t, x)
    ensures forall x :: x in r.at <==> x in s.at || x in t.at
    ensures r.keys == s.keys + NewKeys(s, t.keys)
    ensures s.Valid() && s.keys == [] ==> r.keys == t.keys
  {
    MergeKeysValid(s, t.keys, t.at);
    MergeKeysDomain(s, t.keys, t.at);
    assert forall x :: Get(MergeKeys(s, t.keys, t.at), x) == Get(s, x) + Get(t, x) by {
      forall x
        ensures Get(MergeKeys(s, t.keys, t.at), x) == Get(s, x) + Get(t, x)
      {
        MergeKeysGet(s, t.keys, t.at, x);
      }
    }
    MergeKeysOrder(s, t.keys, t.at);
    NewKeysAll(s, t.keys);
    MergeKeys(s, t.keys, t.at)
  }

  /** `process_correct`: each non-blank entry of `fill` is written into its slot when that
      slot is still blank; the loop runs over `fill` in order. */
  function FillSlots(slots: seq<char>, fill: seq<char>): (r: seq<char>)
    requires |fill| <= |slots|
    ensures |r| == |slots|
    decreases |fill|
  {
    if fill == [] then slots
    else
      var n := |fill| - 1;
      var r := FillSlots(slots, fill[..n]);
      if fill[n] != Blank && r[n] == Blank then r[n := fill[n]] else r
  }

  /** First writer wins: a fixed slot keeps its letter, a blank slot takes the entry given for it. */
  lemma {:induction false} FillSlotsAt(slots: seq<char>, fill: seq<char>, i: nat)
    requires |fill| <= |slots| && i < |slots|
    ensures FillSlots(slots, fill)[i] ==
            if i < |fill| && fill[i] != Blank && slots[i] == Blank then fill[i] else slots[i]
    decreases |fill|
  {
    if fill != [] {
      var n := |fill| - 1;
      FillSlotsAt(slots, fill[..n], i);
      FillSlotsAt(slots, fill[..n], n);
    }
  }

  /** The `correct` list `update_word` builds: the letter at each 2, a blank elsewhere. */
  function CorrectList(score: seq<Entry>): (r: seq<char>)
    ensures |r| == |score|
  {
    seq(|score|, i requires 0 <= i < |score| => if score[i].score == Correct then score[i].letter else Blank)
  }

  /** The positions at which `score` marks `c` with a 1. */
  function MarkedAt(score: seq<Entry>, c: char): set<nat> {
    set i: nat | i < |score| && score[i] == Entry(c, Present)
  }

  /** One more record entry adds at most its own index to the positions of its letter. */
  lemma MarkedAtLast(score: seq<Entry>, c: char)
    requires score != []
    ensures var n := |score| - 1;
      MarkedAt(score, c) == MarkedAt(score[..n], c) + (if score[n] == Entry(c, Present) then {n} else {})
  {
    var n := |score| - 1;
    forall i: nat
      ensures i in MarkedAt(score, c) <==> i in MarkedAt(score[..n], c) + (if score[n] == Entry(c, Present) then {n} else {})
    {
      if i < n {
        assert score[..n][i] == score[i];
      }
    }
  }

  /** The position of the first 1 for `c`, or `|score|` when there is none. */
  function FirstMark(score: seq<Entry>, c: char): (p: nat)
    ensures p <= |score|
    ensures p < |score| ==> score[p] == Entry(c, Present)
    ensures forall i :: 0 <= i < p && i < |score| ==> score[i] != Entry(c, Present)
    decreases |score|
  {
    if score == [] then 0
    else
      var n := |score| - 1;
      var f := FirstMark(score[..n], c);
      assert forall i :: 0 <= i < f && i < n ==> score[i] == score[..n][i];
      if f < n then f
      else if score[n] == Entry(c, Present) then n
      else |score|
  }

  /** A letter has a first 1 exactly when it is marked 1 somewhere. */
  lemma FirstMarkExists(score: seq<Entry>, c: char)
    ensures FirstMark(score, c) < |score| <==> MarkedAt(score, c) != {}
  {
    var p := FirstMark(score, c);
    if p < |score| {
      assert p in MarkedAt(score, c);
    }
  }

  /** A first 1 within the prefix stays the first 1. */
  lemma FirstMarkPrefix(score: seq<Entry>, c: char)
    requires score != [] && FirstMark(score[..|score| - 1], c) < |score| - 1
    ensures FirstMark(score, c) == FirstMark(score[..|score| - 1], c)
  {
  }

  /** A letter with no 1 in the prefix has its first 1 at a last entry marking it 1. */
  lemma FirstMarkLast(score: seq<Entry>)
    requires score != [] && score[|score| - 1].score == Present
    requires FirstMark(score[..|score| - 1], score[|score| - 1].letter) == |score| - 1
    ensures FirstMark(score, score[|score| - 1].letter) == |score| - 1
  {
  }

  /** The local `present` dict `update_word` builds: each letter marked 1, with the
      positions it was marked 1 at; keys in order of their first 1. */
  function Misplaced(score: seq<Entry>): (r: Spots)
    ensures r.Valid()
    ensures forall c :: Get(r, c) == MarkedAt(score, c)
    ensures forall c :: c in r.at ==> MarkedAt(score, c) != {}
    ensures forall i, j :: 0 <= i < j < |r.keys| ==> FirstMark(score, r.keys[i]) < FirstMark(score, r.keys[j])
    ensures forall i :: 0 <= i < |r.keys| ==> FirstMark(score, r.keys[i]) < |score|
    decreases |score|
  {
    if score == [] then
      var r := Spots([], map[]);
      assert forall c :: Get(r, c) == {};
      r
    else
      var n := |score| - 1;
      var front := Misplaced(score[..n]);
      var r := if score[n].score == Present then Record(front, score[n].letter, {n}) else front;
      MisplacedGet(score, front, r);
      MisplacedNewKey(score, front, r);
      MisplacedOrderStep(score, front.keys, r.keys);
      r
  }

  /** Keys in order of their first 1 stay so when a key whose first 1 comes after all of theirs is appended. */
  lemma AppendInOrder(score: seq<Entry>, keys: seq<char>, c: char, n: nat)
    requires n < |score| && FirstMark(score, c) == n
    requires forall i :: 0 <= i < |keys| ==> FirstMark(score, keys[i]) < n
    requires forall i, j :: 0 <= i < j < |keys| ==> FirstMark(score, keys[i]) < FirstMark(score, keys[j])
    ensures var r := keys + [c];
      forall i, j :: 0 <= i < j < |r| ==> FirstMark(score, r[i]) < FirstMark(score, r[j])
  {
  }

  /** One step of `Misplaced` records exactly the positions of the 1s. */
  lemma MisplacedGet(score: seq<Entry>, front: Spots, r: Spots)
    requires score != []
    requires forall c :: Get(front, c) == MarkedAt(score[..|score| - 1], c)
    requires r == if score[|score| - 1].score == Present then Record(front, score[|score| - 1].letter, {|score| - 1}) else front
    ensures forall c :: Get(r, c) == MarkedAt(score, c)
  {
    forall c
      ensures Get(r, c) == MarkedAt(score, c)
    {
      MarkedAtLast(score, c);
    }
  }

  /** One step of `Misplaced` appends the last letter exactly when it is a 1 with no 1 before. */
  lemma MisplacedNewKey(score: seq<Entry>, front: Spots, r: Spots)
    requires score != []
    requires forall c :: Get(front, c) == MarkedAt(score[..|score| - 1], c)
    requires r == if score[|score| - 1].score == Present then Record(front, score[|score| - 1].letter, {|score| - 1}) else front
    ensures var last := score[|score| - 1];
      r.keys == front.keys ||
      (r.keys == front.keys + [last.letter] && last.score == Present && FirstMark(score[..|score| - 1], last.letter) == |score| - 1)
  {
    var n := |score| - 1;
    var c := score[n].letter;
    if score[n].score == Present && c !in front.at {
      assert Get(front, c) == {};
      FirstMarkExists(score[..n], c);
    }
  }

  /** One step of `Misplaced`: keys of the prefix keep their first 1, and a key the last
      entry appends has its first 1 there, after all the others. */
  lemma MisplacedOrderStep(score: seq<Entry>, keys: seq<char>, grown: seq<char>)
    requires score != []
    requires forall i, j :: 0 <= i < j < |keys| ==>
      FirstMark(score[..|score| - 1], keys[i]) < FirstMark(score[..|score| - 1], keys[j])
    requires forall i :: 0 <= i < |keys| ==> FirstMark(score[..|score| - 1], keys[i]) < |score| - 1
    requires var last := score[|score| - 1];
      grown == keys ||
      (grown == keys + [last.letter] && last.score == Present && FirstMark(score[..|score| - 1], last.letter) == |score| - 1)
    ensures forall i, j :: 0 <= i < j < |grown| ==> FirstMark(score, grown[i]) < FirstMark(score, grown[j])
    ensures forall i :: 0 <= i < |grown| ==> FirstMark(score, grown[i]) < |score|
  {
    var n := |score| - 1;
    forall i | 0 <= i < |keys|
      ensures FirstMark(score, keys[i]) == FirstMark(score[..n], keys[i])
    {
      FirstMarkPrefix(score, keys[i]);
    }
    if grown != keys {
      FirstMarkLast(score);
      AppendInOrder(score, keys, score[n].letter, n);
    }
  }

  /** Hence the first key, the only one `is_present` reads, is the letter of the first 1. */
  lemma MisplacedFirstKey(score: seq<Entry>, p: nat)
    requires p < |score| && score[p].score == Present
    requires forall i :: 0 <= i < p ==> score[i].score != Present
    ensures Misplaced(score).keys != [] && Misplaced(score).keys[0] == score[p].letter
  {
    var r := Misplaced(score);
    var c := score[p].letter;
    assert p in MarkedAt(score, c);
    assert c in r.at;
    var j :| 0 <= j < |r.keys| && r.keys[j] == c;
    assert FirstMark(score, c) == p;
  }

  /** One more record entry records its own index when it is a 1. */
  lemma MisplacedStep(score: seq<Entry>, i: nat)
    requires i < |score|
    ensures Misplaced(score[..i + 1]) ==
            if score[i].score == Present then Record(Misplaced(score[..i]), score[i].letter, {i})
            else Misplaced(score[..i])
  {
    assert score[..i + 1][..i] == score[..i];
  }

  /** The local `absent` set: letters marked 0 that do not occur in `exclude`. */
  function AbsentLetters(score: seq<Entry>, exclude: seq<char>): set<char> {
    set i | 0 <= i < |score| && score[i].score == Absent && score[i].letter !in exclude :: score[i].letter
  }

  /** One more record entry adds at most its own letter to the local `absent` set. */
  lemma AbsentLettersStep(score: seq<Entry>, exclude: seq<char>, i: nat)
    requires i < |score|
    ensures AbsentLetters(score[..i + 1], exclude) ==
            AbsentLetters(score[..i], exclude) +
            (if score[i].score == Absent && score[i].letter !in exclude then {score[i].letter} else {})
  {
    var long, short := score[..i + 1], score[..i];
    assert forall m :: 0 <= m < i ==> long[m] == short[m];
    assert long[i] == score[i];
  }

  /** One more record entry appends one slot to the local `correct` list. */
  lemma CorrectListStep(score: seq<Entry>, i: nat)
    requires i < |score|
    ensures CorrectList(score[..i + 1]) ==
            CorrectList(score[..i]) + [if score[i].score == Correct then score[i].letter else Blank]
  {
  }

  /** The loop that opens `update_word`: one pass over the record building the local
      `correct` list, `present` dict and `absent` set. A letter marked 0 is left out of
      `absent` when it occurs in `exclude` (the guard of barebones_solver.py passes the
      fixed slots; test.py passes nothing). */
  method Classify(score: seq<Entry>, exclude: seq<char>) returns (fill: seq<char>, marked: Spots, out: set<char>)
    ensures fill == CorrectList(score)
    ensures marked == Misplaced(score)
    ensures out == AbsentLetters(score, exclude)
  {
    fill, marked, out := [], NoSpots, {};
    for i := 0 to |score|
      invariant fill == CorrectList(score[..i])
      invariant marked == Misplaced(score[..i])
      invariant out == AbsentLetters(score[..i], exclude)
    {
      var e := score[i];
      MisplacedStep(score, i);
      AbsentLettersStep(score, exclude, i);
      CorrectListStep(score, i);
      if e.score == Absent && e.letter !in exclude {
        out := out + {e.letter};
      }
      if e.score == Present {
        if e.letter in marked.at {
          marked := Spots(marked.keys, marked.at[e.letter := marked.at[e.letter] + {i}]);
        } else {
          marked := Spots(marked.keys + [e.letter], marked.at[e.letter := {i}]);
        }
      }
      if e.score == Correct {
        fill := fill + [e.letter];
      } else {
        fill := fill + [Blank];
      }
    }
    assert score[..|score|] == score;
  }

  /** What a `Word` knows: the fixed slots (`word`), the misplaced letters (`present`)
      and the letters ruled out (`absent`). */
  datatype Knowledge = Knowledge(word: seq<char>, present: Spots, absent: set<char>)

  /** The state of a fresh `Word` of `n` letters. */
  function Initial(n: nat): (k: Knowledge)
    ensures |k.word| == n && k.present.Valid()
  {
    Knowledge(seq(n, _ => Blank), NoSpots, {})
  }

  /** `update_word` up to the re-filtering: classify the record, then `process_correct`,
      `process_absent` and `process_present`. With `guarded` (barebones_solver.py) a letter
      marked 0 is ruled out only if it is not in `word` as it stood before this guess;
      without it (test.py) every letter marked 0 is ruled out. */
  function Merge(k: Knowledge, score: seq<Entry>, guarded: bool): (r: Knowledge)
    requires |score| <= |k.word|
    ensures |r.word| == |k.word|
  {
    Knowledge(FillSlots(k.word, CorrectList(score)),
              MergeSpots(k.present, Misplaced(score)),
              k.absent + AbsentLetters(score, if guarded then k.word else []))
  }

  /** The merge only ever adds knowledge. */
  lemma MergeGrows(k: Knowledge, score: seq<Entry>, guarded: bool)
    requires |score| <= |k.word|
    ensures var r := Merge(k, score, guarded);
      && (forall i :: 0 <= i < |k.word| && k.word[i] != Blank ==> r.word[i] == k.word[i])
      && (forall i :: 0 <= i < |score| && score[i].score == Correct && k.word[i] == Blank ==>
            r.word[i] == score[i].letter)
      && (forall i :: 0 <= i < |k.word| && k.word[i] == Blank && !(i < |score| && score[i].score == Correct) ==>
            r.word[i] == Blank)
      && k.present.keys <= r.present.keys
      && (forall c :: Get(k.present, c) <= Get(r.present, c))
      && (forall c :: MarkedAt(score, c) <= Get(r.present, c))
      && (forall c :: c in r.present.at <==> c in k.present.at || MarkedAt(score, c) != {})
      && k.absent <= r.absent
  {
    var r := Merge(k, score, guarded);
    forall i | 0 <= i < |k.word|
      ensures r.word[i] == if i < |score| && score[i].score == Correct && score[i].letter != Blank && k.word[i] == Blank
                           then score[i].letter else k.word[i]
    {
      FillSlotsAt(k.word, CorrectList(score), i);
    }
  }

  /** A letter newly ruled out was marked 0, and under the guard was not already fixed. */
  lemma MergeAbsent(k: Knowledge, score: seq<Entry>, guarded: bool, c: char)
    requires |score| <= |k.word|
    requires c in Merge(k, score, guarded).absent && c !in k.absent
    ensures exists i :: 0 <= i < |score| && score[i] == Entry(c, Absent)
    ensures guarded ==> c !in k.word
  {
    var i :| 0 <= i < |score| && score[i].score == Absent && score[i].letter !in (if guarded then k.word else [])
             && score[i].letter == c;
    assert score[i] == Entry(c, Absent);
  }

  /** A record no longer than the slots keeps every candidate indexable. */
  lemma MergeFits(k: Knowledge, score: seq<Entry>, guarded: bool, w: string)
    requires |score| <= |k.word| && Fits(k, w)
    ensures Fits(Merge(k, score, guarded), w)
  {
    var r := Merge(k, score, guarded);
    forall c | c in r.present.at
      ensures Below(r.present.at[c], |w|)
    {
      assert r.present.at[c] == Get(k.present, c) + MarkedAt(score, c);
      if c in k.present.at {
        assert Below(k.present.at[c], |w|);
      }
    }
  }

  /** Hence every candidate that fits before the merge fits after it. */
  lemma MergeFitsAll(k: Knowledge, score: seq<Entry>, guarded: bool, ws: seq<string>)
    requires |score| <= |k.word|
    requires forall w :: w in ws ==> Fits(k, w)
    ensures forall w :: w in ws ==> Fits(Merge(k, score, guarded), w)
  {
    forall w | w in ws
      ensures Fits(Merge(k, score, guarded), w)
    {
      MergeFits(k, score, guarded, w);
    }
  }

  // ---------------------------------------------------------------------------
  // The candidate filter

  /** The predicates can index `w` wherever they look. */
  ghost predicate Fits(k: Knowledge, w: string) {
    |k.word| <= |w| && SpotsBelow(k.present, |w|)
  }

  /** `is_absent`: no letter of `w` has been ruled out. */
  predicate IsAbsentOk(k: Knowledge, w: string) {
    forall i :: 0 <= i < |w| ==> w[i] !in k.absent
  }

  /** `is_present`: with no misplaced letters, true; otherwise it decides on the FIRST
      key alone: `w` must contain that letter and not at any of its excluded indices. */
  predicate IsPresentOk(k: Knowledge, w: string)
    requires SpotsBelow(k.present, |w|)
  {
    k.present.keys == [] ||
    (var c := k.present.keys[0];
     c in w && forall i :: i in Get(k.present, c) ==> w[i] != c)
  }

  /** `is_correct`: `w` agrees with every fixed slot. */
  predicate IsCorrectOk(k: Knowledge, w: string)
    requires |k.word| <= |w|
  {
    forall i :: 0 <= i < |k.word| && k.word[i] != Blank ==> w[i] == k.word[i]
  }

  predicate Keep(k: Knowledge, w: string)
    requires Fits(k, w)
  {
    IsAbsentOk(k, w) && IsPresentOk(k, w) && IsCorrectOk(k, w)
  }

  /** The new word list of `process_word_list`: the words of `ws` that pass, in order. */
  function Filter(k: Knowledge, ws: seq<string>): (r: seq<string>)
    requires forall w :: w in ws ==> Fits(k, w)
    ensures forall w :: w in r ==> w in ws && Keep(k, w)
    decreases |ws|
  {
    if ws == [] then []
    else
      var n := |ws| - 1;
      assert ws[n] in ws;
      Filter(k, ws[..n]) + (if Keep(k, ws[n]) then [ws[n]] else [])
  }

  /** `is_absent`, as the loop that returns on the first ruled-out letter. */
  method IsAbsent(k: Knowledge, w: string) returns (ok: bool)
    ensures ok == IsAbsentOk(k, w)
  {
    for i := 0 to |w|
      invariant forall m :: 0 <= m < i ==> w[m] !in k.absent
    {
      if w[i] in k.absent {
        return false;
      }
    }
    return true;
  }

  /** `is_present`: the loop over `present.items()` returns while still on its first key. */
  method IsPresent(k: Knowledge, w: string) returns (ok: bool)
    requires k.present.Valid() && SpotsBelow(k.present, |w|)
    ensures ok == IsPresentOk(k, w)
  {
    if k.present.keys == [] {
      return true;
    }
    var c := k.present.keys[0];
    if c !in w {
      return false;
    }
    var locs := k.present.at[c];
    while locs != {}
      invariant locs <= k.present.at[c]
      invariant forall i :: i in k.present.at[c] && i !in locs ==> w[i] != c
      decreases |locs|
    {
      var i :| i in locs;
      if w[i] == c {
        return false;
      }
      locs := locs - {i};
    }
    return true;
  }

  /** `is_correct`, as the loop that returns on the first fixed slot `w` disagrees with. */
  method IsCorrect(k: Knowledge, w: string) returns (ok: bool)
    requires |k.word| <= |w|
    ensures ok == IsCorrectOk(k, w)
  {
    for i := 0 to |k.word|
      invariant forall m :: 0 <= m < i && k.word[m] != Blank ==> w[m] == k.word[m]
    {
      if k.word[i] != Blank && k.word[i] != w[i] {
        return false;
      }
    }
    return true;
  }

  /** The loop of `process_word_list` that builds `new_word_list`. */
  method FilterWords(k: Knowledge, ws: seq<string>) returns (kept: seq<string>)
    requires k.present.Valid()
    requires forall w :: w in ws ==> Fits(k, w)
    ensures kept == Filter(k, ws)
  {
    kept := [];
    for i := 0 to |ws|
      invariant forall w :: w in ws[..i] ==> Fits(k, w)
      invariant kept == Filter(k, ws[..i])
    {
      var w := ws[i];
      assert w in ws && Fits(k, w);
      assert ws[..i + 1] == ws[..i] + [w];
      assert ws[..i + 1][..i] == ws[..i];
      var pass := IsAbsent(k, w);
      if pass {
        pass := IsPresent(k, w);
      }
      if pass {
        pass := IsCorrect(k, w);
      }
      if pass {
        kept := kept + [w];
      }
    }
    assert ws[..|ws|] == ws;
  }

  /** A word is kept exactly when it was a candidate and passes all three checks. */
  lemma {:induction false} FilterMembers(k: Knowledge, ws: seq<string>)
    requires forall w :: w in ws ==> Fits(k, w)
    ensures forall w :: w in Filter(k, ws) <==> w in ws && Keep(k, w)
    decreases |ws|
  {
    if ws != [] {
      var n := |ws| - 1;
      FilterMembers(k, ws[..n]);
      assert ws == ws[..n] + [ws[n]];
    }
  }

  /** The filtered list is an order-preserving sublist of the old one, so never longer. */
  lemma {:induction false} FilterSubseq(k: Knowledge, ws: seq<string>)
    requires forall w :: w in ws ==> Fits(k, w)
    ensures Subseq(Filter(k, ws), ws)
    ensures |Filter(k, ws)| <= |ws|
    decreases |ws|
  {
    if ws != [] {
      var n := |ws| - 1;
      var front := Filter(k, ws[..n]);
      FilterSubseq(k, ws[..n]);
      assert ws[..|ws| - 1] == ws[..n];
      if Keep(k, ws[n]) {
        var r := front + [ws[n]];
        assert r == Filter(k, ws);
        assert r[..|r| - 1] == front && r[|r| - 1] == ws[|ws| - 1];
        assert Subseq(r, ws);
      } else {
        assert front == Filter(k, ws);
        assert Subseq(front, ws);
      }
    }
    SubseqLength(Filter(k, ws), ws);
  }

  /** A list every word of which passes is left as it is. */
  lemma {:induction false} FilterAllKept(k: Knowledge, ws: seq<string>)
    requires forall w :: w in ws ==> Fits(k, w) && Keep(k, w)
    ensures Filter(k, ws) == ws
    decreases |ws|
  {
    if ws != [] {
      var n := |ws| - 1;
      FilterAllKept(k, ws[..n]);
      assert ws[n] in ws;
      assert ws == ws[..n] + [ws[n]];
    }
  }

  /** Filtering twice with the same knowledge removes nothing more. */
  lemma FilterIdempotent(k: Knowledge, ws: seq<string>)
    requires forall w :: w in ws ==> Fits(k, w)
    ensures forall w :: w in Filter(k, ws) ==> Fits(k, w)
    ensures Filter(k, Filter(k, ws)) == Filter(k, ws)
  {
    FilterMembers(k, ws);
    FilterAllKept(k, Filter(k, ws));
  }

  // ---------------------------------------------------------------------------
  // The answer survives the guarded merge

  /** `answer` does not hold `c` at any index in `locs`. */
  ghost predicate NotAt(answer: string, c: char, locs: set<nat>) {
    forall i :: i in locs ==> i < |answer| && answer[i] != c
  }

  /** Everything `k` records is true of `answer`. */
  ghost predicate Consistent(k: Knowledge, answer: string) {
    && |k.word| == |answer|
    && (forall i :: 0 <= i < |answer| ==> k.word[i] == Blank || k.word[i] == answer[i])
    && (forall c :: c in k.absent ==> c !in answer)
    && (forall c :: c in k.present.at ==> c in answer)
    && (forall c :: c in k.present.at ==> NotAt(answer, c, k.present.at[c]))
  }

  lemma ConsistentInitial(answer: string)
    ensures Consistent(Initial(|answer|), answer)
  {
  }

  /** A consistent state keeps the answer, whatever key `is_present` happens to look at first. */
  lemma ConsistentKeeps(k: Knowledge, answer: string)
    requires Consistent(k, answer) && k.present.Valid()
    ensures Fits(k, answer) && Keep(k, answer)
  {
    forall c | c in k.present.at
      ensures Below(k.present.at[c], |answer|)
    {
      assert NotAt(answer, c, k.present.at[c]);
    }
    if k.present.keys != [] {
      assert k.present.keys[0] in k.present.at;
    }
  }

  /** Slots are only ever filled with the answer's own letters. */
  lemma MergedSlotsConsistent(k: Knowledge, answer: string, guess: string, score: seq<Entry>, guarded: bool)
    requires Consistent(k, answer)
    requires IsFeedback(answer, guess, k.word, score)
    ensures var r := Merge(k, score, guarded);
      forall i :: 0 <= i < |answer| ==> r.word[i] == Blank || r.word[i] == answer[i]
  {
    var r := Merge(k, score, guarded);
    forall i | 0 <= i < |answer|
      ensures r.word[i] == Blank || r.word[i] == answer[i]
    {
      FillSlotsAt(k.word, CorrectList(score), i);
      if i < |score| && score[i].score == Correct {
        assert score[i] == Entry(guess[i], ScoreAt(answer, k.word, guess[i], i));
      }
    }
  }

  /** Under the guard, no letter of the answer is ever ruled out. */
  lemma GuardedAbsentConsistent(k: Knowledge, answer: string, guess: string, score: seq<Entry>)
    requires Consistent(k, answer)
    requires IsFeedback(answer, guess, k.word, score)
    ensures forall c :: c in Merge(k, score, true).absent ==> c !in answer
  {
    forall c | c in Merge(k, score, true).absent && c !in k.absent
      ensures c !in answer
    {
      MergeAbsent(k, score, true, c);
      var i :| 0 <= i < |score| && score[i] == Entry(c, Absent);
      assert score[i] == Entry(guess[i], ScoreAt(answer, k.word, guess[i], i));
      assert !Unaccounted(answer, c, k.word);
    }
  }

  /** A letter marked 1 is in the answer, but not at a position it was marked 1 at. */
  lemma MarkedConsistent(answer: string, guess: string, known: string, score: seq<Entry>, c: char)
    requires IsFeedback(answer, guess, known, score)
    ensures MarkedAt(score, c) != {} ==> c in answer
    ensures NotAt(answer, c, MarkedAt(score, c))
  {
    forall i | i in MarkedAt(score, c)
      ensures i < |answer| && answer[i] != c && c in answer
    {
      assert score[i] == Entry(guess[i], ScoreAt(answer, known, guess[i], i));
    }
  }

  /** The misplaced-letter part of the merge stays true of the answer. */
  lemma MergedPresentConsistent(k: Knowledge, answer: string, guess: string, score: seq<Entry>, guarded: bool)
    requires Consistent(k, answer)
    requires IsFeedback(answer, guess, k.word, score)
    ensures var r := Merge(k, score, guarded);
      forall c :: c in r.present.at ==> c in answer && NotAt(answer, c, r.present.at[c])
  {
    var r := Merge(k, score, guarded);
    forall c | c in r.present.at
      ensures c in answer && NotAt(answer, c, r.present.at[c])
    {
      MarkedConsistent(answer, guess, k.word, score, c);
      assert r.present.at[c] == Get(k.present, c) + MarkedAt(score, c);
      if c in k.present.at {
        assert NotAt(answer, c, k.present.at[c]);
      }
    }
  }

  /** The guarded merge of true feedback for `answer` keeps the state consistent with it:
      a letter marked 0 that the answer holds has all its copies fixed already, so it is in
      `word` and the guard keeps it out of `absent`. */
  lemma GuardedMergeConsistent(k: Knowledge, answer: string, guess: string, score: seq<Entry>)
    requires Consistent(k, answer) && k.present.Valid()
    requires IsFeedback(answer, guess, k.word, score)
    ensures Consistent(Merge(k, score, true), answer)
  {
    MergedSlotsConsistent(k, answer, guess, score, true);
    GuardedAbsentConsistent(k, answer, guess, score);
    MergedPresentConsistent(k, answer, guess, score, true);
  }

  /** Hence the answer, once a candidate, stays one after every guarded update. */
  lemma GuardedUpdateKeepsAnswer(k: Knowledge, answer: string, guess: string, score: seq<Entry>, ws: seq<string>)
    requires Consistent(k, answer) && k.present.Valid()
    requires IsFeedback(answer, guess, k.word, score)
    requires forall w :: w in ws ==> Fits(Merge(k, score, true), w)
    requires answer in ws
    ensures answer in Filter(Merge(k, score, true), ws)
  {
    var r := Merge(k, score, true);
    GuardedMergeConsistent(k, answer, guess, score);
    ConsistentKeeps(r, answer);
    FilterMembers(r, ws);
  }

  /** Without the guard: once one letter is both fixed in a slot and ruled out, no word passes. */
  lemma FixedAndAbsentEmpties(k: Knowledge, ws: seq<string>, i: nat)
    requires forall w :: w in ws ==> Fits(k, w)
    requires i < |k.word| && k.word[i] != Blank && k.word[i] in k.absent
    ensures Filter(k, ws) == []
  {
    FilterMembers(k, ws);
    if Filter(k, ws) != [] {
      assert Filter(k, ws)[0] in Filter(k, ws);
      assert false;
    }
  }

  /** An unguarded update in which some letter is marked both 2 (into a slot that was blank
      or already held it) and 0 leaves no candidate at all. */
  lemma UnguardedZeroAndTwoEmpties(k: Knowledge, score: seq<Entry>, ws: seq<string>, i: nat, j: nat)
    requires |score| <= |k.word|
    requires i < |score| && j < |score|
    requires score[i].score == Correct && score[j] == Entry(score[i].letter, Absent)
    requires k.word[i] == Blank || k.word[i] == score[i].letter
    requires score[i].letter != Blank
    requires forall w :: w in ws ==> Fits(Merge(k, score, false), w)
    ensures Filter(Merge(k, score, false), ws) == []
  {
    var r := Merge(k, score, false);
    FillSlotsAt(k.word, CorrectList(score), i);
    assert r.word[i] == score[i].letter;
    assert score[i].letter in AbsentLetters(score, []);
    FixedAndAbsentEmpties(r, ws, i);
  }

  // ---------------------------------------------------------------------------
  // Merging the same record twice

  lemma FillSlotsTwice(slots: seq<char>, fill: seq<char>)
    requires |fill| <= |slots|
    ensures FillSlots(FillSlots(slots, fill), fill) == FillSlots(slots, fill)
  {
    var once := FillSlots(slots, fill);
    forall i | 0 <= i < |slots|
      ensures FillSlots(once, fill)[i] == once[i]
    {
      FillSlotsAt(slots, fill, i);
      FillSlotsAt(once, fill, i);
    }
  }

  lemma {:induction false} MergeKeysNothingNew(s: Spots, keys: seq<char>, at: map<char, set<nat>>)
    requires forall c :: c in keys ==> c in at && c in s.at && at[c] <= s.at[c]
    ensures MergeKeys(s, keys, at) == s
    decreases |keys|
  {
    if keys != [] {
      var n := |keys| - 1;
      assert keys == keys[..n] + [keys[n]];
      MergeKeysNothingNew(s, keys[..n], at);
      var c := keys[n];
      assert s.at[c] + at[c] == s.at[c];
      assert s.at[c := s.at[c]] == s.at;
    }
  }

  /** Re-merging a record that has already been merged changes nothing (for letters other
      than the blank, which the guard could otherwise rule out the second time). */
  lemma MergeTwice(k: Knowledge, score: seq<Entry>, guarded: bool)
    requires |score| <= |k.word| && k.present.Valid()
    requires forall i :: 0 <= i < |score| ==> score[i].letter != Blank
    ensures Merge(Merge(k, score, guarded), score, guarded) == Merge(k, score, guarded)
  {
    var once := Merge(k, score, guarded);
    FillSlotsTwice(k.word, CorrectList(score));
    var t := Misplaced(score);
    MergeKeysNothingNew(once.present, t.keys, t.at);
    MergeGrows(k, score, guarded);
    forall c | c in AbsentLetters(score, if guarded then once.word else [])
      ensures c in once.absent
    {
      var i :| 0 <= i < |score| && score[i].score == Absent
               && score[i].letter !in (if guarded then once.word else []) && score[i].letter == c;
      assert guarded ==> c !in k.word;
    }
  }
}
